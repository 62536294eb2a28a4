/** Small shared vocabulary: an optional value and the prefix/suffix tests that
    Python's `str.startswith` / `str.endswith` perform. */
module Common {

  /** Python's `None` or a present value. */
  datatype Option<+T> = None | Some(value: T) {

    /** Returns the value, or `default` when absent. */
    function GetOr(default: T): T {
      match this
      case Some(v) => v
      case None => default
    }
  }

  /** `s.startswith(p)`: case-sensitive, character by character. */
  predicate StartsWith(s: string, p: string) {
    |p| <= |s| && s[..|p|] == p
  }

  /** `s.endswith(p)`: case-sensitive, character by character. */
  predicate EndsWith(s: string, p: string) {
    |p| <= |s| && s[|s| - |p|..] == p
  }

  lemma StartsWithConcat(p: string, rest: string)
    ensures StartsWith(p + rest, p)
  {
    assert (p + rest)[..|p|] == p;
  }

  lemma EndsWithConcat(rest: string, p: string)
    ensures EndsWith(rest + p, p)
  {
    assert (rest + p)[|rest + p| - |p|..] == p;
  }
}
