/** The `json.dumps` / `json.loads` pair as the application uses it: to turn a
    badge list (or whatever value an update supplies for `badges`) into the
    text stored in the `badges` column, and back again in `to_dict`.

    `Encode` writes the same shapes `json.dumps` writes (`null`, a quoted
    string, a decimal integer, `["a", "b"]` with the `", "` separator);
    `Decode` reads exactly that grammar back. The round trip
    `Decode(Encode(v)) == Some(v)` is the fact the stores rely on. */
module Json {
  import opened Common
  import opened Values
  import PyStr

  function EscapeChar(c: char): string {
    if c == '"' || c == '\\' then ['\\', c] else [c]
  }

  /** The body of a JSON string literal: quote and backslash are escaped. */
  function Escape(s: string): string {
    if |s| == 0 then "" else EscapeChar(s[0]) + Escape(s[1..])
  }

  function Quote(s: string): string {
    "\"" + Escape(s) + "\""
  }

  function EncodeItems(xs: seq<string>): string {
    if |xs| == 0 then ""
    else if |xs| == 1 then Quote(xs[0])
    else Quote(xs[0]) + ", " + EncodeItems(xs[1..])
  }

  /** `json.dumps(v)`. */
  function Encode(v: Value): (t: string)
    ensures |t| > 0
  {
    match v
    case VNone => "null"
    case VStr(s) => Quote(s)
    case VInt(i) => PyStr.IntToString(i)
    case VList(xs) => "[" + EncodeItems(xs) + "]"
  }

  /** Reads the body of a string literal up to its closing quote and returns
      the decoded text together with everything after the quote. */
  function ParseString(t: string): (r: Option<(string, string)>)
    ensures r.Some? ==> |r.value.1| < |t|
  {
    if |t| == 0 then None
    else if t[0] == '"' then Some(("", t[1..]))
    else if t[0] == '\\' then
      if |t| >= 2 && (t[1] == '"' || t[1] == '\\') then
        match ParseString(t[2..])
        case None => None
        case Some(p) => Some(([t[1]] + p.0, p.1))
      else None
    else
      match ParseString(t[1..])
      case None => None
      case Some(p) => Some(([t[0]] + p.0, p.1))
  }

  /** Reads one or more string literals separated by `", "` and closed by
      `]`, returning the strings and everything after the bracket. */
  function ParseItems(t: string): (r: Option<(seq<string>, string)>)
    ensures r.Some? ==> |r.value.1| < |t|
    decreases |t|
  {
    if |t| == 0 || t[0] != '"' then None
    else
      match ParseString(t[1..])
      case None => None
      case Some(p) =>
        var rest := p.1;
        if |rest| > 0 && rest[0] == ']' then Some(([p.0], rest[1..]))
        else if |rest| >= 2 && rest[0] == ',' && rest[1] == ' ' then
          match ParseItems(rest[2..])
          case None => None
          case Some(q) => Some(([p.0] + q.0, q.1))
        else None
  }

  /** Reads what follows a `[` up to the end of the text. */
  function ParseList(t: string): Option<seq<string>> {
    if t == "]" then Some([])
    else
      match ParseItems(t)
      case Some(p) => if p.1 == "" then Some(p.0) else None
      case None => None
  }

  function ParseInt(t: string): Option<int> {
    if |t| > 0 && t[0] == '-' && PyStr.IsDigits(t[1..]) then
      var n: int := PyStr.ParseNat(t[1..]);
      Some(-n)
    else if PyStr.IsDigits(t) then Some(PyStr.ParseNat(t))
    else None
  }

  /** `json.loads(t)` on the grammar `Encode` writes; `None` stands for the
      exception `json.loads` raises on anything else. */
  function Decode(t: string): Option<Value> {
    if t == "null" then Some(VNone)
    else if |t| > 0 && t[0] == '"' then
      match ParseString(t[1..])
      case Some(p) => if p.1 == "" then Some(VStr(p.0)) else None
      case None => None
    else if |t| > 0 && t[0] == '[' then
      match ParseList(t[1..])
      case Some(xs) => Some(VList(xs))
      case None => None
    else
      match ParseInt(t)
      case Some(i) => Some(VInt(i))
      case None => None
  }

  lemma {:induction false} ParseStringEscape(s: string, rest: string)
    ensures ParseString(Escape(s) + "\"" + rest) == Some((s, rest))
    decreases |s|
  {
    var t := Escape(s) + "\"" + rest;
    if |s| == 0 {
      assert t == "\"" + rest;
    } else {
      var c := s[0];
      ParseStringEscape(s[1..], rest);
      assert [c] + s[1..] == s;
      if c == '"' || c == '\\' {
        assert t == ['\\', c] + (Escape(s[1..]) + "\"" + rest);
        assert t[2..] == Escape(s[1..]) + "\"" + rest;
      } else {
        assert t == [c] + (Escape(s[1..]) + "\"" + rest);
        assert t[1..] == Escape(s[1..]) + "\"" + rest;
      }
    }
  }

  /** The last literal of a list, closed by `]`. */
  lemma ParseItemsLast(x: string, rest: string)
    ensures ParseItems(Quote(x) + ("]" + rest)) == Some(([x], rest))
  {
    var t := Quote(x) + ("]" + rest);
    assert t[1..] == Escape(x) + "\"" + ("]" + rest);
    ParseStringEscape(x, "]" + rest);
    assert ("]" + rest)[1..] == rest;
  }

  /** One literal followed by `", "` and the rest of the items. */
  lemma ParseItemsCons(x: string, u: string)
    requires ParseItems(u).Some?
    ensures ParseItems(Quote(x) + (", " + u)) == Some(([x] + ParseItems(u).value.0, ParseItems(u).value.1))
  {
    var t := Quote(x) + (", " + u);
    assert t[1..] == Escape(x) + "\"" + (", " + u);
    ParseStringEscape(x, ", " + u);
    assert (", " + u)[2..] == u;
  }

  /** The encoded items of a longer list: the first literal, `", "`, the
      others. */
  lemma EncodeItemsShape(xs: seq<string>, rest: string)
    requires |xs| >= 1
    ensures |xs| == 1 ==> EncodeItems(xs) + "]" + rest == Quote(xs[0]) + ("]" + rest)
    ensures |xs| >= 2 ==> EncodeItems(xs) + "]" + rest == Quote(xs[0]) + (", " + (EncodeItems(xs[1..]) + "]" + rest))
  {
    var q := Quote(xs[0]);
    if |xs| == 1 {
      assert EncodeItems(xs) == q;
      Assoc(q, "]", rest, "");
    } else {
      var e := EncodeItems(xs[1..]);
      assert EncodeItems(xs) == q + ", " + e;
      Assoc(q, ", ", e, "]" + rest);
      Assoc(q + ", " + e, "]", rest, "");
      Assoc(e, "]", rest, "");
    }
  }

  lemma Assoc(a: string, b: string, c: string, d: string)
    ensures a + b + c == a + (b + c)
    ensures a + b + c + d == a + (b + (c + d))
  {
  }

  lemma {:induction false} ParseItemsEncode(xs: seq<string>, rest: string)
    requires |xs| >= 1
    ensures ParseItems(EncodeItems(xs) + "]" + rest) == Some((xs, rest))
    decreases |xs|
  {
    EncodeItemsShape(xs, rest);
    if |xs| == 1 {
      ParseItemsLast(xs[0], rest);
      assert [xs[0]] == xs;
    } else {
      ParseItemsEncode(xs[1..], rest);
      ParseItemsCons(xs[0], EncodeItems(xs[1..]) + "]" + rest);
      assert [xs[0]] + xs[1..] == xs;
    }
  }

  lemma DecodeEncodeStr(s: string)
    ensures Decode(Quote(s)) == Some(VStr(s))
  {
    var t := Quote(s);
    assert t[0] == '"';
    assert t != "null";
    ParseStringEscape(s, "");
    assert t[1..] == Escape(s) + "\"" + "";
  }

  /** `int(str(i)) == i` on the integer grammar. */
  lemma ParseIntToString(i: int)
    ensures ParseInt(PyStr.IntToString(i)) == Some(i)
  {
    var t := PyStr.IntToString(i);
    if i < 0 {
      var d := PyStr.NatToString(-i);
      PyStr.ParseNatToString(-i);
      assert t == "-" + d;
      assert t[1..] == d;
    } else {
      PyStr.ParseNatToString(i);
      assert t[0] != '-';
    }
  }

  lemma DecodeEncodeInt(i: int)
    ensures Decode(PyStr.IntToString(i)) == Some(VInt(i))
  {
    var t := PyStr.IntToString(i);
    ParseIntToString(i);
    assert t[0] == '-' || PyStr.IsDigit(t[0]);
    assert t != "null" by { assert t[0] != 'n'; }
  }

  lemma DecodeEncodeList(xs: seq<string>)
    ensures Decode("[" + EncodeItems(xs) + "]") == Some(VList(xs))
  {
    var t := "[" + EncodeItems(xs) + "]";
    assert t[0] == '[';
    assert t != "null";
    assert t[1..] == EncodeItems(xs) + "]";
    if |xs| > 0 {
      ParseItemsEncode(xs, "");
      assert EncodeItems(xs) + "]" + "" == EncodeItems(xs) + "]";
      assert t[1..][0] == '"';
    }
  }

  /** `json.loads(json.dumps(v)) == v` for every value the stores handle. */
  lemma DecodeEncode(v: Value)
    ensures Decode(Encode(v)) == Some(v)
  {
    match v
    case VNone =>
    case VStr(s) => DecodeEncodeStr(s);
    case VInt(i) => DecodeEncodeInt(i);
    case VList(xs) => DecodeEncodeList(xs);
  }
}
