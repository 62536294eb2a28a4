/** The declared field rules of the dog tracker's forms (`DogForm`,
    `LoginForm`, `UserForm` in `application.py`) and the Bristol-scale
    parse / pre-populate pair of the event routes.

    A field's rules run as a chain over its submitted text. `InputRequired`
    fails on an empty submission, throws away the errors gathered so far and
    stops the chain; every other rule adds its message and lets the chain go
    on. A `SelectField` checks its choices before the chain runs, so that
    check sits first. The character-class patterns are `re.match` of
    `^[C]+$`, where `$` also matches just before a final newline. */
module Forms {
  import opened Common
  import PyStr

  // ------------------------------------------------------- character classes

  predicate IsLower(c: char) { 'a' <= c <= 'z' }
  predicate IsUpper(c: char) { 'A' <= c <= 'Z' }
  predicate IsLetter(c: char) { IsLower(c) || IsUpper(c) }

  /** The specials of the password rule: `@$!%*?&`. */
  predicate IsSpecial(c: char) {
    c == '@' || c == '$' || c == '!' || c == '%' || c == '*' || c == '?' || c == '&'
  }

  /** The bracketed classes the forms use. */
  datatype CharClass =
    | NameChars      // [a-zA-Z\s\-\'\.]      dog name, full name
    | AgeChars       // [a-zA-Z0-9\s\-\'\.]   approximate age
    | BreedChars     // [a-zA-Z\s\-\'\.\,\&]  breed / type
    | UsernameChars  // [a-zA-Z0-9_-]         user name

  predicate InClass(c: char, k: CharClass) {
    var named := IsLetter(c) || PyStr.IsSpace(c) || c == '-' || c == '\'' || c == '.';
    match k
    case NameChars => named
    case AgeChars => named || PyStr.IsDigit(c)
    case BreedChars => named || c == ',' || c == '&'
    case UsernameChars => IsLetter(c) || PyStr.IsDigit(c) || c == '_' || c == '-'
  }

  predicate AllIn(s: string, k: CharClass) {
    forall i :: 0 <= i < |s| ==> InClass(s[i], k)
  }

  /** The greedy run `[C]+` takes: the longest prefix of class characters. */
  function Run(s: string, k: CharClass): (n: nat)
    ensures n <= |s|
    ensures forall i :: 0 <= i < n ==> InClass(s[i], k)
    ensures n < |s| ==> !InClass(s[n], k)
  {
    if |s| > 0 && InClass(s[0], k) then 1 + Run(s[1..], k) else 0
  }

  /** `re.match(r'^[C]+$', s)`: the run is non-empty and stops at the end of
      the text or at a final newline. Backtracking cannot help: a shorter
      run would stop before a class character, where `$` never matches. */
  predicate MatchesClass(s: string, k: CharClass) {
    var n := Run(s, k);
    n >= 1 && (n == |s| || (n == |s| - 1 && s[n] == '\n'))
  }

  /** What `^[C]+$` accepts, stated without the matcher: a non-empty text of
      class characters, optionally followed by one newline. */
  lemma MatchesClassIff(s: string, k: CharClass)
    ensures MatchesClass(s, k) <==>
      (|s| >= 1 && AllIn(s, k)) || (|s| >= 2 && s[|s| - 1] == '\n' && AllIn(s[..|s| - 1], k))
  {
    var n := Run(s, k);
    if |s| >= 2 && s[|s| - 1] == '\n' && AllIn(s[..|s| - 1], k) {
      assert forall i :: 0 <= i < |s| - 1 ==> InClass(s[i], k) by {
        forall i | 0 <= i < |s| - 1 ensures InClass(s[i], k) { assert s[..|s| - 1][i] == s[i]; }
      }
      assert n >= |s| - 1;
    }
    if MatchesClass(s, k) && n == |s| - 1 {
      var t := s[..|s| - 1];
      assert AllIn(t, k) by {
        forall i | 0 <= i < |t| ensures InClass(t[i], k) { assert t[i] == s[i]; }
      }
    }
  }

  /** The classes that contain `\s` contain the newline, so for them the
      final-newline case adds nothing: the pattern accepts exactly the
      non-empty texts of class characters. */
  lemma MatchesSpaceClass(s: string, k: CharClass)
    requires k != UsernameChars
    ensures MatchesClass(s, k) <==> |s| >= 1 && AllIn(s, k)
  {
    MatchesClassIff(s, k);
    if |s| >= 2 && s[|s| - 1] == '\n' && AllIn(s[..|s| - 1], k) {
      forall i | 0 <= i < |s| ensures InClass(s[i], k) {
        if i < |s| - 1 { assert s[..|s| - 1][i] == s[i]; }
      }
    }
  }

  /** The user-name class has no whitespace, yet a name followed by one
      newline still passes the pattern. */
  lemma UsernameTrailingNewline()
    ensures MatchesClass("bob\n", UsernameChars)
    ensures !AllIn("bob\n", UsernameChars)
  {
    assert Run("bob\n", UsernameChars) == 3 by {
      assert "bob\n"[1..] == "ob\n";
      assert "ob\n"[1..] == "b\n";
      assert "b\n"[1..] == "\n";
    }
    assert !InClass("bob\n"[3], UsernameChars);
  }

  // ------------------------------------------------------------ the password

  /** The classes of the password pattern's look-aheads. */
  datatype PwClass = Lower | Upper | Digit | Special

  predicate InPw(c: char, k: PwClass) {
    match k
    case Lower => IsLower(c)
    case Upper => IsUpper(c)
    case Digit => PyStr.IsDigit(c)
    case Special => IsSpecial(c)
  }

  /** The text before the first newline: the part a `.*` can cross. */
  function FirstLine(s: string): (r: string)
    ensures |r| <= |s| && r == s[..|r|]
    ensures forall i :: 0 <= i < |r| ==> r[i] != '\n'
    ensures |r| < |s| ==> s[|r|] == '\n'
  {
    if |s| == 0 || s[0] == '\n' then "" else [s[0]] + FirstLine(s[1..])
  }

  /** The look-ahead `(?=.*[X])` at the start of the text: scanning forward
      without crossing a newline, some character of class `k` turns up. */
  predicate LookAhead(s: string, k: PwClass) {
    |s| > 0 && s[0] != '\n' && (InPw(s[0], k) || LookAhead(s[1..], k))
  }

  /** The look-ahead succeeds exactly when the first line holds a character
      of the class. */
  lemma {:induction false} LookAheadIff(s: string, k: PwClass)
    ensures LookAhead(s, k) <==> exists i :: 0 <= i < |FirstLine(s)| && InPw(FirstLine(s)[i], k)
    decreases |s|
  {
    if |s| > 0 && s[0] != '\n' {
      LookAheadIff(s[1..], k);
      var f := FirstLine(s);
      assert f == [s[0]] + FirstLine(s[1..]);
      if exists i :: 0 <= i < |f| && InPw(f[i], k) {
        var i :| 0 <= i < |f| && InPw(f[i], k);
        if i > 0 { assert FirstLine(s[1..])[i - 1] == f[i]; }
      }
      if exists i :: 0 <= i < |FirstLine(s[1..])| && InPw(FirstLine(s[1..])[i], k) {
        var i :| 0 <= i < |FirstLine(s[1..])| && InPw(FirstLine(s[1..])[i], k);
        assert f[i + 1] == FirstLine(s[1..])[i];
      }
    }
  }

  /** `re.match` of `^(?=.*[a-z])(?=.*[A-Z])(?=.*\d)(?=.*[@$!%*?&])[A-Za-z\d@$!%*?&]`:
      four look-aheads from the start, then one allowed first character.
      Nothing anchors the end, so later characters are unrestricted. */
  predicate PasswordPattern(s: string) {
    && LookAhead(s, Lower) && LookAhead(s, Upper) && LookAhead(s, Digit) && LookAhead(s, Special)
    && |s| > 0 && (IsLetter(s[0]) || PyStr.IsDigit(s[0]) || IsSpecial(s[0]))
  }

  // ------------------------------------------------------- the rule chain

  /** One validator of a field. `Length` has no upper bound when `max` is
      `-1`, as in WTForms. `Choice` is a `SelectField`'s own check. */
  datatype Rule =
    | Required(msg: string)
    | Length(min: int, max: int, msg: string)
    | Pattern(cls: CharClass, msg: string)
    | Password(msg: string)
    | OneOf(values: seq<string>, msg: string)
    | Choice(values: seq<string>, msg: string)

  predicate Accepts(r: Rule, s: string) {
    match r
    case Required(_) => s != ""
    case Length(lo, hi, _) => lo <= |s| && (hi == -1 || |s| <= hi)
    case Pattern(k, _) => MatchesClass(s, k)
    case Password(_) => PasswordPattern(s)
    case OneOf(vs, _) => s in vs
    case Choice(vs, _) => s in vs
  }

  /** Runs the chain with the errors gathered so far in `acc`. */
  function RunChain(rules: seq<Rule>, s: string, acc: seq<string>): (r: seq<string>)
    ensures r == [] <==> acc == [] && forall i :: 0 <= i < |rules| ==> Accepts(rules[i], s)
    ensures (forall i :: 0 <= i < |rules| ==> Accepts(rules[i], s)) ==> r == acc
  {
    if |rules| == 0 then acc
    else if Accepts(rules[0], s) then
      assert forall i :: 1 <= i < |rules| ==> rules[1..][i - 1] == rules[i];
      RunChain(rules[1..], s, acc)
    else if rules[0].Required? then [rules[0].msg]
    else RunChain(rules[1..], s, acc + [rules[0].msg])
  }

  /** The errors a field reports. */
  function Errors(rules: seq<Rule>, s: string): seq<string> {
    RunChain(rules, s, [])
  }

  /** A two-rule field reports nothing exactly when both rules accept. */
  lemma Clean2(rules: seq<Rule>, s: string)
    requires |rules| == 2
    ensures Errors(rules, s) == [] <==> Accepts(rules[0], s) && Accepts(rules[1], s)
  {
    if Accepts(rules[0], s) && Accepts(rules[1], s) {
      assert forall i :: 0 <= i < |rules| ==> Accepts(rules[i], s);
    }
  }

  /** A three-rule field reports nothing exactly when all three accept. */
  lemma Clean3(rules: seq<Rule>, s: string)
    requires |rules| == 3
    ensures Errors(rules, s) == [] <==> Accepts(rules[0], s) && Accepts(rules[1], s) && Accepts(rules[2], s)
  {
    if Accepts(rules[0], s) && Accepts(rules[1], s) && Accepts(rules[2], s) {
      assert forall i :: 0 <= i < |rules| ==> Accepts(rules[i], s);
    }
  }

  // ------------------------------------------------------------- the forms

  const DogName := [
    Required("Dog name is required"),
    Length(2, 100, "Dog name must be between 2 and 100 characters"),
    Pattern(NameChars, "Dog name can only contain letters, spaces, hyphens, apostrophes, and periods")]

  const DogAge := [
    Required("Approximate age is required"),
    Length(2, 50, "Age must be between 2 and 50 characters"),
    Pattern(AgeChars, "Age can only contain letters, numbers, spaces, hyphens, apostrophes, and periods")]

  const SizeChoices := ["small", "medium", "large"]

  const DogSize := [Choice(SizeChoices, "Not a valid choice."), Required("Size is required")]

  const DogBreed := [
    Required("Breed/Type is required"),
    Length(2, 100, "Breed/Type must be between 2 and 100 characters"),
    Pattern(BreedChars, "Breed/Type can only contain letters, spaces, hyphens, apostrophes, periods, commas, and ampersands")]

  const LoginUsername := [
    Required("Username is required"),
    Length(3, 80, "Username must be between 3 and 80 characters")]

  const LoginPassword := [
    Required("Password is required"),
    Length(6, -1, "Password must be at least 6 characters")]

  const UserUsername := [
    Required("Username is required"),
    Length(3, 80, "Username must be between 3 and 80 characters"),
    Pattern(UsernameChars, "Username can only contain letters, numbers, underscores, and hyphens")]

  /** The e-mail field without its syntax check, which a library performs. */
  const UserEmail := [
    Required("Email is required"),
    Length(-1, 120, "Email cannot exceed 120 characters")]

  const UserFullName := [
    Required("Full name is required"),
    Length(2, 100, "Full name must be between 2 and 100 characters"),
    Pattern(NameChars, "Full name can only contain letters, spaces, hyphens, apostrophes, and periods")]

  const UserPassword := [
    Required("Password is required"),
    Length(8, -1, "Password must be at least 8 characters"),
    Password("Password must contain at least one uppercase letter, one lowercase letter, one number, and one special character")]

  const Roles := ["admin", "manager", "employee"]

  const UserRole := [Required("Role is required"), OneOf(Roles, "Role must be admin, manager, or employee")]

  datatype DogInput = DogInput(name: string, approxAge: string, size: string, breedType: string)

  /** `DogForm().validate()`. */
  predicate DogFormValid(f: DogInput) {
    Errors(DogName, f.name) == [] && Errors(DogAge, f.approxAge) == []
    && Errors(DogSize, f.size) == [] && Errors(DogBreed, f.breedType) == []
  }

  /** The dog form's rules in plain terms: a 2..100 character name of
      letters, whitespace, `-`, `'` and `.`; a 2..50 character age that may
      also use digits; one of the three sizes; a 2..100 character breed that
      may also use `,` and `&`. */
  lemma DogFormRules(f: DogInput)
    ensures DogFormValid(f) <==>
      && 2 <= |f.name| <= 100 && AllIn(f.name, NameChars)
      && 2 <= |f.approxAge| <= 50 && AllIn(f.approxAge, AgeChars)
      && f.size in SizeChoices
      && 2 <= |f.breedType| <= 100 && AllIn(f.breedType, BreedChars)
  {
    Clean3(DogName, f.name);
    Clean3(DogAge, f.approxAge);
    Clean2(DogSize, f.size);
    Clean3(DogBreed, f.breedType);
    MatchesSpaceClass(f.name, NameChars);
    MatchesSpaceClass(f.approxAge, AgeChars);
    MatchesSpaceClass(f.breedType, BreedChars);
  }

  /** A missing size reports only that it is required: the required check
      discards the failed choice check's message. */
  lemma EmptySizeMessage()
    ensures Errors(DogSize, "") == ["Size is required"]
  {
    assert !Accepts(DogSize[0], "");
    assert RunChain(DogSize, "", []) == RunChain(DogSize[1..], "", ["Not a valid choice."]);
  }

  datatype LoginInput = LoginInput(username: string, password: string)

  predicate LoginFormValid(f: LoginInput) {
    Errors(LoginUsername, f.username) == [] && Errors(LoginPassword, f.password) == []
  }

  datatype UserInput = UserInput(username: string, email: string, fullName: string, password: string, role: string)

  /** `UserForm().validate()`; `emailSyntax` is the verdict of the e-mail
      syntax check. */
  predicate UserFormValid(f: UserInput, emailSyntax: bool) {
    && Errors(UserUsername, f.username) == [] && Errors(UserEmail, f.email) == [] && emailSyntax
    && Errors(UserFullName, f.fullName) == [] && Errors(UserPassword, f.password) == []
    && Errors(UserRole, f.role) == []
  }

  /** The password policy in plain terms: at least eight characters, a first
      character that is a letter, digit or special, and a lower-case letter,
      an upper-case letter, a digit and a special somewhere on the first
      line. */
  predicate PasswordPolicy(s: string) {
    && |s| >= 8 && (IsLetter(s[0]) || PyStr.IsDigit(s[0]) || IsSpecial(s[0]))
    && (exists i :: 0 <= i < |FirstLine(s)| && IsLower(FirstLine(s)[i]))
    && (exists i :: 0 <= i < |FirstLine(s)| && IsUpper(FirstLine(s)[i]))
    && (exists i :: 0 <= i < |FirstLine(s)| && PyStr.IsDigit(FirstLine(s)[i]))
    && (exists i :: 0 <= i < |FirstLine(s)| && IsSpecial(FirstLine(s)[i]))
  }

  lemma UserPasswordRules(s: string)
    ensures Errors(UserPassword, s) == [] <==> PasswordPolicy(s)
  {
    Clean3(UserPassword, s);
    LookAheadIff(s, Lower);
    LookAheadIff(s, Upper);
    LookAheadIff(s, Digit);
    LookAheadIff(s, Special);
    var f := FirstLine(s);
    assert (exists i :: 0 <= i < |f| && InPw(f[i], Lower)) <==> (exists i :: 0 <= i < |f| && IsLower(f[i]));
    assert (exists i :: 0 <= i < |f| && InPw(f[i], Upper)) <==> (exists i :: 0 <= i < |f| && IsUpper(f[i]));
    assert (exists i :: 0 <= i < |f| && InPw(f[i], Digit)) <==> (exists i :: 0 <= i < |f| && PyStr.IsDigit(f[i]));
    assert (exists i :: 0 <= i < |f| && InPw(f[i], Special)) <==> (exists i :: 0 <= i < |f| && IsSpecial(f[i]));
  }

  /** The user form's user name in plain terms: 3..80 characters of letters,
      digits, `_` and `-`, or such a name of 2..79 characters followed by
      one newline. */
  lemma UserUsernameRules(s: string)
    ensures Errors(UserUsername, s) == [] <==>
      3 <= |s| <= 80 && (AllIn(s, UsernameChars) || (s[|s| - 1] == '\n' && AllIn(s[..|s| - 1], UsernameChars)))
  {
    Clean3(UserUsername, s);
    MatchesClassIff(s, UsernameChars);
  }

  /** Whatever the user form accepts as credentials, the login form accepts
      too: every registered user can submit the login form. */
  lemma UserCredentialsPassLogin(f: UserInput, emailSyntax: bool)
    requires UserFormValid(f, emailSyntax)
    ensures LoginFormValid(LoginInput(f.username, f.password))
  {
    Clean3(UserPassword, f.password);
    Clean3(UserUsername, f.username);
    Clean2(LoginPassword, f.password);
    Clean2(LoginUsername, f.username);
  }

  /** The role rule accepts exactly the three roles. */
  lemma UserRoleRules(s: string)
    ensures Errors(UserRole, s) == [] <==> s == "admin" || s == "manager" || s == "employee"
  {
    Clean2(UserRole, s);
  }

  // -------------------------------------------------- the Bristol scale

  /** The choices of the Bristol-scale select: not applicable, or 1 to 7. */
  const BristolChoices := ["", "1", "2", "3", "4", "5", "6", "7"]

  /** `int(v) if v and v.isdigit() else None`. */
  function ParseBristol(v: string): (r: Option<int>)
    ensures r.Some? <==> PyStr.IsDigits(v)
    ensures r.Some? ==> r.value >= 0
  {
    if v != "" && PyStr.IsDigits(v) then Some(PyStr.ParseNat(v)) else None
  }

  /** `str(b) if b else ''`: the text the edit form is filled with. */
  function Prepopulate(b: Option<int>): (v: string)
    ensures v == "" <==> b.None? || b.value == 0
  {
    if b.None? || b.value == 0 then "" else PyStr.IntToString(b.value)
  }

  /** Filling the form from a stored scale and reading it back gives the
      stored scale exactly when it is unset or positive: a stored 0 comes
      back unset, a negative number does not parse. */
  lemma BristolRoundTrip(b: Option<int>)
    ensures ParseBristol(Prepopulate(b)) == b <==> b.None? || b.value > 0
  {
    if b.Some? && b.value > 0 {
      PyStr.ParseNatToString(b.value);
    } else if b.Some? && b.value < 0 {
      assert Prepopulate(b)[0] == '-';
    }
  }

  /** Every choice survives a parse followed by a pre-populate. */
  lemma BristolChoicesRoundTrip(v: string)
    requires v in BristolChoices
    ensures Prepopulate(ParseBristol(v)) == v
    ensures ParseBristol(v).None? || 1 <= ParseBristol(v).value <= 7
  {
  }

  /** The select accepts its choices and, through `Optional`, any blank
      text. */
  predicate BristolAccepts(v: string) {
    v in BristolChoices || PyStr.Strip(v) == ""
  }

  /** An accepted Bristol value stores nothing or a scale from 1 to 7. */
  lemma BristolAcceptedRange(v: string)
    requires BristolAccepts(v)
    ensures ParseBristol(v).None? || 1 <= ParseBristol(v).value <= 7
  {
    if v !in BristolChoices && v != "" {
      PyStr.StripFacts(v);
      assert PyStr.IsSpace(v[0]);
    }
  }
}
