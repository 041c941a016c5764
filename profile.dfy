/** The client-side checks of the profile page, static/js/profile.js: password strength,
    the strength indicator, field validation and the two form checks. Lengths count
    characters. */
module Profile {
  import opened Base
  import opened Text

  // ---------------------------------------------------------------------------
  // Password strength (`calculatePasswordStrength`)
  // ---------------------------------------------------------------------------

  predicate IsLower(c: char) { 'a' <= c <= 'z' }
  predicate IsUpper(c: char) { 'A' <= c <= 'Z' }
  /** Matches `[^A-Za-z0-9]`. */
  predicate IsSymbol(c: char) { !IsLower(c) && !IsUpper(c) && !IsDigit(c) }

  predicate HasLower(p: string) { exists k :: 0 <= k < |p| && IsLower(p[k]) }
  predicate HasUpper(p: string) { exists k :: 0 <= k < |p| && IsUpper(p[k]) }
  predicate HasDigitChar(p: string) { exists k :: 0 <= k < |p| && IsDigit(p[k]) }
  predicate HasSymbol(p: string) { exists k :: 0 <= k < |p| && IsSymbol(p[k]) }

  function Point(b: bool): nat { if b then 1 else 0 }

  /** The six criteria the score counts, one point each. */
  function Points(p: string): nat {
    Point(|p| >= 8) + Point(|p| >= 12) + Point(HasLower(p)) + Point(HasUpper(p))
    + Point(HasDigitChar(p)) + Point(HasSymbol(p))
  }

  /** The score, capped at 4. */
  function Strength(p: string): (s: nat)
    ensures s <= 4 && s <= Points(p)
    ensures Points(p) <= 4 ==> s == Points(p)
    ensures Points(p) > 4 ==> s == 4
  {
    if Points(p) < 4 then Points(p) else 4
  }

  method CalculatePasswordStrength(password: string) returns (strength: int)
    ensures strength == Strength(password)
  {
    var score := 0;
    if |password| >= 8 { score := score + 1; }
    if |password| >= 12 { score := score + 1; }
    if HasLower(password) { score := score + 1; }
    if HasUpper(password) { score := score + 1; }
    if HasDigitChar(password) { score := score + 1; }
    if HasSymbol(password) { score := score + 1; }
    strength := if score < 4 then score else 4;
  }

  /** Every character meets one of the four class criteria, so the score is 0 exactly for
      the empty password. */
  lemma StrengthZeroIffEmpty(p: string)
    ensures Strength(p) == 0 <==> p == ""
  {
    if p != "" {
      var c := p[0];
      if IsLower(c) { assert HasLower(p); }
      else if IsUpper(c) { assert HasUpper(p); }
      else if IsDigit(c) { assert HasDigitChar(p); }
      else { assert HasSymbol(p); }
    }
  }

  /** Typing more characters never lowers the score. */
  lemma StrengthMonotone(p: string, q: string)
    ensures Strength(p) <= Strength(p + q)
  {
    var pq := p + q;
    if HasLower(p) { var k :| 0 <= k < |p| && IsLower(p[k]); assert pq[k] == p[k]; }
    if HasUpper(p) { var k :| 0 <= k < |p| && IsUpper(p[k]); assert pq[k] == p[k]; }
    if HasDigitChar(p) { var k :| 0 <= k < |p| && IsDigit(p[k]); assert pq[k] == p[k]; }
    if HasSymbol(p) { var k :| 0 <= k < |p| && IsSymbol(p[k]); assert pq[k] == p[k]; }
  }

  // ---------------------------------------------------------------------------
  // Strength indicator (`updateStrengthIndicator`)
  // ---------------------------------------------------------------------------

  const Colors: seq<string> := ["#dc3545", "#fd7e14", "#ffc107", "#28a745"]
  const Labels: seq<string> := ["Very Weak", "Weak", "Fair", "Strong"]
  const Widths: seq<int> := [25, 50, 75, 100]

  datatype Indicator = Indicator(color: string, caption: string, width: int)

  /** `Math.min(strength, 3)`: always an index of the four-entry tables. */
  function IndicatorIndex(strength: int): (i: int)
    requires strength >= 0
    ensures 0 <= i < |Labels| && 0 <= i < |Colors| && 0 <= i < |Widths|
    ensures i <= strength && (strength <= 3 ==> i == strength)
  {
    if strength < 3 then strength else 3
  }

  function IndicatorFor(strength: int): (ind: Indicator)
    requires strength >= 0
    ensures ind.caption == Labels[IndicatorIndex(strength)] && ind.color == Colors[IndicatorIndex(strength)]
    ensures ind.width == Widths[IndicatorIndex(strength)]
  {
    var i := IndicatorIndex(strength);
    Indicator(Colors[i], Labels[i], Widths[i])
  }

  /** Strengths 3 and 4 show the same "Strong" bar. */
  lemma StrongAtThreeAndFour()
    ensures IndicatorFor(3) == IndicatorFor(4)
    ensures IndicatorFor(3).caption == "Strong" && IndicatorFor(3).width == 100
  {
  }

  /** The indicator is only shown for a non-empty password, whose strength is at least 1:
      the "Very Weak" entry is never displayed. */
  lemma VeryWeakNeverShown(p: string)
    requires |p| > 0
    ensures IndicatorFor(Strength(p)).caption != "Very Weak"
  {
    StrengthZeroIffEmpty(p);
  }

  // ---------------------------------------------------------------------------
  // Field validation (`validateInput`)
  // ---------------------------------------------------------------------------

  /** The parts of an `<input>` the validator reads. */
  datatype Input = Input(value: string, required: bool, inputType: string, id: string)

  /** A character `[^\s@]` accepts. */
  predicate Plain(c: char) { !IsSpace(c) && c != '@' }

  predicate AllPlain(s: string) { forall k :: 0 <= k < |s| ==> Plain(s[k]) }

  /** `/^[^\s@]+@[^\s@]+\.[^\s@]+$/` read as a decomposition: some `@` at `i` and some `.` at
      `j` split the text into three non-empty runs of plain characters. */
  predicate EmailPattern(s: string) {
    exists i, j :: 0 < i && i + 1 < j && j + 1 < |s| && s[i] == '@' && s[j] == '.'
      && AllPlain(s[..i]) && AllPlain(s[i + 1..j]) && AllPlain(s[j + 1..])
  }

  /** The index of the first `@`. */
  function FirstAt(s: string): (r: Option<nat>)
    ensures r.None? ==> forall k :: 0 <= k < |s| ==> s[k] != '@'
    ensures r.Some? ==> r.value < |s| && s[r.value] == '@' && forall k :: 0 <= k < r.value ==> s[k] != '@'
  {
    if s == [] then None
    else if s[0] == '@' then Some(0)
    else match FirstAt(s[1..])
      case None => None
      case Some(k) => Some(k + 1)
  }

  /** The email test computed in one pass over the text: a first `@` after a non-empty
      prefix, no white space and no second `@`, and a `.` strictly inside what follows. */
  predicate EmailValid(s: string) {
    match FirstAt(s)
    case None => false
    case Some(i) => i > 0 && AllPlain(s[..i]) && AllPlain(s[i + 1..]) && i + 3 <= |s| && '.' in s[i + 2..|s| - 1]
  }

  lemma AllPlainSlice(t: string, lo: nat, hi: nat)
    requires AllPlain(t) && lo <= hi <= |t|
    ensures AllPlain(t[lo..hi])
  {
    var u := t[lo..hi];
    forall k | 0 <= k < |u| ensures Plain(u[k]) {
      assert u[k] == t[lo + k];
    }
  }

  lemma AllPlainConcat(a: string, b: string)
    requires AllPlain(a) && AllPlain(b)
    ensures AllPlain(a + b)
  {
    var ab := a + b;
    forall k | 0 <= k < |ab| ensures Plain(ab[k]) {
      if k < |a| { assert ab[k] == a[k]; } else { assert ab[k] == b[k - |a|]; }
    }
  }

  /** The one-pass test accepts exactly the texts the pattern matches. */
  lemma EmailValidMatchesPattern(s: string)
    ensures EmailValid(s) <==> EmailPattern(s)
  {
    if EmailValid(s) {
      EmailValidSplits(s);
    }
    if EmailPattern(s) {
      EmailPatternPasses(s);
    }
  }

  lemma EmailValidSplits(s: string)
    requires EmailValid(s)
    ensures EmailPattern(s)
  {
    var i := FirstAt(s).value;
    var rest := s[i + 2..|s| - 1];
    var m :| 0 <= m < |rest| && rest[m] == '.';
    var j := i + 2 + m;
    assert s[j] == rest[m];
    PlainAround(s, i + 1, j);
    PatternAt(s, i, j);
  }

  /** Both sides of a position inside a plain run are plain runs. */
  lemma PlainAround(s: string, lo: nat, j: nat)
    requires lo <= j < |s| && AllPlain(s[lo..])
    ensures AllPlain(s[lo..j]) && AllPlain(s[j + 1..])
  {
    var r := s[lo..];
    assert s[lo..j] == r[..j - lo];
    assert s[j + 1..] == r[j - lo + 1..];
    AllPlainSlice(r, 0, j - lo);
    AllPlainSlice(r, j - lo + 1, |r|);
  }

  /** An `@` at `i` and a `.` at `j` that split the text into plain runs witness the
      pattern. */
  lemma PatternAt(s: string, i: nat, j: nat)
    requires 0 < i && i + 1 < j && j + 1 < |s| && s[i] == '@' && s[j] == '.'
    requires AllPlain(s[..i]) && AllPlain(s[i + 1..j]) && AllPlain(s[j + 1..])
    ensures EmailPattern(s)
  {
  }

  lemma EmailPatternPasses(s: string)
    requires EmailPattern(s)
    ensures EmailValid(s)
  {
    var i, j :| 0 < i && i + 1 < j && j + 1 < |s| && s[i] == '@' && s[j] == '.'
      && AllPlain(s[..i]) && AllPlain(s[i + 1..j]) && AllPlain(s[j + 1..]);
    FirstAtIs(s, i);
    AfterAtPlain(s, i, j);
    DotInside(s, i + 2, j);
  }

  /** A `.` at `j`, strictly inside the text and at or after `lo`, is in `s[lo..|s| - 1]`. */
  lemma DotInside(s: string, lo: nat, j: nat)
    requires lo <= j < |s| - 1 && s[j] == '.'
    ensures '.' in s[lo..|s| - 1]
  {
    assert s[lo..|s| - 1][j - lo] == s[j];
  }

  /** An `@` with only plain characters before it is the first one. */
  lemma FirstAtIs(s: string, i: nat)
    requires i < |s| && s[i] == '@' && AllPlain(s[..i])
    ensures FirstAt(s) == Some(i)
  {
    forall k | 0 <= k < i ensures s[k] != '@' {
      assert s[k] == s[..i][k];
    }
  }

  /** The text after the `@` is itself all plain: two plain runs around a `.`. */
  lemma AfterAtPlain(s: string, i: nat, j: nat)
    requires i + 1 <= j < |s| && s[j] == '.'
    requires AllPlain(s[i + 1..j]) && AllPlain(s[j + 1..])
    ensures AllPlain(s[i + 1..])
  {
    assert s[i + 1..] == s[i + 1..j] + [s[j]] + s[j + 1..];
    AllPlainConcat(s[i + 1..j], [s[j]]);
    AllPlainConcat(s[i + 1..j] + [s[j]], s[j + 1..]);
  }

  predicate IsWordChar(c: char) { IsLower(c) || IsUpper(c) || IsDigit(c) || c == '_' }

  /** `/^[a-zA-Z0-9_]{3,20}$/`. */
  predicate UsernameValid(s: string) {
    3 <= |s| <= 20 && forall k :: 0 <= k < |s| ==> IsWordChar(s[k])
  }

  /** `validateInput(input)` on the trimmed value. */
  function ValidateInput(input: Input): (ok: bool)
    ensures var v := Trim(input.value);
      ok <==> && !(input.required && v == "")
              && (input.inputType == "email" && v != "" ==> EmailPattern(v))
              && (input.id == "username" && v != "" ==> UsernameValid(v))
  {
    var value := Trim(input.value);
    EmailValidMatchesPattern(value);
    if input.required && value == "" then false
    else if input.inputType == "email" && value != "" && !EmailValid(value) then false
    else if input.id == "username" && value != "" && !UsernameValid(value) then false
    else true
  }

  /** An optional field left blank, or holding only white space, always passes. */
  lemma BlankOptionalPasses(input: Input)
    requires !input.required
    requires forall k :: 0 <= k < |input.value| ==> IsSpace(input.value[k])
    ensures ValidateInput(input)
  {
    TrimEmptyIff(input.value);
  }

  // ---------------------------------------------------------------------------
  // Form checks
  // ---------------------------------------------------------------------------

  /** `validatePasswordMatch()`: `None` is the `undefined` returned for an empty
      confirmation. */
  function ValidatePasswordMatch(newPassword: string, confirmPassword: string): (r: Option<bool>)
    ensures r.None? <==> confirmPassword == ""
    ensures r.Some? ==> (r.value <==> newPassword == confirmPassword)
  {
    if confirmPassword == "" then None else Some(newPassword == confirmPassword)
  }

  datatype PasswordFormCheck = FieldsMissing | TooShort | NoMatch | Accepted

  /** `validatePasswordForm()`: empty fields first, then length, then the match. */
  function ValidatePasswordForm(currentPassword: string, newPassword: string, confirmPassword: string): (r: PasswordFormCheck)
    ensures r == Accepted ==> currentPassword != "" && |newPassword| >= 8 && newPassword == confirmPassword
  {
    if currentPassword == "" || newPassword == "" || confirmPassword == "" then FieldsMissing
    else if |newPassword| < 8 then TooShort
    else
      match ValidatePasswordMatch(newPassword, confirmPassword)
      case Some(true) => Accepted
      case _ => NoMatch
  }

  lemma PasswordFormOrder(currentPassword: string, newPassword: string, confirmPassword: string)
    ensures var r := ValidatePasswordForm(currentPassword, newPassword, confirmPassword);
      && (r == Accepted <==> currentPassword != "" && |newPassword| >= 8 && newPassword == confirmPassword)
      && (r == FieldsMissing <==> currentPassword == "" || newPassword == "" || confirmPassword == "")
      && (r == TooShort <==> currentPassword != "" && newPassword != "" && confirmPassword != "" && |newPassword| < 8)
      && (r == NoMatch <==> currentPassword != "" && confirmPassword != "" && |newPassword| >= 8 && newPassword != confirmPassword)
  {
  }

  /** An optional input, or a required one that passes `validateInput`. */
  predicate RequiredOk(input: Input) {
    input.required ==> ValidateInput(input)
  }

  /** Every required input among `inputs` passes `validateInput`. */
  predicate RequiredPass(inputs: seq<Input>) {
    AllOf(inputs, RequiredOk)
  }

  /** `RequiredPass` holds exactly when no required input fails. */
  lemma RequiredPassEach(inputs: seq<Input>)
    ensures RequiredPass(inputs) <==> forall k :: 0 <= k < |inputs| && inputs[k].required ==> ValidateInput(inputs[k])
  {
    AllOfEach(inputs, RequiredOk);
  }

  /** `validateProfileForm()`: every required input is validated (none is skipped after a
      failure) and the form passes when all of them do. */
  method ValidateProfileForm(inputs: seq<Input>) returns (isValid: bool)
    ensures isValid <==> RequiredPass(inputs)
  {
    isValid := true;
    var i := 0;
    while i < |inputs|
      invariant 0 <= i <= |inputs|
      invariant isValid <==> AllOf(inputs[..i], RequiredOk)
    {
      AllOfStep(inputs, i, RequiredOk);
      if inputs[i].required && !ValidateInput(inputs[i]) {
        isValid := false;
      }
      i := i + 1;
    }
    assert inputs[..i] == inputs;
  }
}
