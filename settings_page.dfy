/** The client-side checks and the time formatter of the settings page,
    static/js/settings.js. */
module SettingsPage {
  import opened Base
  import opened Text

  // ---------------------------------------------------------------------------
  // Field validation (`validateInput`)
  // ---------------------------------------------------------------------------

  /** The `type` attribute of an `<input>`: the three the validator knows, or any other. */
  datatype InputType = Number | Time | Text | OtherType(name: string)

  /** The attribute text as the type it names. */
  function TypeOf(name: string): (t: InputType)
    ensures t.OtherType? <==> name !in {"number", "time", "text"}
    ensures t == Number <==> name == "number"
    ensures t == Time <==> name == "time"
    ensures t == Text <==> name == "text"
  {
    if name == "number" then Number else if name == "time" then Time
    else if name == "text" then Text else OtherType(name)
  }

  /** The parts of an `<input>` the validator reads; an absent `min` or `max` attribute
      reads as "". */
  datatype Input = Input(value: string, inputType: InputType, min: string, max: string, required: bool)

  /** `parseInt(input.min) || 0`: NaN and 0 both give 0. */
  function LowerBound(min: string): (lo: int)
    ensures ParseInt(min).Some? ==> lo == ParseInt(min).value
    ensures ParseInt(min).None? ==> lo == 0
  {
    match ParseInt(min)
    case None => 0
    case Some(n) => n
  }

  /** `parseInt(input.max) || Infinity`: NaN and 0 both leave the field unbounded (`None`). */
  function UpperBound(max: string): (hi: Option<int>)
    ensures hi.None? <==> ParseInt(max).None? || ParseInt(max).value == 0
    ensures hi.Some? ==> hi == ParseInt(max)
  {
    match ParseInt(max)
    case None => None
    case Some(n) => if n == 0 then None else Some(n)
  }

  predicate NumberValid(value: string, min: string, max: string) {
    && value != ""
    && ParseInt(value).Some?
    && LowerBound(min) <= ParseInt(value).value
    && (UpperBound(max).None? || ParseInt(value).value <= UpperBound(max).value)
  }

  /** `validateInput(input)`, on the trimmed value, by input type. */
  function ValidateInput(input: Input): (ok: bool)
    ensures input.inputType == Number ==> (ok <==> NumberValid(Trim(input.value), input.min, input.max))
    ensures input.inputType == Time ==> (ok <==> Trim(input.value) != "")
    ensures input.inputType == Text ==> (ok <==> !(input.required && Trim(input.value) == ""))
    ensures input.inputType.OtherType? ==> ok
  {
    var value := Trim(input.value);
    match input.inputType
    case Number =>
      var lo := LowerBound(input.min);
      var hi := UpperBound(input.max);
      var n := ParseInt(value);
      !(value == "" || n.None? || n.value < lo || (hi.Some? && n.value > hi.value))
    case Time => value != ""
    case Text => !(input.required && value == "")
    case OtherType(_) => true
  }

  /** A `max` of "0" does not cap the field: any number at or above `min` passes. */
  lemma ZeroMaxIsUnbounded(value: string)
    requires value != "" && AllDigits(value)
    ensures ValidateInput(Input(value, Number, "", "0", false))
  {
    ParseIntOfDigits(value);
    DigitsTrimmed(value);
    assert UpperBound("0").None? by { ParseIntOfDigits("0"); assert DigitsValue("0") == 0; }
    assert LowerBound("") == 0 by { ParseIntEmpty(); }
  }

  /** Digit attributes bound the field by the numbers they denote; a `max` of zero leaves it
      unbounded. */
  lemma DigitBounds(min: string, max: string)
    requires min != "" && AllDigits(min) && max != "" && AllDigits(max)
    ensures LowerBound(min) == DigitsValue(min)
    ensures UpperBound(max) == if DigitsValue(max) == 0 then None else Some(DigitsValue(max))
  {
    ParseIntOfDigits(min);
    ParseIntOfDigits(max);
  }

  /** With digit attributes and a nonzero `max`, a digit value passes exactly when it lies
      between the two. */
  lemma NumberWithinBounds(value: string, min: string, max: string, required: bool)
    requires value != "" && AllDigits(value) && min != "" && AllDigits(min) && max != "" && AllDigits(max)
    requires DigitsValue(max) != 0
    ensures ValidateInput(Input(value, Number, min, max, required))
      <==> DigitsValue(min) <= DigitsValue(value) <= DigitsValue(max)
  {
    DigitBounds(min, max);
    ParseIntOfDigits(value);
    DigitsTrimmed(value);
  }

  lemma DigitsTrimmed(s: string)
    requires s != [] && AllDigits(s)
    ensures Trim(s) == s
  {
    assert !IsSpace(s[0]);
    assert TrimLeft(s, IsSpace) == s;
    assert !IsSpace(s[|s| - 1]);
  }

  // ---------------------------------------------------------------------------
  // Form validation (`validateForm`)
  // ---------------------------------------------------------------------------

  /** The inputs `validateForm` selects. */
  predicate Checked(input: Input) {
    !input.inputType.OtherType?
  }

  /** `startTime && endTime && startTime >= endTime`, on the raw values. */
  predicate RangeInverted(startTime: string, endTime: string) {
    startTime != "" && endTime != "" && !StrLess(startTime, endTime)
  }

  /** An input `validateForm` does not select, or one that passes `validateInput`. */
  predicate Passes(input: Input) {
    Checked(input) ==> ValidateInput(input)
  }

  /** Every selected input among `inputs` passes `validateInput`. */
  predicate AllPass(inputs: seq<Input>) {
    AllOf(inputs, Passes)
  }

  /** `AllPass` holds exactly when no selected input fails. */
  lemma AllPassEach(inputs: seq<Input>)
    ensures AllPass(inputs) <==> forall k :: 0 <= k < |inputs| ==> Passes(inputs[k])
  {
    AllOfEach(inputs, Passes);
  }

  /** `validateForm()`: every selected input is validated, none skipped after a failure,
      and then the default window must not be inverted. */
  method ValidateForm(inputs: seq<Input>, startTime: string, endTime: string) returns (isValid: bool)
    ensures isValid <==> AllPass(inputs) && !RangeInverted(startTime, endTime)
  {
    isValid := true;
    var i := 0;
    while i < |inputs|
      invariant 0 <= i <= |inputs|
      invariant isValid <==> AllOf(inputs[..i], Passes)
    {
      AllOfStep(inputs, i, Passes);
      if Checked(inputs[i]) && !ValidateInput(inputs[i]) {
        isValid := false;
      }
      i := i + 1;
    }
    assert inputs[..i] == inputs;
    if startTime != "" && endTime != "" && !StrLess(startTime, endTime) {
      isValid := false;
    }
  }

  /** A well-formed `HH:MM` value, as a time input produces it. */
  predicate IsHHMM(s: string) {
    && |s| == 5 && IsDigit(s[0]) && IsDigit(s[1]) && s[2] == ':' && IsDigit(s[3]) && IsDigit(s[4])
    && DigitValue(s[3]) < 6
  }

  function MinutesOf(s: string): int
    requires IsHHMM(s)
  {
    (DigitValue(s[0]) * 10 + DigitValue(s[1])) * 60 + DigitValue(s[3]) * 10 + DigitValue(s[4])
  }

  lemma StrLessStep(a: string, b: string)
    requires a != [] && b != []
    ensures StrLess(a, b) <==> (a[0] < b[0] || (a[0] == b[0] && StrLess(a[1..], b[1..])))
  {
  }

  /** On well-formed values the string comparison is the chronological one, so the window
      check rejects exactly an end that is not after the start. */
  lemma RangeCheckIsChronological(startTime: string, endTime: string)
    requires IsHHMM(startTime) && IsHHMM(endTime)
    ensures RangeInverted(startTime, endTime) <==> MinutesOf(startTime) >= MinutesOf(endTime)
  {
    var a, b := startTime, endTime;
    StrLessStep(a, b);
    StrLessStep(a[1..], b[1..]);
    StrLessStep(a[2..], b[2..]);
    StrLessStep(a[3..], b[3..]);
    StrLessStep(a[4..], b[4..]);
    assert a[1..][1..] == a[2..] && b[1..][1..] == b[2..];
    assert a[2..][1..] == a[3..] && b[2..][1..] == b[3..];
    assert a[3..][1..] == a[4..] && b[3..][1..] == b[4..];
    assert a[4..][1..] == [] && b[4..][1..] == [];
  }

  // ---------------------------------------------------------------------------
  // 24-hour to 12-hour formatting (`formatTime`)
  // ---------------------------------------------------------------------------

  /** JavaScript `%`: the remainder takes the sign of the dividend. */
  function JsRem(a: int, b: int): (r: int)
    requires b > 0
    ensures -b < r < b
    ensures a >= 0 ==> r == a % b
    ensures a < 0 ==> r <= 0 && r == -((-a) % b)
  {
    if a >= 0 then a % b else -((-a) % b)
  }

  /** `hour % 12 || 12`: a NaN or zero remainder shows as 12. */
  function Hour12(hour: Option<int>): (h: int)
    ensures h != 0 && -12 < h <= 12
  {
    match hour
    case None => 12
    case Some(n) => if JsRem(n, 12) == 0 then 12 else JsRem(n, 12)
  }

  /** `hour >= 12 ? 'PM' : 'AM'`; NaN compares false. */
  function Suffix(hour: Option<int>): (s: string)
    ensures s == "PM" <==> hour.Some? && hour.value >= 12
  {
    if hour.Some? && hour.value >= 12 then "PM" else "AM"
  }

  /** `formatTime(time24)`. A value without `:` prints its minutes as "undefined". */
  function FormatTime(time24: string): string {
    var parts := Split(time24, ':');
    var minutes := if |parts| >= 2 then parts[1] else "undefined";
    var hour := ParseInt(parts[0]);
    IntToString(Hour12(hour)) + ":" + minutes + " " + Suffix(hour)
  }

  /** Whatever the text, the result ends in " AM" or " PM", PM exactly when the part before
      the first `:` reads as an hour of 12 or more. */
  lemma FormatTimeSuffix(time24: string)
    ensures var s := FormatTime(time24);
      && |s| >= 5 && s[|s| - 3..] == " " + Suffix(ParseInt(Split(time24, ':')[0]))
  {
    var parts := Split(time24, ':');
    var minutes := if |parts| >= 2 then parts[1] else "undefined";
    var hour := ParseInt(parts[0]);
    var head := IntToString(Hour12(hour)) + ":" + minutes;
    var tail := " " + Suffix(hour);
    assert FormatTime(time24) == head + tail;
    assert (head + tail)[|head + tail| - 3..] == tail;
  }

  /** A two-digit hour from 0 to 23 comes out on the 12-hour clock, midnight and noon as 12,
      PM from 12 on, with the minutes text kept as it was. */
  lemma FormatTimeOfHour(h: nat, minutes: string)
    requires h < 24 && ':' !in minutes
    ensures FormatTime(Pad2(h) + ":" + minutes)
      == IntToString(if h % 12 == 0 then 12 else h % 12) + ":" + minutes + " " + (if h >= 12 then "PM" else "AM")
  {
    var hh := Pad2(h);
    DigitsExclude(hh, ':');
    SplitAfter(hh, ':', minutes);
    SplitNone(minutes, ':');
    assert hh + ":" + minutes == hh + [':'] + minutes;
    ParseIntOfDigits(hh);
  }
}
