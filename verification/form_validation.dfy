/**
 * `FormValidationService` and the totals shown by the impact-driver and eNPS
 * steps: emptiness and status of a form group, the percentage-input check,
 * field error messages with their field-name formatting, and the "mean of
 * the filled-in fields" totals with their validity rule.
 *
 * A form group is represented by the list of its control values (what
 * `Object.values(formGroup.value)` yields); its validity, which Angular's
 * validators compute, is a parameter. Numeric fields arrive already parsed
 * (`Number(v) || 0`), as integers.
 */
module FormValidation {
  import opened Common
  import opened Averages
  import NewScenarioSteps

  // ---------------------------------------------------------------------------
  // Form-group emptiness and status
  // ---------------------------------------------------------------------------

  /** A control value as it appears in `formGroup.value`. */
  datatype FormValue = Null | Undefined | Str(s: string) | Num(n: int) | Bool(b: bool) | Arr(items: seq<string>)

  /** `null`, `undefined`, `''` or an empty array. */
  predicate IsEmptyValue(v: FormValue) {
    v.Null? || v.Undefined? || v == Str("") || v == Arr([])
  }

  /** `isFormGroupEmpty`: every value is an empty one. */
  function IsFormGroupEmpty(values: seq<FormValue>): (r: bool)
    ensures r <==> forall i :: 0 <= i < |values| ==> IsEmptyValue(values[i])
  {
    if values == [] then true
    else
      assert forall i :: 1 <= i < |values| ==> values[i] == values[1..][i - 1];
      IsEmptyValue(values[0]) && IsFormGroupEmpty(values[1..])
  }

  /** The comparison is strict: a blank string, `0` and `false` are filled in;
      one filled control makes the whole group non-empty. */
  lemma StrictEmptiness(values: seq<FormValue>, v: FormValue)
    ensures !IsFormGroupEmpty([Str(" ")]) && !IsFormGroupEmpty([Num(0)]) && !IsFormGroupEmpty([Bool(false)])
    ensures IsFormGroupEmpty(values + [v]) <==> IsFormGroupEmpty(values) && IsEmptyValue(v)
  {
    assert (values + [v])[|values|] == v;
    assert forall i :: 0 <= i < |values| ==> (values + [v])[i] == values[i];
  }

  /** `'VALID' | 'INVALID' | 'PRISTINE'`. */
  datatype StepStatus = ValidStatus | InvalidStatus | Pristine

  /** `getFormStepStatus`: pristine while untouched and empty, otherwise the
      group's validity. */
  function GetFormStepStatus(values: seq<FormValue>, valid: bool, touched: bool): (r: StepStatus)
    ensures r == Pristine <==> !touched && forall i :: 0 <= i < |values| ==> IsEmptyValue(values[i])
    ensures r != Pristine ==> (r == ValidStatus <==> valid)
  {
    if !touched && IsFormGroupEmpty(values) then Pristine
    else if valid then ValidStatus
    else InvalidStatus
  }

  /** `shouldShowFormGroupError`. */
  function ShouldShowFormGroupError(valid: bool, touched: bool): (r: bool)
    ensures r ==> touched
    ensures touched ==> (r <==> !valid)
  {
    touched && !valid
  }

  /** The service's error rule is the one the page applies to each step's
      group, and a pristine group never shows an error. */
  lemma ErrorRuleAgreesWithPage(w: NewScenarioSteps.Wizard, id: string, values: seq<FormValue>, valid: bool)
    ensures ShouldShowFormGroupError(valid, id in w.touched) == NewScenarioSteps.GroupHasError(w, id, valid)
    ensures GetFormStepStatus(values, valid, id in w.touched) == Pristine ==>
      !NewScenarioSteps.GroupHasError(w, id, valid)
  {
  }

  // ---------------------------------------------------------------------------
  // Percentage input
  // ---------------------------------------------------------------------------

  /** The result of `Number(input.value)`. */
  datatype Parsed = NaN | Number(x: real)

  /** `validatePercentageInput`'s result. */
  datatype PercentageCheck = PercentageCheck(isValid: bool, value: Option<real>, errorMessage: Option<string>)

  const NotANumberMessage := "Please enter a valid number"
  const NegativeMessage := "Value must be greater than or equal to 0"
  const AboveHundredMessage := "Value must be less than or equal to 100"

  /** `validatePercentageInput` on the parsed value: a number in `[0, 100]` is
      accepted as is; otherwise the first failing check (not a number, then
      negative, then above 100) names the error and no value is kept. */
  function ValidatePercentageInput(v: Parsed): (r: PercentageCheck)
    ensures r.isValid <==> v.Number? && 0.0 <= v.x <= 100.0
    ensures r.isValid ==> r.value == Some(v.x) && r.errorMessage.None?
    ensures !r.isValid ==> r.value.None? && r.errorMessage.Some?
    ensures r.errorMessage == Some(NotANumberMessage) <==> v.NaN?
    ensures r.errorMessage == Some(NegativeMessage) <==> v.Number? && v.x < 0.0
    ensures r.errorMessage == Some(AboveHundredMessage) <==> v.Number? && v.x > 100.0
  {
    if v.NaN? then PercentageCheck(false, None, Some(NotANumberMessage))
    else if v.x < 0.0 then PercentageCheck(false, None, Some(NegativeMessage))
    else if v.x > 100.0 then PercentageCheck(false, None, Some(AboveHundredMessage))
    else PercentageCheck(true, Some(v.x), None)
  }

  // ---------------------------------------------------------------------------
  // Field names and error messages
  // ---------------------------------------------------------------------------

  predicate IsUpper(c: char) {
    'A' <= c <= 'Z'
  }

  predicate IsLower(c: char) {
    'a' <= c <= 'z'
  }

  /** `toUpperCase` on one character, for the ASCII letters. */
  function ToUpper(c: char): (u: char)
    ensures IsLower(c) ==> IsUpper(u)
    ensures !IsLower(c) ==> u == c
  {
    if IsLower(c) then (c as int - 32) as char else c
  }

  /** The inverse of `ToUpper` on the ASCII letters. */
  function ToLower(c: char): (l: char)
    ensures IsUpper(c) ==> IsLower(l) && ToUpper(l) == c
    ensures IsLower(c) ==> ToLower(ToUpper(c)) == c
  {
    if IsUpper(c) then (c as int + 32) as char else c
  }

  /** The characters `.` does not match. */
  predicate IsLineTerminator(c: char) {
    c == '\n' || c == '\r' || c == '\U{2028}' || c == '\U{2029}'
  }

  /** One character after `replace(/([A-Z])/g, ' $1')`. */
  function Spaced(c: char): (r: string)
    ensures IsUpper(c) ==> r == [' ', c]
    ensures !IsUpper(c) ==> r == [c]
  {
    if IsUpper(c) then [' ', c] else [c]
  }

  /** `replace(/([A-Z])/g, ' $1')`: a space before every capital letter. */
  function SpaceBeforeUpper(s: string): (r: string)
    ensures |r| >= |s|
  {
    if s == [] then [] else Spaced(s[0]) + SpaceBeforeUpper(s[1..])
  }

  /** Spacing keeps the last character in place. */
  lemma {:induction false} SpacingKeepsLast(s: string)
    requires |s| > 0
    ensures var r := SpaceBeforeUpper(s); |r| > 0 && r[|r| - 1] == s[|s| - 1]
  {
    if |s| > 1 {
      SpacingKeepsLast(s[1..]);
    }
  }

  /** Spacing works character by character, so it distributes over `+`. */
  lemma {:induction false} SpaceBeforeUpperAppend(a: string, b: string)
    ensures SpaceBeforeUpper(a + b) == SpaceBeforeUpper(a) + SpaceBeforeUpper(b)
  {
    if a == [] {
      assert a + b == b;
    } else {
      var ab := a + b;
      assert ab[0] == a[0] && ab[1..] == a[1..] + b;
      SpaceBeforeUpperAppend(a[1..], b);
      calc {
        SpaceBeforeUpper(ab);
        Spaced(a[0]) + SpaceBeforeUpper(a[1..] + b);
        Spaced(a[0]) + (SpaceBeforeUpper(a[1..]) + SpaceBeforeUpper(b));
        (Spaced(a[0]) + SpaceBeforeUpper(a[1..])) + SpaceBeforeUpper(b);
      }
    }
  }

  /** A name without capitals is left as it is. */
  lemma {:induction false} NoCapitalsKept(s: string)
    requires forall i :: 0 <= i < |s| ==> !IsUpper(s[i])
    ensures SpaceBeforeUpper(s) == s
  {
    if s != [] {
      NoCapitalsKept(s[1..]);
      assert s == [s[0]] + s[1..];
    }
  }

  /** Drops every space. */
  function RemoveSpaces(s: string): (r: string) {
    if s == [] then [] else (if s[0] == ' ' then [] else [s[0]]) + RemoveSpaces(s[1..])
  }

  /** The inserted spaces are all there is to undo: dropping spaces gives the
      original name back when it had none. */
  lemma {:induction false} RemoveSpacesUndoesSpacing(s: string)
    requires forall i :: 0 <= i < |s| ==> s[i] != ' '
    ensures RemoveSpaces(SpaceBeforeUpper(s)) == s
  {
    if s != [] {
      RemoveSpacesUndoesSpacing(s[1..]);
      var head := Spaced(s[0]);
      RemoveSpacesAppend(head, SpaceBeforeUpper(s[1..]));
      if IsUpper(s[0]) {
        assert head[1..] == [s[0]];
        assert RemoveSpaces(head) == [s[0]];
      }
      assert s == [s[0]] + s[1..];
    }
  }

  lemma {:induction false} RemoveSpacesAppend(a: string, b: string)
    ensures RemoveSpaces(a + b) == RemoveSpaces(a) + RemoveSpaces(b)
  {
    if a == [] {
      assert a + b == b;
    } else {
      var ab := a + b;
      assert ab[0] == a[0] && ab[1..] == a[1..] + b;
      RemoveSpacesAppend(a[1..], b);
      var h := if a[0] == ' ' then [] else [a[0]];
      calc {
        RemoveSpaces(ab);
        h + RemoveSpaces(a[1..] + b);
        h + (RemoveSpaces(a[1..]) + RemoveSpaces(b));
        (h + RemoveSpaces(a[1..])) + RemoveSpaces(b);
      }
    }
  }

  /** `replace(/^./, c => c.toUpperCase())`: the first character, unless it
      is a line terminator, in capitals. */
  function CapitalizeFirst(s: string): (r: string)
    ensures |r| == |s|
    ensures |s| > 0 ==> r[1..] == s[1..]
  {
    if |s| > 0 && !IsLineTerminator(s[0]) then [ToUpper(s[0])] + s[1..] else s
  }

  /** A camel-case field name: a lower-case first letter and no white space. */
  predicate CamelCase(name: string) {
    |name| > 0 && IsLower(name[0]) && forall i :: 0 <= i < |name| ==> !IsWhitespace(name[i])
  }

  /** Words split at capitals: every space is followed by a capital, and
      every capital after the first character follows a space. */
  predicate SpacesBeforeCapitals(r: string) {
    (forall i :: 0 <= i < |r| && r[i] == ' ' ==> i + 1 < |r| && IsUpper(r[i + 1])) &&
    (forall i :: 0 < i < |r| && IsUpper(r[i]) ==> r[i - 1] == ' ')
  }

  /** `formatFieldName`: words split at capitals, first letter capitalised,
      outer white space removed. For a camel-case name the label starts with
      a capital, keeps the rest of the name with a space before each capital,
      and has no other spaces. */
  function FormatFieldName(name: string): (r: string)
    ensures |r| > 0 ==> !IsWhitespace(r[0]) && !IsWhitespace(r[|r| - 1])
    ensures CamelCase(name) ==> r == [ToUpper(name[0])] + SpaceBeforeUpper(name[1..])
    ensures CamelCase(name) ==> |r| > 0 && IsUpper(r[0]) && SpacesBeforeCapitals(r)
  {
    if CamelCase(name) then
      CamelLabel(name);
      LabelShape(name);
      Trim(CapitalizeFirst(SpaceBeforeUpper(name)))
    else
      Trim(CapitalizeFirst(SpaceBeforeUpper(name)))
  }

  /** Spacing a name without spaces puts a space before each capital and
      nowhere else, and never starts with a capital. */
  lemma {:induction false} SpacingShape(s: string)
    requires forall i :: 0 <= i < |s| ==> s[i] != ' '
    ensures SpacesBeforeCapitals(SpaceBeforeUpper(s))
    ensures |SpaceBeforeUpper(s)| > 0 ==> !IsUpper(SpaceBeforeUpper(s)[0])
  {
    if s != [] {
      var h := Spaced(s[0]);
      var rest := SpaceBeforeUpper(s[1..]);
      SpacingShape(s[1..]);
      assert SpacesBeforeCapitals(rest);
      var r := h + rest;
      assert SpaceBeforeUpper(s) == r;
      assert r[0] == h[0];
      forall i | 0 <= i < |r| && r[i] == ' '
        ensures i + 1 < |r| && IsUpper(r[i + 1])
      {
        if i >= |h| {
          var j := i - |h|;
          assert rest[j] == ' ';
          assert r[i + 1] == rest[j + 1];
        } else {
          assert h == [' ', s[0]] && i == 0;
        }
      }
      forall i | 0 < i < |r| && IsUpper(r[i])
        ensures r[i - 1] == ' '
      {
        if i >= |h| {
          var j := i - |h|;
          assert IsUpper(rest[j]) && j > 0;
          assert r[i - 1] == rest[j - 1];
        } else {
          assert h == [' ', s[0]] && i == 1;
        }
      }
    }
  }

  /** The label of a camel-case name: its first letter in capitals, then the
      rest spaced. */
  lemma CamelLabel(name: string)
    requires CamelCase(name)
    ensures Trim(CapitalizeFirst(SpaceBeforeUpper(name))) == [ToUpper(name[0])] + SpaceBeforeUpper(name[1..])
  {
    var spaced := SpaceBeforeUpper(name);
    var cap := CapitalizeFirst(spaced);
    CapitalizedSpacing(name);
    SpacingKeepsLast(name);
    CapitalizeKeepsEnds(spaced);
    TrimKeeps(cap);
  }

  /** That label starts with a capital and splits words at capitals. */
  lemma LabelShape(name: string)
    requires CamelCase(name)
    ensures var f := [ToUpper(name[0])] + SpaceBeforeUpper(name[1..]);
      IsUpper(f[0]) && SpacesBeforeCapitals(f)
  {
    var rest := SpaceBeforeUpper(name[1..]);
    SpacingShape(name[1..]);
    assert SpacesBeforeCapitals(rest);
    var f := [ToUpper(name[0])] + rest;
    assert f[0] == ToUpper(name[0]) && IsUpper(f[0]);
    forall i | 0 <= i < |f| && f[i] == ' '
      ensures i + 1 < |f| && IsUpper(f[i + 1])
    {
      var j := i - 1;
      assert rest[j] == ' ';
      assert f[i + 1] == rest[j + 1];
    }
    forall i | 0 < i < |f| && IsUpper(f[i])
      ensures f[i - 1] == ' '
    {
      var j := i - 1;
      assert IsUpper(rest[j]) && j > 0;
      assert f[i - 1] == rest[j - 1];
    }
  }

  /** `Trim` keeps a string with non-blank ends as it is. */
  lemma TrimKeeps(s: string)
    requires |s| > 0 && !IsWhitespace(s[0]) && !IsWhitespace(s[|s| - 1])
    ensures Trim(s) == s
  {
  }

  /** For a camel-case name the formatting is undone by dropping the spaces
      and lower-casing the first letter: no character is lost or changed
      besides the first, and the only spaces are those before capitals. */
  lemma FormatFieldNameInvertible(name: string)
    requires |name| > 0 && IsLower(name[0])
    requires forall i :: 0 <= i < |name| ==> !IsWhitespace(name[i])
    ensures var f := FormatFieldName(name);
      |f| > 0 && IsUpper(f[0]) && [ToLower(f[0])] + RemoveSpaces(f[1..]) == name &&
      SpacesBeforeCapitals(f)
  {
    assert CamelCase(name);
    var f := FormatFieldName(name);
    var tail := name[1..];
    var rest := SpaceBeforeUpper(tail);
    assert f == [ToUpper(name[0])] + rest;
    forall i | 0 <= i < |tail|
      ensures tail[i] != ' '
    {
      assert tail[i] == name[i + 1];
    }
    RemoveSpacesUndoesSpacing(tail);
    assert f[0] == ToUpper(name[0]) && f[1..] == rest;
    assert ToLower(f[0]) == name[0];
    assert name == [name[0]] + tail;
  }

  /** Capitalising a spaced camel-case name upper-cases its first letter and
      leaves the rest as spaced. */
  lemma CapitalizedSpacing(name: string)
    requires |name| > 0 && IsLower(name[0])
    ensures CapitalizeFirst(SpaceBeforeUpper(name)) == [ToUpper(name[0])] + SpaceBeforeUpper(name[1..])
  {
    var rest := SpaceBeforeUpper(name[1..]);
    var s := SpaceBeforeUpper(name);
    assert Spaced(name[0]) == [name[0]];
    assert s == [name[0]] + rest;
    assert s[0] == name[0] && s[1..] == rest;
    assert !IsLineTerminator(s[0]);
  }

  /** Capitalising a string that starts with a lower-case letter gives an
      upper-case first letter and keeps the last character. */
  lemma CapitalizeKeepsEnds(s: string)
    requires |s| > 0 && IsLower(s[0]) && !IsWhitespace(s[|s| - 1])
    ensures var r := CapitalizeFirst(s);
      |r| > 0 && IsUpper(r[0]) && !IsWhitespace(r[0]) && !IsWhitespace(r[|r| - 1])
  {
    var r := CapitalizeFirst(s);
    assert !IsLineTerminator(s[0]);
    assert r[0] == ToUpper(s[0]);
    if |s| > 1 {
      assert r[|r| - 1] == r[1..][|r| - 2] == s[1..][|s| - 2];
    }
  }

  /** The spacing of the page's two-word field name. */
  lemma SpacingExample(first: string, rest: string)
    requires first == "experience" && rest == "roduct"
    ensures SpaceBeforeUpper(first + "P" + rest) == first + " P" + rest
  {
    NoCapitalsKept(first);
    NoCapitalsKept(rest);
    SpaceBeforeUpperAppend(first + "P", rest);
    SpaceBeforeUpperAppend(first, "P");
    assert SpaceBeforeUpper("P") == " P";
  }

  /** Capitalising the spaced name of the example below. */
  lemma CapitalizeExample(first: string, rest: string)
    requires first == "experience" && rest == "roduct"
    ensures CapitalizeFirst(first + " P" + rest) == "Experience Product"
  {
    var tail := first[1..] + " P" + rest;
    assert first + " P" + rest == [first[0]] + tail;
    assert ToUpper(first[0]) == 'E';
  }

  /** The page's two-word field name `experienceProduct` (written as its
      two halves around the capital) formats as the label shown to the user. */
  lemma FormatFieldNameExample(first: string, rest: string)
    requires first == "experience" && rest == "roduct"
    ensures FormatFieldName(first + "P" + rest) == "Experience Product"
  {
    SpacingExample(first, rest);
    CapitalizeExample(first, rest);
    TrimKeeps("Experience Product");
  }

  /** A control's `errors` object: which validators failed, with the bound
      of `min`/`max`. */
  datatype Errors = Errors(required: bool, min: Option<int>, max: Option<int>, email: bool, pattern: bool)

  /** The message chosen for a control's errors. */
  datatype MessageKind = NoMessage | RequiredMessage | MinMessage | MaxMessage | EmailMessage | PatternMessage | GenericMessage

  /** Decimal digits of an integer, as template literals print it. */
  function IntToString(n: int): (r: string)
    ensures |r| > 0
    decreases if n < 0 then -n + 1 else n
  {
    if n < 0 then "-" + IntToString(-n)
    else if n < 10 then [('0' as int + n) as char]
    else IntToString(n / 10) + [('0' as int + n % 10) as char]
  }

  /** Which message `getFieldErrorMessage` picks: none without errors, then
      required, min, max, email and pattern in that order, and a generic one
      when no known validator failed. */
  function ErrorMessageKind(errors: Option<Errors>): (k: MessageKind)
    ensures k == NoMessage <==> errors.None?
    ensures k == RequiredMessage <==> errors.Some? && errors.value.required
    ensures k == MinMessage <==> errors.Some? && !errors.value.required && errors.value.min.Some?
    ensures k == MaxMessage <==> errors.Some? && !errors.value.required && errors.value.min.None? && errors.value.max.Some?
    ensures k == EmailMessage <==>
      (errors.Some? && !errors.value.required && errors.value.min.None? && errors.value.max.None? && errors.value.email)
    ensures k == PatternMessage <==>
      (errors.Some? && !errors.value.required && errors.value.min.None? && errors.value.max.None? &&
       !errors.value.email && errors.value.pattern)
  {
    match errors
    case None => NoMessage
    case Some(e) =>
      if e.required then RequiredMessage
      else if e.min.Some? then MinMessage
      else if e.max.Some? then MaxMessage
      else if e.email then EmailMessage
      else if e.pattern then PatternMessage
      else GenericMessage
  }

  /** `getFieldErrorMessage`. */
  function GetFieldErrorMessage(controlName: string, errors: Option<Errors>): (r: string)
    ensures r == "" <==> errors.None?
    ensures ErrorMessageKind(errors) == RequiredMessage ==> r == FormatFieldName(controlName) + " is required"
    ensures ErrorMessageKind(errors) == MinMessage ==>
      r == FormatFieldName(controlName) + " must be at least " + IntToString(errors.value.min.value)
    ensures ErrorMessageKind(errors) == MaxMessage ==>
      r == FormatFieldName(controlName) + " must not exceed " + IntToString(errors.value.max.value)
    ensures ErrorMessageKind(errors) == EmailMessage ==> r == "Please enter a valid email address"
    ensures ErrorMessageKind(errors) == PatternMessage ==> r == FormatFieldName(controlName) + " format is invalid"
    ensures ErrorMessageKind(errors) == GenericMessage ==> r == FormatFieldName(controlName) + " is invalid"
  {
    var shown := FormatFieldName(controlName);
    var k := ErrorMessageKind(errors);
    if k == NoMessage then ""
    else if k == RequiredMessage then shown + " is required"
    else if k == MinMessage then shown + " must be at least " + IntToString(errors.value.min.value)
    else if k == MaxMessage then shown + " must not exceed " + IntToString(errors.value.max.value)
    else if k == EmailMessage then "Please enter a valid email address"
    else if k == PatternMessage then shown + " format is invalid"
    else shown + " is invalid"
  }

  // ---------------------------------------------------------------------------
  // Impact-driver and eNPS totals
  // ---------------------------------------------------------------------------

  /** The six impact-driver fields, parsed. */
  datatype ImpactDrivers = ImpactDrivers(innovation: int, motivation: int, performance: int, autonomy: int, connection: int, transformationalLeadership: int)

  /** The three eNPS fields, parsed. */
  datatype EnpsSettings = EnpsSettings(promoters: int, passives: int, detractors: int)

  function DriverValues(d: ImpactDrivers): seq<int> {
    [d.innovation, d.motivation, d.performance, d.autonomy, d.connection, d.transformationalLeadership]
  }

  function EnpsValues(e: EnpsSettings): seq<int> {
    [e.promoters, e.passives, e.detractors]
  }

  /** The result of the service's total validators. */
  datatype TotalCheck = TotalCheck(isValid: bool, total: real, filledCount: nat)

  /** The service's shared rule: the filled count is the number of positive
      fields, the total their 2-decimal mean (0 with none), and the fields
      are valid when something is filled and the total is at most 100. */
  function ValidateTotal(xs: seq<int>): (r: TotalCheck)
    ensures r.filledCount == |Positives(xs)|
    ensures r.total == MeanOfPositives(xs)
    ensures r.isValid <==> r.filledCount > 0 && r.total <= 100.0
    ensures r.total == 0.0 <==> r.filledCount == 0
  {
    var ps := Positives(xs);
    var total := if |ps| > 0 then MeanOfPositives(xs) else 0.0;
    TotalCheck(|ps| > 0 && total <= 100.0, total, |ps|)
  }

  /** `validateImpactDriversTotal`. */
  function ValidateImpactDriversTotal(d: ImpactDrivers): (r: TotalCheck)
    ensures r.filledCount <= 6
    ensures r.isValid <==> r.filledCount > 0 && r.total <= 100.0
  {
    ValidateTotal(DriverValues(d))
  }

  /** `validateEnpsSettingsTotal`. */
  function ValidateEnpsSettingsTotal(e: EnpsSettings): (r: TotalCheck)
    ensures r.filledCount <= 3
    ensures r.isValid <==> r.filledCount > 0 && r.total <= 100.0
  {
    ValidateTotal(EnpsValues(e))
  }

  /** The components' computation as written: average the positive fields
      (0 with none) and round the average, whatever it is. */
  function ComponentTotal(xs: seq<int>): (r: real)
    ensures r >= 0.0
  {
    var ps := Positives(xs);
    var average := if |ps| > 0 then Sum(ps) as real / |ps| as real else 0.0;
    if |ps| > 0 then
      MeanAtLeastOne(ps);
      Round2Monotone(0.0, average);
      Round2Whole(0);
      Round2(average)
    else
      Round2Whole(0);
      Round2(average)
  }

  /** `impactDriversTotal`. */
  function ImpactDriversTotal(d: ImpactDrivers): (r: real)
    ensures r >= 0.0
  {
    ComponentTotal(DriverValues(d))
  }

  /** `enpsSettingsTotal`. */
  function EnpsSettingsTotal(e: EnpsSettings): (r: real)
    ensures r >= 0.0
  {
    ComponentTotal(EnpsValues(e))
  }

  /** The step components and the validation service show the same total,
      and it is 0 exactly when no field is positive. */
  lemma ComponentAgreesWithService(d: ImpactDrivers, e: EnpsSettings)
    ensures ImpactDriversTotal(d) == ValidateImpactDriversTotal(d).total
    ensures EnpsSettingsTotal(e) == ValidateEnpsSettingsTotal(e).total
    ensures ImpactDriversTotal(d) == 0.0 <==> forall i :: 0 <= i < 6 ==> DriverValues(d)[i] <= 0
    ensures EnpsSettingsTotal(e) == 0.0 <==> forall i :: 0 <= i < 3 ==> EnpsValues(e)[i] <= 0
  {
    Round2Whole(0);
    PositivesEmpty(DriverValues(d));
    PositivesEmpty(EnpsValues(e));
  }

  /** With every field a percentage in `[0, 100]`, the total is too, so the
      fields are valid exactly when one of them is filled in. */
  lemma InRangeFieldsValidIffFilled(xs: seq<int>)
    requires forall i :: 0 <= i < |xs| ==> 0 <= xs[i] <= 100
    ensures 0.0 <= ValidateTotal(xs).total <= 100.0
    ensures ValidateTotal(xs).isValid <==> exists i :: 0 <= i < |xs| && xs[i] > 0
  {
    PositivesEmpty(xs);
    if Positives(xs) != [] {
      MeanWithin(xs, 1, 100);
    }
  }

  /** A field left at zero (or any non-positive value) changes neither the
      filled count nor the total. */
  lemma UnfilledFieldIgnored(xs: seq<int>, v: int)
    requires v <= 0
    ensures ValidateTotal(xs + [v]) == ValidateTotal(xs)
  {
    NonPositiveIgnored(xs, v);
    PositivesAppend(xs, [v]);
    assert Positives([v]) == [];
    assert Positives(xs) + [] == Positives(xs);
  }

  lemma ExamplePositives(xs: seq<int>)
    requires xs == [60, 40, 0, 0, 0, 0]
    ensures Positives(xs) == Positives([60, 40]) == [60, 40]
  {
    assert xs == [60, 40] + [0, 0, 0, 0];
    PositivesAppend([60, 40], [0, 0, 0, 0]);
    assert Positives([0, 0, 0, 0]) == [];
  }

  /** Two drivers at 60 and 40 and the rest empty average to 50. */
  lemma DriversExample()
    ensures ValidateImpactDriversTotal(ImpactDrivers(60, 40, 0, 0, 0, 0)) == TotalCheck(true, 50.0, 2)
  {
    var xs := DriverValues(ImpactDrivers(60, 40, 0, 0, 0, 0));
    ExamplePositives(xs);
    MeanExamples();
    assert MeanOfPositives(xs) == MeanOfPositives([60, 40]);
  }
}
