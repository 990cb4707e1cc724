/**
 * `duplicateDistributionValueValidator`: a form-array validator that flags a
 * non-blank `value` appearing on two controls. A control is represented by
 * its `value` entry, `None` when the control has none (or it is null).
 */
module CustomValidators {
  import opened Common

  /** `CriteriaValidationErrors`: the only error the validator reports. */
  datatype ValidatorError = DuplicateDistributionValue

  /** The values that pass `value && value.trim() !== ''`, in order. */
  function FilledValues(values: seq<Option<string>>): (r: seq<string>)
    ensures |r| <= |values|
    ensures forall i :: 0 <= i < |r| ==> !IsBlank(r[i])
  {
    if values == [] then []
    else
      (if values[0].Some? && !IsBlank(values[0].value) then [values[0].value] else [])
      + FilledValues(values[1..])
  }

  /** A non-blank value is kept as often as it occurs; blank values and
      missing ones are dropped. */
  lemma {:induction false} FilledCounts(values: seq<Option<string>>, v: string)
    ensures multiset(FilledValues(values))[v] == if IsBlank(v) then 0 else multiset(values)[Some(v)]
  {
    if values != [] {
      FilledCounts(values[1..], v);
      assert values == [values[0]] + values[1..];
    }
  }

  /** The validator: null for at most one control; otherwise an error exactly
      when the filled values outnumber their distinct values. */
  function DuplicateDistributionValueValidator(values: seq<Option<string>>): (r: Option<ValidatorError>)
    ensures |values| <= 1 ==> r.None?
  {
    if |values| <= 1 then None
    else if HasRepeat(FilledValues(values)) then Some(DuplicateDistributionValue)
    else None
  }

  /** The validator reports an error exactly when some non-blank value sits on
      two controls. */
  lemma ValidatorIff(values: seq<Option<string>>)
    ensures DuplicateDistributionValueValidator(values).Some? <==>
      exists v :: !IsBlank(v) && multiset(values)[Some(v)] >= 2
  {
    var filled := FilledValues(values);
    RepeatIffNotDistinct(filled);
    if !Distinct(filled) {
      var v :| multiset(filled)[v] > 1;
      FilledCounts(values, v);
      assert |values| >= 2;
    }
    if exists v :: !IsBlank(v) && multiset(values)[Some(v)] >= 2 {
      var v :| !IsBlank(v) && multiset(values)[Some(v)] >= 2;
      FilledCounts(values, v);
      assert !Distinct(filled);
    }
  }

  /** The verdict depends only on the multiset of values: reordering the
      controls does not change it. */
  lemma ValidatorIgnoresOrder(a: seq<Option<string>>, b: seq<Option<string>>)
    requires multiset(a) == multiset(b)
    ensures DuplicateDistributionValueValidator(a) == DuplicateDistributionValueValidator(b)
  {
    ValidatorIff(a);
    ValidatorIff(b);
  }

  /** A control without a value, or with a blank one, never causes or removes
      an error. */
  lemma BlankNeverCounts(values: seq<Option<string>>, x: Option<string>)
    requires x.None? || IsBlank(x.value)
    ensures DuplicateDistributionValueValidator(values + [x]) == DuplicateDistributionValueValidator(values)
  {
    ValidatorIff(values);
    ValidatorIff(values + [x]);
    assert multiset(values + [x]) == multiset(values) + multiset{x};
    forall v | !IsBlank(v) ensures multiset(values + [x])[Some(v)] == multiset(values)[Some(v)] {
      assert Some(v) != x;
    }
  }

  /** Two controls with the same value are flagged. */
  lemma SameValueTwiceFlagged()
    ensures DuplicateDistributionValueValidator([Some("male"), Some("male")]).Some?
  {
    var w := [Some("male"), Some("male")];
    assert !IsBlank("male") by { assert !IsWhitespace("male"[0]); }
    assert w[1..] == [Some("male")] && w[1..][1..] == [];
    assert FilledValues(w) == ["male", "male"];
    assert Elements(["male", "male"]) == {"male"};
  }

  /** Whitespace-only and missing values are never flagged. */
  lemma BlankValuesNotFlagged()
    ensures DuplicateDistributionValueValidator([Some(" "), Some(" "), None]).None?
  {
    var w := [Some(" "), Some(" "), None];
    assert IsBlank(" ");
    assert w[1..] == [Some(" "), None] && w[1..][1..] == [None] && w[1..][1..][1..] == [];
    assert FilledValues(w) == [];
  }
}
