/**
 * `CriteriaService`: the shared criteria state (one group per available
 * criterion) and the per-type and whole-form validation of distribution rows.
 * Rows are the `DistributionEntry` records of `Criteria`; the service reads
 * them but never changes them.
 */
module CriteriaService {
  import opened Common
  import opened Criteria
  import CriteriaDistribution

  // ---------------------------------------------------------------------------
  // Group state
  // ---------------------------------------------------------------------------

  /** `_criteriaGroups` at construction: one unselected, empty group per entry
      of the criteria table, in table order. */
  function InitialGroups(): (r: seq<CriteriaGroup>)
    ensures |r| == |AvailableCriteria|
    ensures forall i :: 0 <= i < |r| ==>
      r[i].criteriaType == AvailableCriteria[i].criteriaType && r[i].name == AvailableCriteria[i].name &&
      !r[i].selected && r[i].items == [] && r[i].totalPercentage == 0.0
  {
    seq(|AvailableCriteria|, i requires 0 <= i < |AvailableCriteria| =>
      CriteriaGroup(AvailableCriteria[i].criteriaType, AvailableCriteria[i].name, false, [], 0.0))
  }

  /** The initial state holds exactly one group for every criteria type, with
      nothing selected. */
  lemma InitialGroupsShape()
    ensures UniqueTypes(InitialGroups())
    ensures forall t :: FindGroup(InitialGroups(), t).Some?
    ensures forall t :: !IsCriterionSelected(InitialGroups(), t)
    ensures ClearedWhenUnselected(InitialGroups())
  {
    var g := InitialGroups();
    assert g[0].criteriaType == AgeGroup && g[1].criteriaType == Generation && g[2].criteriaType == Department;
    assert g[3].criteriaType == Gender && g[4].criteriaType == Location;
    forall t ensures FindGroup(g, t).Some? {
      var k := match t
        case AgeGroup => 0 case Generation => 1 case Department => 2 case Gender => 3 case Location => 4;
      assert g[k].criteriaType == t;
    }
  }

  /** `toggleCriteriaGroup`: every group of type `t` flips its selection; no
      other field and no other group changes. */
  function ToggleCriteriaGroup(groups: seq<CriteriaGroup>, t: CriteriaType): (r: seq<CriteriaGroup>)
    ensures |r| == |groups|
    ensures forall i :: 0 <= i < |r| ==> r[i] == groups[i].(selected := r[i].selected)
    ensures forall i :: 0 <= i < |r| && groups[i].criteriaType != t ==> r[i] == groups[i]
    ensures forall i :: 0 <= i < |r| && groups[i].criteriaType == t ==> r[i].selected == !groups[i].selected
  {
    seq(|groups|, i requires 0 <= i < |groups| =>
      if groups[i].criteriaType == t then groups[i].(selected := !groups[i].selected) else groups[i])
  }

  /** Toggling twice restores the groups. */
  lemma ToggleCriteriaGroupTwice(groups: seq<CriteriaGroup>, t: CriteriaType)
    ensures ToggleCriteriaGroup(ToggleCriteriaGroup(groups, t), t) == groups
  {
    var r := ToggleCriteriaGroup(ToggleCriteriaGroup(groups, t), t);
    assert forall i :: 0 <= i < |groups| ==> r[i] == groups[i];
  }

  /** With one group per type and a group for `t`, toggling flips whether `t`
      is selected. */
  lemma ToggleCriteriaGroupFlips(groups: seq<CriteriaGroup>, t: CriteriaType)
    requires UniqueTypes(groups) && FindGroup(groups, t).Some?
    ensures IsCriterionSelected(ToggleCriteriaGroup(groups, t), t) <==> !IsCriterionSelected(groups, t)
  {
    var r := ToggleCriteriaGroup(groups, t);
    var k := FindGroup(groups, t).value;
    assert r[k].criteriaType == t && r[k].selected == !groups[k].selected;
    if IsCriterionSelected(groups, t) {
      var i :| 0 <= i < |groups| && groups[i].criteriaType == t && groups[i].selected;
      assert i == k;
    }
    if IsCriterionSelected(r, t) {
      var i :| 0 <= i < |r| && r[i].criteriaType == t && r[i].selected;
      assert i == k;
    }
  }

  /** Toggling `t` leaves the selection of every other type alone. */
  lemma ToggleCriteriaGroupKeepsOthers(groups: seq<CriteriaGroup>, t: CriteriaType, u: CriteriaType)
    requires u != t
    ensures IsCriterionSelected(ToggleCriteriaGroup(groups, t), u) <==> IsCriterionSelected(groups, u)
  {
    var r := ToggleCriteriaGroup(groups, t);
    if IsCriterionSelected(groups, u) {
      var i :| 0 <= i < |groups| && groups[i].criteriaType == u && groups[i].selected;
      assert r[i] == groups[i];
    }
    if IsCriterionSelected(r, u) {
      var i :| 0 <= i < |r| && r[i].criteriaType == u && r[i].selected;
      assert r[i] == groups[i];
    }
  }

  /** `setCriteriaGroups`: a group is selected exactly when its type is listed;
      names, items and totals are kept. */
  function SetCriteriaGroups(groups: seq<CriteriaGroup>, types: seq<CriteriaType>): (r: seq<CriteriaGroup>)
    ensures |r| == |groups|
    ensures forall i :: 0 <= i < |r| ==> r[i] == groups[i].(selected := r[i].selected)
    ensures forall i :: 0 <= i < |r| ==> (r[i].selected <==> groups[i].criteriaType in types)
  {
    seq(|groups|, i requires 0 <= i < |groups| => groups[i].(selected := groups[i].criteriaType in types))
  }

  /** `resetCriteriaGroups`: every group is deselected; names, items and totals
      are kept. */
  function ResetCriteriaGroups(groups: seq<CriteriaGroup>): (r: seq<CriteriaGroup>)
    ensures |r| == |groups|
    ensures forall i :: 0 <= i < |r| ==> r[i] == groups[i].(selected := false)
  {
    seq(|groups|, i requires 0 <= i < |groups| => groups[i].(selected := false))
  }

  /** After `setCriteriaGroups(ts)` the selected criteria are exactly the listed
      types that have a group; resetting is setting the empty list. */
  lemma SetSelectsListed(groups: seq<CriteriaGroup>, types: seq<CriteriaType>, t: CriteriaType)
    ensures IsCriterionSelected(SetCriteriaGroups(groups, types), t) <==> t in types && FindGroup(groups, t).Some?
    ensures ResetCriteriaGroups(groups) == SetCriteriaGroups(groups, [])
    ensures !IsCriterionSelected(ResetCriteriaGroups(groups), t)
  {
    var r := SetCriteriaGroups(groups, types);
    if t in types && FindGroup(groups, t).Some? {
      assert r[FindGroup(groups, t).value].selected;
    }
  }

  // ---------------------------------------------------------------------------
  // Validation of one type
  // ---------------------------------------------------------------------------

  /** `CriteriaValidationResult`. */
  datatype ValidationResult = ValidationResult(
    isValid: bool,
    hasDuplicates: bool,
    hasEmptyValues: bool,
    hasInvalidPercentages: bool)

  /** Some row has a blank id. */
  predicate SomeBlankId(items: seq<DistributionEntry>) {
    exists i :: 0 <= i < |items| && IsBlank(items[i].criteriaId)
  }

  /** Some row has a missing or non-positive percentage. */
  predicate SomeBadPercentage(items: seq<DistributionEntry>) {
    exists i :: 0 <= i < |items| && !PercentageFilled(items[i].percentage)
  }

  /** What `validateCriteriaDistribution` reports for type `t`: with no rows
      of the type, "invalid, empty values" and nothing else; otherwise each
      flag says whether its defect occurs among the type's rows, and the
      verdict is valid exactly when none does. */
  ghost predicate Describes(r: ValidationResult, es: seq<DistributionEntry>, t: CriteriaType) {
    (EntriesOfType(es, t) == [] ==> r == ValidationResult(false, false, true, false)) &&
    (EntriesOfType(es, t) != [] ==>
      (r.hasEmptyValues <==> SomeBlankId(EntriesOfType(es, t))) &&
      (r.hasInvalidPercentages <==> SomeBadPercentage(EntriesOfType(es, t))) &&
      (r.hasDuplicates <==> HasDuplicatesInType(es, t)) &&
      (r.isValid <==> !r.hasEmptyValues && !r.hasInvalidPercentages && !r.hasDuplicates))
  }

  /** `validateCriteriaDistribution`: with no rows of the type the result is
      "invalid, empty values"; otherwise one pass over the rows records a blank
      id, a bad percentage and the non-blank ids, and duplicates are non-blank
      ids outnumbering their distinct values. Valid means none of the three. */
  method ValidateCriteriaDistribution(es: seq<DistributionEntry>, t: CriteriaType) returns (r: ValidationResult)
    ensures Describes(r, es, t)
    ensures r.isValid <==> CriteriaDistribution.TypeOk(es, t)
  {
    var items := EntriesOfType(es, t);
    TypeOkIff(es, t);
    if |items| == 0 {
      return ValidationResult(false, false, true, false);
    }
    var hasEmptyValues, hasInvalidPercentages, ids := ScanRows(items);
    var hasDuplicates := |ids| != |Elements(ids)|;
    r := ValidationResult(!hasEmptyValues && !hasInvalidPercentages && !hasDuplicates,
                          hasDuplicates, hasEmptyValues, hasInvalidPercentages);
  }

  /** The loop of `validateCriteriaDistribution` over the rows of one type. */
  method ScanRows(items: seq<DistributionEntry>) returns (hasEmptyValues: bool, hasInvalidPercentages: bool, ids: seq<string>)
    ensures hasEmptyValues <==> SomeBlankId(items)
    ensures hasInvalidPercentages <==> SomeBadPercentage(items)
    ensures ids == NonBlank(IdsOf(items))
  {
    hasEmptyValues, hasInvalidPercentages, ids := false, false, [];
    var i := 0;
    while i < |items|
      invariant 0 <= i <= |items|
      invariant ids == NonBlank(IdsOf(items[..i]))
      invariant hasEmptyValues <==> SomeBlankId(items[..i])
      invariant hasInvalidPercentages <==> SomeBadPercentage(items[..i])
    {
      var item := items[i];
      RowStep(items, i);
      hasEmptyValues := hasEmptyValues || IsBlank(item.criteriaId);
      hasInvalidPercentages := hasInvalidPercentages || !PercentageFilled(item.percentage);
      ids := ids + (if IsBlank(item.criteriaId) then [] else [item.criteriaId]);
      i := i + 1;
    }
    assert items[..i] == items;
  }

  /** The three row observations of a prefix extended by its next row. */
  lemma RowStep(items: seq<DistributionEntry>, i: nat)
    requires i < |items|
    ensures var x := items[i];
      NonBlank(IdsOf(items[..i + 1])) == NonBlank(IdsOf(items[..i])) + (if IsBlank(x.criteriaId) then [] else [x.criteriaId]) &&
      (SomeBlankId(items[..i + 1]) <==> SomeBlankId(items[..i]) || IsBlank(x.criteriaId)) &&
      (SomeBadPercentage(items[..i + 1]) <==> SomeBadPercentage(items[..i]) || !PercentageFilled(x.percentage))
  {
    assert items[..i + 1] == items[..i] + [items[i]];
    RowSnoc(items[..i], items[i]);
  }

  /** The three row observations of a list extended by one row. */
  lemma RowSnoc(a: seq<DistributionEntry>, x: DistributionEntry)
    ensures NonBlank(IdsOf(a + [x])) == NonBlank(IdsOf(a)) + (if IsBlank(x.criteriaId) then [] else [x.criteriaId])
    ensures SomeBlankId(a + [x]) <==> SomeBlankId(a) || IsBlank(x.criteriaId)
    ensures SomeBadPercentage(a + [x]) <==> SomeBadPercentage(a) || !PercentageFilled(x.percentage)
  {
    NonBlankSnoc(a, x);
    var b := a + [x];
    assert b[|a|] == x;
    assert forall i :: 0 <= i < |a| ==> b[i] == a[i];
  }

  /** A type passes exactly when it has rows, none blank, none with a bad
      percentage, and no duplicate. */
  lemma TypeOkIff(es: seq<DistributionEntry>, t: CriteriaType)
    ensures CriteriaDistribution.TypeOk(es, t) <==>
      EntriesOfType(es, t) != [] && !SomeBlankId(EntriesOfType(es, t)) &&
      !SomeBadPercentage(EntriesOfType(es, t)) && !HasDuplicatesInType(es, t)
  {
  }

  /** The non-blank ids of a list extended by one row. */
  lemma NonBlankSnoc(a: seq<DistributionEntry>, x: DistributionEntry)
    ensures NonBlank(IdsOf(a + [x])) == NonBlank(IdsOf(a)) + (if IsBlank(x.criteriaId) then [] else [x.criteriaId])
  {
    IdsOfAppend(a, [x]);
    assert IdsOf([x]) == [x.criteriaId];
    NonBlankAppend(IdsOf(a), [x.criteriaId]);
    assert [x.criteriaId][1..] == [];
    assert NonBlank([x.criteriaId]) == (if IsBlank(x.criteriaId) then [] else [x.criteriaId]) + NonBlank([]);
  }

  /** `NonBlank` distributes over concatenation. */
  lemma {:induction false} NonBlankAppend(a: seq<string>, b: seq<string>)
    ensures NonBlank(a + b) == NonBlank(a) + NonBlank(b)
  {
    if a == [] {
      assert a + b == b;
    } else {
      assert (a + b)[1..] == a[1..] + b;
      NonBlankAppend(a[1..], b);
    }
  }

  // ---------------------------------------------------------------------------
  // Validation of every selected type
  // ---------------------------------------------------------------------------

  /** The reference list of failing types: the selected types, in order,
      whose rows do not pass. */
  function FailingTypes(types: seq<CriteriaType>, es: seq<DistributionEntry>): (r: seq<CriteriaType>)
    ensures |r| <= |types|
  {
    if types == [] then []
    else (if CriteriaDistribution.TypeOk(es, types[0]) then [] else [types[0]]) + FailingTypes(types[1..], es)
  }

  /** A type is listed as failing exactly when it is among the types and its
      rows do not pass. */
  lemma {:induction false} FailingTypesMembers(types: seq<CriteriaType>, es: seq<DistributionEntry>, u: CriteriaType)
    ensures u in FailingTypes(types, es) <==> u in types && !CriteriaDistribution.TypeOk(es, u)
  {
    if types != [] {
      FailingTypesMembers(types[1..], es, u);
      assert types == [types[0]] + types[1..];
    }
  }

  /** `validateAllCriteriaDistributions`: every selected type is validated in
      selection order; the failing ones are collected, and the whole is valid
      when none fails (in particular when nothing is selected). */
  method ValidateAllCriteriaDistributions(groups: seq<CriteriaGroup>, es: seq<DistributionEntry>)
    returns (isValid: bool, invalidTypes: seq<CriteriaType>, results: map<CriteriaType, ValidationResult>)
    ensures invalidTypes == FailingTypes(SelectedTypes(groups), es)
    ensures isValid <==> invalidTypes == []
    ensures SelectedTypes(groups) == [] ==> isValid && results == map[]
    ensures forall u :: u in results <==> u in SelectedTypes(groups)
    ensures forall u :: u in results ==> (results[u].isValid <==> CriteriaDistribution.TypeOk(es, u))
    ensures forall u :: u in results ==> Describes(results[u], es, u)
  {
    var selected := SelectedTypes(groups);
    if |selected| == 0 {
      return true, [], map[];
    }
    invalidTypes, results := ValidateEach(selected, es);
    isValid := |invalidTypes| == 0;
  }

  /** The loop of `validateAllCriteriaDistributions` over the selected types. */
  method ValidateEach(selected: seq<CriteriaType>, es: seq<DistributionEntry>)
    returns (invalidTypes: seq<CriteriaType>, results: map<CriteriaType, ValidationResult>)
    ensures invalidTypes == FailingTypes(selected, es)
    ensures forall u :: u in results <==> u in selected
    ensures forall u :: u in results ==> (results[u].isValid <==> CriteriaDistribution.TypeOk(es, u))
    ensures forall u :: u in results ==> Describes(results[u], es, u)
  {
    invalidTypes, results := [], map[];
    var i := 0;
    while i < |selected|
      invariant 0 <= i <= |selected|
      invariant invalidTypes == FailingTypes(selected[..i], es)
      invariant forall u :: u in results <==> u in selected[..i]
      invariant forall u :: u in results ==> (results[u].isValid <==> CriteriaDistribution.TypeOk(es, u))
      invariant forall u :: u in results ==> Describes(results[u], es, u)
    {
      var t := selected[i];
      var validation := ValidateType(es, t);
      TypeStep(selected, i, es);
      ResultsStep(results, t, validation, es);
      results := results[t := validation];
      if !validation.isValid {
        invalidTypes := invalidTypes + [t];
      }
      i := i + 1;
    }
    assert selected[..i] == selected;
  }

  /** Recording a type's result keeps every stored result an account of its
      own type. */
  lemma ResultsStep(results: map<CriteriaType, ValidationResult>, t: CriteriaType, v: ValidationResult, es: seq<DistributionEntry>)
    requires forall u :: u in results ==> (results[u].isValid <==> CriteriaDistribution.TypeOk(es, u))
    requires forall u :: u in results ==> Describes(results[u], es, u)
    requires (v.isValid <==> CriteriaDistribution.TypeOk(es, t)) && Describes(v, es, t)
    ensures var next := results[t := v];
      forall u :: u in next ==> (next[u].isValid <==> CriteriaDistribution.TypeOk(es, u)) && Describes(next[u], es, u)
  {
    var next := results[t := v];
    forall u | u in next
      ensures (next[u].isValid <==> CriteriaDistribution.TypeOk(es, u)) && Describes(next[u], es, u)
    {
      if u == t {
        assert next[u] == v;
      } else {
        assert next[u] == results[u];
      }
    }
  }

  /** The failing types and the members of a prefix extended by its next type. */
  lemma TypeStep(selected: seq<CriteriaType>, i: nat, es: seq<DistributionEntry>)
    requires i < |selected|
    ensures FailingTypes(selected[..i + 1], es) ==
      FailingTypes(selected[..i], es) + (if CriteriaDistribution.TypeOk(es, selected[i]) then [] else [selected[i]])
    ensures forall u :: u in selected[..i + 1] <==> u in selected[..i] || u == selected[i]
  {
    assert selected[..i + 1] == selected[..i] + [selected[i]];
    FailingTypesSnoc(selected[..i], selected[i], es);
  }

  /** `validateCriteriaDistribution` seen from the whole-form loop, which only
      stores the whole result. */
  method ValidateType(es: seq<DistributionEntry>, t: CriteriaType) returns (r: ValidationResult)
    ensures r.isValid <==> CriteriaDistribution.TypeOk(es, t)
    ensures Describes(r, es, t)
  {
    r := ValidateCriteriaDistribution(es, t);
  }

  /** The failing types of a list extended by one type. */
  lemma {:induction false} FailingTypesSnoc(types: seq<CriteriaType>, t: CriteriaType, es: seq<DistributionEntry>)
    ensures FailingTypes(types + [t], es) ==
      FailingTypes(types, es) + (if CriteriaDistribution.TypeOk(es, t) then [] else [t])
  {
    if types == [] {
      assert types + [t] == [t];
    } else {
      assert (types + [t])[1..] == types[1..] + [t];
      FailingTypesSnoc(types[1..], t, es);
    }
  }

  /** `getCriteriaGroupStatus`: VALID exactly when the whole-form validation
      is; this agrees with the editor's `criteriaGroupStatus`. */
  method GetCriteriaGroupStatus(groups: seq<CriteriaGroup>, es: seq<DistributionEntry>) returns (r: Status)
    ensures r == Valid <==> forall u :: IsCriterionSelected(groups, u) ==> CriteriaDistribution.TypeOk(es, u)
    ensures r == CriteriaDistribution.CriteriaGroupStatus(CriteriaDistribution.Editor(groups, es))
  {
    var isValid, invalidTypes, results := ValidateAllCriteriaDistributions(groups, es);
    CriteriaDistribution.SelectedTypesAreSelected(groups);
    r := if isValid then Valid else Invalid;
    if !isValid {
      FailingTypesMembers(SelectedTypes(groups), es, invalidTypes[0]);
    } else {
      forall u | u in SelectedTypes(groups) ensures CriteriaDistribution.TypeOk(es, u) {
        FailingTypesMembers(SelectedTypes(groups), es, u);
      }
    }
  }

  // ---------------------------------------------------------------------------
  // Error messages
  // ---------------------------------------------------------------------------

  const EmptyValuesMessage := "Please select criteria options for all items"
  const InvalidPercentagesMessage := "All percentage values must be greater than 0"
  const DuplicatesMessage := "Duplicate criteria options are not allowed"
  const FallbackMessage := "Invalid criteria distribution"

  /** `getValidationErrorMessage`: null when the type is valid, otherwise the
      message of the first problem in the order empty values, bad percentages,
      duplicates. The final fallback message is never produced: an invalid
      result always carries one of the three flags. */
  method GetValidationErrorMessage(es: seq<DistributionEntry>, t: CriteriaType) returns (r: Option<string>)
    ensures r.None? <==> CriteriaDistribution.TypeOk(es, t)
    ensures r == Some(EmptyValuesMessage) <==>
      EntriesOfType(es, t) == [] || SomeBlankId(EntriesOfType(es, t))
    ensures r == Some(InvalidPercentagesMessage) <==>
      EntriesOfType(es, t) != [] && !SomeBlankId(EntriesOfType(es, t)) && SomeBadPercentage(EntriesOfType(es, t))
    ensures r == Some(DuplicatesMessage) <==>
      EntriesOfType(es, t) != [] && !SomeBlankId(EntriesOfType(es, t)) && !SomeBadPercentage(EntriesOfType(es, t)) &&
      HasDuplicatesInType(es, t)
    ensures r != Some(FallbackMessage)
  {
    var validation := ValidateCriteriaDistribution(es, t);
    if validation.isValid {
      return None;
    }
    if validation.hasEmptyValues {
      return Some(EmptyValuesMessage);
    }
    if validation.hasInvalidPercentages {
      return Some(InvalidPercentagesMessage);
    }
    if validation.hasDuplicates {
      return Some(DuplicatesMessage);
    }
    assert false;
    return Some(FallbackMessage);
  }
}
