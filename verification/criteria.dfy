/**
 * The criteria-distribution data model shared by the editor component, the
 * criteria service and the new-scenario page: criteria types, distribution
 * items, criteria groups, the form-array rows of the editor, and the checks
 * all three apply to them (blank ids, filled percentages, duplicate ids,
 * the per-type average).
 */
module Criteria {
  import opened Common
  import Averages

  /** `CriteriaType`: a closed set of demographic dimensions. */
  datatype CriteriaType = Gender | Generation | Department | Location | AgeGroup

  /** The enum's string value, used as a fallback display name. */
  function TypeKey(t: CriteriaType): string {
    match t
    case Gender => "gender"
    case Generation => "generation"
    case Department => "department"
    case Location => "location"
    case AgeGroup => "ageGroup"
  }

  /** One entry of the static `availableCriteria` table. */
  datatype CriteriaInfo = CriteriaInfo(criteriaType: CriteriaType, name: string)

  /** The static `availableCriteria` table, in its declared order. */
  const AvailableCriteria: seq<CriteriaInfo> := [
    CriteriaInfo(AgeGroup, "Age Group"),
    CriteriaInfo(Generation, "Generation"),
    CriteriaInfo(Department, "Department"),
    CriteriaInfo(Gender, "Gender"),
    CriteriaInfo(Location, "Location")
  ]

  /** `availableCriteria.find(c => c.type === t)?.name || t`. */
  function CriteriaName(t: CriteriaType): (n: string)
    ensures n != ""
    ensures n == TypeKey(t) || exists i :: 0 <= i < |AvailableCriteria| && AvailableCriteria[i] == CriteriaInfo(t, n)
  {
    match FindInfo(AvailableCriteria, t)
    case Some(i) => if AvailableCriteria[i].name != "" then AvailableCriteria[i].name else TypeKey(t)
    case None => TypeKey(t)
  }

  /** The index of the first table entry of type `t` (`find`). */
  function FindInfo(table: seq<CriteriaInfo>, t: CriteriaType): (r: Option<nat>)
    ensures r.Some? ==> r.value < |table| && table[r.value].criteriaType == t
    ensures r.None? ==> forall j :: 0 <= j < |table| ==> table[j].criteriaType != t
  {
    FindInfoFrom(table, t, 0)
  }

  /** The search of `FindInfo` from position `i` on. */
  function FindInfoFrom(table: seq<CriteriaInfo>, t: CriteriaType, i: nat): (r: Option<nat>)
    requires i <= |table|
    ensures r.Some? ==> i <= r.value < |table| && table[r.value].criteriaType == t
    ensures r.Some? ==> forall j :: i <= j < r.value ==> table[j].criteriaType != t
    ensures r.None? ==> forall j :: i <= j < |table| ==> table[j].criteriaType != t
    decreases |table| - i
  {
    if i == |table| then None
    else if table[i].criteriaType == t then Some(i)
    else FindInfoFrom(table, t, i + 1)
  }

  /** Every criteria type is listed, so each gets its table name. */
  lemma CriteriaNames()
    ensures CriteriaName(AgeGroup) == "Age Group"
    ensures CriteriaName(Generation) == "Generation"
    ensures CriteriaName(Department) == "Department"
    ensures CriteriaName(Gender) == "Gender"
    ensures CriteriaName(Location) == "Location"
  {
    assert FindInfo(AvailableCriteria, AgeGroup) == Some(0);
    assert FindInfo(AvailableCriteria, Generation) == Some(1);
    assert FindInfo(AvailableCriteria, Department) == Some(2);
    assert FindInfo(AvailableCriteria, Gender) == Some(3);
    assert FindInfo(AvailableCriteria, Location) == Some(4);
  }

  /** `DistributionItem`: an option id, its label and a percentage (null
      until entered). */
  datatype DistributionItem = DistributionItem(criteriaId: string, criteriaName: string, percentage: Option<int>)

  /** `CriteriaGroup`: one criteria type with its selection flag, its items and
      the derived average. */
  datatype CriteriaGroup = CriteriaGroup(
    criteriaType: CriteriaType,
    name: string,
    selected: bool,
    items: seq<DistributionItem>,
    totalPercentage: real)

  /** A row of the editor's form array: type, option id and percentage. */
  datatype DistributionEntry = DistributionEntry(criteriaType: CriteriaType, criteriaId: string, percentage: Option<int>)

  /** `'VALID' | 'INVALID'`. */
  datatype Status = Valid | Invalid

  /** A percentage that passes the `!percentage || percentage <= 0` check:
      present and strictly positive. */
  predicate PercentageFilled(p: Option<int>) {
    p.Some? && p.value > 0
  }

  /** A row the editor accepts: non-blank id and a filled percentage. */
  predicate EntryComplete(e: DistributionEntry) {
    !IsBlank(e.criteriaId) && PercentageFilled(e.percentage)
  }

  /** The first group of type `t` (`findIndex`). */
  function FindGroup(groups: seq<CriteriaGroup>, t: CriteriaType): (r: Option<nat>)
    ensures r.Some? ==> r.value < |groups| && groups[r.value].criteriaType == t
    ensures r.Some? ==> forall j :: 0 <= j < r.value ==> groups[j].criteriaType != t
    ensures r.None? ==> forall j :: 0 <= j < |groups| ==> groups[j].criteriaType != t
  {
    FindGroupFrom(groups, t, 0)
  }

  /** The search of `FindGroup` from position `i` on. */
  function FindGroupFrom(groups: seq<CriteriaGroup>, t: CriteriaType, i: nat): (r: Option<nat>)
    requires i <= |groups|
    ensures r.Some? ==> i <= r.value < |groups| && groups[r.value].criteriaType == t
    ensures r.Some? ==> forall j :: i <= j < r.value ==> groups[j].criteriaType != t
    ensures r.None? ==> forall j :: i <= j < |groups| ==> groups[j].criteriaType != t
    decreases |groups| - i
  {
    if i == |groups| then None
    else if groups[i].criteriaType == t then Some(i)
    else FindGroupFrom(groups, t, i + 1)
  }

  /** The types of the selected groups, in group order (`selectedCriteriaTypes`). */
  function SelectedTypes(groups: seq<CriteriaGroup>): (r: seq<CriteriaType>)
    ensures |r| <= |groups|
    ensures forall t :: t in r <==> exists g :: g in groups && g.selected && g.criteriaType == t
  {
    if groups == [] then []
    else
      assert forall g :: g in groups <==> g == groups[0] || g in groups[1..];
      (if groups[0].selected then [groups[0].criteriaType] else []) + SelectedTypes(groups[1..])
  }

  // ---------------------------------------------------------------------------
  // Rows of one type
  // ---------------------------------------------------------------------------

  /** `getDistributionItemsByType`: the rows of type `t`, in order. */
  function EntriesOfType(es: seq<DistributionEntry>, t: CriteriaType): (r: seq<DistributionEntry>)
    ensures |r| <= |es|
    ensures forall i :: 0 <= i < |r| ==> r[i].criteriaType == t
  {
    if es == [] then []
    else (if es[0].criteriaType == t then [es[0]] else []) + EntriesOfType(es[1..], t)
  }

  /** The rows of type `t` are exactly the rows of `es` that have type `t`. */
  lemma {:induction false} EntriesOfTypeMembers(es: seq<DistributionEntry>, t: CriteriaType)
    ensures forall e :: e in EntriesOfType(es, t) <==> e in es && e.criteriaType == t
  {
    if es != [] {
      EntriesOfTypeMembers(es[1..], t);
      assert es == [es[0]] + es[1..];
    }
  }

  /** Filtering a list with a known first row. */
  lemma EntriesOfTypeCons(h: DistributionEntry, xs: seq<DistributionEntry>, t: CriteriaType)
    ensures EntriesOfType([h] + xs, t) == (if h.criteriaType == t then [h] else []) + EntriesOfType(xs, t)
  {
    assert ([h] + xs)[0] == h;
    assert ([h] + xs)[1..] == xs;
  }

  /** Filtering by type distributes over concatenation. */
  lemma {:induction false} EntriesOfTypeAppend(a: seq<DistributionEntry>, b: seq<DistributionEntry>, t: CriteriaType)
    ensures EntriesOfType(a + b, t) == EntriesOfType(a, t) + EntriesOfType(b, t)
  {
    if a == [] {
      assert a + b == b;
    } else {
      assert (a + b)[1..] == a[1..] + b;
      EntriesOfTypeAppend(a[1..], b, t);
    }
  }

  /** The option ids of a list of rows. */
  function IdsOf(es: seq<DistributionEntry>): (r: seq<string>)
    ensures |r| == |es|
    ensures forall i :: 0 <= i < |es| ==> r[i] == es[i].criteriaId
  {
    if es == [] then [] else [es[0].criteriaId] + IdsOf(es[1..])
  }

  /** The ids that are not blank (`.filter(v => v && v.trim() !== '')`), in order. */
  function NonBlank(ids: seq<string>): (r: seq<string>)
    ensures |r| <= |ids|
    ensures forall i :: 0 <= i < |r| ==> !IsBlank(r[i])
  {
    if ids == [] then []
    else (if IsBlank(ids[0]) then [] else [ids[0]]) + NonBlank(ids[1..])
  }

  /** `NonBlank` keeps every non-blank id as often as it occurs and drops
      every blank one. */
  lemma {:induction false} NonBlankCounts(ids: seq<string>, v: string)
    ensures multiset(NonBlank(ids))[v] == if IsBlank(v) then 0 else multiset(ids)[v]
  {
    if ids != [] {
      NonBlankCounts(ids[1..], v);
      assert ids == [ids[0]] + ids[1..];
    }
  }

  /** `hasDuplicatesInType` of the editor and the service: among the rows of
      type `t`, the non-blank ids outnumber their distinct values. */
  predicate HasDuplicatesInType(es: seq<DistributionEntry>, t: CriteriaType) {
    HasRepeat(NonBlank(IdsOf(EntriesOfType(es, t))))
  }

  /** A type has duplicates exactly when some non-blank id occurs on two of
      its rows. */
  lemma DuplicatesIff(es: seq<DistributionEntry>, t: CriteriaType)
    ensures HasDuplicatesInType(es, t) <==>
      exists v :: !IsBlank(v) && multiset(IdsOf(EntriesOfType(es, t)))[v] >= 2
  {
    var ids := IdsOf(EntriesOfType(es, t));
    var nb := NonBlank(ids);
    RepeatIffNotDistinct(nb);
    if !Distinct(nb) {
      var v :| multiset(nb)[v] > 1;
      NonBlankCounts(ids, v);
    }
    if exists v :: !IsBlank(v) && multiset(ids)[v] >= 2 {
      var v :| !IsBlank(v) && multiset(ids)[v] >= 2;
      NonBlankCounts(ids, v);
    }
  }

  /** Rows of one type never hold an id more often than all rows together. */
  lemma {:induction false} IdCountOfType(es: seq<DistributionEntry>, t: CriteriaType, v: string)
    ensures multiset(IdsOf(EntriesOfType(es, t)))[v] <= multiset(IdsOf(es))[v]
  {
    if es != [] {
      IdCountOfType(es[1..], t, v);
      assert IdsOf(es) == [es[0].criteriaId] + IdsOf(es[1..]);
      var head := if es[0].criteriaType == t then [es[0]] else [];
      assert EntriesOfType(es, t) == head + EntriesOfType(es[1..], t);
      IdsOfAppend(head, EntriesOfType(es[1..], t));
    }
  }

  /** Ids distribute over concatenation. */
  lemma IdsOfAppend(a: seq<DistributionEntry>, b: seq<DistributionEntry>)
    ensures IdsOf(a + b) == IdsOf(a) + IdsOf(b)
  {
  }

  /** The editor's uniqueness invariant: no non-empty id appears on two rows,
      whatever their types. */
  ghost predicate UniqueIds(es: seq<DistributionEntry>) {
    forall v :: v != "" ==> multiset(IdsOf(es))[v] <= 1
  }

  /** Under the uniqueness invariant no type has duplicates. */
  lemma UniqueIdsNoDuplicates(es: seq<DistributionEntry>, t: CriteriaType)
    requires UniqueIds(es)
    ensures !HasDuplicatesInType(es, t)
  {
    DuplicatesIff(es, t);
    if HasDuplicatesInType(es, t) {
      var v :| !IsBlank(v) && multiset(IdsOf(EntriesOfType(es, t)))[v] >= 2;
      IdCountOfType(es, t, v);
      assert false;
    }
  }

  // ---------------------------------------------------------------------------
  // Per-type totals
  // ---------------------------------------------------------------------------

  /** `Number(percentage) || 0`: a missing percentage counts as 0. Rows and
      items both go through it. */
  function PercentagesOf(ps: seq<Option<int>>): (r: seq<int>)
    ensures |r| == |ps|
    ensures forall i :: 0 <= i < |ps| ==> r[i] == if ps[i].Some? then ps[i].value else 0
  {
    if ps == [] then []
    else [if ps[0].Some? then ps[0].value else 0] + PercentagesOf(ps[1..])
  }

  /** `getTotalPercentageForType`: the 2-decimal mean of the type's strictly
      positive percentages, 0 when there is none. */
  function TotalPercentageForType(es: seq<DistributionEntry>, t: CriteriaType): (r: real)
    ensures r >= 0.0
    ensures r == 0.0 <==> forall i :: 0 <= i < |EntriesOfType(es, t)| ==> !PercentageFilled(EntriesOfType(es, t)[i].percentage)
  {
    var items := EntriesOfType(es, t);
    var ps := PercentagesOf(seq(|items|, i requires 0 <= i < |items| => items[i].percentage));
    assert forall i :: 0 <= i < |ps| ==> (ps[i] > 0 <==> PercentageFilled(items[i].percentage));
    Averages.PositivesEmpty(ps);
    Averages.MeanOfPositives(ps)
  }

  /** With percentages within `[0, 100]` the type's total is too. */
  lemma TotalPercentageAtMost100(es: seq<DistributionEntry>, t: CriteriaType)
    requires forall i :: 0 <= i < |es| && es[i].percentage.Some? ==> es[i].percentage.value <= 100
    ensures TotalPercentageForType(es, t) <= 100.0
  {
    var items := EntriesOfType(es, t);
    var ps := PercentagesOf(seq(|items|, i requires 0 <= i < |items| => items[i].percentage));
    if Averages.Positives(ps) != [] {
      EntriesOfTypeMembers(es, t);
      forall i | 0 <= i < |ps| && ps[i] > 0 ensures 1 <= ps[i] <= 100 {
        assert items[i] in EntriesOfType(es, t);
      }
      Averages.MeanWithin(ps, 1, 100);
    }
  }

  /** The total of a group's own items (`updateCriteriaTotalPercentage`):
      items with a null or non-positive percentage are left out. */
  function ItemsTotal(items: seq<DistributionItem>): (r: real)
    ensures r >= 0.0
    ensures r == 0.0 <==> forall i :: 0 <= i < |items| ==> !PercentageFilled(items[i].percentage)
  {
    var ps := PercentagesOf(seq(|items|, i requires 0 <= i < |items| => items[i].percentage));
    assert forall i :: 0 <= i < |ps| ==> (ps[i] > 0 <==> PercentageFilled(items[i].percentage));
    Averages.PositivesEmpty(ps);
    Averages.MeanOfPositives(ps)
  }

  /** `updateCriteriaTotalPercentage`: the first group of type `t` gets the
      total of its own items; nothing else changes. */
  function UpdateCriteriaTotalPercentage(groups: seq<CriteriaGroup>, t: CriteriaType): (r: seq<CriteriaGroup>)
    ensures |r| == |groups|
    ensures FindGroup(groups, t).None? ==> r == groups
    ensures FindGroup(groups, t).Some? ==>
      var k := FindGroup(groups, t).value;
      r[k].totalPercentage == ItemsTotal(groups[k].items) &&
      r[k] == groups[k].(totalPercentage := r[k].totalPercentage) &&
      forall j :: 0 <= j < |groups| && j != k ==> r[j] == groups[j]
  {
    match FindGroup(groups, t)
    case None => groups
    case Some(k) => groups[k := groups[k].(totalPercentage := ItemsTotal(groups[k].items))]
  }

  /** `isCriterionSelected`: some group of type `t` is selected. */
  predicate IsCriterionSelected(groups: seq<CriteriaGroup>, t: CriteriaType) {
    exists i :: 0 <= i < |groups| && groups[i].criteriaType == t && groups[i].selected
  }

  /** The groups hold at most one group per type (toggling only ever adds a
      group for a type that has none). */
  ghost predicate UniqueTypes(groups: seq<CriteriaGroup>) {
    forall i, j :: 0 <= i < j < |groups| ==> groups[i].criteriaType != groups[j].criteriaType
  }

  /** An unselected group holds no items and a zero total. */
  ghost predicate ClearedWhenUnselected(groups: seq<CriteriaGroup>) {
    forall i :: 0 <= i < |groups| && !groups[i].selected ==> groups[i].items == [] && groups[i].totalPercentage == 0.0
  }

  /** The group half of `toggleCriterion` (identical in the editor and the
      page): an existing group of type `t` flips its selection and, when
      deselected, loses its items and total; otherwise a selected empty group
      named from the table is appended. */
  function ToggleGroups(groups: seq<CriteriaGroup>, t: CriteriaType): (r: seq<CriteriaGroup>)
    ensures FindGroup(groups, t).None? ==> r == groups + [CriteriaGroup(t, CriteriaName(t), true, [], 0.0)]
    ensures FindGroup(groups, t).Some? ==>
      var k := FindGroup(groups, t).value;
      |r| == |groups| &&
      r[k].criteriaType == t && r[k].name == groups[k].name &&
      r[k].selected == !groups[k].selected &&
      (r[k].selected ==> r[k].items == groups[k].items && r[k].totalPercentage == groups[k].totalPercentage) &&
      (!r[k].selected ==> r[k].items == [] && r[k].totalPercentage == 0.0) &&
      forall j :: 0 <= j < |groups| && j != k ==> r[j] == groups[j]
  {
    match FindGroup(groups, t)
    case None => groups + [CriteriaGroup(t, CriteriaName(t), true, [], 0.0)]
    case Some(k) =>
      var g := groups[k];
      if g.selected then groups[k := g.(selected := false, items := [], totalPercentage := 0.0)]
      else groups[k := g.(selected := true)]
  }

  /** Toggling keeps one group per type and keeps unselected groups empty. */
  lemma TogglePreservesInvariants(groups: seq<CriteriaGroup>, t: CriteriaType)
    requires UniqueTypes(groups) && ClearedWhenUnselected(groups)
    ensures UniqueTypes(ToggleGroups(groups, t)) && ClearedWhenUnselected(ToggleGroups(groups, t))
  {
  }

  /** With one group per type, toggling flips the selection of `t`. */
  lemma ToggleFlipsSelection(groups: seq<CriteriaGroup>, t: CriteriaType)
    requires UniqueTypes(groups)
    ensures IsCriterionSelected(ToggleGroups(groups, t), t) <==> !IsCriterionSelected(groups, t)
  {
    var r := ToggleGroups(groups, t);
    match FindGroup(groups, t)
    case None =>
      assert r[|groups|].criteriaType == t && r[|groups|].selected;
    case Some(k) =>
      if IsCriterionSelected(groups, t) {
        var i :| 0 <= i < |groups| && groups[i].criteriaType == t && groups[i].selected;
        assert i == k;
      }
      if IsCriterionSelected(r, t) {
        var i :| 0 <= i < |r| && r[i].criteriaType == t && r[i].selected;
        assert i == k;
      }
  }

  /** Toggling `t` leaves the selection of every other type as it was. */
  lemma ToggleKeepsOthers(groups: seq<CriteriaGroup>, t: CriteriaType, u: CriteriaType)
    requires u != t
    ensures IsCriterionSelected(ToggleGroups(groups, t), u) <==> IsCriterionSelected(groups, u)
  {
    var r := ToggleGroups(groups, t);
    assert forall i :: 0 <= i < |groups| && groups[i].criteriaType == u ==> r[i] == groups[i];
    if IsCriterionSelected(r, u) {
      var i :| 0 <= i < |r| && r[i].criteriaType == u && r[i].selected;
      assert i < |groups|;
    }
    if IsCriterionSelected(groups, u) {
      var i :| 0 <= i < |groups| && groups[i].criteriaType == u && groups[i].selected;
      assert r[i] == groups[i];
    }
  }
}
