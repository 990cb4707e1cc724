/**
 * The criteria step of the `NewScenario` page. Unlike the editor component,
 * the page keeps two structures side by side: the criteria groups with their
 * items (the `criteriaGroups` signal, initially empty) and the `distributions`
 * form array, whose controls carry only a value (the criteria id) and a
 * percentage, in the order they were added.
 */
module NewScenarioCriteria {
  import opened Common
  import opened Criteria

  /** One control of the `distributions` form array. */
  datatype FormControl = FormControl(value: string, percentage: Option<int>)

  /** The page's criteria state. */
  datatype Page = Page(groups: seq<CriteriaGroup>, controls: seq<FormControl>)

  /** The page at construction. */
  const InitialPage := Page([], [])

  // ---------------------------------------------------------------------------
  // Selected groups
  // ---------------------------------------------------------------------------

  /** `selectedCriteriaGroups`: the selected groups, in order. */
  function SelectedGroups(groups: seq<CriteriaGroup>): (r: seq<CriteriaGroup>)
    ensures |r| <= |groups|
    ensures forall k :: 0 <= k < |r| ==> r[k].selected
  {
    if groups == [] then []
    else (if groups[0].selected then [groups[0]] else []) + SelectedGroups(groups[1..])
  }

  /** A group is among the selected ones exactly when it is a selected group. */
  lemma {:induction false} SelectedGroupsMembers(groups: seq<CriteriaGroup>, g: CriteriaGroup)
    ensures g in SelectedGroups(groups) <==> g in groups && g.selected
  {
    if groups != [] {
      SelectedGroupsMembers(groups[1..], g);
      assert groups == [groups[0]] + groups[1..];
    }
  }

  /** Some group is selected. */
  predicate AnySelected(groups: seq<CriteriaGroup>) {
    exists i :: 0 <= i < |groups| && groups[i].selected
  }

  /** There are selected groups exactly when some group is selected. */
  lemma SelectedGroupsEmpty(groups: seq<CriteriaGroup>)
    ensures SelectedGroups(groups) == [] <==> !AnySelected(groups)
  {
    if AnySelected(groups) {
      var i :| 0 <= i < |groups| && groups[i].selected;
      SelectedGroupsMembers(groups, groups[i]);
    }
    if SelectedGroups(groups) != [] {
      var g := SelectedGroups(groups)[0];
      SelectedGroupsMembers(groups, g);
    }
  }

  // ---------------------------------------------------------------------------
  // Duplicates within a group
  // ---------------------------------------------------------------------------

  /** The ids of a group's items, in order. */
  function ItemIds(items: seq<DistributionItem>): (r: seq<string>)
    ensures |r| == |items|
    ensures forall j :: 0 <= j < |items| ==> r[j] == items[j].criteriaId
  {
    if items == [] then [] else [items[0].criteriaId] + ItemIds(items[1..])
  }

  /** `hasDuplicatesInCriteriaType`: false without a group of the type or with
      at most one item; otherwise the group's non-blank ids outnumber their
      distinct values. */
  predicate HasDuplicatesInCriteriaType(groups: seq<CriteriaGroup>, t: CriteriaType) {
    match FindGroup(groups, t)
    case None => false
    case Some(k) => |groups[k].items| > 1 && HasRepeat(NonBlank(ItemIds(groups[k].items)))
  }

  /** The first group of the type has duplicates exactly when some non-blank
      id sits on two of its items. */
  lemma DuplicatesInCriteriaTypeIff(groups: seq<CriteriaGroup>, t: CriteriaType)
    ensures HasDuplicatesInCriteriaType(groups, t) <==>
      FindGroup(groups, t).Some? &&
      exists v :: !IsBlank(v) && multiset(ItemIds(groups[FindGroup(groups, t).value].items))[v] >= 2
  {
    if FindGroup(groups, t).Some? {
      var ids := ItemIds(groups[FindGroup(groups, t).value].items);
      var nb := NonBlank(ids);
      RepeatIffNotDistinct(nb);
      if HasRepeat(nb) {
        var v :| multiset(nb)[v] > 1;
        NonBlankCounts(ids, v);
      }
      if exists v :: !IsBlank(v) && multiset(ids)[v] >= 2 {
        var v :| !IsBlank(v) && multiset(ids)[v] >= 2;
        NonBlankCounts(ids, v);
        assert |ids| >= 2 by { assert |multiset(ids)| == |ids|; }
      }
    }
  }

  /** No id, blank or not, occurs on two items of the group. */
  ghost predicate ItemIdsUnique(g: CriteriaGroup) {
    forall v :: multiset(ItemIds(g.items))[v] <= 1
  }

  /** A group whose item ids are unique has no duplicates. */
  lemma UniqueItemsNoDuplicates(groups: seq<CriteriaGroup>, t: CriteriaType)
    requires forall k :: 0 <= k < |groups| ==> ItemIdsUnique(groups[k])
    ensures !HasDuplicatesInCriteriaType(groups, t)
  {
    DuplicatesInCriteriaTypeIff(groups, t);
  }

  // ---------------------------------------------------------------------------
  // Status and validation
  // ---------------------------------------------------------------------------

  /** An item with a non-blank id and a filled percentage. */
  predicate ItemComplete(item: DistributionItem) {
    !IsBlank(item.criteriaId) && PercentageFilled(item.percentage)
  }

  /** A group with items, all of them complete. */
  predicate GroupComplete(g: CriteriaGroup) {
    |g.items| > 0 && forall j :: 0 <= j < |g.items| ==> ItemComplete(g.items[j])
  }

  /** The page's `criteriaGroupStatus`: VALID without selected groups;
      otherwise INVALID as soon as a selected group has no items, an item
      with a bad percentage, duplicates, or an item with a blank id. */
  function PageCriteriaGroupStatus(groups: seq<CriteriaGroup>): (r: Status)
    ensures r == Valid <==>
      forall g :: g in groups && g.selected ==> GroupComplete(g) && !HasDuplicatesInCriteriaType(groups, g.criteriaType)
  {
    var sel := SelectedGroups(groups);
    forall g ensures g in sel <==> g in groups && g.selected {
      SelectedGroupsMembers(groups, g);
    }
    if |sel| == 0 then Valid
    else if exists k :: 0 <= k < |sel| && |sel[k].items| == 0 then Invalid
    else if exists k, j :: 0 <= k < |sel| && 0 <= j < |sel[k].items| && !PercentageFilled(sel[k].items[j].percentage) then Invalid
    else if exists k :: 0 <= k < |sel| && HasDuplicatesInCriteriaType(groups, sel[k].criteriaType) then Invalid
    else if exists k, j :: 0 <= k < |sel| && 0 <= j < |sel[k].items| && IsBlank(sel[k].items[j].criteriaId) then Invalid
    else Valid
  }

  /** The page's `criteriaValidation`: false without selected groups;
      otherwise every selected group has items and all of them are complete. */
  function PageCriteriaValidation(groups: seq<CriteriaGroup>): (r: bool)
    ensures r <==> AnySelected(groups) && forall g :: g in groups && g.selected ==> GroupComplete(g)
  {
    var sel := SelectedGroups(groups);
    forall g ensures g in sel <==> g in groups && g.selected {
      SelectedGroupsMembers(groups, g);
    }
    SelectedGroupsEmpty(groups);
    |sel| > 0 && forall k :: 0 <= k < |sel| ==> GroupComplete(sel[k])
  }

  /** Status and validation differ only in the duplicate check and in the
      empty selection: with something selected the status is VALID exactly
      when the validation holds and no selected type has duplicates. */
  lemma StatusVersusValidation(groups: seq<CriteriaGroup>)
    ensures !AnySelected(groups) ==> PageCriteriaGroupStatus(groups) == Valid && !PageCriteriaValidation(groups)
    ensures AnySelected(groups) ==>
      (PageCriteriaGroupStatus(groups) == Valid <==>
        PageCriteriaValidation(groups) &&
        forall g :: g in groups && g.selected ==> !HasDuplicatesInCriteriaType(groups, g.criteriaType))
  {
    if !AnySelected(groups) {
      forall g | g in groups ensures !g.selected {
        var i :| 0 <= i < |groups| && groups[i] == g;
      }
    }
  }

  // ---------------------------------------------------------------------------
  // Toggling a criterion
  // ---------------------------------------------------------------------------

  /** The controls whose value is not among `ids`, in order (the backward
      `removeAt` loop of `clearCriteriaFromFormArray`). */
  function KeepControls(controls: seq<FormControl>, ids: seq<string>): (r: seq<FormControl>)
    ensures |r| <= |controls|
    ensures forall i :: 0 <= i < |r| ==> r[i].value !in ids
  {
    if controls == [] then []
    else (if controls[0].value in ids then [] else [controls[0]]) + KeepControls(controls[1..], ids)
  }

  /** A control survives clearing exactly when its value is not among `ids`. */
  lemma {:induction false} KeepControlsMembers(controls: seq<FormControl>, ids: seq<string>, c: FormControl)
    ensures c in KeepControls(controls, ids) <==> c in controls && c.value !in ids
  {
    if controls != [] {
      KeepControlsMembers(controls[1..], ids, c);
      assert controls == [controls[0]] + controls[1..];
    }
  }

  /** Clearing works control by control, so the survivors keep their order:
      it distributes over `+`. */
  lemma {:induction false} KeepControlsAppend(a: seq<FormControl>, b: seq<FormControl>, ids: seq<string>)
    ensures KeepControls(a + b, ids) == KeepControls(a, ids) + KeepControls(b, ids)
  {
    if a == [] {
      assert a + b == b;
    } else {
      assert (a + b)[0] == a[0] && (a + b)[1..] == a[1..] + b;
      KeepControlsAppend(a[1..], b, ids);
    }
  }

  /** The page's `toggleCriterion`: the group half is `ToggleGroups`; when an
      existing selected group is turned off, the controls whose value is
      among that group's item ids are removed first. */
  function ToggleCriterion(p: Page, t: CriteriaType): (r: Page)
    ensures r.groups == ToggleGroups(p.groups, t)
    ensures FindGroup(p.groups, t).None? || !p.groups[FindGroup(p.groups, t).value].selected ==> r.controls == p.controls
    ensures FindGroup(p.groups, t).Some? && p.groups[FindGroup(p.groups, t).value].selected ==>
      var ids := ItemIds(p.groups[FindGroup(p.groups, t).value].items);
      r.controls == KeepControls(p.controls, ids) &&
      |r.controls| <= |p.controls| &&
      forall c :: c in r.controls <==> c in p.controls && c.value !in ids
  {
    var controls := match FindGroup(p.groups, t)
      case None => p.controls
      case Some(k) =>
        if p.groups[k].selected then KeepControls(p.controls, ItemIds(p.groups[k].items)) else p.controls;
    forall c ensures FindGroup(p.groups, t).Some? ==>
      (c in KeepControls(p.controls, ItemIds(p.groups[FindGroup(p.groups, t).value].items)) <==>
        c in p.controls && c.value !in ItemIds(p.groups[FindGroup(p.groups, t).value].items)) {
      if FindGroup(p.groups, t).Some? {
        KeepControlsMembers(p.controls, ItemIds(p.groups[FindGroup(p.groups, t).value].items), c);
      }
    }
    Page(ToggleGroups(p.groups, t), controls)
  }

  // ---------------------------------------------------------------------------
  // Adding an item
  // ---------------------------------------------------------------------------

  /** Some control carries the value. */
  predicate HasControl(controls: seq<FormControl>, id: string) {
    exists i :: 0 <= i < |controls| && controls[i].value == id
  }

  /** Some item of the group carries the id. */
  predicate HasItem(g: CriteriaGroup, id: string) {
    exists j :: 0 <= j < |g.items| && g.items[j].criteriaId == id
  }

  /** The page's `addDistributionItem`: a control with the value is appended
      unless one already exists (any value, the empty one included); the
      first group of the type gains the item unless it already holds the id;
      without such a group the groups are unchanged. */
  function AddDistributionItem(p: Page, t: CriteriaType, id: string, name: string): (r: Page)
    ensures HasControl(p.controls, id) ==> r.controls == p.controls
    ensures !HasControl(p.controls, id) ==> r.controls == p.controls + [FormControl(id, None)]
    ensures |r.groups| == |p.groups|
    ensures FindGroup(p.groups, t).None? ==> r.groups == p.groups
    ensures FindGroup(p.groups, t).Some? ==>
      var k := FindGroup(p.groups, t).value;
      (forall j :: 0 <= j < |p.groups| && j != k ==> r.groups[j] == p.groups[j]) &&
      (HasItem(p.groups[k], id) ==> r.groups[k] == p.groups[k]) &&
      (!HasItem(p.groups[k], id) ==>
        r.groups[k] == p.groups[k].(items := p.groups[k].items + [DistributionItem(id, name, None)]))
  {
    var controls := if id in ValuesOf(p.controls) then p.controls else p.controls + [FormControl(id, None)];
    var groups := match FindGroup(p.groups, t)
      case None => p.groups
      case Some(k) =>
        var g := p.groups[k];
        if id in ItemIds(g.items) then p.groups
        else p.groups[k := g.(items := g.items + [DistributionItem(id, name, None)])];
    Page(groups, controls)
  }

  /** The values of the controls, in order. */
  function ValuesOf(controls: seq<FormControl>): (r: seq<string>)
    ensures |r| == |controls|
    ensures forall i :: 0 <= i < |controls| ==> r[i] == controls[i].value
  {
    if controls == [] then [] else [controls[0].value] + ValuesOf(controls[1..])
  }

  /** Adding keeps every value on at most one control and every id on at
      most one item of a group. */
  lemma AddKeepsValuesUnique(p: Page, t: CriteriaType, id: string, name: string)
    requires forall v :: multiset(ValuesOf(p.controls))[v] <= 1
    requires forall k :: 0 <= k < |p.groups| ==> ItemIdsUnique(p.groups[k])
    ensures forall v :: multiset(ValuesOf(AddDistributionItem(p, t, id, name).controls))[v] <= 1
    ensures forall k :: 0 <= k < |p.groups| ==> ItemIdsUnique(AddDistributionItem(p, t, id, name).groups[k])
  {
    var r := AddDistributionItem(p, t, id, name);
    if !HasControl(p.controls, id) {
      ValuesOfSnoc(p.controls, FormControl(id, None));
      assert id !in ValuesOf(p.controls);
    }
    if FindGroup(p.groups, t).Some? {
      var k := FindGroup(p.groups, t).value;
      var items := p.groups[k].items;
      if !HasItem(p.groups[k], id) {
        ItemIdsSnoc(items, DistributionItem(id, name, None));
        assert id !in ItemIds(items);
      }
    }
  }

  /** Values of a list extended by one control. */
  lemma ValuesOfSnoc(controls: seq<FormControl>, c: FormControl)
    ensures ValuesOf(controls + [c]) == ValuesOf(controls) + [c.value]
  {
    var a, b := ValuesOf(controls + [c]), ValuesOf(controls) + [c.value];
    assert forall i :: 0 <= i < |a| ==> a[i] == b[i];
  }

  /** Ids of a list extended by one item. */
  lemma ItemIdsSnoc(items: seq<DistributionItem>, x: DistributionItem)
    ensures ItemIds(items + [x]) == ItemIds(items) + [x.criteriaId]
  {
    var a, b := ItemIds(items + [x]), ItemIds(items) + [x.criteriaId];
    assert forall i :: 0 <= i < |a| ==> a[i] == b[i];
  }

  /** Hence adds alone never make a type report duplicates. */
  lemma AddsNeverDuplicate(p: Page, t: CriteriaType, id: string, name: string, u: CriteriaType)
    requires forall v :: multiset(ValuesOf(p.controls))[v] <= 1
    requires forall k :: 0 <= k < |p.groups| ==> ItemIdsUnique(p.groups[k])
    ensures !HasDuplicatesInCriteriaType(AddDistributionItem(p, t, id, name).groups, u)
  {
    AddKeepsValuesUnique(p, t, id, name);
    UniqueItemsNoDuplicates(AddDistributionItem(p, t, id, name).groups, u);
  }

  // ---------------------------------------------------------------------------
  // Form-array index of an item
  // ---------------------------------------------------------------------------

  /** The number of items held by the selected groups. */
  function SelectedItemCount(groups: seq<CriteriaGroup>): nat {
    if groups == [] then 0
    else (if groups[0].selected then |groups[0].items| else 0) + SelectedItemCount(groups[1..])
  }

  /** Counting the selected items of a list extended by one group. */
  lemma {:induction false} SelectedItemCountSnoc(groups: seq<CriteriaGroup>, g: CriteriaGroup)
    ensures SelectedItemCount(groups + [g]) == SelectedItemCount(groups) + if g.selected then |g.items| else 0
  {
    if groups == [] {
      assert [g][1..] == [];
    } else {
      assert (groups + [g])[1..] == groups[1..] + [g];
      SelectedItemCountSnoc(groups[1..], g);
    }
  }

  /** Where `getFormArrayIndexForItem` assumes the item's control sits: after
      the items of every selected group in front of the first group of the
      type (of every selected group when there is none). */
  function FormArrayIndexForItem(groups: seq<CriteriaGroup>, t: CriteriaType, k: nat): (r: nat)
    ensures FindGroup(groups, t).None? ==> r == SelectedItemCount(groups)
    ensures FindGroup(groups, t).Some? ==> r >= k
  {
    match FindGroup(groups, t)
    case None => SelectedItemCount(groups)
    case Some(p) => SelectedItemCount(groups[..p]) + k
  }

  /** The loop of `getFormArrayIndexForItem`: walk the groups adding the
      item counts of selected ones, and stop at the first group of the type. */
  method GetFormArrayIndexForItem(groups: seq<CriteriaGroup>, t: CriteriaType, k: nat) returns (r: nat)
    ensures r == FormArrayIndexForItem(groups, t, k)
  {
    var index := 0;
    var i := 0;
    while i < |groups|
      invariant 0 <= i <= |groups|
      invariant index == SelectedItemCount(groups[..i])
      invariant forall j :: 0 <= j < i ==> groups[j].criteriaType != t
    {
      if groups[i].criteriaType == t {
        FindGroupAt(groups, t, i);
        return index + k;
      }
      SelectedItemCountSnoc(groups[..i], groups[i]);
      assert groups[..i + 1] == groups[..i] + [groups[i]];
      if groups[i].selected {
        index := index + |groups[i].items|;
      }
      i := i + 1;
    }
    assert groups[..i] == groups;
    r := index;
  }

  /** The first position holding the type is what `FindGroup` finds. */
  lemma FindGroupAt(groups: seq<CriteriaGroup>, t: CriteriaType, i: nat)
    requires i < |groups| && groups[i].criteriaType == t
    requires forall j :: 0 <= j < i ==> groups[j].criteriaType != t
    ensures FindGroup(groups, t) == Some(i)
  {
  }

  // ---------------------------------------------------------------------------
  // Removing an item
  // ---------------------------------------------------------------------------

  /** The items of the first group of type `t` after `splice(k, 1)` and the
      total recomputed, for an index inside the group. */
  function RemoveItemFromGroup(groups: seq<CriteriaGroup>, t: CriteriaType, k: nat): (r: seq<CriteriaGroup>)
    requires FindGroup(groups, t).Some? && k < |groups[FindGroup(groups, t).value].items|
    ensures |r| == |groups|
    ensures var g := FindGroup(groups, t).value;
      r[g].items == groups[g].items[..k] + groups[g].items[k + 1..] &&
      r[g].totalPercentage == ItemsTotal(r[g].items) &&
      r[g].selected == groups[g].selected && r[g].criteriaType == t &&
      forall j :: 0 <= j < |groups| && j != g ==> r[j] == groups[j]
  {
    var g := FindGroup(groups, t).value;
    var items := groups[g].items[..k] + groups[g].items[k + 1..];
    var spliced := groups[g := groups[g].(items := items)];
    FindGroupSameTypes(groups, spliced, t);
    UpdateCriteriaTotalPercentage(spliced, t)
  }

  /** The page's `removeDistributionItem` as written: for an index inside the
      first group of the type, the control at `getFormArrayIndexForItem` is
      removed (when that position exists) and the item is spliced out of the
      group; otherwise nothing changes. */
  function RemoveDistributionItem(p: Page, t: CriteriaType, k: nat): (r: Page)
    ensures FindGroup(p.groups, t).None? || k >= |p.groups[FindGroup(p.groups, t).value].items| ==> r == p
    ensures FindGroup(p.groups, t).Some? && k < |p.groups[FindGroup(p.groups, t).value].items| ==>
      var i := FormArrayIndexForItem(p.groups, t, k);
      r.groups == RemoveItemFromGroup(p.groups, t, k) &&
      (i < |p.controls| ==> r.controls == p.controls[..i] + p.controls[i + 1..]) &&
      (i >= |p.controls| ==> r.controls == p.controls)
  {
    match FindGroup(p.groups, t)
    case None => p
    case Some(g) =>
      if k >= |p.groups[g].items| then p
      else
        var i := FormArrayIndexForItem(p.groups, t, k);
        var controls := if i < |p.controls| then p.controls[..i] + p.controls[i + 1..] else p.controls;
        Page(RemoveItemFromGroup(p.groups, t, k), controls)
  }

  /** Gender and age group selected, then "male", "18-25" and "female" added
      in that order: the controls are in add order while the index is
      computed in group order, so removing the second gender item ("female")
      removes the "18-25" control and leaves "female" behind. */
  lemma RemoveDropsWrongControl()
    ensures RemoveDistributionItem(Scenario(), Gender, 1).controls == [Control("male"), Control("female")]
  {
    ScenarioShape();
    RemoveOnStage3();
  }

  /** The as-written removal on the scenario's final state. */
  lemma RemoveOnStage3()
    ensures RemoveDistributionItem(Stage3(), Gender, 1).controls == [Control("male"), Control("female")]
  {
    var p := Stage3();
    IndexOnStage3();
    assert p.controls[..1] + p.controls[2..] == [Control("male"), Control("female")];
  }

  /** In the scenario's final state the second gender item is looked for at
      position 1, where "18-25" sits. */
  lemma IndexOnStage3()
    ensures FindGroup(Stage3().groups, Gender) == Some(0)
    ensures FormArrayIndexForItem(Stage3().groups, Gender, 1) == 1
  {
    var p := Stage3();
    FindGroupAt(p.groups, Gender, 0);
    assert p.groups[..0] == [];
  }

  /** A fresh control for an id. */
  function Control(id: string): FormControl {
    FormControl(id, None)
  }

  /** A fresh item. */
  function Item(id: string, name: string): DistributionItem {
    DistributionItem(id, name, None)
  }

  /** The scenario: select gender, then age group, then add "male" (gender),
      "18-25" (age group) and "female" (gender). */
  function Scenario(): Page {
    var p0 := ToggleCriterion(ToggleCriterion(InitialPage, Gender), AgeGroup);
    var p1 := AddDistributionItem(p0, Gender, "male", "Male");
    var p2 := AddDistributionItem(p1, AgeGroup, "18-25", "18-25");
    AddDistributionItem(p2, Gender, "female", "Female")
  }

  /** The freshly selected gender group. */
  function GenderGroup(items: seq<DistributionItem>): CriteriaGroup {
    CriteriaGroup(Gender, CriteriaName(Gender), true, items, 0.0)
  }

  /** The freshly selected age-group group. */
  function AgeGroupGroup(items: seq<DistributionItem>): CriteriaGroup {
    CriteriaGroup(AgeGroup, CriteriaName(AgeGroup), true, items, 0.0)
  }

  /** The scenario's state after its last step. */
  function Stage3(): Page {
    Page([GenderGroup([Item("male", "Male"), Item("female", "Female")]), AgeGroupGroup([Item("18-25", "18-25")])],
         [Control("male"), Control("18-25"), Control("female")])
  }

  /** The scenario ends in `Stage3`. */
  lemma ScenarioShape()
    ensures Scenario() == Stage3()
  {
    var p0 := ToggleCriterion(ToggleCriterion(InitialPage, Gender), AgeGroup);
    ScenarioToggles();
    var p1 := AddDistributionItem(p0, Gender, "male", "Male");
    ScenarioAddMale();
    var p2 := AddDistributionItem(p1, AgeGroup, "18-25", "18-25");
    ScenarioAddAge();
    ScenarioAddFemale();
  }

  /** Selecting gender then age group on the empty page. */
  lemma ScenarioToggles()
    ensures ToggleCriterion(ToggleCriterion(InitialPage, Gender), AgeGroup) == Page([GenderGroup([]), AgeGroupGroup([])], [])
  {
    var g0 := ToggleCriterion(InitialPage, Gender);
    assert g0 == Page([GenderGroup([])], []);
    assert FindGroup(g0.groups, AgeGroup).None? by {
      assert g0.groups[0].criteriaType != AgeGroup;
    }
  }

  /** Adding "male" to gender. */
  lemma ScenarioAddMale()
    ensures AddDistributionItem(Page([GenderGroup([]), AgeGroupGroup([])], []), Gender, "male", "Male") ==
      Page([GenderGroup([Item("male", "Male")]), AgeGroupGroup([])], [Control("male")])
  {
    var p := Page([GenderGroup([]), AgeGroupGroup([])], []);
    FindGroupAt(p.groups, Gender, 0);
    assert ValuesOf(p.controls) == [];
    assert ItemIds(p.groups[0].items) == [];
    var r := AddDistributionItem(p, Gender, "male", "Male");
    assert r.controls == [Control("male")];
    assert r.groups[0] == GenderGroup([Item("male", "Male")]);
    assert r.groups[1] == AgeGroupGroup([]);
  }

  /** Adding "18-25" to age group. */
  lemma ScenarioAddAge()
    ensures AddDistributionItem(Page([GenderGroup([Item("male", "Male")]), AgeGroupGroup([])], [Control("male")]),
        AgeGroup, "18-25", "18-25") ==
      Page([GenderGroup([Item("male", "Male")]), AgeGroupGroup([Item("18-25", "18-25")])], [Control("male"), Control("18-25")])
  {
    var p := Page([GenderGroup([Item("male", "Male")]), AgeGroupGroup([])], [Control("male")]);
    FindGroupAt(p.groups, AgeGroup, 1);
    assert ValuesOf(p.controls) == ["male"];
    assert ItemIds(p.groups[1].items) == [];
    var r := AddDistributionItem(p, AgeGroup, "18-25", "18-25");
    assert r.controls == [Control("male"), Control("18-25")];
    assert r.groups[0] == GenderGroup([Item("male", "Male")]);
    assert r.groups[1] == AgeGroupGroup([Item("18-25", "18-25")]);
  }

  /** Adding "female" to gender. */
  lemma ScenarioAddFemale()
    ensures AddDistributionItem(
        Page([GenderGroup([Item("male", "Male")]), AgeGroupGroup([Item("18-25", "18-25")])], [Control("male"), Control("18-25")]),
        Gender, "female", "Female") == Stage3()
  {
    var p := Page([GenderGroup([Item("male", "Male")]), AgeGroupGroup([Item("18-25", "18-25")])], [Control("male"), Control("18-25")]);
    FindGroupAt(p.groups, Gender, 0);
    assert ValuesOf(p.controls) == ["male", "18-25"];
    assert ItemIds(p.groups[0].items) == ["male"];
    var r := AddDistributionItem(p, Gender, "female", "Female");
    assert r.controls == [Control("male"), Control("18-25"), Control("female")];
    assert r.groups[0] == GenderGroup([Item("male", "Male"), Item("female", "Female")]);
    assert r.groups[1] == AgeGroupGroup([Item("18-25", "18-25")]);
  }

  /** The index of the first control carrying the value. */
  function FirstControl(controls: seq<FormControl>, id: string): (r: Option<nat>)
    ensures r.Some? ==> r.value < |controls| && controls[r.value].value == id
    ensures r.Some? ==> forall i :: 0 <= i < r.value ==> controls[i].value != id
    ensures r.None? ==> !HasControl(controls, id)
  {
    if controls == [] then None
    else if controls[0].value == id then Some(0)
    else match FirstControl(controls[1..], id)
      case None => None
      case Some(i) => Some(i + 1)
  }

  /** The controls carrying values other than `v`, in order. */
  function OtherValues(controls: seq<FormControl>, v: string): (r: seq<FormControl>)
    ensures |r| <= |controls|
  {
    if controls == [] then []
    else (if controls[0].value == v then [] else [controls[0]]) + OtherValues(controls[1..], v)
  }

  /** `removeDistributionItem` as evidently intended: the control removed is
      the first one carrying the removed item's id, found by value as
      `updateDistributionPercentage` does, rather than by position. */
  function RemoveDistributionItemById(p: Page, t: CriteriaType, k: nat): (r: Page)
    ensures FindGroup(p.groups, t).None? || k >= |p.groups[FindGroup(p.groups, t).value].items| ==> r == p
    ensures FindGroup(p.groups, t).Some? && k < |p.groups[FindGroup(p.groups, t).value].items| ==>
      var id := p.groups[FindGroup(p.groups, t).value].items[k].criteriaId;
      r.groups == RemoveItemFromGroup(p.groups, t, k) &&
      (!HasControl(p.controls, id) ==> r.controls == p.controls) &&
      (HasControl(p.controls, id) ==> |r.controls| + 1 == |p.controls|)
  {
    match FindGroup(p.groups, t)
    case None => p
    case Some(g) =>
      if k >= |p.groups[g].items| then p
      else
        var controls := match FirstControl(p.controls, p.groups[g].items[k].criteriaId)
          case None => p.controls
          case Some(i) => p.controls[..i] + p.controls[i + 1..];
        Page(RemoveItemFromGroup(p.groups, t, k), controls)
  }

  /** The corrected removal keeps every control whose value differs from the
      removed item's id, in order. */
  lemma RemoveByIdKeepsOtherValues(p: Page, t: CriteriaType, k: nat)
    requires FindGroup(p.groups, t).Some? && k < |p.groups[FindGroup(p.groups, t).value].items|
    ensures var id := p.groups[FindGroup(p.groups, t).value].items[k].criteriaId;
      OtherValues(RemoveDistributionItemById(p, t, k).controls, id) == OtherValues(p.controls, id)
  {
    var id := p.groups[FindGroup(p.groups, t).value].items[k].criteriaId;
    match FirstControl(p.controls, id)
    case None =>
    case Some(i) =>
      OtherValuesSplice(p.controls, id, i);
  }

  /** Removing a control that carries `v` does not change the other values. */
  lemma {:induction false} OtherValuesSplice(controls: seq<FormControl>, v: string, i: nat)
    requires i < |controls| && controls[i].value == v
    ensures OtherValues(controls[..i] + controls[i + 1..], v) == OtherValues(controls, v)
  {
    if i == 0 {
      assert controls[..0] + controls[1..] == controls[1..];
    } else {
      var rest := controls[1..];
      assert controls == [controls[0]] + rest;
      ConsSplice(controls[0], rest, i - 1);
      OtherValuesSplice(rest, v, i - 1);
      assert (controls[..i] + controls[i + 1..])[1..] == rest[..i - 1] + rest[i..];
    }
  }

  /** On the scenario above the corrected removal drops the "female" control
      and keeps "18-25". */
  lemma RemoveByIdOnScenario()
    ensures RemoveDistributionItemById(Scenario(), Gender, 1).controls == [Control("male"), Control("18-25")]
  {
    ScenarioShape();
    RemoveByIdOnStage3();
  }

  /** The corrected removal on the scenario's final state. */
  lemma RemoveByIdOnStage3()
    ensures RemoveDistributionItemById(Stage3(), Gender, 1).controls == [Control("male"), Control("18-25")]
  {
    IndexOnStage3();
    FemaleSecondOnStage3();
    FirstFemale();
    RemoveByIdDropsFirstMatch(Stage3(), Gender, 1, 2);
    ControlsWithoutThird();
  }

  /** In the scenario's final state the second gender item is "female". */
  lemma FemaleSecondOnStage3()
    ensures 1 < |Stage3().groups[0].items| && Stage3().groups[0].items[1].criteriaId == "female"
  {
  }

  /** The scenario's final controls without the third one. */
  lemma ControlsWithoutThird()
    ensures Stage3().controls[..2] + Stage3().controls[3..] == [Control("male"), Control("18-25")]
  {
    var c := Stage3().controls;
    assert c[..2] + c[3..] == [Control("male"), Control("18-25")];
  }

  /** The corrected removal drops the first control carrying the removed
      item's id, wherever it sits in the form array. */
  lemma RemoveByIdDropsFirstMatch(p: Page, t: CriteriaType, k: nat, i: nat)
    requires FindGroup(p.groups, t).Some? && k < |p.groups[FindGroup(p.groups, t).value].items|
    requires FirstControl(p.controls, p.groups[FindGroup(p.groups, t).value].items[k].criteriaId) == Some(i)
    ensures RemoveDistributionItemById(p, t, k).controls == p.controls[..i] + p.controls[i + 1..]
  {
  }

  /** In the scenario the "female" control is the third. */
  lemma FirstFemale()
    ensures FirstControl(Stage3().controls, "female") == Some(2)
  {
    var c := Stage3().controls;
    assert c[1..][1..] == [Control("female")];
    assert FirstControl(c[1..][1..], "female") == Some(0);
    assert FirstControl(c[1..], "female") == Some(1);
  }

  // ---------------------------------------------------------------------------
  // Editing a percentage
  // ---------------------------------------------------------------------------

  /** The index of the first item carrying the id. */
  function FirstItem(items: seq<DistributionItem>, id: string): (r: Option<nat>)
    ensures r.Some? ==> r.value < |items| && items[r.value].criteriaId == id
    ensures r.Some? ==> forall j :: 0 <= j < r.value ==> items[j].criteriaId != id
    ensures r.None? ==> forall j :: 0 <= j < |items| ==> items[j].criteriaId != id
  {
    if items == [] then None
    else if items[0].criteriaId == id then Some(0)
    else match FirstItem(items[1..], id)
      case None => None
      case Some(j) => Some(j + 1)
  }

  /** The form half of `updateDistributionPercentage`: the first control
      carrying the id gets the percentage. */
  function SetControlPercentage(controls: seq<FormControl>, id: string, pct: int): (r: seq<FormControl>)
    ensures |r| == |controls|
    ensures forall i :: 0 <= i < |controls| ==> r[i].value == controls[i].value
    ensures forall i :: 0 <= i < |controls| ==>
      r[i].percentage == if FirstControl(controls, id) == Some(i) then Some(pct) else controls[i].percentage
  {
    match FirstControl(controls, id)
    case None => controls
    case Some(i) => controls[i := controls[i].(percentage := Some(pct))]
  }

  /** The group half of `updateDistributionPercentage`: in the first group of
      the type the first item carrying the id gets the percentage, and the
      group's total is recomputed; ids, types and selections stay. */
  function SetItemPercentage(groups: seq<CriteriaGroup>, t: CriteriaType, id: string, pct: int): (r: seq<CriteriaGroup>)
    ensures |r| == |groups|
    ensures forall g :: 0 <= g < |groups| ==>
      ItemIds(r[g].items) == ItemIds(groups[g].items) && r[g].selected == groups[g].selected &&
      r[g].criteriaType == groups[g].criteriaType
    ensures FindGroup(groups, t).None? || FirstItem(groups[FindGroup(groups, t).value].items, id).None? ==> r == groups
    ensures FindGroup(groups, t).Some? && FirstItem(groups[FindGroup(groups, t).value].items, id).Some? ==>
      var g := FindGroup(groups, t).value;
      var j := FirstItem(groups[g].items, id).value;
      |r[g].items| == |groups[g].items| &&
      r[g].items[j].percentage == Some(pct) &&
      (forall i :: 0 <= i < |groups[g].items| && i != j ==> r[g].items[i] == groups[g].items[i]) &&
      r[g].totalPercentage == ItemsTotal(r[g].items) &&
      forall h :: 0 <= h < |groups| && h != g ==> r[h] == groups[h]
  {
    match FindGroup(groups, t)
    case None => groups
    case Some(g) =>
      match FirstItem(groups[g].items, id)
      case None => groups
      case Some(j) => SetItemAt(groups, t, g, j, pct)
  }

  /** `SetItemPercentage` once the group `g` and the item `j` are found. */
  function SetItemAt(groups: seq<CriteriaGroup>, t: CriteriaType, g: nat, j: nat, pct: int): (r: seq<CriteriaGroup>)
    requires FindGroup(groups, t) == Some(g) && j < |groups[g].items|
    ensures |r| == |groups|
    ensures forall h :: 0 <= h < |groups| ==>
      ItemIds(r[h].items) == ItemIds(groups[h].items) && r[h].selected == groups[h].selected &&
      r[h].criteriaType == groups[h].criteriaType
    ensures |r[g].items| == |groups[g].items| && r[g].items[j].percentage == Some(pct)
    ensures forall i :: 0 <= i < |groups[g].items| && i != j ==> r[g].items[i] == groups[g].items[i]
    ensures r[g].totalPercentage == ItemsTotal(r[g].items)
    ensures forall h :: 0 <= h < |groups| && h != g ==> r[h] == groups[h]
  {
    var items := groups[g].items[j := groups[g].items[j].(percentage := Some(pct))];
    assert ItemIds(items) == ItemIds(groups[g].items);
    var edited := groups[g := groups[g].(items := items)];
    FindGroupSameTypes(groups, edited, t);
    var r := UpdateCriteriaTotalPercentage(edited, t);
    assert r[g].items == items;
    r
  }

  /** The page's `updateDistributionPercentage`. */
  function UpdateDistributionPercentage(p: Page, t: CriteriaType, id: string, pct: int): (r: Page)
    ensures r.controls == SetControlPercentage(p.controls, id, pct)
    ensures r.groups == SetItemPercentage(p.groups, t, id, pct)
    ensures ValuesOf(r.controls) == ValuesOf(p.controls)
  {
    var controls := SetControlPercentage(p.controls, id, pct);
    assert ValuesOf(controls) == ValuesOf(p.controls);
    Page(SetItemPercentage(p.groups, t, id, pct), controls)
  }

  /** Editing a percentage never changes which types report duplicates. */
  lemma UpdateKeepsDuplicates(p: Page, t: CriteriaType, id: string, pct: int, u: CriteriaType)
    ensures HasDuplicatesInCriteriaType(UpdateDistributionPercentage(p, t, id, pct).groups, u) ==
            HasDuplicatesInCriteriaType(p.groups, u)
  {
    var gs := SetItemPercentage(p.groups, t, id, pct);
    assert UpdateDistributionPercentage(p, t, id, pct).groups == gs;
    FindGroupSameTypes(p.groups, gs, u);
    if FindGroup(p.groups, u).Some? {
      var k := FindGroup(p.groups, u).value;
      assert ItemIds(gs[k].items) == ItemIds(p.groups[k].items);
      assert |gs[k].items| == |p.groups[k].items|;
    }
  }

  /** `FindGroup` only looks at the types. */
  lemma FindGroupSameTypes(a: seq<CriteriaGroup>, b: seq<CriteriaGroup>, u: CriteriaType)
    requires |a| == |b| && forall g :: 0 <= g < |a| ==> a[g].criteriaType == b[g].criteriaType
    ensures FindGroup(a, u) == FindGroup(b, u)
  {
    if FindGroup(a, u).Some? {
      assert FindGroup(b, u).Some?;
    }
  }

  /** `resetForm` for the criteria step: no groups and no controls. */
  function ResetForm(p: Page): (r: Page)
    ensures r == InitialPage
    ensures !AnySelected(r.groups) && PageCriteriaGroupStatus(r.groups) == Valid
  {
    Page([], [])
  }
}
