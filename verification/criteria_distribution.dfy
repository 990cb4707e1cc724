/**
 * The criteria-distribution editor component (`CriteriaDistribution`): its
 * own criteria groups plus the host's form array, whose rows carry their
 * criteria type. Change detection and form-control plumbing are not modelled;
 * every operation maps the (groups, rows) pair to its successor.
 */
module CriteriaDistribution {
  import opened Common
  import opened Criteria

  /** The editor state: the `criteriaGroups` signal and the rows of the
      `criteriaDistributionsArray` input. */
  datatype Editor = Editor(groups: seq<CriteriaGroup>, entries: seq<DistributionEntry>)

  // ---------------------------------------------------------------------------
  // Removing every row of a type
  // ---------------------------------------------------------------------------

  /** The rows whose type is not `t`, in order. */
  function WithoutType(es: seq<DistributionEntry>, t: CriteriaType): (r: seq<DistributionEntry>)
    ensures |r| <= |es|
  {
    if es == [] then []
    else (if es[0].criteriaType != t then [es[0]] else []) + WithoutType(es[1..], t)
  }

  /** Dropping the rows of `t` empties that type and leaves every other type's
      rows exactly as they were, order included. */
  lemma {:induction false} WithoutTypeByType(es: seq<DistributionEntry>, t: CriteriaType, u: CriteriaType)
    ensures EntriesOfType(WithoutType(es, t), t) == []
    ensures u != t ==> EntriesOfType(WithoutType(es, t), u) == EntriesOfType(es, u)
  {
    if es != [] {
      WithoutTypeByType(es[1..], t, u);
      var head := if es[0].criteriaType != t then [es[0]] else [];
      EntriesOfTypeAppend(head, WithoutType(es[1..], t), t);
      EntriesOfTypeAppend(head, WithoutType(es[1..], t), u);
    }
  }

  /** `WithoutType` of a concatenation. */
  lemma {:induction false} WithoutTypeAppend(a: seq<DistributionEntry>, b: seq<DistributionEntry>, t: CriteriaType)
    ensures WithoutType(a + b, t) == WithoutType(a, t) + WithoutType(b, t)
  {
    if a == [] {
      assert a + b == b;
    } else {
      assert (a + b)[1..] == a[1..] + b;
      WithoutTypeAppend(a[1..], b, t);
    }
  }

  /** `clearCriteriaFromFormArray`: walks the rows from the last to the first
      and removes every row of type `t`. */
  method ClearCriteriaFromFormArray(es: seq<DistributionEntry>, t: CriteriaType) returns (r: seq<DistributionEntry>)
    ensures r == WithoutType(es, t)
  {
    r := es;
    var i := |es|;
    assert es[i..] == [];
    while i > 0
      invariant 0 <= i <= |es|
      invariant r == es[..i] + WithoutType(es[i..], t)
    {
      i := i - 1;
      WithoutTypeSuffix(es, t, i);
      SpliceAt(es[..i], es[i], WithoutType(es[i + 1..], t));
      assert es[..i + 1] == es[..i] + [es[i]];
      if r[i].criteriaType == t {
        r := r[..i] + r[i + 1..];
      }
    }
    assert es[..0] == [] && es[0..] == es;
  }

  /** Filtering a suffix that starts at position `i`. */
  lemma WithoutTypeSuffix(es: seq<DistributionEntry>, t: CriteriaType, i: nat)
    requires i < |es|
    ensures WithoutType(es[i..], t) == (if es[i].criteriaType != t then [es[i]] else []) + WithoutType(es[i + 1..], t)
  {
    assert es[i..][0] == es[i];
    assert es[i..][1..] == es[i + 1..];
  }

  /** Splitting `a + [x] + b` around the position of `x`. */
  lemma SpliceAt<T>(a: seq<T>, x: T, b: seq<T>)
    ensures var r := (a + [x]) + b;
      r[|a|] == x && r[..|a|] + r[|a| + 1..] == a + b && r == a + ([x] + b)
  {
    var r := (a + [x]) + b;
    assert r[..|a|] == a;
    assert r[|a| + 1..] == b;
  }

  // ---------------------------------------------------------------------------
  // Toggling a criterion
  // ---------------------------------------------------------------------------

  /** `toggleCriterion`: the group half is `ToggleGroups`; a group that ends up
      deselected also loses all rows of its type. */
  function ToggleCriterion(e: Editor, t: CriteriaType): (r: Editor)
    ensures r.groups == ToggleGroups(e.groups, t)
    ensures forall u :: u != t ==> EntriesOfType(r.entries, u) == EntriesOfType(e.entries, u)
    ensures UniqueTypes(e.groups) ==>
      (IsCriterionSelected(r.groups, t) ==> r.entries == e.entries) &&
      (!IsCriterionSelected(r.groups, t) ==> EntriesOfType(r.entries, t) == [])
  {
    var groups := ToggleGroups(e.groups, t);
    var k := FindGroup(e.groups, t);
    var entries := if k.Some? && !groups[k.value].selected then WithoutType(e.entries, t) else e.entries;
    forall u ensures EntriesOfType(WithoutType(e.entries, t), t) == [] && (u != t ==> EntriesOfType(WithoutType(e.entries, t), u) == EntriesOfType(e.entries, u)) {
      WithoutTypeByType(e.entries, t, u);
    }
    ToggleSelectionByGroup(e.groups, t);
    Editor(groups, entries)
  }

  /** With one group per type, `t` ends up selected exactly when it had no
      group or its group was not selected. */
  lemma ToggleSelectionByGroup(groups: seq<CriteriaGroup>, t: CriteriaType)
    ensures UniqueTypes(groups) ==>
      (IsCriterionSelected(ToggleGroups(groups, t), t) <==>
        FindGroup(groups, t).None? || !groups[FindGroup(groups, t).value].selected)
  {
    if UniqueTypes(groups) {
      ToggleFlipsSelection(groups, t);
      if IsCriterionSelected(groups, t) {
        var i :| 0 <= i < |groups| && groups[i].criteriaType == t && groups[i].selected;
        assert FindGroup(groups, t).Some? && FindGroup(groups, t).value == i;
      }
    }
  }

  // ---------------------------------------------------------------------------
  // Adding, removing and editing rows
  // ---------------------------------------------------------------------------

  /** `addDistributionItem`: a non-empty id already present on any row (of any
      type) is ignored; otherwise a row with no percentage is appended. An
      empty id is falsy and skips the check. */
  function AddDistributionItem(es: seq<DistributionEntry>, t: CriteriaType, id: string): (r: seq<DistributionEntry>)
    ensures r == es || r == es + [DistributionEntry(t, id, None)]
    ensures r == es <==> id != "" && exists i :: 0 <= i < |es| && es[i].criteriaId == id
  {
    if id != "" && id in IdsOf(es) then es else es + [DistributionEntry(t, id, None)]
  }

  /** Adding keeps non-empty ids unique across all rows. */
  lemma AddPreservesUniqueIds(es: seq<DistributionEntry>, t: CriteriaType, id: string)
    requires UniqueIds(es)
    ensures UniqueIds(AddDistributionItem(es, t, id))
  {
    var r := AddDistributionItem(es, t, id);
    if r != es {
      IdsOfAppend(es, [DistributionEntry(t, id, None)]);
      assert IdsOf(r) == IdsOf(es) + [id];
      assert id != "" ==> id !in IdsOf(es);
    }
  }

  /** Adding the same non-empty id twice, under any types, adds it once. */
  lemma AddIdempotent(es: seq<DistributionEntry>, t: CriteriaType, u: CriteriaType, id: string)
    requires id != ""
    ensures AddDistributionItem(AddDistributionItem(es, t, id), u, id) == AddDistributionItem(es, t, id)
  {
    var r := AddDistributionItem(es, t, id);
    if r != es {
      assert r[|es|].criteriaId == id;
    }
  }

  /** A sequence of `addDistributionItem` calls, applied left to right. */
  function AddAll(es: seq<DistributionEntry>, adds: seq<(CriteriaType, string)>): seq<DistributionEntry>
    decreases |adds|
  {
    if adds == [] then es else AddAll(AddDistributionItem(es, adds[0].0, adds[0].1), adds[1..])
  }

  /** Every sequence of adds keeps the uniqueness invariant. */
  lemma {:induction false} AddAllKeepsUniqueIds(es: seq<DistributionEntry>, adds: seq<(CriteriaType, string)>)
    requires UniqueIds(es)
    ensures UniqueIds(AddAll(es, adds))
    decreases |adds|
  {
    if adds != [] {
      AddPreservesUniqueIds(es, adds[0].0, adds[0].1);
      AddAllKeepsUniqueIds(AddDistributionItem(es, adds[0].0, adds[0].1), adds[1..]);
    }
  }

  /** Rows built only through `addDistributionItem` never show a duplicate in
      any type: duplicates can only come from editing an id afterwards. */
  lemma AddsNeverDuplicate(adds: seq<(CriteriaType, string)>, t: CriteriaType)
    ensures !HasDuplicatesInType(AddAll([], adds), t)
  {
    AddAllKeepsUniqueIds([], adds);
    UniqueIdsNoDuplicates(AddAll([], adds), t);
  }

  /** Adding "male" twice to Gender leaves one row. */
  lemma AddMaleTwice()
    ensures AddAll([], [(Gender, "male"), (Gender, "male")]) == [DistributionEntry(Gender, "male", None)]
  {
    var once := AddDistributionItem([], Gender, "male");
    assert once == [DistributionEntry(Gender, "male", None)];
    assert IdsOf(once) == ["male"];
  }

  /** The rows with the `k`-th row of type `t` taken out (`indexOf` of that
      control, then `removeAt`). */
  function RemoveKth(es: seq<DistributionEntry>, t: CriteriaType, k: nat): (r: seq<DistributionEntry>)
    requires k < |EntriesOfType(es, t)|
    ensures |r| + 1 == |es|
  {
    if es[0].criteriaType == t && k == 0 then es[1..]
    else [es[0]] + RemoveKth(es[1..], t, if es[0].criteriaType == t then k - 1 else k)
  }

  /** The rows of type `t` lose exactly their `k`-th element. */
  lemma {:induction false} RemoveKthOwnType(es: seq<DistributionEntry>, t: CriteriaType, k: nat)
    requires k < |EntriesOfType(es, t)|
    ensures EntriesOfType(RemoveKth(es, t, k), t) == EntriesOfType(es, t)[..k] + EntriesOfType(es, t)[k + 1..]
  {
    EntriesOfTypeCons(es[0], es[1..], t);
    assert es == [es[0]] + es[1..];
    if es[0].criteriaType == t && k == 0 {
    } else if es[0].criteriaType == t {
      RemoveKthOwnType(es[1..], t, k - 1);
      OwnTypeStepMatch(es, t, k);
    } else {
      RemoveKthOwnType(es[1..], t, k);
      OwnTypeStepOther(es, t, k);
    }
  }

  /** Step of `RemoveKthOwnType` when the first row has type `t`. */
  lemma OwnTypeStepMatch(es: seq<DistributionEntry>, t: CriteriaType, k: nat)
    requires |es| > 0 && es[0].criteriaType == t && 0 < k
    requires EntriesOfType(es, t) == [es[0]] + EntriesOfType(es[1..], t)
    requires k - 1 < |EntriesOfType(es[1..], t)|
    requires EntriesOfType(RemoveKth(es[1..], t, k - 1), t) == EntriesOfType(es[1..], t)[..k - 1] + EntriesOfType(es[1..], t)[k..]
    ensures k < |EntriesOfType(es, t)|
    ensures EntriesOfType(RemoveKth(es, t, k), t) == EntriesOfType(es, t)[..k] + EntriesOfType(es, t)[k + 1..]
  {
    var r' := RemoveKth(es[1..], t, k - 1);
    assert RemoveKth(es, t, k) == [es[0]] + r';
    EntriesOfTypeCons(es[0], r', t);
    ConsSplice(es[0], EntriesOfType(es[1..], t), k - 1);
  }

  /** Step of `RemoveKthOwnType` when the first row has another type. */
  lemma OwnTypeStepOther(es: seq<DistributionEntry>, t: CriteriaType, k: nat)
    requires |es| > 0 && es[0].criteriaType != t
    requires EntriesOfType(es, t) == EntriesOfType(es[1..], t)
    requires k < |EntriesOfType(es[1..], t)|
    requires EntriesOfType(RemoveKth(es[1..], t, k), t) == EntriesOfType(es[1..], t)[..k] + EntriesOfType(es[1..], t)[k + 1..]
    ensures k < |EntriesOfType(es, t)|
    ensures EntriesOfType(RemoveKth(es, t, k), t) == EntriesOfType(es, t)[..k] + EntriesOfType(es, t)[k + 1..]
  {
    var r' := RemoveKth(es[1..], t, k);
    assert RemoveKth(es, t, k) == [es[0]] + r';
    EntriesOfTypeCons(es[0], r', t);
  }

  /** Taking out a row of type `t` leaves every other type's rows alone. */
  lemma {:induction false} RemoveKthOtherTypes(es: seq<DistributionEntry>, t: CriteriaType, k: nat, u: CriteriaType)
    requires k < |EntriesOfType(es, t)| && u != t
    ensures EntriesOfType(RemoveKth(es, t, k), u) == EntriesOfType(es, u)
  {
    var head, rest := es[0], es[1..];
    assert es == [head] + rest;
    EntriesOfTypeCons(head, rest, t);
    EntriesOfTypeCons(head, rest, u);
    if !(head.criteriaType == t && k == 0) {
      var k' := if head.criteriaType == t then k - 1 else k;
      RemoveKthOtherTypes(rest, t, k', u);
      EntriesOfTypeCons(head, RemoveKth(rest, t, k'), u);
    }
  }

  /** The removed row sits at a single position: the result is `es` without
      that position, which holds a row of type `t`. */
  lemma {:induction false} RemoveKthAtPosition(es: seq<DistributionEntry>, t: CriteriaType, k: nat)
    requires k < |EntriesOfType(es, t)|
    ensures exists p :: 0 <= p < |es| && es[p].criteriaType == t && RemoveKth(es, t, k) == es[..p] + es[p + 1..]
  {
    var head, rest := es[0], es[1..];
    assert es == [head] + rest;
    EntriesOfTypeCons(head, rest, t);
    if head.criteriaType == t && k == 0 {
      assert es[..0] + es[1..] == rest;
    } else {
      var k' := if head.criteriaType == t then k - 1 else k;
      RemoveKthAtPosition(rest, t, k');
      var p :| 0 <= p < |rest| && rest[p].criteriaType == t && RemoveKth(rest, t, k') == rest[..p] + rest[p + 1..];
      assert RemoveKth(es, t, k) == [head] + RemoveKth(rest, t, k');
      ConsSplice(head, rest, p);
      assert es[p + 1] == rest[p];
    }
  }

  /** `removeDistributionItem`: removes the `k`-th row of type `t` from the
      form array; an out-of-range index is ignored. */
  function RemoveDistributionItem(es: seq<DistributionEntry>, t: CriteriaType, k: int): (r: seq<DistributionEntry>)
    ensures !(0 <= k < |EntriesOfType(es, t)|) ==> r == es
    ensures 0 <= k < |EntriesOfType(es, t)| ==>
      EntriesOfType(r, t) == EntriesOfType(es, t)[..k] + EntriesOfType(es, t)[k + 1..] &&
      exists p :: 0 <= p < |es| && es[p].criteriaType == t && r == es[..p] + es[p + 1..]
  {
    if k < 0 || k >= |EntriesOfType(es, t)| then es
    else
      RemoveKthOwnType(es, t, k);
      RemoveKthAtPosition(es, t, k);
      RemoveKth(es, t, k)
  }

  /** Removing a row of one type never touches the rows of another. */
  lemma RemoveKeepsOtherTypes(es: seq<DistributionEntry>, t: CriteriaType, k: int, u: CriteriaType)
    requires u != t
    ensures EntriesOfType(RemoveDistributionItem(es, t, k), u) == EntriesOfType(es, u)
  {
    if 0 <= k < |EntriesOfType(es, t)| {
      RemoveKthOtherTypes(es, t, k, u);
    }
  }

  /** The first row whose id is `id` (`controls.find`). */
  function FirstWithId(es: seq<DistributionEntry>, id: string): (r: Option<nat>)
    ensures r.Some? ==> r.value < |es| && es[r.value].criteriaId == id
    ensures r.Some? ==> forall j :: 0 <= j < r.value ==> es[j].criteriaId != id
    ensures r.None? ==> forall j :: 0 <= j < |es| ==> es[j].criteriaId != id
  {
    if es == [] then None
    else if es[0].criteriaId == id then Some(0)
    else
      match FirstWithId(es[1..], id)
      case None => None
      case Some(k) => Some(k + 1)
  }

  /** `updateDistributionPercentage`: the first row with the id takes the
      percentage; without such a row nothing changes. The type argument is
      ignored. */
  function UpdateDistributionPercentage(es: seq<DistributionEntry>, id: string, p: int): (r: seq<DistributionEntry>)
    ensures |r| == |es|
    ensures IdsOf(r) == IdsOf(es)
    ensures forall i :: 0 <= i < |es| ==> r[i].criteriaType == es[i].criteriaType
    ensures FirstWithId(es, id).None? ==> r == es
    ensures FirstWithId(es, id).Some? ==>
      r[FirstWithId(es, id).value].percentage == Some(p) &&
      forall i :: 0 <= i < |es| && i != FirstWithId(es, id).value ==> r[i] == es[i]
  {
    match FirstWithId(es, id)
    case None => es
    case Some(i) => es[i := es[i].(percentage := Some(p))]
  }

  /** Editing a percentage changes neither which rows belong to a type nor
      whether that type has duplicate ids. */
  lemma {:induction false} UpdateKeepsDuplicates(es: seq<DistributionEntry>, id: string, p: int, t: CriteriaType)
    ensures IdsOf(EntriesOfType(UpdateDistributionPercentage(es, id, p), t)) == IdsOf(EntriesOfType(es, t))
    ensures HasDuplicatesInType(UpdateDistributionPercentage(es, id, p), t) == HasDuplicatesInType(es, t)
  {
    SameIdsAndTypes(es, UpdateDistributionPercentage(es, id, p), t);
  }

  /** Two row lists that agree on every id and type agree on each type's ids. */
  lemma {:induction false} SameIdsAndTypes(a: seq<DistributionEntry>, b: seq<DistributionEntry>, t: CriteriaType)
    requires |a| == |b|
    requires forall i :: 0 <= i < |a| ==> a[i].criteriaId == b[i].criteriaId && a[i].criteriaType == b[i].criteriaType
    ensures IdsOf(EntriesOfType(a, t)) == IdsOf(EntriesOfType(b, t))
  {
    if a != [] {
      SameIdsAndTypes(a[1..], b[1..], t);
      var ha := if a[0].criteriaType == t then [a[0]] else [];
      var hb := if b[0].criteriaType == t then [b[0]] else [];
      IdsOfAppend(ha, EntriesOfType(a[1..], t));
      IdsOfAppend(hb, EntriesOfType(b[1..], t));
    }
  }

  // ---------------------------------------------------------------------------
  // Status and validation
  // ---------------------------------------------------------------------------

  /** The per-type check of `criteriaGroupStatus`: at least one row, every row
      complete, and no duplicate id. */
  predicate TypeOk(es: seq<DistributionEntry>, t: CriteriaType) {
    var items := EntriesOfType(es, t);
    |items| > 0 && (forall i :: 0 <= i < |items| ==> EntryComplete(items[i])) && !HasDuplicatesInType(es, t)
  }

  /** The loop of `criteriaGroupStatus` over the selected types from
      position `i` on, stopping at the first failing type. */
  function StatusFrom(types: seq<CriteriaType>, es: seq<DistributionEntry>, i: nat): (r: Status)
    requires i <= |types|
    ensures r == Valid <==> forall j :: i <= j < |types| ==> TypeOk(es, types[j])
    decreases |types| - i
  {
    if i == |types| then Valid
    else if !TypeOk(es, types[i]) then Invalid
    else StatusFrom(types, es, i + 1)
  }

  /** `criteriaGroupStatus`: valid when nothing is selected, else valid exactly
      when every selected type passes. */
  function CriteriaGroupStatus(e: Editor): (r: Status)
    ensures r == Valid <==> forall t :: IsCriterionSelected(e.groups, t) ==> TypeOk(e.entries, t)
  {
    var sel := SelectedTypes(e.groups);
    var r := if |sel| == 0 then Valid else StatusFrom(sel, e.entries, 0);
    SelectedTypesAreSelected(e.groups);
    r
  }

  /** The selected types are exactly the types `isCriterionSelected` reports. */
  lemma SelectedTypesAreSelected(groups: seq<CriteriaGroup>)
    ensures forall t :: t in SelectedTypes(groups) <==> IsCriterionSelected(groups, t)
  {
    forall t ensures t in SelectedTypes(groups) <==> IsCriterionSelected(groups, t) {
      if t in SelectedTypes(groups) {
        var g :| g in groups && g.selected && g.criteriaType == t;
        var i :| 0 <= i < |groups| && groups[i] == g;
      }
      if IsCriterionSelected(groups, t) {
        var i :| 0 <= i < |groups| && groups[i].criteriaType == t && groups[i].selected;
        assert groups[i] in groups;
      }
    }
  }

  /** The per-type check of `criteriaValidation`: rows exist and all are complete. */
  predicate TypeComplete(es: seq<DistributionEntry>, t: CriteriaType) {
    var items := EntriesOfType(es, t);
    |items| > 0 && forall i :: 0 <= i < |items| ==> EntryComplete(items[i])
  }

  /** `criteriaValidation`: over the distinct types present on the rows, each
      must have rows and every row must be complete. Duplicates are not
      checked here. */
  function CriteriaValidation(es: seq<DistributionEntry>): (r: bool)
    ensures r <==> |es| > 0 && forall i :: 0 <= i < |es| ==> EntryComplete(es[i])
  {
    var types := set e | e in es :: e.criteriaType;
    var r := types != {} && forall t | t in types :: TypeComplete(es, t);
    ValidationIff(es, types);
    r
  }

  /** Checking per present type is checking every row. */
  lemma ValidationIff(es: seq<DistributionEntry>, types: set<CriteriaType>)
    requires types == set e | e in es :: e.criteriaType
    ensures (types != {} && forall t | t in types :: TypeComplete(es, t)) <==> |es| > 0 && forall i :: 0 <= i < |es| ==> EntryComplete(es[i])
  {
    if |es| > 0 {
      assert es[0].criteriaType in types;
    }
    if forall i :: 0 <= i < |es| ==> EntryComplete(es[i]) {
      forall t | t in types ensures TypeComplete(es, t) {
        EntriesOfTypeMembers(es, t);
        forall i | 0 <= i < |EntriesOfType(es, t)| ensures EntryComplete(EntriesOfType(es, t)[i]) {
          assert EntriesOfType(es, t)[i] in EntriesOfType(es, t);
        }
        var e :| e in es && e.criteriaType == t;
        assert e in EntriesOfType(es, t);
      }
    }
    if types != {} && forall t | t in types :: TypeComplete(es, t) {
      forall i | 0 <= i < |es| ensures EntryComplete(es[i]) {
        var t := es[i].criteriaType;
        assert t in types;
        EntriesOfTypeMembers(es, t);
        assert es[i] in EntriesOfType(es, t);
        var j :| 0 <= j < |EntriesOfType(es, t)| && EntriesOfType(es, t)[j] == es[i];
      }
    }
  }

  /** Two complete "male" rows for a selected Gender group pass
      `criteriaValidation` but fail `criteriaGroupStatus`: only the status
      looks for duplicate ids. */
  lemma ValidationIgnoresDuplicates()
    ensures var es := [DistributionEntry(Gender, "male", Some(50)), DistributionEntry(Gender, "male", Some(50))];
      CriteriaValidation(es) &&
      CriteriaGroupStatus(Editor([CriteriaGroup(Gender, "Gender", true, [], 0.0)], es)) == Invalid
  {
    var es := [DistributionEntry(Gender, "male", Some(50)), DistributionEntry(Gender, "male", Some(50))];
    assert !IsBlank("male") by {
      assert !IsWhitespace("male"[0]);
    }
    assert EntriesOfType(es, Gender) == es;
    assert IdsOf(es) == ["male", "male"];
    assert NonBlank(["male", "male"]) == ["male", "male"];
    assert Elements(["male", "male"]) == {"male"};
    assert HasDuplicatesInType(es, Gender);
    var g := [CriteriaGroup(Gender, "Gender", true, [], 0.0)];
    assert g[0].criteriaType == Gender && g[0].selected;
    assert IsCriterionSelected(g, Gender);
  }
}
