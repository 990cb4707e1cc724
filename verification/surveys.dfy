/**
 * Survey selection and pagination, shared by `SurveyService`, the product
 * step and the new-scenario page: a list of surveys with a `selected` flag,
 * a pagination record, the page window cut out with `slice`, and the
 * select/deselect operations on single surveys and on the current page.
 */
module Surveys {
  import opened Common

  /** `Survey`. The dates are display strings carried along unchanged. */
  datatype Survey = Survey(id: string, name: string, creationDate: string, startDate: string, endDate: string, selected: bool)

  /** `SurveyPagination`. */
  datatype Pagination = Pagination(currentPage: int, totalPages: int, totalSurveys: int, surveysPerPage: int)

  /** `defaultSurveysPerPage`. */
  const DefaultSurveysPerPage := 10

  function Min(a: int, b: int): int {
    if a <= b then a else b
  }

  /** `Math.ceil(a / b)` for a count and a positive page size: the least
      number of pages of `b` surveys that hold `a` surveys. */
  function CeilDiv(a: nat, b: nat): (r: nat)
    requires b > 0
    ensures a <= r * b
    ensures (r - 1) * b < a
  {
    var r := (a + b - 1) / b;
    assert (a + b - 1) % b < b;
    assert r * b + (a + b - 1) % b == a + b - 1;
    r
  }

  /** `a * n` grows with `a` for a non-negative `n`. */
  lemma MulMono(a: int, b: int, n: nat)
    requires a <= b
    ensures a * n <= b * n
  {
    assert b * n - a * n == (b - a) * n;
  }

  /** The service's initial pagination: first page, ten per page, and just
      enough pages for every survey. */
  function InitialPagination(total: nat): (p: Pagination)
    ensures p.currentPage == 1 && p.totalSurveys == total && p.surveysPerPage == DefaultSurveysPerPage
    ensures total <= p.totalPages * p.surveysPerPage
    ensures (p.totalPages - 1) * p.surveysPerPage < total
  {
    Pagination(1, CeilDiv(total, DefaultSurveysPerPage), total, DefaultSurveysPerPage)
  }

  /** The product step and the page start from a fixed record; for the 25
      surveys of the static table it equals the service's computed one. */
  lemma ProductStepPagination()
    ensures InitialPagination(25) == Pagination(1, 3, 25, 10)
  {
    assert CeilDiv(25, 10) == 3;
  }

  /** A pagination record that describes `total` surveys correctly. */
  predicate Consistent(p: Pagination, total: nat) {
    p.surveysPerPage > 0 && p.totalSurveys == total && p.totalPages == CeilDiv(total, p.surveysPerPage)
  }

  /** The current page is one of the listed pages. */
  predicate OnValidPage(p: Pagination) {
    1 <= p.currentPage <= p.totalPages
  }

  // ---------------------------------------------------------------------------
  // The page window
  // ---------------------------------------------------------------------------

  /** `startIndex` of `currentPageSurveys`. */
  function SliceStart(p: Pagination): int {
    (p.currentPage - 1) * p.surveysPerPage
  }

  /** The index range `[PageLo, PageHi)` that `slice` cuts out. */
  function PageLo(ss: seq<Survey>, p: Pagination): nat {
    SliceBound(SliceStart(p), |ss|)
  }

  function PageHi(ss: seq<Survey>, p: Pagination): (hi: nat)
    ensures PageLo(ss, p) <= hi <= |ss|
  {
    var e := SliceBound(SliceStart(p) + p.surveysPerPage, |ss|);
    if e <= PageLo(ss, p) then PageLo(ss, p) else e
  }

  /** `currentPageSurveys`: a contiguous window of the list holding at most
      one page of surveys. */
  function CurrentPageSurveys(ss: seq<Survey>, p: Pagination): (r: seq<Survey>)
    ensures r == ss[PageLo(ss, p)..PageHi(ss, p)]
    ensures p.surveysPerPage >= 0 ==> |r| <= p.surveysPerPage
  {
    JsSlice(ss, SliceStart(p), SliceStart(p) + p.surveysPerPage)
  }

  /** `currentPageStartIndex`: the 1-based number of the page's first survey. */
  function CurrentPageStartIndex(p: Pagination): int {
    (p.currentPage - 1) * p.surveysPerPage + 1
  }

  /** `currentPageEndIndex`: the 1-based number of the page's last survey. */
  function CurrentPageEndIndex(p: Pagination): int {
    Min(p.currentPage * p.surveysPerPage, p.totalSurveys)
  }

  /** On a valid page of a consistent record the "showing start to end of
      total" numbers lie in `[1, total]` and number exactly the surveys of
      the page window. */
  lemma PageWindowBounds(ss: seq<Survey>, p: Pagination)
    requires Consistent(p, |ss|) && OnValidPage(p)
    ensures 1 <= CurrentPageStartIndex(p) <= CurrentPageEndIndex(p) <= p.totalSurveys
    ensures CurrentPageSurveys(ss, p) == ss[CurrentPageStartIndex(p) - 1..CurrentPageEndIndex(p)]
  {
    var n := p.surveysPerPage;
    MulMono(p.currentPage - 1, p.totalPages - 1, n);
    assert (p.currentPage - 1) * n < |ss|;
    assert p.currentPage * n == (p.currentPage - 1) * n + n;
  }

  /** `paginationPages`: the page numbers `1..totalPages`, each of which
      `goToPage` accepts. */
  method PaginationPages(p: Pagination) returns (pages: seq<int>)
    ensures |pages| == if p.totalPages > 0 then p.totalPages else 0
    ensures forall i :: 0 <= i < |pages| ==> pages[i] == i + 1
    ensures forall i :: 0 <= i < |pages| ==> GoToPage(p, pages[i]) == p.(currentPage := pages[i])
  {
    pages := [];
    var i := 1;
    while i <= p.totalPages
      invariant 1 <= i <= (if p.totalPages > 0 then p.totalPages else 0) + 1
      invariant |pages| == i - 1
      invariant forall k :: 0 <= k < |pages| ==> pages[k] == k + 1
    {
      pages := pages + [i];
      i := i + 1;
    }
  }

  // ---------------------------------------------------------------------------
  // Page navigation
  // ---------------------------------------------------------------------------

  /** `goToPage`: only a listed page number is accepted; nothing but the
      current page changes. */
  function GoToPage(p: Pagination, page: int): (r: Pagination)
    ensures 1 <= page <= p.totalPages ==> r == p.(currentPage := page)
    ensures !(1 <= page <= p.totalPages) ==> r == p
  {
    if 1 <= page && page <= p.totalPages then p.(currentPage := page) else p
  }

  /** `goToPage` on the product step's record ignores 0, a negative page and
      the page past the last, and accepts a listed page. */
  lemma ProductStepGoToPage()
    ensures var p := Pagination(1, 3, 25, 10);
      GoToPage(p, 0) == p && GoToPage(p, -1) == p && GoToPage(p, 4) == p &&
      GoToPage(p, 2).currentPage == 2 && GoToPage(p, 3).currentPage == 3
  {
  }

  /** `nextPage`: one page on unless already on (or past) the last. */
  function NextPage(p: Pagination): (r: Pagination)
    ensures r.totalPages == p.totalPages && r.surveysPerPage == p.surveysPerPage && r.totalSurveys == p.totalSurveys
    ensures 0 <= p.currentPage < p.totalPages ==> r.currentPage == p.currentPage + 1
    ensures p.currentPage >= p.totalPages ==> r == p
  {
    if p.currentPage < p.totalPages then GoToPage(p, p.currentPage + 1) else p
  }

  /** `previousPage`: one page back unless on the first. */
  function PreviousPage(p: Pagination): (r: Pagination)
    ensures r.totalPages == p.totalPages && r.surveysPerPage == p.surveysPerPage && r.totalSurveys == p.totalSurveys
    ensures 1 < p.currentPage <= p.totalPages + 1 ==> r.currentPage == p.currentPage - 1
    ensures p.currentPage <= 1 ==> r == p
  {
    if p.currentPage > 1 then GoToPage(p, p.currentPage - 1) else p
  }

  /** A pagination action of the user. */
  datatype PageAction = Next | Previous | GoTo(page: int)

  /** The pagination after a sequence of actions, left to right. */
  function Navigate(p: Pagination, actions: seq<PageAction>): Pagination
    decreases |actions|
  {
    if actions == [] then p
    else
      var p1 := match actions[0]
        case Next => NextPage(p)
        case Previous => PreviousPage(p)
        case GoTo(k) => GoToPage(p, k);
      Navigate(p1, actions[1..])
  }

  /** Navigation never leaves the listed pages and never changes anything
      but the current page. */
  lemma {:induction false} NavigationStaysOnValidPage(p: Pagination, actions: seq<PageAction>)
    requires OnValidPage(p)
    ensures OnValidPage(Navigate(p, actions))
    ensures Navigate(p, actions) == p.(currentPage := Navigate(p, actions).currentPage)
    decreases |actions|
  {
    if actions != [] {
      var p1 := match actions[0]
        case Next => NextPage(p)
        case Previous => PreviousPage(p)
        case GoTo(k) => GoToPage(p, k);
      NavigationStaysOnValidPage(p1, actions[1..]);
    }
  }

  /** `updateSurveysPerPage(n)`: recomputes the page count for the new page
      size and pulls the current page back to the last page when it lies past
      it. `totalSurveys` is kept as it was. */
  function UpdateSurveysPerPage(ss: seq<Survey>, p: Pagination, n: int): (r: Pagination)
    requires n > 0
    ensures r.surveysPerPage == n && r.totalSurveys == p.totalSurveys
    ensures |ss| <= r.totalPages * n && (r.totalPages - 1) * n < |ss|
    ensures r.currentPage <= p.currentPage && r.currentPage <= r.totalPages
    ensures r.currentPage == p.currentPage || r.currentPage == r.totalPages
    ensures p.totalSurveys == |ss| ==> Consistent(r, |ss|)
    ensures p.currentPage >= 1 && |ss| > 0 ==> OnValidPage(r)
  {
    var totalPages := CeilDiv(|ss|, n);
    Pagination(Min(p.currentPage, totalPages), totalPages, p.totalSurveys, n)
  }

  // ---------------------------------------------------------------------------
  // Selection
  // ---------------------------------------------------------------------------

  /** No two surveys share an id (the static table's ids are distinct). */
  predicate UniqueSurveyIds(ss: seq<Survey>) {
    forall i, j :: 0 <= i < j < |ss| ==> ss[i].id != ss[j].id
  }

  /** `toggleSurveySelection` / `toggleSurvey`: every survey with the id flips
      its flag; everything else is kept. */
  function ToggleSurveySelection(ss: seq<Survey>, id: string): (r: seq<Survey>)
    ensures |r| == |ss|
    ensures forall i :: 0 <= i < |ss| ==> r[i] == ss[i].(selected := r[i].selected)
    ensures forall i :: 0 <= i < |ss| ==> (r[i].selected != ss[i].selected <==> ss[i].id == id)
  {
    seq(|ss|, i requires 0 <= i < |ss| =>
      if ss[i].id == id then ss[i].(selected := !ss[i].selected) else ss[i])
  }

  /** Toggling the same survey twice restores the list. */
  lemma ToggleSurveyTwice(ss: seq<Survey>, id: string)
    ensures ToggleSurveySelection(ToggleSurveySelection(ss, id), id) == ss
  {
  }

  /** `selectedSurveyIds` / `getSelectedSurveyIds`: the ids of the selected
      surveys, in list order. */
  function GetSelectedSurveyIds(ss: seq<Survey>): (r: seq<string>)
    ensures |r| <= |ss|
    ensures |r| == SelectedCount(ss)
    ensures forall x :: x in r <==> exists i :: 0 <= i < |ss| && ss[i].selected && ss[i].id == x
  {
    if ss == [] then []
    else
      var rest := GetSelectedSurveyIds(ss[1..]);
      assert forall i :: 1 <= i < |ss| ==> ss[i] == ss[1..][i - 1];
      if ss[0].selected then [ss[0].id] + rest else rest
  }

  /** The ids come in list order: a survey added at the end contributes its
      id at the end, exactly when it is selected. */
  lemma {:induction false} GetSelectedSurveyIdsSnoc(ss: seq<Survey>, s: Survey)
    ensures GetSelectedSurveyIds(ss + [s]) == GetSelectedSurveyIds(ss) + (if s.selected then [s.id] else [])
  {
    if ss == [] {
      assert [] + [s] == [s];
      assert [s][1..] == [];
    } else {
      assert (ss + [s])[0] == ss[0] && (ss + [s])[1..] == ss[1..] + [s];
      GetSelectedSurveyIdsSnoc(ss[1..], s);
    }
  }

  /** Number of selected surveys (`filter(s => s.selected).length`). */
  function SelectedCount(ss: seq<Survey>): nat {
    if ss == [] then 0 else (if ss[0].selected then 1 else 0) + SelectedCount(ss[1..])
  }

  /** The count is at most the length, reaches it exactly when every survey
      is selected, and is the number of selected ids. */
  lemma {:induction false} SelectedCountFacts(ss: seq<Survey>)
    ensures SelectedCount(ss) <= |ss|
    ensures SelectedCount(ss) == |ss| <==> forall i :: 0 <= i < |ss| ==> ss[i].selected
    ensures SelectedCount(ss) == 0 <==> forall i :: 0 <= i < |ss| ==> !ss[i].selected
    ensures SelectedCount(ss) == |GetSelectedSurveyIds(ss)|
  {
    if ss != [] {
      SelectedCountFacts(ss[1..]);
      assert forall i :: 1 <= i < |ss| ==> ss[i] == ss[1..][i - 1];
    }
  }

  /** `areAllSurveysOnPageSelected` on a page's surveys. */
  predicate AreAllSelected(page: seq<Survey>) {
    |page| > 0 && forall i :: 0 <= i < |page| ==> page[i].selected
  }

  /** `areSomeSurveysOnPageSelected` on a page's surveys. */
  predicate AreSomeSelected(page: seq<Survey>) {
    0 < SelectedCount(page) < |page|
  }

  /** "Some" means: at least one selected and at least one not; so "all" and
      "some" never hold together. */
  lemma AllSomeExclusive(page: seq<Survey>)
    ensures AreSomeSelected(page) <==>
      ((exists i :: 0 <= i < |page| && page[i].selected) &&
       (exists i :: 0 <= i < |page| && !page[i].selected))
    ensures !(AreAllSelected(page) && AreSomeSelected(page))
  {
    SelectedCountFacts(page);
  }

  /** The id of some survey on the page equals `id` (`some(p => p.id === id)`). */
  predicate OnPage(page: seq<Survey>, id: string) {
    exists k :: 0 <= k < |page| && page[k].id == id
  }

  /** Sets the flag of every survey whose id is on the page. */
  function SetOnPage(ss: seq<Survey>, page: seq<Survey>, v: bool): (r: seq<Survey>)
    ensures |r| == |ss|
    ensures forall i :: 0 <= i < |ss| ==> r[i] == if OnPage(page, ss[i].id) then ss[i].(selected := v) else ss[i]
  {
    seq(|ss|, i requires 0 <= i < |ss| => if OnPage(page, ss[i].id) then ss[i].(selected := v) else ss[i])
  }

  /** `selectAllSurveysOnPage`. */
  function SelectAllSurveysOnPage(ss: seq<Survey>, p: Pagination): (r: seq<Survey>)
    ensures |r| == |ss|
    ensures forall i :: PageLo(ss, p) <= i < PageHi(ss, p) ==> r[i] == ss[i].(selected := true)
  {
    var page := CurrentPageSurveys(ss, p);
    assert forall i :: PageLo(ss, p) <= i < PageHi(ss, p) ==> page[i - PageLo(ss, p)].id == ss[i].id;
    SetOnPage(ss, page, true)
  }

  /** `deselectAllSurveysOnPage`. */
  function DeselectAllSurveysOnPage(ss: seq<Survey>, p: Pagination): (r: seq<Survey>)
    ensures |r| == |ss|
    ensures forall i :: PageLo(ss, p) <= i < PageHi(ss, p) ==> r[i] == ss[i].(selected := false)
  {
    var page := CurrentPageSurveys(ss, p);
    assert forall i :: PageLo(ss, p) <= i < PageHi(ss, p) ==> page[i - PageLo(ss, p)].id == ss[i].id;
    SetOnPage(ss, page, false)
  }

  /** With distinct ids, a survey outside the page window is not matched by
      any survey of the page. */
  lemma OffPageNotMatched(ss: seq<Survey>, p: Pagination, i: nat)
    requires UniqueSurveyIds(ss)
    requires i < |ss| && !(PageLo(ss, p) <= i < PageHi(ss, p))
    ensures !OnPage(CurrentPageSurveys(ss, p), ss[i].id)
  {
  }

  /** Selecting or deselecting the page leaves every other survey alone
      (with distinct ids). */
  lemma PageSelectionKeepsOffPage(ss: seq<Survey>, p: Pagination, i: nat)
    requires UniqueSurveyIds(ss)
    requires i < |ss| && !(PageLo(ss, p) <= i < PageHi(ss, p))
    ensures SelectAllSurveysOnPage(ss, p)[i] == ss[i]
    ensures DeselectAllSurveysOnPage(ss, p)[i] == ss[i]
  {
    OffPageNotMatched(ss, p, i);
  }

  /** `toggleAllCurrentPageSurveys`: selects the page unless it was fully
      selected, in which case it deselects it. */
  function ToggleAllCurrentPageSurveys(ss: seq<Survey>, p: Pagination): (r: seq<Survey>)
    ensures |r| == |ss|
    ensures var v := !AreAllSelected(CurrentPageSurveys(ss, p));
      forall i :: PageLo(ss, p) <= i < PageHi(ss, p) ==> r[i] == ss[i].(selected := v)
  {
    var page := CurrentPageSurveys(ss, p);
    if AreAllSelected(page) then DeselectAllSurveysOnPage(ss, p) else SelectAllSurveysOnPage(ss, p)
  }

  /** On a non-empty page the toggle flips "all selected"; every survey of
      the page then carries the same flag. */
  lemma ToggleAllFlips(ss: seq<Survey>, p: Pagination)
    requires |CurrentPageSurveys(ss, p)| > 0
    ensures AreAllSelected(CurrentPageSurveys(ToggleAllCurrentPageSurveys(ss, p), p)) ==
      !AreAllSelected(CurrentPageSurveys(ss, p))
  {
    var r := ToggleAllCurrentPageSurveys(ss, p);
    var lo := PageLo(ss, p);
    assert PageLo(r, p) == lo && PageHi(r, p) == PageHi(ss, p);
    var after := CurrentPageSurveys(r, p);
    assert after[0] == r[lo];
  }

  /** The toggle leaves every survey off the page alone (with distinct ids). */
  lemma ToggleAllKeepsOffPage(ss: seq<Survey>, p: Pagination, i: nat)
    requires UniqueSurveyIds(ss)
    requires i < |ss| && !(PageLo(ss, p) <= i < PageHi(ss, p))
    ensures ToggleAllCurrentPageSurveys(ss, p)[i] == ss[i]
  {
    PageSelectionKeepsOffPage(ss, p, i);
  }

  /** `resetSelections`: every flag cleared, nothing else changed. */
  function ResetSelections(ss: seq<Survey>): (r: seq<Survey>)
    ensures |r| == |ss|
    ensures forall i :: 0 <= i < |ss| ==> r[i] == ss[i].(selected := false)
  {
    seq(|ss|, i requires 0 <= i < |ss| => ss[i].(selected := false))
  }

  /** `setSelectedSurveyIds`: a survey is selected exactly when its id is
      listed; nothing else changes. */
  function SetSelectedSurveyIds(ss: seq<Survey>, ids: seq<string>): (r: seq<Survey>)
    ensures |r| == |ss|
    ensures forall i :: 0 <= i < |ss| ==> r[i] == ss[i].(selected := r[i].selected)
    ensures forall i :: 0 <= i < |ss| ==> (r[i].selected <==> ss[i].id in ids)
  {
    seq(|ss|, i requires 0 <= i < |ss| => ss[i].(selected := ss[i].id in ids))
  }

  /** Resetting is setting the empty id list, and leaves no selected id. */
  lemma ResetIsSetEmpty(ss: seq<Survey>)
    ensures ResetSelections(ss) == SetSelectedSurveyIds(ss, [])
    ensures GetSelectedSurveyIds(ResetSelections(ss)) == []
  {
    var r := ResetSelections(ss);
    if GetSelectedSurveyIds(r) != [] {
      var x := GetSelectedSurveyIds(r)[0];
      assert x in GetSelectedSurveyIds(r);
    }
  }

  /** Reading the selected ids and writing them back restores the list when
      ids are distinct. */
  lemma SetSelectedRoundTrip(ss: seq<Survey>)
    requires UniqueSurveyIds(ss)
    ensures SetSelectedSurveyIds(ss, GetSelectedSurveyIds(ss)) == ss
  {
    var ids := GetSelectedSurveyIds(ss);
    var r := SetSelectedSurveyIds(ss, ids);
    forall i | 0 <= i < |ss| ensures r[i] == ss[i] {
      if ss[i].id in ids {
        var j :| 0 <= j < |ss| && ss[j].selected && ss[j].id == ss[i].id;
        assert j == i;
      }
    }
  }

  /** Written ids come back as the selected ones: after setting `ids`, the
      selected ids are exactly the survey ids that are listed. */
  lemma SetThenGet(ss: seq<Survey>, ids: seq<string>, x: string)
    ensures x in GetSelectedSurveyIds(SetSelectedSurveyIds(ss, ids)) <==>
      x in ids && exists i :: 0 <= i < |ss| && ss[i].id == x
  {
    var r := SetSelectedSurveyIds(ss, ids);
    if x in ids && exists i :: 0 <= i < |ss| && ss[i].id == x {
      var i :| 0 <= i < |ss| && ss[i].id == x;
      assert r[i].selected && r[i].id == x;
    }
  }

  /** After `toggleSurvey(id)` the form's selected ids gain `id` if it was
      not selected and lose it if it was; no other survey id changes. */
  lemma ToggleUpdatesSelectedIds(ss: seq<Survey>, id: string, x: string)
    requires UniqueSurveyIds(ss)
    requires exists i :: 0 <= i < |ss| && ss[i].id == x
    ensures x in GetSelectedSurveyIds(ToggleSurveySelection(ss, id)) <==>
      if x == id then x !in GetSelectedSurveyIds(ss) else x in GetSelectedSurveyIds(ss)
  {
    var i :| 0 <= i < |ss| && ss[i].id == x;
    var r := ToggleSurveySelection(ss, id);
    assert r[i].id == x;
    if x in GetSelectedSurveyIds(r) {
      var j :| 0 <= j < |r| && r[j].selected && r[j].id == x;
      assert r[j].id == ss[j].id;
      assert j == i;
    }
    if x in GetSelectedSurveyIds(ss) {
      var j :| 0 <= j < |ss| && ss[j].selected && ss[j].id == x;
      assert j == i;
    }
  }

  /** `getSurveyById`: the first survey with the id, if any. */
  function GetSurveyById(ss: seq<Survey>, id: string): (r: Option<Survey>)
    ensures r.None? <==> forall i :: 0 <= i < |ss| ==> ss[i].id != id
    ensures r.Some? ==> exists i :: (0 <= i < |ss| && ss[i] == r.value && r.value.id == id &&
      forall j :: 0 <= j < i ==> ss[j].id != id)
  {
    if ss == [] then None
    else if ss[0].id == id then Some(ss[0])
    else
      var rest := GetSurveyById(ss[1..], id);
      assert forall i :: 1 <= i < |ss| ==> ss[i] == ss[1..][i - 1];
      if rest.Some? then
        var k :| 0 <= k < |ss[1..]| && ss[1..][k] == rest.value && rest.value.id == id &&
          forall j :: 0 <= j < k ==> ss[1..][j].id != id;
        assert ss[k + 1] == rest.value;
        rest
      else rest
  }
}
