/** The derived page view (`totalPages`, `pageRecords`, `pageValidIds`,
    `pageAllSelected`): read-only values computed from the state at render time. */
module Pagination {
  import opened Records
  import opened Validation

  const PAGE_SIZE: nat := 100

  function Min(a: int, b: int): int {
    if a <= b then a else b
  }

  /** `totalPages`: the record count divided by PAGE_SIZE, rounded up; zero for
      no records, otherwise the least number of pages of PAGE_SIZE rows that
      holds them all. */
  function TotalPages(n: nat): (t: nat)
    ensures n == 0 <==> t == 0
    ensures n > 0 ==> (t - 1) * PAGE_SIZE < n <= t * PAGE_SIZE
  {
    (n + PAGE_SIZE - 1) / PAGE_SIZE
  }

  /** `pageRecords`: the rows `page * PAGE_SIZE` up to, but not including,
      `(page + 1) * PAGE_SIZE`, cut off at the end of the records; empty past
      the last page. */
  function PageRecords(rs: seq<Record>, page: nat): (p: seq<Record>)
    ensures |p| <= PAGE_SIZE
    ensures |p| == if |rs| <= page * PAGE_SIZE then 0 else Min(PAGE_SIZE, |rs| - page * PAGE_SIZE)
    ensures forall k :: 0 <= k < |p| ==> page * PAGE_SIZE + k < |rs| && p[k] == rs[page * PAGE_SIZE + k]
  {
    var lo := Min(page * PAGE_SIZE, |rs|);
    var hi := Min((page + 1) * PAGE_SIZE, |rs|);
    rs[lo..hi]
  }

  /** `pageValidIds`: the ids of the valid records on the page, in page order. */
  function PageValidIds(page: seq<Record>): (ids: seq<Id>)
    ensures |ids| <= |page|
    ensures forall k :: 0 <= k < |ids| ==> exists j :: 0 <= j < |page| && page[j].id == ids[k] && IsRowValid(page[j].errors)
    ensures forall j :: 0 <= j < |page| && IsRowValid(page[j].errors) ==> page[j].id in ids
  {
    if page == [] then []
    else
      var rest := PageValidIds(page[1..]);
      assert forall j :: 0 < j < |page| ==> page[j] == page[1..][j - 1];
      if IsRowValid(page[0].errors) then [page[0].id] + rest else rest
  }

  /** `pageAllSelected`: the page has at least one valid id and every one of
      them is selected. */
  predicate PageAllSelected(ids: seq<Id>, selected: set<Id>) {
    |ids| > 0 && forall k :: 0 <= k < |ids| ==> ids[k] in selected
  }

  // ─── properties ───────────────────────────────────────────────────────────

  /** Every record is on exactly the page its position says, and that page
      exists. */
  lemma RecordOnItsPage(rs: seq<Record>, i: int)
    requires 0 <= i < |rs|
    ensures i / PAGE_SIZE < TotalPages(|rs|)
    ensures 0 <= i % PAGE_SIZE < |PageRecords(rs, i / PAGE_SIZE)|
    ensures PageRecords(rs, i / PAGE_SIZE)[i % PAGE_SIZE] == rs[i]
  {
    var p := i / PAGE_SIZE;
    assert p * PAGE_SIZE + i % PAGE_SIZE == i;
  }

  /** The page header checkbox is checked exactly when the page shows at least
      one valid row and every valid row it shows is selected. */
  lemma PageAllSelectedIff(page: seq<Record>, selected: set<Id>)
    ensures PageAllSelected(PageValidIds(page), selected) <==>
              (exists j :: 0 <= j < |page| && IsRowValid(page[j].errors)) &&
              (forall j :: 0 <= j < |page| && IsRowValid(page[j].errors) ==> page[j].id in selected)
  {
    var ids := PageValidIds(page);
    if |ids| > 0 {
      var j :| 0 <= j < |page| && page[j].id == ids[0] && IsRowValid(page[j].errors);
    }
    if PageAllSelected(ids, selected) {
      forall j | 0 <= j < |page| && IsRowValid(page[j].errors)
        ensures page[j].id in selected
      {
        var k :| 0 <= k < |ids| && ids[k] == page[j].id;
      }
    }
  }
}
