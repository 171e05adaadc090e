/** The editor's state machine (`tableReducer`): the records with their error
    maps, the page shown, and the set of selected record ids. */
module Reducer {
  import opened Text
  import opened Records
  import opened Indexes
  import opened Validation
  import opened Pagination

  datatype State = State(records: seq<Record>, currentPage: nat, selectedIds: set<Id>)

  /** `initialState` */
  const InitialState: State := State([], 0, {})

  /** The six actions; UPDATE_CELL names one of the five editable cells. */
  datatype Action =
    | Load(rows: seq<Record>)
    | UpdateCell(id: Id, field: Field, value: string)
    | SetPage(page: nat)
    | ToggleSelect(id: Id, valid: bool)
    | SelectPageAll(ids: seq<Id>)
    | DeselectAll

  /** The ids of the records whose error map is not empty. */
  function InvalidIds(rs: seq<Record>): set<Id> {
    if rs == [] then {}
    else
      var last := rs[|rs| - 1];
      InvalidIds(rs[..|rs| - 1]) + (if IsRowValid(last.errors) then {} else {last.id})
  }

  /** The ids of the records whose error map is empty. */
  function ValidIds(rs: seq<Record>): set<Id> {
    set j | 0 <= j < |rs| && IsRowValid(rs[j].errors) :: rs[j].id
  }

  /** UPDATE_CELL's edit: every record carrying `id` gets `v` in field `f`, and
      every other record is kept as it is. */
  function EditRecords(rs: seq<Record>, id: Id, f: Field, v: string): seq<Record> {
    seq(|rs|, i requires 0 <= i < |rs| => if rs[i].id == id then WithField(rs[i], f, v) else rs[i])
  }

  /** TOGGLE_SELECT's flip: the id leaves the selection when it is in it, and
      joins it otherwise. */
  function Toggle(selected: set<Id>, id: Id): set<Id> {
    if id in selected then selected - {id} else selected + {id}
  }

  function ElemSet(ids: seq<Id>): set<Id> {
    set x | x in ids
  }

  /** Every id of the list is selected. */
  predicate EverySelected(ids: seq<Id>, selected: set<Id>) {
    forall k :: 0 <= k < |ids| ==> ids[k] in selected
  }

  /** SELECT_PAGE_ALL on the selection: all of `ids` off when all are on,
      otherwise all of them on. */
  function TogglePage(ids: seq<Id>, selected: set<Id>): set<Id> {
    if EverySelected(ids, selected) then selected - ElemSet(ids) else selected + ElemSet(ids)
  }

  /** `tableReducer(state, action)` */
  function Reduce(s: State, a: Action): (t: State)
    ensures a.Load? ==> t.currentPage == 0 && t.selectedIds == {} && |t.records| == |a.rows|
    ensures !a.Load? ==> |t.records| == |s.records|
    ensures !a.Load? && !a.SetPage? ==> t.currentPage == s.currentPage
    ensures !a.Load? && !a.UpdateCell? ==> t.records == s.records
    ensures a.UpdateCell? || a.DeselectAll? ==> t.selectedIds <= s.selectedIds
  {
    match a
    case Load(rows) => State(Revalidate(rows), 0, {})
    case UpdateCell(id, f, v) =>
      var validated := Revalidate(EditRecords(s.records, id, f, v));
      s.(records := validated, selectedIds := s.selectedIds - InvalidIds(validated))
    case SetPage(p) => s.(currentPage := p)
    case ToggleSelect(id, valid) => if !valid then s else s.(selectedIds := Toggle(s.selectedIds, id))
    case SelectPageAll(ids) => s.(selectedIds := TogglePage(ids, s.selectedIds))
    case DeselectAll => s.(selectedIds := {})
  }

  // ─── the reducer's loops ──────────────────────────────────────────────────

  lemma InvalidIdsPrefix(rs: seq<Record>, i: int)
    requires 0 <= i < |rs|
    ensures InvalidIds(rs[..i + 1]) ==
              InvalidIds(rs[..i]) + (if IsRowValid(rs[i].errors) then {} else {rs[i].id})
  {
    assert rs[..i + 1][..i] == rs[..i];
  }

  /** UPDATE_CELL's pruning loop: one pass over the revalidated records that
      removes from the selection the id of every record left invalid. */
  method PruneInvalid(validated: seq<Record>, selected: set<Id>) returns (newSelected: set<Id>)
    ensures newSelected == selected - InvalidIds(validated)
  {
    newSelected := selected;
    for i := 0 to |validated|
      invariant newSelected == selected - InvalidIds(validated[..i])
    {
      InvalidIdsPrefix(validated, i);
      if !IsRowValid(validated[i].errors) {
        newSelected := newSelected - {validated[i].id};
      }
    }
    assert validated[..|validated|] == validated;
  }

  /** SELECT_PAGE_ALL: the `every` test, then `ids.forEach` deleting or adding. */
  method ApplyPageSelection(ids: seq<Id>, selected: set<Id>) returns (newSelected: set<Id>)
    ensures newSelected == TogglePage(ids, selected)
  {
    var allSelected := forall k :: 0 <= k < |ids| ==> ids[k] in selected;
    newSelected := selected;
    for i := 0 to |ids|
      invariant allSelected ==> newSelected == selected - ElemSet(ids[..i])
      invariant !allSelected ==> newSelected == selected + ElemSet(ids[..i])
    {
      assert ids[..i + 1] == ids[..i] + [ids[i]];
      if allSelected {
        newSelected := newSelected - {ids[i]};
      } else {
        newSelected := newSelected + {ids[i]};
      }
    }
    assert ids[..|ids|] == ids;
  }

  /** `tableReducer` as the source writes it, copying the selection and
      updating the copy in place. */
  method TableReducer(s: State, a: Action) returns (t: State)
    ensures t == Reduce(s, a)
  {
    match a
    case Load(rows) =>
      var validated := RunFullValidation(rows);
      t := State(validated, 0, {});
    case UpdateCell(id, f, v) =>
      var updated := EditRecords(s.records, id, f, v);
      var validated := RunFullValidation(updated);
      var newSelected := PruneInvalid(validated, s.selectedIds);
      t := s.(records := validated, selectedIds := newSelected);
    case SetPage(p) =>
      t := s.(currentPage := p);
    case ToggleSelect(id, valid) =>
      if !valid {
        t := s;
      } else {
        var newSelected := s.selectedIds;
        if id in newSelected {
          newSelected := newSelected - {id};
        } else {
          newSelected := newSelected + {id};
        }
        t := s.(selectedIds := newSelected);
      }
    case SelectPageAll(ids) =>
      var newSelected := ApplyPageSelection(ids, s.selectedIds);
      t := s.(selectedIds := newSelected);
    case DeselectAll =>
      t := s.(selectedIds := {});
  }

  // ─── properties of each action ────────────────────────────────────────────

  /** An id is pruned exactly when some record carrying it is invalid. */
  lemma {:induction false} InvalidIdsMembership(rs: seq<Record>, x: Id)
    ensures x in InvalidIds(rs) <==> exists j :: 0 <= j < |rs| && rs[j].id == x && !IsRowValid(rs[j].errors)
  {
    if rs != [] {
      var pre := rs[..|rs| - 1];
      InvalidIdsMembership(pre, x);
      assert forall j :: 0 <= j < |pre| ==> pre[j] == rs[j];
    }
  }

  /** LOAD: the records are revalidated, in order and otherwise unchanged, every
      error map is current, the first page is shown and nothing is selected. */
  lemma LoadSpec(s: State, rows: seq<Record>)
    ensures var t := Reduce(s, Load(rows));
            && SameDataAll(t.records, rows)
            && Current(t.records)
            && t.currentPage == 0 && t.selectedIds == {}
  {
    RevalidateCurrent(rows);
  }

  lemma EditRecordsKeepsIds(rs: seq<Record>, id: Id, f: Field, v: string)
    ensures var e := EditRecords(rs, id, f, v);
            |e| == |rs| && forall i :: 0 <= i < |rs| ==> e[i].id == rs[i].id
  {
  }

  /** UPDATE_CELL on the records: only the records with the given id get the
      value in the given cell; every record keeps its position and every other
      cell; every error map is recomputed against the new data; the page is
      unchanged. */
  lemma UpdateCellRecords(s: State, id: Id, f: Field, v: string)
    ensures var t := Reduce(s, UpdateCell(id, f, v));
            && |t.records| == |s.records|
            && (forall i :: 0 <= i < |s.records| ==>
                  SameData(t.records[i], if s.records[i].id == id then WithField(s.records[i], f, v) else s.records[i]))
            && Current(t.records)
            && t.currentPage == s.currentPage
  {
    var e := EditRecords(s.records, id, f, v);
    assert Reduce(s, UpdateCell(id, f, v)).records == Revalidate(e);
    RevalidateCurrent(e);
  }

  /** UPDATE_CELL on the selection: a selected id stays selected exactly when no
      record carrying it is invalid after revalidation; nothing is added. */
  lemma UpdateCellSelection(s: State, id: Id, f: Field, v: string)
    ensures var t := Reduce(s, UpdateCell(id, f, v));
            forall x :: x in t.selectedIds <==>
              x in s.selectedIds &&
              forall j :: 0 <= j < |t.records| && t.records[j].id == x ==> IsRowValid(t.records[j].errors)
  {
    var t := Reduce(s, UpdateCell(id, f, v));
    assert t.selectedIds == s.selectedIds - InvalidIds(t.records);
    forall x
      ensures x in t.selectedIds <==>
                x in s.selectedIds &&
                forall j :: 0 <= j < |t.records| && t.records[j].id == x ==> IsRowValid(t.records[j].errors)
    {
      InvalidIdsMembership(t.records, x);
    }
  }

  /** After an edit no selected id belongs to an invalid record. */
  lemma NoInvalidRowStaysSelected(s: State, id: Id, f: Field, v: string, j: int)
    requires 0 <= j < |s.records|
    ensures var t := Reduce(s, UpdateCell(id, f, v));
            t.records[j].id in t.selectedIds ==> IsRowValid(t.records[j].errors)
  {
    var t := Reduce(s, UpdateCell(id, f, v));
    InvalidIdsMembership(t.records, t.records[j].id);
  }

  /** SET_PAGE moves to the given page and touches nothing else. */
  lemma SetPageSpec(s: State, p: nat)
    ensures var t := Reduce(s, SetPage(p));
            t.currentPage == p && t.records == s.records && t.selectedIds == s.selectedIds
  {
  }

  /** TOGGLE_SELECT: with `valid` false the state is returned as it is; otherwise
      exactly the given id flips. */
  lemma ToggleSelectSpec(s: State, id: Id, valid: bool)
    ensures var t := Reduce(s, ToggleSelect(id, valid));
            && (!valid ==> t == s)
            && (valid ==> (id in t.selectedIds <==> id !in s.selectedIds))
            && (forall x :: x != id ==> (x in t.selectedIds <==> x in s.selectedIds))
            && t.records == s.records && t.currentPage == s.currentPage
  {
  }

  /** Toggling the same id twice restores the state. */
  lemma ToggleSelectTwice(s: State, id: Id, valid: bool)
    ensures Reduce(Reduce(s, ToggleSelect(id, valid)), ToggleSelect(id, valid)) == s
  {
    var t := Reduce(Reduce(s, ToggleSelect(id, valid)), ToggleSelect(id, valid));
    assert t.selectedIds == s.selectedIds;
  }

  /** SELECT_PAGE_ALL: when every given id is already selected, all of them are
      deselected; otherwise all of them are selected; ids not given keep their
      selection, and records and page are unchanged. */
  lemma SelectPageAllSpec(s: State, ids: seq<Id>)
    ensures var t := Reduce(s, SelectPageAll(ids));
            && (EverySelected(ids, s.selectedIds) ==> forall k :: 0 <= k < |ids| ==> ids[k] !in t.selectedIds)
            && (!EverySelected(ids, s.selectedIds) ==> forall k :: 0 <= k < |ids| ==> ids[k] in t.selectedIds)
            && (forall x :: x !in ids ==> (x in t.selectedIds <==> x in s.selectedIds))
            && t.records == s.records && t.currentPage == s.currentPage
  {
  }

  /** DESELECT_ALL empties the selection and touches nothing else. */
  lemma DeselectAllSpec(s: State)
    ensures var t := Reduce(s, DeselectAll);
            t.selectedIds == {} && t.records == s.records && t.currentPage == s.currentPage
  {
  }

  // ─── the page header checkbox ─────────────────────────────────────────────

  /** The header checkbox dispatches SELECT_PAGE_ALL with the page's valid ids;
      on a page with at least one valid row that flips whether the checkbox is
      checked. */
  lemma HeaderCheckboxFlips(s: State)
    ensures var ids := PageValidIds(PageRecords(s.records, s.currentPage));
            var t := Reduce(s, SelectPageAll(ids));
            |ids| > 0 ==> (PageAllSelected(ids, t.selectedIds) <==> !PageAllSelected(ids, s.selectedIds))
  {
    var ids := PageValidIds(PageRecords(s.records, s.currentPage));
    SelectPageAllSpec(s, ids);
    if |ids| > 0 && EverySelected(ids, s.selectedIds) {
      assert ids[0] !in Reduce(s, SelectPageAll(ids)).selectedIds;
    }
  }

  // ─── the invariant every reachable state keeps ────────────────────────────

  /** Ids are distinct, every error map is current, only valid records are
      selected, and the page shown exists (or is the first page). */
  predicate Inv(s: State) {
    && DistinctIds(s.records)
    && Current(s.records)
    && s.selectedIds <= ValidIds(s.records)
    && (s.currentPage == 0 || s.currentPage < TotalPages(|s.records|))
  }

  /** What the editor's controls guarantee about the actions they dispatch: a
      loaded file has distinct ids (the CSV reader numbers its rows), a page
      number names a page, and a row or page checkbox is enabled only for valid
      rows. */
  predicate ActionAllowed(s: State, a: Action) {
    match a
    case Load(rows) => DistinctIds(rows)
    case UpdateCell(_, _, _) => true
    case SetPage(p) => p == 0 || p < TotalPages(|s.records|)
    case ToggleSelect(id, valid) => valid ==> id in ValidIds(s.records)
    case SelectPageAll(ids) => forall k :: 0 <= k < |ids| ==> ids[k] in ValidIds(s.records)
    case DeselectAll => true
  }

  lemma InitialStateInv()
    ensures Inv(InitialState)
  {
  }

  /** A row checkbox dispatches TOGGLE_SELECT with its row's id and validity;
      that action is allowed. */
  lemma RowToggleAllowed(s: State, k: int)
    requires 0 <= k < |PageRecords(s.records, s.currentPage)|
    ensures var page := PageRecords(s.records, s.currentPage);
            ActionAllowed(s, ToggleSelect(page[k].id, IsRowValid(page[k].errors)))
  {
    var page := PageRecords(s.records, s.currentPage);
    var j := s.currentPage * PAGE_SIZE + k;
    assert page[k] == s.records[j];
  }

  /** An id the page lists as valid is the id of a valid record. */
  lemma PageValidIdIsValid(rs: seq<Record>, p: nat, m: int)
    requires 0 <= m < |PageValidIds(PageRecords(rs, p))|
    ensures PageValidIds(PageRecords(rs, p))[m] in ValidIds(rs)
  {
    var page := PageRecords(rs, p);
    var x := PageValidIds(page)[m];
    var j :| 0 <= j < |page| && page[j].id == x && IsRowValid(page[j].errors);
    var i := p * PAGE_SIZE + j;
    assert i < |rs|;
    assert page[j] == rs[i];
    assert rs[i].id == x && IsRowValid(rs[i].errors);
  }

  /** The header checkbox dispatches SELECT_PAGE_ALL with the page's valid ids;
      that action is allowed. */
  lemma PageSelectAllowed(s: State)
    ensures ActionAllowed(s, SelectPageAll(PageValidIds(PageRecords(s.records, s.currentPage))))
  {
    var ids := PageValidIds(PageRecords(s.records, s.currentPage));
    forall m | 0 <= m < |ids|
      ensures ids[m] in ValidIds(s.records)
    {
      PageValidIdIsValid(s.records, s.currentPage, m);
    }
  }

  /** UPDATE_CELL keeps every record's id in its position. */
  lemma UpdateCellKeepsIds(s: State, id: Id, f: Field, v: string)
    ensures var t := Reduce(s, UpdateCell(id, f, v));
            forall i :: 0 <= i < |t.records| ==> t.records[i].id == s.records[i].id
  {
    EditRecordsKeepsIds(s.records, id, f, v);
  }

  /** UPDATE_CELL keeps only valid records selected. */
  lemma UpdateCellSelectsOnlyValid(s: State, id: Id, f: Field, v: string)
    requires s.selectedIds <= ValidIds(s.records)
    ensures var t := Reduce(s, UpdateCell(id, f, v));
            t.selectedIds <= ValidIds(t.records)
  {
    var t := Reduce(s, UpdateCell(id, f, v));
    UpdateCellKeepsIds(s, id, f, v);
    UpdateCellSelection(s, id, f, v);
    forall x | x in t.selectedIds
      ensures x in ValidIds(t.records)
    {
      assert x in ValidIds(s.records);
      var j :| 0 <= j < |s.records| && IsRowValid(s.records[j].errors) && s.records[j].id == x;
      assert t.records[j].id == x;
    }
  }

  lemma UpdateCellKeepsInv(s: State, id: Id, f: Field, v: string)
    requires Inv(s)
    ensures Inv(Reduce(s, UpdateCell(id, f, v)))
  {
    UpdateCellKeepsIds(s, id, f, v);
    UpdateCellRecords(s, id, f, v);
    UpdateCellSelectsOnlyValid(s, id, f, v);
  }

  lemma LoadKeepsInv(s: State, rows: seq<Record>)
    requires DistinctIds(rows)
    ensures Inv(Reduce(s, Load(rows)))
  {
    var t := Reduce(s, Load(rows));
    LoadSpec(s, rows);
    assert forall i :: 0 <= i < |rows| ==> t.records[i].id == rows[i].id;
  }

  lemma SelectPageAllKeepsInv(s: State, ids: seq<Id>)
    requires Inv(s) && ActionAllowed(s, SelectPageAll(ids))
    ensures Inv(Reduce(s, SelectPageAll(ids)))
  {
    var t := Reduce(s, SelectPageAll(ids));
    forall x | x in t.selectedIds
      ensures x in ValidIds(s.records)
    {
      if x !in s.selectedIds {
        var k :| 0 <= k < |ids| && ids[k] == x;
      }
    }
  }

  /** Every allowed action from a state satisfying the invariant leads to a
      state satisfying it. */
  lemma InvariantPreserved(s: State, a: Action)
    requires Inv(s) && ActionAllowed(s, a)
    ensures Inv(Reduce(s, a))
  {
    match a
    case Load(rows) => LoadKeepsInv(s, rows);
    case UpdateCell(id, f, v) => UpdateCellKeepsInv(s, id, f, v);
    case SetPage(p) =>
    case ToggleSelect(id, valid) =>
    case SelectPageAll(ids) => SelectPageAllKeepsInv(s, ids);
    case DeselectAll =>
  }

  // ─── an edit reaches the other side of a collision ────────────────────────

  /** Giving one record the NIC of another flags BOTH with "NIC must be unique"
      and leaves neither selected, although only one record was edited. */
  lemma EditPropagates(s: State, a: int, b: int)
    requires DistinctIds(s.records)
    requires 0 <= a < |s.records| && 0 <= b < |s.records| && a != b
    requires Trim(s.records[b].nic) != ""
    ensures var t := Reduce(s, UpdateCell(s.records[a].id, Nic, s.records[b].nic));
            && Nic in t.records[a].errors && t.records[a].errors[Nic] == NIC_NOT_UNIQUE
            && Nic in t.records[b].errors && t.records[b].errors[Nic] == NIC_NOT_UNIQUE
            && s.records[a].id !in t.selectedIds && s.records[b].id !in t.selectedIds
  {
    var rs := s.records;
    var e := EditRecords(rs, rs[a].id, Nic, rs[b].nic);
    assert e[a] == WithField(rs[a], Nic, rs[b].nic);
    assert e[b] == rs[b];
    assert NicKey(e[a]) == NicKey(e[b]);
    NicDuplicatesFlaggedOnBothSides(e, b, a);
    var t := Reduce(s, UpdateCell(rs[a].id, Nic, rs[b].nic));
    EditRecordsKeepsIds(rs, rs[a].id, Nic, rs[b].nic);
    assert t.records[a].id == rs[a].id && t.records[b].id == rs[b].id;
    NoInvalidRowStaysSelected(s, rs[a].id, Nic, rs[b].nic, a);
    NoInvalidRowStaysSelected(s, rs[a].id, Nic, rs[b].nic, b);
  }
}
