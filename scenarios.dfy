/** The worked example of the editor: three records loaded, then one edit.
    The lemmas are stated for any three rows with the example's shape
    (`Shape`), and `ExampleHasShape` shows that the example's rows have it. */
module Scenarios {
  import opened Text
  import opened Records
  import opened Indexes
  import opened Validation
  import opened Reducer

  const R1: Record := Record("row-1", "NIC1", "Ann", "Lee", "F", "30", map[], false)
  const R2: Record := Record("row-2", "NIC1", "Bob", "Ray", "M", "25", map[], false)
  const R3: Record := Record("row-3", "NIC3", "Ann", "Lee", "F", "-5", map[], false)
  const Example: seq<Record> := [R1, R2, R3]

  /** The second row's new NIC in the edit. */
  const NewNic: string := "NIC2"

  /** Rows 0 and 1 share a NIC that row 2 does not have; rows 0 and 2 share a
      name pair that row 1 does not have; every name is present; row 2's age is
      given but not a whole number above zero; row 1 has valid gender and age;
      the ids are distinct. */
  predicate Shape(rs: seq<Record>) {
    && |rs| == 3 && DistinctIds(rs)
    && Trim(rs[0].nic) != "" && NicKey(rs[0]) == NicKey(rs[1]) && NicKey(rs[2]) != NicKey(rs[0])
    && NameKey(rs[0]) == NameKey(rs[2]) && NameKey(rs[1]) != NameKey(rs[0])
    && (forall i :: 0 <= i < 3 ==> Trim(rs[i].firstName) != "" && Trim(rs[i].lastName) != "")
    && rs[2].age != "" && !IsWholeNumberAboveZero(rs[2].age)
    && (rs[1].gender == "M" || rs[1].gender == "F") && rs[1].age != "" && IsWholeNumberAboveZero(rs[1].age)
  }

  /** A new NIC for row 1 that is present and differs from the other two rows'. */
  predicate FreshNic(rs: seq<Record>, v: string)
    requires |rs| == 3
  {
    var r := WithField(rs[1], Nic, v);
    Trim(v) != "" && NicKey(r) != NicKey(rs[0]) && NicKey(r) != NicKey(rs[2])
  }

  // ─── the example has the shape ────────────────────────────────────────────

  lemma ExampleNicKeys()
    ensures NicKey(R1) != NicKey(R3)
    ensures var r := WithField(R2, Nic, NewNic); NicKey(r) != NicKey(R1) && NicKey(r) != NicKey(R3)
  {
    TrimNoSpace(R1.nic);
    TrimNoSpace(R3.nic);
    TrimNoSpace(NewNic);
    LowerAt(R1.nic, 3);
    LowerAt(R3.nic, 3);
    LowerAt(NewNic, 3);
  }

  lemma ExampleNameKeys()
    ensures NameKey(R1) != NameKey(R2)
  {
    TrimNoSpace(R1.firstName);
    TrimNoSpace(R2.firstName);
    LowerAt(R1.firstName, 0);
    LowerAt(R2.firstName, 0);
    assert NameKey(R1)[0] == Lower(R1.firstName)[0];
    assert NameKey(R2)[0] == Lower(R2.firstName)[0];
  }

  lemma ExampleAgeAccepted()
    ensures IsWholeNumberAboveZero(R2.age)
  {
    PositiveAgeAccepted(25);
    assert DecimalString(25) == "25";
  }

  lemma ExampleAgeRejected()
    ensures !IsWholeNumberAboveZero(R3.age)
  {
    NonPositiveAgeRejected(5);
    assert ['-'] + DecimalString(5) == "-5";
  }

  lemma ExampleNamesPresent()
    ensures forall i :: 0 <= i < 3 ==> Trim(Example[i].firstName) != "" && Trim(Example[i].lastName) != ""
  {
    TrimNoSpace(R1.firstName);
    TrimNoSpace(R1.lastName);
    TrimNoSpace(R2.firstName);
    TrimNoSpace(R2.lastName);
  }

  lemma ExampleIdsDistinct()
    ensures DistinctIds(Example)
  {
    assert R1.id[4] != R2.id[4] && R1.id[4] != R3.id[4] && R2.id[4] != R3.id[4];
  }

  lemma ExampleHasShape()
    ensures Shape(Example)
    ensures FreshNic(Example, NewNic)
  {
    ExampleIdsDistinct();
    ExampleNicKeys();
    ExampleNameKeys();
    ExampleNamesPresent();
    ExampleAgeAccepted();
    ExampleAgeRejected();
    TrimNoSpace(R1.nic);
    TrimNoSpace(NewNic);
  }

  // ─── after LOAD ───────────────────────────────────────────────────────────

  /** Rows 0 and 1 share a NIC: both are flagged, and row 2's NIC is not. */
  lemma LoadFlagsNic(rs: seq<Record>)
    requires Shape(rs)
    ensures var e := Revalidate(rs);
            && Nic in e[0].errors && e[0].errors[Nic] == NIC_NOT_UNIQUE
            && Nic in e[1].errors && e[1].errors[Nic] == NIC_NOT_UNIQUE
            && !(Nic in e[2].errors && e[2].errors[Nic] == NIC_NOT_UNIQUE)
  {
    NicDuplicatesFlaggedOnBothSides(rs, 0, 1);
    NicUniqueInDataset(rs, 2);
  }

  /** Rows 0 and 2 share a name pair: both carry the pair message on both
      name fields; row 1 does not. */
  lemma LoadFlagsNames(rs: seq<Record>, i: int)
    requires Shape(rs) && 0 <= i < 3
    ensures var e := Revalidate(rs)[i].errors;
            && (i != 1 ==> FirstName in e && e[FirstName] == NAME_NOT_UNIQUE)
            && (i != 1 ==> LastName in e && e[LastName] == NAME_NOT_UNIQUE)
            && (i == 1 ==> !(FirstName in e && e[FirstName] == NAME_NOT_UNIQUE))
            && (i == 1 ==> !(LastName in e && e[LastName] == NAME_NOT_UNIQUE))
  {
    NameUniqueInDataset(rs, i);
    if i != 1 {
      var j := 2 - i;
      assert j != i && NameKey(rs[j]) == NameKey(rs[i]);
    }
  }

  /** Row 2's age is rejected. */
  lemma LoadFlagsAge(rs: seq<Record>)
    requires Shape(rs)
    ensures var e := Revalidate(rs)[2].errors;
            Age in e && e[Age] == AGE_INVALID
  {
    RevalidateAt(rs, 2);
    AgeRule(rs[2], IndexOf(ByNic, rs), IndexOf(ByName, rs));
  }

  /** After the load every row is invalid. */
  lemma LoadedRowsInvalid(rs: seq<Record>, i: int)
    requires Shape(rs) && 0 <= i < 3
    ensures !IsRowValid(Revalidate(rs)[i].errors)
  {
    if i < 2 {
      LoadFlagsNic(rs);
    } else {
      LoadFlagsNames(rs, 2);
    }
  }

  /** While those errors stand, no row can be selected: its checkbox
      dispatches TOGGLE_SELECT with `valid` false, which is a no-op. */
  lemma LoadedRowsNotSelectable(rs: seq<Record>, i: int)
    requires Shape(rs) && 0 <= i < 3
    ensures var s := Reduce(InitialState, Load(rs));
            Reduce(s, ToggleSelect(rs[i].id, IsRowValid(s.records[i].errors))) == s
  {
    LoadedRowsInvalid(rs, i);
  }

  // ─── after UPDATE_CELL ────────────────────────────────────────────────────

  /** The rows after row 1's NIC is changed to `v`. */
  function EditedRows(rs: seq<Record>, v: string): seq<Record>
    requires |rs| == 3
  {
    [rs[0], WithField(rs[1], Nic, v), rs[2]]
  }

  /** The edit leaves the records revalidation gives the edited rows. */
  lemma AfterEditRecords(rs: seq<Record>, v: string)
    requires Shape(rs)
    ensures var s := Reduce(InitialState, Load(rs));
            var t := Reduce(s, UpdateCell(rs[1].id, Nic, v));
            t.records == Revalidate(EditedRows(rs, v)) && t.selectedIds == {}
  {
    var s := Reduce(InitialState, Load(rs));
    var e := EditRecords(s.records, rs[1].id, Nic, v);
    var d := EditedRows(rs, v);
    assert SameDataAll(e, d) by {
      assert SameData(e[0], d[0]);
      assert SameData(e[1], d[1]);
      assert SameData(e[2], d[2]);
    }
    RevalidateIgnoresErrors(e, d);
  }

  /** After the edit neither row 0 nor row 1 carries the NIC message. */
  lemma EditClearsNic(rs: seq<Record>, v: string, i: int)
    requires Shape(rs) && FreshNic(rs, v) && (i == 0 || i == 1)
    ensures var e := Revalidate(EditedRows(rs, v))[i].errors;
            !(Nic in e && e[Nic] == NIC_NOT_UNIQUE)
  {
    NicUniqueInDataset(EditedRows(rs, v), i);
  }

  /** Rows 0 and 2 keep their name errors. */
  lemma EditKeepsNameErrors(rs: seq<Record>, v: string, i: int)
    requires Shape(rs) && (i == 0 || i == 2)
    ensures var e := Revalidate(EditedRows(rs, v))[i].errors;
            && FirstName in e && e[FirstName] == NAME_NOT_UNIQUE
            && LastName in e && e[LastName] == NAME_NOT_UNIQUE
  {
    var d := EditedRows(rs, v);
    NameUniqueInDataset(d, i);
    var j := 2 - i;
    assert j != i && NameKey(d[j]) == NameKey(d[i]);
  }

  /** Row 2 keeps its age error. */
  lemma EditKeepsAgeError(rs: seq<Record>, v: string)
    requires Shape(rs)
    ensures var e := Revalidate(EditedRows(rs, v))[2].errors;
            Age in e && e[Age] == AGE_INVALID
  {
    var d := EditedRows(rs, v);
    RevalidateAt(d, 2);
    AgeRule(d[2], IndexOf(ByNic, d), IndexOf(ByName, d));
  }

  /** After the edit the second row's NIC is listed exactly once. */
  lemma EditedNicCount(rs: seq<Record>, v: string)
    requires Shape(rs) && FreshNic(rs, v)
    ensures var d := EditedRows(rs, v);
            |Lookup(IndexOf(ByNic, d), NicKey(d[1]))| == 1
  {
    var d := EditedRows(rs, v);
    NicUniqueInDataset(d, 1);
    RevalidatedNicNotUnique(d, 1);
    var key := NicKey(d[1]);
    NicKeyEmpty(d[1]);
    assert Matches(ByNic, d[1], key);
    LookupIndexOf(ByNic, d, key);
    HoldersNonEmpty(ByNic, d, key);
  }

  /** After the edit the second row's name key is listed exactly once. */
  lemma EditedNameCount(rs: seq<Record>, v: string)
    requires Shape(rs)
    ensures var d := EditedRows(rs, v);
            |Lookup(IndexOf(ByName, d), NameKey(d[1]))| == 1
  {
    var d := EditedRows(rs, v);
    assert Get(d[1], FirstName) == Get(rs[1], FirstName) && Get(d[1], LastName) == Get(rs[1], LastName);
    assert NameKey(d[1]) == NameKey(rs[1]);
    NameUniqueInDataset(d, 1);
    RevalidatedNameNotUnique(d, 1);
    var key := NameKey(d[1]);
    assert Matches(ByName, d[1], key);
    LookupIndexOf(ByName, d, key);
    HoldersNonEmpty(ByName, d, key);
  }

  /** The edited row passes every rule once its NIC is unique. */
  lemma EditMakesRowValid(rs: seq<Record>, v: string)
    requires Shape(rs) && FreshNic(rs, v)
    ensures IsRowValid(Revalidate(EditedRows(rs, v))[1].errors)
  {
    var d := EditedRows(rs, v);
    assert Get(d[1], Gender) == Get(rs[1], Gender) && Get(d[1], Age) == Get(rs[1], Age);
    assert Get(d[1], FirstName) == Get(rs[1], FirstName) && Get(d[1], LastName) == Get(rs[1], LastName);
    EditedNicCount(rs, v);
    EditedNameCount(rs, v);
    RevalidateAt(d, 1);
    RowValidIff(d[1], IndexOf(ByNic, d), IndexOf(ByName, d));
  }

  /** ... and its checkbox now selects it. */
  lemma EditedRowSelectable(rs: seq<Record>, v: string)
    requires Shape(rs) && FreshNic(rs, v)
    ensures var s := Reduce(InitialState, Load(rs));
            var t := Reduce(s, UpdateCell(rs[1].id, Nic, v));
            Reduce(t, ToggleSelect(rs[1].id, IsRowValid(t.records[1].errors))).selectedIds == {rs[1].id}
  {
    AfterEditRecords(rs, v);
    EditMakesRowValid(rs, v);
  }

  // ─── the example, end to end ──────────────────────────────────────────────

  /** The three example rows: after LOAD no row is valid and none can be
      selected; after row-2's NIC becomes NIC2 that row alone is valid, nothing
      is selected, and its checkbox then selects exactly row-2. */
  lemma ExampleScenario()
    ensures var s := Reduce(InitialState, Load(Example));
            var t := Reduce(s, UpdateCell("row-2", Nic, NewNic));
            && |s.records| == 3 && |t.records| == 3
            && (forall i :: 0 <= i < 3 ==> !IsRowValid(s.records[i].errors))
            && s.selectedIds == {}
            && !IsRowValid(t.records[0].errors) && IsRowValid(t.records[1].errors) && !IsRowValid(t.records[2].errors)
            && t.selectedIds == {}
            && Reduce(t, ToggleSelect("row-2", IsRowValid(t.records[1].errors))).selectedIds == {"row-2"}
  {
    ExampleHasShape();
    var s := Reduce(InitialState, Load(Example));
    LoadSpec(InitialState, Example);
    forall i | 0 <= i < 3
      ensures !IsRowValid(s.records[i].errors)
    {
      LoadedRowsInvalid(Example, i);
    }
    assert Example[1].id == "row-2";
    AfterEditRecords(Example, NewNic);
    EditMakesRowValid(Example, NewNic);
    EditKeepsNameErrors(Example, NewNic, 0);
    EditKeepsNameErrors(Example, NewNic, 2);
    EditedRowSelectable(Example, NewNic);
  }

  // ─── the name key is not injective ────────────────────────────────────────

  /** Two different name pairs with the same `first|last` key: a `|` inside a
      name moves the boundary. The name index cannot tell them apart, so both
      records count as holders of one pair. */
  lemma NameKeyCollision()
    ensures var a := Record("a", "", "a|b", "c", "", "", map[], false);
            var b := Record("b", "", "a", "b|c", "", "", map[], false);
            && (a.firstName, a.lastName) != (b.firstName, b.lastName)
            && NameKey(a) == NameKey(b)
  {
    var a := Record("a", "", "a|b", "c", "", "", map[], false);
    var b := Record("b", "", "a", "b|c", "", "", map[], false);
    TrimNoSpace(a.firstName);
    TrimNoSpace(a.lastName);
    TrimNoSpace(b.firstName);
    TrimNoSpace(b.lastName);
    assert |a.firstName| != |b.firstName|;
    assert NameKey(a) == "a|b|c";
    assert NameKey(b) == "a|b|c";
  }
}
