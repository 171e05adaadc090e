/** The row validator (`validateRow`), the full revalidation pass
    (`runFullValidation`) and the validity test (`isRowValid`). */
module Validation {
  import opened Wrappers
  import opened Text
  import opened Records
  import opened Indexes

  /** The two accepted genders, compared exactly (no trimming, no case folding). */
  const GENDERS: seq<string> := ["M", "F"]

  const NIC_REQUIRED := "NIC is required"
  const NIC_NOT_UNIQUE := "NIC must be unique"
  const FIRST_NAME_REQUIRED := "First name is required"
  const LAST_NAME_REQUIRED := "Last name is required"
  const NAME_NOT_UNIQUE := "Name combination must be unique"
  const GENDER_REQUIRED := "Gender is required"
  const GENDER_INVALID := "Must be M or F"
  const AGE_REQUIRED := "Age is required"
  const AGE_INVALID := "Must be a whole number > 0"

  /** The age test of `validateRow`: the cell, read as a number, is an integer
      above zero; the number is read by the decimal-integer parser of `Text`. */
  predicate IsWholeNumberAboveZero(age: string) {
    var n := NumberValue(age);
    n.Some? && n.value > 0
  }

  /** Both trimmed names are present and the pair's index entry lists more than one id. */
  predicate NameDuplicated(row: Record, nameIndex: Index) {
    Trim(row.firstName) != "" && Trim(row.lastName) != "" &&
    |Lookup(nameIndex, NameKey(row))| > 1
  }

  /** The NIC section: required, or else unique in the NIC index. */
  function NicErrors(row: Record, nicIndex: Index): Errors {
    if Trim(row.nic) == "" then map[Nic := NIC_REQUIRED]
    else if |Lookup(nicIndex, NicKey(row))| > 1 then map[Nic := NIC_NOT_UNIQUE]
    else map[]
  }

  /** The names section: each name required; when both are present, the pair
      unique in the name index (then both fields carry the same message). */
  function NameErrors(row: Record, nameIndex: Index): Errors {
    if NameDuplicated(row, nameIndex) then
      map[FirstName := NAME_NOT_UNIQUE, LastName := NAME_NOT_UNIQUE]
    else
      (if Trim(row.firstName) == "" then map[FirstName := FIRST_NAME_REQUIRED] else map[]) +
      (if Trim(row.lastName) == "" then map[LastName := LAST_NAME_REQUIRED] else map[])
  }

  /** The gender section: required, or else exactly one of GENDERS. */
  function GenderErrors(row: Record): Errors {
    if row.gender == "" then map[Gender := GENDER_REQUIRED]
    else if row.gender !in GENDERS then map[Gender := GENDER_INVALID]
    else map[]
  }

  /** The age section: required, or else a whole number above zero. */
  function AgeErrors(row: Record): Errors {
    if row.age == "" then map[Age := AGE_REQUIRED]
    else if !IsWholeNumberAboveZero(row.age) then map[Age := AGE_INVALID]
    else map[]
  }

  /** The error map of one row, as `validateRow` leaves it: the four sections
      write disjoint fields. */
  function RowErrors(row: Record, nicIndex: Index, nameIndex: Index): Errors {
    NicErrors(row, nicIndex) + NameErrors(row, nameIndex) + GenderErrors(row) + AgeErrors(row)
  }

  /** `validateRow(row, nicIndex, nameIndex)`: fills an error object section by
      section (NIC, names, gender, age); each section writes only its own fields. */
  method ValidateRow(row: Record, nicIndex: Index, nameIndex: Index) returns (errors: Errors)
    ensures errors == RowErrors(row, nicIndex, nameIndex)
  {
    errors := map[];
    errors := CheckNic(row, nicIndex, errors);
    assert map[] + NicErrors(row, nicIndex) == NicErrors(row, nicIndex);
    errors := CheckNames(row, nameIndex, errors);
    errors := CheckGender(row, errors);
    errors := CheckAge(row, errors);
  }

  /** The `// NIC` section of `validateRow`. */
  method CheckNic(row: Record, nicIndex: Index, errors: Errors) returns (errors': Errors)
    ensures errors' == errors + NicErrors(row, nicIndex)
  {
    errors' := errors;
    var nic := Trim(row.nic);
    if nic == "" {
      errors' := errors'[Nic := NIC_REQUIRED];
    } else {
      var key := Lower(nic);
      var dupes := Lookup(nicIndex, key);
      if |dupes| > 1 {
        errors' := errors'[Nic := NIC_NOT_UNIQUE];
      }
    }
  }

  /** The `// Names` section of `validateRow`: the uniqueness message overwrites
      nothing, because it is only set when both names are present. */
  method CheckNames(row: Record, nameIndex: Index, errors: Errors) returns (errors': Errors)
    ensures errors' == errors + NameErrors(row, nameIndex)
  {
    errors' := errors;
    var fn := Trim(row.firstName);
    var ln := Trim(row.lastName);
    if fn == "" {
      errors' := errors'[FirstName := FIRST_NAME_REQUIRED];
    }
    if ln == "" {
      errors' := errors'[LastName := LAST_NAME_REQUIRED];
    }
    if fn != "" && ln != "" {
      var nameKey := Lower(fn) + "|" + Lower(ln);
      var dupes := Lookup(nameIndex, nameKey);
      if |dupes| > 1 {
        errors' := errors'[FirstName := NAME_NOT_UNIQUE];
        errors' := errors'[LastName := NAME_NOT_UNIQUE];
      }
    }
  }

  /** The `// Gender` section of `validateRow`. */
  method CheckGender(row: Record, errors: Errors) returns (errors': Errors)
    ensures errors' == errors + GenderErrors(row)
  {
    errors' := errors;
    if row.gender == "" {
      errors' := errors'[Gender := GENDER_REQUIRED];
    } else if row.gender !in GENDERS {
      errors' := errors'[Gender := GENDER_INVALID];
    }
  }

  /** The `// Age` section of `validateRow` (`row.age` is a string here, so the
      `=== null` and `=== undefined` tests of the source cannot fire). */
  method CheckAge(row: Record, errors: Errors) returns (errors': Errors)
    ensures errors' == errors + AgeErrors(row)
  {
    errors' := errors;
    if row.age == "" {
      errors' := errors'[Age := AGE_REQUIRED];
    } else if !IsWholeNumberAboveZero(row.age) {
      errors' := errors'[Age := AGE_INVALID];
    }
  }

  /** `isRowValid`: the error map has no entry. */
  predicate IsRowValid(errors: Errors)
    ensures IsRowValid(errors) <==> errors == map[]
  {
    |errors.Keys| == 0
  }

  /** Every record of `rs` with the error map `validateRow` gives it against
      the two given indexes; order and every other field are kept. */
  function Annotate(rs: seq<Record>, nicIndex: Index, nameIndex: Index): (out: seq<Record>)
    ensures |out| == |rs|
    ensures forall i :: 0 <= i < |rs| ==> SameData(out[i], rs[i])
  {
    if rs == [] then []
    else
      var last := rs[|rs| - 1];
      Annotate(rs[..|rs| - 1], nicIndex, nameIndex) + [last.(errors := RowErrors(last, nicIndex, nameIndex))]
  }

  /** `runFullValidation(records)`: both indexes are built from the WHOLE
      sequence before any record is validated. */
  function Revalidate(rs: seq<Record>): (out: seq<Record>)
    ensures |out| == |rs|
    ensures forall i :: 0 <= i < |rs| ==> SameData(out[i], rs[i])
  {
    Annotate(rs, IndexOf(ByNic, rs), IndexOf(ByName, rs))
  }

  /** The revalidation pass as the source runs it: `buildIndexes`, then
      `validateRow` on each record in turn. */
  method RunFullValidation(records: seq<Record>) returns (validated: seq<Record>)
    ensures validated == Revalidate(records)
  {
    var nicIndex, nameIndex := BuildIndexes(records);
    validated := [];
    for i := 0 to |records|
      invariant validated == Annotate(records[..i], nicIndex, nameIndex)
    {
      var errors := ValidateRow(records[i], nicIndex, nameIndex);
      assert records[..i + 1][..i] == records[..i];
      validated := validated + [records[i].(errors := errors)];
    }
    assert records[..|records|] == records;
  }

  // ─── the rules, field by field ────────────────────────────────────────────

  /** A union of four maps over disjoint key sets reads each key from its own map. */
  lemma SectionUnion(n: Errors, m: Errors, g: Errors, a: Errors, k: Field)
    requires n.Keys <= {Nic} && m.Keys <= {FirstName, LastName} && g.Keys <= {Gender} && a.Keys <= {Age}
    ensures var e := n + m + g + a;
            var owner := if k == Nic then n else if k == FirstName || k == LastName then m else if k == Gender then g else a;
            (k in e <==> k in owner) && (k in owner ==> e[k] == owner[k])
  {
  }

  lemma RowErrorsFields(row: Record, nicIndex: Index, nameIndex: Index)
    ensures var e := RowErrors(row, nicIndex, nameIndex);
            var n := NicErrors(row, nicIndex);
            var m := NameErrors(row, nameIndex);
            var g := GenderErrors(row);
            var a := AgeErrors(row);
            && (Nic in e <==> Nic in n) && (Nic in n ==> e[Nic] == n[Nic])
            && (FirstName in e <==> FirstName in m) && (FirstName in m ==> e[FirstName] == m[FirstName])
            && (LastName in e <==> LastName in m) && (LastName in m ==> e[LastName] == m[LastName])
            && (Gender in e <==> Gender in g) && (Gender in g ==> e[Gender] == g[Gender])
            && (Age in e <==> Age in a) && (Age in a ==> e[Age] == a[Age])
  {
    var n := NicErrors(row, nicIndex);
    var m := NameErrors(row, nameIndex);
    var g := GenderErrors(row);
    var a := AgeErrors(row);
    assert n.Keys <= {Nic} && m.Keys <= {FirstName, LastName} && g.Keys <= {Gender} && a.Keys <= {Age};
    SectionUnion(n, m, g, a, Nic);
    SectionUnion(n, m, g, a, FirstName);
    SectionUnion(n, m, g, a, LastName);
    SectionUnion(n, m, g, a, Gender);
    SectionUnion(n, m, g, a, Age);
  }

  /** NIC: "required" exactly when the trimmed NIC is empty; otherwise "must be
      unique" exactly when the index lists more than one id under its
      lower-cased form; no other message. */
  lemma NicRule(row: Record, nicIndex: Index, nameIndex: Index)
    ensures var e := RowErrors(row, nicIndex, nameIndex);
            && ((Nic in e && e[Nic] == NIC_REQUIRED) <==> Trim(row.nic) == "")
            && ((Nic in e && e[Nic] == NIC_NOT_UNIQUE) <==>
                  Trim(row.nic) != "" && |Lookup(nicIndex, Lower(Trim(row.nic)))| > 1)
            && (Nic in e ==> e[Nic] == NIC_REQUIRED || e[Nic] == NIC_NOT_UNIQUE)
  {
    RowErrorsFields(row, nicIndex, nameIndex);
  }

  /** Names: each empty trimmed name gives its "required" message; when both are
      present and the index lists more than one id under the pair's key, BOTH
      fields get "Name combination must be unique"; otherwise the names pass. */
  lemma NameRule(row: Record, nicIndex: Index, nameIndex: Index)
    ensures var e := RowErrors(row, nicIndex, nameIndex);
            var fn := Trim(row.firstName);
            var ln := Trim(row.lastName);
            var duplicated := fn != "" && ln != "" &&
                              |Lookup(nameIndex, Lower(fn) + "|" + Lower(ln))| > 1;
            && ((FirstName in e && e[FirstName] == FIRST_NAME_REQUIRED) <==> fn == "")
            && ((LastName in e && e[LastName] == LAST_NAME_REQUIRED) <==> ln == "")
            && ((FirstName in e && e[FirstName] == NAME_NOT_UNIQUE) <==> duplicated)
            && ((LastName in e && e[LastName] == NAME_NOT_UNIQUE) <==> duplicated)
            && (FirstName !in e <==> fn != "" && !duplicated)
            && (LastName !in e <==> ln != "" && !duplicated)
  {
    RowErrorsFields(row, nicIndex, nameIndex);
  }

  /** Gender: "required" exactly when the cell is the empty string; any other
      value than exactly "M" or "F" (no trimming, case-sensitive) is invalid. */
  lemma GenderRule(row: Record, nicIndex: Index, nameIndex: Index)
    ensures var e := RowErrors(row, nicIndex, nameIndex);
            && ((Gender in e && e[Gender] == GENDER_REQUIRED) <==> row.gender == "")
            && ((Gender in e && e[Gender] == GENDER_INVALID) <==>
                  row.gender != "" && row.gender != "M" && row.gender != "F")
            && (Gender !in e <==> row.gender == "M" || row.gender == "F")
  {
    RowErrorsFields(row, nicIndex, nameIndex);
  }

  /** Age: a missing age ("required") and a malformed, non-positive or
      non-integer one ("must be a whole number > 0") get distinct messages. */
  lemma AgeRule(row: Record, nicIndex: Index, nameIndex: Index)
    ensures var e := RowErrors(row, nicIndex, nameIndex);
            && ((Age in e && e[Age] == AGE_REQUIRED) <==> row.age == "")
            && ((Age in e && e[Age] == AGE_INVALID) <==>
                  row.age != "" && !IsWholeNumberAboveZero(row.age))
            && (Age !in e <==> row.age != "" && IsWholeNumberAboveZero(row.age))
            && AGE_REQUIRED != AGE_INVALID
  {
    RowErrorsFields(row, nicIndex, nameIndex);
  }

  /** A positive decimal number is a valid age, with or without '+' and
      surrounding white space. */
  lemma PositiveAgeAccepted(n: nat)
    requires n > 0
    ensures IsWholeNumberAboveZero(DecimalString(n))
    ensures IsWholeNumberAboveZero(['+'] + DecimalString(n))
    ensures IsWholeNumberAboveZero([' '] + DecimalString(n) + [' '])
  {
    ParseDecimalRoundTrip(n);
    TrimDecimal(n);
    var d := DecimalString(n);
    AllDigitsAt(d, |d| - 1);
    assert Trim(['+'] + d) == ['+'] + d;
    var padded := [' '] + d + [' '];
    assert Trim(padded) == d by {
      assert padded[1..] == d + [' '];
      assert (d + [' '])[..|d|] == d;
    }
  }

  /** Zero and negative numbers are not valid ages. */
  lemma NonPositiveAgeRejected(n: nat)
    ensures !IsWholeNumberAboveZero(['-'] + DecimalString(n))
    ensures !IsWholeNumberAboveZero("0")
  {
    ParseDecimalRoundTrip(n);
    var d := DecimalString(n);
    AllDigitsAt(d, |d| - 1);
    assert Trim(['-'] + d) == ['-'] + d;
    assert ParseInteger("0") == Some(0) by {
      assert "0"[..0] == "";
    }
  }

  /** A row passes validation exactly when every rule passes. */
  lemma RowValidIff(row: Record, nicIndex: Index, nameIndex: Index)
    ensures IsRowValid(RowErrors(row, nicIndex, nameIndex)) <==>
              && Trim(row.nic) != "" && |Lookup(nicIndex, NicKey(row))| <= 1
              && Trim(row.firstName) != "" && Trim(row.lastName) != ""
              && |Lookup(nameIndex, NameKey(row))| <= 1
              && (row.gender == "M" || row.gender == "F")
              && row.age != "" && IsWholeNumberAboveZero(row.age)
  {
    RowErrorsFields(row, nicIndex, nameIndex);
    var e := RowErrors(row, nicIndex, nameIndex);
    if e != map[] {
      var f :| f in e;
    }
  }

  // ─── the revalidation pass ────────────────────────────────────────────────

  lemma {:induction false} AnnotateAt(rs: seq<Record>, nicIndex: Index, nameIndex: Index, i: int)
    requires 0 <= i < |rs|
    ensures Annotate(rs, nicIndex, nameIndex)[i] == rs[i].(errors := RowErrors(rs[i], nicIndex, nameIndex))
  {
    if i < |rs| - 1 {
      AnnotateAt(rs[..|rs| - 1], nicIndex, nameIndex, i);
    }
  }

  /** The record at position `i` after revalidation: its input record with the
      error map `validateRow` gives it against the indexes of the WHOLE
      sequence, so its verdict can depend on every other record. */
  lemma RevalidateAt(rs: seq<Record>, i: int)
    requires 0 <= i < |rs|
    ensures Revalidate(rs)[i] ==
              rs[i].(errors := RowErrors(rs[i], IndexOf(ByNic, rs), IndexOf(ByName, rs)))
  {
    AnnotateAt(rs, IndexOf(ByNic, rs), IndexOf(ByName, rs), i);
  }

  lemma RowErrorsIgnoresErrors(a: Record, b: Record, nicIndex: Index, nameIndex: Index)
    requires SameData(a, b)
    ensures RowErrors(a, nicIndex, nameIndex) == RowErrors(b, nicIndex, nameIndex)
  {
    assert a.nic == b.nic && a.firstName == b.firstName && a.lastName == b.lastName;
    assert a.gender == b.gender && a.age == b.age;
    assert NicErrors(a, nicIndex) == NicErrors(b, nicIndex);
    assert NameErrors(a, nameIndex) == NameErrors(b, nameIndex);
    assert GenderErrors(a) == GenderErrors(b);
    assert AgeErrors(a) == AgeErrors(b);
  }

  lemma {:induction false} AnnotateIgnoresErrors(rs: seq<Record>, ts: seq<Record>, nicIndex: Index, nameIndex: Index)
    requires SameDataAll(rs, ts)
    ensures Annotate(rs, nicIndex, nameIndex) == Annotate(ts, nicIndex, nameIndex)
  {
    if rs != [] {
      var n := |rs| - 1;
      assert SameDataAll(rs[..n], ts[..n]) by {
        assert forall j :: 0 <= j < n ==> rs[..n][j] == rs[j] && ts[..n][j] == ts[j];
      }
      AnnotateIgnoresErrors(rs[..n], ts[..n], nicIndex, nameIndex);
      RowErrorsIgnoresErrors(rs[n], ts[n], nicIndex, nameIndex);
      assert rs[n].(errors := map[]) == ts[n].(errors := map[]);
    }
  }

  /** Revalidation reads no error map: sequences that agree on everything but
      their error maps revalidate to the same result. */
  lemma RevalidateIgnoresErrors(rs: seq<Record>, ts: seq<Record>)
    requires SameDataAll(rs, ts)
    ensures Revalidate(rs) == Revalidate(ts)
  {
    IndexOfIgnoresErrors(ByNic, rs, ts);
    IndexOfIgnoresErrors(ByName, rs, ts);
    AnnotateIgnoresErrors(rs, ts, IndexOf(ByNic, rs), IndexOf(ByName, rs));
  }

  /** Revalidating twice gives what revalidating once gives. */
  lemma RevalidateIdempotent(rs: seq<Record>)
    ensures Revalidate(Revalidate(rs)) == Revalidate(rs)
  {
    RevalidateIgnoresErrors(Revalidate(rs), rs);
  }

  /** The state `runFullValidation` leaves: revalidating changes nothing. */
  predicate Current(rs: seq<Record>) {
    Revalidate(rs) == rs
  }

  /** After a full revalidation every error map is current. */
  lemma RevalidateCurrent(rs: seq<Record>)
    ensures Current(Revalidate(rs))
  {
    RevalidateIdempotent(rs);
  }

  /** A sequence is current exactly when every error map is the one
      `validateRow` gives its record against the indexes of the whole sequence. */
  lemma CurrentIff(rs: seq<Record>)
    ensures Current(rs) <==>
              forall i :: 0 <= i < |rs| ==> rs[i].errors == RowErrors(rs[i], IndexOf(ByNic, rs), IndexOf(ByName, rs))
  {
    if Current(rs) {
      forall i | 0 <= i < |rs|
        ensures rs[i].errors == RowErrors(rs[i], IndexOf(ByNic, rs), IndexOf(ByName, rs))
      {
        RevalidateAt(rs, i);
      }
    }
    if forall i :: 0 <= i < |rs| ==> rs[i].errors == RowErrors(rs[i], IndexOf(ByNic, rs), IndexOf(ByName, rs)) {
      forall i | 0 <= i < |rs|
        ensures Revalidate(rs)[i] == rs[i]
      {
        RevalidateAt(rs, i);
      }
    }
  }

  // ─── uniqueness over the whole record set ─────────────────────────────────

  lemma NicKeyEmpty(r: Record)
    ensures NicKey(r) == "" <==> Trim(r.nic) == ""
  {
  }

  /** The name key is the trimmed first name, lower-cased, then one `|`, then
      the trimmed last name, lower-cased. */
  lemma NameKeyParts(r: Record)
    ensures var f, l := Trim(r.firstName), Trim(r.lastName);
            var key := NameKey(r);
            && |key| == |f| + 1 + |l|
            && (forall k :: 0 <= k < |f| ==> key[k] == LowerChar(f[k]))
            && key[|f|] == '|'
            && (forall k :: 0 <= k < |l| ==> key[|f| + 1 + k] == LowerChar(l[k]))
  {
    var f, l := Trim(r.firstName), Trim(r.lastName);
    var key := NameKey(r);
    forall k | 0 <= k < |f|
      ensures key[k] == LowerChar(f[k])
    {
      LowerAt(f, k);
    }
    forall k | 0 <= k < |l|
      ensures key[|f| + 1 + k] == LowerChar(l[k])
    {
      LowerAt(l, k);
    }
  }

  lemma RevalidatedNicNotUnique(rs: seq<Record>, i: int)
    requires 0 <= i < |rs|
    ensures var e := Revalidate(rs)[i].errors;
            (Nic in e && e[Nic] == NIC_NOT_UNIQUE) <==>
              Trim(rs[i].nic) != "" && |Lookup(IndexOf(ByNic, rs), NicKey(rs[i]))| > 1
  {
    RevalidateAt(rs, i);
    NicRule(rs[i], IndexOf(ByNic, rs), IndexOf(ByName, rs));
  }

  /** Uniqueness of the NIC: after revalidation, a record with a NIC carries
      "NIC must be unique" exactly when some OTHER record has the same trimmed,
      lower-cased NIC. So duplicates are flagged on both sides and a record
      whose NIC is unique never is. */
  lemma NicUniqueInDataset(rs: seq<Record>, i: int)
    requires 0 <= i < |rs|
    ensures var e := Revalidate(rs)[i].errors;
            (Nic in e && e[Nic] == NIC_NOT_UNIQUE) <==>
              Trim(rs[i].nic) != "" &&
              exists j :: 0 <= j < |rs| && j != i && NicKey(rs[j]) == NicKey(rs[i])
  {
    RevalidatedNicNotUnique(rs, i);
    var key := NicKey(rs[i]);
    NicKeyEmpty(rs[i]);
    if Trim(rs[i].nic) != "" {
      LookupIndexOf(ByNic, rs, key);
      HoldersMoreThanOne(ByNic, rs, i, key);
      assert forall j :: 0 <= j < |rs| ==> (Matches(ByNic, rs[j], key) <==> NicKey(rs[j]) == key);
    }
  }

  lemma RevalidatedNameNotUnique(rs: seq<Record>, i: int)
    requires 0 <= i < |rs|
    ensures var e := Revalidate(rs)[i].errors;
            var duplicated := Trim(rs[i].firstName) != "" && Trim(rs[i].lastName) != "" &&
                              |Lookup(IndexOf(ByName, rs), NameKey(rs[i]))| > 1;
            && ((FirstName in e && e[FirstName] == NAME_NOT_UNIQUE) <==> duplicated)
            && ((LastName in e && e[LastName] == NAME_NOT_UNIQUE) <==> duplicated)
  {
    RevalidateAt(rs, i);
    NameRule(rs[i], IndexOf(ByNic, rs), IndexOf(ByName, rs));
  }

  /** Uniqueness of the name pair: after revalidation, a record with both names
      carries "Name combination must be unique" on BOTH name fields exactly when
      some OTHER record has the same normalised `first|last` key. */
  lemma NameUniqueInDataset(rs: seq<Record>, i: int)
    requires 0 <= i < |rs|
    ensures var e := Revalidate(rs)[i].errors;
            var flagged := Trim(rs[i].firstName) != "" && Trim(rs[i].lastName) != "" &&
                           exists j :: 0 <= j < |rs| && j != i && NameKey(rs[j]) == NameKey(rs[i]);
            && ((FirstName in e && e[FirstName] == NAME_NOT_UNIQUE) <==> flagged)
            && ((LastName in e && e[LastName] == NAME_NOT_UNIQUE) <==> flagged)
  {
    RevalidatedNameNotUnique(rs, i);
    var key := NameKey(rs[i]);
    if Trim(rs[i].firstName) != "" && Trim(rs[i].lastName) != "" {
      LookupIndexOf(ByName, rs, key);
      HoldersMoreThanOne(ByName, rs, i, key);
      NameKeyParts(rs[i]);
      forall j | 0 <= j < |rs| && NameKey(rs[j]) == key
        ensures Matches(ByName, rs[j], key)
      {
        NameKeyParts(rs[j]);
      }
    }
  }

  /** Both sides of a NIC collision are flagged, whichever was edited last. */
  lemma NicDuplicatesFlaggedOnBothSides(rs: seq<Record>, i: int, j: int)
    requires 0 <= i < |rs| && 0 <= j < |rs| && i != j
    requires Trim(rs[i].nic) != "" && NicKey(rs[i]) == NicKey(rs[j])
    ensures Nic in Revalidate(rs)[i].errors && Revalidate(rs)[i].errors[Nic] == NIC_NOT_UNIQUE
    ensures Nic in Revalidate(rs)[j].errors && Revalidate(rs)[j].errors[Nic] == NIC_NOT_UNIQUE
  {
    NicKeyEmpty(rs[i]);
    NicKeyEmpty(rs[j]);
    NicUniqueInDataset(rs, i);
    NicUniqueInDataset(rs, j);
  }
}
