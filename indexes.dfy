/** The duplicate detector of the validation engine (`buildIndexes`): one pass over
    the records builds two maps from a normalised key to the ids of the records
    that share it, in record order. */
module Indexes {
  import opened Text
  import opened Records

  /** normalised key → ids of the records carrying it, in record order */
  type Index = map<string, seq<Id>>

  /** The two indexes: by identity number, and by the first-name/last-name pair. */
  datatype IndexKind = ByNic | ByName

  /** The NIC key: the NIC cell, trimmed and lower-cased. */
  function NicKey(r: Record): string {
    Lower(Trim(r.nic))
  }

  /** The name key: both name cells trimmed and lower-cased, joined by one `|`. */
  function NameKey(r: Record): string {
    Lower(Trim(r.firstName)) + "|" + Lower(Trim(r.lastName))
  }

  function Key(kind: IndexKind, r: Record): string {
    match kind
    case ByNic => NicKey(r)
    case ByName => NameKey(r)
  }

  /** Whether a record is entered in the index at all: the NIC index skips empty
      keys, the name index skips records whose two names are both blank. */
  predicate Contributes(kind: IndexKind, r: Record) {
    match kind
    case ByNic => NicKey(r) != ""
    case ByName => Trim(r.firstName) != "" || Trim(r.lastName) != ""
  }

  /** The record is entered in the index under `key`. */
  predicate Matches(kind: IndexKind, r: Record, key: string) {
    Contributes(kind, r) && Key(kind, r) == key
  }

  /** The ids listed under `key`, or none when the key is absent. */
  function Lookup(m: Index, key: string): seq<Id> {
    if key in m then m[key] else []
  }

  /** Appending `id` to the list under `key`, creating the list when the key is
      new, as a value. */
  function Push(m: Index, key: string, id: Id): (m': Index)
    ensures m'.Keys == m.Keys + {key}
    ensures Lookup(m', key) == Lookup(m, key) + [id]
    ensures forall k :: k != key ==> Lookup(m', k) == Lookup(m, k)
  {
    m[key := Lookup(m, key) + [id]]
  }

  /** What one iteration of the `forEach` does to one index. */
  function Visit(kind: IndexKind, m: Index, r: Record): Index {
    if Contributes(kind, r) then Push(m, Key(kind, r), r.id) else m
  }

  /** The index the `forEach` over `rs` leaves behind. */
  function IndexOf(kind: IndexKind, rs: seq<Record>): Index {
    if rs == [] then map[] else Visit(kind, IndexOf(kind, rs[..|rs| - 1]), rs[|rs| - 1])
  }

  /** Reference definition, key by key: the ids of the records entered under
      `key`, in record order. */
  function Holders(kind: IndexKind, rs: seq<Record>, key: string): seq<Id> {
    if rs == [] then []
    else
      var last := rs[|rs| - 1];
      Holders(kind, rs[..|rs| - 1], key) + (if Matches(kind, last, key) then [last.id] else [])
  }

  lemma IndexOfPrefix(kind: IndexKind, rs: seq<Record>, i: int)
    requires 0 <= i < |rs|
    ensures IndexOf(kind, rs[..i + 1]) == Visit(kind, IndexOf(kind, rs[..i]), rs[i])
  {
    assert rs[..i + 1][..i] == rs[..i];
  }

  /** The same append done in place: create an empty list for a new key, then
      push the id onto the key's list. */
  method PushInPlace(m: Index, key: string, id: Id) returns (m': Index)
    ensures m' == Push(m, key, id)
  {
    m' := m;
    if key !in m' {
      m' := m'[key := []];
    }
    m' := m'[key := m'[key] + [id]];
  }

  /** `buildIndexes(records)`: a loop that pushes ids into two maps in place. */
  method BuildIndexes(records: seq<Record>) returns (nicIndex: Index, nameIndex: Index)
    ensures nicIndex == IndexOf(ByNic, records)
    ensures nameIndex == IndexOf(ByName, records)
  {
    nicIndex, nameIndex := map[], map[];
    var i := 0;
    while i < |records|
      invariant 0 <= i <= |records|
      invariant nicIndex == IndexOf(ByNic, records[..i])
      invariant nameIndex == IndexOf(ByName, records[..i])
    {
      var r := records[i];
      var nic := Lower(Trim(r.nic));
      var nameKey := Lower(Trim(r.firstName)) + "|" + Lower(Trim(r.lastName));
      IndexOfPrefix(ByNic, records, i);
      IndexOfPrefix(ByName, records, i);
      if nic != "" {
        nicIndex := PushInPlace(nicIndex, nic, r.id);
      }
      if Trim(r.firstName) != "" || Trim(r.lastName) != "" {
        nameIndex := PushInPlace(nameIndex, nameKey, r.id);
      }
      i := i + 1;
    }
    assert records[..|records|] == records;
  }

  // ─── properties ───────────────────────────────────────────────────────────

  /** The index agrees with the reference definition on every key, and has an
      entry exactly for the keys some record is entered under. */
  lemma {:induction false} LookupIndexOf(kind: IndexKind, rs: seq<Record>, key: string)
    ensures Lookup(IndexOf(kind, rs), key) == Holders(kind, rs, key)
    ensures key in IndexOf(kind, rs) <==> Holders(kind, rs, key) != []
  {
    if rs != [] {
      LookupIndexOf(kind, rs[..|rs| - 1], key);
    }
  }

  /** An id is listed under `key` exactly when a record with that id is entered
      under `key`. */
  lemma {:induction false} HoldersMembership(kind: IndexKind, rs: seq<Record>, key: string, x: Id)
    ensures x in Holders(kind, rs, key) <==>
            exists j :: 0 <= j < |rs| && rs[j].id == x && Matches(kind, rs[j], key)
  {
    if rs != [] {
      var pre := rs[..|rs| - 1];
      HoldersMembership(kind, pre, key, x);
      assert forall j :: 0 <= j < |pre| ==> pre[j] == rs[j];
    }
  }

  /** The list under `key` is non-empty exactly when some record is entered under it. */
  lemma {:induction false} HoldersNonEmpty(kind: IndexKind, rs: seq<Record>, key: string)
    ensures Holders(kind, rs, key) != [] <==> exists j :: 0 <= j < |rs| && Matches(kind, rs[j], key)
  {
    if rs != [] {
      var pre := rs[..|rs| - 1];
      HoldersNonEmpty(kind, pre, key);
      assert forall j :: 0 <= j < |pre| ==> pre[j] == rs[j];
    }
  }

  /** Cardinality decides duplication: for a record entered under `key`, the list
      under `key` has more than one id exactly when ANOTHER record (a different
      position) is entered under the same key. The record's own id is counted. */
  lemma {:induction false} HoldersMoreThanOne(kind: IndexKind, rs: seq<Record>, i: int, key: string)
    requires 0 <= i < |rs| && Matches(kind, rs[i], key)
    ensures |Holders(kind, rs, key)| > 1 <==>
            exists j :: 0 <= j < |rs| && j != i && Matches(kind, rs[j], key)
  {
    var pre := rs[..|rs| - 1];
    assert forall j :: 0 <= j < |pre| ==> pre[j] == rs[j];
    if i == |rs| - 1 {
      HoldersNonEmpty(kind, pre, key);
    } else {
      HoldersMoreThanOne(kind, pre, i, key);
      HoldersNonEmpty(kind, pre, key);
    }
  }

  /** Index membership: with distinct ids, a record's id is listed under `k`
      exactly when the record is entered under `k` — for the NIC index, when `k`
      is its non-empty normalised NIC; for the name index, when `k` is its name
      key and one of its trimmed names is non-empty. */
  lemma IdIndexedUnderOwnKey(kind: IndexKind, rs: seq<Record>, i: int, k: string)
    requires DistinctIds(rs) && 0 <= i < |rs|
    ensures rs[i].id in Lookup(IndexOf(kind, rs), k) <==> Matches(kind, rs[i], k)
    ensures kind == ByNic ==>
              (rs[i].id in Lookup(IndexOf(kind, rs), k) <==> k == NicKey(rs[i]) && k != "")
    ensures kind == ByName ==>
              (rs[i].id in Lookup(IndexOf(kind, rs), k) <==>
                 k == NameKey(rs[i]) && (Trim(rs[i].firstName) != "" || Trim(rs[i].lastName) != ""))
  {
    LookupIndexOf(kind, rs, k);
    HoldersMembership(kind, rs, k, rs[i].id);
  }

  lemma KeyIgnoresErrors(kind: IndexKind, a: Record, b: Record)
    requires SameData(a, b)
    ensures a.id == b.id && Key(kind, a) == Key(kind, b) && Contributes(kind, a) == Contributes(kind, b)
  {
    assert a.id == b.id && a.nic == b.nic && a.firstName == b.firstName && a.lastName == b.lastName;
  }

  /** The indexes read only ids and cells, never error maps. */
  lemma {:induction false} IndexOfIgnoresErrors(kind: IndexKind, rs: seq<Record>, ts: seq<Record>)
    requires SameDataAll(rs, ts)
    ensures IndexOf(kind, rs) == IndexOf(kind, ts)
  {
    if rs != [] {
      var n := |rs| - 1;
      assert SameDataAll(rs[..n], ts[..n]) by {
        assert forall j :: 0 <= j < n ==> rs[..n][j] == rs[j] && ts[..n][j] == ts[j];
      }
      IndexOfIgnoresErrors(kind, rs[..n], ts[..n]);
      KeyIgnoresErrors(kind, rs[n], ts[n]);
    }
  }
}
