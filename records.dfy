/** The person record the editor holds, its editable fields and its error map. */
module Records {

  /** Record ids are opaque strings (the CSV reader assigns `row-<line>`). */
  type Id = string

  /** The five cells of a row a user can edit; also the keys of an error map. */
  datatype Field = Nic | FirstName | LastName | Gender | Age

  /** Field → human-readable message; a record is valid when this is empty. */
  type Errors = map<Field, string>

  /** A row of the table. `selected` is the CSV reader's denormalised flag: the
      core never reads or writes it (selection lives in the reducer's id set). */
  datatype Record = Record(
    id: Id,
    nic: string,
    firstName: string,
    lastName: string,
    gender: string,
    age: string,
    errors: Errors,
    selected: bool)

  /** `row[field]` for an editable field. */
  function Get(r: Record, f: Field): string {
    match f
    case Nic => r.nic
    case FirstName => r.firstName
    case LastName => r.lastName
    case Gender => r.gender
    case Age => r.age
  }

  /** Two records agree on everything except their error maps. */
  predicate SameData(a: Record, b: Record) {
    a == b.(errors := a.errors)
  }

  /** A copy of the record with one field replaced: that field gets the value,
      nothing else changes. */
  function WithField(r: Record, f: Field, v: string): (r': Record)
    ensures Get(r', f) == v
    ensures forall g :: g != f ==> Get(r', g) == Get(r, g)
    ensures r'.id == r.id && r'.errors == r.errors && r'.selected == r.selected
  {
    match f
    case Nic => r.(nic := v)
    case FirstName => r.(firstName := v)
    case LastName => r.(lastName := v)
    case Gender => r.(gender := v)
    case Age => r.(age := v)
  }

  /** Two sequences of records agree position by position on everything but errors. */
  predicate SameDataAll(rs: seq<Record>, ts: seq<Record>) {
    |rs| == |ts| && forall i :: 0 <= i < |rs| ==> SameData(rs[i], ts[i])
  }

  predicate DistinctIds(rs: seq<Record>) {
    forall i, j :: 0 <= i < |rs| && 0 <= j < |rs| && i != j ==> rs[i].id != rs[j].id
  }
}
