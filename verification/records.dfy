/**
  The user records of the admin table, the edit draft that shadows one of them,
  and the string forms of a record that the search box matches against.
 */
module Records {
  import opened Optional
  import opened Text

  /** One member as delivered by the data source: `{id, name, email, role}`. */
  datatype Row = Row(id: nat, name: string, email: string, role: string)

  /** One table record: a member plus the UI-local `selected` flag. */
  datatype Record = Record(id: nat, name: string, email: string, role: string, selected: bool)

  /** The member data of a record, without its selection flag. */
  function Fields(r: Record): Row {
    Row(r.id, r.name, r.email, r.role)
  }

  /** The member data of every record, in order. */
  function Rows(rs: seq<Record>): (r: seq<Row>)
    ensures |r| == |rs|
    ensures forall i :: 0 <= i < |rs| ==> r[i] == Fields(rs[i])
  {
    seq(|rs|, i requires 0 <= i < |rs| => Fields(rs[i]))
  }

  /**
    The row mapping of the initial load: every fetched member becomes a record
    with the same member data and `selected = false`, in the same order.
   */
  function WithSelection(rows: seq<Row>): (r: seq<Record>)
    ensures |r| == |rows|
    ensures forall i :: 0 <= i < |r| ==> Fields(r[i]) == rows[i] && !r[i].selected
  {
    seq(|rows|, i requires 0 <= i < |rows| => Record(rows[i].id, rows[i].name, rows[i].email, rows[i].role, false))
  }

  /** Loading loses no member data: stripping the selection flags gives back the fetched rows. */
  lemma LoadRoundTrip(rows: seq<Row>)
    ensures Rows(WithSelection(rows)) == rows
  {
  }

  /** No two records share an id. */
  predicate UniqueIds(rs: seq<Record>) {
    forall i, j :: 0 <= i < j < |rs| ==> rs[i].id != rs[j].id
  }

  /** No two fetched rows share an id. */
  predicate UniqueRowIds(rows: seq<Row>) {
    forall i, j :: 0 <= i < j < |rows| ==> rows[i].id != rows[j].id
  }

  /** Loading keeps the ids, so it yields unique ids exactly when the source had them. */
  lemma LoadUniqueIds(rows: seq<Row>)
    ensures UniqueIds(WithSelection(rows)) <==> UniqueRowIds(rows)
  {
  }

  /** The text fields a user can edit in place. */
  datatype Field = Name | Email | Role

  /** `row[key]` for an editable key. */
  function Value(r: Record, f: Field): string {
    match f
    case Name => r.name
    case Email => r.email
    case Role => r.role
  }

  /**
    The pending edit values (`editedValues`): an object that may hold any of a
    record's five keys. An absent key is `None`.
   */
  datatype Draft = Draft(id: Option<nat>, name: Option<string>, email: Option<string>,
                         role: Option<string>, selected: Option<bool>)

  /** The empty object `{}`. */
  const EmptyDraft := Draft(None, None, None, None, None)

  /** `editedValues[key]` for an editable key. */
  function Get(d: Draft, f: Field): Option<string> {
    match f
    case Name => d.name
    case Email => d.email
    case Role => d.role
  }

  /**
    `{ ...record, ...draft }`: every key present in the draft overrides the
    record's value, every absent key keeps it.
   */
  function Merge(r: Record, d: Draft): (m: Record)
    ensures m.id == (if d.id.Some? then d.id.value else r.id)
    ensures m.selected == (if d.selected.Some? then d.selected.value else r.selected)
    ensures forall f :: Value(m, f) == (if Get(d, f).Some? then Get(d, f).value else Value(r, f))
  {
    Record(
      if d.id.Some? then d.id.value else r.id,
      if d.name.Some? then d.name.value else r.name,
      if d.email.Some? then d.email.value else r.email,
      if d.role.Some? then d.role.value else r.role,
      if d.selected.Some? then d.selected.value else r.selected)
  }

  /** Merging the empty draft changes nothing. */
  lemma MergeEmpty(r: Record)
    ensures Merge(r, EmptyDraft) == r
  {
  }

  /**
    `{ ...row }`: a draft holding every key of the record, so that merging it
    onto any record reproduces `row` exactly.
   */
  function CopyOf(row: Record): (d: Draft)
    ensures forall q :: Merge(q, d) == row
    ensures d.id == Some(row.id)
  {
    Draft(Some(row.id), Some(row.name), Some(row.email), Some(row.role), Some(row.selected))
  }

  /**
    `{ ...draft, [key]: v }`: the draft with `v` stored under exactly one key;
    every other key, present or absent, is as before.
   */
  function SetField(d: Draft, f: Field, v: string): (e: Draft)
    ensures Get(e, f) == Some(v)
    ensures forall g :: g != f ==> Get(e, g) == Get(d, g)
    ensures e.id == d.id && e.selected == d.selected
  {
    match f
    case Name => d.(name := Some(v))
    case Email => d.(email := Some(v))
    case Role => d.(role := Some(v))
  }

  /**
    `Object.values(row).map(String)`: the string form of every key of a record,
    in key order id, name, email, role, selected.
   */
  function FieldStrings(r: Record): (vs: seq<string>)
    ensures |vs| == 5
    ensures vs[0] == NatToString(r.id)
    ensures vs[1] == r.name && vs[2] == r.email && vs[3] == r.role
    ensures vs[4] == BoolToString(r.selected)
  {
    [NatToString(r.id), r.name, r.email, r.role, BoolToString(r.selected)]
  }
}
