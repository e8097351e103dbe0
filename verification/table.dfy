/**
  The admin table's state and its event handlers. Every handler is a pure
  function from the current state to the next one; the two guarded bulk deletes
  also report the alert the page would raise.
 */
module Table {
  import opened Optional
  import opened Text
  import opened Seqs
  import opened Records

  /**
    The component state: the authoritative record list, the id being edited
    (`editing`, `null` when idle), the pending draft (`editedValues`), the
    select-all flag and the search text.
   */
  datatype State = State(records: seq<Record>, editing: Option<nat>, draft: Draft,
                         selectAllChecked: bool, searchText: string)

  /** The state when the component mounts, before the fetch completes. */
  const Initial := State([], None, EmptyDraft, false, "")

  /** The user-visible warnings of the two guarded deletes. */
  datatype Alert = NoRowsSelected | NoRowsToDelete

  /** The next state, and the alert raised on the way, if any. */
  datatype Reply = Reply(state: State, alert: Option<Alert>)

  /** Every record is selected (`every(row => row.selected)`; true of an empty list). */
  predicate AllSelected(rs: seq<Record>) {
    forall i :: 0 <= i < |rs| ==> rs[i].selected
  }

  /** No record is selected. */
  predicate NoneSelected(rs: seq<Record>) {
    forall i :: 0 <= i < |rs| ==> !rs[i].selected
  }

  // ---------------------------------------------------------------- loading

  /**
    Completion of the one fetch made at mount: a successful fetch replaces the
    list by the fetched members, each unselected; a failed one (network error,
    malformed JSON) is only logged and changes nothing.
   */
  function Loaded(s: State, fetched: Option<seq<Row>>): (r: State)
    ensures fetched.None? ==> r == s
    ensures fetched.Some? ==> Rows(r.records) == fetched.value && NoneSelected(r.records)
    ensures r.editing == s.editing && r.draft == s.draft
    ensures r.selectAllChecked == s.selectAllChecked && r.searchText == s.searchText
  {
    match fetched
    case None => s
    case Some(rows) =>
      var rs := WithSelection(rows);
      assert Rows(rs) == rows;
      s.(records := rs)
  }

  // -------------------------------------------------------------- selection

  /**
    Toggling one row's checkbox flips `selected` on exactly the records with that
    id; member data, order and every other record stay as they were. The select-all
    flag then reports whether every record is selected.
   */
  function ToggleSelected(s: State, id: nat): (r: State)
    ensures |r.records| == |s.records|
    ensures forall i :: 0 <= i < |s.records| ==>
              Fields(r.records[i]) == Fields(s.records[i]) &&
              (r.records[i].selected != s.records[i].selected <==> s.records[i].id == id)
    ensures r.selectAllChecked <==> AllSelected(r.records)
    ensures r.editing == s.editing && r.draft == s.draft && r.searchText == s.searchText
  {
    var rs := s.records;
    var updated := seq(|rs|, i requires 0 <= i < |rs| =>
                         if rs[i].id == id then rs[i].(selected := !rs[i].selected) else rs[i]);
    s.(records := updated, selectAllChecked := AllSelected(updated))
  }

  /** Toggling the same row twice gives back the original records. */
  lemma ToggleTwice(s: State, id: nat)
    ensures ToggleSelected(ToggleSelected(s, id), id).records == s.records
  {
  }

  /**
    The select-all checkbox sets `selected` on every record of the whole list
    (not only the visible ones) to the negation of the old flag, and negates the flag.
   */
  function ToggleSelectAll(s: State): (r: State)
    ensures |r.records| == |s.records|
    ensures forall i :: 0 <= i < |s.records| ==>
              Fields(r.records[i]) == Fields(s.records[i]) &&
              r.records[i].selected == !s.selectAllChecked
    ensures r.selectAllChecked == !s.selectAllChecked
    ensures r.editing == s.editing && r.draft == s.draft && r.searchText == s.searchText
  {
    var rs := s.records;
    var updated := seq(|rs|, i requires 0 <= i < |rs| => rs[i].(selected := !s.selectAllChecked));
    s.(records := updated, selectAllChecked := !s.selectAllChecked)
  }

  /**
    After select-all the flag agrees with the records: when set, every record is
    selected, and when cleared, none is.
   */
  lemma SelectAllAgrees(s: State)
    ensures var r := ToggleSelectAll(s);
            (r.selectAllChecked ==> AllSelected(r.records)) &&
            (!r.selectAllChecked ==> NoneSelected(r.records))
  {
  }

  /** Select-all twice restores the flag and leaves every record's selection equal to the old flag. */
  lemma SelectAllTwice(s: State)
    ensures var r := ToggleSelectAll(ToggleSelectAll(s));
            r.selectAllChecked == s.selectAllChecked &&
            Rows(r.records) == Rows(s.records) &&
            (s.selectAllChecked ==> AllSelected(r.records)) &&
            (!s.selectAllChecked ==> NoneSelected(r.records))
  {
  }

  // ---------------------------------------------------------------- editing

  /**
    Edit on a row opens an edit session for its id, with a draft that holds a
    full copy of the row; any earlier draft is dropped. The list is untouched.
   */
  function BeginEdit(s: State, row: Record): (r: State)
    ensures r.editing == Some(row.id)
    ensures forall q :: Merge(q, r.draft) == row
    ensures r.records == s.records && r.selectAllChecked == s.selectAllChecked
    ensures r.searchText == s.searchText
  {
    s.(editing := Some(row.id), draft := CopyOf(row))
  }

  /**
    Typing into an editable cell stores the trimmed input under that one key of the
    draft; the other keys, the session and the list are untouched.
   */
  function EditChange(s: State, f: Field, raw: string): (r: State)
    ensures Get(r.draft, f) == Some(Trim(raw))
    ensures forall g :: g != f ==> Get(r.draft, g) == Get(s.draft, g)
    ensures r.draft.id == s.draft.id && r.draft.selected == s.draft.selected
    ensures r.records == s.records && r.editing == s.editing
    ensures r.selectAllChecked == s.selectAllChecked && r.searchText == s.searchText
  {
    s.(draft := SetField(s.draft, f, Trim(raw)))
  }

  /** Cancel ends the edit session with an empty draft and leaves the list unchanged. */
  function Cancel(s: State): (r: State)
    ensures r.editing.None? && r.draft == EmptyDraft
    ensures r.records == s.records && r.selectAllChecked == s.selectAllChecked
    ensures r.searchText == s.searchText
  {
    s.(editing := None, draft := EmptyDraft)
  }

  /** From an idle state, starting an edit and cancelling it gives back the same state. */
  lemma BeginCancelRoundTrip(s: State, row: Record)
    requires s.editing.None? && s.draft == EmptyDraft
    ensures Cancel(BeginEdit(s, row)) == s
  {
  }

  /**
    Save replaces every record with the saved row's id by its merge with the draft,
    leaves all other records and the order alone (so nothing changes when no record
    has that id any more), and ends the edit session.
   */
  function Save(s: State, id: nat): (r: State)
    ensures |r.records| == |s.records|
    ensures forall i :: 0 <= i < |s.records| ==>
              r.records[i] == (if s.records[i].id == id then Merge(s.records[i], s.draft) else s.records[i])
    ensures (forall i :: 0 <= i < |s.records| ==> s.records[i].id != id) ==> r.records == s.records
    ensures r.editing.None? && r.draft == EmptyDraft
    ensures r.selectAllChecked == s.selectAllChecked && r.searchText == s.searchText
  {
    var rs := s.records;
    var updated := seq(|rs|, i requires 0 <= i < |rs| =>
                         if rs[i].id == id then Merge(rs[i], s.draft) else rs[i]);
    s.(records := updated, editing := None, draft := EmptyDraft)
  }

  /**
    Starting an edit on a current record and saving it without changes leaves the
    list as it was.
   */
  lemma EditSaveUnchanged(s: State, k: nat)
    requires k < |s.records| && UniqueIds(s.records)
    ensures Save(BeginEdit(s, s.records[k]), s.records[k].id).records == s.records
  {
  }

  /**
    Starting an edit on a current record, changing one field and saving updates that
    field of that record only; every other field and every other record is untouched.
   */
  lemma EditFieldThenSave(s: State, k: nat, f: Field, raw: string)
    requires k < |s.records| && UniqueIds(s.records)
    ensures var row := s.records[k];
            var v := Trim(raw);
            Save(EditChange(BeginEdit(s, row), f, raw), row.id).records ==
              s.records[k := match f
                             case Name => row.(name := v)
                             case Email => row.(email := v)
                             case Role => row.(role := v)]
  {
  }

  /**
    The draft is a full copy of the row, `selected` included: a Save after select-all
    restores the row exactly as it was when the edit began, so its selection is the
    edit-start one, while the flag stays negated.
   */
  lemma SaveRevertsSelection(s: State, k: nat)
    requires k < |s.records| && UniqueIds(s.records)
    ensures var row := s.records[k];
            var r := Save(ToggleSelectAll(BeginEdit(s, row)), row.id);
            r.records[k] == row && r.selectAllChecked == !s.selectAllChecked
  {
  }

  /**
    An instance of `SaveRevertsSelection`: afterwards the select-all flag is set
    while a record is unselected, so the flag no longer describes the records.
   */
  lemma SaveDesynchronisesSelectAll()
    ensures var row := Record(1, "A", "a@x.com", "Admin", false);
            var s := State([row], None, EmptyDraft, false, "");
            var r := Save(ToggleSelectAll(BeginEdit(s, row)), 1);
            r.records == [row] && r.selectAllChecked && !AllSelected(r.records)
  {
    var row := Record(1, "A", "a@x.com", "Admin", false);
    var s := State([row], None, EmptyDraft, false, "");
    var r := Save(ToggleSelectAll(BeginEdit(s, row)), 1);
    assert r.records[0] == row;
  }

  // --------------------------------------------------------------- deleting

  /**
    Delete on a row keeps exactly the records with a different id, in their original
    order, and clears the select-all flag. An active edit session is kept.
   */
  function DeleteOne(s: State, id: nat): (r: State)
    ensures IsSubsequence(r.records, s.records)
    ensures forall x :: multiset(r.records)[x] == if x.id != id then multiset(s.records)[x] else 0
    ensures (forall i :: 0 <= i < |s.records| ==> s.records[i].id != id) ==> r.records == s.records
    ensures !r.selectAllChecked
    ensures r.editing == s.editing && r.draft == s.draft && r.searchText == s.searchText
  {
    var kept := Filter(s.records, (x: Record) => x.id != id);
    assert (forall i :: 0 <= i < |s.records| ==> s.records[i].id != id) ==> kept == s.records by {
      if forall i :: 0 <= i < |s.records| ==> s.records[i].id != id {
        FilterAll(s.records, (x: Record) => x.id != id);
      }
    }
    s.(records := kept, selectAllChecked := false)
  }

  /** Deleting the same id twice is the same as deleting it once. */
  lemma DeleteOneIdempotent(s: State, id: nat)
    ensures DeleteOne(DeleteOne(s, id), id) == DeleteOne(s, id)
  {
  }

  /** Saving after the edited record was deleted leaves the list as the delete left it. */
  lemma SaveAfterDelete(s: State, id: nat)
    ensures Save(DeleteOne(s, id), id).records == DeleteOne(s, id).records
  {
  }

  /**
    Delete Selected (the handler as it was evidently meant to run; see
    `DeleteSelectedAsWritten`): with nothing selected it raises the "no rows selected"
    alert and changes nothing; otherwise it keeps exactly the unselected records of
    the whole list, in order, and clears the select-all flag.
   */
  function DeleteSelected(s: State): (reply: Reply)
    ensures reply.alert == Some(NoRowsSelected) <==> NoneSelected(s.records)
    ensures reply.alert.Some? ==> reply.alert == Some(NoRowsSelected) && reply.state == s
    ensures reply.alert.None? ==>
              var r := reply.state;
              IsSubsequence(r.records, s.records) &&
              (forall x :: multiset(r.records)[x] == if x.selected then 0 else multiset(s.records)[x]) &&
              !r.selectAllChecked &&
              r.editing == s.editing && r.draft == s.draft && r.searchText == s.searchText
  {
    var selectedRows := Filter(s.records, (x: Record) => x.selected);
    if |selectedRows| == 0 then
      assert NoneSelected(s.records) by {
        forall i | 0 <= i < |s.records|
          ensures !s.records[i].selected
        {
          assert s.records[i] in multiset(s.records);
        }
      }
      Reply(s, Some(NoRowsSelected))
    else
      assert !NoneSelected(s.records) by {
        assert selectedRows[0] in multiset(selectedRows);
        SubsequenceMembers(selectedRows, s.records, selectedRows[0]);
      }
      Reply(s.(records := Filter(s.records, (x: Record) => !x.selected), selectAllChecked := false), None)
  }

  /** A successful Delete Selected leaves no selected record, so repeating it raises the alert. */
  lemma DeleteSelectedTwice(s: State)
    requires DeleteSelected(s).alert.None?
    ensures DeleteSelected(DeleteSelected(s).state).alert == Some(NoRowsSelected)
  {
  }

  /** What an evaluation of the handler's body ends in. */
  datatype Completion = Returned(reply: Reply) | Threw(error: JsError)

  /** A JavaScript exception. */
  datatype JsError = ReferenceError(identifier: string)

  /**
    Delete Selected exactly as written in the page (src/App.jsx:137-149): after
    computing the selected rows it logs `row.selected`, but no `row` is in scope
    there, so every call throws a ReferenceError before the guard and before any
    state update.
   */
  function DeleteSelectedAsWritten(s: State): Completion
  {
    Threw(ReferenceError("row"))
  }

  /**
    Whenever some record is selected, the handler as written throws and deletes
    nothing, while the intended handler removes every selected record.
   */
  lemma DeleteSelectedAsWrittenNeverDeletes(s: State, k: nat)
    requires k < |s.records| && s.records[k].selected
    ensures DeleteSelectedAsWritten(s) == Threw(ReferenceError("row"))
    ensures DeleteSelected(s).alert.None?
    ensures s.records[k] !in DeleteSelected(s).state.records
  {
    var r := DeleteSelected(s).state.records;
    assert multiset(r)[s.records[k]] == 0;
  }

  /**
    Delete All on an empty list raises the "no rows to delete" alert and changes
    nothing; otherwise it empties the whole list (whatever the search text) and
    clears the select-all flag.
   */
  function DeleteAll(s: State): (reply: Reply)
    ensures reply.alert == Some(NoRowsToDelete) <==> |s.records| == 0
    ensures reply.alert.Some? ==> reply.alert == Some(NoRowsToDelete) && reply.state == s
    ensures reply.alert.None? ==>
              reply.state.records == [] && !reply.state.selectAllChecked &&
              reply.state.editing == s.editing && reply.state.draft == s.draft &&
              reply.state.searchText == s.searchText
  {
    if |s.records| == 0 then Reply(s, Some(NoRowsToDelete))
    else Reply(s.(records := [], selectAllChecked := false), None)
  }

  /** A successful Delete All is followed by the alert when repeated. */
  lemma DeleteAllTwice(s: State)
    requires |s.records| > 0
    ensures DeleteAll(DeleteAll(s).state).alert == Some(NoRowsToDelete)
  {
  }

  // -------------------------------------------------------------- searching

  /** Typing in the search box only changes the search text. */
  function Search(s: State, text: string): (r: State)
    ensures r.searchText == text
    ensures r.records == s.records && r.editing == s.editing && r.draft == s.draft
    ensures r.selectAllChecked == s.selectAllChecked
  {
    s.(searchText := text)
  }

  /**
    A record matches the search text when some key's string form, lower-cased,
    contains the lower-cased search text.
   */
  predicate Matches(rec: Record, text: string) {
    var vs := FieldStrings(rec);
    exists k :: 0 <= k < |vs| && Includes(Lower(vs[k]), Lower(text))
  }

  /** The empty search text matches every record. */
  lemma MatchesEmpty(rec: Record)
    ensures Matches(rec, "")
  {
    IncludesEmpty(Lower(FieldStrings(rec)[0]));
  }

  /** A record matches when one of its text fields contains the search text, case aside. */
  lemma MatchesField(rec: Record, f: Field, text: string)
    requires Includes(Lower(Value(rec, f)), Lower(text))
    ensures Matches(rec, text)
  {
    var vs := FieldStrings(rec);
    var k := match f case Name => 1 case Email => 2 case Role => 3;
    assert vs[k] == Value(rec, f);
  }

  /**
    The rows the table shows (`filteredData`): the records that match the search
    text, each as often as in the list, in list order.
   */
  function VisibleOf(rs: seq<Record>, text: string): (v: seq<Record>)
    ensures IsSubsequence(v, rs)
    ensures forall x :: multiset(v)[x] == if Matches(x, text) then multiset(rs)[x] else 0
  {
    Filter(rs, (x: Record) => Matches(x, text))
  }

  /** The rows shown for the current state. */
  function Visible(s: State): seq<Record> {
    VisibleOf(s.records, s.searchText)
  }

  /** A record is shown exactly when it is in the list and matches the search text. */
  lemma VisibleMembers(s: State, x: Record)
    ensures x in Visible(s) <==> x in s.records && Matches(x, s.searchText)
  {
  }

  /** An empty search text shows the whole list, in order. */
  lemma VisibleEmptySearch(rs: seq<Record>)
    ensures VisibleOf(rs, "") == rs
  {
    var p := (x: Record) => Matches(x, "");
    forall i | 0 <= i < |rs|
      ensures p(rs[i])
    {
      MatchesEmpty(rs[i]);
    }
    FilterAll(rs, p);
  }

  /** Searching and then clearing the search box shows the full list again: no data is lost. */
  lemma SearchThenClear(s: State, text: string)
    ensures Visible(Search(Search(s, text), "")) == s.records
  {
    VisibleEmptySearch(s.records);
  }

  /** Filtering the shown rows again by the same text shows the same rows. */
  lemma VisibleIdempotent(rs: seq<Record>, text: string)
    ensures VisibleOf(VisibleOf(rs, text), text) == VisibleOf(rs, text)
  {
    FilterIdempotent(rs, (x: Record) => Matches(x, text));
  }

  /** The search is case-insensitive: "ADMIN" finds the role "Administrator". */
  lemma SearchIgnoresCase()
    ensures Matches(Record(7, "Ann", "ann@x.com", "Administrator", false), "ADMIN")
  {
    var rec := Record(7, "Ann", "ann@x.com", "Administrator", false);
    assert Lower("Administrator")[..5] == Lower("ADMIN");
    assert OccursAt(Lower("Administrator"), Lower("ADMIN"), 0);
    MatchesField(rec, Role, "ADMIN");
  }
}
