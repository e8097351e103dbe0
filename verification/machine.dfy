/**
  The page as one state machine: the user events of the table, when the page
  offers each of them, and the invariant the handlers keep.
 */
module Machine {
  import opened Optional
  import opened Seqs
  import opened Text
  import opened Records
  import opened Table

  /** Everything that can happen to the table after mount. */
  datatype Event =
    | FetchDone(fetched: Option<seq<Row>>)
    | ToggleRow(id: nat)
    | ToggleAll
    | EditClicked(row: Record)
    | CellTyped(field: Field, raw: string)
    | CancelClicked
    | SaveClicked(id: nat)
    | DeleteClicked(id: nat)
    | DeleteSelectedClicked
    | DeleteAllClicked
    | SearchTyped(text: string)

  /** The handler each event runs. */
  function Step(s: State, e: Event): Reply {
    match e
    case FetchDone(fetched) => Reply(Loaded(s, fetched), None)
    case ToggleRow(id) => Reply(ToggleSelected(s, id), None)
    case ToggleAll => Reply(ToggleSelectAll(s), None)
    case EditClicked(row) => Reply(BeginEdit(s, row), None)
    case CellTyped(f, raw) => Reply(EditChange(s, f, raw), None)
    case CancelClicked => Reply(Cancel(s), None)
    case SaveClicked(id) => Reply(Save(s, id), None)
    case DeleteClicked(id) => Reply(DeleteOne(s, id), None)
    case DeleteSelectedClicked => DeleteSelected(s)
    case DeleteAllClicked => DeleteAll(s)
    case SearchTyped(text) => Reply(Search(s, text), None)
  }

  /**
    When the page can raise an event: Edit is a button on a shown row; the cell
    inputs, Save and Cancel exist only for the row being edited; the fetched members
    have distinct ids. The row and select-all checkbox toggles are not wired to any
    control of the page; they are kept enabled as standalone transitions, and the
    remaining events (deletes, search, fetch failure) are always possible.
   */
  predicate Enabled(s: State, e: Event) {
    match e
    case FetchDone(fetched) => fetched.Some? ==> UniqueRowIds(fetched.value)
    case EditClicked(row) => row in Visible(s)
    case CellTyped(_, _) => s.editing.Some?
    case CancelClicked => s.editing.Some?
    case SaveClicked(id) => s.editing == Some(id)
    case _ => true
  }

  /**
    The invariant of the page: ids are unique, an edit session's draft carries the
    id being edited, and an idle page has an empty draft.
   */
  predicate Valid(s: State) {
    && UniqueIds(s.records)
    && (s.editing.Some? ==> s.draft.id == s.editing)
    && (s.editing.None? ==> s.draft == EmptyDraft)
  }

  /** The page starts valid. */
  lemma InitialValid()
    ensures Valid(Initial)
  {
  }

  /** Keeping a subsequence of a list with unique ids keeps the ids unique. */
  lemma {:induction false} SubsequenceUniqueIds(a: seq<Record>, b: seq<Record>)
    requires IsSubsequence(a, b) && UniqueIds(b)
    ensures UniqueIds(a)
    decreases |b|
  {
    if |a| > 0 {
      assert UniqueIds(b[1..]) by {
        forall i, j | 0 <= i < j < |b[1..]|
          ensures b[1..][i].id != b[1..][j].id
        {
          assert b[1..][i] == b[i + 1] && b[1..][j] == b[j + 1];
        }
      }
      if a[0] == b[0] && IsSubsequence(a[1..], b[1..]) {
        SubsequenceUniqueIds(a[1..], b[1..]);
        forall j | 0 < j < |a|
          ensures a[0].id != a[j].id
        {
          assert a[j] == a[1..][j - 1];
          SubsequenceMembers(a[1..], b[1..], a[j]);
          var m :| 0 <= m < |b[1..]| && b[1..][m] == a[j];
          assert b[m + 1] == a[j];
        }
      } else {
        SubsequenceUniqueIds(a, b[1..]);
      }
    }
  }

  /** Save with the draft of the session for `id` keeps ids unique. */
  lemma SaveUniqueIds(s: State, id: nat)
    requires Valid(s) && s.editing == Some(id)
    ensures UniqueIds(Save(s, id).records)
  {
  }

  /** Every event the page can raise keeps the invariant. */
  lemma StepPreservesValid(s: State, e: Event)
    requires Valid(s) && Enabled(s, e)
    ensures Valid(Step(s, e).state)
  {
    match e
    case FetchDone(fetched) =>
      if fetched.Some? {
        LoadUniqueIds(fetched.value);
        var rs := Loaded(s, fetched).records;
        assert forall i :: 0 <= i < |rs| ==> rs[i].id == fetched.value[i].id;
      }
    case ToggleRow(id) =>
      var rs := ToggleSelected(s, id).records;
      assert forall i :: 0 <= i < |rs| ==> rs[i].id == s.records[i].id;
    case ToggleAll =>
      var rs := ToggleSelectAll(s).records;
      assert forall i :: 0 <= i < |rs| ==> rs[i].id == s.records[i].id;
    case EditClicked(row) =>
    case CellTyped(f, raw) =>
    case CancelClicked =>
    case SaveClicked(id) =>
      SaveUniqueIds(s, id);
    case DeleteClicked(id) =>
      SubsequenceUniqueIds(DeleteOne(s, id).records, s.records);
    case DeleteSelectedClicked =>
      if DeleteSelected(s).alert.None? {
        SubsequenceUniqueIds(DeleteSelected(s).state.records, s.records);
      }
    case DeleteAllClicked =>
    case SearchTyped(text) =>
  }

  /** The first member of the walk-through has no key containing "user". */
  lemma FirstDoesNotMatchUser()
    ensures !Matches(Record(1, "A", "a@x.com", "Admin", false), "user")
  {
    var q := Lower("user");
    assert q == "user";
    var vs := FieldStrings(Record(1, "A", "a@x.com", "Admin", false));
    assert vs == ["1", "A", "a@x.com", "Admin", "false"];
    forall k | 0 <= k < 5
      ensures !Includes(Lower(vs[k]), q)
    {
      assert 'u' !in Lower(vs[k]);
      NotIncludesMissingChar(Lower(vs[k]), q);
    }
  }

  /** The search for "user" shows the second member of the walk-through only. */
  lemma VisibleOfUser()
    ensures var rs := WithSelection([Row(1, "A", "a@x.com", "Admin"), Row(2, "B", "b@x.com", "User")]);
            VisibleOf(rs, "user") == [rs[1]]
  {
    var rs := WithSelection([Row(1, "A", "a@x.com", "Admin"), Row(2, "B", "b@x.com", "User")]);
    var p := (x: Record) => Matches(x, "user");
    assert rs[0] == Record(1, "A", "a@x.com", "Admin", false);
    FirstDoesNotMatchUser();
    MatchesField(rs[1], Role, "user");
    assert Filter(rs[1..][1..], p) == [];
    assert Filter(rs[1..], p) == [rs[1]];
    assert Filter(rs, p) == Filter(rs[1..], p);
  }

  /** The two example members as loaded: both unselected. */
  lemma LoadedExample()
    ensures Loaded(Initial, Some([Row(1, "A", "a@x.com", "Admin"), Row(2, "B", "b@x.com", "User")])).records
            == [Record(1, "A", "a@x.com", "Admin", false), Record(2, "B", "b@x.com", "User", false)]
  {
  }

  /** Delete Selected on a list whose second record alone is selected keeps the first. */
  lemma DeleteSecondOfTwo(s: State, a: Record, b: Record)
    requires s.records == [a, b] && !a.selected && b.selected
    ensures DeleteSelected(s).alert.None? && DeleteSelected(s).state.records == [a]
  {
    var p := (x: Record) => !x.selected;
    assert [a, b][1..] == [b] && [b][1..] == [];
    assert Filter([b], p) == [];
    assert Filter([a, b], p) == [a];
  }

  /**
    The walk-through of the page: load two members, search for "user", tick the
    one shown, delete the selection; only the first member is left.
   */
  lemma Walkthrough()
    ensures var rows := [Row(1, "A", "a@x.com", "Admin"), Row(2, "B", "b@x.com", "User")];
            var s1 := Search(Loaded(Initial, Some(rows)), "user");
            var s2 := ToggleSelected(s1, 2);
            var reply := DeleteSelected(s2);
            Visible(s1) == [s1.records[1]] &&
            reply.alert.None? && Rows(reply.state.records) == [rows[0]]
  {
    var rows := [Row(1, "A", "a@x.com", "Admin"), Row(2, "B", "b@x.com", "User")];
    var a := Record(1, "A", "a@x.com", "Admin", false);
    var b := Record(2, "B", "b@x.com", "User", false);
    var s1 := Search(Loaded(Initial, Some(rows)), "user");
    LoadedExample();
    assert s1.records == WithSelection(rows) == [a, b];
    VisibleOfUser();
    var s2 := ToggleSelected(s1, 2);
    assert s2.records == [a, b.(selected := true)];
    DeleteSecondOfTwo(s2, a, b.(selected := true));
    assert Rows([a]) == [rows[0]];
  }
}
