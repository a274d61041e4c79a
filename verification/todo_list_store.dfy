/** `TodoListPostgres`: the list repository. Every operation except Create
    is scoped by the acting user through `users_lists`. */
module TodoListStore {
  import opened Options
  import opened Relational
  import opened SqlStatement
  import opened Executor

  /** Go `todo.UpdateListInput`; a nil pointer is `None`. */
  datatype UpdateListInput = UpdateListInput(title: Option<string>, description: Option<string>)

  /** The zero `todo.TodoList` a failed single-row query leaves behind. */
  const NoList := ListRow(0, "", "")

  function TextField(c: Column, v: Option<string>): Field {
    Field(c, if v.Some? then Some(Text(v.value)) else None)
  }

  /** The optional fields of a list update, in declaration order. */
  function Fields(input: UpdateListInput): seq<Field> {
    [TextField(TitleColumn, input.title), TextField(DescriptionColumn, input.description)]
  }

  /** What a list update must write: the title if set, then the description if set. */
  function Written(input: UpdateListInput): seq<(Column, Value)> {
    (if input.title.Some? then [(TitleColumn, Text(input.title.value))] else [])
    + (if input.description.Some? then [(DescriptionColumn, Text(input.description.value))] else [])
  }

  /** A list row after a partial update: the fields that are set replace the
      old values, the others stay. */
  function Patch(row: ListRow, input: UpdateListInput): ListRow {
    ListRow(row.id, input.title.GetOr(row.title), input.description.GetOr(row.description))
  }

  /** An item row after the list update's SET clause is applied to it. */
  function PatchItem(row: ItemRow, input: UpdateListInput): ItemRow {
    ItemRow(row.id, input.title.GetOr(row.title), input.description.GetOr(row.description), row.done)
  }

  /** Create: insert the list, then the `(userId, id)` ownership pair, in
      one transaction; `fault` says which step, if any, fails. */
  function Create(db: Db, userId: int, list: ListRow, fault: CreateFault): (r: (Db, Reply<int>))
    ensures fault != Healthy ==> r.0 == db && r.1.err == Some(Failed)
    ensures fault != Healthy && fault != CommitFails ==> r.1.value == 0
    ensures fault == Healthy ==> r.1.err == None
    ensures fault == Healthy ==>
              r.0 == db.(lists := db.lists[r.1.value := ListRow(r.1.value, list.title, list.description)],
                         usersLists := db.usersLists + {(userId, r.1.value)},
                         nextListId := r.0.nextListId)
    ensures Valid(db) ==> Valid(r.0)
    ensures Valid(db) && (fault == Healthy || fault == CommitFails) ==>
              && r.1.value >= 1
              && r.1.value !in db.lists
              && forall p :: p in db.usersLists ==> p.1 != r.1.value
  {
    var id := db.nextListId;
    match fault
    case Healthy =>
      (db.(lists := db.lists[id := ListRow(id, list.title, list.description)],
           usersLists := db.usersLists + {(userId, id)},
           nextListId := id + 1),
       Reply(id, None))
    case CommitFails => (db, Reply(id, Some(Failed)))
    case _ => (db, Reply(0, Some(Failed)))
  }

  /** The lists the user owns. */
  function Owned(db: Db, userId: int): set<int> {
    set id | id in db.lists && OwnsList(db, userId, id)
  }

  /** GetAll: every list joined to the user through `users_lists`, one row
      per list. */
  function GetAll(db: Db, userId: int, fails: bool): (r: Reply<seq<ListRow>>)
    ensures fails ==> r == Reply([], Some(Failed))
    ensures !fails ==> r.err == None
    ensures !fails ==> |r.value| == |Owned(db, userId)|
    ensures !fails ==> forall row :: row in r.value <==> exists id :: id in Owned(db, userId) && db.lists[id] == row
  {
    var st := Scoped(SelectRows, TodoListsTable, ViaUsersLists, [UserIdKey], [userId]);
    assert Pairs([UserIdKey], [userId]) == [(UserIdKey, userId)];
    SelectedOwnedBy(db, db.lists.Keys, userId);
    var q := Query(db, st, fails);
    if q.err.Some? then Reply([], q.err)
    else
      RowsOfSet(db.lists, q.value);
      Reply(Rows(db.lists, Ascending(q.value)), None)
  }

  /** GetById: the list, if the user owns it. */
  function GetById(db: Db, userId: int, listId: int, fails: bool): (r: Reply<ListRow>)
    ensures r.err == None <==> !fails && listId in db.lists && OwnsList(db, userId, listId)
    ensures r.err == None ==> r.value == db.lists[listId]
    ensures r.err != None ==> r.value == NoList && r.err == Some(if fails then Failed else NoRows)
  {
    var st := Scoped(SelectRows, TodoListsTable, ViaUsersLists, [UserIdKey, ListIdKey], [userId, listId]);
    TwoConditions(UserIdKey, ListIdKey, userId, listId, 1);
    SelectedOwnedList(db, db.lists.Keys, userId, listId, [(UserIdKey, userId), (ListIdKey, listId)]);
    var q := Query(db, st, fails);
    if q.err.Some? then Reply(NoList, q.err)
    else if q.value == {} then Reply(NoList, Some(NoRows))
    else Reply(db.lists[Min(q.value)], None)
  }

  /** Delete: remove the list row if the user owns it. Nothing else changes,
      the ownership pair included, and a delete that matches nothing is not
      an error. */
  function Delete(db: Db, userId: int, listId: int, fails: bool): (r: (Db, Option<DbError>))
    ensures r.1 == (if fails then Some(Failed) else None)
    ensures r.0.usersLists == db.usersLists && r.0.listsItems == db.listsItems && r.0.items == db.items
    ensures r.0.nextListId == db.nextListId && r.0.nextItemId == db.nextItemId
    ensures r.0.lists == if !fails && listId in db.lists && OwnsList(db, userId, listId)
                         then db.lists - {listId} else db.lists
    ensures Valid(db) ==> Valid(r.0)
  {
    var st := Scoped(DeleteRows, TodoListsTable, ViaUsersLists, [UserIdKey, ListIdKey], [userId, listId]);
    TwoConditions(UserIdKey, ListIdKey, userId, listId, 1);
    SelectedOwnedList(db, db.lists.Keys, userId, listId, [(UserIdKey, userId), (ListIdKey, listId)]);
    Exec(db, st, fails)
  }

  /** The statement Update builds, with its target table as a parameter. */
  function UpdateOn(target: Target, userId: int, listId: int, input: UpdateListInput): (st: Statement)
    ensures st.action.SetColumns? && st.target == target && st.join == ViaUsersLists
    ensures var n := |st.action.assigns|;
            && n == |Written(input)|
            && |st.args| == n + 2
            && (forall j :: 0 <= j < n ==> st.action.assigns[j].placeholder == j + 1)
            && st.where == [Condition(ListIdKey, n + 1), Condition(UserIdKey, n + 2)]
    ensures ArgsAgree(st)
    ensures ResolveSet(st.action.assigns, st.args) == Some(Written(input))
    ensures ResolveWhere(st.where, st.args) == Some([(ListIdKey, listId), (UserIdKey, userId)])
  {
    var fields := Fields(input);
    assert Present(fields) == Written(input);
    var st := PartialUpdate(target, ViaUsersLists, fields, [ListIdKey, UserIdKey], [listId, userId]);
    TwoConditions(ListIdKey, UserIdKey, listId, userId, |st.action.assigns| + 1);
    st
  }

  /** The statement list Update sends as written: its SET clause names
      `todo_items`, not `todo_lists`. */
  function UpdateStatementAsWritten(userId: int, listId: int, input: UpdateListInput): (st: Statement)
    ensures st.target == TodoItemsTable
    ensures ResolveWhere(st.where, st.args) == Some([(ListIdKey, listId), (UserIdKey, userId)])
  {
    UpdateOn(TodoItemsTable, userId, listId, input)
  }

  /** The corrected statement: the same SET and WHERE clauses applied to `todo_lists`. */
  function UpdateStatement(userId: int, listId: int, input: UpdateListInput): (st: Statement)
    ensures st.target == TodoListsTable
    ensures ResolveWhere(st.where, st.args) == Some([(ListIdKey, listId), (UserIdKey, userId)])
  {
    UpdateOn(TodoListsTable, userId, listId, input)
  }

  /** Running an update statement built for `input`: an empty SET clause is a
      syntax error, otherwise the input's fields are written to the rows the
      ownership join selects. */
  lemma UpdateOnEffect(db: Db, target: Target, userId: int, listId: int, input: UpdateListInput)
    ensures var r := Exec(db, UpdateOn(target, userId, listId, input), false);
            if input.title.None? && input.description.None? then r == (db, Some(SyntaxError))
            else r == (Write(db, target, ViaUsersLists, [(ListIdKey, listId), (UserIdKey, userId)], Written(input)), None)
  {
    if input.title.None? && input.description.None? {
      UpdateOnEmpty(db, target, userId, listId, input);
    } else {
      UpdateOnWrites(db, target, userId, listId, input);
    }
  }

  /** With no field set the SET clause is empty and the database refuses it. */
  lemma UpdateOnEmpty(db: Db, target: Target, userId: int, listId: int, input: UpdateListInput)
    requires input.title.None? && input.description.None?
    ensures Exec(db, UpdateOn(target, userId, listId, input), false) == (db, Some(SyntaxError))
  {
    var st := UpdateOn(target, userId, listId, input);
    assert st.action.assigns == [];
    assert !WellFormedSet(st.action.assigns);
  }

  /** With a field set the statement writes the resolved SET clause to the
      rows its WHERE clause selects. */
  lemma UpdateOnWrites(db: Db, target: Target, userId: int, listId: int, input: UpdateListInput)
    requires input.title.Some? || input.description.Some?
    ensures Exec(db, UpdateOn(target, userId, listId, input), false)
            == (Write(db, target, ViaUsersLists, [(ListIdKey, listId), (UserIdKey, userId)], Written(input)), None)
  {
    var st := UpdateOn(target, userId, listId, input);
    WrittenFits(input, target);
    ExecResolvedUpdate(db, st, [(ListIdKey, listId), (UserIdKey, userId)], Written(input));
  }

  /** An input with a field set writes something, each column at most
      once, and every value it writes is text, which either table accepts. */
  lemma WrittenFits(input: UpdateListInput, target: Target)
    ensures Written(input) == [] <==> input.title.None? && input.description.None?
    ensures var w := Written(input); forall i, j :: 0 <= i < j < |w| ==> w[i].0 != w[j].0
    ensures forall p :: p in Written(input) ==> Fits(target, p.0, p.1)
  {
    var w := Written(input);
    assert |w| <= 2 && (|w| == 2 ==> w[0].0 == TitleColumn && w[1].0 == DescriptionColumn);
    assert forall p :: p in w ==> p.1.Text?;
  }

  /** The SET clause built for `input` patches a row exactly as `Patch` and
      `PatchItem` say. */
  lemma SetWritten(input: UpdateListInput)
    ensures forall row :: SetList(row, Written(input)) == Patch(row, input)
    ensures forall row :: SetItem(row, Written(input)) == PatchItem(row, input)
  {
    var w := Written(input);
    assert Lookup(w, TitleColumn) == (if input.title.Some? then Some(Text(input.title.value)) else None);
    assert Lookup(w, DescriptionColumn) == (if input.description.Some? then Some(Text(input.description.value)) else None);
    LookupMissing(w, DoneColumn);
  }

  /** Update as written: the list rows never change; instead the `todo_items`
      row whose id equals `listId` is rewritten when the user owns list `listId`. */
  function UpdateAsWritten(db: Db, userId: int, listId: int, input: UpdateListInput, fails: bool): (r: (Db, Option<DbError>))
    ensures fails ==> r == (db, Some(Failed))
    ensures !fails && input.title.None? && input.description.None? ==> r == (db, Some(SyntaxError))
    ensures r.0.lists == db.lists
    ensures !fails && (input.title.Some? || input.description.Some?) ==>
              && r.1 == None
              && r.0 == db.(items := map id | id in db.items ::
                              if id == listId && OwnsList(db, userId, listId) then PatchItem(db.items[id], input) else db.items[id])
  {
    UpdateOnEffect(db, TodoItemsTable, userId, listId, input);
    SetWritten(input);
    SelectedOwnedList(db, db.items.Keys, userId, listId, [(ListIdKey, listId), (UserIdKey, userId)]);
    Exec(db, UpdateStatementAsWritten(userId, listId, input), fails)
  }

  /** Update (corrected target): a partial update of the list row, applied
      only when the user owns the list. Fields left unset keep their values,
      no other row changes, and an input with no field set is rejected by the
      database as a syntax error. */
  function Update(db: Db, userId: int, listId: int, input: UpdateListInput, fails: bool): (r: (Db, Option<DbError>))
    ensures fails ==> r == (db, Some(Failed))
    ensures !fails && input.title.None? && input.description.None? ==> r == (db, Some(SyntaxError))
    ensures !fails && (input.title.Some? || input.description.Some?) ==>
              && r.1 == None
              && r.0 == db.(lists := map id | id in db.lists ::
                              if id == listId && OwnsList(db, userId, listId) then Patch(db.lists[id], input) else db.lists[id])
    ensures Valid(db) ==> Valid(r.0)
  {
    UpdateOnEffect(db, TodoListsTable, userId, listId, input);
    SetWritten(input);
    SelectedOwnedList(db, db.lists.Keys, userId, listId, [(ListIdKey, listId), (UserIdKey, userId)]);
    Exec(db, UpdateStatement(userId, listId, input), fails)
  }
}
