/** `TodoItemPostgres`: the item repository. Reads, updates and deletes are
    scoped by the acting user two joins deep: the item must sit in a list
    (`lists_items`) that the user owns (`users_lists`). */
module TodoItemStore {
  import opened Options
  import opened Relational
  import opened SqlStatement
  import opened Executor

  /** Go `todo.UpdateItemInput`; a nil pointer is `None`. */
  datatype UpdateItemInput = UpdateItemInput(title: Option<string>, description: Option<string>, done: Option<bool>)

  /** The zero `todo.TodoItem` a failed single-row query leaves behind. */
  const NoItem := ItemRow(0, "", "", false)

  /** The optional fields of an item update, in declaration order. */
  function Fields(input: UpdateItemInput): seq<Field> {
    [ Field(TitleColumn, if input.title.Some? then Some(Text(input.title.value)) else None),
      Field(DescriptionColumn, if input.description.Some? then Some(Text(input.description.value)) else None),
      Field(DoneColumn, if input.done.Some? then Some(Flag(input.done.value)) else None) ]
  }

  /** What an item update must write: title, description, done, each only if set. */
  function Written(input: UpdateItemInput): seq<(Column, Value)> {
    (if input.title.Some? then [(TitleColumn, Text(input.title.value))] else [])
    + (if input.description.Some? then [(DescriptionColumn, Text(input.description.value))] else [])
    + (if input.done.Some? then [(DoneColumn, Flag(input.done.value))] else [])
  }

  predicate NothingSet(input: UpdateItemInput) {
    input.title.None? && input.description.None? && input.done.None?
  }

  /** An item row after a partial update: the fields that are set replace the
      old values, the others stay. */
  function Patch(row: ItemRow, input: UpdateItemInput): ItemRow {
    ItemRow(row.id, input.title.GetOr(row.title), input.description.GetOr(row.description), input.done.GetOr(row.done))
  }

  /** Create: insert the item, then the `(listId, id)` pair, in one
      transaction. Only title and description are inserted, so `done` takes
      the column default, false. No user is consulted. */
  function Create(db: Db, listId: int, item: ItemRow, fault: CreateFault): (r: (Db, Reply<int>))
    ensures fault != Healthy ==> r.0 == db && r.1.err == Some(Failed)
    ensures fault != Healthy && fault != CommitFails ==> r.1.value == 0
    ensures fault == Healthy ==> r.1.err == None
    ensures fault == Healthy ==>
              r.0 == db.(items := db.items[r.1.value := ItemRow(r.1.value, item.title, item.description, false)],
                         listsItems := db.listsItems + {(listId, r.1.value)},
                         nextItemId := r.0.nextItemId)
    ensures Valid(db) ==> Valid(r.0)
    ensures Valid(db) && (fault == Healthy || fault == CommitFails) ==>
              && r.1.value >= 1
              && r.1.value !in db.items
              && forall p :: p in db.listsItems ==> p.1 != r.1.value
  {
    var id := db.nextItemId;
    match fault
    case Healthy =>
      (db.(items := db.items[id := ItemRow(id, item.title, item.description, false)],
           listsItems := db.listsItems + {(listId, id)},
           nextItemId := id + 1),
       Reply(id, None))
    case CommitFails => (db, Reply(id, Some(Failed)))
    case _ => (db, Reply(0, Some(Failed)))
  }

  /** The items of list `listId`, provided the user owns that list. */
  function InList(db: Db, userId: int, listId: int): set<int> {
    set id | id in db.items && (listId, id) in db.listsItems && OwnsList(db, userId, listId)
  }

  /** A selected item as GetAll returns it: only title, description and done
      are selected, so the id keeps its zero value. */
  function Summary(row: ItemRow): ItemRow {
    row.(id := 0)
  }

  function Summaries(rows: seq<ItemRow>): seq<ItemRow> {
    seq(|rows|, k requires 0 <= k < |rows| => Summary(rows[k]))
  }

  lemma SummariesContent(rows: seq<ItemRow>)
    ensures forall row :: row in Summaries(rows) <==> exists x :: x in rows && Summary(x) == row
  {
    var r := Summaries(rows);
    forall row | row in r
      ensures exists x :: x in rows && Summary(x) == row
    {
      var k :| 0 <= k < |r| && r[k] == row;
      assert rows[k] in rows;
    }
    forall x | x in rows
      ensures Summary(x) in r
    {
      var k :| 0 <= k < |rows| && rows[k] == x;
      assert r[k] == Summary(x);
    }
  }

  /** `ids` lists distinct ids of `s`, and `rows[k]` is the summary of item `ids[k]`. */
  predicate ItemsInOrder(db: Db, s: set<int>, rows: seq<ItemRow>, ids: seq<int>) {
    && |ids| == |rows|
    && (forall i, j :: 0 <= i < j < |ids| ==> ids[i] != ids[j])
    && (forall k :: 0 <= k < |ids| ==> ids[k] in s && ids[k] in db.items && rows[k] == Summary(db.items[ids[k]]))
  }

  /** `rows` holds one summary for each item of `s` and nothing else. */
  ghost predicate OnePerItem(db: Db, s: set<int>, rows: seq<ItemRow>) {
    exists ids: seq<int> :: ItemsInOrder(db, s, rows, ids)
  }

  /** The summaries of the rows under `s`, in ascending id order, are one
      per item of `s`. */
  lemma SummariesOnePerItem(db: Db, s: set<int>)
    requires s <= db.items.Keys
    ensures forall k :: 0 <= k < |Ascending(s)| ==> Ascending(s)[k] in db.items
    ensures OnePerItem(db, s, Summaries(Rows(db.items, Ascending(s))))
  {
    var ids := Ascending(s);
    forall k | 0 <= k < |ids|
      ensures ids[k] in s && ids[k] in db.items
    {
      assert ids[k] in ids;
    }
    var table := Rows(db.items, ids);
    var rows := Summaries(table);
    assert |rows| == |ids|;
    forall k | 0 <= k < |ids|
      ensures rows[k] == Summary(db.items[ids[k]])
    {
      assert table[k] == db.items[ids[k]];
    }
    assert ItemsInOrder(db, s, rows, ids);
  }

  /** GetAll: the items of the list, one row per item, when the user owns the
      list; nothing otherwise. */
  function GetAll(db: Db, userId: int, listId: int, fails: bool): (r: Reply<seq<ItemRow>>)
    ensures fails ==> r == Reply([], Some(Failed))
    ensures !fails ==> r.err == None
    ensures !fails ==> |r.value| == |InList(db, userId, listId)|
    ensures !fails ==> forall row :: row in r.value <==> exists id :: id in InList(db, userId, listId) && Summary(db.items[id]) == row
    ensures forall row :: row in r.value ==> row.id == 0
    ensures !fails ==> OnePerItem(db, InList(db, userId, listId), r.value)
  {
    var st := Scoped(SelectRows, TodoItemsTable, ViaListsItems, [ListIdKey, UserIdKey], [listId, userId]);
    TwoConditions(ListIdKey, UserIdKey, listId, userId, 1);
    SelectedListItems(db, db.items.Keys, userId, listId);
    var q := Query(db, st, fails);
    if q.err.Some? then Reply([], q.err)
    else
      RowsOfSet(db.items, q.value);
      var rows := Rows(db.items, Ascending(q.value));
      var r := Summaries(rows);
      SummariesContent(rows);
      SummariesOnePerItem(db, q.value);
      Reply(r, None)
  }

  /** A list holding exactly one item the user may see is read as that
      one item. */
  lemma GetAllSingle(db: Db, userId: int, listId: int, id: int)
    requires InList(db, userId, listId) == {id}
    ensures GetAll(db, userId, listId, false) == Reply([Summary(db.items[id])], None)
  {
    var all := GetAll(db, userId, listId, false).value;
    assert |all| == 1;
    assert all[0] in all;
    assert all == [all[0]];
  }

  /** GetById: the item, if the user reaches it through one of the user's lists. */
  function GetById(db: Db, userId: int, itemId: int, fails: bool): (r: Reply<ItemRow>)
    ensures r.err == None <==> !fails && itemId in db.items && ReachesItem(db, userId, itemId)
    ensures r.err == None ==> r.value == db.items[itemId]
    ensures r.err != None ==> r.value == NoItem && r.err == Some(if fails then Failed else NoRows)
  {
    var st := Scoped(SelectRows, TodoItemsTable, ViaListsItems, [RowIdKey, UserIdKey], [itemId, userId]);
    TwoConditions(RowIdKey, UserIdKey, itemId, userId, 1);
    SelectedReachableItem(db, db.items.Keys, userId, itemId, [(RowIdKey, itemId), (UserIdKey, userId)]);
    var q := Query(db, st, fails);
    if q.err.Some? then Reply(NoItem, q.err)
    else if q.value == {} then Reply(NoItem, Some(NoRows))
    else Reply(db.items[Min(q.value)], None)
  }

  /** Delete: remove the item row if the user reaches it. The relation
      tables are untouched and a delete that matches nothing is not an error. */
  function Delete(db: Db, userId: int, itemId: int, fails: bool): (r: (Db, Option<DbError>))
    ensures r.1 == (if fails then Some(Failed) else None)
    ensures r.0.usersLists == db.usersLists && r.0.listsItems == db.listsItems && r.0.lists == db.lists
    ensures r.0.nextListId == db.nextListId && r.0.nextItemId == db.nextItemId
    ensures r.0.items == if !fails && itemId in db.items && ReachesItem(db, userId, itemId)
                         then db.items - {itemId} else db.items
    ensures Valid(db) ==> Valid(r.0)
  {
    var st := DeleteStatement(userId, itemId);
    SelectedReachableItem(db, db.items.Keys, userId, itemId, [(UserIdKey, userId), (RowIdKey, itemId)]);
    if fails then Exec(db, st, fails)
    else
      ExecDelete(db, st, [(UserIdKey, userId), (RowIdKey, itemId)]);
      Exec(db, st, fails)
  }

  /** The delete statement: `ul.user_id = $1 and ti.id = $2` bound to
      `userId, itemId`, so each placeholder meets the id meant for it. */
  function DeleteStatement(userId: int, itemId: int): (st: Statement)
    ensures st.action == DeleteRows && st.target == TodoItemsTable && st.join == ViaListsItems
    ensures ArgsAgree(st)
    ensures ResolveWhere(st.where, st.args) == Some([(UserIdKey, userId), (RowIdKey, itemId)])
  {
    TwoConditions(UserIdKey, RowIdKey, userId, itemId, 1);
    Scoped(DeleteRows, TodoItemsTable, ViaListsItems, [UserIdKey, RowIdKey], [userId, itemId])
  }

  /** The update statement: the builder's SET clause, then
      `ul.user_id=$(n+1) and ti.id=$(n+2)`, with `scope` appended to the
      arguments. */
  function UpdateOn(userId: int, itemId: int, input: UpdateItemInput, scope: seq<int>): (st: Statement)
    requires |scope| == 2
    ensures st.action.SetColumns? && st.target == TodoItemsTable && st.join == ViaListsItems
    ensures var n := |st.action.assigns|;
            && n == |Written(input)|
            && |st.args| == n + 2
            && (forall j :: 0 <= j < n ==> st.action.assigns[j].placeholder == j + 1)
            && st.where == [Condition(UserIdKey, n + 1), Condition(RowIdKey, n + 2)]
    ensures ArgsAgree(st)
    ensures ResolveSet(st.action.assigns, st.args) == Some(Written(input))
    ensures ResolveWhere(st.where, st.args) == Some([(UserIdKey, scope[0]), (RowIdKey, scope[1])])
  {
    var fields := Fields(input);
    FieldsPresent(input);
    var st := PartialUpdate(TodoItemsTable, ViaListsItems, fields, [UserIdKey, RowIdKey], scope);
    assert scope == [scope[0], scope[1]];
    TwoConditions(UserIdKey, RowIdKey, scope[0], scope[1], |st.action.assigns| + 1);
    st
  }

  /** The builder keeps exactly the fields the input sets, in column order. */
  lemma FieldsPresent(input: UpdateItemInput)
    ensures Present(Fields(input)) == Written(input)
  {
    var fields := Fields(input);
    PresentAppend([fields[0]], [fields[1], fields[2]]);
    PresentAppend([fields[1]], [fields[2]]);
    assert fields == [fields[0]] + ([fields[1]] + [fields[2]]);
  }

  /** The statement item Update sends as written: the ids are appended as
      `itemId, userId`, so `ul.user_id` is compared with the item id and
      `ti.id` with the user id. */
  function UpdateStatementAsWritten(userId: int, itemId: int, input: UpdateItemInput): (st: Statement)
    ensures ResolveWhere(st.where, st.args) == Some([(UserIdKey, itemId), (RowIdKey, userId)])
  {
    UpdateOn(userId, itemId, input, [itemId, userId])
  }

  /** The corrected statement: the ids appended as `userId, itemId`, matching
      the order of the WHERE placeholders. */
  function UpdateStatement(userId: int, itemId: int, input: UpdateItemInput): (st: Statement)
    ensures ResolveWhere(st.where, st.args) == Some([(UserIdKey, userId), (RowIdKey, itemId)])
  {
    UpdateOn(userId, itemId, input, [userId, itemId])
  }

  /** Running an update statement built for `input`: an empty SET clause is a
      syntax error, otherwise the input's fields are written to the rows the
      two-join scope selects for the bound ids. */
  lemma UpdateOnEffect(db: Db, userId: int, itemId: int, input: UpdateItemInput, scope: seq<int>)
    requires |scope| == 2
    ensures var r := Exec(db, UpdateOn(userId, itemId, input, scope), false);
            if NothingSet(input) then r == (db, Some(SyntaxError))
            else r == (Write(db, TodoItemsTable, ViaListsItems, [(UserIdKey, scope[0]), (RowIdKey, scope[1])], Written(input)), None)
  {
    if NothingSet(input) {
      UpdateOnEmpty(db, userId, itemId, input, scope);
    } else {
      UpdateOnWrites(db, userId, itemId, input, scope);
    }
  }

  /** With no field set the SET clause is empty and the database refuses it. */
  lemma UpdateOnEmpty(db: Db, userId: int, itemId: int, input: UpdateItemInput, scope: seq<int>)
    requires |scope| == 2 && NothingSet(input)
    ensures Exec(db, UpdateOn(userId, itemId, input, scope), false) == (db, Some(SyntaxError))
  {
    var st := UpdateOn(userId, itemId, input, scope);
    assert st.action.assigns == [];
    assert !WellFormedSet(st.action.assigns);
  }

  /** With a field set the statement writes the resolved SET clause to the
      rows its WHERE clause selects. */
  lemma UpdateOnWrites(db: Db, userId: int, itemId: int, input: UpdateItemInput, scope: seq<int>)
    requires |scope| == 2 && !NothingSet(input)
    ensures Exec(db, UpdateOn(userId, itemId, input, scope), false)
            == (Write(db, TodoItemsTable, ViaListsItems, [(UserIdKey, scope[0]), (RowIdKey, scope[1])], Written(input)), None)
  {
    var st := UpdateOn(userId, itemId, input, scope);
    WrittenDistinct(input);
    WrittenFits(input);
    ExecResolvedUpdate(db, st, [(UserIdKey, scope[0]), (RowIdKey, scope[1])], Written(input));
  }

  /** An input with a field set writes something, and every value it
      writes has its column's type. */
  lemma WrittenFits(input: UpdateItemInput)
    ensures Written(input) == [] <==> NothingSet(input)
    ensures forall p :: p in Written(input) ==> Fits(TodoItemsTable, p.0, p.1)
  {
    var a := if input.title.Some? then [(TitleColumn, Text(input.title.value))] else [];
    var b := if input.description.Some? then [(DescriptionColumn, Text(input.description.value))] else [];
    var c := if input.done.Some? then [(DoneColumn, Flag(input.done.value))] else [];
    assert Written(input) == a + b + c;
    forall p: (Column, Value) | p in a + b + c
      ensures Fits(TodoItemsTable, p.0, p.1)
    {
      assert p in a || p in b || p in c;
    }
  }

  /** The SET clause built for `input` patches a row exactly as `Patch` says. */
  lemma SetWritten(input: UpdateItemInput)
    ensures forall row :: SetItem(row, Written(input)) == Patch(row, input)
  {
    var a := if input.title.Some? then [(TitleColumn, Text(input.title.value))] else [];
    var b := if input.description.Some? then [(DescriptionColumn, Text(input.description.value))] else [];
    var c := if input.done.Some? then [(DoneColumn, Flag(input.done.value))] else [];
    assert Written(input) == a + b + c;
    LookupAppend(a + b, c, TitleColumn);
    LookupAppend(a, b, TitleColumn);
    LookupAppend(a + b, c, DescriptionColumn);
    LookupAppend(a, b, DescriptionColumn);
    LookupAppend(a + b, c, DoneColumn);
    LookupAppend(a, b, DoneColumn);
  }

  /** The columns an item update writes are distinct. */
  lemma WrittenDistinct(input: UpdateItemInput)
    ensures var w := Written(input); forall i, j :: 0 <= i < j < |w| ==> w[i].0 != w[j].0
  {
    var t := input.title.Some?;
    var d := input.description.Some?;
    var f := input.done.Some?;
    var w := Written(input);
    if t && d && f {
      assert w == [(TitleColumn, Text(input.title.value)), (DescriptionColumn, Text(input.description.value)), (DoneColumn, Flag(input.done.value))];
    } else if t && d {
      assert w == [(TitleColumn, Text(input.title.value)), (DescriptionColumn, Text(input.description.value))];
    } else if t && f {
      assert w == [(TitleColumn, Text(input.title.value)), (DoneColumn, Flag(input.done.value))];
    } else if d && f {
      assert w == [(DescriptionColumn, Text(input.description.value)), (DoneColumn, Flag(input.done.value))];
    } else {
      assert |w| <= 1;
    }
  }

  /** Update as written: the row rewritten is the item whose id equals
      `userId`, and only when the user whose id equals `itemId` reaches it. */
  function UpdateAsWritten(db: Db, userId: int, itemId: int, input: UpdateItemInput, fails: bool): (r: (Db, Option<DbError>))
    ensures fails ==> r == (db, Some(Failed))
    ensures !fails && NothingSet(input) ==> r == (db, Some(SyntaxError))
    ensures !fails && !NothingSet(input) ==>
              && r.1 == None
              && r.0 == db.(items := map id | id in db.items ::
                              if id == userId && ReachesItem(db, itemId, userId) then Patch(db.items[id], input) else db.items[id])
  {
    UpdateOnEffect(db, userId, itemId, input, [itemId, userId]);
    SetWritten(input);
    SelectedReachableItem(db, db.items.Keys, itemId, userId, [(UserIdKey, itemId), (RowIdKey, userId)]);
    Exec(db, UpdateStatementAsWritten(userId, itemId, input), fails)
  }

  /** Update (corrected binding): a partial update of the item row, applied
      only when the user reaches the item. Fields left unset keep their
      values, no other row changes, and an input with no field set is
      rejected by the database as a syntax error. */
  function Update(db: Db, userId: int, itemId: int, input: UpdateItemInput, fails: bool): (r: (Db, Option<DbError>))
    ensures fails ==> r == (db, Some(Failed))
    ensures !fails && NothingSet(input) ==> r == (db, Some(SyntaxError))
    ensures !fails && !NothingSet(input) ==>
              && r.1 == None
              && r.0 == db.(items := map id | id in db.items ::
                              if id == itemId && ReachesItem(db, userId, itemId) then Patch(db.items[id], input) else db.items[id])
    ensures Valid(db) ==> Valid(r.0)
  {
    var st := UpdateStatement(userId, itemId, input);
    if fails || NothingSet(input) then
      UpdateOnEffect(db, userId, itemId, input, [userId, itemId]);
      Exec(db, st, fails)
    else
      UpdateOnWrites(db, userId, itemId, input, [userId, itemId]);
      SetWritten(input);
      SelectedReachableItem(db, db.items.Keys, userId, itemId, [(UserIdKey, userId), (RowIdKey, itemId)]);
      Exec(db, st, fails)
  }
}
