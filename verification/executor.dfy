/** What the database does with a joined `UPDATE … FROM` or
    `DELETE … USING` statement: it binds the placeholders, selects the
    target rows that take part in a join row satisfying the WHERE clause,
    and rewrites or removes exactly those rows. Each statement runs
    atomically; a failed one changes nothing. */
module Executor {
  import opened Options
  import opened Relational
  import opened SqlStatement

  /** The value a scoping column takes in the join row made of target row
      `rowId` and the `users_lists` pair `(userId, listId)`. */
  function KeyValue(key: Key, rowId: int, userId: int, listId: int): int {
    match key
    case UserIdKey => userId
    case ListIdKey => listId
    case RowIdKey => rowId
  }

  predicate Satisfies(conds: seq<(Key, int)>, rowId: int, userId: int, listId: int) {
    forall c :: c in conds ==> KeyValue(c.0, rowId, userId, listId) == c.1
  }

  /** The join condition between a `users_lists` list id and the target row. */
  predicate Linked(db: Db, join: Join, listId: int, rowId: int) {
    match join
    case ViaUsersLists => listId == rowId
    case ViaListsItems => (listId, rowId) in db.listsItems
  }

  /** Some join row the target row takes part in satisfies every condition. */
  predicate Matches(db: Db, join: Join, conds: seq<(Key, int)>, rowId: int) {
    exists q :: q in db.usersLists && Linked(db, join, q.1, rowId) && Satisfies(conds, rowId, q.0, q.1)
  }

  /** The target rows the statement acts on. */
  function Selected(db: Db, ids: set<int>, join: Join, conds: seq<(Key, int)>): (s: set<int>)
    ensures s <= ids
  {
    set x | x in ids && Matches(db, join, conds, x)
  }

  /** The target table has the column and the value has the column's type. */
  predicate Fits(target: Target, c: Column, v: Value) {
    match c
    case TitleColumn => v.Text?
    case DescriptionColumn => v.Text?
    case DoneColumn => target == TodoItemsTable && v.Flag?
  }

  /** The value the SET clause gives column `c`, if it sets it. */
  function Lookup(sets: seq<(Column, Value)>, c: Column): Option<Value> {
    if sets == [] then None
    else if sets[0].0 == c then Some(sets[0].1)
    else Lookup(sets[1..], c)
  }

  lemma LookupMissing(sets: seq<(Column, Value)>, c: Column)
    requires forall p :: p in sets ==> p.0 != c
    ensures Lookup(sets, c) == None
  {
    if sets != [] {
      assert sets[0] in sets;
      LookupMissing(sets[1..], c);
    }
  }

  lemma {:induction false} LookupAppend(a: seq<(Column, Value)>, b: seq<(Column, Value)>, c: Column)
    ensures Lookup(a + b, c) == if Lookup(a, c).Some? then Lookup(a, c) else Lookup(b, c)
  {
    if a != [] {
      assert (a + b)[1..] == a[1..] + b;
      LookupAppend(a[1..], b, c);
    } else {
      assert a + b == b;
    }
  }

  function TextOr(v: Option<Value>, current: string): string {
    if v.Some? && v.value.Text? then v.value.s else current
  }

  function FlagOr(v: Option<Value>, current: bool): bool {
    if v.Some? && v.value.Flag? then v.value.b else current
  }

  /** A list row after the SET clause: set columns take their new values. */
  function SetList(row: ListRow, sets: seq<(Column, Value)>): ListRow {
    ListRow(row.id, TextOr(Lookup(sets, TitleColumn), row.title), TextOr(Lookup(sets, DescriptionColumn), row.description))
  }

  /** An item row after the SET clause: set columns take their new values. */
  function SetItem(row: ItemRow, sets: seq<(Column, Value)>): ItemRow {
    ItemRow(row.id, TextOr(Lookup(sets, TitleColumn), row.title),
            TextOr(Lookup(sets, DescriptionColumn), row.description),
            FlagOr(Lookup(sets, DoneColumn), row.done))
  }

  function Remove(db: Db, target: Target, join: Join, conds: seq<(Key, int)>): Db {
    match target
    case TodoListsTable => db.(lists := db.lists - Selected(db, db.lists.Keys, join, conds))
    case TodoItemsTable => db.(items := db.items - Selected(db, db.items.Keys, join, conds))
  }

  function Write(db: Db, target: Target, join: Join, conds: seq<(Key, int)>, sets: seq<(Column, Value)>): Db {
    match target
    case TodoListsTable =>
      var s := Selected(db, db.lists.Keys, join, conds);
      db.(lists := map x | x in db.lists :: if x in s then SetList(db.lists[x], sets) else db.lists[x])
    case TodoItemsTable =>
      var s := Selected(db, db.items.Keys, join, conds);
      db.(items := map x | x in db.items :: if x in s then SetItem(db.items[x], sets) else db.items[x])
  }

  function TableIds(db: Db, target: Target): set<int> {
    match target
    case TodoListsTable => db.lists.Keys
    case TodoItemsTable => db.items.Keys
  }

  /** The ids of the target rows a `SELECT` returns (`db.Select` / `db.Get`),
      with `fails` standing for a failure of the database itself. */
  function Query(db: Db, st: Statement, fails: bool): (r: Reply<set<int>>)
    ensures r.value <= TableIds(db, st.target)
    ensures fails ==> r.err == Some(Failed)
  {
    if fails then Reply({}, Some(Failed))
    else if !ArgsAgree(st) then Reply({}, Some(Rejected))
    else match ResolveWhere(st.where, st.args)
      case None => Reply({}, Some(Rejected))
      case Some(conds) => Reply(Selected(db, TableIds(db, st.target), st.join, conds), None)
  }

  /** `db.Exec(query, args...)`, with `fails` standing for a failure of the
      database itself. The error is all the caller sees; the count of rows
      affected is discarded by every caller. */
  function Exec(db: Db, st: Statement, fails: bool): (r: (Db, Option<DbError>))
    ensures fails ==> r.1 == Some(Failed)
    ensures r.1.Some? ==> r.0 == db
    ensures r.0.usersLists == db.usersLists && r.0.listsItems == db.listsItems
    ensures r.0.nextListId == db.nextListId && r.0.nextItemId == db.nextItemId
    ensures st.target == TodoListsTable ==> r.0.items == db.items
    ensures st.target == TodoItemsTable ==> r.0.lists == db.lists
    ensures Valid(db) ==> Valid(r.0)
  {
    if fails then (db, Some(Failed))
    else if st.action.SetColumns? && !WellFormedSet(st.action.assigns) then (db, Some(SyntaxError))
    else if !ArgsAgree(st) then (db, Some(Rejected))
    else match ResolveWhere(st.where, st.args)
      case None => (db, Some(Rejected))
      case Some(conds) =>
        match st.action
        case SelectRows => (db, None)
        case DeleteRows => (Remove(db, st.target, st.join, conds), None)
        case SetColumns(assigns) =>
          match ResolveSet(assigns, st.args)
          case None => (db, Some(Rejected))
          case Some(sets) =>
            if forall p :: p in sets ==> Fits(st.target, p.0, p.1) then
              (Write(db, st.target, st.join, conds, sets), None)
            else
              (db, Some(Rejected))
  }

  /** Joined directly through `users_lists` and scoped by user and list, a
      statement selects the list id exactly when that user owns it. */
  lemma SelectedOwnedList(db: Db, ids: set<int>, userId: int, listId: int, conds: seq<(Key, int)>)
    requires conds == [(UserIdKey, userId), (ListIdKey, listId)] || conds == [(ListIdKey, listId), (UserIdKey, userId)]
    ensures Selected(db, ids, ViaUsersLists, conds) == if listId in ids && OwnsList(db, userId, listId) then {listId} else {}
  {
    var s := Selected(db, ids, ViaUsersLists, conds);
    assert (UserIdKey, userId) in conds && (ListIdKey, listId) in conds;
    forall x | x in s
      ensures x == listId && OwnsList(db, userId, listId)
    {
      var q :| q in db.usersLists && Linked(db, ViaUsersLists, q.1, x) && Satisfies(conds, x, q.0, q.1);
      assert KeyValue(UserIdKey, x, q.0, q.1) == userId;
      assert KeyValue(ListIdKey, x, q.0, q.1) == listId;
    }
    if listId in ids && OwnsList(db, userId, listId) {
      var q := (userId, listId);
      assert Satisfies(conds, listId, q.0, q.1);
      assert Matches(db, ViaUsersLists, conds, listId);
    }
  }

  /** Joined through `lists_items` and `users_lists` and scoped by user and
      row id, a statement selects the row exactly when that user reaches it. */
  lemma SelectedReachableItem(db: Db, ids: set<int>, userId: int, rowId: int, conds: seq<(Key, int)>)
    requires conds == [(UserIdKey, userId), (RowIdKey, rowId)] || conds == [(RowIdKey, rowId), (UserIdKey, userId)]
    ensures Selected(db, ids, ViaListsItems, conds) == if rowId in ids && ReachesItem(db, userId, rowId) then {rowId} else {}
  {
    var s := Selected(db, ids, ViaListsItems, conds);
    assert (UserIdKey, userId) in conds && (RowIdKey, rowId) in conds;
    forall x | x in s
      ensures x == rowId && ReachesItem(db, userId, rowId)
    {
      var q :| q in db.usersLists && Linked(db, ViaListsItems, q.1, x) && Satisfies(conds, x, q.0, q.1);
      assert KeyValue(UserIdKey, x, q.0, q.1) == userId;
      assert KeyValue(RowIdKey, x, q.0, q.1) == rowId;
    }
    if rowId in ids && ReachesItem(db, userId, rowId) {
      var q :| q in db.usersLists && q.0 == userId && (q.1, rowId) in db.listsItems;
      assert Satisfies(conds, rowId, q.0, q.1);
      assert Matches(db, ViaListsItems, conds, rowId);
    }
  }

  /** Joined through `users_lists` and scoped by user alone, a query selects
      every list that user owns. */
  lemma SelectedOwnedBy(db: Db, ids: set<int>, userId: int)
    ensures Selected(db, ids, ViaUsersLists, [(UserIdKey, userId)]) == set x | x in ids && OwnsList(db, userId, x)
  {
    var conds := [(UserIdKey, userId)];
    forall x | x in ids && OwnsList(db, userId, x)
      ensures Matches(db, ViaUsersLists, conds, x)
    {
      var q := (userId, x);
      assert Satisfies(conds, x, q.0, q.1);
    }
  }

  /** Joined through `lists_items` and `users_lists` and scoped by list and
      user, a query selects the list's items when the user owns the list, and
      nothing otherwise. */
  lemma SelectedListItems(db: Db, ids: set<int>, userId: int, listId: int)
    ensures Selected(db, ids, ViaListsItems, [(ListIdKey, listId), (UserIdKey, userId)])
            == set x | x in ids && (listId, x) in db.listsItems && OwnsList(db, userId, listId)
  {
    var conds := [(ListIdKey, listId), (UserIdKey, userId)];
    forall x | x in Selected(db, ids, ViaListsItems, conds)
      ensures (listId, x) in db.listsItems && OwnsList(db, userId, listId)
    {
      var q :| q in db.usersLists && Linked(db, ViaListsItems, q.1, x) && Satisfies(conds, x, q.0, q.1);
      assert KeyValue(ListIdKey, x, q.0, q.1) == listId;
      assert KeyValue(UserIdKey, x, q.0, q.1) == userId;
    }
    forall x | x in ids && (listId, x) in db.listsItems && OwnsList(db, userId, listId)
      ensures Matches(db, ViaListsItems, conds, x)
    {
      var q := (userId, listId);
      assert Satisfies(conds, x, q.0, q.1);
    }
  }

  /** A fully bound update whose SET clause resolves to a non-empty list of
      distinct columns, each given a value of its type, is accepted and
      writes those values to the selected rows. */
  lemma ExecResolvedUpdate(db: Db, st: Statement, conds: seq<(Key, int)>, sets: seq<(Column, Value)>)
    requires st.action.SetColumns? && ArgsAgree(st)
    requires ResolveWhere(st.where, st.args) == Some(conds)
    requires ResolveSet(st.action.assigns, st.args) == Some(sets)
    requires sets != []
    requires forall i, j :: 0 <= i < j < |sets| ==> sets[i].0 != sets[j].0
    requires forall p :: p in sets ==> Fits(st.target, p.0, p.1)
    ensures Exec(db, st, false) == (Write(db, st.target, st.join, conds, sets), None)
  {
    var assigns := st.action.assigns;
    forall j | 0 <= j < |assigns|
      ensures assigns[j].column == sets[j].0
    {
      ResolveSetColumn(assigns, st.args, sets, j);
    }
    ColumnsWellFormed(assigns, sets);
  }

  /** A fully bound delete removes the selected rows. */
  lemma ExecDelete(db: Db, st: Statement, conds: seq<(Key, int)>)
    requires st.action.DeleteRows? && ArgsAgree(st)
    requires ResolveWhere(st.where, st.args) == Some(conds)
    ensures Exec(db, st, false) == (Remove(db, st.target, st.join, conds), None)
  {
  }
}
