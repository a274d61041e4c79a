/** The relational state the repository layer works on: the two entity
    tables `todo_lists` and `todo_items`, the two relation tables
    `users_lists` and `lists_items`, and the serial counters that supply
    fresh ids. */
module Relational {
  import opened Options

  /** A row of `todo_lists` (Go `todo.TodoList`). */
  datatype ListRow = ListRow(id: int, title: string, description: string)

  /** A row of `todo_items` (Go `todo.TodoItem`). */
  datatype ItemRow = ItemRow(id: int, title: string, description: string, done: bool)

  /** The whole database. `usersLists` holds `(user_id, list_id)` pairs and
      `listsItems` holds `(list_id, item_id)` pairs. */
  datatype Db = Db(
    lists: map<int, ListRow>,
    items: map<int, ItemRow>,
    usersLists: set<(int, int)>,
    listsItems: set<(int, int)>,
    nextListId: int,
    nextItemId: int)

  /** What a failed statement hands back to the caller. */
  datatype DbError =
    | Failed        // the connection, the transaction or a constraint failed
    | NoRows        // a single-row query matched nothing (sql.ErrNoRows)
    | SyntaxError   // the statement text does not parse
    | Rejected      // placeholders and arguments disagree, or a value does not fit its column

  /** A Go `(value, error)` pair. */
  datatype Reply<T> = Reply(value: T, err: Option<DbError>)

  /** Transaction step at which an injected failure strikes a two-insert create. */
  datatype CreateFault = Healthy | BeginFails | InsertFails | LinkFails | CommitFails

  /** Each row is stored under its own id; serial ids start at 1 and every id
      used so far, in a table or a relation, lies below the next serial value. */
  ghost predicate Valid(db: Db) {
    && 1 <= db.nextListId
    && 1 <= db.nextItemId
    && (forall id :: id in db.lists ==> db.lists[id].id == id && 1 <= id < db.nextListId)
    && (forall id :: id in db.items ==> db.items[id].id == id && 1 <= id < db.nextItemId)
    && (forall p :: p in db.usersLists ==> p.1 < db.nextListId)
    && (forall p :: p in db.listsItems ==> p.1 < db.nextItemId)
  }

  /** The user reaches the list through `users_lists`. */
  predicate OwnsList(db: Db, userId: int, listId: int) {
    (userId, listId) in db.usersLists
  }

  /** The user reaches the item through one of the user's lists:
      `users_lists` followed by `lists_items`. */
  predicate ReachesItem(db: Db, userId: int, itemId: int) {
    exists q :: q in db.usersLists && q.0 == userId && (q.1, itemId) in db.listsItems
  }

  /** The least element, found by removing one element and comparing it
      with the least of the rest. */
  lemma {:induction false} LeastOf(s: set<int>) returns (m: int)
    requires s != {}
    ensures m in s && forall y :: y in s ==> m <= y
  {
    var x := Pick(s);
    var rest := s - {x};
    if rest == {} {
      m := x;
      forall y | y in s
        ensures x <= y
      {
        assert y !in rest;
      }
    } else {
      var r := LeastOf(rest);
      m := if x < r then x else r;
      forall y | y in s
        ensures m <= y
      {
        if y != x {
          assert y in rest;
        }
      }
    }
  }

  /** Some element of a non-empty set. */
  ghost function Pick(s: set<int>): (x: int)
    requires s != {}
    ensures x in s
  {
    if exists x :: x in s then
      var x :| x in s; x
    else
      assert false; 0
  }

  /** The least element of a non-empty set of ids. */
  function Min(s: set<int>): (m: int)
    requires s != {}
    ensures m in s && forall y :: y in s ==> m <= y
  {
    assert exists m :: m in s && forall y :: y in s ==> m <= y by {
      var least := LeastOf(s);
    }
    var m :| m in s && forall y :: y in s ==> m <= y;
    m
  }

  /** The ids of `s` in ascending order: the order the model fixes for rows a
      query returns, where the database leaves it unspecified. */
  function Ascending(s: set<int>): (r: seq<int>)
    ensures |r| == |s|
    ensures forall x :: x in r <==> x in s
    ensures forall i, j :: 0 <= i < j < |r| ==> r[i] < r[j]
    decreases |s|
  {
    if s == {} then []
    else
      var m := Min(s);
      [m] + Ascending(s - {m})
  }

  /** The rows stored under `ids`, in the order of `ids`. */
  function Rows<R>(table: map<int, R>, ids: seq<int>): (r: seq<R>)
    requires forall k :: 0 <= k < |ids| ==> ids[k] in table
    ensures |r| == |ids|
    ensures forall k :: 0 <= k < |ids| ==> r[k] == table[ids[k]]
  {
    if ids == [] then [] else [table[ids[0]]] + Rows(table, ids[1..])
  }

  /** The rows under a set of ids, in ascending id order: one row per id. */
  lemma RowsOfSet<R>(table: map<int, R>, s: set<int>)
    requires s <= table.Keys
    ensures forall k :: 0 <= k < |Ascending(s)| ==> Ascending(s)[k] in table
    ensures |Rows(table, Ascending(s))| == |s|
    ensures forall row :: row in Rows(table, Ascending(s)) <==> exists id :: id in s && table[id] == row
  {
    var ids := Ascending(s);
    assert forall k :: 0 <= k < |ids| ==> ids[k] in ids;
    var r := Rows(table, ids);
    forall row | row in r
      ensures exists id :: id in s && table[id] == row
    {
      var k :| 0 <= k < |r| && r[k] == row;
      assert ids[k] in ids;
    }
    forall id | id in s
      ensures table[id] in r
    {
      var k :| 0 <= k < |ids| && ids[k] == id;
      assert r[k] == table[id];
    }
  }
}
