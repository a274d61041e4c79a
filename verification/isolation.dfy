/** Properties that relate several repository operations: what a create
    makes visible, what a user who does not own a list or item can see or
    change, and the two statements whose as-written form breaks these. */
module Isolation {
  import opened Options
  import opened Relational
  import opened SqlStatement
  import Lists = TodoListStore
  import Items = TodoItemStore

  /** A list created by a user is then read back by that user with the
      title and description it was created with, and is among the user's lists. */
  lemma ListCreateThenRead(db: Db, userId: int, list: ListRow)
    requires Valid(db)
    ensures var (db', r) := Lists.Create(db, userId, list, Healthy);
            && Lists.GetById(db', userId, r.value, false) == Reply(ListRow(r.value, list.title, list.description), None)
            && ListRow(r.value, list.title, list.description) in Lists.GetAll(db', userId, false).value
  {
    var (db', r) := Lists.Create(db, userId, list, Healthy);
    assert r.value in Lists.Owned(db', userId);
  }

  /** An item created in a list its user owns is then read back by that
      user with its title and description, and `done` false. */
  lemma ItemCreateThenRead(db: Db, userId: int, listId: int, item: ItemRow)
    requires Valid(db)
    requires OwnsList(db, userId, listId)
    ensures var (db', r) := Items.Create(db, listId, item, Healthy);
            Items.GetById(db', userId, r.value, false) == Reply(ItemRow(r.value, item.title, item.description, false), None)
  {
    var (db', r) := Items.Create(db, listId, item, Healthy);
    assert (userId, listId) in db'.usersLists && (listId, r.value) in db'.listsItems;
    assert ReachesItem(db', userId, r.value);
  }

  /** After a delete, the same user can no longer read the list: either it
      was theirs and is gone, or it never was. */
  lemma ListDeleteThenRead(db: Db, userId: int, listId: int)
    ensures var (db', e) := Lists.Delete(db, userId, listId, false);
            e == None && Lists.GetById(db', userId, listId, false) == Reply(Lists.NoList, Some(NoRows))
  {
  }

  /** After an update of an owned list, reading it back shows the set fields
      changed and the others as they were. */
  lemma ListUpdateThenRead(db: Db, userId: int, listId: int, input: Lists.UpdateListInput)
    requires listId in db.lists && OwnsList(db, userId, listId)
    requires input.title.Some? || input.description.Some?
    ensures var (db', e) := Lists.Update(db, userId, listId, input, false);
            e == None && Lists.GetById(db', userId, listId, false) == Reply(Lists.Patch(db.lists[listId], input), None)
  {
  }

  /** After a delete, the same user can no longer read the item. */
  lemma ItemDeleteThenRead(db: Db, userId: int, itemId: int)
    ensures var (db', e) := Items.Delete(db, userId, itemId, false);
            e == None && Items.GetById(db', userId, itemId, false) == Reply(Items.NoItem, Some(NoRows))
  {
  }

  /** After an update of a reachable item, reading it back shows the set
      fields changed and the others as they were. */
  lemma ItemUpdateThenRead(db: Db, userId: int, itemId: int, input: Items.UpdateItemInput)
    requires itemId in db.items && ReachesItem(db, userId, itemId)
    requires !Items.NothingSet(input)
    ensures var (db', e) := Items.Update(db, userId, itemId, input, false);
            e == None && Items.GetById(db', userId, itemId, false) == Reply(Items.Patch(db.items[itemId], input), None)
  {
  }

  /** Ownership isolation for lists: a user who does not own a list cannot
      read it, find it among their lists, delete it or change it. */
  lemma ListIsolation(db: Db, userId: int, listId: int, input: Lists.UpdateListInput, fails: bool)
    requires Valid(db)
    requires !OwnsList(db, userId, listId)
    ensures Lists.GetById(db, userId, listId, fails).err.Some?
    ensures forall row :: row in Lists.GetAll(db, userId, fails).value ==> row.id != listId
    ensures Lists.Delete(db, userId, listId, fails).0 == db
    ensures Lists.Update(db, userId, listId, input, fails).0 == db
  {
    var u := Lists.Update(db, userId, listId, input, fails);
    if !fails && (input.title.Some? || input.description.Some?) {
      assert u.0.lists == db.lists;
    }
  }

  /** Ownership isolation for items: a user who reaches no list holding an
      item cannot read, delete or (with the corrected binding) change it, and
      sees no items of a list they do not own. */
  lemma ItemIsolation(db: Db, userId: int, itemId: int, listId: int, input: Items.UpdateItemInput, fails: bool)
    requires !ReachesItem(db, userId, itemId)
    ensures Items.GetById(db, userId, itemId, fails).err.Some?
    ensures Items.Delete(db, userId, itemId, fails).0 == db
    ensures Items.Update(db, userId, itemId, input, fails).0 == db
    ensures !OwnsList(db, userId, listId) ==> Items.GetAll(db, userId, listId, fails).value == []
  {
    var u := Items.Update(db, userId, itemId, input, fails);
    if !fails && !Items.NothingSet(input) {
      assert u.0.items == db.items;
    }
    if !OwnsList(db, userId, listId) {
      assert Items.InList(db, userId, listId) == {};
    }
  }

  /** Two users, each owning one list with one item: user 1 owns list 1
      holding item 2, user 2 owns list 2 holding item 1. */
  function TwoOwners(): Db {
    Db(map[1 := ListRow(1, "groceries", ""), 2 := ListRow(2, "work", "")],
       map[1 := ItemRow(1, "report", "", false), 2 := ItemRow(2, "milk", "", false)],
       {(1, 1), (2, 2)},
       {(1, 2), (2, 1)},
       3, 3)
  }

  /** `TwoOwners` is a state the stores can reach: ids match their keys and
      every link points below the serial counters. */
  lemma TwoOwnersValid()
    ensures Valid(TwoOwners())
  {
  }

  /** The item Update as written: user 1 retitles their own item 2, but the
      ids are bound the wrong way round, so item 1, which only user 2 can
      reach, is changed instead and item 2 keeps its title. The corrected
      binding changes item 2 alone. */
  lemma ItemUpdateAsWrittenCrossesOwners()
    ensures var db := TwoOwners();
            var input := Items.UpdateItemInput(Some("eggs"), None, None);
            && !ReachesItem(db, 1, 1)
            && Items.UpdateAsWritten(db, 1, 2, input, false).0.items[1].title == "eggs"
            && Items.UpdateAsWritten(db, 1, 2, input, false).0.items[2].title == "milk"
            && Items.Update(db, 1, 2, input, false).0.items[1].title == "report"
            && Items.Update(db, 1, 2, input, false).0.items[2].title == "eggs"
  {
    TwoOwnersReach();
    ItemUpdateCorrectedStaysHome();
    var db := TwoOwners();
    var input := Items.UpdateItemInput(Some("eggs"), None, None);
    assert !Items.NothingSet(input);
    var written := Items.UpdateAsWritten(db, 1, 2, input, false).0;
    assert written.items[1] == Items.Patch(db.items[1], input);
    assert written.items[2] == db.items[2];
  }

  /** Who reaches which item in `TwoOwners`. */
  lemma TwoOwnersReach()
    ensures var db := TwoOwners();
            && ReachesItem(db, 1, 2) && ReachesItem(db, 2, 1)
            && !ReachesItem(db, 1, 1) && !ReachesItem(db, 2, 2)
  {
    var db := TwoOwners();
    assert ReachesItem(db, 2, 1) by { assert (2, 2) in db.usersLists; }
    assert ReachesItem(db, 1, 2) by { assert (1, 1) in db.usersLists; }
    forall q | q in db.usersLists
      ensures q.0 == 1 ==> (q.1, 1) !in db.listsItems
      ensures q.0 == 2 ==> (q.1, 2) !in db.listsItems
    {
      assert q == (1, 1) || q == (2, 2);
    }
  }

  /** With the corrected binding, user 1 retitling item 2 changes item 2
      and leaves item 1 alone. */
  lemma ItemUpdateCorrectedStaysHome()
    ensures var db := TwoOwners();
            var input := Items.UpdateItemInput(Some("eggs"), None, None);
            && Items.Update(db, 1, 2, input, false).0.items[1].title == "report"
            && Items.Update(db, 1, 2, input, false).0.items[2].title == "eggs"
  {
    TwoOwnersReach();
    var db := TwoOwners();
    var input := Items.UpdateItemInput(Some("eggs"), None, None);
    ItemUpdateRow(db, 1, 2, input, 1);
    ItemUpdateRow(db, 1, 2, input, 2);
    var r := Items.Update(db, 1, 2, input, false).0;
    assert r.items[1] == ItemRow(1, "report", "", false);
    assert r.items[2] == ItemRow(2, "eggs", "", false);
  }

  /** One row after the corrected item Update. */
  lemma ItemUpdateRow(db: Db, userId: int, itemId: int, input: Items.UpdateItemInput, id: int)
    requires id in db.items && !Items.NothingSet(input)
    ensures var r := Items.Update(db, userId, itemId, input, false).0;
            id in r.items
            && r.items[id] == if id == itemId && ReachesItem(db, userId, itemId) then Items.Patch(db.items[id], input) else db.items[id]
  {
  }

  /** The binding of the item Update as written: for any two different ids
      the user column receives the item id, so the WHERE clause never
      compares the user with the acting user. */
  lemma ItemUpdateBindingSwapped(userId: int, itemId: int, input: Items.UpdateItemInput)
    requires userId != itemId
    ensures var st := Items.UpdateStatementAsWritten(userId, itemId, input);
            var w := ResolveWhere(st.where, st.args);
            && w.Some?
            && (forall c :: c in w.value && c.0 == UserIdKey ==> c.1 != userId)
            && w != Some([(UserIdKey, userId), (RowIdKey, itemId)])
  {
  }

  /** The list Update as written: user 1 retitles their own list 1, the
      list keeps its title, and item 1 (reachable only by user 2) is
      retitled because its id equals the list id. The corrected target
      retitles list 1 and no item. */
  lemma ListUpdateAsWrittenMissesList()
    ensures var db := TwoOwners();
            var input := Lists.UpdateListInput(Some("home"), None);
            && !ReachesItem(db, 1, 1)
            && Lists.UpdateAsWritten(db, 1, 1, input, false).0.lists[1].title == "groceries"
            && Lists.UpdateAsWritten(db, 1, 1, input, false).0.items[1].title == "home"
            && Lists.Update(db, 1, 1, input, false).0.lists[1].title == "home"
            && Lists.Update(db, 1, 1, input, false).0.items == db.items
  {
    var db := TwoOwners();
    assert OwnsList(db, 1, 1);
    assert !ReachesItem(db, 1, 1) by {
      forall q | q in db.usersLists && q.0 == 1
        ensures (q.1, 1) !in db.listsItems
      {
        assert q == (1, 1);
      }
    }
  }

  /** A whole session on an empty database: user 1 creates list 1 and item 1
      in it; the list's items are exactly that item, not done; marking it
      done keeps its title and description; user 2, who owns nothing, cannot
      read the list. */
  lemma Session(title: string, description: string)
    ensures var db0 := Db(map[], map[], {}, {}, 1, 1);
            var (db1, created) := Lists.Create(db0, 1, ListRow(0, "L1", ""), Healthy);
            var (db2, added) := Items.Create(db1, created.value, ItemRow(0, title, description, true), Healthy);
            var (db3, updated) := Items.Update(db2, 1, added.value, Items.UpdateItemInput(None, None, Some(true)), false);
            && created == Reply(1, None)
            && added == Reply(1, None)
            && Items.GetAll(db2, 1, 1, false) == Reply([ItemRow(0, title, description, false)], None)
            && updated == None
            && Items.GetById(db3, 1, 1, false) == Reply(ItemRow(1, title, description, true), None)
            && Lists.GetById(db3, 2, 1, false) == Reply(Lists.NoList, Some(NoRows))
  {
    var db0 := Db(map[], map[], {}, {}, 1, 1);
    var db1 := Db(map[1 := ListRow(1, "L1", "")], map[], {(1, 1)}, {}, 2, 1);
    var db2 := AfterCreates(title, description);
    assert db0.lists[1 := ListRow(1, "L1", "")] == db1.lists;
    assert db0.usersLists + {(1, 1)} == db1.usersLists;
    assert Lists.Create(db0, 1, ListRow(0, "L1", ""), Healthy) == (db1, Reply(1, None));
    assert db1.items[1 := ItemRow(1, title, description, false)] == db2.items;
    assert db1.listsItems + {(1, 1)} == db2.listsItems;
    assert Items.Create(db1, 1, ItemRow(0, title, description, true), Healthy) == (db2, Reply(1, None));
    SessionRead(title, description);
    SessionUpdate(title, description);
  }

  /** The database after the session's two creates. */
  function AfterCreates(title: string, description: string): Db {
    Db(map[1 := ListRow(1, "L1", "")], map[1 := ItemRow(1, title, description, false)], {(1, 1)}, {(1, 1)}, 2, 2)
  }

  lemma SessionRead(title: string, description: string)
    ensures Items.GetAll(AfterCreates(title, description), 1, 1, false) == Reply([ItemRow(0, title, description, false)], None)
  {
    var db2 := AfterCreates(title, description);
    assert OwnsList(db2, 1, 1) by { assert (1, 1) in db2.usersLists; }
    assert Items.InList(db2, 1, 1) == {1};
    Items.GetAllSingle(db2, 1, 1, 1);
  }

  lemma SessionUpdate(title: string, description: string)
    ensures var (db3, updated) := Items.Update(AfterCreates(title, description), 1, 1, Items.UpdateItemInput(None, None, Some(true)), false);
            && updated == None
            && Items.GetById(db3, 1, 1, false) == Reply(ItemRow(1, title, description, true), None)
            && Lists.GetById(db3, 2, 1, false) == Reply(Lists.NoList, Some(NoRows))
  {
    var db2 := AfterCreates(title, description);
    assert ReachesItem(db2, 1, 1) by { assert (1, 1) in db2.usersLists; }
    var input := Items.UpdateItemInput(None, None, Some(true));
    ItemUpdateRow(db2, 1, 1, input, 1);
    var (db3, updated) := Items.Update(db2, 1, 1, input, false);
    assert db3.items[1] == ItemRow(1, title, description, true);
    assert ReachesItem(db3, 1, 1) by { assert (1, 1) in db3.usersLists; }
    assert !OwnsList(db3, 2, 1);
  }
}
