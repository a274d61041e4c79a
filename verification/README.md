# todo-app data layer in Dafny

A model of the authorization-scoped core of the todo-app backend: the list
and item repositories (`TodoListPostgres`, `TodoItemPostgres`), the dynamic
partial-update builder they share, and the `userIdentity` / `getUserId`
middleware that establishes the request's principal.

- `options.dfy` (`Options`): the `Option` type used for nil pointers and error results.
- `relational.dfy` (`Relational`): the database state. `todo_lists` and `todo_items` are maps from id to row. `users_lists` and `lists_items` are sets of pairs. Two serial counters supply fresh ids. The module also holds the ownership predicates `OwnsList` (user to list) and `ReachesItem` (user to list to item), the `Valid` state invariant, and the error kinds.
- `sql_statement.dfy` (`SqlStatement`): the update builder (`Build`, `PartialUpdate`), the fixed-placeholder statements of reads and deletes (`Scoped`), and placeholder binding, where `$k` resolves to `args[k-1]`.
- `executor.dfy` (`Executor`): what the database does with a joined `SELECT`, `UPDATE … FROM` or `DELETE … USING`. It binds the placeholders, selects the target rows that join to a `users_lists` row satisfying the WHERE clause, and rewrites or removes exactly those rows. A failed statement changes nothing.
- `todo_list_store.dfy`, `todo_item_store.dfy`: each repository method is a pure transition over the state. A `fails` flag, or a `CreateFault` for the two-insert transactions, stands for database errors.
- `middleware.dfy` (`Middleware`): header validation with Go's `strings.Split`, the token service as a function parameter, and the request context as a map from key to a tagged value.
- `isolation.dfy` (`Isolation`): properties across operations: a create is visible to its creator, ownership isolation holds, the two defects below are exhibited, and an end-to-end session is proved.

In these places the model follows the code as written:
- An update with no field set is not a no-op. The SET clause is empty, so the statement does not parse and `Update` returns an error.
- When the commit of a create fails, the code returns the new id together with the error, not `(0, err)`.
- The header is split on every single space and empty pieces are kept. It is not split on runs of whitespace.
- The list update's statement names `todo_items` (see Findings).

## Model

| member | source | states |
|---|---|---|
| SqlStatement.Build | pkg/repository/todo_list_postgres.go:111-125 | one fragment `column=$k` per set field, in field order; placeholders consecutive from the starting number; the j-th argument is the j-th set field's value |
| SqlStatement.SetText | pkg/repository/todo_list_postgres.go:127 | the joined SET text is empty exactly when no field is set |
| SqlStatement.PartialUpdate | pkg/repository/todo_item_postgres.go:88-126 | SET placeholders are `$1..$n` for the n set fields; WHERE placeholders are `$(n+1)…`; args are the set values then the scoping ids; every placeholder binds, the SET binds to the set values in order, and the j-th WHERE column binds to the j-th appended id |
| SqlStatement.Scoped | pkg/repository/todo_item_postgres.go:134-141 | a read or delete with literal `$1`, `$2` binds the j-th scoping column to the j-th argument, and every placeholder has exactly one argument |
| Executor.Exec | pkg/repository/todo_list_postgres.go:142-143 | a failing statement leaves the state unchanged; relation tables and id counters never change; only the target table changes; the state invariant is kept |
| Executor.Query | pkg/repository/todo_list_postgres.go:55 | a query returns ids of the target table only; a database failure is reported |
| Executor.SelectedOwnedBy | pkg/repository/todo_list_postgres.go:47-51 | joined through `users_lists` and filtered by user, a query selects exactly the lists that user owns |
| Executor.SelectedOwnedList | pkg/repository/todo_list_postgres.go:76-78 | filtered by user and list id, the join selects the list exactly when the user owns it |
| Executor.SelectedListItems | pkg/repository/todo_item_postgres.go:52-62 | filtered by list and user, the two joins select the list's items when the user owns the list, and nothing otherwise |
| Executor.SelectedReachableItem | pkg/repository/todo_item_postgres.go:136-139 | filtered by user and item id, the two joins select the item exactly when the user reaches it through one of their lists |
| TodoListStore.Create | pkg/repository/todo_list_postgres.go:19-42 | on success: exactly one new list row with the given title and description, exactly one new pair `(userId, id)`, a fresh id returned. On any failure the state is unchanged and the result is `(0, err)`, except a failed commit, which returns the fresh id with the error |
| TodoListStore.GetAll | pkg/repository/todo_list_postgres.go:45-57 | the result holds exactly the rows of the lists paired with the user, one per list; lists of other users never appear |
| TodoListStore.GetById | pkg/repository/todo_list_postgres.go:60-72 | succeeds iff `(userId, listId)` is in `users_lists` and the list exists, returning that row; otherwise the zero list with no-rows or the database error |
| TodoListStore.Delete | pkg/repository/todo_list_postgres.go:75-81 | removes the list row only when the user owns it; otherwise nothing changes and there is still no error; `users_lists` and the other tables are untouched |
| TodoListStore.UpdateOn | pkg/repository/todo_list_postgres.go:110-138 | title then description fragments for set fields only, `$1..$n`; WHERE `ul.list_id = $(n+1)`, `ul.user_id = $(n+2)`; `len(args) == n+2`; each placeholder binds to the value meant for it |
| TodoListStore.UpdateStatementAsWritten | pkg/repository/todo_list_postgres.go:129-138 | the statement as written targets `todo_items`, with the list and user ids bound correctly |
| TodoListStore.UpdateStatement | pkg/repository/todo_list_postgres.go:129-138 | the corrected statement targets `todo_lists` with the same binding |
| TodoListStore.UpdateOnEffect | pkg/repository/todo_list_postgres.go:127-143 | no field set gives a syntax error with the state unchanged; otherwise the set fields are written to the rows the ownership join selects |
| TodoListStore.SetWritten | pkg/repository/todo_list_postgres.go:115-125 | the built SET clause changes exactly the set fields of a row and keeps the others |
| TodoListStore.UpdateAsWritten | pkg/repository/todo_list_postgres.go:110-143 | as written, no list row ever changes. When the user owns list `listId`, the item whose id equals `listId` gets the new title and description |
| TodoListStore.Update | pkg/repository/todo_list_postgres.go:110-143 | corrected: a partial update of the owned list; unset fields keep their values; no other row changes; no field set is an error with the state unchanged |
| TodoItemStore.Create | pkg/repository/todo_item_postgres.go:19-47 | on success: exactly one new item row with the given title and description and `done` false, and exactly one new pair `(listId, id)`. No user is checked. A failure leaves the state unchanged and returns `(0, err)`, except a failed commit, which returns the id |
| TodoItemStore.GetAll | pkg/repository/todo_item_postgres.go:50-66 | exactly one row per item `i` with `(listId, i)` in `lists_items`, provided `(userId, listId)` is in `users_lists`: the rows pair one-to-one with distinct such items (`OnePerItem`), so items that share title, description and done each keep their own row; rows carry title, description and done, with id 0 |
| TodoItemStore.GetById | pkg/repository/todo_item_postgres.go:69-85 | succeeds iff the item exists and some list `L` has `(L, itemId)` in `lists_items` and `(userId, L)` in `users_lists`; otherwise the zero item with an error |
| TodoItemStore.DeleteStatement | pkg/repository/todo_item_postgres.go:135-141 | `$1` binds to `userId` and `$2` to `itemId` |
| TodoItemStore.Delete | pkg/repository/todo_item_postgres.go:134-145 | removes the item row only when the user reaches it; zero rows affected is not an error; the relation tables are untouched |
| TodoItemStore.UpdateOn | pkg/repository/todo_item_postgres.go:88-126 | title, description, done fragments for set fields only, `$1..$n`; WHERE `ul.user_id=$(n+1)`, `ti.id=$(n+2)`; `len(args) == n+2`; the scoping columns bind to the appended ids in order |
| TodoItemStore.UpdateStatementAsWritten | pkg/repository/todo_item_postgres.go:118-126 | as written, `ul.user_id` binds to the item id and `ti.id` to the user id |
| TodoItemStore.UpdateStatement | pkg/repository/todo_item_postgres.go:118-126 | corrected, `ul.user_id` binds to the user id and `ti.id` to the item id |
| TodoItemStore.WrittenDistinct | pkg/repository/todo_item_postgres.go:93-109 | the builder never sets a column twice |
| TodoItemStore.SetWritten | pkg/repository/todo_item_postgres.go:93-109 | the built SET clause changes exactly the set fields of an item and keeps the others |
| TodoItemStore.UpdateOnEffect | pkg/repository/todo_item_postgres.go:111-131 | no field set gives a syntax error with the state unchanged; otherwise the set fields are written to the rows the two-join scope selects for the bound ids |
| TodoItemStore.UpdateAsWritten | pkg/repository/todo_item_postgres.go:88-131 | as written, the item whose id equals `userId` is rewritten, provided the user whose id equals `itemId` reaches it |
| TodoItemStore.Update | pkg/repository/todo_item_postgres.go:88-131 | corrected: a partial update of the reachable item; unset fields keep their values; no other row changes; no field set is an error with the state unchanged |
| Middleware.Split | pkg/handler/middleware.go:22 | `strings.Split` yields one more piece than there are separators, and no piece contains the separator |
| Middleware.SplitJoin | pkg/handler/middleware.go:22 | joining the pieces with the separator restores the header |
| Middleware.SplitAtOnlySeparator | pkg/handler/middleware.go:22-28 | with exactly one space, the two pieces are the text before it and the text after it |
| Middleware.UserIdentity | pkg/handler/middleware.go:15-35 | an empty header gives Unauthorized. A header without exactly one space gives Unauthorized. Otherwise the token service gets exactly the text after the space; a parsed id is stored under "userId", and a token error gives Unauthorized. A refused request keeps its context unchanged |
| Middleware.GetUserId | pkg/handler/middleware.go:37-51 | returns the stored int with no error iff "userId" holds an int. A missing key and a value of another type both give `(0, err)` with status 500, each with its own message |
| Middleware.IdentityThenUserId | pkg/handler/middleware.go:34-50 | after userIdentity admits a request, getUserId returns the id parsed from the header's token |
| Middleware.SchemeIgnored | pkg/handler/middleware.go:22-28 | the first word of the header is never inspected: any two space-free words give the same outcome |
| Middleware.TwoSpacesRefused | pkg/handler/middleware.go:22-26 | `"a b c"` and `"Bearer  t"` are refused |
| Middleware.NoSpaceRefused | pkg/handler/middleware.go:22-26 | `"Bearer"` is refused |
| Middleware.EmptyTokenPassed | pkg/handler/middleware.go:22-28 | `"Bearer "` passes the shape check and the empty token goes to the token service |
| Isolation.ListCreateThenRead | pkg/repository/todo_list_postgres.go:19-72 | a created list is read back by its creator with its title and description, and is among the creator's lists |
| Isolation.ItemCreateThenRead | pkg/repository/todo_item_postgres.go:19-85 | an item created in a list the user owns is read back by that user with `done` false |
| Isolation.ListDeleteThenRead | pkg/repository/todo_list_postgres.go:60-82 | after a user deletes a list by id, that user reading the same id gets no rows, whether or not the list was theirs |
| Isolation.ListUpdateThenRead | pkg/repository/todo_list_postgres.go:60-143 | after the owner updates a list with at least one field, reading it back shows the given fields replaced and the rest unchanged |
| Isolation.ItemDeleteThenRead | pkg/repository/todo_item_postgres.go:69-145 | after a user deletes an item by id, that user reading the same id gets no rows |
| Isolation.ItemUpdateThenRead | pkg/repository/todo_item_postgres.go:69-131 | after a user who reaches an item updates it with at least one field, reading it back shows the given fields replaced and the rest unchanged |
| Isolation.ListIsolation | pkg/repository/todo_list_postgres.go:60-143 | a user who does not own a list cannot read it, list it, delete it or (corrected) update it |
| Isolation.ItemIsolation | pkg/repository/todo_item_postgres.go:50-145 | a user who cannot reach an item cannot read it, delete it or (corrected) update it, and sees no items of a list they do not own |
| Isolation.ItemUpdateAsWrittenCrossesOwners | pkg/repository/todo_item_postgres.go:118-126 | as written, a user updating their own item changes another user's item instead |
| Isolation.ItemUpdateBindingSwapped | pkg/repository/todo_item_postgres.go:118-126 | as written, when the two ids differ the WHERE clause resolves, but its user column is bound to an id other than the acting user, so the binding is never the intended one |
| Isolation.ListUpdateAsWrittenMissesList | pkg/repository/todo_list_postgres.go:133 | as written, updating an owned list leaves the list as it was and changes an item with the same id; the corrected target changes the list only |
| Isolation.Session | pkg/repository/todo_item_postgres.go:19-131 | on an empty database, create list and item, list the items, mark the item done and read it back; another user cannot read the list |

## Left out

- `pkg/repository/auth_postgres.go` (`CreateUser`, `GetUser`) is not part of this model. Both are single statements with no logic of their own, and username uniqueness lives in a schema that is not shown.
- SQL parsing and the query engine are left out. Statements are structured values. The only text modelled is the SET clause, because its emptiness decides whether the statement parses. Join predicates are written directly.
- Serial ids: each table has a counter that supplies the next id. Postgres sequences are not rolled back with a transaction. The model restores the whole state on rollback, counters included.
- Schema constraints are left out because the schema is not shown. This covers foreign keys, NOT NULL, uniqueness and cascades. A create linked to a missing list or user succeeds unless a failure is injected. Deletes touch only the entity row, as the statements do.
- Result order: the database returns rows in an unspecified order. The model fixes ascending id order. Relation tables are sets, so duplicate pairs cannot occur.
- On a failed `Select` or `Get`, the model returns an empty slice or the zero row. It does not model any partially filled result.
- The rows-affected count of `Exec` is not modelled, because every caller discards it.
- Go `int` width is not modelled. Ids are unbounded integers, so overflow of the serial column is out of scope.
- Logging through `logrus.Infof` is a side effect only.
- `Authorization.ParseToken` is a function parameter. Its JWT logic is not part of this model.
- gin response writing and aborting are reduced to an `ErrorResponse` value. `Header.Get` is represented by the header's value, with the empty string when it is absent.
- Transaction isolation and concurrent requests are left out. Every operation is atomic.
- The commented-out two-step list `Delete` is dead code.

## Findings

| source | as written | input that shows it | evidently intended | confidence | as-written member | corrected member |
|---|---|---|---|---|---|---|
| pkg/repository/todo_item_postgres.go:118-126 | the WHERE clause compares `ul.user_id` with `$(n+1)` and `ti.id` with `$(n+2)`, but the arguments are appended as `itemId, userId` | in `Isolation.TwoOwners`, user 1 sets title "eggs" on their own item 2: item 1, reachable only by user 2, is retitled and item 2 is not | append `userId, itemId` | high; not executed | `TodoItemStore.UpdateAsWritten`, exhibited by `Isolation.ItemUpdateAsWrittenCrossesOwners` | `TodoItemStore.Update`, with `Isolation.ItemIsolation` |
| pkg/repository/todo_list_postgres.go:133 | list `Update` names `todoItemsTable` as the table to update | in `Isolation.TwoOwners`, user 1 sets title "home" on their own list 1: the list keeps "groceries" and item 1 of user 2 becomes "home" | update `todoListsTable` | high; not executed | `TodoListStore.UpdateAsWritten`, exhibited by `Isolation.ListUpdateAsWrittenMissesList` | `TodoListStore.Update`, with `Isolation.ListIsolation` |
