/** The dynamic partial-update builder shared by the list and item `Update`
    methods, the statements it produces, and the placeholder binding
    `$k -> args[k-1]` the database applies to them. */
module SqlStatement {
  import opened Options

  /** The columns an update may set. */
  datatype Column = TitleColumn | DescriptionColumn | DoneColumn

  function ColumnName(c: Column): string {
    match c
    case TitleColumn => "title"
    case DescriptionColumn => "description"
    case DoneColumn => "done"
  }

  /** A positional argument: a Go `string`, `bool` or `int` passed to Exec. */
  datatype Value = Text(s: string) | Flag(b: bool) | Id(n: int)

  /** One optional input field, in declaration order; `None` is a nil pointer. */
  datatype Field = Field(column: Column, value: Option<Value>)

  /** A SET fragment `column=$placeholder`. */
  datatype Assign = Assign(column: Column, placeholder: nat)

  /** The scoping columns a WHERE clause compares with a placeholder:
      `ul.user_id`, `ul.list_id` and the id of the target row itself. */
  datatype Key = UserIdKey | ListIdKey | RowIdKey

  /** A WHERE conjunct `key = $placeholder`. */
  datatype Condition = Condition(key: Key, placeholder: nat)

  datatype Target = TodoListsTable | TodoItemsTable

  /** How the target row is joined to `users_lists`: directly on the list id
      (`t.id = ul.list_id`), or through `lists_items`
      (`li.item_id = t.id AND ul.list_id = li.list_id`). */
  datatype Join = ViaUsersLists | ViaListsItems

  datatype Action = SetColumns(assigns: seq<Assign>) | DeleteRows | SelectRows

  /** An `UPDATE t SET … FROM …`, `DELETE FROM t USING …` or
      `SELECT … FROM t INNER JOIN …` statement, together with the argument
      list passed alongside it. */
  datatype Statement = Statement(action: Action, target: Target, join: Join, where: seq<Condition>, args: seq<Value>)

  /** The fields that are set, unwrapped, in input order: the reference for
      what an update must write. */
  function Present(fields: seq<Field>): (r: seq<(Column, Value)>)
    ensures |r| <= |fields|
  {
    if fields == [] then []
    else if fields[0].value.Some? then [(fields[0].column, fields[0].value.value)] + Present(fields[1..])
    else Present(fields[1..])
  }

  lemma {:induction false} PresentAppend(a: seq<Field>, b: seq<Field>)
    ensures Present(a + b) == Present(a) + Present(b)
  {
    if a != [] {
      assert (a + b)[1..] == a[1..] + b;
      PresentAppend(a[1..], b);
    } else {
      assert a + b == b;
    }
  }

  /** The builder: walks the fields in order, emitting `column=$argId` and
      appending the value for each field that is set, and numbering
      placeholders consecutively from `argId`. */
  function Build(fields: seq<Field>, argId: nat): (r: (seq<Assign>, seq<Value>))
    ensures |r.0| == |r.1| == |Present(fields)|
    ensures forall j :: 0 <= j < |r.0| ==>
              r.0[j] == Assign(Present(fields)[j].0, argId + j) && r.1[j] == Present(fields)[j].1
  {
    if fields == [] then ([], [])
    else if fields[0].value.Some? then
      var rest := Build(fields[1..], argId + 1);
      ([Assign(fields[0].column, argId)] + rest.0, [fields[0].value.value] + rest.1)
    else Build(fields[1..], argId)
  }

  /** Binding of placeholder `$k`: the k-th argument, counting from 1. */
  function Bind(args: seq<Value>, k: nat): (r: Option<Value>)
    ensures r.Some? <==> 1 <= k <= |args|
  {
    if 1 <= k <= |args| then Some(args[k - 1]) else None
  }

  /** Every placeholder of the statement. */
  function Placeholders(st: Statement): set<nat> {
    (match st.action
     case SetColumns(assigns) => set j | 0 <= j < |assigns| :: assigns[j].placeholder
     case _ => {})
    + (set j | 0 <= j < |st.where| :: st.where[j].placeholder)
  }

  /** The placeholders used are exactly `$1 .. $n` for `n` arguments, as the
      database requires of a parameterised statement. */
  predicate ArgsAgree(st: Statement) {
    var used := Placeholders(st);
    && (forall k :: k in used ==> 1 <= k <= |st.args|)
    && (forall k: nat :: 1 <= k <= |st.args| ==> k in used)
  }

  /** SET fragments with their placeholders resolved to values; `None` when a
      placeholder has no argument. */
  function ResolveSet(assigns: seq<Assign>, args: seq<Value>): (r: Option<seq<(Column, Value)>>)
    ensures r.Some? ==> |r.value| == |assigns|
  {
    if assigns == [] then Some([])
    else match Bind(args, assigns[0].placeholder)
      case None => None
      case Some(v) =>
        match ResolveSet(assigns[1..], args)
        case None => None
        case Some(rest) => Some([(assigns[0].column, v)] + rest)
  }

  /** WHERE conjuncts with their placeholders resolved to ids; `None` when a
      placeholder has no argument or is bound to something other than an id. */
  function ResolveWhere(where: seq<Condition>, args: seq<Value>): (r: Option<seq<(Key, int)>>)
    ensures r.Some? ==> |r.value| == |where|
  {
    if where == [] then Some([])
    else match Bind(args, where[0].placeholder)
      case Some(Id(n)) =>
        (match ResolveWhere(where[1..], args)
         case None => None
         case Some(rest) => Some([(where[0].key, n)] + rest))
      case _ => None
  }

  lemma {:induction false} ResolveSetExact(assigns: seq<Assign>, args: seq<Value>, expected: seq<(Column, Value)>)
    requires |assigns| == |expected|
    requires forall j :: 0 <= j < |assigns| ==>
               assigns[j].column == expected[j].0 && Bind(args, assigns[j].placeholder) == Some(expected[j].1)
    ensures ResolveSet(assigns, args) == Some(expected)
  {
    if assigns != [] {
      ResolveSetExact(assigns[1..], args, expected[1..]);
      assert [(assigns[0].column, expected[0].1)] + expected[1..] == expected;
    }
  }

  /** Decimal digits of a placeholder number, as `%d` prints it. */
  function Decimal(n: nat): (r: string)
    ensures |r| >= 1
  {
    var d := ["0123456789"[n % 10]];
    if n < 10 then d else Decimal(n / 10) + d
  }

  /** The text `column=$k` of one fragment. */
  function FragmentText(a: Assign): string {
    ColumnName(a.column) + "=$" + Decimal(a.placeholder)
  }

  /** `strings.Join(setValues, ", ")`. */
  function SetText(assigns: seq<Assign>): (r: string)
    ensures r == "" <==> assigns == []
  {
    if assigns == [] then ""
    else if |assigns| == 1 then FragmentText(assigns[0])
    else FragmentText(assigns[0]) + ", " + SetText(assigns[1..])
  }

  /** A SET clause the database accepts: non-empty text and no column set twice. */
  predicate WellFormedSet(assigns: seq<Assign>) {
    && SetText(assigns) != ""
    && forall i, j :: 0 <= i < j < |assigns| ==> assigns[i].column != assigns[j].column
  }

  /** A non-empty SET clause whose columns follow a list of distinct
      columns is one the database accepts. */
  lemma ColumnsWellFormed(assigns: seq<Assign>, sets: seq<(Column, Value)>)
    requires assigns != [] && |assigns| == |sets|
    requires forall j :: 0 <= j < |assigns| ==> assigns[j].column == sets[j].0
    requires forall i, j :: 0 <= i < j < |sets| ==> sets[i].0 != sets[j].0
    ensures WellFormedSet(assigns)
  {
    forall i, j | 0 <= i < j < |assigns|
      ensures assigns[i].column != assigns[j].column
    {
      assert sets[i].0 != sets[j].0;
    }
  }

  /** Resolving keeps each fragment's column in place. */
  lemma {:induction false} ResolveSetColumn(assigns: seq<Assign>, args: seq<Value>, sets: seq<(Column, Value)>, j: nat)
    requires ResolveSet(assigns, args) == Some(sets)
    requires j < |assigns|
    ensures assigns[j].column == sets[j].0
  {
    if j > 0 {
      var rest := ResolveSet(assigns[1..], args);
      ResolveSetColumn(assigns[1..], args, rest.value, j - 1);
    }
  }

  lemma {:induction false} ResolveWhereExact(where: seq<Condition>, args: seq<Value>, expected: seq<(Key, int)>)
    requires |where| == |expected|
    requires forall j :: 0 <= j < |where| ==>
               where[j].key == expected[j].0 && Bind(args, where[j].placeholder) == Some(Id(expected[j].1))
    ensures ResolveWhere(where, args) == Some(expected)
  {
    if where != [] {
      ResolveWhereExact(where[1..], args, expected[1..]);
      assert [(where[0].key, expected[0].1)] + expected[1..] == expected;
    }
  }

  /** WHERE conjuncts `keys[j] = $(first + j)`. */
  function Conditions(keys: seq<Key>, first: nat): seq<Condition> {
    seq(|keys|, j requires 0 <= j < |keys| => Condition(keys[j], first + j))
  }

  /** Scoping ids as positional arguments. */
  function Ids(scope: seq<int>): seq<Value> {
    seq(|scope|, j requires 0 <= j < |scope| => Id(scope[j]))
  }

  /** Each scoping column paired with an id. */
  function Pairs(keys: seq<Key>, scope: seq<int>): seq<(Key, int)>
    requires |keys| == |scope|
  {
    seq(|keys|, j requires 0 <= j < |keys| => (keys[j], scope[j]))
  }

  /** The two-column WHERE clause and its bindings, spelled out. */
  lemma TwoConditions(k0: Key, k1: Key, a: int, b: int, first: nat)
    ensures Conditions([k0, k1], first) == [Condition(k0, first), Condition(k1, first + 1)]
    ensures Pairs([k0, k1], [a, b]) == [(k0, a), (k1, b)]
  {
  }

  /** A statement with fixed placeholders `$1 .. $m` in its WHERE clause and
      the scoping ids as its arguments: the reads and deletes. The database
      binds the j-th scoping column to the j-th id. */
  function Scoped(action: Action, target: Target, join: Join, keys: seq<Key>, scope: seq<int>): (st: Statement)
    requires !action.SetColumns?
    requires |keys| == |scope|
    ensures st.action == action && st.target == target && st.join == join
    ensures ArgsAgree(st)
    ensures ResolveWhere(st.where, st.args) == Some(Pairs(keys, scope))
  {
    var st := Statement(action, target, join, Conditions(keys, 1), Ids(scope));
    ScopedResolves(keys, scope);
    ScopedAgrees(st);
    st
  }

  /** The WHERE clause of `Scoped` meets each id with its column. */
  lemma ScopedResolves(keys: seq<Key>, scope: seq<int>)
    requires |keys| == |scope|
    ensures ResolveWhere(Conditions(keys, 1), Ids(scope)) == Some(Pairs(keys, scope))
  {
    var where, args, pairs := Conditions(keys, 1), Ids(scope), Pairs(keys, scope);
    forall j | 0 <= j < |where|
      ensures where[j].key == pairs[j].0 && Bind(args, where[j].placeholder) == Some(Id(pairs[j].1))
    {
      assert where[j].placeholder == j + 1;
    }
    ResolveWhereExact(where, args, pairs);
  }

  /** A statement without a SET clause whose WHERE clause numbers its
      placeholders `$1 .. $m` for `m` arguments uses exactly those. */
  lemma ScopedAgrees(st: Statement)
    requires !st.action.SetColumns?
    requires |st.where| == |st.args|
    requires forall j :: 0 <= j < |st.where| ==> st.where[j].placeholder == j + 1
    ensures ArgsAgree(st)
  {
    forall k: nat | 1 <= k <= |st.args|
      ensures k in Placeholders(st)
    {
      assert st.where[k - 1].placeholder == k;
    }
  }

  /** The partial-update builder: the SET clause has one fragment
      `column=$j` for each field that is set, in field order, numbered from
      1; the WHERE clause compares `keys[j]` with `$(n + 1 + j)`; and the
      arguments are the set values followed by the scoping ids in the order
      `scope` lists them. */
  function PartialUpdate(target: Target, join: Join, fields: seq<Field>, keys: seq<Key>, scope: seq<int>): (st: Statement)
    requires |keys| == |scope|
    ensures st.action.SetColumns? && st.target == target && st.join == join
    ensures |st.action.assigns| == |Present(fields)|
    ensures |st.args| == |Present(fields)| + |scope|
    ensures forall j :: 0 <= j < |st.action.assigns| ==> st.action.assigns[j].placeholder == j + 1
    ensures st.where == Conditions(keys, |Present(fields)| + 1)
    ensures ArgsAgree(st)
    ensures ResolveSet(st.action.assigns, st.args) == Some(Present(fields))
    ensures ResolveWhere(st.where, st.args) == Some(Pairs(keys, scope))
  {
    var built := Build(fields, 1);
    var n := |built.0|;
    var st := Statement(SetColumns(built.0), target, join, Conditions(keys, n + 1), built.1 + Ids(scope));
    ResolveSetExact(built.0, st.args, Present(fields));
    ResolveWhereExact(st.where, st.args, Pairs(keys, scope));
    forall k: nat | 1 <= k <= |st.args|
      ensures k in Placeholders(st)
    {
      if k <= n {
        assert built.0[k - 1].placeholder == k;
      } else {
        assert st.where[k - n - 1].placeholder == k;
      }
    }
    st
  }
}
