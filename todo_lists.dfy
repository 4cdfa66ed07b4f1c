/** The pure list transforms the application's handlers apply to the todo list:
    `filter` by a criterion and `map` that rewrites the records with one id. */
module TodoLists {
  import opened TodoTypes

  /** The predicates the source passes to `filter`. */
  datatype Criterion =
    | IdIsNot(id: int)          // todo.id !== id
    | IdNotIn(ids: set<int>)    // the id is none of several removed ids
    | CompletedIs(status: bool) // todo.completed === status

  predicate Keeps(c: Criterion, t: Todo) {
    match c
    case IdIsNot(id) => t.id != id
    case IdNotIn(ids) => t.id !in ids
    case CompletedIs(status) => t.completed == status
  }

  /** `todos.filter(...)`: keeps the records the criterion accepts. */
  function Filter(todos: seq<Todo>, c: Criterion): (r: seq<Todo>)
    ensures |r| <= |todos|
    ensures forall t :: t in r <==> t in todos && Keeps(c, t)
  {
    if todos == [] then []
    else (if Keeps(c, todos[0]) then [todos[0]] else []) + Filter(todos[1..], c)
  }

  /** `a` can be obtained from `b` by deleting elements (greedy matching). */
  predicate SubsequenceOf(a: seq<Todo>, b: seq<Todo>)
    decreases |b|
  {
    if a == [] then true
    else if b == [] then false
    else if a[0] == b[0] then SubsequenceOf(a[1..], b[1..])
    else SubsequenceOf(a, b[1..])
  }

  /** No two records share an id. */
  predicate UniqueIds(todos: seq<Todo>) {
    forall i, j :: 0 <= i < j < |todos| ==> todos[i].id != todos[j].id
  }

  /** No record of the list carries `id`. */
  predicate IdFree(todos: seq<Todo>, id: int) {
    forall i :: 0 <= i < |todos| ==> todos[i].id != id
  }

  /** Filtering keeps the accepted records in their original relative order. */
  lemma {:induction false} FilterPreservesOrder(todos: seq<Todo>, c: Criterion)
    ensures SubsequenceOf(Filter(todos, c), todos)
  {
    if todos != [] {
      var rest := todos[1..];
      FilterPreservesOrder(rest, c);
      var r := Filter(todos, c);
      if Keeps(c, todos[0]) {
        assert r == [todos[0]] + Filter(rest, c);
        assert r[1..] == Filter(rest, c);
      } else {
        assert r == Filter(rest, c);
        if r != [] {
          assert r[0] in Filter(rest, c);
        }
      }
    }
  }

  /** Filtering keeps each accepted record as often as it occurred and drops
      every other record. */
  lemma {:induction false} FilterMultiplicity(todos: seq<Todo>, c: Criterion, t: Todo)
    ensures multiset(Filter(todos, c))[t] == if Keeps(c, t) then multiset(todos)[t] else 0
  {
    if todos != [] {
      var rest := todos[1..];
      FilterMultiplicity(rest, c, t);
      assert todos == [todos[0]] + rest;
      var head := if Keeps(c, todos[0]) then [todos[0]] else [];
      assert Filter(todos, c) == head + Filter(rest, c);
      assert multiset(Filter(todos, c)) == multiset(head) + multiset(Filter(rest, c));
      assert multiset(todos) == multiset{todos[0]} + multiset(rest);
    }
  }

  /** Filtering a list whose every record is accepted returns it unchanged. */
  lemma {:induction false} FilterKeepsAll(todos: seq<Todo>, c: Criterion)
    requires forall i :: 0 <= i < |todos| ==> Keeps(c, todos[i])
    ensures Filter(todos, c) == todos
  {
    if todos != [] {
      FilterKeepsAll(todos[1..], c);
    }
  }

  /** A first filter is redundant when every record the second one accepts
      passes the first. */
  lemma {:induction false} FilterRedundant(todos: seq<Todo>, first: Criterion, second: Criterion)
    requires forall t :: t in todos && Keeps(second, t) ==> Keeps(first, t)
    ensures Filter(Filter(todos, first), second) == Filter(todos, second)
  {
    if todos != [] {
      var rest := todos[1..];
      FilterRedundant(rest, first, second);
      var f := Filter(todos, first);
      if Keeps(first, todos[0]) {
        assert f == [todos[0]] + Filter(rest, first);
        assert f[1..] == Filter(rest, first);
      } else {
        assert !Keeps(second, todos[0]);
        assert f == Filter(rest, first);
      }
    }
  }

  /** Removing one more id after a set of ids is one filter by the larger set. */
  lemma {:induction false} FilterRemovesOneMore(todos: seq<Todo>, ids: set<int>, id: int)
    ensures Filter(Filter(todos, IdNotIn(ids)), IdIsNot(id)) == Filter(todos, IdNotIn(ids + {id}))
  {
    if todos != [] {
      FilterRemovesOneMore(todos[1..], ids, id);
      var f := Filter(todos, IdNotIn(ids));
      if todos[0].id !in ids {
        assert f == [todos[0]] + Filter(todos[1..], IdNotIn(ids));
        assert f[1..] == Filter(todos[1..], IdNotIn(ids));
      } else {
        assert f == Filter(todos[1..], IdNotIn(ids));
      }
    }
  }

  /** The tail of a uniquely identified list is uniquely identified, and none
      of its records carries the head's id. */
  lemma UniqueIdsRest(todos: seq<Todo>)
    requires UniqueIds(todos) && todos != []
    ensures UniqueIds(todos[1..]) && IdFree(todos[1..], todos[0].id)
  {
    var rest := todos[1..];
    forall i, j | 0 <= i < j < |rest| ensures rest[i].id != rest[j].id {
      assert rest[i] == todos[i + 1] && rest[j] == todos[j + 1];
    }
    forall i | 0 <= i < |rest| ensures rest[i].id != todos[0].id {
      assert rest[i] == todos[i + 1];
    }
  }

  /** A filtered list of uniquely identified records is uniquely identified. */
  lemma {:induction false} FilterUniqueIds(todos: seq<Todo>, c: Criterion)
    requires UniqueIds(todos)
    ensures UniqueIds(Filter(todos, c))
  {
    if todos != [] {
      var rest := todos[1..];
      UniqueIdsRest(todos);
      FilterUniqueIds(rest, c);
      var fr := Filter(rest, c);
      forall k | 0 <= k < |fr| ensures fr[k].id != todos[0].id {
        assert fr[k] in rest;
        var j :| 0 <= j < |rest| && rest[j] == fr[k];
        assert rest[j] == todos[j + 1];
      }
    }
  }

  /** In a uniquely identified list, filtering out the id of the record at
      `i` removes that record and no other, the rest keeping their order. */
  lemma {:induction false} FilterOutUniqueRecord(todos: seq<Todo>, i: nat)
    requires UniqueIds(todos) && i < |todos|
    ensures Filter(todos, IdIsNot(todos[i].id)) == todos[..i] + todos[i + 1..]
  {
    var rest := todos[1..];
    var c := IdIsNot(todos[i].id);
    UniqueIdsRest(todos);
    if i == 0 {
      FilterKeepsAll(rest, c);
    } else {
      assert rest[i - 1] == todos[i];
      FilterOutUniqueRecord(rest, i - 1);
      assert Filter(todos, c) == [todos[0]] + Filter(rest, c);
      ConsSplice(todos, i);
    }
  }

  /** Putting the head back in front of the tail with one record cut out is
      the whole list with that record cut out. */
  lemma ConsSplice(s: seq<Todo>, i: nat)
    requires 0 < i < |s|
    ensures [s[0]] + (s[1..][..i - 1] + s[1..][i..]) == s[..i] + s[i + 1..]
  {
    assert [s[0]] + s[1..][..i - 1] == s[..i];
    assert s[1..][i..] == s[i + 1..];
  }

  /** Appending a record whose id is not in use keeps the ids unique. */
  lemma AppendFreshKeepsUniqueIds(todos: seq<Todo>, t: Todo)
    requires UniqueIds(todos) && IdFree(todos, t.id)
    ensures UniqueIds(todos + [t])
  {
    var r := todos + [t];
    forall i, j | 0 <= i < j < |r| ensures r[i].id != r[j].id {
      assert r[i] == todos[i];
    }
  }

  /** Distinct records of a uniquely identified list have distinct ids. */
  lemma DistinctTodosDistinctIds(todos: seq<Todo>, t: Todo, u: Todo)
    requires UniqueIds(todos) && t in todos && u in todos && t != u
    ensures t.id != u.id
  {
    var i :| 0 <= i < |todos| && todos[i] == t;
    var j :| 0 <= j < |todos| && todos[j] == u;
  }

  /** `todos.map(todo => todo.id === id ? { ...todo, completed: status } : todo)`. */
  function SetCompletedById(todos: seq<Todo>, id: int, status: bool): (r: seq<Todo>)
    ensures |r| == |todos|
    ensures forall i :: 0 <= i < |r| ==>
      r[i] == if todos[i].id == id then todos[i].(completed := status) else todos[i]
  {
    if todos == [] then []
    else
      var head := if todos[0].id == id then todos[0].(completed := status) else todos[0];
      [head] + SetCompletedById(todos[1..], id, status)
  }

  /** `todos.map(todo => todo.id === id ? { ...replacement } : todo)`. */
  function ReplaceById(todos: seq<Todo>, id: int, replacement: Todo): (r: seq<Todo>)
    ensures |r| == |todos|
    ensures forall i :: 0 <= i < |r| ==>
      r[i] == if todos[i].id == id then replacement else todos[i]
  {
    if todos == [] then []
    else
      var head := if todos[0].id == id then replacement else todos[0];
      [head] + ReplaceById(todos[1..], id, replacement)
  }
}
