/** The entries of the Priorities home screen and the three pure transitions
    its handlers apply to the list: append on add, mark on complete, and the
    filter run by the delayed removal. The screen object in home_screen.dfy
    holds the list and delegates to these functions. */
module Todos {

  /** One priority. `id` is the only lookup key; nothing in the app makes it
      unique (it is the clock reading at creation), so every statement about
      a lookup below speaks of all entries that carry the id. */
  datatype Todo = Todo(id: string, text: string, completed: bool, createdAt: int)

  /** The most entries the list accepts through add. */
  const MaxTodos: nat := 5

  /** The flag that disables (hides) the input field. */
  predicate AtCapacity(todos: seq<Todo>)
  {
    |todos| >= MaxTodos
  }

  /** The length bound that add, complete and expire preserve. */
  predicate WithinCapacity(todos: seq<Todo>)
  {
    |todos| <= MaxTodos
  }

  /** The ids that occur in the list. */
  function Ids(todos: seq<Todo>): set<string>
  {
    if todos == [] then {} else {todos[0].id} + Ids(todos[1..])
  }

  /** The ids of the entries that are marked completed. */
  function CompletedIds(todos: seq<Todo>): set<string>
  {
    if todos == [] then {}
    else (if todos[0].completed then {todos[0].id} else {}) + CompletedIds(todos[1..])
  }

  /** No two entries share an id: each entry's id is absent from the rest. */
  predicate UniqueIds(todos: seq<Todo>)
  {
    todos == [] || (todos[0].id !in Ids(todos[1..]) && UniqueIds(todos[1..]))
  }

  /** `sub` is `s` with some entries dropped, the others kept in order. */
  predicate IsSubsequence(sub: seq<Todo>, s: seq<Todo>)
  {
    if sub == [] then true
    else if s == [] then false
    else (sub[0] == s[0] && IsSubsequence(sub[1..], s[1..])) || IsSubsequence(sub, s[1..])
  }

  /** Ids holds exactly the ids found at some position of the list. */
  lemma {:induction false} IdsMembership(todos: seq<Todo>, id: string)
    ensures id in Ids(todos) <==> exists i :: 0 <= i < |todos| && todos[i].id == id
  {
    if todos != [] {
      IdsMembership(todos[1..], id);
      if id in Ids(todos[1..]) {
        var i :| 0 <= i < |todos[1..]| && todos[1..][i].id == id;
        assert todos[i + 1].id == id;
      }
    }
  }

  // ---------------------------------------------------------------- add

  /** The state update of the add handler: a full list is left alone,
      otherwise one new, not yet completed entry goes to the tail. */
  function AddTodo(todos: seq<Todo>, text: string, id: string, createdAt: int): (r: seq<Todo>)
    ensures AtCapacity(todos) ==> r == todos
    ensures !AtCapacity(todos) ==>
      |r| == |todos| + 1 && r[..|todos|] == todos &&
      r[|todos|].id == id && r[|todos|].text == text &&
      !r[|todos|].completed && r[|todos|].createdAt == createdAt
  {
    if |todos| >= MaxTodos then todos else todos + [Todo(id, text, false, createdAt)]
  }

  // ----------------------------------------------------------- complete

  /** The callback of the complete handler's map: an entry with the id comes
      back completed, every field but `completed` is kept. */
  function MarkCompleted(t: Todo, id: string): (r: Todo)
    ensures r.id == t.id && r.text == t.text && r.createdAt == t.createdAt
    ensures r.completed <==> t.completed || t.id == id
  {
    if t.id == id then t.(completed := true) else t
  }

  /** The complete handler's map over the list. */
  function CompleteTodo(todos: seq<Todo>, id: string): (r: seq<Todo>)
    ensures |r| == |todos|
  {
    if todos == [] then [] else [MarkCompleted(todos[0], id)] + CompleteTodo(todos[1..], id)
  }

  // ------------------------------------------------------------- expire

  /** The delayed removal's filter: keep the entries whose id differs. */
  function ExpireTodo(todos: seq<Todo>, id: string): (r: seq<Todo>)
    ensures |r| <= |todos|
    ensures forall i :: 0 <= i < |r| ==> r[i].id != id
  {
    if todos == [] then []
    else if todos[0].id == id then ExpireTodo(todos[1..], id)
    else [todos[0]] + ExpireTodo(todos[1..], id)
  }

  // ------------------------------------------------- lemmas about add

  lemma {:induction false} IdsAppend(todos: seq<Todo>, t: Todo)
    ensures Ids(todos + [t]) == Ids(todos) + {t.id}
  {
    if todos != [] {
      assert (todos + [t])[1..] == todos[1..] + [t];
      IdsAppend(todos[1..], t);
    }
  }

  lemma {:induction false} CompletedIdsAppend(todos: seq<Todo>, t: Todo)
    ensures CompletedIds(todos + [t]) ==
            CompletedIds(todos) + (if t.completed then {t.id} else {})
  {
    if todos != [] {
      assert (todos + [t])[1..] == todos[1..] + [t];
      CompletedIdsAppend(todos[1..], t);
    }
  }

  lemma {:induction false} UniqueIdsAppend(todos: seq<Todo>, t: Todo)
    requires UniqueIds(todos) && t.id !in Ids(todos)
    ensures UniqueIds(todos + [t])
  {
    if todos != [] {
      assert (todos + [t])[1..] == todos[1..] + [t];
      UniqueIdsAppend(todos[1..], t);
      IdsAppend(todos[1..], t);
    }
  }

  /** Add never marks anything completed, and the id it was given is the only
      id it can introduce. */
  lemma AddIds(todos: seq<Todo>, text: string, id: string, createdAt: int)
    ensures Ids(AddTodo(todos, text, id, createdAt)) ==
            Ids(todos) + (if AtCapacity(todos) then {} else {id})
    ensures CompletedIds(AddTodo(todos, text, id, createdAt)) == CompletedIds(todos)
  {
    if !AtCapacity(todos) {
      IdsAppend(todos, Todo(id, text, false, createdAt));
      CompletedIdsAppend(todos, Todo(id, text, false, createdAt));
    }
  }

  /** With a fresh id, add keeps the ids unique. */
  lemma AddKeepsIdsUnique(todos: seq<Todo>, text: string, id: string, createdAt: int)
    requires UniqueIds(todos) && id !in Ids(todos)
    ensures UniqueIds(AddTodo(todos, text, id, createdAt))
  {
    if !AtCapacity(todos) {
      UniqueIdsAppend(todos, Todo(id, text, false, createdAt));
    }
  }

  // -------------------------------------------- lemmas about complete

  /** Position by position: an entry with the id becomes completed with its
      other fields unchanged, every other entry is unchanged. */
  lemma {:induction false} CompleteAt(todos: seq<Todo>, id: string, i: nat)
    requires i < |todos|
    ensures CompleteTodo(todos, id)[i] ==
            if todos[i].id == id then todos[i].(completed := true) else todos[i]
  {
    if i > 0 {
      CompleteAt(todos[1..], id, i - 1);
    }
  }

  /** Complete on an id that is not in the list changes nothing. */
  lemma {:induction false} CompleteAbsent(todos: seq<Todo>, id: string)
    requires id !in Ids(todos)
    ensures CompleteTodo(todos, id) == todos
  {
    if todos != [] {
      CompleteAbsent(todos[1..], id);
    }
  }

  /** Completing the same id twice is the same as completing it once. */
  lemma {:induction false} CompleteIdempotent(todos: seq<Todo>, id: string)
    ensures CompleteTodo(CompleteTodo(todos, id), id) == CompleteTodo(todos, id)
  {
    var once := CompleteTodo(todos, id);
    forall i | 0 <= i < |todos|
      ensures CompleteTodo(once, id)[i] == once[i]
    {
      CompleteAt(todos, id, i);
      CompleteAt(once, id, i);
    }
  }

  /** Complete never resets `completed`: position by position it only turns
      false into true. */
  lemma CompleteNeverUncompletes(todos: seq<Todo>, id: string, i: nat)
    requires i < |todos| && todos[i].completed
    ensures CompleteTodo(todos, id)[i] == todos[i]
  {
    CompleteAt(todos, id, i);
  }

  /** Complete keeps the set of ids and adds the given id to the completed
      ones exactly when it occurs in the list. */
  lemma {:induction false} CompleteIds(todos: seq<Todo>, id: string)
    ensures Ids(CompleteTodo(todos, id)) == Ids(todos)
    ensures CompletedIds(CompleteTodo(todos, id)) ==
            CompletedIds(todos) + (if id in Ids(todos) then {id} else {})
  {
    if todos != [] {
      CompleteIds(todos[1..], id);
    }
  }

  /** Complete keeps the ids unique. */
  lemma {:induction false} CompleteKeepsIdsUnique(todos: seq<Todo>, id: string)
    requires UniqueIds(todos)
    ensures UniqueIds(CompleteTodo(todos, id))
  {
    if todos != [] {
      CompleteKeepsIdsUnique(todos[1..], id);
      CompleteIds(todos[1..], id);
    }
  }

  // ---------------------------------------------- lemmas about expire

  /** The filter's result is the list with some entries dropped, the rest in
      their original order. */
  lemma {:induction false} ExpireSubsequence(todos: seq<Todo>, id: string)
    ensures IsSubsequence(ExpireTodo(todos, id), todos)
  {
    if todos != [] {
      ExpireSubsequence(todos[1..], id);
    }
  }

  /** Every entry whose id differs survives, as often as it occurred. */
  lemma {:induction false} ExpireKeepsOthers(todos: seq<Todo>, id: string, t: Todo)
    requires t.id != id
    ensures multiset(ExpireTodo(todos, id))[t] == multiset(todos)[t]
  {
    if todos != [] {
      assert todos == [todos[0]] + todos[1..];
      ExpireKeepsOthers(todos[1..], id, t);
    }
  }

  lemma {:induction false} SubsequenceMultiset(sub: seq<Todo>, s: seq<Todo>)
    requires IsSubsequence(sub, s)
    ensures multiset(sub) <= multiset(s)
  {
    if sub != [] {
      assert s == [s[0]] + s[1..];
      if sub[0] == s[0] && IsSubsequence(sub[1..], s[1..]) {
        assert sub == [sub[0]] + sub[1..];
        SubsequenceMultiset(sub[1..], s[1..]);
      } else {
        SubsequenceMultiset(sub, s[1..]);
      }
    }
  }

  /** The filter is the only subsequence of the list that drops every entry
      with the id and keeps every other entry: this pins ExpireTodo down
      without reference to how it is computed. */
  lemma {:induction false} ExpireCharacterized(r: seq<Todo>, todos: seq<Todo>, id: string)
    requires IsSubsequence(r, todos)
    requires forall i :: 0 <= i < |r| ==> r[i].id != id
    requires forall t: Todo :: t.id != id ==> multiset(r)[t] == multiset(todos)[t]
    ensures r == ExpireTodo(todos, id)
  {
    if todos != [] {
      var x, rest := todos[0], todos[1..];
      assert todos == [x] + rest;
      if x.id == id {
        if r != [] {
          assert r[0] != x;
        }
        assert IsSubsequence(r, rest);
        forall t: Todo | t.id != id
          ensures multiset(r)[t] == multiset(rest)[t]
        {
          assert t != x;
        }
        ExpireCharacterized(r, rest, id);
      } else {
        assert multiset(r)[x] == multiset(rest)[x] + 1;
        if IsSubsequence(r, rest) {
          SubsequenceMultiset(r, rest);
          assert false;
        }
        assert r != [] && r[0] == x && IsSubsequence(r[1..], rest);
        assert r == [x] + r[1..];
        forall t: Todo | t.id != id
          ensures multiset(r[1..])[t] == multiset(rest)[t]
        {
          assert multiset(r)[t] == multiset(todos)[t];
        }
        ExpireCharacterized(r[1..], rest, id);
      }
    }
  }

  /** Expire takes exactly the given id out of the ids, and out of the ids
      of completed entries. */
  lemma {:induction false} ExpireIds(todos: seq<Todo>, id: string)
    ensures Ids(ExpireTodo(todos, id)) == Ids(todos) - {id}
    ensures CompletedIds(ExpireTodo(todos, id)) == CompletedIds(todos) - {id}
  {
    if todos != [] {
      ExpireIds(todos[1..], id);
    }
  }

  /** The timer firing after the entry has already gone changes nothing. */
  lemma {:induction false} ExpireAbsent(todos: seq<Todo>, id: string)
    requires id !in Ids(todos)
    ensures ExpireTodo(todos, id) == todos
  {
    if todos != [] {
      ExpireAbsent(todos[1..], id);
    }
  }

  /** Filtering twice by the same id is filtering once. */
  lemma {:induction false} ExpireIdempotent(todos: seq<Todo>, id: string)
    ensures ExpireTodo(ExpireTodo(todos, id), id) == ExpireTodo(todos, id)
  {
    ExpireIds(todos, id);
    ExpireAbsent(ExpireTodo(todos, id), id);
  }

  /** Expire of an id that occurs removes at least one entry. */
  lemma {:induction false} ExpireShrinks(todos: seq<Todo>, id: string)
    requires id in Ids(todos)
    ensures |ExpireTodo(todos, id)| < |todos|
  {
    if todos[0].id != id {
      ExpireShrinks(todos[1..], id);
    }
  }

  /** Removing an entry from a list within capacity clears the capacity flag. */
  lemma ExpireFreesCapacity(todos: seq<Todo>, id: string)
    requires WithinCapacity(todos) && id in Ids(todos)
    ensures !AtCapacity(ExpireTodo(todos, id))
  {
    ExpireShrinks(todos, id);
  }

  /** Expire keeps the ids unique. */
  lemma {:induction false} ExpireKeepsIdsUnique(todos: seq<Todo>, id: string)
    requires UniqueIds(todos)
    ensures UniqueIds(ExpireTodo(todos, id))
  {
    if todos != [] {
      ExpireKeepsIdsUnique(todos[1..], id);
      ExpireIds(todos[1..], id);
    }
  }
}
