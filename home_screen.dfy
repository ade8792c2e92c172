/** The home screen's state: the to-do list the handlers replace through
    `setTodos`, and the removal timers scheduled by the complete handler that
    have not fired yet. The delay itself is not modelled: the environment may
    fire any pending timer at any later point, after any other mutation. */
module Screen {
  import opened Todos

  /** What a load hands back: `None` when nothing usable was stored. */
  datatype Option<T> = None | Some(value: T)

  class HomeScreen {
    /** The ordered list on screen. */
    var todos: seq<Todo>
    /** The ids of the scheduled removals that have not fired, in the order
        they were scheduled. */
    var pendingExpiries: seq<string>

    /** The state every sequence of add, complete and timer firings keeps:
        at most MaxTodos entries, and every completed entry has a removal
        timer still pending for its id. */
    ghost predicate Valid()
      reads this
    {
      WithinCapacity(todos) &&
      forall id :: id in CompletedIds(todos) ==> id in pendingExpiries
    }

    /** Whether the input is disabled, as passed to the input component. */
    function InputDisabled(): bool
      reads this
    {
      AtCapacity(todos)
    }

    constructor ()
      ensures Valid()
      ensures todos == [] && pendingExpiries == []
    {
      todos := [];
      pendingExpiries := [];
    }

    /** The startup load: a stored list replaces the state as it is (its
        length is not checked against MaxTodos); an absent or falsy record,
        a read failure or a parse failure leaves the state alone. */
    method LoadTodos(stored: Option<seq<Todo>>)
      modifies this
      ensures todos == (if stored.Some? then stored.value else old(todos))
      ensures pendingExpiries == old(pendingExpiries)
    {
      if stored.Some? {
        todos := stored.value;
      }
    }

    /** The add handler, with the clock readings for id and timestamp given
        as parameters. */
    method HandleAddTodo(text: string, id: string, createdAt: int)
      modifies this
      ensures todos == AddTodo(old(todos), text, id, createdAt)
      ensures pendingExpiries == old(pendingExpiries)
      ensures old(AtCapacity(todos)) ==> todos == old(todos)
      ensures old(|todos|) == MaxTodos - 1 ==> InputDisabled()
      ensures old(Valid()) ==> Valid()
    {
      if |todos| >= MaxTodos {
        return;
      }
      AddIds(todos, text, id, createdAt);
      todos := todos + [Todo(id, text, false, createdAt)];
    }

    /** The complete handler: marks every entry with the id completed and
        schedules the removal of that id. */
    method HandleCompleteTodo(id: string)
      modifies this
      ensures todos == CompleteTodo(old(todos), id)
      ensures pendingExpiries == old(pendingExpiries) + [id]
      ensures old(Valid()) ==> Valid()
    {
      CompleteIds(todos, id);
      todos := CompleteTodo(todos, id);
      pendingExpiries := pendingExpiries + [id];
    }

    /** One scheduled removal fires: the k-th pending timer is consumed and
        every entry with its id is filtered out, whether or not any is left. */
    method FireExpiry(k: nat) returns (id: string)
      requires k < |pendingExpiries|
      modifies this
      ensures id == old(pendingExpiries[k])
      ensures todos == ExpireTodo(old(todos), id)
      ensures pendingExpiries == old(pendingExpiries[..k] + pendingExpiries[k + 1..])
      ensures id !in Ids(todos)
      ensures old(Valid()) && id in old(Ids(todos)) ==> !InputDisabled()
      ensures old(Valid()) ==> Valid()
    {
      id := pendingExpiries[k];
      ghost var before := todos;
      ghost var scheduled := pendingExpiries;
      ExpireIds(todos, id);
      todos := ExpireTodo(todos, id);
      pendingExpiries := pendingExpiries[..k] + pendingExpiries[k + 1..];
      if id in Ids(before) && WithinCapacity(before) {
        ExpireFreesCapacity(before, id);
      }
      forall other | other in scheduled && other != id
        ensures other in pendingExpiries
      {
        var j :| 0 <= j < |scheduled| && scheduled[j] == other;
        if j < k {
          assert pendingExpiries[j] == other;
        } else {
          assert j > k;
          assert pendingExpiries[j - 1] == other;
        }
      }
    }
  }

  /** The walkthrough of a session: five adds fill the list, a sixth is
      ignored, and completing the first entry then firing its timer frees
      one place again. */
  method Walkthrough()
  {
    var screen := new HomeScreen();
    screen.HandleAddTodo("Write report", "1", 1);
    assert screen.todos == [Todo("1", "Write report", false, 1)];
    screen.HandleAddTodo("Call Sam", "2", 2);
    screen.HandleAddTodo("Pay rent", "3", 3);
    screen.HandleAddTodo("Book flights", "4", 4);
    var rest := [Todo("2", "Call Sam", false, 2), Todo("3", "Pay rent", false, 3),
                 Todo("4", "Book flights", false, 4)];
    assert screen.todos == [Todo("1", "Write report", false, 1)] + rest;
    screen.HandleAddTodo("Water plants", "5", 5);
    rest := rest + [Todo("5", "Water plants", false, 5)];
    assert screen.todos == [Todo("1", "Write report", false, 1)] + rest;
    assert screen.InputDisabled();
    var full := screen.todos;
    screen.HandleAddTodo("x", "6", 6);
    assert screen.todos == full;
    screen.HandleCompleteTodo("1");
    CompleteAt(full, "1", 0);
    assert screen.todos[0].completed && |screen.todos| == 5;
    IdsMembership(rest, "1");
    CompleteAbsent(rest, "1");
    ExpireAbsent(rest, "1");
    var fired := screen.FireExpiry(0);
    assert fired == "1";
    assert screen.todos == rest;
    assert |screen.todos| == 4 && !screen.InputDisabled();
  }
}
