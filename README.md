# Priorities: the home screen's to-do list

Priorities is a mobile to-do app that allows at most five open priorities.
Its home screen (`HomeScreen` in app/index.tsx) holds the list as React state.
It changes the list in three ways:

- **add** appends a new, not yet completed entry, unless the list already
  holds `MAX_TODOS` = 5 entries. In that case nothing happens.
- **complete** maps over the list and sets `completed` on every entry with the
  tapped id. It also schedules a removal of that id one second later.
- **expire** is that delayed removal. It filters out every entry with the id.

The input field is hidden while the list holds five or more entries.

This project models that state in Dafny, in two modules:

- `todos.dfy`, module `Todos`, holds the pure part. It has the `Todo` record,
  the three transitions as functions (`AddTodo`, `CompleteTodo`, `ExpireTodo`)
  and the lemmas about them. The lemmas cover length, order, "nothing else
  changes", idempotence, the capacity flag, the ids and the completed ids.
  `ExpireCharacterized` pins the filter down independently: it is the only
  subsequence of the list that drops every entry with the id and keeps every
  other entry.
- `home_screen.dfy`, module `Screen`, holds the stateful part. Class
  `HomeScreen` has two fields. `todos` is the list. `pendingExpiries` lists
  the ids whose removal timer has been scheduled and has not yet fired. The
  handlers delegate to the pure functions. Any pending timer may fire at any
  later point (`FireExpiry`), after any other mutation, even when its entry is
  already gone. `Valid()` says two things: the list holds at most 5 entries,
  and every completed entry still has a removal pending for its id. The
  constructor establishes it, and add, complete and every timer firing
  preserve it. `Walkthrough` is a client that runs one session: five adds, a
  sixth that is refused, then a complete and its expiry.

Ids come from the clock (`Date.now().toString()`), so the code does not make
them unique. Complete and expire are therefore stated for *every* entry that
carries the id, which is what `map` and `filter` do. Uniqueness is a separate
family of lemmas: complete and expire preserve it, and add preserves it when
it is given a fresh id.

## Model

| member | source | states |
|---|---|---|
| `Todos.AddTodo` | app/index.tsx:57-68 | on a list of 5 or more entries the result is the same list; otherwise the result is one longer, its prefix is the old list unchanged, and the new tail entry has the given id, text and timestamp and is not completed |
| `Todos.MarkCompleted` | app/index.tsx:47 | the callback keeps id, text and createdAt; the result is completed iff the entry was already completed or its id matches |
| `Todos.CompleteTodo` | app/index.tsx:45-49 | the map keeps the length of the list |
| `Todos.ExpireTodo` | app/index.tsx:53 | the filter never lengthens the list, and no entry of the result carries the id |
| `Todos.AddIds` | app/index.tsx:60-67 | add introduces the given id only when the list is not full, and it leaves the set of completed ids unchanged |
| `Todos.AddKeepsIdsUnique` | app/index.tsx:60-67 | with an id absent from the list, add keeps all ids distinct |
| `Todos.CompleteAt` | app/index.tsx:46-48 | at every position, an entry with the id becomes completed with its other fields unchanged, and any other entry is unchanged; together with the length this gives order preservation |
| `Todos.CompleteAbsent` | app/index.tsx:46-48 | completing an id that is not in the list leaves the list unchanged |
| `Todos.CompleteIdempotent` | app/index.tsx:47 | completing the same id twice gives the same list as completing it once |
| `Todos.CompleteNeverUncompletes` | app/index.tsx:47 | an entry that is already completed stays exactly as it was; complete never sets `completed` back to false |
| `Todos.CompleteIds` | app/index.tsx:45-49 | complete keeps the set of ids, and the completed ids grow by the given id exactly when that id occurs in the list |
| `Todos.CompleteKeepsIdsUnique` | app/index.tsx:45-49 | complete keeps all ids distinct |
| `Todos.ExpireSubsequence` | app/index.tsx:53 | the filter's result is a subsequence of the list: entries are dropped, and the rest keep their relative order |
| `Todos.ExpireKeepsOthers` | app/index.tsx:53 | every entry whose id differs survives the filter, as many times as it occurred |
| `Todos.ExpireCharacterized` | app/index.tsx:53 | any subsequence of the list that drops all entries with the id and keeps all others equals the filter's result |
| `Todos.ExpireIds` | app/index.tsx:53 | expire removes exactly the given id from the ids and from the completed ids |
| `Todos.ExpireAbsent` | app/index.tsx:52-54 | a timer that fires after its entry is already gone leaves the list unchanged |
| `Todos.ExpireIdempotent` | app/index.tsx:53 | filtering twice by the same id gives the same list as filtering once |
| `Todos.ExpireShrinks` | app/index.tsx:53 | when the id occurs in the list, expire makes the list strictly shorter |
| `Todos.ExpireFreesCapacity` | app/index.tsx:84 | removing a present id from a list of at most 5 entries clears the capacity flag |
| `Todos.ExpireKeepsIdsUnique` | app/index.tsx:53 | expire keeps all ids distinct |
| `Screen.HomeScreen.constructor` | app/index.tsx:12 | the screen starts with an empty list and no pending removals, a valid state |
| `Screen.HomeScreen.LoadTodos` | app/index.tsx:24-33 | a stored list replaces the state unchecked; an absent record or a failed read or parse leaves the state unchanged |
| `Screen.HomeScreen.HandleAddTodo` | app/index.tsx:57-68 | the new list is `AddTodo` of the old one; a full list is untouched; from 4 entries the input becomes disabled; validity is preserved |
| `Screen.HomeScreen.HandleCompleteTodo` | app/index.tsx:43-55 | the new list is `CompleteTodo` of the old one, the id joins the pending removals, and validity is preserved |
| `Screen.HomeScreen.FireExpiry` | app/index.tsx:52-54 | one pending removal is consumed and its id filtered out; afterwards no entry has that id; when the id was present in a valid state, the input is re-enabled; validity is preserved |

## Left out

- Saving (app/index.tsx:35-41) writes the list to AsyncStorage after every change. It is pure I/O, and it changes no state of the screen.
- Screen.HomeScreen.LoadTodos: reading and JSON parsing (app/index.tsx:24-33) are foreign calls. The load therefore takes the parsed value as a parameter. `None` stands for an absent or empty record, a read error or a parse error. A stored value that parses but is not a list of entries is not modelled. The load checks neither the 5-entry cap nor the pending-removal part of `Valid()`. A completed entry saved less than a second before the app closed comes back with no timer scheduled. It then stays until it is tapped again.
- The one-second delay and React's effect and render scheduling (app/index.tsx:15-22, 52) are not modelled. The timer becomes an explicit `FireExpiry` that may consume any pending removal, in any order. This permits more orders than equal delays would produce.
- The stale read of `todos` in the add handler (app/index.tsx:58, 67) is not modelled. The model applies every update to the current list. React's batching of several updates within one render is a concurrency concern.
- `Date.now()` supplies the id and the timestamp (app/index.tsx:61, 64). Both are parameters of add. The model does not tie the id to the timestamp's decimal text.
- The input component trims the text and refuses empty text (components/TodoInput.tsx:13-14). It also caps the text at 100 characters. These checks happen before the add handler, which does not repeat them, so the model accepts any text.
- Rendering, animation and the `n/5` counter (app/index.tsx:70-88, components/TodoList.tsx, components/TodoItem.tsx) are presentation only.
