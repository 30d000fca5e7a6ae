# LearningFullStack: the logic of four tutorial examples, in Dafny

The repository is a collection of independent tutorial exercises. Four of them
hold logic of their own rather than framework glue, and this project models
those four and proves what they do:

- **The Kanban board** (`JS/React/Beautiful-DnD/task-app/src/index.js`), in
  `taskboard.dfy`, module `TaskBoard`. The `App` component is a class with the
  fields `columnOrder`, `columns`, `tasks` and `homeIndex`.
  - `OnDragStart` records where the home column sits in `columnOrder`, or -1.
  - `OnDragEnd` clears `homeIndex` and then does one of three things: reorder
    the columns, reorder the tasks of one column, or move a task to another
    column. Each is done with `splice` on a fresh copy.
  - Each method is proved against a function on the board value
    (`DragStartState`, `DragEnd`). Lemmas about those functions give the
    permutation and "nothing else changes" properties of each case, and the
    `index < homeIndex` drop-disabled rule that render computes.
- **The chat triggers** (`JS/Angular/firebase-cloud-tutorial/functions/src/index.ts`),
  in `pizzazz.dfy`, module `MessageTriggers`.
  - `AddPizzazz` is `text.replace(/\bpizza\b/g, '🍕')`. It is modelled as the
    regular-expression engine's scan over the original text: `\w` is
    `[A-Za-z0-9_]` and matches are case-sensitive.
  - Lemmas prove three things about it. No whole-word `pizza` is left. Text is
    unchanged exactly when it has none. Applying it twice equals applying it once.
  - A second, word-by-word definition splits the text at its non-word
    characters and replaces each word that is exactly `pizza`. A lemma proves
    the two definitions agree on every text.
  - The create, delete and update triggers are functions from what they read
    to what they write. Lemmas show that the counter transactions undo each
    other, and that the update trigger's unchanged-text guard stops the chain
    of updates it sets off itself.
- **The Redux counter reducer** (`JS/Redux/learn-react-redux/src/reducers/counter.js`),
  in `counter.dfy`, module `Counter`. It covers the three cases, the default
  state, and the net effect of replaying a sequence of actions.
- **The `Point` class** (`JS/Angular/typescript/main.js`), in `point.dfy`,
  module `Geometry`. The class keeps `_x` and `_y` as fields. The `x` setter
  returns `Fail` with the source's message for negatives and changes nothing;
  otherwise it stores the value.

`wrappers.dfy` (module `Wrappers`) defines the `Option` and `Outcome`
datatypes the models share.

Modelling choices:

- `setState` is modelled as an immediate assignment of the component's fields.
  So `onDragEnd` always leaves `homeIndex` as `null`, written `None`.
- `startCol === finishCol` compares object identity. The model compares the
  two droppable ids instead. The board invariant `ColumnsKeyedById` (every
  column is stored under its own id) makes the two tests agree, and the model
  writes new columns under `column.id` as the source does.
- `homeIndex` is `None` both for `null` and for never set. The rule
  `index < homeIndex` is false for every non-negative index in both cases:
  `null` coerces to 0, and `undefined` coerces to NaN.
- The drag library's guarantees about indices are a precondition
  (`DropInRange`). This replaces modelling `splice`'s clamping of
  out-of-range indices.
- Counter values, payloads, message counts and coordinates are `int`. An
  absent `messageCount` is treated as 0.
- A message's `text` is `None` when it is absent or not a string. The triggers
  then throw at `text.replace`, which the model renders as writing nothing.
  Two different non-string texts are both `None`; the update trigger writes
  nothing for them either way.

## Model

| member | source | states |
|---|---|---|
| `TaskBoard.SpliceRemove` | JS/React/Beautiful-DnD/task-app/src/index.js:103-104 | `splice(i, 1)` on a copy: one element shorter, elements before `i` kept, later ones shifted down, multiset loses exactly `s[i]` |
| `TaskBoard.SpliceInsert` | JS/React/Beautiful-DnD/task-app/src/index.js:110-111 | `splice(i, 0, x)` on a copy: one element longer, `x` at `i`, neighbours kept or shifted up, multiset gains exactly `x` |
| `TaskBoard.MoveShape` | JS/React/Beautiful-DnD/task-app/src/index.js:64-66 | remove-then-insert keeps the length, puts `x` at the destination, and removing it again gives what the removal alone gave; a permutation when `x` is the removed item |
| `TaskBoard.MoveBack` | JS/React/Beautiful-DnD/task-app/src/index.js:81-83 | moving an item back from its destination to its source restores the original sequence |
| `TaskBoard.IndexOf` | JS/React/Beautiful-DnD/task-app/src/index.js:39 | `indexOf`: -1 exactly when absent, otherwise a position holding the id with no earlier occurrence |
| `TaskBoard.App.constructor` | JS/React/Beautiful-DnD/task-app/src/index.js:22 | the state starts as the initial data, with no `homeIndex` |
| `TaskBoard.App.OnDragStart` | JS/React/Beautiful-DnD/task-app/src/index.js:37-44 | sets `homeIndex` to the source droppable's position in `columnOrder` (-1 if absent); nothing else changes |
| `TaskBoard.App.OnDragEnd` | JS/React/Beautiful-DnD/task-app/src/index.js:46-125 | the new state is `DragEnd` of the old one, and every column stays stored under its own id |
| `TaskBoard.DragAndDrop` | JS/React/Beautiful-DnD/task-app/src/index.js:129-133 | a start followed by a drop leaves the drop applied to the starting board, with no column computed drop-disabled |
| `TaskBoard.DragEndKeepsInvariant` | JS/React/Beautiful-DnD/task-app/src/index.js:46-125 | every drop clears `homeIndex`, keeps `tasks` and the set of column ids, and keeps each column stored under its id |
| `TaskBoard.NoDestinationOnlyClearsHome` | JS/React/Beautiful-DnD/task-app/src/index.js:47-55 | with no destination only `homeIndex` changes, to null |
| `TaskBoard.SameLocationOnlyClearsHome` | JS/React/Beautiful-DnD/task-app/src/index.js:57-60 | a drop on the same droppable at the same index only resets `homeIndex` |
| `TaskBoard.ColumnDragReorders` | JS/React/Beautiful-DnD/task-app/src/index.js:63-73 | a column drag keeps the length of `columnOrder` and puts `draggableId` at the destination index; removing it there equals removing the source item from the old order; `columns` and `tasks` are untouched; the result is a permutation when `draggableId` is the source item |
| `TaskBoard.ColumnDragUndone` | JS/React/Beautiful-DnD/task-app/src/index.js:63-73 | dragging the column back from where it landed is in range and restores the old `columnOrder` |
| `TaskBoard.ReorderWithinColumn` | JS/React/Beautiful-DnD/task-app/src/index.js:80-99 | only that column's `taskIds` change, with the same length and the moved id at the destination index; the multiset is kept when the moved id is the source item; `columnOrder`, `tasks` and every other column are unchanged |
| `TaskBoard.MoveBetweenColumns` | JS/React/Beautiful-DnD/task-app/src/index.js:103-124 | the start column loses exactly its id at the source index, since putting it back restores the list; the finish column gains `draggableId` at the destination index, since taking it out restores the list; all other columns, `columnOrder` and `tasks` are unchanged |
| `TaskBoard.MoveBetweenColumnsKeepsIds` | JS/React/Beautiful-DnD/task-app/src/index.js:103-124 | a cross-column move keeps the number of task ids across all columns, and also their multiset when `draggableId` is the source item |
| `TaskBoard.DragEndPermutes` | JS/React/Beautiful-DnD/task-app/src/index.js:62-124 | for every kind of drop of the item found at the source, `columnOrder` and the board-wide multiset of task ids are permutations of the old ones |
| `TaskBoard.DragStartDisablesLeftColumns` | JS/React/Beautiful-DnD/task-app/src/index.js:143 | after a drag starts, column `i` is computed drop-disabled exactly when the home column first occurs to its right; a column drag disables nothing |
| `TaskBoard.NothingDisabledAfterDrop` | JS/React/Beautiful-DnD/task-app/src/index.js:47 | after any drop, `homeIndex` is null and no column is computed drop-disabled |
| `MessageTriggers.PizzazzLeavesNoPizza` | JS/Angular/firebase-cloud-tutorial/functions/src/index.ts:47-49 | the output of `addPizzazz` holds no whole-word `pizza` |
| `MessageTriggers.PizzazzUnchangedIff` | JS/Angular/firebase-cloud-tutorial/functions/src/index.ts:48 | `addPizzazz(t) == t` exactly when `t` holds no whole-word, case-sensitive `pizza` |
| `MessageTriggers.PizzazzIdempotent` | JS/Angular/firebase-cloud-tutorial/functions/src/index.ts:38-49 | `addPizzazz(addPizzazz(t)) == addPizzazz(t)` |
| `MessageTriggers.PizzazzReplacesEveryMatch` | JS/Angular/firebase-cloud-tutorial/functions/src/index.ts:48 | every whole-word occurrence becomes the emoji, and the rest of the text after it is rewritten on its own |
| `MessageTriggers.PizzazzReplacesStandalone` | JS/Angular/firebase-cloud-tutorial/functions/src/index.ts:48 | `pizza!` becomes the emoji followed by `!` |
| `MessageTriggers.PizzazzLeavesGluedWords` | JS/Angular/firebase-cloud-tutorial/functions/src/index.ts:48 | `pizzas`, `_pizza` and `Pizza` are left unchanged |
| `MessageTriggers.PizzazzSplitsAtSeparator` | JS/Angular/firebase-cloud-tutorial/functions/src/index.ts:48 | a non-word character is kept, and the text on each side of it is rewritten on its own: `\b` never lets a match cross it |
| `MessageTriggers.PizzazzOnOneWord` | JS/Angular/firebase-cloud-tutorial/functions/src/index.ts:48 | a text of word characters only becomes the emoji exactly when it is `pizza`, and is kept unchanged otherwise |
| `MessageTriggers.PizzazzIsByWords` | JS/Angular/firebase-cloud-tutorial/functions/src/index.ts:47-49 | for every text, `addPizzazz` equals the word-by-word rewrite: every separator and every word other than `pizza` is kept in place, and each word `pizza` becomes the emoji |
| `MessageTriggers.OnMessageCreate` | JS/Angular/firebase-cloud-tutorial/functions/src/index.ts:6-23 | nothing is written exactly when `text` is absent or not a string (the rewrite throws first); otherwise the written text holds no whole-word `pizza`, equals the original exactly when the original had none, and the count becomes the old count (absent as 0) plus one |
| `MessageTriggers.CountTransactionsInverse` | JS/Angular/firebase-cloud-tutorial/functions/src/index.ts:20-30 | `count + 1` and `count - 1` undo each other in either order |
| `MessageTriggers.CreateThenDeleteRestoresCount` | JS/Angular/firebase-cloud-tutorial/functions/src/index.ts:13-30 | a create followed by a delete restores the room's count when the message has a string `text`; without one, the create threw before counting and the count ends one lower |
| `MessageTriggers.OnMessageUpdate` | JS/Angular/firebase-cloud-tutorial/functions/src/index.ts:33-45 | no write exactly when the text is unchanged or the new text is absent or not a string (the rewrite throws); otherwise the written text has no whole-word `pizza`, is stamped with the given time, and equals the new text exactly when that has none |
| `MessageTriggers.UpdateChainSettles` | JS/Angular/firebase-cloud-tutorial/functions/src/index.ts:38-44 | the update trigger's own writes re-fire it at most twice; the third firing writes nothing |
| `MessageTriggers.CreateThenUpdateSettles` | JS/Angular/firebase-cloud-tutorial/functions/src/index.ts:13-15 | the update fired by the create trigger's write ends the chain after at most one more write |
| `Counter.ReducerIsTranslation` | JS/Redux/learn-react-redux/src/reducers/counter.js:2-10 | each action moves every state by the same amount: its payload, -1 or 0 |
| `Counter.IncrementAddsPayload` | JS/Redux/learn-react-redux/src/reducers/counter.js:4-5 | `INCREMENT` returns `state + payload` |
| `Counter.DecrementIgnoresPayload` | JS/Redux/learn-react-redux/src/reducers/counter.js:6-7 | `DECREMENT` returns `state - 1` whatever its payload |
| `Counter.OtherActionKeepsState` | JS/Redux/learn-react-redux/src/reducers/counter.js:8-9 | any other action type returns the state unchanged |
| `Counter.AbsentStateIsZero` | JS/Redux/learn-react-redux/src/reducers/counter.js:2 | an absent state behaves as 0 |
| `Counter.IncrementThenDecrementRestores` | JS/Redux/learn-react-redux/src/reducers/counter.js:4-7 | `INCREMENT` by 1 and then `DECREMENT` returns the original state |
| `Counter.ReplayAddsNetDelta` | JS/Redux/learn-react-redux/src/reducers/counter.js:2-10 | dispatching a sequence of actions moves the counter by the sum of their deltas |
| `Geometry.Point.constructor` | JS/Angular/typescript/main.js:2-5 | stores `_x` and `_y` exactly as given, with no sign check |
| `Geometry.Point.SetX` | JS/Angular/typescript/main.js:13-18 | a negative value fails with the source's message and leaves `_x` unchanged. A non-negative value becomes what the getter returns. After a successful set `_x >= 0`. `_y` never changes |
| `Geometry.Script` | JS/Angular/typescript/main.js:27-29 | `new Point(1, 2)` reads `x` as 1, and after `pt.x = 10` reads 10 |

## Left out

- Rendering and styling are not modelled. This covers the JSX of `index.js`,
  `InnerList`, `column.jsx` and `task.jsx`, `shouldComponentUpdate`, and the
  colours. The drop-disabled flag is only computed: `InnerList` does not pass
  it on to `Column`, so nothing is blocked. A drop into a column left of the
  home column is applied like any other.
- The rule that `task-1` cannot be dragged (`task.jsx`) is not modelled.
- The DOM side effects of `onDragEnd` (index.js:49-50) and the commented-out
  `onDragUpdate` are not modelled.
- React's batching of `setState` is not modelled. Under batching, the spread
  `...this.state` in the three splice branches would copy the old `homeIndex`
  back over the `null` just set.
- `initial-data.js` is not part of this model. The constructor takes the
  initial board as a parameter.
- `splice` clamps out-of-range indices. The model does not cover this: the
  drag library never reports such indices, and `DropInRange` requires them in
  range.
- Array aliasing is not modelled. The copies made with `Array.from` are
  modelled as sequence values, so the old `columnOrder` and `taskIds` stay
  intact by construction and no lemma states it.
- Not modelled in the chat triggers: the Firebase platform calls
  (`snapshot.ref.update`, `transaction` atomicity and retries), the wildcard
  parameters and `console.log`. `Date.now()` is a parameter.
- `index-promises.ts` and `test.ts` are not modelled; they are asynchronous
  I/O plumbing.
- In JavaScript the emoji is two UTF-16 code units. Here it is one Unicode
  character. Neither form is a word character, so `\b` matching is the same.
- JavaScript number semantics are not modelled. An `INCREMENT` without a
  payload yields NaN in the source; the model has no such case.
- Not modelled in `Point`: `draw` (console output), the empty
  `getDistance` stub, and the property descriptor flags (`enumerable`,
  `configurable`).
- The rest of the repository is not modelled: it is framework glue. This
  covers the exercise tracker (Express routes, Mongoose models, the list
  component), the Django poll models and the Angular components.
