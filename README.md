# Throttle, array map and todo reducer — a Dafny model

This repository is a collection of JavaScript and React teaching snippets.
Three pieces of live code in it do something that has a behaviour worth
stating. This project models those three and proves what they promise.

- **Throttle wrapper** (`throttle.dfy`, module `Throttle`). `searchWithThrottle(fn, delay)`
  returns a wrapper that keeps one captured timestamp, `Lastcall`, which starts at 0.
  A call at time `now` runs `fn` with its arguments only when `now - Lastcall >= delay`.
  In that case `Lastcall` becomes `now`; otherwise the call is ignored.
  The wrapper is the class `Throttled` with field `lastCall`. Its method `Call(now, args)` takes the
  clock reading as a parameter. A run of `fn` is recorded as an `Event(at, args)`
  appended to the field `executed`. The pure functions `Runs` and `LastCallAfter` give the
  trace semantics: which calls of a sequence run, and what `Lastcall` holds
  afterwards. The class invariant `Valid` ties the object's fields to them.
- **Array map** (`hof.dfy`, module `Hof`). `Array.prototype.calculateTax(cb)` walks the
  array with a `for` loop and pushes `cb(this[i])` onto a new local array.
  `CalculateTax` is that loop. Its input is an `array`, which it only reads
  (the method has no `modifies` clause). The pushed-to array is a sequence value.
  `Map` is the reference definition it is proved against.
- **Todo slice** (`todo_slice.dfy`, module `TodoSlice`). The Redux slice `todos` starts as `[]`.
  Its case reducer `addTodo` pushes `{id: nanoid(), text: payload.text, completed: false}`.
  `TodoStore` holds the state as a sequence field that `AddTodo` appends to.
  The identifier is supplied in the action. `Replay` is the state reached from the initial state by a
  sequence of dispatches. `HandleClick` models the `AddTodo` component's
  handler, which does not dispatch empty text.

## Model

| member | source | states |
|---|---|---|
| `Throttle.Throttled.constructor` | js/debounce-throttle.js:101-102 | a new wrapper has `Lastcall` 0, has run `fn` never and seen no call, and satisfies its invariant |
| `Throttle.Throttled.Call` | js/debounce-throttle.js:103-112 | `fn` runs exactly when `now - Lastcall >= delay`. On a run, `Lastcall` becomes `now` and the event with the call's own arguments is appended. On an ignored call, `Lastcall` and the runs are unchanged. Afterwards the invariant still holds, and the run times, starting from 0, are spaced by `delay` |
| `Throttle.Runs` | js/debounce-throttle.js:106-110 | the runs of a sequence of calls are at most as many as the calls, and every run time is the time of some call |
| `Throttle.RunsSnoc` | js/debounce-throttle.js:106-110 | one more call adds a run exactly when the gate accepts it against the time of the last run so far (or the start value) |
| `Throttle.RunsSpaced` | js/debounce-throttle.js:106-109 | the first run is at least `delay` after the start value, and consecutive runs are at least `delay` apart, for any order of timestamps |
| `Throttle.SpacedApart` | js/debounce-throttle.js:106-109 | in a sequence whose consecutive elements are `delay` apart, with `delay >= 0`, any two elements are `delay` apart |
| `Throttle.RunsApart` | js/debounce-throttle.js:106-109 | with `delay >= 0`, any two runs, not only consecutive ones, are at least `delay` apart |
| `Throttle.LastCallNeverDecreases` | js/debounce-throttle.js:106-109 | with non-decreasing timestamps, `Lastcall` after one more call is not smaller than before it |
| `Throttle.SearchExample` | js/debounce-throttle.js:127-131 | a 300 ms throttle called with "vikas", "vikas singh" and "vikas kumar thakur" within one 300 ms window runs `search` only with "vikas" |
| `Hof.Map` | js/hof.js:131-138 | the mapped sequence has the length of the input |
| `Hof.MapAt` | js/hof.js:135 | element `i` of the mapped sequence is `cb` applied to element `i` of the input |
| `Hof.MapAppend` | js/hof.js:133-136 | mapping a concatenation maps each part in turn, which is the step each pass of the loop takes |
| `Hof.CalculateTax` | js/hof.js:131-138 | the result is `cb` mapped over the array, in order. It has the array's length, so an empty array gives an empty result, and `result[i] == cb(a[i])` for every index. The array is only read |
| `TodoSlice.ReplayContents` | react/redux/src/redux/reducers/TodoSlice.js:5-13 | from the empty initial state, the list has one record per dispatched action, in order, with the action's id and text and `completed` false |
| `TodoSlice.ReplayPrefix` | react/redux/src/redux/reducers/TodoSlice.js:13 | later dispatches leave the records already in the list unchanged and in their order |
| `TodoSlice.TodoStore.constructor` | react/redux/src/redux/reducers/TodoSlice.js:5 | the initial state is the empty list |
| `TodoSlice.TodoStore.AddTodo` | react/redux/src/redux/reducers/TodoSlice.js:7-14 | the list grows by exactly one record. The earlier records are unchanged and in order. The new last record has the supplied id, the payload's text and `completed` false |
| `TodoSlice.TodoStore.HandleClick` | react/redux/src/component/AddTodo.jsx:10-14 | empty input text changes nothing. Any other text appends one uncompleted record with that text and the supplied id |

## Left out

- `Date.now()` is not modelled. The clock reading is the `now` parameter of `Throttled.Call`, and the example takes its three readings as parameters.
- `fn` itself is not modelled. A run is recorded as an event with its arguments. If `fn` throws, the source leaves `Lastcall` unchanged; the model does not cover that case, and it does not cover a wrapper call made from inside `fn` either.
- The debounce wrapper is not modelled. It is commented out in the source, and it is built entirely on `setTimeout`/`clearTimeout`.
- `Throttled.Call` returns whether `fn` ran. The source wrapper returns `undefined`. The flag is the model's record of the accept/ignore decision.
- The tax callbacks `calculateTen` and `twentyPercent` are not modelled, and neither is the printed output: both depend on floating-point multiplication. `CalculateTax` takes any total function as its callback instead.
- `CalculateTax` returns the array it builds as a sequence value. So the model does not represent the new array as a heap object. A value cannot alias the input, and the input is untouched because the method has no `modifies` clause. Sparse arrays, a callback that changes the array, and the index argument that JavaScript's own `map` passes are not modelled either.
- `nanoid()` is not modelled; the identifier arrives with the action. Nothing in the reducer enforces unique identifiers, and the model does not claim they are unique.
- Redux Toolkit's `createSlice`, Immer drafts, `configureStore` and the generated action creators are not modelled. The reducer is a method that updates the state in place, as the `state.push` in the source does.
- The React components, the Express server and the other teaching files are rendering, routing and language demonstrations with no behaviour of their own, so they are out of scope.
