# Decider app: list logic and screen flow

A Dafny model of the logic inside the "let me decide" mobile app (`App.js`).
The user enters a name, builds a list of options, may boost some of them,
and asks the app to pick one. A boosted option counts twice.

The model has four modules:

- `Text` (`text.dfy`) covers whitespace trimming, which the app applies to the name field and to the option field.
- `Options` (`options.dfy`) holds the option record (`text`, `boosted`, `id`) and the three list edits: add a trimmed non-empty entry, toggle the boost flag at an index, and filter out one index.
- `Selector` (`selector.dfy`) holds the weighted pool and the pick.
  - Each option pushes its text once, and a boosted option pushes it a second time.
  - The pick is the pool slot at a drawn index.
  - The random draw is an index parameter `k` with `k < |pool|`.
  - The 2x weighting is stated as counts: how often each text occurs in the pool, and how many draws pick it.
- `Session` (`session.dfy`) is the three-screen state machine: name entry, list editing, and the decision screen.
  - Each handler is a pure state-to-state function.
  - `Step` applies a user event only on the screen that shows its control.
  - `Inv` holds in every reachable state.

## Model

| member | source | states |
|---|---|---|
| Text.Trim | App.js:72 | The trimmed text is the one window of the input that leaves only whitespace outside it and has no whitespace at either end. It is empty exactly when the input is all whitespace. |
| Text.TrimIdempotent | App.js:75 | Trimming an already trimmed text changes nothing, so a stored entry text is its own trim. |
| Options.AddOption | App.js:71-79 | If the trimmed field is non-empty, exactly one unboosted entry with the trimmed text and the given id is appended, the existing entries are kept as a prefix, and the field is cleared. Otherwise list and field are unchanged. A well-formed list stays well-formed. |
| Options.ToggleBoost | App.js:81-87 | For an index in range, only that entry's boost flag flips. Length, every text, every id and every other entry are unchanged. For an index out of range the list is unchanged. |
| Options.ToggleBoostTwice | App.js:83-85 | Toggling the same index twice gives back the original list. |
| Options.RemoveAt | App.js:160 | The index filter, written as a recursion on the tail that shifts the target index down by one, equals the list with that entry cut out (`options[..i] + options[i+1..]`), one shorter and in the original order. Out of range it removes nothing. |
| Options.RemoveAtWellFormed | App.js:160 | Removing an entry keeps every remaining text trimmed and non-empty. |
| Selector.BuildPool | App.js:90-94 | The push loop builds exactly the pool: the copies of each option in list order, two for a boosted option and one otherwise. |
| Selector.PoolLength | App.js:90-94 | The pool length is the number of options plus the number of boosted options. |
| Selector.PoolCount | App.js:91-94 | Each text occurs in the pool as many times as the summed weights of the options carrying it. The weight is 1, or 2 when boosted. |
| Selector.InPoolIff | App.js:90-94 | A text is in the pool exactly when some option carries it. |
| Selector.StartIsPrefixPool | App.js:90-94 | The slots taken by the entries before entry `j`, counted as one per entry plus one per boosted entry, are exactly the pool the loop builds from those entries. |
| Selector.Owner | App.js:91-94 | Every pool slot has the option that pushed it: an option in range whose copies occupy that slot, right after the slots of the options before it (`Selector.StartIsPrefixPool`). The slot holds that option's text. |
| Selector.PickChosen | App.js:95-96 | For any valid drawn index `k`, the pick is what pool slot `k` holds. That is the text of the option that pushed slot `k`, and it has positive weight. |
| Selector.DrawCount | App.js:91-96 | Among all the indices the draw can give, exactly as many pick text `t` as the summed weights of the options carrying `t`. The weight is 1, or 2 when boosted. |
| Selector.PoolNonEmpty | App.js:95-96 | The pool is empty exactly when the list is. With more than one option it has at least two slots, so every draw hits a slot. |
| Selector.BoostDoubles | App.js:93 | Take a boosted option and an unboosted one whose texts no other option shares. The boosted text weighs exactly twice the other, so by `Selector.PoolCount` it has twice as many pool slots. |
| Selector.ToggleBoostWeight | App.js:83-85 | A toggle moves the toggled text's weight up by one when it boosts and down by one when it unboosts. Every other text keeps its weight, and the pool gains or loses one slot. |
| Selector.RemoveAtWeight | App.js:160 | Removing entry `i` takes exactly its weight off its text and leaves every other text's weight unchanged. |
| Selector.CutPickable | App.js:160 | With entry `i` cut out (`options[..i] + options[i+1..]`, the list `Options.RemoveAt` returns), its text stays in the pool exactly when another entry carries the same text. |
| Selector.RemoveAtUnpickable | App.js:160 | After removing entry `i`, its text can still be picked exactly when another entry carries the same text. |
| Selector.AddOptionPool | App.js:73-76 | An accepted add appends the trimmed text to the pool once. A rejected add leaves the pool unchanged. |
| Session.HandleNameSubmit | App.js:31-35 | A name field that is not all whitespace sets the name to its trimmed, non-empty text. An all-whitespace field changes nothing. No other field ever changes. |
| Session.AddOptionStep | App.js:71-79 | In session terms, an add on a field that is not all whitespace appends one unboosted entry with the trimmed text and the given id after the old list, adds that text to the pool and clears the field. An add on an all-whitespace field changes nothing. Nothing but the list and the field changes. |
| Session.ToggleBoostStep | App.js:149 | The star button of entry `index` flips that entry's boost flag, keeps its text and id and every other entry, and grows or shrinks the pool by one slot. An index out of range changes nothing. Nothing but the list changes. |
| Session.RemoveStep | App.js:158-161 | The trash button of entry `index` cuts exactly that entry out of the list, keeping the others in order, and never adds a text to the pool. An index out of range changes nothing. Nothing but the list changes. |
| Session.PickChosenStep | App.js:89-97 | With drawn index `k`, the pick becomes pool slot `k`, which is the text of an entry of the list. When a name is held and every entry is well formed, as in every reachable state, the decision screen then shows. Nothing but the pick changes. |
| Session.ResetChoice | App.js:117-119 | "Choose again" clears the pick and leaves the list and everything else untouched. When a name is held, the list screen returns. |
| Session.Init | App.js:23-28 | The app starts with both text fields empty and no name, list or pick, on the entry screen, in a state satisfying the invariant. |
| Session.Step | App.js:37-184 | An event whose control is not on the current screen leaves the state unchanged. Each event on its own screen runs that control's handler, which is how `Step` is defined. Every event keeps the invariant, and a held name never changes. The invariant says: entries and name are trimmed and non-empty, nothing is listed or picked before a name is held, and a pick is an entry text still in the pool. |
| Session.RunInv | App.js:37-184 | Every state reached by any sequence of events satisfies the invariant. |
| Session.DecisionScreenIff | App.js:111 | In a reachable state with a name held, the decision screen shows exactly while the pick is non-null. |
| Session.NameIsFinal | App.js:37 | Once a name is held it never changes, so the entry screen, which shows exactly while the name is empty, never returns. |
| Session.DecideGated | App.js:173-174 | The decide button changes the state exactly when it is offered, that is on the list screen with more than one option. When offered, it always leads to the decision screen. |

Three behaviours of the code that the model follows as written:

- The list keys its rows by `id` (App.js:141), which assumes ids are unique. The ids come from the clock (App.js:75), so two adds in the same millisecond share an id. Here ids are opaque parameters, and nothing assumes they are unique.
- The trash button removes one entry by position (App.js:160), not every entry with that text. When another entry has the same text, that text stays pickable (`Selector.RemoveAtUnpickable`).
- `pickChosen` (App.js:89-97) has no path for an empty pool. The empty pool is unreachable because the decide button only shows with more than one option, App.js:173 (`Session.DecideGated`, `Selector.PoolNonEmpty`).

## Left out

- Rendering, styles, icons, keyboard avoidance and platform branching: presentation only.
- `Math.random()` and the floating-point multiply and floor: the drawn index is a parameter `k < |pool|`. In `Session.Step` the event carries a natural number reduced modulo the pool length. Probabilities appear only as counts of pool slots and of draws.
- `Date.now().toString()`: a clock reading, modelled as the `id` carried by the add event.
- React's asynchronous state updates and re-rendering: each handler is a pure function applied to one state.
- Text.Trim: the whitespace set is a small fixed one (ASCII whitespace, no-break space, byte-order mark and the two Unicode line separators), not the full Unicode set that JavaScript's `trim` strips.
- `pickChosen` on an empty pool (JavaScript would store `undefined`): not modelled, because the decide button never shows with fewer than two options.
