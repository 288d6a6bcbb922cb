# Toast messages: a verified model of the normaliser, the queue and the display scheduler

The widget shows transient "toast" messages. A caller hands `show(opts)` a loosely typed
options bag; the normaliser keeps each of the five fields (`top`, `duration`, `content`,
`type`, `fontSize`) that meets its constraint and replaces every other field by a fixed
default; the record is appended to a queue. A long-lived polling loop inside the `Message`
component wakes every 500 ms and hands the message at its cursor to a visibility controller:
the node is shown and a hide timer armed. Pointer-enter cancels that timer and sets a hover
flag, pointer-leave arms a fresh one and clears the flag. An idle-reset effect arms a 5000 ms
timer that puts the cursor back to 0 and clears the queue.

The repository holds the widget twice, in TypeScript and in JavaScript. The model follows
both, one module per source file:

- `Hook` (src/hook.ts): the input as `Value = Undefined | Num | Str | Other` per field and
  `Arg = Omitted | Given(opts)`; `GetValidatedMsg` and `Show`, with the field-by-field
  "kept exactly when valid, otherwise the default" contracts, validity of every result, the
  fixed-point and idempotence lemmas, and two concrete calls: a fully valid bag is queued as
  given (`Hook.ShowValidOptions`) and `{top: 10}` yields the default record
  (`Hook.ShowTopTooSmall`).
- `HookJs` (src/hook.js): `Validate` (five flags), the payload `show` builds from them (a field
  of `opts` is read only under a raised flag, which Dafny checks), the same contracts, and
  a lemma that the two versions differ only in the default content.
- `Message` (src/Message.tsx): `MsgsReducer` with lemmas on replayed action histories, and
  the class `Scheduler`, whose fields are the component's refs and state (queue, node
  side-table, cursor, hover flag, pending reset, `stop`, loop state) and whose methods are
  the callbacks: `Show`, `Tick` (one loop iteration), `HideFire`, `Enter`, `Leave`,
  `SetIsHover` (the setter and the reset effect it re-runs), `ResetFire`, `Teardown`.
- `MessageJs` (src/Message.js): the same class with the two differences of that file: the
  loop reads a copy of the queue refreshed by a passive effect (`SyncSnapshot`), and
  `changeCss` throws when exactly one of node and message exists, which ends the loop.

Behaviour of the source that the model reproduces rather than idealises:

- The reset effect depends on `isHover` only, so the reset guard is re-evaluated only when
  the hover flag changes. Without any hover the queue is never reset, and a message shown
  while a reset is pending is cleared with the rest (`Show` leaves `resetArmed` unchanged).
- The node table is written by index, so its length is the largest number of messages ever
  rendered and survives a reset; after a reset the guard stays false until the queue is that
  long again (`Message.HighWaterAfterReset`).
- The loop tests `stop` before its wait, so the tick already waiting runs after teardown. In
  the TypeScript version it finds every ref nulled by the unmount and changes nothing; in the
  JavaScript version it throws whenever some queued message had not been handed off yet.
- Pointer-leave arms a new hide timer without clearing the previous one; the model counts the
  pending timers of each node and tracks whether the one in `timerId` is still pending. While
  pointer-enter and pointer-leave alternate, the only pending timer is the one in `timerId`,
  and hovering a message keeps it shown (`Message.EnterStopsHiding`,
  `Message.OnlyLatestPendingKept`). A pointer-leave that reaches a message whose hand-off
  timer is still pending leaves two timers, and pointer-enter cancels only the newer one, so
  the older one hides the message while it is hovered (`Message.LeaveBeforeEnter`).
- The JavaScript version can throw: its `changeCss` dereferences `undefined` when exactly one
  of the node and the message exists (see "## Findings").
- The two versions have different default contents: `please enter` in TypeScript and
  `请输入内容` in JavaScript.

## Model

| member | source | states |
|---|---|---|
| `Hook.ParseType` | src/hook.ts:58-63 | a string is accepted as a severity exactly when it is one of the four names, and then it names that severity |
| `Hook.GetValidatedMsg` | src/hook.ts:25-77 | the result is always valid; each field is the given value or its default (100, 1.5, `please enter`, info, 1), and a given number or string is kept exactly when it meets its constraint |
| `Hook.Show` | src/hook.ts:84-89 | `show` produces exactly one `add` action, whose payload is the normalised, valid record |
| `Hook.OmittedYieldsDefault` | src/hook.ts:25-34 | no argument, or `{}`, yields exactly the default record |
| `Hook.FieldsIndependent` | src/hook.ts:42-68 | each output field depends only on the same input field |
| `Hook.FixedPointIffValid` | src/hook.ts:28-76 | a record passes through the normaliser unchanged exactly when it meets all constraints |
| `Hook.NormaliseIdempotent` | src/hook.ts:70-76 | normalising a normalised record returns it unchanged |
| `Hook.ShowValidOptions` | src/hook.ts:84-89 | a fully valid bag (top 60, duration 1, `ok`, success, 1) is queued exactly as given |
| `Hook.ShowTopTooSmall` | src/hook.ts:43-45 | `{top: 10}` yields the default record |
| `HookJs.Validate` | src/hook.js:13-65 | five flags, each true exactly when its own field passes its check; all false without an argument, so a raised flag implies a given bag |
| `HookJs.Payload` | src/hook.js:76-82 | the payload is always valid; each field is the given value or its default (`请输入内容` for content), a given number or string kept exactly when valid |
| `HookJs.Show` | src/hook.js:72-84 | exactly one `add` action carrying the valid payload |
| `HookJs.OmittedYieldsDefault` | src/hook.js:13-18 | with `opts` undefined every flag is false and the payload is exactly `defaultMsg` |
| `HookJs.FlagsIndependent` | src/hook.js:20-56 | each flag depends only on its own field |
| `HookJs.NormaliseIdempotent` | src/hook.js:72-83 | re-normalising a payload returns it unchanged |
| `HookJs.AgreesWithTypeScript` | src/hook.js:4-10 | the two normalisers agree on every input except where content falls back to the default |
| `Message.MsgsReducer` | src/Message.tsx:210-217 | `add` yields the old queue with the payload at the end and earlier entries unchanged; `reset` yields the empty queue |
| `Message.ReplayConcat` | src/Message.tsx:210-217 | replaying two batches of actions is replaying the second from the queue the first produced |
| `Message.ReplayAdds` | src/Message.tsx:212-213 | a run of `add` actions appends its payloads in order after the existing entries |
| `Message.ReplayAfterReset` | src/Message.tsx:214-215 | the queue after any history depends only on the actions after the last `reset` |
| `Message.AddsThenReset` | src/Message.js:186-196 | appending any number of messages and then resetting leaves the queue empty |
| `Message.ReplayKeepsValid` | src/Message.tsx:93-97 | when every `add` carries a valid record, the queue never holds an out-of-policy record |
| `Message.Rendered` | src/Message.tsx:183-199 | after a commit of n messages, exactly the first n slots hold nodes, already mounted ones keep their state, new ones are fresh, and the table never shrinks |
| `Message.HandOff` | src/Message.tsx:133-151 | a node not yet handed off becomes visible and listening, with exactly one pending hide timer, the one in `timerId` |
| `Message.CancelLatest` | src/Message.tsx:152-155 | `clearTimeout(timerId)` removes that timer when it is still pending and no other |
| `Message.ArmHide` | src/Message.tsx:156-159 | pointer-leave keeps a listening node consistent and listening with its display unchanged; exactly one more timer is pending, it is the one in `timerId`, and no older one is cleared |
| `Message.FireHide` | src/Message.tsx:140-149 | a fired timer hides the node and is no longer pending; `timerId` stays pending only if it was not the one firing |
| `Message.EnterStopsHiding` | src/Message.tsx:152-155 | pointer-enter on a node whose only pending timer is `timerId` leaves no hide timer pending |
| `Message.OnlyLatestPendingKept` | src/Message.tsx:140-159 | pointer-enter, pointer-leave after pointer-enter and a firing hide timer keep "only `timerId` can be pending" |
| `Message.LeaveOverPendingTimer` | src/Message.tsx:156-159 | pointer-leave keeps that condition exactly when no timer was pending; otherwise a timer survives the next pointer-enter |
| `Message.ChangeCss` | src/Message.tsx:126-131 | never throws; hands off exactly when both the node and the message at the cursor exist |
| `Message.Scheduler.constructor` | src/Message.tsx:82-98 | mounting starts with an empty queue and table, cursor 0, no hover, no reset, and the loop waiting |
| `Message.Scheduler.Show` | src/Message.tsx:100-103 | the normalised record is appended and its node mounted in one commit; nothing else changes; no effect after teardown |
| `Message.Scheduler.Tick` | src/Message.tsx:167-176 | the cursor advances by exactly 1 iff node and message exist at it; the node handed off was not handed off before; the hand-off log grows in queue order; after teardown the tick changes nothing and the loop exits |
| `Message.Scheduler.RunTicks` | src/Message.tsx:168-175 | k iterations with no other event hand off min(k, remaining) messages, one per iteration, in queue order |
| `Message.Scheduler.HideFire` | src/Message.tsx:140-147 | a pending hide timer firing hides its node and changes nothing else |
| `Message.Scheduler.SetIsHover` | src/Message.tsx:105-121 | the reset effect re-runs only when the flag changes: the pending reset is cancelled and re-armed exactly when `cursor > 0`, `cursor` equals the table length and hover is false |
| `Message.Scheduler.Enter` | src/Message.tsx:152-155 | on a handed-off node, cancels its pending `timerId`, sets hover and leaves no reset pending; no hide timer is left when only `timerId` was pending |
| `Message.Scheduler.Leave` | src/Message.tsx:156-159 | on a handed-off node, arms a fresh hide timer and clears hover, re-running the reset effect when hover was set |
| `Message.Scheduler.ResetFire` | src/Message.tsx:112-115 | cursor 0 and the empty queue together, every node unmounted, the table's length kept |
| `Message.Scheduler.Teardown` | src/Message.tsx:178-180 | `stop` is set, a pending reset is cancelled, every ref is nulled with the table's length kept |
| `Message.QueueStaysValid` | src/Message.tsx:93-97 | in every reachable state each queued and each handed-off message meets all five constraints |
| `Message.ResetGuardMeansAllShown` | src/Message.tsx:106-111 | the guard holds iff something was shown, every queued message was handed off, the queue is as long as the table, and nothing is hovered |
| `Message.ShowThenTick` | src/Message.tsx:121 | after one message is shown, the guard holds but no reset is armed, since hover never changed |
| `Message.TwoShownThenReset` | src/Message.tsx:106-121 | two shown messages, a hover in and out and the reset leave an empty queue, cursor 0 and a node table of two slots |
| `Message.ShowAfterReset` | src/Message.tsx:183-199 | a message shown and handed off after that reset leaves one queued message and a two-slot table |
| `Message.HighWaterAfterReset` | src/Message.tsx:194 | after a reset of two messages, one new shown message never satisfies the guard, because the table keeps two slots |
| `Message.LeaveBeforeEnter` | src/Message.tsx:140-159 | a pointer-leave over the pending hand-off timer, then a pointer-enter: the older timer still fires and hides the hovered message |
| `MessageJs.ChangeCssJs` | src/Message.js:103-111 | skips when neither node nor message exists, throws when exactly one does, hands off when both do |
| `MessageJs.ChangeCssAgrees` | src/Message.js:106-108 | whenever it does not throw, this `changeCss` decides as the TypeScript one does |
| `MessageJs.Scheduler.constructor` | src/Message.js:68-80 | mounting starts with empty queue, copy and table, cursor 0, and the loop waiting |
| `MessageJs.Scheduler.Show` | src/Message.js:157-180 | the payload is appended and its node mounted while the loop's copy stays the previous queue until the passive effect |
| `MessageJs.Scheduler.SyncSnapshot` | src/Message.js:77-80 | the passive effect makes the loop's copy equal to the queue |
| `MessageJs.Scheduler.Tick` | src/Message.js:141-150 | throws (ending the loop, nothing else changed) iff exactly one of node and copied message exists; hands off and advances by 1 iff both do; never throws with an up-to-date copy; after teardown the loop ends, by an exception iff some message was not handed off |
| `MessageJs.Scheduler.HideFire` | src/Message.js:117-123 | a pending hide timer firing hides its node and changes nothing else |
| `MessageJs.Scheduler.SetIsHover` | src/Message.js:77-98 | only a change of the flag re-renders: the pending queue copy is flushed first, then the reset is cancelled and re-armed exactly under the guard; setting the same value changes nothing |
| `MessageJs.Scheduler.Enter` | src/Message.js:126-129 | cancels the node's pending `timerId` and sets hover; no hide timer is left when only `timerId` was pending; when hover was clear, the loop's copy catches up with the queue |
| `MessageJs.Scheduler.Leave` | src/Message.js:130-133 | arms a fresh hide timer and clears hover; when hover was set, the loop's copy catches up with the queue and the reset effect re-runs |
| `MessageJs.Scheduler.ResetFire` | src/Message.js:89-92 | cursor 0 and the empty queue together, while the loop's copy still holds the old queue |
| `MessageJs.Scheduler.Teardown` | src/Message.js:152-154 | pending passive effects run, then `stop` is set, the reset cancelled and every ref nulled |
| `MessageJs.QueueStaysValid` | src/Message.js:74-80 | each queued and each handed-off message meets all five constraints, and so does the loop's copy once synced |
| `MessageJs.ThrowsOnlyWhileLagging` | src/Message.js:104-111 | while mounted, a tick can throw only when the loop's copy of the queue lags |
| `MessageJs.ShowThenEarlyTick` | src/Message.js:106-111 | one `show()` and a wake-up before the passive effect end the loop by an exception with nothing handed off |
| `MessageJs.ShowSyncThenTick` | src/Message.js:78-80 | the same wake-up after the passive effect hands the message off |
| `MessageJs.HoverRenderSyncs` | src/Message.js:126-129 | a pointer-enter between a `show()` and the next wake-up flushes the queue copy, so that wake-up hands the new message off |
| `MessageJs.TeardownBeforeHandOff` | src/Message.js:142-154 | unmounting before a queued message is handed off makes the waiting tick throw and end the loop |

## Left out

- DOM and styling: measuring the node width, centring, `style.top`, opacity, the `OFFSET_*` pixel constants, `createPortal`, `message.css`, and the `colorEmoji` table. A node is only absent or mounted, with a display state.
- Time: the 500 ms wait, the 5000 ms reset delay and every hide timer are events the caller fires in any order; no clock is modelled.
- Message.Scheduler.Leave: does not record the length of the timer it arms, `(duration + 0.5) * 1000` ms, because no clock is modelled; the same holds for `Message.HandOff`, `MessageJs.Scheduler.Leave` and `Message.Scheduler.Tick`.
- Hide timers of an unmounted node: they fire on a detached node with no visible effect, so the model drops them when the node is unmounted.
- Message.Scheduler.ResetFire: takes the reset callback and the re-render it causes as one step; a wake-up of the loop between `cursorRef.current = 0` and the commit of the empty queue is not modelled.
- React machinery: the dispatch context, `useMemo`, render scheduling and batching, development-mode double effects, and `MessageWrapper`'s mount gating.
- The unused `msgsForTest` fixtures.
- JavaScript numbers: `NaN` and the infinities are not values of `real`; content length is counted in characters rather than UTF-16 code units.
- A `null` options argument, on which the destructuring in `getValidatedMsg` and `validate` throws: the argument is either left out or an options bag.
- webpack.config.js: build configuration only.

## Findings

| source | as written | input that shows it | evidently intended | confidence | as-written member | corrected member |
|---|---|---|---|---|---|---|
| src/Message.js:106 | `if (!msgNode && !msg) return` lets a tick through when only one of node and message exists, and the next line dereferences `undefined` | unmounting while a queued message has not been handed off: the tick already waiting finds the node nulled while the loop's copy still holds the message (`MessageJs.TeardownBeforeHandOff`); also one `show()` whose loop wake-up comes before the passive effect that copies the queue, where the node is at the cursor and the message is not | return early when either one is missing, as src/Message.tsx:129 does, and retry at the next wake-up | high, not executed | `MessageJs.TeardownBeforeHandOff` | `Message.ChangeCss` |
