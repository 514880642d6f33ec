# aspen tick/reset engine, modelled in Dafny

aspen is a behaviour-tree library. Its tree is made of `Node`s. A node wraps
a status (`Initialized`, `Running`, `Succeeded`, `Failed`), an optional name,
and node-specific *internals*. Ticking a node works in three steps:

1. A node that is already done (succeeded or failed) is reset first.
2. The internals are then ticked against a shared world value.
3. The returned status is stored.

Resetting a node whose status is not `Initialized` (for example, one that
has been ticked) resets its internals and returns it to `Initialized`; a node
that is still `Initialized` is left alone.

The standard nodes this project covers are:

- the composite `Parallel`, which ticks every unfinished child and compares
  the successes and failures with a threshold;
- the decorators `Decorator` (maps the child's status through a function),
  `Invert`, `Repeat`, `UntilFail` and `UntilSuccess`;
- the leaves `AlwaysFail`, `AlwaysSucceed`, `AlwaysRunning`, `Condition`,
  `InlineAction` and `Action` (a task run on a worker thread, whose result
  arrives over a channel);
- the test doubles `NoTick` and `YesTick`;
- the older `Selector` and persistent `Sequence` (whose children are plain
  nodes mutated in place), and the older, world-less decorator implementations.

## How the model is built

The new-API tree is modelled as values. It lives in `tree.dfy`:

- `Node<W>` and `Internals<W>` are datatypes.
- `NodeTick`, `TickBody`, `NodeReset` and `ResetBody` are mutually recursive
  functions. A tick returns the updated node, its status and the updated world.
- A panic of the source becomes `Fatal(p)`, where `Panic` names what failed.
- The worker thread and its channel are replaced by an oracle. `Env` says, for
  each action id, whether the result has arrived yet, is still pending, or
  whether the worker died.

The node-level properties are proved in separate modules:

- `node_props.dfy`: node-level properties, and `Ticks`, a driver for a run of
  repeated ticks.
- `parallel.dfy`: the parallel node, including a loop method `TickParallel`
  that follows the source's counting loop.
- `decorators.dfy`, `leaves.dfy`: decorators and leaves.
- `counters.dfy`: a tree-wide invariant on decorator counters.

`StaleTickResets` also proves a consequence of the first tick step: if a node
is done, ticking it gives the same result as ticking its reset form.

The step rules that the old and new decorators share are in
`decorator_logic.dfy`. The older nodes mutate their fields in place, so they
are modelled as `class`es:

- `old_composites.dfy`: `Selector` and `SequencePersistent`. Each is specified
  against a scan function, which is itself proved equal to an independent
  reference definition.
- `worldless.dfy`: the decorator classes, with their tests written as methods.

Integer widths: the source stores counters as `u32` and sizes as `usize`.
The model uses unbounded `nat`. `counters.dfy` proves the `u32` counter never
passes max(limit, 1). A zero limit still counts one finished run, so the
count can reach 1. The counter therefore cannot overflow when the limit fits
in a `u32`.

Where the documentation comments and the code disagree, the model follows the
code:

- `src/std_nodes/parallel.rs:29` says the node succeeds when the successes
  are "greater than" the threshold. The code at line 143 uses `>=`, as does
  `ParallelVerdict`.
- `src/std_nodes/parallel.rs:31` describes the failure condition in words.
  The code tests `failures + required > n`, and so does the model.
- `src/std_nodes/decorator/repeat.rs:72-73` says a zero limit succeeds at
  once. The code ticks the child first and only counts afterwards. See
  `DecoratorLogic.ZeroLimit`.
- `src/std_nodes/decorator/until.rs:90-91` says a zero limit fails at once.
  A failing child still gives `Succeeded` (lines 119-121), as
  `DecoratorLogic.UntilFailStep` states.
- `src/std_nodes/decorator/until.rs:270-271` says the limit counts resets.
  The code and its test (lines 405-417) count the child's runs.
- `Invert`'s tick (`src/std_nodes/decorator/decorator.rs:142-148`) matches
  only `Succeeded`, `Failed` and `Running`. The status type also has
  `Initialized`. The model passes `Initialized` through unchanged, just as
  it passes `Running` through.

## Model

| member | source | states |
|---|---|---|
| Statuses.Code | src/status.rs:6-19 | each status has its own code in 0..3, in declaration order |
| Statuses.FromCode | src/status.rs:49-53 | a code decodes to a status exactly when it is in 0..3 |
| Statuses.CodeRoundTrip | src/status.rs:49-53 | decoding a status's code gives that status back |
| Statuses.CodeInjective | src/status.rs:6-19 | different statuses have different codes |
| Statuses.Status.IsDone | src/status.rs:26-29 | a status is done when it has finished: succeeded or failed (`DoneExactly` states both directions) |
| Statuses.DoneExactly | src/status.rs:26-29 | a status is done exactly when it is `Succeeded` or `Failed` |
| Testing.NewYesTick | src/std_nodes/testing.rs:49-52 | a new `YesTick` holds its fixed status and has not been ticked |
| Testing.StubTick | src/std_nodes/testing.rs:23-26 | ticking a `NoTick` panics; a `YesTick` returns its fixed status and records the tick |
| Testing.StubReset | src/std_nodes/testing.rs:28-31 | reset clears a `YesTick`'s ticked flag and leaves a `NoTick` alone |
| Testing.StubStatus | src/std_nodes/testing.rs:33-36 | `NoTick` reports `Running`; `YesTick` reports its fixed status |
| Testing.StubDrop | src/std_nodes/testing.rs:72-79 | dropping panics exactly when a `YesTick` was never ticked |
| Testing.YesTickLifecycle | src/std_nodes/testing.rs:56-79 | tick then drop is fine; tick, reset, drop panics; the fixed status survives reset |
| DecoratorLogic.InvertStatus | src/std_nodes/decorator/decorator.rs:142-148 | swaps `Succeeded` and `Failed`; an unfinished status is unchanged |
| DecoratorLogic.InvertInvolution | src/std_nodes/decorator/decorator.rs:142-148 | inverting twice gives the original status; inversion keeps doneness |
| DecoratorLogic.RepeatStep | src/std_nodes/decorator/repeat.rs:86-110 | never fails; unlimited always runs; a finished child run counts; succeeds exactly when a finished run reaches the limit |
| DecoratorLogic.UntilFailStep | src/std_nodes/decorator/until.rs:104-135 | a failing child succeeds at once; a succeeding child counts a run and fails at the limit; an unfinished child keeps it running |
| DecoratorLogic.UntilSuccessStep | src/std_nodes/decorator/until.rs:284-315 | a succeeding child succeeds at once; a failing child counts a run and fails at the limit; an unfinished child keeps it running |
| DecoratorLogic.NeverFailsUnlimited | src/std_nodes/decorator/until.rs:104-135 | with no limit, neither until decorator fails, and `Repeat` never fails |
| DecoratorLogic.CounterStep | src/std_nodes/decorator/until.rs:104-135 | the step shared by the three counting decorators: an unfinished child keeps it running; a counted run adds one and the limit decides between `Running` and the exhausted status; the status waited for succeeds; only limited decorators count |
| DecoratorLogic.Run | src/std_nodes/decorator/repeat.rs:86-110 | n ticks of a counting decorator give n statuses |
| DecoratorLogic.Repeated | src/std_nodes/decorator/repeat.rs:165-178 | the sequence repeats one status n times |
| DecoratorLogic.Countdown | src/std_nodes/decorator/repeat.rs:86-110 | runs up to a limit l give `Running` l-1 times, then the exhausted status |
| DecoratorLogic.RunStep | src/std_nodes/decorator/repeat.rs:86-110 | each further tick appends exactly one status to the run |
| DecoratorLogic.CountedStep | src/std_nodes/decorator/until.rs:119-130 | a counted child run raises the count by one, and the limit decides the status |
| DecoratorLogic.ZeroLimit | src/std_nodes/decorator/repeat.rs:72-110 | a zero limit still ticks the child once, then gives the exhausted status |
| DecoratorLogic.Rotate | src/std_nodes/decorator.rs:537-545 | the test's four-way rotation changes every status |
| DecoratorLogic.RotateCycle | src/std_nodes/decorator.rs:537-545 | four rotations give the original status back |
| Tree.TryRecv | src/std_nodes/action.rs:121-128 | a non-blocking receive is empty, has the result, or is disconnected, matching the oracle; a delivered channel is disconnected |
| Tree.BlockingRecv | src/std_nodes/action.rs:145-154 | a blocking receive gets the worker's result unless it was delivered already or the worker died |
| Tree.ParallelVerdict | src/std_nodes/parallel.rs:143-155 | succeeds exactly at `successes >= required`; fails exactly when the threshold can no longer be reached; runs otherwise |
| Tree.CountStatus | src/std_nodes/parallel.rs:126-140 | a tally never exceeds the number of children |
| Tree.ConstantStatus | src/std_nodes/constants.rs:77-85 | with no child it gives the fixed status; an unfinished child keeps it running; a finished child gives the fixed status |
| Tree.ConditionStatus | src/std_nodes/condition.rs:63-71 | a condition is always done; it succeeds exactly when the predicate holds |
| Tree.ActionPoll | src/std_nodes/action.rs:121-139 | a disconnected channel panics; a pending result keeps it running; a `Running` result releases the channel; a final result is kept and the channel marked delivered |
| Tree.ActionResetAsWritten | src/std_nodes/action.rs:145-154 | reset drops the receiver; with one held it blocks, and panics exactly when the receive finds the channel disconnected |
| Tree.ActionReset | src/std_nodes/action.rs:145-154 | a receiver whose result was delivered is dropped without waiting; otherwise it waits, and panics only if the worker died |
| Tree.NodeTick | src/node.rs:83-93 | the stored status equals the returned status; name and size are kept |
| Tree.TickBody | src/node.rs:142-151 | ticking internals keeps the tree's size; requires the node to be `Initialized` or `Running` |
| Tree.TickChildren | src/std_nodes/parallel.rs:126-140 | every child is kept in place; the size is kept; a child that is already done is left untouched |
| Tree.NodeReset | src/node.rs:100-106 | an `Initialized` node is unchanged; otherwise the result is `Initialized` with its name and size |
| Tree.ResetBody | src/node.rs:100-106 | resetting internals keeps the tree's size |
| Tree.ResetChildren | src/std_nodes/parallel.rs:158-164 | every child is reset to `Initialized` and keeps its position and name |
| Tree.NewNode | src/node.rs:31-40 | a new node is `Initialized`, unnamed, and holds its internals |
| Tree.Name | src/node.rs:53-59 | the given name if any, else the internals' type name |
| Tree.Named | src/node.rs:62-74 | sets the name and changes nothing else |
| Tree.Children | src/node.rs:111-113 | a parallel node exposes its children vector; a decorator its one child; a constant node its optional child; every other leaf none |
| Tree.TypeName | src/node.rs:116-118 | each node kind reports its own type name, and no two kinds report the same one; the stubs define no `type_name`, so `NoTick` and `YesTick` are names of the model |
| NodeProps.TickNotDone | src/node.rs:83-93 | an unfinished node is ticked without a reset, and stores the new status |
| NodeProps.StaleTickResets | src/node.rs:85-87 | a done node is reset before its tick; ticking it equals ticking the reset node, and a failed reset is the tick's panic |
| NodeProps.ResetIdempotent | src/node.rs:100-106 | resetting twice is the same as resetting once; an `Initialized` node is not touched |
| NodeProps.NameLifecycle | src/node.rs:53-74 | a given name is reported and survives tick and reset; without one the type name is reported; renaming keeps the children |
| NodeProps.FreshNode | src/node.rs:31-40 | a new node is `Initialized`, reports its type name, and resetting it changes nothing |
| NodeProps.Ticks | src/node.rs:83-93 | k repeated ticks give k statuses |
| ParallelNode.TalliesBounded | src/std_nodes/parallel.rs:126-140 | successes plus failures never exceed the number of children |
| ParallelNode.VerdictsExclusive | src/std_nodes/parallel.rs:143-155 | the success and failure conditions cannot both hold |
| ParallelNode.ParallelOutcome | src/std_nodes/parallel.rs:120-156 | each verdict holds exactly under its condition on the tallies of the ticked children |
| ParallelNode.ThresholdEdges | src/std_nodes/parallel.rs:143-155 | a zero threshold always succeeds; a threshold above the child count always fails |
| ParallelNode.DoneChildrenKept | src/std_nodes/parallel.rs:128-131 | a finished child is not ticked again |
| ParallelNode.TickedInOrder | src/std_nodes/parallel.rs:126-140 | children are ticked left to right, threading the world; a finished child is kept |
| ParallelNode.FatalPrefix | src/std_nodes/parallel.rs:126-140 | a panic on a prefix of the children is the panic of the whole tick |
| ParallelNode.ResetEveryChild | src/std_nodes/parallel.rs:158-164 | every child's reset is the reset of that child on its own |
| ParallelNode.ParallelResetOnlyChildren | src/std_nodes/parallel.rs:158-164 | resetting a parallel node resets its children and keeps the threshold |
| ParallelNode.TickParallel | src/std_nodes/parallel.rs:120-156 | the counting loop panics exactly when the children's tick does; otherwise it gives the ticked children and the verdict on their tallies |
| ParallelNode.ResetParallel | src/std_nodes/parallel.rs:158-164 | the reset loop gives the children's reset |
| ParallelNode.ResetFatalPrefix | src/std_nodes/parallel.rs:158-164 | a panic while resetting a prefix is the panic of the whole reset |
| ParallelNode.SixChildrenVotes | src/std_nodes/parallel.rs:208-251 | two successes, two failures and two running children: threshold 2 succeeds, 3 is running, 5 fails |
| ParallelNode.SixChildrenAllTicked | src/std_nodes/parallel.rs:208-251 | every child was ticked, so dropping them is fine |
| ParallelNode.StubsVote | src/std_nodes/parallel.rs:120-156 | over fresh stubs, the verdict is taken on the stubs' fixed statuses |
| ParallelNode.SweepStubs | src/std_nodes/parallel.rs:126-140 | ticking fresh stubs ticks each one and keeps the world |
| DecoratorNodes.ConstantLeafTick | src/std_nodes/constants.rs:212-220 | a constant leaf returns its status whether done or not |
| DecoratorNodes.DecoratorTick | src/std_nodes/decorator/decorator.rs:75-80 | `Decorator` ticks its child once and reports the function of the child's status and world; a panic of the child is its panic |
| DecoratorNodes.InvertTick | src/std_nodes/decorator/decorator.rs:142-148 | `Invert` ticks its child once and inverts the child's status |
| DecoratorNodes.DoubleInvert | src/std_nodes/decorator/decorator.rs:224-246 | two unfinished nested `Invert`s give the child's own status |
| DecoratorNodes.DecoratorReset | src/std_nodes/decorator/decorator.rs:82-84 | a decorator's reset resets its child; a counting decorator's count returns to zero |
| DecoratorNodes.CountingNeverFails | src/std_nodes/decorator/repeat.rs:86-110 | `Repeat`, and either until decorator without a limit, never fail |
| DecoratorNodes.CountingCountdown | src/std_nodes/decorator/repeat.rs:86-110 | over a constant child, j ticks up to the limit give `Running` j-1 times, then the exhausted status |
| DecoratorNodes.FiniteLimitFive | src/std_nodes/decorator/until.rs:381-417 | limit 5 gives four `Running` ticks, then the exhausted status |
| DecoratorNodes.UntilShortCircuit | src/std_nodes/decorator/until.rs:371-403 | an until decorator whose child already reaches its goal succeeds on the first tick, with any limit |
| DecoratorNodes.Rotate3 | src/std_nodes/decorator/decorator.rs:192-198 | the test's rotation changes each finished or running status to another one, and keeps `Initialized` |
| DecoratorNodes.Rotate3Cycle | src/std_nodes/decorator/decorator.rs:192-198 | three rotations give the original status back |
| DecoratorNodes.DecoratorRotates | src/std_nodes/decorator/decorator.rs:200-222 | a decorator over a fresh stub returns the rotated status and ticks the stub |
| DecoratorNodes.InvertStubs | src/std_nodes/decorator/decorator.rs:224-246 | `Invert` over a fresh stub returns the inverted status and ticks the stub |
| LeafNodes.ConstantTick | src/std_nodes/constants.rs:77-85 | `AlwaysFail` and `AlwaysSucceed` give their status over no child or a finished child; over a running child they keep running |
| LeafNodes.AlwaysRunningTick | src/std_nodes/constants.rs:311-317 | `AlwaysRunning` always runs and its reset does nothing |
| LeafNodes.ConstantReset | src/std_nodes/constants.rs:87-99 | a constant node's reset resets its child, if it has one; its children are that child |
| LeafNodes.ConstantsOverStub | src/std_nodes/constants.rs:351-400 | over a fresh stub, the constant nodes tick the stub and give their fixed status, or `Running` |
| LeafNodes.ConditionTick | src/std_nodes/condition.rs:63-76 | a condition succeeds exactly when its predicate holds on the world, fails otherwise, and its reset does nothing |
| LeafNodes.InlineActionTick | src/std_nodes/action.rs:248-254 | an inline action gives its task's status and updated world; its reset does nothing |
| LeafNodes.ActionStarts | src/std_nodes/action.rs:96-139 | an idle action starts its worker on a copy of the world and reports `Running` without waiting |
| LeafNodes.ActionPolls | src/std_nodes/action.rs:121-139 | a running action polls its channel in the way `ActionPoll` describes |
| LeafNodes.ActionWaits | src/std_nodes/action.rs:121-139 | while the result has not arrived, every tick gives `Running` |
| LeafNodes.ActionDelivers | src/std_nodes/action.rs:293-341 | once the result arrives, the action gives the task's status, computed from the world it started with |
| LeafNodes.ResetAfterResultAsWritten | src/std_nodes/action.rs:121-154 | as written, after delivering a final result, reset panics whatever the oracle says |
| LeafNodes.ActionRestarts | src/node.rs:85-87 | with the corrected reset, a finished action is reset and a new worker is started |
| LeafNodes.ActionResetOutcome | src/std_nodes/action.rs:145-154 | the corrected reset panics exactly when an undelivered worker died; otherwise it only drops the receiver |
| CounterBounds.Ceiling | src/std_nodes/decorator/repeat.rs:86-110 | the bound a count can reach is at least one and at least the limit |
| CounterBounds.FreshCounterWf | src/std_nodes/decorator/repeat.rs:60-82 | a new counting decorator over a well-formed child is well formed |
| CounterBounds.CountFitsU32 | src/std_nodes/decorator/repeat.rs:86-110 | in a well-formed tree, a count never passes max(limit, 1), so it fits in a `u32` whenever the limit does |
| CounterBounds.StepKeepsBound | src/std_nodes/decorator/until.rs:104-135 | one counting step keeps the count within its bound |
| CounterBounds.TickKeepsWf | src/node.rs:83-93 | a tick keeps every counter in the tree within its bound |
| CounterBounds.BodyKeepsWf | src/node.rs:91-92 | ticking internals keeps every counter within its bound |
| CounterBounds.ChildrenKeepWf | src/std_nodes/parallel.rs:126-140 | ticking children keeps every counter within its bound |
| CounterBounds.ResetKeepsWf | src/node.rs:100-106 | a reset keeps every counter within its bound |
| CounterBounds.ResetBodyKeepsWf | src/std_nodes/decorator/repeat.rs:112-119 | reset keeps counters within bounds, and a reset counter is zero |
| CounterBounds.ResetChildrenKeepWf | src/std_nodes/parallel.rs:158-164 | resetting children keeps every counter within its bound |
| OldComposites.TickedRange | src/std_nodes/selector.rs:39-50 | marking a range of stubs as ticked keeps the length |
| OldComposites.FirstStop | src/std_nodes/selector.rs:39-50 | the first child, from a point on, that does not return the status that means go on |
| OldComposites.Scan | src/std_nodes/selector.rs:39-50 | the loop of both old composites: it panics only on a `NoTick` or on the final sanity check; it keeps the children's number, leaves those before the start alone, and never changes what a child reports |
| OldComposites.ScanOutcome | src/std_nodes/selector.rs:36-57 | the scanning loop equals a reference scan: tick up to the first stop, and panic on `NoTick`, or on no children |
| OldComposites.Selector.constructor | src/std_nodes/selector.rs:26-32 | a new selector holds its children and is `Running` |
| OldComposites.Selector.Tick | src/std_nodes/selector.rs:36-57 | follows the scan with go-on status `Failed`: children ticked up to the first non-failure, and its status stored and returned |
| OldComposites.Selector.Reset | src/std_nodes/selector.rs:59-68 | every child is reset and the status is `Running` again |
| OldComposites.SequencePersistent.constructor | src/std_nodes/sequence.rs:21-28 | a new sequence holds its children, is `Running`, and starts from the first child |
| OldComposites.SequencePersistent.Tick | src/std_nodes/sequence.rs:38-62 | follows the scan with go-on status `Succeeded`; a completed success resets the node to `Running` |
| OldComposites.SequencePersistent.Reset | src/std_nodes/sequence.rs:64-69 | status is `Running` again; the children are not touched |
| OldComposites.EmptyScanAborts | src/std_nodes/selector.rs:53 | a scan over no children fails its assertion |
| OldComposites.ShortCircuit | src/std_nodes/selector.rs:39-50 | the scan stops at the first stopping child and never ticks the `NoTick` after it |
| WorldlessDecorators.MapDecorator.constructor | src/std_nodes/decorator.rs:56-60 | holds the child and the mapping function |
| WorldlessDecorators.MapDecorator.Tick | src/std_nodes/decorator.rs:64-70 | ticks the child once and returns the mapped status; ticking a `NoTick` panics |
| WorldlessDecorators.MapDecorator.Reset | src/std_nodes/decorator.rs:72-75 | resets the child |
| WorldlessDecorators.CountingDecorator.constructor | src/std_nodes/decorator.rs:144-166 | holds the child and the limit; the count starts at zero |
| WorldlessDecorators.CountingDecorator.Tick | src/std_nodes/decorator.rs:170-194 | ticks the child and takes the counting step shared with the new decorators |
| WorldlessDecorators.CountingDecorator.Reset | src/std_nodes/decorator.rs:196-203 | count back to zero, and the child reset |
| WorldlessDecorators.RotateTest | src/std_nodes/decorator.rs:547-570 | each stub status comes back rotated, and the stub was ticked |
| WorldlessDecorators.LimitFiveTest | src/std_nodes/decorator.rs:572-629 | limit 5 gives four `Running` ticks, then the exhausted status |
| WorldlessDecorators.UnlimitedTest | src/std_nodes/decorator.rs:587-629 | unlimited until decorators succeed at once when the child reaches their goal |

## Left out

- Threads, `Arc`/`Mutex` and channel timing are left out. The oracle `Env` says per tick whether a result has arrived, is pending, or the worker died. The worker's task is a function on the world it was started with.
- The LCM message types, `node_message`, the `bt.rs` wrapper, the crate's macros, the `Display` impls and all logging are left out. They are I/O or formatting and not part of the tick/reset engine.
- Closures are modelled as Dafny function values. A `FnMut` inline action's own captured state is not modelled; it can only change the world it returns.
- Update in place: the new-API tree is modelled as values. `&mut` updates become returned nodes, so aliasing never arises. The older nodes are classes, and their methods mutate fields.
- Reset of a whole tree: reset does not touch a node whose status is `Initialized` (src/node.rs:100-106). A node whose own status is `Initialized` but whose subtree is not fresh therefore keeps that subtree. For example, a `Decorator` whose function returns `Initialized` over a finished child still has the finished child after a reset. The model follows the code. It proves each kind's reset on its own (`DecoratorReset`, `ParallelResetOnlyChildren`, `ConstantReset`, `ActionResetOutcome`) and does not claim that a reset returns a whole tree to its newly built state.
- Integer widths: counts and sizes are unbounded. `CounterBounds` proves each `u32` count never passes max(limit, 1), so it fits whenever the limit does. A possible `usize` overflow of `failures + required` in the parallel node is left out.
- `CountedTick`, the test double that fails after a number of ticks, is not part of this model. The decorator tests are modelled with `YesTick` stubs and constant leaves, whose status stays the same from tick to tick.
- In old-API `Selector`, `SequencePersistent`, `MapDecorator` and `CountingDecorator`, children are restricted to `NoTick`/`YesTick` stubs. An old composite cannot nest another old composite. Because stubs ignore the world, the world that the old `Selector` and `Sequence` pass to their children is left out.
- `Tree.ActionReset`: the source's reset panics after a final result was delivered. The model's corrected reset drops that receiver. The behaviour as written is kept as `Tree.ActionResetAsWritten` (see Findings).
- If an action's worker returns `Initialized`, the result is stored and the channel is marked delivered. The next poll then finds it disconnected and panics, as the source would.
- `Tree.TickBody` requires `Initialized` or `Running`. The documented rule (src/node.rs:149-150) is that internals are only ticked then; `NodeTick` is what callers use.

## Findings

| source | as written | input that shows it | evidently intended | confidence | as-written member | corrected member |
|---|---|---|---|---|---|---|
| src/std_nodes/action.rs:145-154 | reset always does a blocking `recv().unwrap()` on a held receiver, including after the tick at lines 121-139 already received the final result | an action whose worker sent `Succeeded`: one tick delivers it; the next tick resets the now-done node, and the receive finds the sender gone, so it panics | a receiver whose result was already taken is dropped without waiting, so a finished action can be ticked again (for example under `Repeat`) | not executed | Tree.ActionResetAsWritten, LeafNodes.ResetAfterResultAsWritten | Tree.ActionReset, LeafNodes.ActionRestarts |
