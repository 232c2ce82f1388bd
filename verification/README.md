# Fractal engine work accounting, in Dafny

This project models the discrete bookkeeping behind the two concurrent fractal
engines of the repository, and proves what that bookkeeping guarantees
whatever order the thread pool runs the work in.

- **`FractalGenerator`** (FractalAppExt.java) is the UI-free engine.
  - A `FractalControl` handle bundles an outstanding-unit counter, a cancel
    flag, a result queue and a pool.
  - `generate` submits one root unit with the counter already at 1.
  - A tree request runs `submitBranch`. Each call past its check puts one
    `Line`, counts and submits one child turned by -angleDeg, and recurses
    into the other child turned by +angleDeg.
  - A Mandelbrot or Julia request runs `generateSet`, which counts and
    submits one row unit per row index. A row unit checks the cancel flag on
    entry and before every column, then puts a `RowInfo`.
  - Every unit decrements the counter in `finally`. The thread whose
    decrement reads 0 then shuts the pool down, unless it is already shut
    down.
  - `update` drains the queue and applies the same check on its own. The
    caller's timer calls `update` every tick, then stops once the pool has
    terminated.
- **`FractalTree`** (FractalTree.java) is the older engine.
  - A monitor-based `TaskCounter` has `taskSubmitted`, `taskFinished` (which
    notifies at zero) and `awaitZero`.
  - `makeFractalTree` puts a line into an `ArrayBlockingQueue` of capacity
    1000, forks the child turned by -20 degrees and recurses into the one
    turned by +20 degrees.
  - `main` counts and submits the root of a height-10 tree, waits for zero,
    then shuts the pool down.

## How it is modelled

- Both engines are state machines over immutable records.
  - `Generator.Control` holds the counter, the flag, the queue, the
    shutdown count, the pending units, the items published so far and the
    submissions made so far.
  - `LegacyTree.Run` holds `main`'s phase, the counter, the notifications,
    one frame per unfinished unit, the queue, the drawn lines, and the
    submission and finish counts.
  - An action sequence picks what happens next. It can be which pending
    unit a pool thread runs, a cancel, either half of a timer tick, a draw,
    or `main`'s next move.
- In `FractalGenerator` each unit runs as one atomic step up to and
  including the decrement in its `finally` (`Generator.Step`).
  - The test and `shutdown()` that follow a decrement reading 0 are a step
    of their own (`Generator.FinishClose`), so `update`'s check can come
    in between.
  - A timer tick is two steps: the drain (`Generator.BeginTick`) and the
    termination test. Pool threads can act in between. The machine runs
    the corrected test, `Generator.EndTick`, which drains once more before
    it stops the timer; the test as the caller writes it is
    `Generator.EndTickAsWritten` (see "## Findings").
  - The synchronous `submitBranch` chain and a row unit's column loop run
    inside that step.
  - The caller may set the cancel flag while a unit runs. An
    `Observation` says from which of the unit's numbered flag checks on the
    flag is seen.
- In `FractalTree` a step is one level of one unit (`LegacyTree.Advance`),
  because `put` on the full bounded queue blocks a unit in mid-chain until
  the drawing loop takes a line (`LegacyTree.Draw`).
- Floating point is abstracted away.
  - Branch endpoints (`Env.endpoint`, `Canvas.offset`) and pixel colours
    (`Env.pixel`) are uninterpreted functions.
  - Angles and lengths are exact reals.
- Java `int` semantics are written out where the model depends on them:
  - `w/2` truncates toward zero (`Basics.JavaDiv`);
  - `(int)(h*0.9)` truncates (`Basics.TruncToInt`);
  - `Color.getRGB()` packs to a signed 32-bit value (`Basics.Argb`).
- The main proof device is a potential.
  - Every pending unit owes the output that it and everything it will
    transitively submit would publish.
  - A branch of height h owes 2^h - 1 lines. A row unit owes its row.
  - Published plus owed never exceeds the full output, and equals it while
    nobody has cancelled.
- Two facts about the older engine come out of its invariants.
  - A complete height-10 tree has 1023 lines, which is more than the queue
    holds.
  - So `main` only gets past `awaitZero` if the drawing loop has taken at
    least 23 lines (`LegacyTreeProofs.CompletionNeedsDrawing`).
  - If the drawing loop never takes a line, as when `getGraphics()` returns
    null, `main` waits forever (`LegacyTreeProofs.UndrawnRunNeverFinishes`).

## Model

| member | source | states |
|---|---|---|
| Basics.JavaDiv | FractalAppExt.java:307 | `w/2` truncates toward zero: the remainder has the sign of the dividend and is smaller than the divisor |
| Basics.TruncToInt | FractalAppExt.java:307 | `(int)(h*0.9)` truncates toward zero: the result is within one of the real value, on the zero side |
| Basics.Argb | FractalAppExt.java:339-341 | an opaque colour's `getRGB()` is a negative 32-bit int (alpha 255 sets the sign bit) |
| Basics.ArgbUnpacks | FractalAppExt.java:339-341 | the packed value gives back blue, green and red in its low three bytes, so distinct colours give distinct values |
| Generator.Generate | FractalAppExt.java:294-301 | a fresh handle has count 1, cancel flag false, an empty queue, a pool not shut down, and the root unit as its only pending unit |
| Generator.ShutdownIfIdle | FractalAppExt.java:280-282 | the pool is shut down only when the count reads 0 and it is not yet shut down; nothing else changes |
| Generator.Cancel | FractalAppExt.java:129 | cancelling sets the flag and changes nothing else |
| Generator.Update | FractalAppExt.java:276-284 | `update` returns the whole queue in FIFO order, leaves it empty, and shuts down only at count 0 on a live pool |
| Generator.SubmitBranch | FractalAppExt.java:323-363 | a chain of height h puts one line and submits one child per level; it stops at height 0 or at the first check that sees the flag, so a flag first seen at check k puts exactly k - level lines (none if k <= level, at most h); without cancellation it puts exactly h lines; the children have heights h-1, h-2, ... in order (geometry and colours: `GeneratorProofs.BranchSegments`, `GeneratorProofs.BranchPath`) |
| Generator.RunRowUnit | FractalAppExt.java:384-417 | a row unit publishes exactly when w >= 0 and none of its w+1 flag checks sees the flag; the row has index y, length w, and each entry is that column's pixel colour |
| Generator.GenerateSet | FractalAppExt.java:381-386 | `generateSet` submits h row units (none for h <= 0) |
| Generator.GenerateSetRows | FractalAppExt.java:381-386 | the submitted units are exactly the rows 0..h-1, each once |
| Generator.Step | FractalAppExt.java:303-318 | a unit run with the flag already set puts nothing; the queue only grows at its end; a step never shuts the pool down itself; the thread is left with its shutdown test exactly when its decrement reads 0; the flag never clears |
| Generator.FinishClose | FractalAppExt.java:314-316 | the thread whose decrement read 0 leaves the pool shut down; it calls `shutdown()` only if the pool is not shut down yet; nothing else changes |
| Generator.Poll | FractalAppExt.java:101 | `update` hands the caller the queued items after the ones it already had and empties the queue |
| Generator.BeginTick | FractalAppExt.java:100-101 | a running timer's tick starts with `update`; a stopped timer does nothing |
| Generator.EndTickAsWritten | FractalAppExt.java:114-120 | the tick's termination test shows the status and stops the timer exactly when the pool has terminated, and delivers nothing |
| Generator.EndTick | FractalAppExt.java:114-120 | the same test, corrected: when it stops the timer it first hands over everything still queued |
| GeneratorProofs.EndTickAgrees | FractalAppExt.java:114-120 | the corrected and the as-written test agree on the pool, the flag, the units, the published items, the status shown and the timer; only the hand-over differs |
| GeneratorProofs.SegmentShift | FractalAppExt.java:346-362 | segment k of a chain is segment k-1 of its synchronous child's chain, which starts one `angleDeg` further round and one shrink shorter |
| GeneratorProofs.BranchSegments | FractalAppExt.java:336-353 | segment k of a `submitBranch` chain points at angle + k*angleDeg with the length shrunk k times, has the colour of height h - k, and the child submitted after it starts at its end, turned by -angleDeg, one shrink shorter, at height h-1-k |
| GeneratorProofs.BranchPath | FractalAppExt.java:336-362 | the segments of a chain form a path: the first starts at (x, y), and each later one starts where the previous one ended |
| GeneratorProofs.DescendingOwed | FractalAppExt.java:348-362 | children of heights h-1, h-2, ... plus one line each owe at most 2^h - 1 lines, exactly that when all h are there |
| GeneratorProofs.DescendingWeight | FractalAppExt.java:348-362 | the same children weigh less than the branch that submitted them, so the recursion terminates |
| GeneratorProofs.BranchRowFree | FractalAppExt.java:323-363 | a tree unit publishes no row and submits no row unit |
| GeneratorProofs.GenerateSetSnoc | FractalAppExt.java:381-386 | the row loop for h rows is the loop for h-1 rows followed by row h-1 |
| GeneratorProofs.SetBalance | FractalAppExt.java:381-386 | the row units of `generateSet` owe one row per index 0..h-1 (none if the width makes rows throw) |
| GeneratorProofs.TreeRootPays | FractalAppExt.java:305-308 | the tree root unit publishes and submits exactly what it owed when the flag is not seen, and no more otherwise |
| GeneratorProofs.SetRootPays | FractalAppExt.java:309-311 | the set root unit passes all it owes on to its h row units |
| GeneratorProofs.RowPays | FractalAppExt.java:386-417 | a row unit publishes its row or nothing, within what it owed, and exactly it when it sees no flag and the width is non-negative |
| GeneratorProofs.TaskPays | FractalAppExt.java:303-318 | every kind of unit pays what it publishes out of what it owed |
| GeneratorProofs.StartValid | FractalAppExt.java:294-301 | a fresh handle satisfies the counter, accounting, shape and delivery invariants |
| GeneratorProofs.StepCounted | FractalAppExt.java:348-358 | after any step the count still equals the number of unfinished units; the pool is shut down at most once and only at zero; at zero it is shut down or about to be |
| GeneratorProofs.StepAccounted | FractalAppExt.java:330-362 | after any step, published plus owed stays within the full output, and equals it while nobody has cancelled |
| GeneratorProofs.StepFits | FractalAppExt.java:381-386 | pending units stay of the request's kind, and row units stay within 0..h-1 |
| GeneratorProofs.StepGoodRows | FractalAppExt.java:388-408 | every published row is full width with each column's own pixel colour |
| GeneratorProofs.StepShaped | FractalAppExt.java:384-417 | both shape invariants survive every step |
| GeneratorProofs.StepDecreasesWeight | FractalAppExt.java:330-362 | every step strictly lowers the total weight of pending units |
| GeneratorProofs.StepDelivered | FractalAppExt.java:343 | a step keeps "delivered then queued equals published" |
| GeneratorProofs.StepValid | FractalAppExt.java:303-318 | any step keeps every invariant |
| GeneratorProofs.CloseValid | FractalAppExt.java:314-316 | the closing thread's test and shutdown keep every invariant |
| GeneratorProofs.CancelValid | FractalAppExt.java:125-130 | cancelling a current run keeps every invariant |
| GeneratorProofs.BeginTickValid | FractalAppExt.java:100-101 | the drain at the start of a tick keeps every invariant, including when `update`'s check shuts the pool down |
| GeneratorProofs.EndTickValid | FractalAppExt.java:114-120 | the corrected end of a tick keeps every invariant; a stopped timer has shown the status the flag gives on a terminated pool and left nothing queued |
| GeneratorProofs.ApplyValid | FractalAppExt.java:100-130 | whatever happens next (a unit, a closing thread's shutdown, a cancel, either half of a tick) keeps every invariant |
| GeneratorProofs.ApplyWeight | FractalAppExt.java:303-318 | running a unit strictly lowers the pending weight; no other action changes the pending units or the request |
| GeneratorProofs.ExecuteValid | FractalAppExt.java:303-318 | any action sequence keeps every invariant |
| GeneratorProofs.ReachableValid | FractalAppExt.java:294-318 | every state reachable from `generate` satisfies the invariants and keeps its request |
| GeneratorProofs.CancelSticks | FractalAppExt.java:129 | once set, the cancel flag stays set for the rest of the run |
| GeneratorProofs.UnitsRunBounded | FractalAppExt.java:330-362 | the number of units run is bounded by the weight of what was pending |
| GeneratorProofs.RunTerminates | FractalAppExt.java:303-318 | a run executes at most 2^depth units (tree) or h+1 units (sets) |
| GeneratorProofs.CounterProtocol | FractalAppExt.java:314-316 | in every reachable state the count equals the number of unfinished units and is never negative; the pool has been shut down at most once and only when no unit is left; when no unit is left it is shut down or the last thread is about to shut it down |
| GeneratorProofs.UpdateShutdownWindow | FractalAppExt.java:280-282 | `update`'s own shutdown check fires exactly when the last unit's decrement has read 0, its thread has not yet done its test, and no earlier `update` has already shut the pool down |
| GeneratorProofs.UpdateCanShutDown | FractalAppExt.java:280-282 | that window is reachable: after the root unit and the single row unit of a one-row set request, the closing thread has not yet done its test, and `update` is the one that shuts the pool down |
| GeneratorProofs.DeliveryExact | FractalAppExt.java:100-120 | the caller has received a prefix of everything put, in order, and all of it once the timer has stopped |
| GeneratorProofs.StoppedDeliversNothing | FractalAppExt.java:114-118 | once the timer has stopped, the caller receives nothing more, whatever happens next |
| GeneratorProofs.LastLineLost | FractalAppExt.java:100-120 | with the termination test as written, a depth-1 tree can stop the timer showing "Rendered." while its one line is still queued and undelivered |
| GeneratorProofs.TreeRunOutput | FractalAppExt.java:330-362 | a tree run pairs each line with one submission, never exceeds 2^d - 1 lines, and a finished uncancelled run has exactly 2^d - 1 lines and 2^d - 1 submissions |
| GeneratorProofs.SetRunOutput | FractalAppExt.java:381-418 | a set run publishes each row index in 0..h-1 at most once and no other index; every row is correct; a finished uncancelled run (w >= 0) published each row exactly once |
| GeneratorProofs.RowsDeterministic | FractalAppExt.java:392-405 | a row's content depends only on the request and its index, not on scheduling or cancellation |
| GeneratorProofs.RenderedIsComplete | FractalAppExt.java:114-116 | "Rendered." is shown only once the whole output has been published and handed to the caller |
| GeneratorProofs.CancelledNeverRendered | FractalAppExt.java:114-130 | after a cancel of the current run, the flag stays set and the run is never reported as "Rendered." |
| GeneratorProofs.BranchColour | FractalAppExt.java:339-341 | foliage (20,140,20) packs to -15430636 and dark grey (40,40,40) to -14145496; a segment is foliage exactly when its height is below 5 |
| GeneratorProofs.DepthOneTree | FractalAppExt.java:305-308 | a depth-1 tree publishes exactly one foliage segment; its one child has height 0 and does nothing |
| LegacyTree.TaskSubmitted | FractalTree.java:31-33 | `taskSubmitted` raises the counter by exactly 1 |
| LegacyTree.TaskFinished | FractalTree.java:35-40 | `taskFinished` lowers the counter by exactly 1 and notifies exactly when it reaches 0 |
| LegacyTree.MakeLevel | FractalTree.java:58-87 | height 0 returns; otherwise one line starting at (x, y), green iff the height is at most 2 and black otherwise, and children at angle -20 and +20 from its end, both one lower |
| LegacyTree.Init | FractalTree.java:12-13 | the program starts with counter 0, no units, an empty queue and a live pool |
| LegacyTree.MainSubmit | FractalTree.java:132-144 | `main` counts its root unit and submits a height-10 tree at (width/2, height-100), pointing up |
| LegacyTree.MainAwait | FractalTree.java:146-152 | `main` gets past `awaitZero` and shuts the pool down only when the counter is at most 0 |
| LegacyTree.Draw | FractalTree.java:96-100 | the drawing loop takes the oldest line; no line is lost or reordered |
| LegacyTree.Advance | FractalTree.java:51-88 | one level puts at most its one line; a unit facing a full queue is blocked and changes nothing; the queue never goes over capacity |
| LegacyTreeProofs.CounterPairs | FractalTree.java:31-40 | a submission followed by its finish restores the counter, and that finish notifies exactly when the counter was 0 |
| LegacyTreeProofs.DescendShape | FractalTree.java:58-87 | along one unit's chain, level k is at angle + 20k and height h - k; its line starts at the unit's position, has length (h - k)*10 at that angle, is green exactly at heights up to 2, and ends where level k+1 starts; its forked child points 20 degrees the other way, one level lower |
| LegacyTreeProofs.ForkOwes | FractalTree.java:75-87 | a forking level owes one line plus what its two children owe |
| LegacyTreeProofs.InitValid | FractalTree.java:29 | the initial state satisfies the invariants |
| LegacyTreeProofs.LevelValid | FractalTree.java:51-88 | a level keeps the invariants and uses up exactly one remaining level unless blocked |
| LegacyTreeProofs.DrawValid | FractalTree.java:96-100 | drawing keeps the invariants |
| LegacyTreeProofs.SubmitValid | FractalTree.java:137-144 | `main`'s submission keeps the invariants |
| LegacyTreeProofs.AwaitValid | FractalTree.java:146-152 | leaving `awaitZero` keeps the invariants: no unit is left then |
| LegacyTreeProofs.NextValid | FractalTree.java:51-88 | any action keeps the invariants |
| LegacyTreeProofs.ExecuteValid | FractalTree.java:77-85 | any action sequence keeps the invariants, and each level run uses up one remaining level |
| LegacyTreeProofs.StartIsInit | FractalTree.java:29 | a valid state before `main` submits is exactly the initial state |
| LegacyTreeProofs.CounterProtocol | FractalTree.java:77-85 | the counter is never negative, equals the number of unfinished units and submissions minus finishes, and notifyAll fires at most once |
| LegacyTreeProofs.AwaitZeroMeansDone | FractalTree.java:135-152 | past `awaitZero` every unit has finished: 1024 submissions each matched by a finish, 1023 lines put, one notification, 2047 levels run |
| LegacyTreeProofs.CompletionNeedsDrawing | FractalTree.java:12-13 | the tree's 1023 lines exceed the capacity of 1000, so a finished run drew at least 23 lines |
| LegacyTreeProofs.NoDrawKeepsDrawn | FractalTree.java:96-100 | only the drawing loop takes lines off the queue |
| LegacyTreeProofs.UndrawnRunNeverFinishes | FractalTree.java:90-94 | if the drawing loop never takes a line, `main` never gets past `awaitZero` |

## Left out

- The Swing user interface (panels, painting, the status text, `invokeLater`) is not modelled. Only the timer tick at FractalAppExt.java:100-120 is kept: its `update` (`Generator.BeginTick`) and its termination test and stop (`Generator.EndTickAsWritten` as written, `Generator.EndTick` corrected). The runnable handed to `invokeLater` is taken to run before the next tick, as the event queue orders them.
- The parameter clamps at FractalAppExt.java:76-79 are the caller's. `Request.depth` is a `nat` because the clamp makes it at least 1; a negative depth would recurse until the stack overflows.
- Slow mode (`Thread.sleep` pacing) is timing only and is not modelled.
- Floating point is not modelled: trigonometric endpoints, the pixel-to-complex mapping, `mandelbrot`, `julia` and `palette` are uninterpreted. Lengths and angles are exact reals, without double rounding.
- `InterruptedException` paths are not modelled: `put` always succeeds once there is room.
- The `ExecutorService` lifecycle and the JVM scheduler are not modelled. Any order of pending units is allowed.
- Generator.Step: a unit runs atomically, and a unit that sees the cancel flag sets it for every later unit. So at most one unit per run stops part-way through its chain. In the source, every unit running when the flag is set can stop after a prefix. For example, at depth 3 the root puts line 0 and submits child C; C puts its first line; the flag is set; the root stops at its next check. The outcome {root line 0, C line 0} is not reachable in the model. Each unit's payment (`GeneratorProofs.TaskPays`) is proved for every observation of the flag, one unit at a time, so the same argument bounds those outcomes by the cancelled-run bounds of `TreeRunOutput` and `SetRunOutput`; the model itself does not reach them.
- Generator.EndTick: the state machine (`Generator.Apply`) runs the corrected tick, so `DeliveryExact`, `RenderedIsComplete`, `CancelledNeverRendered` and `EndTickValid` describe the corrected caller. The theorems about the pool (`TreeRunOutput`, `SetRunOutput`, `CounterProtocol`, `UpdateShutdownWindow`, `RunTerminates`) do not depend on the correction: `GeneratorProofs.EndTickAgrees` shows that both versions leave the same pool state.
- Sub-unit interleaving in `FractalGenerator` is modelled only at the `finally` (the `Generator.Step` lines below say what this means for cancellation): an asynchronous child cannot start before the step that submitted it reaches its decrement. The counter cannot reach 0 while a parent unit is still running, so this does not hide a premature shutdown.
- Generator.FinishClose: the thread's `!isShutdown()` test and its `shutdown()` call are one step. In the source `update` can run its own test between the two, so `shutdown()` can be called twice. The second call has no effect, since `shutdown` is idempotent. `shutdowns <= 1` in `GeneratorProofs.CounterProtocol` therefore counts the shutdowns that take effect, not the calls.
- Generator.Step: the count is a mathematical integer; `AtomicInteger` wrap-around past 2^31 - 1 is not modelled.
- LegacyTree.TaskSubmitted: `pending` is a mathematical integer; Java `int` overflow is not modelled.
- The rendering half of `startDrawingLoop` (`setColor`, `drawLine`) is not modelled. Only its `take` from the queue is kept (`LegacyTree.Draw`).
- `LegacyTree.AwaitZeroReturns` models only the exit condition of the `wait` loop. The monitor mechanics of `wait` and `notifyAll` are not modelled.
- `main`'s `println` and the window set-up are not modelled.
- LegacyTreeProofs.CounterProtocol: it is stated for every valid state before `main` submits, not literally for `Init()`; `LegacyTreeProofs.StartIsInit` shows these are the same state. The same holds for `AwaitZeroMeansDone`, `CompletionNeedsDrawing` and `UndrawnRunNeverFinishes`.

## Findings

| source | as written | input that shows it | evidently intended | confidence | as-written member | corrected member |
|---|---|---|---|---|---|---|
| FractalAppExt.java:100-120 | a tick drains with `update`, then stops the timer as soon as the pool has terminated, without draining again | a depth-1 tree: a tick drains the empty queue; the root unit puts its line and the child finishes; the pool shuts down; the same tick sees it terminated and stops with the line still queued | the caller receives every item before the timer stops, so a "Rendered." picture is complete | not executed; the window lies between the drain and the termination test of one tick | Generator.EndTickAsWritten, with GeneratorProofs.LastLineLost and GeneratorProofs.StoppedDeliversNothing | Generator.EndTick, with GeneratorProofs.DeliveryExact and GeneratorProofs.RenderedIsComplete |
