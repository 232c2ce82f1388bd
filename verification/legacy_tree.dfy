/** The older tree engine of FractalTree.java. Every level of
    `makeFractalTree` puts one line into a bounded queue that a drawing loop
    empties. It then forks one child onto the thread pool and keeps going into
    the other child itself. A monitor-protected counter tracks the units that
    have not finished, and `main` waits until that counter reaches zero.

    Here a unit is a frame: the position its synchronous call chain has
    reached. One step runs one level of one unit. Which unit moves next, and
    when the drawing loop and `main` act, is the choice of the action sequence. */
module LegacyTree {
  import opened Basics

  /** Capacity of the line queue shared with the drawing loop. */
  const QueueCapacity: nat := 1000
  /** Height of the tree `main` asks for. */
  const MaxHeight: nat := 10
  /** Angle, in degrees, between a branch and each of its children. */
  const Delta: int := 20
  /** The trunk points straight up. */
  const StartAngle: int := -90

  const Green := Rgb(0, 255, 0)
  const Black := Rgb(0, 0, 0)

  /** A line waiting to be drawn. */
  datatype LineTask = LineTask(x1: int, y1: int, x2: int, y2: int, color: Rgb)

  /** The counter of units that have been submitted but have not finished. */
  datatype TaskCounter = TaskCounter(pending: int)

  function TaskSubmitted(c: TaskCounter): (r: TaskCounter)
    ensures r.pending == c.pending + 1
  {
    TaskCounter(c.pending + 1)
  }

  /** `taskFinished`: the new counter, and whether it woke the waiting threads. */
  function TaskFinished(c: TaskCounter): (r: (TaskCounter, bool))
    ensures r.0.pending == c.pending - 1
    ensures r.1 <==> r.0.pending == 0
  {
    var next := TaskCounter(c.pending - 1);
    (next, next.pending == 0)
  }

  /** The loop in `awaitZero` lets its caller go exactly when this holds. */
  predicate AwaitZeroReturns(c: TaskCounter) {
    c.pending <= 0
  }

  /** The window the tree is drawn in. `offset(angle, length)` is the integer
      displacement the source computes with cos/sin on doubles and truncating
      casts; it stays uninterpreted. `width` and `height` are whatever size
      the window ends up with. */
  datatype Canvas = Canvas(offset: (int, real) -> (int, int), width: int, height: int)

  function BranchLength(height: nat): real {
    height as real * 10.0
  }

  /** The position one unit's synchronous call chain has reached. */
  datatype Frame = Frame(x: int, y: int, angle: int, height: nat)

  /** What one call of `makeFractalTree` does before it recurses. */
  datatype Level =
    | Returned
    | Forked(line: LineTask, async: Frame, sync: Frame)

  function MakeLevel(canvas: Canvas, f: Frame): (l: Level)
    ensures l.Returned? <==> f.height == 0
    ensures l.Forked? ==>
      && l.line.x1 == f.x && l.line.y1 == f.y
      && (l.line.color == Green <==> f.height <= 2)
      && (l.line.color == Black <==> f.height > 2)
      && l.async == Frame(l.line.x2, l.line.y2, f.angle - Delta, f.height - 1)
      && l.sync == Frame(l.line.x2, l.line.y2, f.angle + Delta, f.height - 1)
  {
    if f.height == 0 then Returned
    else
      var d := canvas.offset(f.angle, BranchLength(f.height));
      var x2 := f.x + d.0;
      var y2 := f.y + d.1;
      var color := if f.height <= 2 then Green else Black;
      Forked(LineTask(f.x, f.y, x2, y2, color),
             Frame(x2, y2, f.angle - Delta, f.height - 1),
             Frame(x2, y2, f.angle + Delta, f.height - 1))
  }

  /** Where `main` stands: before its submission, blocked in `awaitZero`, or
      past `exec.shutdown()`. */
  datatype Phase = Starting | Awaiting | Finished

  datatype Run = Run(
    phase: Phase,
    counter: TaskCounter,
    notifications: nat,     // calls of notifyAll so far
    frames: seq<Frame>,     // one per unit that has not finished
    queue: seq<LineTask>,   // lines put but not yet taken
    drawn: seq<LineTask>,   // lines the drawing loop has taken, in order
    submitted: nat,         // calls of taskSubmitted so far
    finished: nat,          // calls of taskFinished so far
    shutdown: bool)

  function Init(): (r: Run)
    ensures r.counter.pending == 0 && r.frames == [] && r.queue == [] && !r.shutdown
  {
    Run(Starting, TaskCounter(0), 0, [], [], [], 0, 0, false)
  }

  /** `main` counts the root unit, then hands it to the pool. */
  function MainSubmit(canvas: Canvas, r: Run): (r': Run)
    ensures r.phase != Starting ==> r' == r
    ensures r.phase == Starting ==>
      && r'.phase == Awaiting
      && r'.counter.pending == r.counter.pending + 1
      && r'.frames == r.frames + [Frame(JavaDiv(canvas.width, 2), canvas.height - 100, StartAngle, MaxHeight)]
  {
    if r.phase != Starting then r
    else
      var root := Frame(JavaDiv(canvas.width, 2), canvas.height - 100, StartAngle, MaxHeight);
      r.(phase := Awaiting, counter := TaskSubmitted(r.counter),
         frames := r.frames + [root], submitted := r.submitted + 1)
  }

  /** `main` leaves `awaitZero` and shuts the pool down; while the counter is
      positive it stays blocked. */
  function MainAwait(r: Run): (r': Run)
    ensures r'.shutdown <==> r.shutdown || (r.phase == Awaiting && r.counter.pending <= 0)
    ensures r'.frames == r.frames && r'.queue == r.queue && r'.counter == r.counter
  {
    if r.phase == Awaiting && AwaitZeroReturns(r.counter) then
      r.(phase := Finished, shutdown := true)
    else r
  }

  /** The drawing loop takes the oldest line; on an empty queue it blocks. */
  function Draw(r: Run): (r': Run)
    ensures r'.drawn + r'.queue == r.drawn + r.queue
    ensures |r.queue| > 0 ==> |r'.drawn| == |r.drawn| + 1
    ensures r'.frames == r.frames && r'.counter == r.counter
  {
    if |r.queue| == 0 then r
    else r.(queue := r.queue[1..], drawn := r.drawn + [r.queue[0]])
  }

  /** The unit at frames[i] would put a line into a full queue. */
  predicate Blocked(canvas: Canvas, r: Run, i: nat)
    requires i < |r.frames|
  {
    MakeLevel(canvas, r.frames[i]).Forked? && |r.queue| >= QueueCapacity
  }

  /** The unit at frames[i] runs one level. At height 0 the chain unwinds and
      the `finally` of the unit calls taskFinished. Otherwise the line is put
      (a full queue blocks the unit), the forked child is counted and
      submitted, and the unit moves into the other child. */
  function Advance(canvas: Canvas, r: Run, i: nat): (r': Run)
    requires i < |r.frames|
    ensures Blocked(canvas, r, i) ==> r' == r
    ensures r'.queue == r.queue
         || (MakeLevel(canvas, r.frames[i]).Forked? && r'.queue == r.queue + [MakeLevel(canvas, r.frames[i]).line])
    ensures r'.queue != r.queue ==> |r'.queue| <= QueueCapacity
    ensures r'.phase == r.phase && r'.drawn == r.drawn && r'.shutdown == r.shutdown
  {
    match MakeLevel(canvas, r.frames[i])
    case Returned =>
      var (counter, woke) := TaskFinished(r.counter);
      r.(counter := counter, notifications := r.notifications + (if woke then 1 else 0),
         frames := RemoveAt(r.frames, i), finished := r.finished + 1)
    case Forked(line, async, sync) =>
      if Blocked(canvas, r, i) then r
      else
        r.(queue := r.queue + [line], counter := TaskSubmitted(r.counter),
           frames := r.frames[i := sync] + [async], submitted := r.submitted + 1)
  }

  datatype Action = Level(index: nat) | DrawLine | Submit | Await

  function Next(canvas: Canvas, r: Run, a: Action): Run {
    match a
    case Level(i) => if i < |r.frames| then Advance(canvas, r, i) else r
    case DrawLine => Draw(r)
    case Submit => MainSubmit(canvas, r)
    case Await => MainAwait(r)
  }

  /** How many of the actions ran a level of some unit. */
  function LevelsRun(canvas: Canvas, r: Run, acts: seq<Action>): nat
    decreases |acts|
  {
    if |acts| == 0 then 0
    else
      var a := acts[0];
      var ran := if a.Level? && a.index < |r.frames| && !Blocked(canvas, r, a.index) then 1 else 0;
      ran + LevelsRun(canvas, Next(canvas, r, acts[0]), acts[1..])
  }

  function Execute(canvas: Canvas, r: Run, acts: seq<Action>): Run
    decreases |acts|
  {
    if |acts| == 0 then r else Execute(canvas, Next(canvas, r, acts[0]), acts[1..])
  }
}
