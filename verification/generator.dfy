/** The UI-free fractal engine `FractalGenerator` of FractalAppExt.java.

    A generation run owns a handle (`Control`) with an outstanding-unit
    counter, a cancel flag, a result queue and a pool. Units of work are
    submitted to the pool; here each unit is one atomic step, taken in any
    order from the pending sequence. Whatever a unit does synchronously
    (the `submitBranch` chain, the column loop of a row) happens within that
    step; the cancel flag may still be set by the caller while the unit runs,
    which the step sees through an `Observation`. */
module Generator {
  import opened Basics

  datatype FractalType = Tree | Mandelbrot | Julia

  /** One tree segment with its colour packed as ARGB. */
  datatype Line = Line(x1: int, y1: int, x2: int, y2: int, argb: int)

  /** One finished scanline: its row index and one colour per column. */
  datatype RowInfo = RowInfo(y: int, row: seq<int>)

  /** What the result queue carries (the source queues plain `Object`s). */
  datatype Item = LineItem(line: Line) | RowItem(info: RowInfo)

  /** The parameters of `generate` that the discrete behaviour depends on.
      The escape-time parameters (maxIter, centre, Julia constant) only
      reach the per-pixel colour, which `Env.pixel` stands for. */
  datatype Request = Request(kind: FractalType, w: int, h: int, depth: nat, angleDeg: real, scale: real)

  /** The floating-point work, kept uninterpreted: where a branch ends, and
      the colour of column x in row y for this request (`mandelbrot` or
      `julia` followed by `palette`). */
  datatype Env = Env(endpoint: Projection, pixel: (int, int) -> int)

  /** A unit of work submitted to the pool. */
  datatype Task =
    | Root                     // the lambda `generate` submits
    | Branch(x: int, y: int, angle: real, length: real, height: nat)  // an asynchronous `submitBranch` child
    | Row(y: int)              // one row unit of `generateSet`

  /** How a running unit observes the cancel flag. Its checks are numbered
      0, 1, 2, ... in program order; the flag is either never seen or seen
      by every check from `check` on (the flag never goes back to false). */
  datatype Observation = Unseen | SeenFrom(check: nat)

  predicate Sees(o: Observation, k: nat) {
    o.SeenFrom? && o.check <= k
  }

  /** What one unit did: the items it put on the queue, in order, and the
      units it submitted, in order (each preceded by an increment). */
  datatype Effect = Effect(published: seq<Item>, spawned: seq<Task>)

  const Foliage: Rgb := Rgb(20, 140, 20)
  const Trunk: Rgb := Rgb(40, 40, 40)

  /** The segment colour `submitBranch` picks for a branch of this height. */
  function BranchArgb(height: int): int {
    if height < 5 then Argb(Foliage) else Argb(Trunk)
  }

  /** The children's length, `length * scale` (kept behind a function so
      the solver treats the product as one term). */
  function Shrink(length: real, scale: real): real {
    length * scale
  }

  /** `length` shrunk k times by `scale`: the length of the k-th segment of
      a `submitBranch` chain. */
  function Scaled(length: real, scale: real, k: nat): real
    decreases k
  {
    if k == 0 then length else Scaled(Shrink(length, scale), scale, k - 1)
  }

  /** `submitBranch`: stop on height 0 or a seen cancel flag; otherwise put
      one `Line`, submit the child turned by -angleDeg, and continue
      synchronously with the child turned by +angleDeg. `level` numbers the
      cancel checks of the chain this call belongs to. */
  function SubmitBranch(env: Env, req: Request, x: int, y: int, angle: real, length: real,
                        height: nat, obs: Observation, level: nat): (e: Effect)
    ensures |e.published| == |e.spawned| <= height
    ensures height == 0 || Sees(obs, level) ==> e.published == [] && e.spawned == []
    ensures obs.Unseen? ==> |e.published| == height
    ensures obs.SeenFrom? ==>
      |e.published| == if obs.check <= level then 0
                       else if obs.check - level >= height then height
                       else obs.check - level
    ensures forall k :: 0 <= k < |e.published| ==> e.published[k].LineItem?
    ensures forall k :: 0 <= k < |e.spawned| ==>
              e.spawned[k].Branch? && e.spawned[k].height == height - 1 - k
    decreases height
  {
    if height == 0 || Sees(obs, level) then Effect([], [])
    else
      var end := env.endpoint(x, y, angle, length);
      var line := Line(x, y, end.0, end.1, BranchArgb(height));
      var nextLen := Shrink(length, req.scale);
      var child := Branch(end.0, end.1, angle - req.angleDeg, nextLen, height - 1);
      var rest := SubmitBranch(env, req, end.0, end.1, angle + req.angleDeg, nextLen,
                               height - 1, obs, level + 1);
      Effect([LineItem(line)] + rest.published, [child] + rest.spawned)
  }

  /** What a row unit for row y publishes. Its checks are the one on entry
      (0) and the one before column x (x + 1); since a seen flag stays seen,
      the row survives exactly when the last check, before column w - 1,
      does not see it. A negative width makes `new int[w]` throw, so nothing
      is published (the `finally` still decrements the counter). */
  function RowOutcome(env: Env, w: int, y: int, obs: Observation): Option<RowInfo> {
    if w < 0 || Sees(obs, w) then None
    else Some(RowInfo(y, seq(w, x => env.pixel(x, y))))
  }

  /** The body of one row unit, as the source writes it: check on entry,
      allocate the row, check before every column, fill it, publish it. */
  method RunRowUnit(env: Env, w: int, y: int, obs: Observation) returns (r: Option<RowInfo>)
    ensures r.Some? <==> w >= 0 && !Sees(obs, w)
    ensures r.Some? ==> r.value.y == y && |r.value.row| == w
    ensures r.Some? ==> forall x :: 0 <= x < w ==> r.value.row[x] == env.pixel(x, y)
    ensures r == RowOutcome(env, w, y, obs)
  {
    if Sees(obs, 0) {
      return None;
    }
    if w < 0 {
      return None;
    }
    var row: seq<int> := seq(w, _ => 0);
    var x := 0;
    while x < w
      invariant 0 <= x <= w
      invariant |row| == w
      invariant !Sees(obs, x)
      invariant forall j :: 0 <= j < x ==> row[j] == env.pixel(j, y)
    {
      if Sees(obs, x + 1) {
        return None;
      }
      row := row[x := env.pixel(x, y)];
      x := x + 1;
    }
    assert row == seq(w, x => env.pixel(x, y));
    return Some(RowInfo(y, row));
  }

  /** The loop of `generateSet`: one row unit per row index, in order. */
  function GenerateSet(h: int): (units: seq<Task>)
    ensures |units| == if h < 0 then 0 else h
  {
    if h <= 0 then [] else seq(h, y => Row(y))
  }

  /** `generateSet` submits a row unit for every row index in 0..h-1, each
      exactly once, and nothing else. */
  lemma GenerateSetRows(h: int)
    ensures forall t :: t in GenerateSet(h) <==> t.Row? && 0 <= t.y < h
    ensures forall i, j :: 0 <= i < j < |GenerateSet(h)| ==> GenerateSet(h)[i] != GenerateSet(h)[j]
  {
    var units := GenerateSet(h);
    assert forall t: Task :: t.Row? && 0 <= t.y < h ==> units[t.y] == t;
  }

  /** The tree's first segment: from the bottom centre, straight up, with a
      length of 18% of the smaller dimension. */
  function TreeStart(env: Env, req: Request, obs: Observation): Effect {
    var len := (if req.w <= req.h then req.w else req.h) as real * 0.18;
    SubmitBranch(env, req, JavaDiv(req.w, 2), TruncToInt(req.h as real * 0.9),
                 -90.0, len, req.depth, obs, 0)
  }

  /** One whole unit of work, given how it observes the cancel flag. */
  function RunTask(env: Env, req: Request, t: Task, obs: Observation): Effect {
    match t
    case Root =>
      if req.kind == Tree then TreeStart(env, req, obs)
      else Effect([], GenerateSet(req.h))
    case Branch(x, y, angle, length, height) =>
      SubmitBranch(env, req, x, y, angle, length, height, obs, 0)
    case Row(y) =>
      match RowOutcome(env, req.w, y, obs)
      case None => Effect([], [])
      case Some(info) => Effect([RowItem(info)], [])
  }

  /** The `FractalControl` handle and the pool's state. `published` records
      every item ever put and `submitted` every submission made by a unit;
      both exist only to state what the run did. */
  datatype Control = Control(
    req: Request,
    tasks: int,
    cancelled: bool,
    queue: seq<Item>,
    shutdowns: nat,
    closing: bool,          // a unit's decrement read 0; its shutdown test is still to come
    pending: seq<Task>,
    published: seq<Item>,
    submitted: nat)
  {
    predicate IsShutdown() {
      shutdowns > 0
    }
  }

  /** `generate`: a fresh handle whose counter already accounts for the one
      unit it submits. */
  function Generate(req: Request): (c: Control)
    ensures c.req == req && c.tasks == 1 && !c.cancelled && c.queue == []
    ensures !c.IsShutdown() && !c.closing && c.pending == [Root]
  {
    Control(req, 1, false, [], 0, false, [Root], [], 0)
  }

  /** The pool's `shutdown`, called only when the count reads 0 and the pool
      is not shut down yet. */
  function ShutdownIfIdle(c: Control): (c': Control)
    ensures c'.shutdowns == if c.tasks == 0 && !c.IsShutdown() then 1 else c.shutdowns
    ensures c' == c.(shutdowns := c'.shutdowns)
  {
    if c.tasks == 0 && !c.IsShutdown() then c.(shutdowns := c.shutdowns + 1) else c
  }

  /** The caller's cancel request (`isCancelled.set(true)`). */
  function Cancel(c: Control): (c': Control)
    ensures c'.cancelled
    ensures c' == c.(cancelled := true)
  {
    c.(cancelled := true)
  }

  /** `update`: drain the queue in FIFO order, then apply the shutdown check. */
  function Update(c: Control): (r: (seq<Item>, Control))
    ensures r.0 == c.queue && r.1.queue == []
    ensures r.1.shutdowns != c.shutdowns ==> c.tasks == 0 && !c.IsShutdown()
    ensures r.1.pending == c.pending && r.1.published == c.published && r.1.tasks == c.tasks
  {
    (c.queue, ShutdownIfIdle(c.(queue := [])))
  }

  /** A pool thread runs the i-th pending unit: its increments and
      submissions, its puts, and the `decrementAndGet` in `finally`. When
      that decrement reads 0 the thread still has its `!isShutdown()` test
      and `shutdown()` ahead of it (see FinishClose), and other threads may
      act in between. A flag already set is seen by every check; a flag the
      step sees is set afterwards. */
  function Step(env: Env, c: Control, i: nat, obs: Observation): (c': Control)
    requires i < |c.pending|
    ensures c.cancelled ==> c'.queue == c.queue && c'.published == c.published
    ensures |c'.queue| >= |c.queue| && c'.queue[..|c.queue|] == c.queue
    ensures c'.shutdowns == c.shutdowns
    ensures c'.closing <==> c'.tasks == 0
    ensures c.cancelled ==> c'.cancelled
  {
    var seen := if c.cancelled then SeenFrom(0) else obs;
    var e := RunTask(env, c.req, c.pending[i], seen);
    var tasks := c.tasks + |e.spawned| - 1;
    var c' := c.(tasks := tasks,
                 cancelled := c.cancelled || obs.SeenFrom?,
                 queue := c.queue + e.published,
                 closing := tasks == 0,
                 pending := RemoveAt(c.pending, i) + e.spawned,
                 published := c.published + e.published,
                 submitted := c.submitted + |e.spawned|);
    assert c'.queue[..|c.queue|] == c.queue;
    c'
  }

  /** The rest of the `finally` of the unit whose decrement read 0: it
      shuts the pool down unless `update` got there first. */
  function FinishClose(c: Control): (c': Control)
    ensures !c'.closing
    ensures c.closing ==> c'.IsShutdown()
    ensures c'.shutdowns != c.shutdowns ==> c.closing && !c.IsShutdown()
    ensures c' == c.(closing := c'.closing, shutdowns := c'.shutdowns)
  {
    if !c.closing then c
    else if c.IsShutdown() then c.(closing := false)
    else c.(closing := false, shutdowns := c.shutdowns + 1)
  }

  /** What the caller shows once it sees the pool: still rendering until the
      pool has terminated (shut down, no unit left and no pool thread still
      inside a `finally`), then cancelled or rendered according to the flag. */
  datatype Status = Rendering | Cancelled | Rendered

  function StatusOf(c: Control): Status {
    if !(c.IsShutdown() && |c.pending| == 0 && !c.closing) then Rendering
    else if c.cancelled then Cancelled
    else Rendered
  }

  /** The polling caller: everything it has drained so far, whether its
      timer is between the drain and the termination test of a tick, and
      the status it showed when its timer stopped (None while it runs). */
  datatype Session = Session(ctl: Control, delivered: seq<Item>, midTick: bool, shown: Option<Status>)

  function Start(req: Request): Session {
    Session(Generate(req), [], false, None)
  }

  /** `update`, keeping what it returned. */
  function Poll(s: Session): (s': Session)
    ensures s'.delivered == s.delivered + s.ctl.queue && s'.ctl.queue == []
    ensures s'.midTick == s.midTick && s'.shown == s.shown
  {
    var (drained, c) := Update(s.ctl);
    s.(ctl := c, delivered := s.delivered + drained)
  }

  /** The first half of a timer tick: drain with `update`. A stopped timer
      does not tick, and a tick's two halves come in order. */
  function BeginTick(s: Session): (s': Session)
    ensures s.shown.None? && !s.midTick ==> s' == Poll(s).(midTick := true)
    ensures s.shown.Some? || s.midTick ==> s' == s
  {
    if s.shown.None? && !s.midTick then Poll(s).(midTick := true) else s
  }

  /** The second half of a timer tick as the caller writes it: once the pool
      has terminated, show the status and stop the timer, without draining
      what was put since the first half. */
  function EndTickAsWritten(s: Session): (s': Session)
    ensures !s'.midTick && s'.ctl == s.ctl && s'.delivered == s.delivered
    ensures s.midTick && StatusOf(s.ctl) != Rendering ==> s'.shown == Some(StatusOf(s.ctl))
    ensures !(s.midTick && StatusOf(s.ctl) != Rendering) ==> s'.shown == s.shown
  {
    if !s.midTick then s
    else if StatusOf(s.ctl) == Rendering then s.(midTick := false)
    else s.(midTick := false, shown := Some(StatusOf(s.ctl)))
  }

  /** The second half of a timer tick, draining once more before the timer
      stops so that nothing put after the first half is lost. */
  function EndTick(s: Session): (s': Session)
    ensures !s'.midTick
    ensures s.midTick && StatusOf(s.ctl) != Rendering ==>
      && s'.shown == Some(StatusOf(s.ctl))
      && s'.delivered == s.delivered + s.ctl.queue && s'.ctl.queue == []
      && StatusOf(s'.ctl) == StatusOf(s.ctl)
    ensures !(s.midTick && StatusOf(s.ctl) != Rendering) ==>
      s'.shown == s.shown && s'.ctl == s.ctl && s'.delivered == s.delivered
  {
    if !s.midTick then s
    else if StatusOf(s.ctl) == Rendering then s.(midTick := false)
    else Poll(s).(midTick := false, shown := Some(StatusOf(s.ctl)))
  }

  /** Whatever can happen next to a run: a pool thread runs a pending unit,
      the thread whose decrement read 0 finishes its `finally`, the caller
      cancels, or the caller's timer runs either half of a tick. */
  datatype Action =
    | RunUnit(index: nat, obs: Observation)
    | CloseRun
    | CancelRun
    | PollRun
    | CheckRun

  function Apply(env: Env, s: Session, a: Action): Session {
    match a
    case RunUnit(i, obs) =>
      if i < |s.ctl.pending| then s.(ctl := Step(env, s.ctl, i, obs)) else s
    case CloseRun => s.(ctl := FinishClose(s.ctl))
    case CancelRun => if s.shown.None? then s.(ctl := Cancel(s.ctl)) else s
    case PollRun => BeginTick(s)
    case CheckRun => EndTick(s)
  }

  /** How many of the actions actually ran a unit. */
  function UnitsRun(env: Env, s: Session, acts: seq<Action>): nat
    decreases |acts|
  {
    if |acts| == 0 then 0
    else
      var ran := if acts[0].RunUnit? && acts[0].index < |s.ctl.pending| then 1 else 0;
      ran + UnitsRun(env, Apply(env, s, acts[0]), acts[1..])
  }

  /** The session after the actions happen in the given order. */
  function Execute(env: Env, s: Session, acts: seq<Action>): Session
    decreases |acts|
  {
    if |acts| == 0 then s else Execute(env, Apply(env, s, acts[0]), acts[1..])
  }
}
