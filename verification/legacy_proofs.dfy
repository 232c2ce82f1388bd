/** What the older engine guarantees. Every reachable run keeps the counter
    equal to the number of unfinished units. It keeps the line count balanced
    against the lines the unfinished units still owe. From these two facts:
    `main` gets past `awaitZero` only after the whole tree of 2^10 - 1 lines
    has been put, and because that is more than the queue holds, only if the
    drawing loop has taken lines in the meantime. */
module LegacyTreeProofs {
  import opened Basics
  import opened LegacyTree

  /* ------------------------------- counter ------------------------------- */

  /** A submission followed by its paired finish restores the counter. The
      finish notifies exactly when the counter was zero before the pair. */
  lemma CounterPairs(c: TaskCounter)
    ensures TaskFinished(TaskSubmitted(c)).0 == c
    ensures TaskFinished(TaskSubmitted(c)).1 <==> c.pending == 0
    ensures TaskSubmitted(TaskFinished(c).0) == c
  {
  }

  /* ----------------------------- accounting ----------------------------- */

  /** Lines a unit still owes: its whole remaining subtree. */
  function Owed(f: Frame): nat {
    Pow2(f.height) - 1
  }

  function OwedFn(): Frame -> nat {
    f => Owed(f)
  }

  function OwedBy(fs: seq<Frame>): nat {
    Sum(fs, OwedFn())
  }

  /** Levels a unit still has to run, counting each height-0 return. */
  function Work(f: Frame): nat {
    Pow2(f.height + 1) - 1
  }

  function WorkFn(): Frame -> nat {
    f => Work(f)
  }

  /** Levels still to run in the whole program. */
  function Remaining(r: Run): nat {
    if r.phase == Starting then Pow2(MaxHeight + 1) - 1 else Sum(r.frames, WorkFn())
  }

  /** Every line ever put, in the order it was put. */
  function History(r: Run): seq<LineTask> {
    r.drawn + r.queue
  }

  /** The counter and the unit bookkeeping agree. */
  ghost predicate Counted(r: Run) {
    && r.counter.pending == r.submitted - r.finished
    && |r.frames| == r.submitted - r.finished
    && r.notifications == (if r.phase != Starting && |r.frames| == 0 then 1 else 0)
  }

  /** Lines put plus lines owed make the whole tree. */
  ghost predicate Accounted(r: Run) {
    && |r.queue| <= QueueCapacity
    && (r.phase == Starting ==> r.frames == [] && History(r) == [] && r.submitted == 0)
    && (r.phase != Starting ==>
          && |History(r)| + OwedBy(r.frames) == Pow2(MaxHeight) - 1
          && r.submitted == |History(r)| + 1)
  }

  /** The shutdown flag belongs to `main`'s last phase, which starts with no
      unit left. */
  ghost predicate Phased(r: Run) {
    && (r.shutdown <==> r.phase == Finished)
    && (r.phase == Finished ==> r.frames == [])
  }

  ghost predicate Valid(r: Run) {
    Counted(r) && Accounted(r) && Phased(r)
  }

  /* ---------------------------- single levels ---------------------------- */

  /** The frame a unit reaches after k forking levels: the synchronous
      child, k times over. */
  function Descend(canvas: Canvas, f: Frame, k: nat): Frame
    requires k <= f.height
    decreases k
  {
    if k == 0 then f else Descend(canvas, MakeLevel(canvas, f).sync, k - 1)
  }

  /** Along one unit's chain the angle turns by +20 degrees and the height
      drops by one per level. The line drawn at level k (below the starting
      height) runs from the unit's position with length (height - k)*10 at
      that angle, is green exactly from height 2 down, and ends where level
      k + 1 starts; the child forked there points 20 degrees the other way,
      one level lower. */
  lemma {:induction false} DescendShape(canvas: Canvas, f: Frame, k: nat)
    requires k <= f.height
    ensures Descend(canvas, f, k).angle == f.angle + k * Delta
    ensures Descend(canvas, f, k).height == f.height - k
    ensures k < f.height ==>
      var g := Descend(canvas, f, k);
      var d := canvas.offset(f.angle + k * Delta, BranchLength(f.height - k));
      var l := MakeLevel(canvas, g);
      && l.Forked?
      && l.line.x1 == g.x && l.line.y1 == g.y
      && l.line.x2 == g.x + d.0 && l.line.y2 == g.y + d.1
      && (l.line.color == Green <==> f.height - k <= 2)
      && l.async.angle == f.angle + k * Delta - Delta
      && l.async.height == f.height - k - 1
      && Descend(canvas, f, k + 1).x == l.line.x2
      && Descend(canvas, f, k + 1).y == l.line.y2
    decreases k
  {
    if k > 0 {
      var sync := MakeLevel(canvas, f).sync;
      DescendShape(canvas, sync, k - 1);
      if k < f.height {
        assert Descend(canvas, f, k + 1) == Descend(canvas, sync, k);
      }
    } else if f.height > 0 {
      assert Descend(canvas, f, 1) == MakeLevel(canvas, f).sync;
    }
  }

  /** A forking level trades the unit's debt for one line and two children. */
  lemma ForkOwes(canvas: Canvas, f: Frame)
    requires f.height > 0
    ensures Owed(f) == 1 + Owed(MakeLevel(canvas, f).async) + Owed(MakeLevel(canvas, f).sync)
    ensures Work(f) == 1 + Work(MakeLevel(canvas, f).async) + Work(MakeLevel(canvas, f).sync)
  {
  }

  /** The frames after a fork: the unit's own slot is overwritten by the
      synchronous child and the forked child joins at the end. */
  lemma {:induction false} ForkSum(fs: seq<Frame>, i: nat, sync: Frame, async: Frame, g: Frame -> nat)
    requires i < |fs|
    ensures Sum(fs[i := sync] + [async], g) + g(fs[i]) == Sum(fs, g) + g(sync) + g(async)
  {
    SumRemoveAt(fs, i, g);
    SumRemoveAt(fs[i := sync], i, g);
    assert RemoveAt(fs[i := sync], i) == RemoveAt(fs, i);
    SumAppend(fs[i := sync], [async], g);
    SumCons(async, [], g);
  }

  /* ------------------------------ one step ------------------------------ */

  lemma InitValid()
    ensures Valid(Init())
  {
  }

  lemma LevelValid(canvas: Canvas, r: Run, i: nat)
    requires Valid(r) && i < |r.frames|
    ensures Valid(Advance(canvas, r, i))
    ensures !Blocked(canvas, r, i) ==> Remaining(Advance(canvas, r, i)) + 1 == Remaining(r)
  {
    var f := r.frames[i];
    var r' := Advance(canvas, r, i);
    assert r.phase == Awaiting;
    if f.height == 0 {
      SumRemoveAt(r.frames, i, OwedFn());
      SumRemoveAt(r.frames, i, WorkFn());
      assert r'.frames == RemoveAt(r.frames, i);
      assert History(r') == History(r);
    } else if !Blocked(canvas, r, i) {
      var l := MakeLevel(canvas, f);
      assert r'.frames == r.frames[i := l.sync] + [l.async];
      assert History(r') == History(r) + [l.line];
      ForkOwes(canvas, f);
      ForkSum(r.frames, i, l.sync, l.async, OwedFn());
      ForkSum(r.frames, i, l.sync, l.async, WorkFn());
    }
  }

  lemma DrawValid(r: Run)
    requires Valid(r)
    ensures Valid(Draw(r)) && Remaining(Draw(r)) == Remaining(r)
  {
  }

  lemma SubmitValid(canvas: Canvas, r: Run)
    requires Valid(r)
    ensures Valid(MainSubmit(canvas, r)) && Remaining(MainSubmit(canvas, r)) == Remaining(r)
  {
    if r.phase == Starting {
      var r' := MainSubmit(canvas, r);
      var root := Frame(JavaDiv(canvas.width, 2), canvas.height - 100, StartAngle, MaxHeight);
      assert r'.frames == [root] + [];
      SumCons(root, [], OwedFn());
      SumCons(root, [], WorkFn());
      SumEmpty(OwedFn());
      SumEmpty(WorkFn());
    }
  }

  lemma AwaitValid(r: Run)
    requires Valid(r)
    ensures Valid(MainAwait(r)) && Remaining(MainAwait(r)) == Remaining(r)
  {
    if r.phase == Awaiting && AwaitZeroReturns(r.counter) {
      assert |r.frames| == 0;
    }
  }

  lemma NextValid(canvas: Canvas, r: Run, a: Action)
    requires Valid(r)
    ensures Valid(Next(canvas, r, a))
    ensures Remaining(Next(canvas, r, a))
            + (if a.Level? && a.index < |r.frames| && !Blocked(canvas, r, a.index) then 1 else 0)
            == Remaining(r)
  {
    match a
    case Level(i) =>
      if i < |r.frames| {
        LevelValid(canvas, r, i);
      }
    case DrawLine => DrawValid(r);
    case Submit => SubmitValid(canvas, r);
    case Await => AwaitValid(r);
  }

  /** Every action sequence keeps the run valid. Each level a unit runs uses
      up exactly one of the levels remaining. */
  lemma {:induction false} ExecuteValid(canvas: Canvas, r: Run, acts: seq<Action>)
    requires Valid(r)
    ensures Valid(Execute(canvas, r, acts))
    ensures LevelsRun(canvas, r, acts) + Remaining(Execute(canvas, r, acts)) == Remaining(r)
    decreases |acts|
  {
    if |acts| > 0 {
      NextValid(canvas, r, acts[0]);
      ExecuteValid(canvas, Next(canvas, r, acts[0]), acts[1..]);
    }
  }

  /* ------------------------------ theorems ------------------------------ */

  /** A valid state in which `main` has not yet submitted is the initial one,
      so the theorems below, stated for such states, are about runs from
      `Init()`. */
  lemma StartIsInit(r0: Run)
    ensures Valid(r0) && r0.phase == Starting <==> r0 == Init()
  {
    if Valid(r0) && r0.phase == Starting {
      assert History(r0) == [];
      assert |r0.drawn| + |r0.queue| == 0;
      assert r0.counter == TaskCounter(0) && r0.finished == 0 && !r0.shutdown;
      assert r0 == Run(Starting, TaskCounter(0), 0, [], [], [], 0, 0, false);
    }
    if r0 == Init() {
      InitValid();
    }
  }

  /** In every reachable state the counter is never negative and equals the
      number of unfinished units. No line is lost between the workers and
      the drawing loop, and notifyAll has fired at most once. */
  lemma CounterProtocol(canvas: Canvas, r0: Run, acts: seq<Action>)
    requires Valid(r0) && r0.phase == Starting
    ensures var r := Execute(canvas, r0, acts);
      && r.counter.pending == |r.frames| >= 0
      && r.counter.pending == r.submitted - r.finished
      && r.notifications <= 1
      && |r.queue| <= QueueCapacity
  {
    ExecuteValid(canvas, r0, acts);
  }

  /** Once `main` is past `awaitZero`, every unit has finished. Every
      submission has been matched by its finish. The whole tree of
      2^10 - 1 = 1023 lines has been put, 1024 units were submitted,
      notifyAll fired exactly once, and 2047 levels ran: 1023 that forked
      and 1024 that returned. */
  lemma {:induction false} AwaitZeroMeansDone(canvas: Canvas, r0: Run, acts: seq<Action>)
    requires Valid(r0) && r0.phase == Starting
    requires Execute(canvas, r0, acts).phase == Finished
    ensures var r := Execute(canvas, r0, acts);
      && r.frames == [] && r.shutdown
      && r.finished == r.submitted == 1024
      && |r.drawn + r.queue| == 1023
      && r.notifications == 1
      && LevelsRun(canvas, r0, acts) == 2047
  {
    ExecuteValid(canvas, r0, acts);
    SumEmpty(OwedFn());
    SumEmpty(WorkFn());
    assert Pow2(MaxHeight) == 1024;
    assert Pow2(MaxHeight + 1) == 2048;
  }

  /** The tree has more lines than the queue holds, so a run can only
      complete if the drawing loop took at least 23 of them. */
  lemma CompletionNeedsDrawing(canvas: Canvas, r0: Run, acts: seq<Action>)
    requires Valid(r0) && r0.phase == Starting
    requires Execute(canvas, r0, acts).phase == Finished
    ensures Pow2(MaxHeight) - 1 > QueueCapacity
    ensures |Execute(canvas, r0, acts).drawn| >= 1023 - QueueCapacity
  {
    ExecuteValid(canvas, r0, acts);
    AwaitZeroMeansDone(canvas, r0, acts);
    assert Pow2(MaxHeight) == 1024;
  }

  /** Only the drawing loop moves lines into `drawn`. */
  lemma {:induction false} NoDrawKeepsDrawn(canvas: Canvas, r: Run, acts: seq<Action>)
    requires forall k :: 0 <= k < |acts| ==> !acts[k].DrawLine?
    ensures Execute(canvas, r, acts).drawn == r.drawn
    decreases |acts|
  {
    if |acts| > 0 {
      NoDrawKeepsDrawn(canvas, Next(canvas, r, acts[0]), acts[1..]);
    }
  }

  /** If the drawing loop never takes a line, as when `getGraphics` returns
      null and the loop exits at once, the workers fill the queue and block.
      `main` then never gets past `awaitZero`. */
  lemma UndrawnRunNeverFinishes(canvas: Canvas, r0: Run, acts: seq<Action>)
    requires Valid(r0) && r0.phase == Starting
    requires forall k :: 0 <= k < |acts| ==> !acts[k].DrawLine?
    ensures Execute(canvas, r0, acts).phase != Finished
  {
    NoDrawKeepsDrawn(canvas, r0, acts);
    if Execute(canvas, r0, acts).phase == Finished {
      CompletionNeedsDrawing(canvas, r0, acts);
    }
  }
}
