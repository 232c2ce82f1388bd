/** What a generation run of `FractalGenerator` guarantees, whatever order
    the pool runs its units in and whenever the caller cancels or polls.

    The proofs use one accounting device: every unit owes the output it and
    all the units it will transitively submit would publish if nobody
    cancelled. A branch of height h owes 2^h - 1 lines (itself, and its
    async children of heights h-1 down to 0); a row unit owes its row. Each
    step pays what it publishes out of what it owed, exactly when the flag
    is not seen and at most otherwise. */
module GeneratorProofs {
  import opened Basics
  import opened Generator

  /* ----------------------------- accounting ----------------------------- */

  /** Every row index in 0..h-1, each once. */
  function AllRows(h: int): (m: multiset<int>)
    ensures forall y :: m[y] == if 0 <= y < h then 1 else 0
    decreases h
  {
    if h <= 0 then multiset{} else AllRows(h - 1) + multiset{h - 1}
  }

  /** A row unit owes one row, unless the width makes it throw. */
  function RowOwed(req: Request): nat {
    if req.w >= 0 then 1 else 0
  }

  /** A set request owes one row per row index, unless its width makes
      every row unit throw. */
  function SetOwed(req: Request): nat {
    if req.w >= 0 then |GenerateSet(req.h)| else 0
  }

  /** How many items t and everything it transitively submits publish when
      nobody cancels. */
  function Owed(req: Request, t: Task): nat {
    match t
    case Root => if req.kind == Tree then Pow2(req.depth) - 1 else SetOwed(req)
    case Branch(_, _, _, _, height) => Pow2(height) - 1
    case Row(_) => RowOwed(req)
  }

  function OwedFn(req: Request): Task -> nat {
    t => Owed(req, t)
  }

  function OwedBy(req: Request, ts: seq<Task>): nat {
    Sum(ts, OwedFn(req))
  }

  /** The row indices t and its descendants would publish. */
  function RowsOwed(req: Request, t: Task): multiset<int> {
    match t
    case Root => if req.kind == Tree then multiset{} else AllRows(req.h)
    case Branch(_, _, _, _, _) => multiset{}
    case Row(y) => multiset{y}
  }

  function RowsOwedFn(req: Request): Task -> multiset<int> {
    t => RowsOwed(req, t)
  }

  function RowsOwedBy(req: Request, ts: seq<Task>): multiset<int> {
    Bag(ts, RowsOwedFn(req))
  }

  function RowIndex(item: Item): multiset<int> {
    if item.RowItem? then multiset{item.info.y} else multiset{}
  }

  /** The row indices among the given items, with multiplicity. */
  function RowsIn(items: seq<Item>): multiset<int> {
    Bag(items, RowIndex)
  }

  /** A termination measure: strictly more than everything a unit can
      submit, however the flag is seen. */
  function Weight(req: Request, t: Task): nat {
    match t
    case Root => if req.kind == Tree then Pow2(req.depth) else |GenerateSet(req.h)| + 1
    case Branch(_, _, _, _, height) => Pow2(height)
    case Row(_) => 1
  }

  function WeightFn(req: Request): Task -> nat {
    t => Weight(req, t)
  }

  function WeightOf(req: Request, ts: seq<Task>): nat {
    Sum(ts, WeightFn(req))
  }

  /* ----------------------------- invariants ----------------------------- */

  /** Units a run of this request can hold: branches only for trees, rows
      only for escape-time sets and only for rows 0..h-1. */
  predicate Fits(req: Request, t: Task) {
    match t
    case Root => true
    case Branch(_, _, _, _, _) => req.kind == Tree
    case Row(y) => req.kind != Tree && 0 <= y < req.h
  }

  /** A published row is the request's row: full width, each pixel the
      colour of its own column and row. */
  predicate GoodRow(env: Env, req: Request, info: RowInfo) {
    && 0 <= info.y < req.h
    && |info.row| == req.w
    && forall x :: 0 <= x < |info.row| ==> info.row[x] == env.pixel(x, info.y)
  }

  /** The completion protocol: the counter is the number of unfinished
      units (so never negative), the pool is shut down at most once and only
      at zero, and a zero count means the pool is shut down or the thread
      whose decrement read zero is about to test and shut it down. */
  ghost predicate Counted(c: Control) {
    && c.tasks == |c.pending|
    && c.shutdowns <= 1
    && (c.IsShutdown() ==> c.tasks == 0)
    && (c.closing ==> c.tasks == 0)
    && (c.tasks == 0 ==> c.IsShutdown() || c.closing)
  }

  /** What has been published plus what is still owed never exceeds the
      request's full output, and equals it while nobody has cancelled. */
  ghost predicate Accounted(c: Control) {
    && |c.published| + OwedBy(c.req, c.pending) <= Owed(c.req, Root)
    && (!c.cancelled ==> |c.published| + OwedBy(c.req, c.pending) == Owed(c.req, Root))
    && RowsIn(c.published) + RowsOwedBy(c.req, c.pending) <= RowsOwed(c.req, Root)
    && (!c.cancelled && c.req.w >= 0 ==>
          RowsIn(c.published) + RowsOwedBy(c.req, c.pending) == RowsOwed(c.req, Root))
    && (c.req.kind == Tree ==> c.submitted == |c.published|)
  }

  ghost predicate AllFit(req: Request, ts: seq<Task>) {
    forall k :: 0 <= k < |ts| ==> Fits(req, ts[k])
  }

  ghost predicate GoodRows(env: Env, req: Request, items: seq<Item>) {
    forall k :: 0 <= k < |items| && items[k].RowItem? ==> GoodRow(env, req, items[k].info)
  }

  ghost predicate WellShaped(env: Env, c: Control) {
    AllFit(c.req, c.pending) && GoodRows(env, c.req, c.published)
  }

  /** The caller has received, in order, exactly the items put so far that
      are no longer queued. */
  ghost predicate Delivered(s: Session) {
    s.delivered + s.ctl.queue == s.ctl.published
  }

  /** A stopped timer stopped on a terminated pool, showed the status the
      flag gives, and left nothing queued. */
  ghost predicate Stopped(s: Session) {
    s.shown.Some? ==>
      && StatusOf(s.ctl) != Rendering
      && s.shown == Some(StatusOf(s.ctl))
      && s.ctl.queue == []
      && !s.midTick
  }

  ghost predicate Valid(env: Env, s: Session) {
    Counted(s.ctl) && Accounted(s.ctl) && WellShaped(env, s.ctl) && Delivered(s) && Stopped(s)
  }

  /* ------------------------- one unit at a time ------------------------- */

  /** The synchronous continuation of a `submitBranch` call that gets past
      its check: one line, one async child, then the rest of the chain.
      This only unfolds `SubmitBranch` once, for the proofs below. */
  lemma BranchStep(env: Env, req: Request, x: int, y: int, angle: real,
                     length: real, height: nat, obs: Observation, level: nat)
    requires height > 0 && !Sees(obs, level)
    ensures var end := env.endpoint(x, y, angle, length);
      var nextLen := Shrink(length, req.scale);
      var rest := SubmitBranch(env, req, end.0, end.1, angle + req.angleDeg, nextLen,
                               height - 1, obs, level + 1);
      SubmitBranch(env, req, x, y, angle, length, height, obs, level)
        == Effect([LineItem(Line(x, y, end.0, end.1, BranchArgb(height)))] + rest.published,
                  [Branch(end.0, end.1, angle - req.angleDeg, nextLen, height - 1)] + rest.spawned)
  {
    var e := SubmitBranch(env, req, x, y, angle, length, height, obs, level);
    var end := env.endpoint(x, y, angle, length);
    var nextLen := Shrink(length, req.scale);
    var rest := SubmitBranch(env, req, end.0, end.1, angle + req.angleDeg, nextLen,
                             height - 1, obs, level + 1);
    assert e.published == [LineItem(Line(x, y, end.0, end.1, BranchArgb(height)))] + rest.published;
    assert e.spawned == [Branch(end.0, end.1, angle - req.angleDeg, nextLen, height - 1)] + rest.spawned;
  }

  /** Segment k of a `submitBranch` chain that started at angle `angle`
      with length `length` and height `height`: it points at
      angle + k*angleDeg, has `length` shrunk k times and the colour of
      height - k; the child submitted after it starts at its end, turned by
      -angleDeg, one shrink shorter, with height height - 1 - k. */
  ghost predicate Segment(env: Env, req: Request, e: Effect, k: nat,
                          angle: real, length: real, height: nat)
    requires k < |e.published| == |e.spawned| && k < height && e.published[k].LineItem?
  {
    var ln := e.published[k].line;
    && ln.argb == BranchArgb(height - k)
    && (ln.x2, ln.y2) == env.endpoint(ln.x1, ln.y1, angle + k as real * req.angleDeg,
                                      Scaled(length, req.scale, k))
    && e.spawned[k] == Branch(ln.x2, ln.y2, angle + k as real * req.angleDeg - req.angleDeg,
                              Scaled(length, req.scale, k + 1), height - 1 - k)
  }

  /** The chain after its first segment is the chain of the synchronous
      child, one position later. */
  lemma SegmentShift(env: Env, req: Request, e: Effect, rest: Effect,
                     angle: real, length: real, height: nat, k: nat)
    requires 0 < k < |e.published| == |e.spawned| <= height
    requires e.published[1..] == rest.published && e.spawned[1..] == rest.spawned
    requires e.published[k].LineItem?
    requires Segment(env, req, rest, k - 1, angle + req.angleDeg, Shrink(length, req.scale), height - 1)
    ensures Segment(env, req, e, k, angle, length, height)
  {
    var j := k - 1;
    assert e.published[k] == rest.published[j];
    assert e.spawned[k] == rest.spawned[j];
    assert (angle + req.angleDeg) + j as real * req.angleDeg == angle + k as real * req.angleDeg;
    assert Scaled(Shrink(length, req.scale), req.scale, j) == Scaled(length, req.scale, k);
    assert Scaled(Shrink(length, req.scale), req.scale, j + 1) == Scaled(length, req.scale, k + 1);
  }

  /** Every segment of an effect is as `Segment` says. */
  ghost predicate Segments(env: Env, req: Request, e: Effect, angle: real, length: real, height: nat) {
    && |e.published| == |e.spawned| <= height
    && (forall k :: 0 <= k < |e.published| ==> e.published[k].LineItem?)
    && (forall k :: 0 <= k < |e.published| ==> Segment(env, req, e, k, angle, length, height))
  }

  /** A first segment in front of the synchronous child's chain. */
  lemma SegmentsCons(env: Env, req: Request, line: Line, child: Task, rest: Effect,
                     angle: real, length: real, height: nat)
    requires height > 0
    requires Segments(env, req, rest, angle + req.angleDeg, Shrink(length, req.scale), height - 1)
    requires line.argb == BranchArgb(height)
    requires (line.x2, line.y2) == env.endpoint(line.x1, line.y1, angle, length)
    requires child == Branch(line.x2, line.y2, angle - req.angleDeg, Shrink(length, req.scale), height - 1)
    ensures Segments(env, req, Effect([LineItem(line)] + rest.published, [child] + rest.spawned),
                     angle, length, height)
  {
    var e := Effect([LineItem(line)] + rest.published, [child] + rest.spawned);
    forall k | 0 <= k < |e.published|
      ensures e.published[k].LineItem?
    {
      if k > 0 { assert e.published[k] == rest.published[k - 1]; }
    }
    forall k | 0 <= k < |e.published|
      ensures Segment(env, req, e, k, angle, length, height)
    {
      if k == 0 {
        assert Scaled(length, req.scale, 1) == Shrink(length, req.scale);
      } else {
        assert e.published[1..] == rest.published && e.spawned[1..] == rest.spawned;
        SegmentShift(env, req, e, rest, angle, length, height, k);
      }
    }
  }

  /** The whole chain of one `submitBranch` call: every segment is as
      `Segment` says. */
  lemma {:induction false} BranchSegments(env: Env, req: Request, x: int, y: int, angle: real,
                                          length: real, height: nat, obs: Observation, level: nat)
    ensures Segments(env, req, SubmitBranch(env, req, x, y, angle, length, height, obs, level),
                     angle, length, height)
    decreases height
  {
    if height > 0 && !Sees(obs, level) {
      var end := env.endpoint(x, y, angle, length);
      var nextLen := Shrink(length, req.scale);
      BranchStep(env, req, x, y, angle, length, height, obs, level);
      BranchSegments(env, req, end.0, end.1, angle + req.angleDeg, nextLen, height - 1, obs, level + 1);
      SegmentsCons(env, req, Line(x, y, end.0, end.1, BranchArgb(height)),
                   Branch(end.0, end.1, angle - req.angleDeg, nextLen, height - 1),
                   SubmitBranch(env, req, end.0, end.1, angle + req.angleDeg, nextLen,
                                height - 1, obs, level + 1),
                   angle, length, height);
    }
  }

  /** The items are lines forming a path from (x, y): the first starts
      there, and each later one starts where the one before it ended. */
  ghost predicate PathFrom(items: seq<Item>, x: int, y: int) {
    && (forall k :: 0 <= k < |items| ==> items[k].LineItem?)
    && (|items| > 0 ==> items[0].line.x1 == x && items[0].line.y1 == y)
    && (forall k :: 0 < k < |items| ==>
          items[k].line.x1 == items[k - 1].line.x2 && items[k].line.y1 == items[k - 1].line.y2)
  }

  lemma PathCons(line: Line, rest: seq<Item>)
    requires PathFrom(rest, line.x2, line.y2)
    ensures PathFrom([LineItem(line)] + rest, line.x1, line.y1)
  {
    var items := [LineItem(line)] + rest;
    forall k | 0 < k < |items|
      ensures items[k].line.x1 == items[k - 1].line.x2 && items[k].line.y1 == items[k - 1].line.y2
    {
      assert items[k] == rest[k - 1];
      if k > 1 { assert items[k - 1] == rest[k - 2]; }
    }
  }

  /** The segments of one `submitBranch` call form a path from (x, y). */
  lemma {:induction false} BranchPath(env: Env, req: Request, x: int, y: int, angle: real,
                                      length: real, height: nat, obs: Observation, level: nat)
    ensures PathFrom(SubmitBranch(env, req, x, y, angle, length, height, obs, level).published, x, y)
    decreases height
  {
    if height > 0 && !Sees(obs, level) {
      var end := env.endpoint(x, y, angle, length);
      var nextLen := Shrink(length, req.scale);
      BranchStep(env, req, x, y, angle, length, height, obs, level);
      BranchPath(env, req, end.0, end.1, angle + req.angleDeg, nextLen, height - 1, obs, level + 1);
      PathCons(Line(x, y, end.0, end.1, BranchArgb(height)),
               SubmitBranch(env, req, end.0, end.1, angle + req.angleDeg, nextLen,
                            height - 1, obs, level + 1).published);
    }
  }

  /** The children a `submitBranch` chain submits have heights h-1, h-2, ...
      in order; such a run of children, together with one line per child,
      owes at most what a branch of height h owes, and exactly that when
      all h children are there. */
  ghost predicate Descending(s: seq<Task>, h: nat) {
    && |s| <= h
    && forall k :: 0 <= k < |s| ==> s[k].Branch? && s[k].height == h - 1 - k
  }

  lemma {:induction false} DescendingOwed(req: Request, s: seq<Task>, h: nat)
    requires Descending(s, h)
    ensures |s| + OwedBy(req, s) <= Pow2(h) - 1
    ensures |s| == h ==> |s| + OwedBy(req, s) == Pow2(h) - 1
    decreases |s|
  {
    if |s| > 0 {
      assert s == [s[0]] + s[1..];
      SumCons(s[0], s[1..], OwedFn(req));
      assert Descending(s[1..], h - 1) by {
        forall k | 0 <= k < |s[1..]|
          ensures s[1..][k].Branch? && s[1..][k].height == h - 1 - 1 - k
        {
          assert s[1..][k] == s[k + 1];
        }
      }
      DescendingOwed(req, s[1..], h - 1);
    }
  }

  lemma {:induction false} DescendingWeight(req: Request, s: seq<Task>, h: nat)
    requires Descending(s, h)
    ensures WeightOf(req, s) <= Pow2(h) - 1
    decreases |s|
  {
    if |s| > 0 {
      assert s == [s[0]] + s[1..];
      SumCons(s[0], s[1..], WeightFn(req));
      assert Descending(s[1..], h - 1) by {
        forall k | 0 <= k < |s[1..]|
          ensures s[1..][k].Branch? && s[1..][k].height == h - 1 - 1 - k
        {
          assert s[1..][k] == s[k + 1];
        }
      }
      DescendingWeight(req, s[1..], h - 1);
    }
  }

  /** A `submitBranch` chain publishes no rows and submits no row units. */
  lemma BranchRowFree(env: Env, req: Request, x: int, y: int, angle: real,
                      length: real, height: nat, obs: Observation, level: nat)
    ensures var e := SubmitBranch(env, req, x, y, angle, length, height, obs, level);
      RowsIn(e.published) == multiset{} && RowsOwedBy(req, e.spawned) == multiset{}
  {
    var e := SubmitBranch(env, req, x, y, angle, length, height, obs, level);
    BagOfEmpties(e.published, RowIndex);
    assert forall k :: 0 <= k < |e.spawned| ==> RowsOwedFn(req)(e.spawned[k]) == multiset{};
    BagOfEmpties(e.spawned, RowsOwedFn(req));
  }

  /** `generateSet` for h rows is `generateSet` for h - 1 rows and then row h - 1. */
  lemma GenerateSetSnoc(h: int)
    requires h > 0
    ensures GenerateSet(h) == GenerateSet(h - 1) + [Row(h - 1)]
  {
    var a := GenerateSet(h);
    var b := GenerateSet(h - 1) + [Row(h - 1)];
    assert |a| == |b|;
    forall k | 0 <= k < |a|
      ensures a[k] == b[k]
    {
    }
  }

  /** The row units of `generateSet` owe one row each, together every row
      index once. */
  lemma {:induction false} SetBalance(req: Request, h: int)
    ensures OwedBy(req, GenerateSet(h)) == if req.w >= 0 then |GenerateSet(h)| else 0
    ensures WeightOf(req, GenerateSet(h)) == |GenerateSet(h)|
    ensures RowsOwedBy(req, GenerateSet(h)) == AllRows(h)
    decreases if h < 0 then 0 else h
  {
    if h > 0 {
      var prev := GenerateSet(h - 1);
      var last := Row(h - 1);
      GenerateSetSnoc(h);
      SetBalance(req, h - 1);
      SumAppend(prev, [last], OwedFn(req));
      SumAppend(prev, [last], WeightFn(req));
      BagAppend(prev, [last], RowsOwedFn(req));
      assert [last] == [last] + [];
      SumCons(last, [], OwedFn(req));
      SumCons(last, [], WeightFn(req));
      BagCons(last, [], RowsOwedFn(req));
    }
  }

  /** What one unit's effect e must satisfy for the run invariants to
      survive it: it pays what it publishes out of what t owed (exactly, when
      the flag is not seen), submits only fitting units of strictly less
      weight, publishes only good rows, and in a tree run pairs every line
      with one submission. */
  ghost predicate Pays(env: Env, req: Request, t: Task, obs: Observation, e: Effect) {
    && |e.published| + OwedBy(req, e.spawned) <= Owed(req, t)
    && (obs.Unseen? ==> |e.published| + OwedBy(req, e.spawned) == Owed(req, t))
    && RowsIn(e.published) + RowsOwedBy(req, e.spawned) <= RowsOwed(req, t)
    && (obs.Unseen? && req.w >= 0 ==>
          RowsIn(e.published) + RowsOwedBy(req, e.spawned) == RowsOwed(req, t))
    && WeightOf(req, e.spawned) < Weight(req, t)
    && AllFit(req, e.spawned)
    && GoodRows(env, req, e.published)
    && (req.kind == Tree ==> |e.published| == |e.spawned|)
  }

  lemma BranchPays(env: Env, req: Request, x: int, y: int, angle: real, length: real,
                   height: nat, obs: Observation, t: Task)
    requires req.kind == Tree
    requires t == Root || t == Branch(x, y, angle, length, height)
    requires Owed(req, t) == Pow2(height) - 1 && Weight(req, t) == Pow2(height)
    requires RowsOwed(req, t) == multiset{}
    ensures Pays(env, req, t, obs, SubmitBranch(env, req, x, y, angle, length, height, obs, 0))
  {
    var e := SubmitBranch(env, req, x, y, angle, length, height, obs, 0);
    assert Descending(e.spawned, height);
    DescendingOwed(req, e.spawned, height);
    DescendingWeight(req, e.spawned, height);
    BranchRowFree(env, req, x, y, angle, length, height, obs, 0);
  }

  lemma TreeRootPays(env: Env, req: Request, obs: Observation)
    requires req.kind == Tree
    ensures Pays(env, req, Root, obs, RunTask(env, req, Root, obs))
  {
    var len := (if req.w <= req.h then req.w else req.h) as real * 0.18;
    BranchPays(env, req, JavaDiv(req.w, 2), TruncToInt(req.h as real * 0.9),
               -90.0, len, req.depth, obs, Root);
  }

  lemma SetRootPays(env: Env, req: Request, obs: Observation)
    requires req.kind != Tree
    ensures Pays(env, req, Root, obs, RunTask(env, req, Root, obs))
  {
    var units := GenerateSet(req.h);
    assert RunTask(env, req, Root, obs) == Effect([], units);
    SetBalance(req, req.h);
    GenerateSetRows(req.h);
    assert forall k :: 0 <= k < |units| ==> units[k] in units;
  }

  lemma RootPays(env: Env, req: Request, obs: Observation)
    ensures Pays(env, req, Root, obs, RunTask(env, req, Root, obs))
  {
    if req.kind == Tree {
      TreeRootPays(env, req, obs);
    } else {
      SetRootPays(env, req, obs);
    }
  }

  lemma RowPays(env: Env, req: Request, y: int, obs: Observation)
    requires Fits(req, Row(y))
    ensures Pays(env, req, Row(y), obs, RunTask(env, req, Row(y), obs))
  {
    var e := RunTask(env, req, Row(y), obs);
    var outcome := RowOutcome(env, req.w, y, obs);
    if outcome.Some? {
      assert e.published == [RowItem(outcome.value)] + [];
      BagCons(RowItem(outcome.value), [], RowIndex);
    }
  }

  /** One unit, whichever it is, pays for itself. */
  lemma TaskPays(env: Env, req: Request, t: Task, obs: Observation)
    requires Fits(req, t)
    ensures Pays(env, req, t, obs, RunTask(env, req, t, obs))
  {
    match t
    case Root => RootPays(env, req, obs);
    case Branch(x, y, angle, length, height) =>
      BranchPays(env, req, x, y, angle, length, height, obs, t);
    case Row(y) => RowPays(env, req, y, obs);
  }

  /* ----------------------------- transitions ---------------------------- */

  /** A fresh handle satisfies every invariant. */
  lemma StartValid(env: Env, req: Request)
    ensures Valid(env, Start(req))
  {
    var c := Start(req).ctl;
    assert OwedBy(req, c.pending) == Owed(req, Root);
    assert RowsOwedBy(req, c.pending) == RowsOwed(req, Root);
  }

  /** The unit a step runs, and how it sees the flag. */
  function Seen(c: Control, obs: Observation): Observation {
    if c.cancelled then SeenFrom(0) else obs
  }

  function StepEffect(env: Env, c: Control, i: nat, obs: Observation): Effect
    requires i < |c.pending|
  {
    RunTask(env, c.req, c.pending[i], Seen(c, obs))
  }

  /** A step, field by field, in terms of the effect of the unit it runs.
      This only unfolds `Step`, for the proofs below. */
  lemma StepFields(env: Env, c: Control, i: nat, obs: Observation)
    requires i < |c.pending|
    ensures var e := StepEffect(env, c, i, obs);
      var c' := Step(env, c, i, obs);
      && c'.req == c.req
      && c'.tasks == c.tasks + |e.spawned| - 1
      && c'.cancelled == (c.cancelled || obs.SeenFrom?)
      && c'.queue == c.queue + e.published
      && c'.pending == RemoveAt(c.pending, i) + e.spawned
      && c'.published == c.published + e.published
      && c'.submitted == c.submitted + |e.spawned|
      && c'.shutdowns == c.shutdowns
      && (c'.closing <==> c'.tasks == 0)
  {
  }

  lemma StepCounted(env: Env, c: Control, i: nat, obs: Observation)
    requires Counted(c) && i < |c.pending|
    ensures Counted(Step(env, c, i, obs))
  {
    StepFields(env, c, i, obs);
  }

  lemma StepAccounted(env: Env, c: Control, i: nat, obs: Observation)
    requires Accounted(c) && WellShaped(env, c) && i < |c.pending|
    ensures Accounted(Step(env, c, i, obs))
  {
    var req := c.req;
    var t := c.pending[i];
    var e := StepEffect(env, c, i, obs);
    var rest := RemoveAt(c.pending, i);
    StepFields(env, c, i, obs);
    TaskPays(env, req, t, Seen(c, obs));
    SumRemoveAt(c.pending, i, OwedFn(req));
    SumAppend(rest, e.spawned, OwedFn(req));
    BagRemoveAt(c.pending, i, RowsOwedFn(req));
    BagAppend(rest, e.spawned, RowsOwedFn(req));
    BagAppend(c.published, e.published, RowIndex);
  }

  lemma {:induction false} AllFitParts(req: Request, s: seq<Task>, i: nat, more: seq<Task>)
    requires AllFit(req, s) && AllFit(req, more) && i < |s|
    ensures AllFit(req, RemoveAt(s, i) + more)
  {
    var rest := RemoveAt(s, i);
    forall k | 0 <= k < |rest + more|
      ensures Fits(req, (rest + more)[k])
    {
      if k < |rest| {
        if k < i { assert rest[k] == s[k]; } else { assert rest[k] == s[k + 1]; }
      } else {
        assert (rest + more)[k] == more[k - |rest|];
      }
    }
  }

  lemma {:induction false} GoodRowsAppend(env: Env, req: Request, a: seq<Item>, b: seq<Item>)
    requires GoodRows(env, req, a) && GoodRows(env, req, b)
    ensures GoodRows(env, req, a + b)
  {
    forall k | 0 <= k < |a + b| && (a + b)[k].RowItem?
      ensures GoodRow(env, req, (a + b)[k].info)
    {
      if k >= |a| {
        assert (a + b)[k] == b[k - |a|];
      }
    }
  }

  lemma StepFits(env: Env, c: Control, i: nat, obs: Observation)
    requires WellShaped(env, c) && i < |c.pending|
    ensures AllFit(c.req, Step(env, c, i, obs).pending)
  {
    StepFields(env, c, i, obs);
    TaskPays(env, c.req, c.pending[i], Seen(c, obs));
    AllFitParts(c.req, c.pending, i, StepEffect(env, c, i, obs).spawned);
  }

  lemma StepGoodRows(env: Env, c: Control, i: nat, obs: Observation)
    requires WellShaped(env, c) && i < |c.pending|
    ensures GoodRows(env, c.req, Step(env, c, i, obs).published)
  {
    StepFields(env, c, i, obs);
    TaskPays(env, c.req, c.pending[i], Seen(c, obs));
    GoodRowsAppend(env, c.req, c.published, StepEffect(env, c, i, obs).published);
  }

  lemma StepShaped(env: Env, c: Control, i: nat, obs: Observation)
    requires WellShaped(env, c) && i < |c.pending|
    ensures WellShaped(env, Step(env, c, i, obs))
  {
    StepFits(env, c, i, obs);
    StepGoodRows(env, c, i, obs);
    StepFields(env, c, i, obs);
  }

  /** Running a pending unit strictly lowers the total weight pending, so no
      interleaving runs units forever. */
  lemma StepDecreasesWeight(env: Env, c: Control, i: nat, obs: Observation)
    requires WellShaped(env, c) && i < |c.pending|
    ensures WeightOf(c.req, Step(env, c, i, obs).pending) < WeightOf(c.req, c.pending)
  {
    var req := c.req;
    var e := StepEffect(env, c, i, obs);
    var rest := RemoveAt(c.pending, i);
    StepFields(env, c, i, obs);
    TaskPays(env, req, c.pending[i], Seen(c, obs));
    SumRemoveAt(c.pending, i, WeightFn(req));
    SumAppend(rest, e.spawned, WeightFn(req));
  }

  /** Running any pending unit keeps every invariant. */
  lemma StepDelivered(env: Env, s: Session, i: nat, obs: Observation)
    requires Delivered(s) && i < |s.ctl.pending|
    ensures Delivered(s.(ctl := Step(env, s.ctl, i, obs)))
  {
    var c := s.ctl;
    StepFields(env, c, i, obs);
    var e := StepEffect(env, c, i, obs);
    assert (s.delivered + c.queue) + e.published == s.delivered + (c.queue + e.published);
  }

  lemma StepValid(env: Env, s: Session, i: nat, obs: Observation)
    requires Valid(env, s) && i < |s.ctl.pending|
    ensures Valid(env, s.(ctl := Step(env, s.ctl, i, obs)))
  {
    StepCounted(env, s.ctl, i, obs);
    StepAccounted(env, s.ctl, i, obs);
    StepShaped(env, s.ctl, i, obs);
    StepDelivered(env, s, i, obs);
  }

  lemma CloseValid(env: Env, s: Session)
    requires Valid(env, s)
    ensures Valid(env, s.(ctl := FinishClose(s.ctl)))
  {
  }

  lemma CancelValid(env: Env, s: Session)
    requires Valid(env, s) && s.shown.None?
    ensures Valid(env, s.(ctl := Cancel(s.ctl)))
  {
  }

  lemma BeginTickValid(env: Env, s: Session)
    requires Valid(env, s)
    ensures Valid(env, BeginTick(s))
  {
  }

  lemma EndTickValid(env: Env, s: Session)
    requires Valid(env, s)
    ensures Valid(env, EndTick(s))
  {
  }

  /** Whatever happens next keeps every invariant. */
  lemma ApplyValid(env: Env, s: Session, a: Action)
    requires Valid(env, s)
    ensures Valid(env, Apply(env, s, a))
  {
    match a {
      case RunUnit(i, obs) =>
        if i < |s.ctl.pending| { StepValid(env, s, i, obs); }
      case CloseRun => CloseValid(env, s);
      case CancelRun => if s.shown.None? { CancelValid(env, s); }
      case PollRun => BeginTickValid(env, s);
      case CheckRun => EndTickValid(env, s);
    }
  }

  /** Running a unit lowers the pending weight; nothing else changes the
      pending units or the request. */
  lemma ApplyWeight(env: Env, s: Session, a: Action)
    requires Valid(env, s)
    ensures var s' := Apply(env, s, a);
      && s'.ctl.req == s.ctl.req
      && (if a.RunUnit? && a.index < |s.ctl.pending|
          then WeightOf(s.ctl.req, s'.ctl.pending) < WeightOf(s.ctl.req, s.ctl.pending)
          else s'.ctl.pending == s.ctl.pending)
  {
    match a {
      case RunUnit(i, obs) =>
        if i < |s.ctl.pending| {
          StepFields(env, s.ctl, i, obs);
          StepDecreasesWeight(env, s.ctl, i, obs);
        }
      case CloseRun =>
      case CancelRun =>
      case PollRun =>
      case CheckRun =>
    }
  }

  /** Every invariant holds after any sequence of steps, cancels and ticks. */
  lemma {:induction false} ExecuteValid(env: Env, s: Session, acts: seq<Action>)
    requires Valid(env, s)
    ensures Valid(env, Execute(env, s, acts))
    decreases |acts|
  {
    if |acts| > 0 {
      ApplyValid(env, s, acts[0]);
      ExecuteValid(env, Apply(env, s, acts[0]), acts[1..]);
    }
  }

  /** No action changes which request a run serves. */
  lemma {:induction false} ExecuteKeepsRequest(env: Env, s: Session, acts: seq<Action>)
    ensures Execute(env, s, acts).ctl.req == s.ctl.req
    decreases |acts|
  {
    if |acts| > 0 {
      if acts[0].RunUnit? && acts[0].index < |s.ctl.pending| {
        StepFields(env, s.ctl, acts[0].index, acts[0].obs);
      }
      ExecuteKeepsRequest(env, Apply(env, s, acts[0]), acts[1..]);
    }
  }

  /** Every run of a request satisfies every invariant. */
  lemma ReachableValid(env: Env, req: Request, acts: seq<Action>)
    ensures Valid(env, Execute(env, Start(req), acts))
    ensures Execute(env, Start(req), acts).ctl.req == req
  {
    StartValid(env, req);
    ExecuteValid(env, Start(req), acts);
    ExecuteKeepsRequest(env, Start(req), acts);
  }

  /* ------------------------------ run facts ----------------------------- */

  /** Once cancelled, a run stays cancelled. */
  lemma {:induction false} CancelSticks(env: Env, s: Session, acts: seq<Action>)
    requires s.ctl.cancelled
    ensures Execute(env, s, acts).ctl.cancelled
    decreases |acts|
  {
    if |acts| > 0 {
      CancelSticks(env, Apply(env, s, acts[0]), acts[1..]);
    }
  }

  /** Whatever the interleaving, a run executes at most as many units as
      the weight it started with: the run always terminates. */
  lemma {:induction false} UnitsRunBounded(env: Env, s: Session, acts: seq<Action>)
    requires Valid(env, s)
    ensures UnitsRun(env, s, acts) <= WeightOf(s.ctl.req, s.ctl.pending)
    decreases |acts|
  {
    if |acts| > 0 {
      var s1 := Apply(env, s, acts[0]);
      ApplyValid(env, s, acts[0]);
      ApplyWeight(env, s, acts[0]);
      UnitsRunBounded(env, s1, acts[1..]);
    }
  }

  /** A tree run of depth d runs at most 2^d units, and a set run of h rows
      at most h + 1, whatever the order and whenever it is cancelled. */
  lemma RunTerminates(env: Env, req: Request, acts: seq<Action>)
    ensures UnitsRun(env, Start(req), acts) <= Weight(req, Root)
  {
    StartValid(env, req);
    UnitsRunBounded(env, Start(req), acts);
    assert WeightOf(req, [Root]) == Weight(req, Root) by {
      assert [Root] == [Root] + [];
      SumCons(Root, [], WeightFn(req));
    }
  }

  /** The counter protocol along any run: the count equals the number of
      unfinished units (never negative), the pool is shut down at most once
      and only when nothing is left to run, and once nothing is left it is
      shut down or the last unit's thread is about to shut it down. */
  lemma CounterProtocol(env: Env, req: Request, acts: seq<Action>)
    ensures var c := Execute(env, Start(req), acts).ctl;
      && c.tasks == |c.pending| >= 0
      && c.shutdowns <= 1
      && (c.IsShutdown() ==> c.pending == [])
      && (c.pending == [] <==> c.IsShutdown() || c.closing)
  {
    ReachableValid(env, req, acts);
  }

  /** `update`'s own shutdown check fires exactly in the window where the
      last unit's decrement has read zero, its thread has not yet performed
      its `!isShutdown()` test, and no earlier `update` has already shut the
      pool down. */
  lemma UpdateShutdownWindow(env: Env, req: Request, acts: seq<Action>)
    ensures var c := Execute(env, Start(req), acts).ctl;
      Update(c).1.shutdowns != c.shutdowns <==> c.closing && !c.IsShutdown()
  {
    ReachableValid(env, req, acts);
  }

  /** The window is real: after the root unit and the single row unit of a
      one-row set request, the closing thread has not yet done its test,
      and `update` is the one that shuts the pool down. */
  lemma UpdateCanShutDown(env: Env, req: Request)
    requires req.kind != Tree && req.h == 1
    ensures var c := Execute(env, Start(req), [RunUnit(0, Unseen), RunUnit(0, Unseen)]).ctl;
      && c.pending == [] && c.closing && !c.IsShutdown()
      && Update(c).1.IsShutdown()
  {
    var acts := [RunUnit(0, Unseen), RunUnit(0, Unseen)];
    var s0 := Start(req);
    var s1 := Apply(env, s0, acts[0]);
    StepFields(env, s0.ctl, 0, Unseen);
    assert s1.ctl.pending == [Row(0)];
    var s2 := Apply(env, s1, acts[1]);
    StepFields(env, s1.ctl, 0, Unseen);
    assert Execute(env, s0, acts) == s2 by {
      assert Execute(env, s0, acts) == Execute(env, s1, acts[1..]);
      assert Execute(env, s1, acts[1..]) == Execute(env, s2, acts[2..]);
    }
  }

  /** The corrected end of a tick differs from the one as written only in
      what it hands over: the pool, the flag, the pending units, the
      published items, the status shown and the timer all agree. */
  lemma EndTickAgrees(s: Session)
    ensures EndTick(s).ctl.(queue := []) == EndTickAsWritten(s).ctl.(queue := [])
    ensures EndTick(s).shown == EndTickAsWritten(s).shown
    ensures EndTick(s).midTick == EndTickAsWritten(s).midTick
  {
  }

  /** The caller loses nothing and repeats nothing: it has received a prefix
      of everything put, in put order, and all of it once the timer stops. */
  lemma DeliveryExact(env: Env, req: Request, acts: seq<Action>)
    ensures var s := Execute(env, Start(req), acts);
      && s.delivered <= s.ctl.published
      && (s.shown.Some? ==> s.delivered == s.ctl.published)
  {
    ReachableValid(env, req, acts);
  }

  /** Once the timer has stopped, the caller receives nothing more, whatever
      happens next. */
  lemma {:induction false} StoppedDeliversNothing(env: Env, s: Session, acts: seq<Action>)
    requires s.shown.Some? && !s.midTick
    ensures Execute(env, s, acts).delivered == s.delivered
    decreases |acts|
  {
    if |acts| > 0 {
      var s1 := Apply(env, s, acts[0]);
      assert s1.delivered == s.delivered && s1.shown.Some? && !s1.midTick;
      StoppedDeliversNothing(env, s1, acts[1..]);
    }
  }

  /** As the caller is written, the last line of a depth-1 tree can be lost:
      a tick drains the empty queue, both units then run to completion and
      the pool shuts down, and the same tick's termination test stops the
      timer with the line still queued. */
  lemma LastLineLost(env: Env, req: Request)
    requires req.kind == Tree && req.depth == 1
    ensures var s := Execute(env, Start(req), [PollRun, RunUnit(0, Unseen), RunUnit(0, Unseen), CloseRun]);
      var stopped := EndTickAsWritten(s);
      && stopped.shown == Some(Rendered)
      && |stopped.ctl.published| == 1
      && stopped.ctl.queue == stopped.ctl.published
      && stopped.delivered == []
      && !stopped.midTick
  {
    var acts := [PollRun, RunUnit(0, Unseen), RunUnit(0, Unseen), CloseRun];
    DepthOneTree(env, req);
    var s0 := Start(req);
    var s1 := Apply(env, s0, PollRun);
    assert s1.delivered == [] && s1.midTick && s1.ctl.pending == [Root] && !s1.ctl.cancelled;
    var s2 := Apply(env, s1, RunUnit(0, Unseen));
    StepFields(env, s1.ctl, 0, Unseen);
    assert s2.ctl.pending == RunTask(env, req, Root, Unseen).spawned;
    var s3 := Apply(env, s2, RunUnit(0, Unseen));
    StepFields(env, s2.ctl, 0, Unseen);
    var s4 := Apply(env, s3, CloseRun);
    assert s4.ctl.IsShutdown() && s4.ctl.pending == [] && !s4.ctl.closing;
    assert Execute(env, s0, acts) == s4 by {
      assert Execute(env, s0, acts) == Execute(env, s1, acts[1..]);
      assert Execute(env, s1, acts[1..]) == Execute(env, s2, acts[2..]);
      assert Execute(env, s2, acts[2..]) == Execute(env, s3, acts[3..]);
      assert Execute(env, s3, acts[3..]) == Execute(env, s4, acts[4..]);
    }
  }

  /** A tree run of depth d: every line is paired with one asynchronous
      submission, there are never more than 2^d - 1 lines, and a run that
      ends without cancellation published exactly 2^d - 1 lines and made
      exactly 2^d - 1 submissions. */
  lemma TreeRunOutput(env: Env, req: Request, acts: seq<Action>)
    requires req.kind == Tree
    ensures var c := Execute(env, Start(req), acts).ctl;
      && c.submitted == |c.published| <= Pow2(req.depth) - 1
      && (c.pending == [] && !c.cancelled ==>
            |c.published| == Pow2(req.depth) - 1 && c.submitted == Pow2(req.depth) - 1)
  {
    ReachableValid(env, req, acts);
  }

  /** A Mandelbrot or Julia run: each row index in 0..h-1 is published at
      most once and no other index ever is; each published row is the
      request's row; and a run that ends without cancellation published
      every row exactly once (when the width lets a row be allocated). */
  lemma SetRunOutput(env: Env, req: Request, acts: seq<Action>)
    requires req.kind != Tree
    ensures var c := Execute(env, Start(req), acts).ctl;
      && (forall y :: RowsIn(c.published)[y] <= if 0 <= y < req.h then 1 else 0)
      && (forall k :: 0 <= k < |c.published| && c.published[k].RowItem? ==>
            GoodRow(env, req, c.published[k].info))
      && (c.pending == [] && !c.cancelled && req.w >= 0 ==>
            forall y :: RowsIn(c.published)[y] == if 0 <= y < req.h then 1 else 0)
  {
    ReachableValid(env, req, acts);
    var c := Execute(env, Start(req), acts).ctl;
    var owed := RowsOwedBy(req, c.pending);
    forall y
      ensures RowsIn(c.published)[y] <= if 0 <= y < req.h then 1 else 0
    {
      assert (RowsIn(c.published) + owed)[y] == RowsIn(c.published)[y] + owed[y];
    }
    if c.pending == [] && !c.cancelled && req.w >= 0 {
      assert owed == multiset{};
      assert RowsIn(c.published) == AllRows(req.h);
    }
  }

  /** Rows do not depend on the interleaving or on cancellation: two runs of
      the same request that both publish row y publish the same colours. */
  lemma RowsDeterministic(env: Env, req: Request, acts1: seq<Action>, acts2: seq<Action>,
                          a: RowInfo, b: RowInfo)
    requires req.kind != Tree && a.y == b.y
    requires RowItem(a) in Execute(env, Start(req), acts1).ctl.published
    requires RowItem(b) in Execute(env, Start(req), acts2).ctl.published
    ensures a == b
  {
    SetRunOutput(env, req, acts1);
    SetRunOutput(env, req, acts2);
    var p1 := Execute(env, Start(req), acts1).ctl.published;
    var p2 := Execute(env, Start(req), acts2).ctl.published;
    var k1 :| 0 <= k1 < |p1| && p1[k1] == RowItem(a);
    var k2 :| 0 <= k2 < |p2| && p2[k2] == RowItem(b);
    assert GoodRow(env, req, p1[k1].info) && GoodRow(env, req, p2[k2].info);
    assert |a.row| == |b.row|;
    forall x | 0 <= x < |a.row| ensures a.row[x] == b.row[x] { }
    assert a.row == b.row;
  }

  /** "Rendered." is shown only for a complete run: every line or row the
      request asks for has been published and handed to the caller. */
  lemma RenderedIsComplete(env: Env, req: Request, acts: seq<Action>)
    ensures var s := Execute(env, Start(req), acts);
      s.shown == Some(Rendered) ==>
        |s.ctl.published| == Owed(req, Root) && s.delivered == s.ctl.published
  {
    ReachableValid(env, req, acts);
  }

  /** A cancel made while the run is current sticks, and no continuation of
      the run is ever reported as rendered. */
  lemma CancelledNeverRendered(env: Env, req: Request, before: seq<Action>, after: seq<Action>)
    requires Execute(env, Start(req), before).shown.None?
    ensures Execute(env, Start(req), before + [CancelRun] + after).ctl.cancelled
    ensures StatusOf(Execute(env, Start(req), before + [CancelRun] + after).ctl) != Rendered
    ensures Execute(env, Start(req), before + [CancelRun] + after).shown != Some(Rendered)
  {
    ExecuteSplit(env, Start(req), before + [CancelRun], after);
    ExecuteSplit(env, Start(req), before, [CancelRun]);
    var s := Execute(env, Start(req), before + [CancelRun]);
    CancelSticks(env, s, after);
    ReachableValid(env, req, before + [CancelRun] + after);
  }

  lemma {:induction false} ExecuteSplit(env: Env, s: Session, a: seq<Action>, b: seq<Action>)
    ensures Execute(env, s, a + b) == Execute(env, Execute(env, s, a), b)
    decreases |a|
  {
    if |a| > 0 {
      assert (a + b)[0] == a[0];
      assert (a + b)[1..] == a[1..] + b;
      ExecuteSplit(env, Apply(env, s, a[0]), a[1..], b);
    } else {
      assert a + b == b;
    }
  }

  /* ----------------------------- unit facts ----------------------------- */

  /** The two segment colours are distinct, so a segment is foliage exactly
      when its height is below 5. */
  lemma BranchColour(height: int)
    ensures Argb(Foliage) == -15430636 && Argb(Trunk) == -14145496
    ensures Argb(Foliage) != Argb(Trunk)
    ensures BranchArgb(height) == Argb(Foliage) <==> height < 5
    ensures BranchArgb(height) == Argb(Trunk) <==> height >= 5
  {
  }

  /** A depth-1 tree: its root unit publishes one foliage segment and
      submits one child of height 0, which publishes and submits nothing. */
  lemma DepthOneTree(env: Env, req: Request)
    requires req.kind == Tree && req.depth == 1
    ensures var e := RunTask(env, req, Root, Unseen);
      && |e.published| == 1 && e.published[0].LineItem?
      && e.published[0].line.argb == Argb(Foliage)
      && |e.spawned| == 1 && e.spawned[0].Branch? && e.spawned[0].height == 0
      && RunTask(env, req, e.spawned[0], Unseen) == Effect([], [])
  {
    var len := (if req.w <= req.h then req.w else req.h) as real * 0.18;
    BranchStep(env, req, JavaDiv(req.w, 2), TruncToInt(req.h as real * 0.9), -90.0, len, 1, Unseen, 0);
  }
}
