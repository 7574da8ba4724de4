/**
 * The non-rendering state of the whiteboard client (client/canvas.js):
 * the local mirror of the room's operation log with its id index, the set
 * of operations a redraw paints, and the state machine that buffers pointer
 * samples and sends them to the server in batches.
 *
 * The batching rules are pure functions over `Pen`; the class
 * `CanvasState` holds the closure variables of `initCanvas` and each of
 * its methods ties the new state to those functions.
 */
module Canvas {
  import opened Ops

  /** A mid-stroke batch is sent only when more than this many ms passed since the last one. */
  const FlushIntervalMs: int := 40
  /** ... and only when the buffer holds more than this many points. */
  const MidStrokeMinPoints: nat := 3

  /** A stroke batch as the client sends it; `end` marks the batch sent on pointer-up. */
  datatype Batch = Batch(id: string, tool: string, color: string, width: int, points: seq<Point>, end: bool)

  // ---------------------------------------------------------------- ordering

  predicate SortedByOrder(s: seq<Op>)
  {
    forall i, j :: 0 <= i < j < |s| ==> s[i].order <= s[j].order
  }

  /** No two different operations share an `order` key. */
  ghost predicate OrderKeyed(s: seq<Op>)
  {
    forall x, y :: x in s && y in s && x.order == y.order ==> x == y
  }

  /** `o` placed before the first element whose key is not smaller. */
  function Insert(o: Op, s: seq<Op>): (r: seq<Op>)
    ensures |r| == |s| + 1
    ensures multiset(r) == multiset(s) + multiset{o}
    ensures r[0] == o || (s != [] && r[0] == s[0])
  {
    if s == [] || o.order <= s[0].order then [o] + s
    else
      assert s == [s[0]] + s[1..];
      [s[0]] + Insert(o, s[1..])
  }

  /** Insertion keeps a sorted sequence sorted. */
  lemma {:induction false} InsertKeepsSorted(o: Op, s: seq<Op>)
    requires SortedByOrder(s)
    ensures SortedByOrder(Insert(o, s))
  {
    if s != [] && o.order > s[0].order {
      var rest := Insert(o, s[1..]);
      InsertKeepsSorted(o, s[1..]);
      assert s[0].order <= rest[0].order by {
        if rest[0] != o {
          assert rest[0] == s[1];
        }
      }
      var r := [s[0]] + rest;
      forall i, j | 0 <= i < j < |r| ensures r[i].order <= r[j].order {
        assert r[j] == rest[j - 1];
        if i > 0 {
          assert r[i] == rest[i - 1];
        }
      }
    }
  }

  /**
   * The client's stable sort by ascending `order`, here as an insertion
   * sort.
   */
  function SortByOrder(s: seq<Op>): (r: seq<Op>)
    ensures SortedByOrder(r)
    ensures multiset(r) == multiset(s)
  {
    if s == [] then []
    else
      assert s == [s[0]] + s[1..];
      var rest := SortByOrder(s[1..]);
      InsertKeepsSorted(s[0], rest);
      Insert(s[0], rest)
  }

  /** Sorting a log that is already in order leaves it as it is. */
  lemma {:induction false} SortSortedIsIdentity(s: seq<Op>)
    requires SortedByOrder(s)
    ensures SortByOrder(s) == s
  {
    if s != [] {
      SortSortedIsIdentity(s[1..]);
      assert s == [s[0]] + s[1..];
    }
  }

  /** Two sorted arrangements of the same operations, keyed by `order`, are identical. */
  lemma {:induction false} SortedUnique(a: seq<Op>, b: seq<Op>)
    requires SortedByOrder(a) && SortedByOrder(b)
    requires multiset(a) == multiset(b) && OrderKeyed(a)
    ensures a == b
  {
    if a == [] {
      assert |b| == |multiset(b)| == 0;
    } else {
      SortedHeads(a, b);
      TailMultiset(a);
      TailMultiset(b);
      SortedTail(a);
      SortedTail(b);
      SortedUnique(a[1..], b[1..]);
    }
  }

  /** Two sorted arrangements of the same keyed operations start with the same one. */
  lemma SortedHeads(a: seq<Op>, b: seq<Op>)
    requires SortedByOrder(a) && SortedByOrder(b)
    requires multiset(a) == multiset(b) && OrderKeyed(a) && a != []
    ensures b != [] && a[0] == b[0]
  {
    assert a[0] in multiset(b) && b[0] in multiset(a);
    var m :| 0 <= m < |a| && a[m] == b[0];
    var k :| 0 <= k < |b| && b[k] == a[0];
    assert a[0].order <= a[m].order && b[0].order <= b[k].order;
  }

  lemma SortedTail(s: seq<Op>)
    requires s != [] && SortedByOrder(s)
    ensures SortedByOrder(s[1..])
    ensures OrderKeyed(s) ==> OrderKeyed(s[1..])
  {
    if OrderKeyed(s) {
      forall x, y | x in s[1..] && y in s[1..] && x.order == y.order ensures x == y {
        assert x in s && y in s;
      }
    }
  }

  lemma TailMultiset(s: seq<Op>)
    requires s != []
    ensures multiset(s[1..]) == multiset(s) - multiset{s[0]}
  {
    assert s == [s[0]] + s[1..];
  }

  // ---------------------------------------------------------------- what a redraw paints

  /** The operations a full redraw paints: the alive ones, in ascending `order`. */
  function Visible(ops: seq<Op>): (r: seq<Op>)
    ensures SortedByOrder(r)
    ensures forall o :: multiset(r)[o] == if o.alive then multiset(ops)[o] else 0
  {
    SortByOrder(AliveOnly(ops))
  }

  /** The visible strokes that `drawOp` actually strokes: those with at least two points. */
  function Painted(visible: seq<Op>): (r: seq<Op>)
    ensures forall o :: multiset(r)[o] == if |o.points| >= 2 then multiset(visible)[o] else 0
    ensures forall o :: o in r <==> o in visible && |o.points| >= 2
  {
    if visible == [] then []
    else
      assert visible == [visible[0]] + visible[1..];
      if |visible[0].points| >= 2 then [visible[0]] + Painted(visible[1..]) else Painted(visible[1..])
  }

  /**
   * Convergence: two clients holding the same operations, in whatever
   * arrival order, redraw exactly the same sequence of strokes.
   */
  lemma SameOpsSameView(a: seq<Op>, b: seq<Op>)
    requires multiset(a) == multiset(b) && OrderKeyed(a)
    ensures Visible(a) == Visible(b)
  {
    var va, vb := Visible(a), Visible(b);
    assert multiset(va) == multiset(vb) by {
      forall o: Op ensures multiset(va)[o] == multiset(vb)[o] {
        assert multiset(va)[o] == if o.alive then multiset(a)[o] else 0;
        assert multiset(vb)[o] == if o.alive then multiset(b)[o] else 0;
      }
    }
    assert OrderKeyed(va) by {
      forall x, y | x in va && y in va && x.order == y.order ensures x == y {
        assert multiset(va)[x] > 0 && multiset(va)[y] > 0;
        assert x in a && y in a;
      }
    }
    SortedUnique(va, vb);
  }

  // ---------------------------------------------------------------- the id index

  /** For each id in the log, the position of the last entry carrying it. */
  function LastIndex(ops: seq<Op>): (m: map<string, nat>)
    ensures forall i :: 0 <= i < |ops| ==> ops[i].id in m
    ensures forall id :: id in m ==> m[id] < |ops| && ops[m[id]].id == id
  {
    if ops == [] then map[]
    else LastIndex(ops[..|ops| - 1])[ops[|ops| - 1].id := |ops| - 1]
  }

  /** The indexed entry is the last one with its id: no later entry carries it. */
  lemma {:induction false} LastIndexIsLast(ops: seq<Op>, id: string, j: nat)
    requires id in LastIndex(ops) && LastIndex(ops)[id] < j < |ops|
    ensures ops[j].id != id
  {
    var init := ops[..|ops| - 1];
    if j < |ops| - 1 {
      assert id != ops[|ops| - 1].id;
      LastIndexIsLast(init, id, j);
      assert init[j] == ops[j];
    }
  }

  lemma LastIndexAppend(ops: seq<Op>, o: Op)
    ensures LastIndex(ops + [o]) == LastIndex(ops)[o.id := |ops|]
  {
    assert (ops + [o])[..|ops|] == ops;
  }

  /** The index does not depend on alive flags, only on the ids in log order. */
  lemma {:induction false} LastIndexSameIds(a: seq<Op>, b: seq<Op>)
    requires |a| == |b| && forall k :: 0 <= k < |a| ==> a[k].id == b[k].id
    ensures LastIndex(a) == LastIndex(b)
  {
    if a != [] {
      LastIndexSameIds(a[..|a| - 1], b[..|b| - 1]);
    }
  }

  /** `tombstone(id)`: clear the flag of the indexed entry when it is not already false. */
  function Tombstoned(ops: seq<Op>, index: map<string, nat>, id: string): seq<Op>
  {
    if id in index && index[id] < |ops| && ops[index[id]].alive
    then SetAlive(ops, index[id], false)
    else ops
  }

  /** `restore(id)`: set the flag of the indexed entry when it is false. */
  function Restored(ops: seq<Op>, index: map<string, nat>, id: string): seq<Op>
  {
    if id in index && index[id] < |ops| && !ops[index[id]].alive
    then SetAlive(ops, index[id], true)
    else ops
  }

  lemma TombstoneIdempotent(ops: seq<Op>, index: map<string, nat>, id: string)
    ensures Tombstoned(Tombstoned(ops, index, id), index, id) == Tombstoned(ops, index, id)
  {
  }

  lemma RestoreIdempotent(ops: seq<Op>, index: map<string, nat>, id: string)
    ensures Restored(Restored(ops, index, id), index, id) == Restored(ops, index, id)
  {
  }

  /** Restoring what was just tombstoned gives back the log; and the other way round. */
  lemma TombstoneRestoreInverse(ops: seq<Op>, index: map<string, nat>, id: string)
    requires id in index && index[id] < |ops|
    ensures ops[index[id]].alive ==> Restored(Tombstoned(ops, index, id), index, id) == ops
    ensures !ops[index[id]].alive ==> Tombstoned(Restored(ops, index, id), index, id) == ops
  {
    var i := index[id];
    if ops[i].alive {
      assert SetAlive(SetAlive(ops, i, false), i, true) == ops;
    } else {
      assert SetAlive(SetAlive(ops, i, true), i, false) == ops;
    }
  }

  // ---------------------------------------------------------------- batching

  /** The stroke-batching variables: `drawing`, `currentPoints` and `lastSentAt`. */
  datatype Pen = Pen(drawing: bool, buffer: seq<Point>, lastSentAt: int)

  /** The pen after a step, and the points of the batch sent by it, if any. */
  datatype PenStep = PenStep(pen: Pen, sent: Option<seq<Point>>)

  /** `flushBatch`: send the whole buffer when it holds at least two points. */
  function PenFlush(pen: Pen, now: int): (r: PenStep)
    ensures r.sent.Some? <==> |pen.buffer| >= 2
    ensures r.sent.Some? ==> r.sent.value == pen.buffer && r.pen == Pen(pen.drawing, [], now)
    ensures r.sent.None? ==> r.pen == pen
  {
    if |pen.buffer| < 2 then PenStep(pen, None)
    else PenStep(pen.(buffer := [], lastSentAt := now), Some(pen.buffer))
  }

  /** `begin`: start a stroke whose buffer is the pointer-down sample alone. */
  function PenBegin(pen: Pen, p: Point): Pen
  {
    pen.(drawing := true, buffer := [p])
  }

  /** `move`: buffer the sample while drawing; flush when due. */
  function PenMove(pen: Pen, p: Point, now: int): PenStep
  {
    if !pen.drawing then PenStep(pen, None)
    else
      var buffered := pen.(buffer := pen.buffer + [p]);
      if now - pen.lastSentAt > FlushIntervalMs && |buffered.buffer| > MidStrokeMinPoints
      then PenFlush(buffered, now)
      else PenStep(buffered, None)
  }

  /** `end`: stop drawing and flush what is left. */
  function PenEnd(pen: Pen, now: int): PenStep
  {
    if !pen.drawing then PenStep(pen, None)
    else PenFlush(pen.(drawing := false), now)
  }

  lemma MoveSendsExactlyWhenDue(pen: Pen, p: Point, now: int)
    ensures PenMove(pen, p, now).sent.Some? <==>
              pen.drawing && now - pen.lastSentAt > FlushIntervalMs && |pen.buffer| + 1 > MidStrokeMinPoints
    ensures PenMove(pen, p, now).sent.Some? ==> PenMove(pen, p, now).sent.value == pen.buffer + [p]
    ensures !pen.drawing ==> PenMove(pen, p, now).pen == pen
  {
  }

  /** While drawing, one move keeps drawing and only moves samples from the buffer to the batch. */
  lemma MoveStepPartitions(pen: Pen, p: Point, now: int)
    requires pen.drawing
    ensures PenMove(pen, p, now).pen.drawing
    ensures SentPoints(PenMove(pen, p, now)) + PenMove(pen, p, now).pen.buffer == pen.buffer + [p]
  {
    var step := PenMove(pen, p, now);
    if step.sent.Some? {
      assert step.pen.buffer == [];
    }
  }

  lemma EndWhenIdleChangesNothing(pen: Pen, now: int)
    requires !pen.drawing
    ensures PenEnd(pen, now) == PenStep(pen, None)
  {
  }

  /** A stroke whose buffer is down to one sample at pointer-up sends nothing; that sample stays buffered. */
  lemma EndKeepsSingleSample(pen: Pen, now: int)
    requires pen.drawing && |pen.buffer| == 1
    ensures PenEnd(pen, now).sent == None && PenEnd(pen, now).pen == pen.(drawing := false)
  {
  }

  /** The points sent by a step (nothing when no batch was sent). */
  function SentPoints(step: PenStep): seq<Point>
  {
    if step.sent.Some? then step.sent.value else []
  }

  /**
   * The pen after the pointer moves through `pts` at the times `times`,
   * with the points of every batch sent on the way, concatenated.
   */
  function MoveAll(pen: Pen, pts: seq<Point>, times: seq<int>): (Pen, seq<Point>)
    requires |pts| == |times|
    decreases |pts|
  {
    if pts == [] then (pen, [])
    else
      var step := PenMove(pen, pts[0], times[0]);
      var rest := MoveAll(step.pen, pts[1..], times[1..]);
      (rest.0, SentPoints(step) + rest.1)
  }

  lemma {:induction false} MoveAllKeepsDrawing(pen: Pen, pts: seq<Point>, times: seq<int>)
    requires |pts| == |times| && pen.drawing
    ensures MoveAll(pen, pts, times).0.drawing
    decreases |pts|
  {
    if pts != [] {
      MoveAllKeepsDrawing(PenMove(pen, pts[0], times[0]).pen, pts[1..], times[1..]);
    }
  }

  /**
   * No sample is lost, duplicated or reordered while drawing: what has been
   * sent followed by what is still buffered is exactly the buffer at the
   * start followed by every sample since.
   */
  lemma {:induction false} MoveAllPartitions(pen: Pen, pts: seq<Point>, times: seq<int>)
    requires |pts| == |times| && pen.drawing
    ensures MoveAll(pen, pts, times).1 + MoveAll(pen, pts, times).0.buffer == pen.buffer + pts
    decreases |pts|
  {
    if pts != [] {
      var step := PenMove(pen, pts[0], times[0]);
      var rest := MoveAll(step.pen, pts[1..], times[1..]);
      MoveStepPartitions(pen, pts[0], times[0]);
      MoveAllPartitions(step.pen, pts[1..], times[1..]);
      Regroup(SentPoints(step), rest.1, rest.0.buffer, step.pen.buffer, pts[1..], pen.buffer + [pts[0]]);
      assert pts == [pts[0]] + pts[1..];
    }
  }

  /** If `a + d == f` and `b + c == d + e`, then `a + b + c == f + e`. */
  lemma Regroup(a: seq<Point>, b: seq<Point>, c: seq<Point>, d: seq<Point>, e: seq<Point>, f: seq<Point>)
    requires a + d == f && b + c == d + e
    ensures (a + b) + c == f + e
  {
    calc {
      (a + b) + c;
      a + (b + c);
      a + (d + e);
      (a + d) + e;
    }
  }

  /**
   * A whole stroke (pointer-down at `first`, moves through `pts`,
   * pointer-up): the batches sent, in order, followed by what is left
   * buffered, are exactly the stroke's samples; and something is left only
   * when at most one sample arrived after the last mid-stroke batch.
   */
  lemma StrokeIsSentInOrder(pen: Pen, first: Point, pts: seq<Point>, times: seq<int>, endAt: int)
    requires |pts| == |times|
    ensures var moved := MoveAll(PenBegin(pen, first), pts, times);
            var ended := PenEnd(moved.0, endAt);
            moved.1 + SentPoints(ended) + ended.pen.buffer == [first] + pts
    ensures var moved := MoveAll(PenBegin(pen, first), pts, times);
            var ended := PenEnd(moved.0, endAt);
            !ended.pen.drawing && |ended.pen.buffer| <= 1
  {
    MoveAllKeepsDrawing(PenBegin(pen, first), pts, times);
    MoveAllPartitions(PenBegin(pen, first), pts, times);
  }

  // ---------------------------------------------------------------- the client state

  class CanvasState {
    var ops: seq<Op>
    var index: map<string, nat>
    var drawing: bool
    var currentPoints: seq<Point>
    var lastSentAt: int
    var tool: string
    var color: string
    var width: int

    /** The index maps each id to its last entry in the log. */
    ghost predicate Valid()
      reads this
    {
      index == LastIndex(ops)
    }

    function PenState(): Pen
      reads this
    {
      Pen(drawing, currentPoints, lastSentAt)
    }

    /** The initial closure state of `initCanvas`. */
    constructor ()
      ensures Valid() && ops == [] && index == map[]
      ensures PenState() == Pen(false, [], 0)
      ensures tool == "brush" && color == "#222222" && width == 4
    {
      ops := [];
      index := map[];
      drawing := false;
      currentPoints := [];
      lastSentAt := 0;
      tool := "brush";
      color := "#222222";
      width := 4;
    }

    /** `loadOps`: replace the mirror with the bootstrap log, sorted by `order`. */
    method LoadOps(initialOps: seq<Op>)
      modifies this
      ensures Valid()
      ensures ops == SortByOrder(initialOps)
      ensures PenState() == old(PenState())
      ensures tool == old(tool) && color == old(color) && width == old(width)
    {
      var sorted := SortByOrder(initialOps);
      ops, index := PushAll(sorted);
    }

    /** `applyOp`: append one authoritative operation and index it. */
    method ApplyOp(op: Op)
      requires Valid()
      modifies this
      ensures Valid()
      ensures ops == old(ops) + [op]
      ensures index == old(index)[op.id := |old(ops)|]
      ensures PenState() == old(PenState())
      ensures tool == old(tool) && color == old(color) && width == old(width)
    {
      LastIndexAppend(ops, op);
      index := index[op.id := |ops|];
      ops := ops + [op];
    }

    /** `tombstone(id)`. */
    method Tombstone(id: string)
      requires Valid()
      modifies this
      ensures Valid()
      ensures ops == Tombstoned(old(ops), old(index), id) && index == old(index)
      ensures PenState() == old(PenState())
      ensures tool == old(tool) && color == old(color) && width == old(width)
    {
      if id in index && ops[index[id]].alive {
        var i := index[id];
        ops := ops[i := ops[i].(alive := false)];
        LastIndexSameIds(old(ops), ops);
      }
    }

    /** `restore(id)`. */
    method Restore(id: string)
      requires Valid()
      modifies this
      ensures Valid()
      ensures ops == Restored(old(ops), old(index), id) && index == old(index)
      ensures PenState() == old(PenState())
      ensures tool == old(tool) && color == old(color) && width == old(width)
    {
      if id in index && !ops[index[id]].alive {
        var i := index[id];
        ops := ops[i := ops[i].(alive := true)];
        LastIndexSameIds(old(ops), ops);
      }
    }

    /** The strokes a full redraw paints, in painting order. */
    function Redrawn(): (r: seq<Op>)
      reads this
      ensures forall o :: multiset(r)[o] == if o.alive && |o.points| >= 2 then multiset(ops)[o] else 0
      ensures forall o :: o in r <==> o in ops && o.alive && |o.points| >= 2
      ensures forall i, j :: 0 <= i < j < |r| ==> r[i].order <= r[j].order
    {
      var v := Visible(ops);
      assert forall o :: o in v <==> o in ops && o.alive by {
        forall o ensures o in v <==> o in ops && o.alive {
          assert o in v <==> o in multiset(v);
        }
      }
      PaintedKeepsOrder(v);
      Painted(v)
    }

    /** `flushBatch(isEnd)`; `freshId` is the generated batch id, `now` the clock. */
    method FlushBatch(isEnd: bool, now: int, freshId: string) returns (sent: Option<Batch>)
      modifies this
      ensures PenState() == PenFlush(old(PenState()), now).pen
      ensures sent == BatchOf(PenFlush(old(PenState()), now), freshId, tool, color, width, isEnd)
      ensures ops == old(ops) && index == old(index)
      ensures tool == old(tool) && color == old(color) && width == old(width)
    {
      if |currentPoints| < 2 {
        return None;
      }
      sent := Some(Batch(freshId, tool, color, width, currentPoints, isEnd));
      lastSentAt := now;
      currentPoints := [];
    }

    /** `begin(e)` with the sample `p` taken from the event. */
    method Begin(p: Point)
      modifies this
      ensures PenState() == PenBegin(old(PenState()), p)
      ensures ops == old(ops) && index == old(index)
      ensures tool == old(tool) && color == old(color) && width == old(width)
    {
      drawing := true;
      currentPoints := [];
      currentPoints := currentPoints + [p];
    }

    /** `move(e)`: the local prediction it draws touches neither `ops` nor `index`. */
    method Move(p: Point, now: int, freshId: string) returns (sent: Option<Batch>)
      modifies this
      ensures PenState() == PenMove(old(PenState()), p, now).pen
      ensures sent == BatchOf(PenMove(old(PenState()), p, now), freshId, tool, color, width, false)
      ensures ops == old(ops) && index == old(index)
      ensures tool == old(tool) && color == old(color) && width == old(width)
    {
      sent := None;
      if drawing {
        currentPoints := currentPoints + [p];
        if now - lastSentAt > FlushIntervalMs && |currentPoints| > MidStrokeMinPoints {
          sent := FlushBatch(false, now, freshId);
        }
      }
    }

    /** `end()`. */
    method End(now: int, freshId: string) returns (sent: Option<Batch>)
      modifies this
      ensures PenState() == PenEnd(old(PenState()), now).pen
      ensures sent == BatchOf(PenEnd(old(PenState()), now), freshId, tool, color, width, true)
      ensures ops == old(ops) && index == old(index)
      ensures tool == old(tool) && color == old(color) && width == old(width)
    {
      if !drawing {
        return None;
      }
      drawing := false;
      sent := FlushBatch(true, now, freshId);
    }
  }

  /** The load loop: push each sorted operation onto an empty log and index its id at its new position. */
  method PushAll(sorted: seq<Op>) returns (loaded: seq<Op>, byId: map<string, nat>)
    ensures loaded == sorted && byId == LastIndex(sorted)
  {
    loaded, byId := [], map[];
    var i := 0;
    while i < |sorted|
      invariant 0 <= i <= |sorted|
      invariant loaded == sorted[..i]
      invariant byId == LastIndex(sorted[..i])
    {
      PushOne(sorted, i);
      loaded := loaded + [sorted[i]];
      byId := byId[sorted[i].id := i];
      i := i + 1;
    }
    assert sorted[..i] == sorted;
  }

  /** One step of the load loop: the prefix grows by one entry and its id is re-pointed. */
  lemma PushOne(sorted: seq<Op>, i: nat)
    requires i < |sorted|
    ensures sorted[..i + 1] == sorted[..i] + [sorted[i]]
    ensures LastIndex(sorted[..i + 1]) == LastIndex(sorted[..i])[sorted[i].id := i]
  {
    assert sorted[..i + 1][..i] == sorted[..i];
  }

  /** The batch message for a pen step that sent points, with the current tool settings. */
  function BatchOf(step: PenStep, id: string, tool: string, color: string, width: int, isEnd: bool): Option<Batch>
  {
    if step.sent.Some? then Some(Batch(id, tool, color, width, step.sent.value, isEnd)) else None
  }

  lemma {:induction false} PaintedKeepsOrder(v: seq<Op>)
    requires SortedByOrder(v)
    ensures SortedByOrder(Painted(v))
  {
    if v != [] {
      PaintedKeepsOrder(v[1..]);
    }
  }
}
