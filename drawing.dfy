/**
 * The room-scoped operation log of the whiteboard server
 * (server/drawing-state.js): ingestion of strokes, the global
 * tombstone-based undo/redo, and the peer and cursor tables.
 *
 * The log operations are specified by pure functions over `Log`
 * (Accept, Undo, Redo); the class `DrawingState` holds the same state in
 * mutable fields and each of its methods ties the new state to one of
 * those functions.
 */
module Drawing {
  import opened Ops

  const MaxPoints: nat := 2048
  const MinWidth: int := 1
  const MaxWidth: int := 64
  const DefaultWidth: int := 2
  const DefaultColor: string := "#000000"
  const Palette: seq<string> := [
    "#ff6b6b", "#6c5ce7", "#00b894", "#0984e3",
    "#e17055", "#fdcb6e", "#74b9ff", "#a29bfe",
    "#55efc4", "#ffa8a8"
  ]

  /**
   * A stroke as a client submitted it. A field the client left out is
   * `None`; so is a `points` value that is not an array.
   */
  datatype RawStroke = RawStroke(
    id: Option<string>,
    tool: Option<string>,
    color: Option<string>,
    width: Option<int>,
    points: Option<seq<Point>>)

  /** The public record of one connected participant. */
  datatype User = User(userId: string, name: string, color: string)

  datatype Cursor = Cursor(x: real, y: real)

  /** The state that ingestion and undo/redo act on. */
  datatype Log = Log(ops: seq<Op>, undoStack: seq<string>, redoStack: seq<string>, counter: nat)

  /** The new log state and the id reported back (`None` stands for the source's `null`). */
  datatype Step = Step(log: Log, result: Option<string>)

  function Min(a: int, b: int): int { if a <= b then a else b }

  /** JavaScript truthiness of an optional string: present and non-empty. */
  predicate Truthy(s: Option<string>) { s.Some? && s.value != "" }

  // ---------------------------------------------------------------- sanitising

  function SanitizeTool(tool: Option<string>): (r: Tool)
    ensures r == Eraser <==> tool == Some("eraser")
  {
    if tool == Some("eraser") then Eraser else Brush
  }

  function SanitizeColor(color: Option<string>): (r: string)
    ensures r != ""
    ensures Truthy(color) ==> r == color.value
    ensures !Truthy(color) ==> r == DefaultColor
  {
    if Truthy(color) then color.value else DefaultColor
  }

  /** A missing or zero width becomes 2; the result is clamped to [1, 64]. */
  function SanitizeWidth(width: Option<int>): (r: int)
    ensures MinWidth <= r <= MaxWidth
    ensures width == None || width == Some(0) ==> r == DefaultWidth
    ensures width.Some? && MinWidth <= width.value <= MaxWidth ==> r == width.value
    ensures width.Some? && width.value > MaxWidth ==> r == MaxWidth
    ensures width.Some? && width.value < 0 ==> r == MinWidth
  {
    var w := if width == None || width == Some(0) then DefaultWidth else width.value;
    if w > MaxWidth then MaxWidth else if w < MinWidth then MinWidth else w
  }

  /** The first `MaxPoints` points of an array; nothing when the input is not an array. */
  function SanitizePoints(points: Option<seq<Point>>): (r: seq<Point>)
    ensures points.None? ==> r == []
    ensures points.Some? ==> |r| == Min(|points.value|, MaxPoints) && r == points.value[..|r|]
  {
    match points
    case None => []
    case Some(p) => if |p| <= MaxPoints then p else p[..MaxPoints]
  }

  /**
   * The canonical operation the server stores for a submitted stroke: the
   * client's fields are coerced, the author is the submitting connection,
   * the stroke is alive, and `order` is the room's next sequence number.
   * `freshId` stands for the generated id used when the client sent none.
   */
  function Stamp(socketId: string, raw: RawStroke, freshId: string, now: int, order: nat): (op: Op)
    ensures op.id == (if Truthy(raw.id) then raw.id.value else freshId)
    ensures op.tool == Eraser <==> raw.tool == Some("eraser")
    ensures op.color != "" && MinWidth <= op.width <= MaxWidth
    ensures |op.points| <= MaxPoints
    ensures raw.points.Some? && |raw.points.value| <= MaxPoints ==> op.points == raw.points.value
    ensures op.tool == SanitizeTool(raw.tool) && op.color == SanitizeColor(raw.color)
    ensures op.width == SanitizeWidth(raw.width) && op.points == SanitizePoints(raw.points)
    ensures op.authorId == socketId && op.alive && op.order == order && op.ts == now
  {
    Op(
      id := if Truthy(raw.id) then raw.id.value else freshId,
      tool := SanitizeTool(raw.tool),
      color := SanitizeColor(raw.color),
      width := SanitizeWidth(raw.width),
      points := SanitizePoints(raw.points),
      authorId := socketId,
      alive := true,
      ts := now,
      order := order)
  }

  function ToolName(tool: Tool): string
  {
    match tool
    case Brush => "brush"
    case Eraser => "eraser"
  }

  /** A stored operation sent back in as if it were a client submission. */
  function Resubmitted(op: Op): RawStroke
  {
    RawStroke(Some(op.id), Some(ToolName(op.tool)), Some(op.color), Some(op.width), Some(op.points))
  }

  /** Sanitising is idempotent: a stored stroke passes through ingestion unchanged. */
  lemma StampIdempotent(socketId: string, raw: RawStroke, freshId: string, now: int, order: nat,
                        socketId': string, freshId': string, now': int, order': nat)
    requires freshId != ""
    ensures var op := Stamp(socketId, raw, freshId, now, order);
            var again := Stamp(socketId', Resubmitted(op), freshId', now', order');
            again.id == op.id && again.tool == op.tool && again.color == op.color &&
            again.width == op.width && again.points == op.points
  {
  }

  /** Width 9999 is clamped to 64, width 0 becomes 2, and 5000 points are cut to 2048. */
  lemma SanitizeExamples(points: seq<Point>)
    requires |points| == 5000
    ensures SanitizeWidth(Some(9999)) == 64
    ensures SanitizeWidth(Some(0)) == 2
    ensures |SanitizePoints(Some(points))| == 2048
  {
  }

  // ---------------------------------------------------------------- peers

  /** The colour for the `index`-th peer: the palette, cycling. */
  function PickColor(index: nat): (c: string)
    ensures c in Palette
  {
    Palette[index % |Palette|]
  }

  lemma PickColorCycles(index: nat)
    ensures PickColor(index + |Palette|) == PickColor(index)
  {
    assert |Palette| == 10;
    assert (index + 10) % 10 == index % 10;
  }

  /** The first ten peers to join an empty room get ten different colours. */
  lemma PickColorDistinct(i: nat, j: nat)
    requires i < j < |Palette|
    ensures PickColor(i) != PickColor(j)
  {
  }

  /** The given username when non-empty, else `User-` followed by the first four characters of the socket id. */
  function DisplayName(socketId: string, username: Option<string>): (name: string)
    ensures name != ""
    ensures Truthy(username) ==> name == username.value
    ensures !Truthy(username) ==> name == "User-" + socketId[..Min(4, |socketId|)]
  {
    if Truthy(username) then username.value else "User-" + socketId[..Min(4, |socketId|)]
  }

  predicate NoDuplicates(s: seq<string>)
  {
    forall i, j :: 0 <= i < j < |s| ==> s[i] != s[j]
  }

  /** The sequence with every occurrence of `x` removed, the rest in order. */
  function Without(s: seq<string>, x: string): (r: seq<string>)
    ensures forall y :: y in r <==> y in s && y != x
    ensures NoDuplicates(s) ==> NoDuplicates(r)
  {
    if s == [] then []
    else if s[0] == x then Without(s[1..], x)
    else
      var rest := Without(s[1..], x);
      assert NoDuplicates(s) ==> s[0] !in s[1..] && NoDuplicates(s[1..]);
      [s[0]] + rest
  }

  /** Deleting a key keeps the remaining keys in their order: removal distributes over concatenation. */
  lemma {:induction false} WithoutConcat(a: seq<string>, b: seq<string>, x: string)
    ensures Without(a + b, x) == Without(a, x) + Without(b, x)
  {
    if a != [] {
      assert (a + b)[1..] == a[1..] + b;
      WithoutConcat(a[1..], b, x);
    } else {
      assert a + b == b;
    }
  }

  /** On a single key, deletion drops it exactly when it is the deleted key. */
  lemma WithoutSingle(y: string, x: string)
    ensures Without([y], x) == if y == x then [] else [y]
  {
  }

  lemma {:induction false} WithoutAppended(s: seq<string>, x: string)
    requires x !in s
    ensures Without(s + [x], x) == s
  {
    if s != [] {
      assert (s + [x])[1..] == s[1..] + [x];
      WithoutAppended(s[1..], x);
    }
  }

  lemma {:induction false} DistinctCard(s: seq<string>)
    requires NoDuplicates(s)
    ensures |set x | x in s| == |s|
  {
    if s != [] {
      DistinctCard(s[1..]);
      assert (set x | x in s) == (set x | x in s[1..]) + {s[0]};
      assert s[0] !in s[1..];
    }
  }

  /** The values of `m` listed in the order of `keys`. */
  function ValuesInOrder(keys: seq<string>, m: map<string, User>): (r: seq<User>)
    requires forall k :: k in keys ==> k in m
    ensures |r| == |keys|
    ensures forall i :: 0 <= i < |keys| ==> r[i] == m[keys[i]]
  {
    if keys == [] then [] else [m[keys[0]]] + ValuesInOrder(keys[1..], m)
  }

  // ---------------------------------------------------------------- the log

  /** Every entry's `order` is its log position, and the counter is the next position. */
  ghost predicate Ordered(l: Log)
  {
    l.counter == |l.ops| && forall i :: 0 <= i < |l.ops| ==> l.ops[i].order == i
  }

  /** Ingestion: append the stamped operation, clear the redo stack, bump the counter. */
  function Accept(l: Log, stamped: Op): Log
  {
    Log(l.ops + [stamped], l.undoStack, [], l.counter + 1)
  }

  /** The position of the newest entry that is still alive. */
  function LatestAlive(ops: seq<Op>): (r: Option<nat>)
    ensures r.Some? ==> r.value < |ops| && ops[r.value].alive &&
                        forall j :: r.value < j < |ops| ==> !ops[j].alive
    ensures r.None? ==> forall j :: 0 <= j < |ops| ==> !ops[j].alive
  {
    if ops == [] then None
    else if ops[|ops| - 1].alive then Some(|ops| - 1)
    else LatestAlive(ops[..|ops| - 1])
  }

  /** The position of the first entry with the given id (`Array.prototype.find`). */
  function FirstWithId(ops: seq<Op>, id: string): (r: Option<nat>)
    ensures r.Some? ==> r.value < |ops| && ops[r.value].id == id &&
                        forall j :: 0 <= j < r.value ==> ops[j].id != id
    ensures r.None? ==> forall j :: 0 <= j < |ops| ==> ops[j].id != id
  {
    if ops == [] then None
    else if ops[0].id == id then Some(0)
    else match FirstWithId(ops[1..], id)
      case None => None
      case Some(k) => Some(k + 1)
  }

  /** Global undo: tombstone the newest alive entry, whoever wrote it, and push its id. */
  function Undo(l: Log): Step
  {
    match LatestAlive(l.ops)
    case None => Step(l, None)
    case Some(i) =>
      Step(l.(ops := SetAlive(l.ops, i, false), undoStack := l.undoStack + [l.ops[i].id]),
           Some(l.ops[i].id))
  }

  /**
   * Global redo: pop the undo stack and revive the first entry with that
   * id if it is tombstoned. The pop happens even when nothing is revived.
   */
  function Redo(l: Log): Step
  {
    if l.undoStack == [] then Step(l, None)
    else
      var id := l.undoStack[|l.undoStack| - 1];
      var popped := l.(undoStack := l.undoStack[..|l.undoStack| - 1]);
      match FirstWithId(l.ops, id)
      case Some(k) =>
        if !l.ops[k].alive
        then Step(popped.(ops := SetAlive(l.ops, k, true), redoStack := l.redoStack + [id]), Some(id))
        else Step(popped, None)
      case None => Step(popped, None)
  }

  // ---------------------------------------------------------------- log properties

  /**
   * A redo whose popped id names no entry, or an entry that is already
   * alive, still consumes that undo-stack entry and reports nothing.
   */
  lemma RedoStaleStillPops(l: Log)
    requires l.undoStack != []
    requires var id := l.undoStack[|l.undoStack| - 1];
             FirstWithId(l.ops, id).None? || l.ops[FirstWithId(l.ops, id).value].alive
    ensures Redo(l) == Step(l.(undoStack := l.undoStack[..|l.undoStack| - 1]), None)
  {
  }

  lemma AcceptKeepsOrdered(l: Log, stamped: Op)
    requires Ordered(l) && stamped.order == l.counter
    ensures Ordered(Accept(l, stamped))
    ensures forall i, j :: 0 <= i < j < |Accept(l, stamped).ops| ==>
              Accept(l, stamped).ops[i].order < Accept(l, stamped).ops[j].order
  {
  }

  lemma UndoWhenSomethingAlive(l: Log, i: nat)
    requires i < |l.ops| && l.ops[i].alive
    requires forall j :: i < j < |l.ops| ==> !l.ops[j].alive
    ensures Undo(l).result == Some(l.ops[i].id)
    ensures Undo(l).log.ops == SetAlive(l.ops, i, false)
    ensures Undo(l).log.undoStack == l.undoStack + [l.ops[i].id]
    ensures Undo(l).log.redoStack == l.redoStack && Undo(l).log.counter == l.counter
  {
  }

  lemma UndoWhenNothingAlive(l: Log)
    requires forall j :: 0 <= j < |l.ops| ==> !l.ops[j].alive
    ensures Undo(l) == Step(l, None)
  {
  }

  /** Changing alive flags does not move where an id is first found. */
  lemma {:induction false} FirstWithIdSameIds(a: seq<Op>, b: seq<Op>, id: string)
    requires |a| == |b| && forall k :: 0 <= k < |a| ==> a[k].id == b[k].id
    ensures FirstWithId(a, id) == FirstWithId(b, id)
  {
    if a != [] && a[0].id != id {
      FirstWithIdSameIds(a[1..], b[1..], id);
    }
  }

  lemma {:induction false} FirstWithIdAppend(ops: seq<Op>, o: Op, id: string)
    requires FirstWithId(ops, id).Some?
    ensures FirstWithId(ops + [o], id) == FirstWithId(ops, id)
  {
    if ops[0].id != id {
      assert (ops + [o])[1..] == ops[1..] + [o];
      FirstWithIdAppend(ops[1..], o, id);
    }
  }

  lemma FirstWithIdDistinct(ops: seq<Op>, i: nat)
    requires DistinctIds(ops) && i < |ops|
    ensures FirstWithId(ops, ops[i].id) == Some(i)
  {
  }

  /** The undo stack holds distinct ids, each naming an entry that is tombstoned. */
  ghost predicate UndoStackTombstoned(l: Log)
  {
    && NoDuplicates(l.undoStack)
    && forall k :: 0 <= k < |l.undoStack| ==>
         var f := FirstWithId(l.ops, l.undoStack[k]); f.Some? && !l.ops[f.value].alive
  }

  ghost predicate HistoryInvariant(l: Log)
  {
    DistinctIds(l.ops) && UndoStackTombstoned(l)
  }

  lemma AcceptKeepsHistoryInvariant(l: Log, stamped: Op)
    requires HistoryInvariant(l) && stamped.id !in Ids(l.ops)
    ensures HistoryInvariant(Accept(l, stamped))
  {
    var l' := Accept(l, stamped);
    forall k | 0 <= k < |l.undoStack|
      ensures var f := FirstWithId(l'.ops, l'.undoStack[k]); f.Some? && !l'.ops[f.value].alive
    {
      FirstWithIdAppend(l.ops, stamped, l.undoStack[k]);
    }
    forall i, j | 0 <= i < j < |l'.ops| ensures l'.ops[i].id != l'.ops[j].id {
      if j == |l.ops| {
        assert l.ops[i].id in Ids(l.ops);
      }
    }
  }

  lemma UndoKeepsHistoryInvariant(l: Log)
    requires HistoryInvariant(l)
    ensures HistoryInvariant(Undo(l).log)
  {
    match LatestAlive(l.ops)
    case None =>
    case Some(i) =>
      var l' := Undo(l).log;
      var id := l.ops[i].id;
      FirstWithIdSameIds(l.ops, l'.ops, id);
      FirstWithIdDistinct(l.ops, i);
      forall k | 0 <= k < |l.undoStack|
        ensures l.undoStack[k] != id
        ensures var f := FirstWithId(l'.ops, l'.undoStack[k]); f.Some? && !l'.ops[f.value].alive
      {
        FirstWithIdSameIds(l.ops, l'.ops, l.undoStack[k]);
      }
  }

  lemma RedoKeepsHistoryInvariant(l: Log)
    requires HistoryInvariant(l)
    ensures HistoryInvariant(Redo(l).log)
  {
    if l.undoStack != [] {
      var n := |l.undoStack| - 1;
      var id := l.undoStack[n];
      var k := FirstWithId(l.ops, id).value;
      var l' := Redo(l).log;
      forall m | 0 <= m < n
        ensures var f := FirstWithId(l'.ops, l'.undoStack[m]); f.Some? && !l'.ops[f.value].alive
      {
        FirstWithIdSameIds(l.ops, l'.ops, l.undoStack[m]);
        assert l.undoStack[m] != id;
      }
    }
  }

  /** Under distinct ids, a redo right after an undo restores every alive flag and the undo stack. */
  lemma UndoThenRedoRestores(l: Log)
    requires DistinctIds(l.ops) && Undo(l).result.Some?
    ensures Redo(Undo(l).log).result == Undo(l).result
    ensures Redo(Undo(l).log).log.ops == l.ops
    ensures Redo(Undo(l).log).log.undoStack == l.undoStack
    ensures Redo(Undo(l).log).log.redoStack == l.redoStack + [Undo(l).result.value]
    ensures Redo(Undo(l).log).log.counter == l.counter
  {
    var i := LatestAlive(l.ops).value;
    var u := Undo(l).log;
    assert u.undoStack[|u.undoStack| - 1] == l.ops[i].id;
    assert u.undoStack[..|u.undoStack| - 1] == l.undoStack;
    FirstWithIdSameIds(l.ops, u.ops, l.ops[i].id);
    FirstWithIdDistinct(l.ops, i);
    assert SetAlive(u.ops, i, true) == l.ops;
  }

  /**
   * A new stroke clears only the redo stack, so a redo issued after it
   * still revives the stroke undone before it.
   */
  lemma RedoAfterNewStrokeRevives(l: Log, stamped: Op)
    requires DistinctIds(l.ops) && Undo(l).result.Some? && stamped.id !in Ids(l.ops)
    ensures Redo(Accept(Undo(l).log, stamped)).result == Undo(l).result
    ensures Redo(Accept(Undo(l).log, stamped)).log.ops == l.ops + [stamped]
  {
    var i := LatestAlive(l.ops).value;
    var a := Accept(Undo(l).log, stamped);
    assert a.undoStack[|a.undoStack| - 1] == l.ops[i].id;
    FirstWithIdDistinct(l.ops, i);
    FirstWithIdSameIds(l.ops, Undo(l).log.ops, l.ops[i].id);
    FirstWithIdAppend(Undo(l).log.ops, stamped, l.ops[i].id);
    assert SetAlive(a.ops, i, true) == l.ops + [stamped];
  }

  /**
   * With a duplicated id, undo tombstones the newer entry but the following
   * redo revives the older one, because redo looks the id up from the front.
   */
  lemma DuplicateIdRedoRevivesOlder(older: Op, newer: Op)
    requires older.id == newer.id && !older.alive && newer.alive
    ensures var l := Log([older, newer], [older.id], [], 2);
            var after := Redo(Undo(l).log).log;
            after.ops[0].alive && !after.ops[1].alive
  {
    var l := Log([older, newer], [older.id], [], 2);
    assert LatestAlive(l.ops) == Some(1);
  }

  // ---------------------------------------------------------------- the room

  /** A peer table whose JavaScript `Map` insertion order is `order`. */
  ghost predicate PeerTable(order: seq<string>, peers: map<string, User>)
  {
    NoDuplicates(order) && forall k :: k in peers <==> k in order
  }

  class DrawingState {
    const roomId: string
    var ops: seq<Op>
    var undoStack: seq<string>
    var redoStack: seq<string>
    var peers: map<string, User>
    /** The insertion order of `peers`' keys, which `usersPublic` follows. */
    var peerOrder: seq<string>
    var cursors: map<string, Cursor>
    var counter: nat

    function History(): Log
      reads this
    {
      Log(ops, undoStack, redoStack, counter)
    }

    ghost predicate Valid()
      reads this
    {
      Ordered(History()) && PeerTable(peerOrder, peers)
    }

    constructor (roomId: string)
      ensures Valid() && this.roomId == roomId
      ensures History() == Log([], [], [], 0)
      ensures peers == map[] && peerOrder == [] && cursors == map[]
    {
      this.roomId := roomId;
      ops := [];
      undoStack := [];
      redoStack := [];
      peers := map[];
      peerOrder := [];
      cursors := map[];
      counter := 0;
    }

    method Join(socketId: string, username: Option<string>)
      requires Valid()
      modifies this
      ensures Valid()
      ensures peers == old(peers)[socketId :=
                User(socketId, DisplayName(socketId, username), PickColor(|old(peers)|))]
      ensures peerOrder == if socketId in old(peers) then old(peerOrder) else old(peerOrder) + [socketId]
      ensures History() == old(History()) && cursors == old(cursors)
    {
      var color := PickColor(|peers|);
      var user := User(socketId, DisplayName(socketId, username), color);
      if socketId !in peers {
        peerOrder := peerOrder + [socketId];
      }
      peers := peers[socketId := user];
    }

    method Leave(socketId: string)
      requires Valid()
      modifies this
      ensures Valid()
      ensures peers == old(peers) - {socketId} && cursors == old(cursors) - {socketId}
      ensures peerOrder == Without(old(peerOrder), socketId)
      ensures History() == old(History())
    {
      peers := peers - {socketId};
      peerOrder := Without(peerOrder, socketId);
      cursors := cursors - {socketId};
    }

    /** Every peer's public record, once each, in join order. */
    function UsersPublic(): (users: seq<User>)
      reads this
      requires Valid()
      ensures |users| == |peers| == |peerOrder|
      ensures forall u :: u in users <==> u in peers.Values
      ensures forall i :: 0 <= i < |users| ==> users[i] == peers[peerOrder[i]]
    {
      DistinctCard(peerOrder);
      assert peers.Keys == set x | x in peerOrder;
      ValuesInOrder(peerOrder, peers)
    }

    method UpdateCursor(socketId: string, pos: Cursor)
      requires Valid()
      modifies this
      ensures Valid()
      ensures cursors == old(cursors)[socketId := pos]
      ensures History() == old(History()) && peers == old(peers) && peerOrder == old(peerOrder)
    {
      cursors := cursors[socketId := pos];
    }

    method AcceptStroke(socketId: string, raw: RawStroke, freshId: string, now: int) returns (stamped: Op)
      requires Valid()
      modifies this
      ensures Valid()
      ensures stamped == Stamp(socketId, raw, freshId, now, old(counter))
      ensures History() == Accept(old(History()), stamped)
      ensures peers == old(peers) && peerOrder == old(peerOrder) && cursors == old(cursors)
    {
      stamped := Stamp(socketId, raw, freshId, now, counter);
      counter := counter + 1;
      ops := ops + [stamped];
      redoStack := [];
    }

    method GlobalUndo() returns (r: Option<string>)
      requires Valid()
      modifies this
      ensures Valid()
      ensures Step(History(), r) == Undo(old(History()))
      ensures peers == old(peers) && peerOrder == old(peerOrder) && cursors == old(cursors)
    {
      var i := |ops|;
      while i > 0
        invariant 0 <= i <= |ops|
        invariant forall j :: i <= j < |ops| ==> !ops[j].alive
      {
        i := i - 1;
        if ops[i].alive {
          var id := ops[i].id;
          ops := ops[i := ops[i].(alive := false)];
          undoStack := undoStack + [id];
          return Some(id);
        }
      }
      return None;
    }

    method GlobalRedo() returns (r: Option<string>)
      requires Valid()
      modifies this
      ensures Valid()
      ensures Step(History(), r) == Redo(old(History()))
      ensures peers == old(peers) && peerOrder == old(peerOrder) && cursors == old(cursors)
    {
      if |undoStack| == 0 {
        return None;
      }
      var id := undoStack[|undoStack| - 1];
      undoStack := undoStack[..|undoStack| - 1];
      var found := FirstWithId(ops, id);
      if found.Some? && !ops[found.value].alive {
        ops := ops[found.value := ops[found.value].(alive := true)];
        redoStack := redoStack + [id];
        return Some(id);
      }
      return None;
    }
  }
}
