/**
 * How the client's mirror follows the server's log: a bootstrap is loaded
 * verbatim, each broadcast (append, tombstone, restore) has the same effect
 * on the mirror as the server step that caused it had on the log, and a
 * batch sent by the client with in-range settings and at most 2048 points
 * is stored with its points and id intact.
 */
module Convergence {
  import opened Ops
  import opened Drawing
  import opened Canvas

  lemma {:induction false} AliveOnlyKeepsSorted(ops: seq<Op>)
    requires SortedByOrder(ops)
    ensures SortedByOrder(AliveOnly(ops))
  {
    if ops != [] {
      AliveOnlyKeepsSorted(ops[1..]);
      var rest := AliveOnly(ops[1..]);
      forall k | 0 <= k < |rest| ensures ops[0].order <= rest[k].order {
        assert rest[k] in ops[1..];
      }
    }
  }

  /** In a server log, no two different operations share an order key. */
  lemma OrderedIsOrderKeyed(l: Log)
    requires Ordered(l)
    ensures SortedByOrder(l.ops) && OrderKeyed(l.ops)
  {
    forall x, y | x in l.ops && y in l.ops && x.order == y.order ensures x == y {
      var i :| 0 <= i < |l.ops| && l.ops[i] == x;
      var j :| 0 <= j < |l.ops| && l.ops[j] == y;
    }
  }

  /**
   * A late joiner that loads the bootstrap log holds the server's log
   * entry for entry, and paints exactly its alive entries in log order.
   */
  lemma LateJoinerLoadsServerLog(l: Log)
    requires Ordered(l)
    ensures SortByOrder(l.ops) == l.ops
    ensures Visible(l.ops) == AliveOnly(l.ops)
  {
    OrderedIsOrderKeyed(l);
    SortSortedIsIdentity(l.ops);
    AliveOnlyKeepsSorted(l.ops);
    SortSortedIsIdentity(AliveOnly(l.ops));
  }

  /**
   * Any two clients that received the same operations of a server log, in
   * any arrival order, paint the same strokes in the same order.
   */
  lemma ReplicasConverge(l: Log, a: seq<Op>, b: seq<Op>)
    requires Ordered(l) && multiset(a) == multiset(l.ops) && multiset(b) == multiset(l.ops)
    ensures Visible(a) == Visible(b)
  {
    OrderedIsOrderKeyed(l);
    forall x, y | x in a && y in a && x.order == y.order ensures x == y {
      assert x in multiset(l.ops) && y in multiset(l.ops);
    }
    SameOpsSameView(a, b);
  }

  lemma LastIndexDistinct(ops: seq<Op>, i: nat)
    requires DistinctIds(ops) && i < |ops|
    ensures ops[i].id in LastIndex(ops) && LastIndex(ops)[ops[i].id] == i
  {
  }

  /**
   * A mirror that equals the server log and indexes it still does so after
   * the server accepts a stroke and the client applies the broadcast one.
   */
  lemma ApplyMirrorsAccept(l: Log, stamped: Op, mirror: seq<Op>, index: map<string, nat>)
    requires mirror == l.ops && index == LastIndex(mirror)
    ensures mirror + [stamped] == Accept(l, stamped).ops
    ensures index[stamped.id := |mirror|] == LastIndex(Accept(l, stamped).ops)
  {
    LastIndexAppend(mirror, stamped);
  }

  /** Under distinct ids, the client's `tombstone` of an undone id has the server undo's effect. */
  lemma TombstoneMirrorsUndo(l: Log)
    requires DistinctIds(l.ops) && Undo(l).result.Some?
    ensures Tombstoned(l.ops, LastIndex(l.ops), Undo(l).result.value) == Undo(l).log.ops
  {
    LastIndexDistinct(l.ops, LatestAlive(l.ops).value);
  }

  /** Under distinct ids, the client's `restore` of a redone id has the server redo's effect. */
  lemma RestoreMirrorsRedo(l: Log)
    requires DistinctIds(l.ops) && Redo(l).result.Some?
    ensures Restored(l.ops, LastIndex(l.ops), Redo(l).result.value) == Redo(l).log.ops
  {
    var id := l.undoStack[|l.undoStack| - 1];
    var k := FirstWithId(l.ops, id).value;
    LastIndexDistinct(l.ops, k);
  }

  /**
   * With a duplicated id the mirror can diverge: the server's redo revives
   * the first entry with the id, the client's restore the last one.
   */
  lemma DuplicateIdsDivergeOnRestore(older: Op, newer: Op)
    requires older.id == newer.id && !older.alive && !newer.alive
    ensures var l := Log([older, newer], [older.id], [], 2);
            Redo(l).result == Some(older.id) &&
            Redo(l).log.ops[0].alive && !Restored(l.ops, LastIndex(l.ops), older.id)[0].alive
  {
    var l := Log([older, newer], [older.id], [], 2);
    assert FirstWithId(l.ops, older.id) == Some(0);
    assert LastIndex(l.ops)[older.id] == 1;
  }

  /** The stroke submission the server receives for a client batch. */
  function Submitted(b: Batch): RawStroke
  {
    RawStroke(Some(b.id), Some(b.tool), Some(b.color), Some(b.width), Some(b.points))
  }

  /**
   * A batch whose settings are in range is stored with its own id, points,
   * colour and width; only its tool name is coerced.
   */
  lemma BatchStoredAsSent(b: Batch, socketId: string, freshId: string, now: int, order: nat)
    requires b.id != "" && b.color != "" && |b.points| <= MaxPoints && MinWidth <= b.width <= MaxWidth
    ensures var op := Stamp(socketId, Submitted(b), freshId, now, order);
            op.id == b.id && op.points == b.points && op.color == b.color && op.width == b.width &&
            (op.tool == Eraser <==> b.tool == "eraser") && op.authorId == socketId
  {
  }
}
