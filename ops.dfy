/**
 * The operation record shared by the server's room log and the client's
 * mirror of it: one freehand stroke, stamped by the server with its author,
 * its log order and a tombstone flag.
 */
module Ops {

  datatype Option<T> = None | Some(value: T)

  /** A pointer sample; coordinates and time are carried, never computed with. */
  datatype Point = Point(x: real, y: real, t: real)

  datatype Tool = Brush | Eraser

  /**
   * A stamped stroke. `order` is the room's sequence number (the only
   * ordering key), `ts` the informational wall-clock stamp, and `alive`
   * is false once the stroke has been undone (tombstoned).
   */
  datatype Op = Op(
    id: string,
    tool: Tool,
    color: string,
    width: int,
    points: seq<Point>,
    authorId: string,
    alive: bool,
    ts: int,
    order: int)

  /** The log with the `alive` flag of entry `i` replaced and nothing else touched. */
  function SetAlive(ops: seq<Op>, i: nat, alive: bool): (r: seq<Op>)
    requires i < |ops|
    ensures |r| == |ops| && r[i].alive == alive && r[i].id == ops[i].id
    ensures r[i] == ops[i].(alive := alive)
    ensures forall j :: 0 <= j < |ops| && j != i ==> r[j] == ops[j]
  {
    ops[i := ops[i].(alive := alive)]
  }

  /** No two entries of the log carry the same id. */
  predicate DistinctIds(ops: seq<Op>)
  {
    forall i, j :: 0 <= i < j < |ops| ==> ops[i].id != ops[j].id
  }

  /** The ids present in a log. */
  function Ids(ops: seq<Op>): set<string>
  {
    set i | 0 <= i < |ops| :: ops[i].id
  }

  /** The entries of a log that are not tombstoned, in log order. */
  function AliveOnly(ops: seq<Op>): (r: seq<Op>)
    ensures forall o :: multiset(r)[o] == if o.alive then multiset(ops)[o] else 0
    ensures forall o :: o in r <==> o in ops && o.alive
  {
    if ops == [] then []
    else
      assert ops == [ops[0]] + ops[1..];
      if ops[0].alive then [ops[0]] + AliveOnly(ops[1..]) else AliveOnly(ops[1..])
  }
}
