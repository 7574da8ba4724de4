# Collaborative whiteboard: the room operation log, in Dafny

This project models the core of a real-time collaborative whiteboard. Participants in a *room* draw freehand strokes. The server stamps each stroke into an append-only *operation log* and broadcasts it. Undo and redo are room-wide and work by tombstoning (flipping an `alive` flag), never by deleting. Each client keeps a mirror of the log and redraws the alive strokes in `order`.

Modules, one per source file:

- `Ops` (ops.dfy): the operation record (`Op`, `Point`, `Tool`), shared by server and client.
- `Drawing` (drawing.dfy): `server/drawing-state.js`.
  - Ingestion: sanitising and stamping (`Stamp`).
  - Global undo/redo as pure functions over `Log` (`Accept`, `Undo`, `Redo`).
  - The class `DrawingState`, whose fields `ops`, `undoStack`, `redoStack`, `peers`, `cursors` and `counter` its methods update in place. Each method's postcondition ties the new state to the pure functions.
- `RoomRegistry` (rooms.dfy): `server/rooms.js`, the lazily filled room map (class `Rooms`).
- `Canvas` (canvas.dfy): the non-rendering half of `client/canvas.js`.
  - The log mirror (`ops` plus an id index), with `loadOps`, `applyOp`, `tombstone` and `restore`.
  - The set a redraw paints.
  - The stroke-batching state machine (`begin`, `move`, `end`, `flushBatch`), specified by pure functions over `Pen`.
- `Convergence` (convergence.dfy): cross-file statements.
  - A late joiner loads the server log verbatim.
  - Replicas holding the same operations paint the same strokes.
  - Each broadcast has the same effect on the client mirror as the server step had on the log (given distinct ids).
  - A batch the client sends is stored with its id, points, colour and width intact, when it has a non-empty id and colour, at most 2048 points and a width in [1, 64]. A longer batch is cut to 2048 points.

Behaviour of the code that may surprise a reader, modelled as written:

- A missing or zero width becomes 2, not 1 (`width || 2`, server/drawing-state.js:47). See `Drawing.SanitizeExamples`.
- A new stroke clears only `redoStack`, which nothing reads. `undoStack` is kept, so a redo after a new stroke still revives the stroke undone before it. See `Drawing.RedoAfterNewStrokeRevives`.
- Client-supplied ids are kept even when they duplicate an existing id. Only an absent or empty id is replaced. With duplicates, redo can revive a different entry than undo removed (`Drawing.DuplicateIdRedoRevivesOlder`). The client mirror can then diverge from the server (`Convergence.DuplicateIdsDivergeOnRestore`).
- A redo whose popped id is stale (no entry has it, or its entry is already alive) still consumes that undo-stack entry and returns null (server/drawing-state.js:74, 81). See `Drawing.RedoStaleStillPops`.
- `order` starts at 0 and equals the log position (`Drawing.Ordered`).
- A stroke batch that holds a single sample at pointer-up is not sent. It stays buffered until the next pointer-down discards it (`Canvas.EndKeepsSingleSample`).

Clocks (`Date.now`, `performance.now`) and the id generators (`nanoid` on server and client) are parameters: `now` and `freshId`.

## Model

| member | source | states |
|---|---|---|
| `Ops.AliveOnly` | client/canvas.js:119 | the filter keeps each alive operation with its multiplicity and drops every tombstoned one |
| `Drawing.SanitizeTool` | server/drawing-state.js:45 | the stored tool is the eraser exactly when the submitted tool is `'eraser'`, otherwise the brush |
| `Drawing.SanitizeColor` | server/drawing-state.js:46 | a missing or empty colour becomes `#000000`; any other is kept; the result is never empty |
| `Drawing.SanitizeWidth` | server/drawing-state.js:47 | the width lies in [1, 64]; missing or 0 gives 2; in-range widths are kept, larger ones give 64, negative ones 1 |
| `Drawing.SanitizePoints` | server/drawing-state.js:48 | a non-array gives no points; an array gives its first min(length, 2048) points in order |
| `Drawing.Stamp` | server/drawing-state.js:41-53 | the stored op keeps a non-empty client id (else the generated one), has sanitised fields, author = submitting socket, alive, `order` = the given counter, `ts` = now |
| `Drawing.StampIdempotent` | server/drawing-state.js:41-53 | re-ingesting a stored stroke leaves its id, tool, colour, width and points unchanged |
| `Drawing.SanitizeExamples` | server/drawing-state.js:47-48 | width 9999 is stored as 64, width 0 as 2, and 5000 points are cut to 2048 |
| `Drawing.PickColor` | server/drawing-state.js:84-91 | the colour is always one of the ten palette entries |
| `Drawing.PickColorCycles` | server/drawing-state.js:90 | the palette cycles: peer count i and i + 10 get the same colour |
| `Drawing.PickColorDistinct` | server/drawing-state.js:85-90 | peer counts 0 to 9 get ten different colours |
| `Drawing.DisplayName` | server/drawing-state.js:21 | the name is the given username when non-empty, else `User-` and the first (up to) four characters of the socket id |
| `Drawing.Without` | server/drawing-state.js:27 | deleting a key from the insertion order removes exactly that key and keeps the order duplicate-free |
| `Drawing.WithoutConcat` | server/drawing-state.js:27 | deleting a key from a concatenation deletes it from each part: the remaining keys keep their insertion order |
| `Drawing.WithoutSingle` | server/drawing-state.js:27 | a single key is dropped exactly when it is the deleted key |
| `Drawing.WithoutAppended` | server/drawing-state.js:22-27 | deleting a key that was just appended gives back the previous insertion order (join then leave) |
| `Drawing.DistinctCard` | server/drawing-state.js:20 | a duplicate-free key order has as many keys as entries, so the peer count is the Map size |
| `Drawing.AcceptKeepsOrdered` | server/drawing-state.js:52-54 | after ingestion every entry's `order` still equals its log position, the counter is the next position, and orders strictly increase |
| `Drawing.LatestAlive` | server/drawing-state.js:62-63 | the backward scan finds an alive entry with every later entry dead, or reports that none is alive |
| `Drawing.FirstWithId` | server/drawing-state.js:75 | `find` returns the first position with the id, or none when no entry has it |
| `Drawing.UndoWhenSomethingAlive` | server/drawing-state.js:62-66 | undo tombstones exactly the newest alive entry, whoever wrote it, pushes its id, returns it, and touches nothing else |
| `Drawing.UndoWhenNothingAlive` | server/drawing-state.js:69 | with nothing alive, undo returns null and changes no state |
| `Drawing.FirstWithIdSameIds` | server/drawing-state.js:75 | flipping alive flags does not change where `find` locates an id |
| `Drawing.FirstWithIdAppend` | server/drawing-state.js:54 | appending an entry does not change where an id already present is found |
| `Drawing.AcceptKeepsHistoryInvariant` | server/drawing-state.js:54-56 | with a new, unused id, ingestion keeps ids distinct and every undo-stack id naming a tombstoned entry |
| `Drawing.UndoKeepsHistoryInvariant` | server/drawing-state.js:64-65 | undo keeps the undo stack duplicate-free with every id naming a tombstoned entry |
| `Drawing.RedoKeepsHistoryInvariant` | server/drawing-state.js:73-78 | redo keeps the undo stack duplicate-free with every id naming a tombstoned entry |
| `Drawing.UndoThenRedoRestores` | server/drawing-state.js:62-81 | with distinct ids, undo then redo returns the same id, restores every alive flag and the undo stack, and pushes that id on the redo stack |
| `Drawing.RedoAfterNewStrokeRevives` | server/drawing-state.js:54-79 | a redo after undo and a new stroke still revives the undone stroke, because the new stroke clears only the redo stack |
| `Drawing.RedoStaleStillPops` | server/drawing-state.js:72-81 | when the popped id names no entry or an alive one, redo removes it from the undo stack, returns null and changes nothing else |
| `Drawing.DuplicateIdRedoRevivesOlder` | server/drawing-state.js:75 | with two entries sharing an id, undo tombstones the newer but the next redo revives the older |
| `Drawing.DrawingState.constructor` | server/drawing-state.js:9-17 | a new room has its id, an empty log, empty stacks, no peers or cursors, and counter 0 |
| `Drawing.DrawingState.Join` | server/drawing-state.js:19-24 | the socket's peer entry is set, with palette colour by current peer count and the display name; a new key goes last in the order, a known one keeps its place; log and cursors unchanged |
| `Drawing.DrawingState.Leave` | server/drawing-state.js:26-29 | only the socket's peer and cursor entries are removed; the log is untouched |
| `Drawing.DrawingState.UsersPublic` | server/drawing-state.js:31-33 | one record per peer, exactly the peers' values, listed in join order (the Map's insertion order) |
| `Drawing.DrawingState.UpdateCursor` | server/drawing-state.js:35-37 | only that socket's cursor is overwritten |
| `Drawing.DrawingState.AcceptStroke` | server/drawing-state.js:39-58 | returns the stamped stroke with `order` = old counter; appends it, empties the redo stack, increments the counter; undo stack, earlier entries, peers and cursors unchanged |
| `Drawing.DrawingState.GlobalUndo` | server/drawing-state.js:60-70 | the backward loop has exactly the effect and result of `Undo` on the old state; peers and cursors unchanged |
| `Drawing.DrawingState.GlobalRedo` | server/drawing-state.js:72-82 | has exactly the effect and result of `Redo`: null on an empty stack; otherwise the pop always happens, and the first entry with the id is revived and recorded only if dead |
| `RoomRegistry.Rooms.constructor` | server/rooms.js:3-4 | the registry starts empty |
| `RoomRegistry.Rooms.Get` | server/rooms.js:6-14 | always returns a room registered under the id; a known id gives the same object and changes nothing; an unknown id gets a fresh empty room with that id; other entries never change; every registered room, the returned one included, stays consistent |
| `RoomRegistry.RoomsAreDistinct` | server/rooms.js:7-8 | different room ids never share a room object |
| `Canvas.Insert` | client/canvas.js:58 | insertion adds exactly the one element, which goes in front or behind the old head |
| `Canvas.InsertKeepsSorted` | client/canvas.js:58 | insertion keeps a sequence sorted by `order` sorted |
| `Canvas.SortByOrder` | client/canvas.js:58 | the sorted log is ordered by `order` and is a permutation of the input |
| `Canvas.SortSortedIsIdentity` | client/canvas.js:58 | sorting a log already in order returns it unchanged |
| `Canvas.SortedUnique` | client/canvas.js:119 | two sorted permutations of the same ops, with no order key shared by different ops, are equal |
| `Canvas.SortedHeads` | client/canvas.js:119 | two sorted arrangements of the same ops, with distinct order keys, start with the same op |
| `Canvas.Visible` | client/canvas.js:119 | the redraw list is sorted by `order` and holds exactly the alive ops with their multiplicities |
| `Canvas.Painted` | client/canvas.js:101-102 | `drawOp` strokes exactly the visible ops with at least two points, each as often as it occurs and no other |
| `Canvas.SameOpsSameView` | client/canvas.js:119 | the same operations in any arrival order give the same redraw list, when no two different ops share an `order` |
| `Canvas.LastIndex` | client/canvas.js:59 | every logged id is indexed, and only to an entry that carries that id |
| `Canvas.LastIndexIsLast` | client/canvas.js:59 | the indexed entry is the last one with its id: `index.set` in log order leaves the later op |
| `Canvas.LastIndexAppend` | client/canvas.js:64-65 | appending an op re-points its id to the new last position |
| `Canvas.LastIndexSameIds` | client/canvas.js:70-83 | flipping alive flags never invalidates the index |
| `Canvas.TombstoneIdempotent` | client/canvas.js:70-75 | tombstoning twice equals tombstoning once |
| `Canvas.RestoreIdempotent` | client/canvas.js:78-83 | restoring twice equals restoring once |
| `Canvas.TombstoneRestoreInverse` | client/canvas.js:70-83 | restore undoes a tombstone of an alive op, and tombstone undoes a restore of a dead one |
| `Canvas.PenFlush` | client/canvas.js:177-191 | sends a batch exactly when at least two points are buffered; it holds the buffer in order, records the send time and empties the buffer; otherwise nothing changes |
| `Canvas.MoveSendsExactlyWhenDue` | client/canvas.js:146-169 | a move sends a batch iff drawing, more than 40 ms since the last send and more than 3 buffered points; the batch is the old buffer plus the sample; a move while not drawing changes nothing |
| `Canvas.MoveStepPartitions` | client/canvas.js:148-166 | while drawing, one move keeps drawing, and the batch sent followed by the new buffer is the old buffer plus the sample |
| `Canvas.EndWhenIdleChangesNothing` | client/canvas.js:171-172 | pointer-up while not drawing changes nothing and sends nothing |
| `Canvas.EndKeepsSingleSample` | client/canvas.js:171-178 | pointer-up with a single buffered sample stops drawing but sends nothing and keeps the sample |
| `Canvas.MoveAllKeepsDrawing` | client/canvas.js:148-166 | moves never end a stroke |
| `Canvas.MoveAllPartitions` | client/canvas.js:146-191 | while drawing, the points sent followed by the buffer are exactly the starting buffer followed by every sample: none lost, duplicated or reordered |
| `Canvas.StrokeIsSentInOrder` | client/canvas.js:137-191 | over a whole stroke, the batches sent plus what is left buffered are exactly its samples in order; afterwards drawing is off and at most one sample is left |
| `Canvas.PaintedKeepsOrder` | client/canvas.js:120 | painting keeps the order-sorted sequence |
| `Canvas.PushAll` | client/canvas.js:59 | the `forEach` loop yields the sorted log itself and the last-position index of it |
| `Canvas.CanvasState.constructor` | client/canvas.js:9-21 | empty log and index, not drawing, empty buffer, `lastSentAt` 0, brush `#222222` width 4 |
| `Canvas.CanvasState.LoadOps` | client/canvas.js:55-61 | the previous contents are discarded; the log becomes the input sorted by `order` and the index is rebuilt from it |
| `Canvas.CanvasState.ApplyOp` | client/canvas.js:63-68 | appends the op at the end and indexes its id to that position; earlier entries, pen state and tool settings unchanged |
| `Canvas.CanvasState.Tombstone` | client/canvas.js:70-76 | flips `alive` to false only for an indexed, alive op; index, pen state and tool settings unchanged |
| `Canvas.CanvasState.Restore` | client/canvas.js:78-84 | flips `alive` to true only for an indexed, dead op; index, pen state and tool settings unchanged |
| `Canvas.CanvasState.Redrawn` | client/canvas.js:117-121 | a full redraw paints exactly the logged ops that are alive and have at least two points, each once per occurrence in the log, in non-decreasing `order` |
| `Canvas.CanvasState.FlushBatch` | client/canvas.js:177-191 | pen state and emitted batch are those of `PenFlush`, with the current tool, colour and width; the log is untouched |
| `Canvas.CanvasState.Begin` | client/canvas.js:137-144 | drawing is on and the buffer is exactly the new sample |
| `Canvas.CanvasState.Move` | client/canvas.js:146-169 | pen state and batch are those of `PenMove`; the local prediction leaves `ops` and `index` untouched |
| `Canvas.CanvasState.End` | client/canvas.js:171-175 | no-op when not drawing; otherwise drawing is off and the buffer is flushed as an end batch |
| `Convergence.AliveOnlyKeepsSorted` | client/canvas.js:119 | filtering a sorted log keeps it sorted |
| `Convergence.OrderedIsOrderKeyed` | server/drawing-state.js:52 | a server log is sorted by `order` and no two different ops share an order |
| `Convergence.LateJoinerLoadsServerLog` | client/canvas.js:55-59 | loading a bootstrap log yields the server log entry for entry, and the redraw list is its alive entries in log order |
| `Convergence.ReplicasConverge` | client/canvas.js:119 | clients holding the same ops of a server log, in any arrival order, paint the same strokes in the same order |
| `Convergence.LastIndexDistinct` | client/canvas.js:65 | with distinct ids, every entry's id is indexed to that entry |
| `Convergence.ApplyMirrorsAccept` | client/canvas.js:63-68 | a mirror equal to the server log, with its index, still equals it and indexes it after the server appends a stroke and the client applies it |
| `Convergence.TombstoneMirrorsUndo` | client/canvas.js:70-75 | with distinct ids, the client's tombstone of the undone id changes its mirror exactly as the server's undo changed the log |
| `Convergence.RestoreMirrorsRedo` | client/canvas.js:78-83 | with distinct ids, the client's restore of the redone id changes its mirror exactly as the server's redo changed the log |
| `Convergence.DuplicateIdsDivergeOnRestore` | server/drawing-state.js:75 | with a duplicated id, server redo revives the first entry with it but client restore revives the last |
| `Convergence.BatchStoredAsSent` | client/canvas.js:179-187 | a batch with a non-empty id and colour, at most 2048 points and a width in [1, 64] is stored with its own id, points, colour and width, eraser iff its tool is `'eraser'`, authored by the sender |

## Left out

- server/server.js: socket event wiring, HTTP routes and broadcast fan-out. These are transport. The model has the state changes each handler makes, not the messages.
- Drawing.DrawingState.AcceptStroke: a missing or null stroke payload makes `acceptStroke` throw a TypeError when it reads `op.id` (server/drawing-state.js:43). `RawStroke` stands only for an object payload, so the model covers only object payloads and not that error path.
- Drawing.DrawingState.Join: the `socket.join(roomId)` call into the transport library, which subscribes the connection to the room's broadcasts, is not modelled. Only the peer table update is.
- client/main.js and client/websocket.js: DOM widgets, local storage, the cursor throttle, the latency ping and the fixed `'lobby'` routing. These are UI and transport.
- Rendering in client/canvas.js: `drawOp`'s Canvas2D calls and curve midpoints, `blit`, `resize`, DPI scaling, `canvasPos` and `updateRemoteCursor`. The model keeps only which ops a redraw paints and in what order (`Redrawn`).
- The `cursorCb` calls in `begin` and `move` are outgoing I/O and are not modelled.
- `setUser`, `setTool`, `setColor`, `setWidth` are plain field assignments and are not modelled. The fields `tool`, `color` and `width` are, and they go into each batch.
- Id generation and clocks: `nanoid` (server and client), `Date.now` and `performance.now` are inputs (`freshId`, `now`).
- Canvas.CanvasState.Move: `move` and `flushBatch` each read the clock. The model uses one value `now` for both.
- Time is an integer number of milliseconds, not a floating-point value.
- Fields carried through by the `...op` spread are not modelled. This includes a batch's `end` flag, which the server stores.
- `type: 'stroke'` is not modelled, since every op is a stroke.
- Point coordinates are opaque.
- Widths are integers. JavaScript coercion of non-numeric or fractional widths, such as NaN from `parseInt`, is not modelled.
- `alive` is a boolean. The client's `alive !== false` and truthy `alive` tests differ only for a missing or non-boolean flag, which the server never produces.
- Object identity: the client's `index` maps an id to the log position of the op it references, not to a shared object. `loadOps` also sorts the caller's array in place; the model sorts a copy.
- Canvas.SortByOrder: states sorted and a permutation, not the stability of `Array.prototype.sort`. Stability matters only for equal `order` keys, which a server log never has.
- The counter is an unbounded natural number. JavaScript numbers are exact only up to 2^53.
- Concurrency: each socket handler runs to completion on the event loop, so each method is atomic.
