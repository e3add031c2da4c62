# Pixel2D core, modelled in Dafny

Pixel2D is a small C++ game library built on SFML, with an asio based
networking layer. This project models its deterministic core and proves
properties of the model:

- **Message framing.** A `message<T>` has a header (kind, total size) and a
  body. The body is a LIFO byte stack: `<<` pushes a value's bytes and `>>`
  pops them (`NetMessage`, `ByteStack`, `Bytes`).
- **The thread-safe deque** `ts_queue<T>` (`NetQueue`).
- **The connection.** Its outbound pipeline writes one message at a time,
  header then body. Its inbound pipeline reassembles messages into one
  reused incoming message. Its handshake is a challenge, a scrambled
  answer and a comparison (`NetConnection`, `NetWire`).
- **The server's bookkeeping.** This covers:
  - approving a connection and giving it an id not yet in `ids`;
  - `messageAllClients`, which broadcasts and then drops closed connections
    and their ids;
  - `update`, which hands queued messages to `onMessage` (`NetServer`).
- **`p2d::Util`.** Its Lehmer-style generator and its integer draws
  (`P2dUtil`).
- **Integer `Math`.** `min`, `max` and `clamp` (`P2dMath`).
- **`p2d::save`.** A byte stack with string support (`P2dSave`).
- **`p2d::Input`.** Held, pressed and released keys and mouse buttons
  (`P2dInput`).
- **Sprite ids.** `SpriteBuffer::insert` with its layer clamp and its
  fresh-id loop, and `Assets::unique` (`P2dSprites`).
- **`CellMap::convertTileMapToVectorMap`** from the lights example. It
  turns a grid of existing and missing cells into wall edges, merging
  collinear runs (`CellMap`).

State that the C++ code updates in place is modelled as Dafny classes with
`modifies` clauses. Loops stay loops, with their invariants. Each class is
proved against specification functions, for example:

- the bytes a connection has written are `Serialize` of the messages it
  finished writing;
- an `Input`'s maps are what replaying its polled events gives;
- the cell array after the edge pass satisfies `Extracted`.

Lemmas about those functions state what the source promises. Asynchronous
completions are methods that take the completion's success flag as an
argument. The clock, the network and the `scramble` hash are parameters.

Fixed-width integers are written out. A value pushed onto a byte stack is
its little-endian bytes (`Bytes.LE32`, `Bytes.IntBytes`). Conversions
between `int`, `uint32_t` and `size_t` wrap modulo 2^32 (`Bytes.ToSigned`,
`Bytes.ToUnsigned`, `Bytes.Truncate32`). The generator's state and hash are
`bv32`/`bv64`.

## Model

| member | source | states |
|---|---|---|
| Bytes.ToUnsigned | p2dNetwork.hpp:582-583 | An `int` id passed as `uint32_t` keeps its value modulo 2^32 and is unchanged when non-negative. |
| Bytes.ToSigned | p2d.hpp:1118 | Storing a `uint32_t` draw in an `int` is undone by the unsigned conversion, and keeps values below 2^31. |
| Bytes.Truncate32 | p2dNetwork.hpp:53 | Storing `size()` into the `uint32_t` header size is exact below 2^32 and otherwise equal modulo 2^32. |
| Bytes.LE32 | p2dNetwork.hpp:50-52 | `memcpy` of a `uint32_t` gives four bytes from which the same value is rebuilt. |
| Bytes.LE32OfFromLE32 | p2dNetwork.hpp:61-63 | Every four bytes popped back into a `uint32_t` re-encode to the same bytes, so the byte layout is a bijection. |
| Bytes.IntBytes | p2d.hpp:818 | The four bytes of a 32-bit `int` rebuild the same `int`. |
| ByteStack.PopAfterPush | p2dNetwork.hpp:47-66 | Pushing values and then popping their widths in reverse returns them last-pushed first, and any pops beyond behave as on the stack underneath. |
| ByteStack.PushPopRoundTrip | p2d.hpp:787-805 | Popping what was pushed returns the values in LIFO order and restores the byte vector exactly. |
| ByteStack.PopPastBottom | p2dNetwork.hpp:61 | One non-empty pop more than was pushed onto an empty body reads before the buffer's start, which is undefined in the source. |
| NetMessage.Message.constructor | p2dNetwork.hpp:23-33 | A new message has size 0 and no body, and is well framed. |
| NetMessage.Message.Size | p2dNetwork.hpp:35-38 | `size()` is the 8 header bytes plus the body length. |
| NetMessage.Message.Push | p2dNetwork.hpp:47-55 | `<<` keeps the kind, pushes the bytes on the body and sets `header.size` to `size()`, so the header agrees with the body whenever the size fits in 32 bits. |
| NetMessage.Message.Pop | p2dNetwork.hpp:57-66 | `>>` returns exactly the top `width` bytes, leaves the rest of the body, keeps the kind and resets `header.size` to `size()`. |
| NetQueue.TsQueue.constructor | p2dNetwork.hpp:90 | A new queue is empty. |
| NetQueue.TsQueue.Front | p2dNetwork.hpp:94-98 | Returns the oldest item. |
| NetQueue.TsQueue.Back | p2dNetwork.hpp:100-104 | Returns the newest item. |
| NetQueue.TsQueue.PushBack | p2dNetwork.hpp:106-113 | Appends exactly one item at the back. |
| NetQueue.TsQueue.PushFront | p2dNetwork.hpp:115-122 | Prepends exactly one item at the front. |
| NetQueue.TsQueue.Empty | p2dNetwork.hpp:124-128 | True iff the count is 0. |
| NetQueue.TsQueue.Count | p2dNetwork.hpp:130-134 | The number of stored items. |
| NetQueue.TsQueue.Clear | p2dNetwork.hpp:136-140 | Leaves the queue empty. |
| NetQueue.TsQueue.PopFront | p2dNetwork.hpp:142-148 | Removes and returns the front item, the rest unchanged in order; with PushBack this makes the queue FIFO. |
| NetQueue.TsQueue.PopBack | p2dNetwork.hpp:150-156 | Removes and returns the back item, the rest unchanged in order. |
| NetWire.HeaderBytes | p2dNetwork.hpp:317 | A header goes on the wire as exactly `sizeof(message_header)` = 8 bytes. |
| NetWire.DecodeHeaderBytes | p2dNetwork.hpp:273 | Reading the 8 header bytes back into the header struct yields the header that was written. |
| NetWire.SerializeAppend | p2dNetwork.hpp:315-358 | Writing one more message appends its header bytes, then its body, to what was written before. |
| NetWire.Resize | p2dNetwork.hpp:279 | `vector::resize` keeps the prefix and zero-fills growth to exactly the new length. |
| NetWire.OnHeaderAsWritten | p2dNetwork.hpp:271-295 | The header handler as written: size 0 delivers the held message with its old body, sizes 1 to 7 overrun, and larger sizes act as the corrected handler. |
| NetWire.OnHeader | p2dNetwork.hpp:271-295 | The corrected header handler: size 0 delivers a message with no body, where the source re-delivers the held body (see `OnHeaderAsWritten`). Sizes 1 to 7 overrun. Otherwise the body is resized to `size - 8` and awaited. |
| NetWire.DeframeSerialize | p2dNetwork.hpp:271-310 | The (corrected) reader delivers exactly the well-framed messages the writer serialised, in order, whatever message it held before. |
| NetWire.DeframeAsWrittenSerialize | p2dNetwork.hpp:271-310 | The reader as written delivers one message per message sent, in order, with its header; a non-zero-size message arrives intact and a size-0 one carries the body delivered just before it (`Restaled`). |
| NetWire.RestaledNoEmpty | p2dNetwork.hpp:277-286 | When no message has size 0, the reader as written delivers exactly what was sent. |
| NetWire.StaleBodyDelivered | p2dNetwork.hpp:277-286 | As written, a size-0 message that follows a message with a body is delivered carrying that older body. |
| NetConnection.Connection.constructor | p2dNetwork.hpp:183-198 | A server side connection is open and holds its clock challenge and `scramble(1.0, challenge)` as check; a client side one is closed with zero handshake values. |
| NetConnection.Connection.Remote | p2dNetwork.hpp:369-370 | Incoming messages are attributed to the connection on a server and to nobody on a client. |
| NetConnection.Connection.Send | p2dNetwork.hpp:250-261 | Appends the message to the outgoing queue. A header write starts iff the queue was empty before, and nothing is written yet. |
| NetConnection.Connection.OnHeaderWritten | p2dNetwork.hpp:315-343 | On success the header bytes of the front message are on the wire. An empty body pops the front message and restarts iff messages remain; otherwise the body write starts. On failure the socket closes. |
| NetConnection.Connection.OnBodyWritten | p2dNetwork.hpp:345-365 | On success the body follows the header on the wire, the front message is popped, and writing restarts iff messages remain. The invariant keeps at most one write in flight and messages leaving in FIFO order. |
| NetConnection.Connection.Deliver | p2dNetwork.hpp:367-373 | Appends the held message, with its remote, to the owner's incoming queue. |
| NetConnection.Connection.OnHeaderRead | p2dNetwork.hpp:271-295 | Follows the handler as written: a size-0 header delivers the held message with whatever body it still has; otherwise it awaits a body of `size - 8` bytes or stops on an overrun. A failed read closes the socket. |
| NetConnection.Connection.OnBodyRead | p2dNetwork.hpp:297-313 | The arrived bytes become the body, the message is delivered, and the next header read starts. A failed read closes the socket. |
| NetConnection.Connection.ConnectToClient | p2dNetwork.hpp:208-219 | Only an open server side connection records the id and starts the validation write and read. |
| NetConnection.Connection.OnConnected | p2dNetwork.hpp:221-237 | A successful connect opens the client side and starts the validation read. |
| NetConnection.Connection.OnValidationRead | p2dNetwork.hpp:410-444 | The server accepts iff the answer equals its check, then reads headers, and otherwise closes. The client answers with `scramble(version, challenge)`. |
| NetConnection.Connection.OnValidationWritten | p2dNetwork.hpp:390-408 | After the answer is written, a client starts reading headers; a failed write closes. |
| NetConnection.Handshake | p2dNetwork.hpp:410-436 | A full successful handshake validates iff the client's scramble of the challenge equals the server's check, computed with version 1.0. |
| NetServer.WithoutKeepsOthers | p2dNetwork.hpp:671-674 | The erase-remove of ids keeps exactly the other ids, with their multiplicity, and erasing absent ids changes nothing. |
| NetServer.WithoutWithout | p2dNetwork.hpp:630-631 | Erasing one id after another equals erasing them together. |
| NetServer.SwapPop | p2dNetwork.hpp:644-645 | A swap-and-pop removes one occurrence of the id and keeps the examined prefix. |
| NetServer.SweptRemovesDead | p2dNetwork.hpp:640-647 | The corrected sweep leaves no dead id and keeps every other id as often as before. |
| NetServer.SweptNothingDead | p2dNetwork.hpp:640-647 | With no dead id present, the sweep changes nothing. |
| NetServer.SweptAsWrittenKeeps | p2dNetwork.hpp:640-647 | The sweep as written keeps every id that is not dead with its multiplicity and never adds an id: the result is a sub-multiset of the input. |
| NetServer.SweptAsWrittenNothingDead | p2dNetwork.hpp:640-647 | With no dead id present, the sweep as written changes nothing. |
| NetServer.HookedThenSwept | p2dNetwork.hpp:628-647 | The hook's erasures followed by the sweep as written keep every live id with its multiplicity and add nothing; with the base `onClientDisconnect`, exactly the live ids remain. |
| NetServer.SweepSkipsSwappedIn | p2dNetwork.hpp:640-647 | As written, two dead ids `[1, 2]` leave `[2]`; the corrected sweep leaves `[]`. |
| NetServer.SweepIdsAsWritten | p2dNetwork.hpp:639-647 | The loop as written computes `SweptAsWritten`: every id not to remove keeps its multiplicity, the result is a sub-multiset of the input, and with no id to remove present nothing changes. |
| NetServer.SweepIds | p2dNetwork.hpp:639-647 | The corrected loop keeps exactly the ids not to remove, each with its multiplicity. |
| NetServer.GenerateUniqueId | p2dNetwork.hpp:697-711 | A fresh generator draws until an id is not in `ids`. It returns the first such draw, all earlier draws are in `ids`, and it fails only after a full period of draws. |
| NetServer.KeptDistinct | p2dNetwork.hpp:648 | Filtering connections keeps a duplicate-free sublist. |
| NetServer.KeptAppend | p2dNetwork.hpp:622-635 | The filter of a list extended by one connection extends by that connection iff it passes. |
| NetServer.DeadIdsAppend | p2dNetwork.hpp:628-630 | The collected ids grow by a connection's id iff it is closed. |
| NetServer.PrefixStep | p2dNetwork.hpp:622-635 | One more connection examined extends the closed list and the dead ids by it iff it is closed. |
| NetServer.NoDeadNoIds | p2dNetwork.hpp:637 | With no closed connection there are no ids to remove. |
| NetServer.KeptAll | p2dNetwork.hpp:637 | With no closed connection the list keeps every connection. |
| NetServer.NonNullOfSlots | p2dNetwork.hpp:648 | Nulling closed entries and erasing the nulls leaves the open connections in order. |
| NetServer.TallyStart | p2dNetwork.hpp:619-620 | The loop starts with nothing collected. |
| NetServer.TallyStep | p2dNetwork.hpp:628-634 | A closed connection is reported, its id collected and erased by the base hook, and `invalidClientExists` set. |
| NetServer.TallyEnd | p2dNetwork.hpp:622-635 | After the loop the reported connections are the closed ones, the collected ids are theirs, and the flag is set iff any was closed. |
| NetServer.Server.constructor | p2dNetwork.hpp:688-694 | A new server has no connections, no ids and an empty incoming queue. |
| NetServer.Server.OnAccept | p2dNetwork.hpp:569-599 | A denied connection changes nothing. An approved one is appended with the server's version; its fresh id, absent from `ids`, is appended to `ids` and given to the connection, whose handshake starts. |
| NetServer.Server.Admit | p2dNetwork.hpp:577-583 | The new connection gets the server's version and, when a fresh id is found, that id and the start of validation. |
| NetServer.Server.OnClientDisconnect | p2dNetwork.hpp:671-674 | The base hook erases the client's id from `ids`; an override leaves `ids` alone. |
| NetServer.Server.MessageClient | p2dNetwork.hpp:601-606 | A connected client gets the message appended to its outgoing queue, and nothing else about it changes. |
| NetServer.Server.MessageAllClients | p2dNetwork.hpp:617-650 | Every open connection except `ignoreClient` gets the message, and nothing else changes on any connection. The closed ones are reported in order and dropped, and the survivors keep their order. `ids` is the hook's result swept as written: live ids keep their multiplicity and nothing is added; with the base hook exactly the closed ones' ids leave. |
| NetServer.Server.Compact | p2dNetwork.hpp:637-649 | If any entry was nulled, the null entries are erased and `ids` is swept with the loop as written; live ids keep their multiplicity, and with the base hook the sweep changes nothing. |
| NetServer.Server.Broadcast | p2dNetwork.hpp:619-635 | The loop sends to each open connection except `ignoreClient`, nulls each closed entry, reports it and collects its id. |
| NetServer.Server.Step | p2dNetwork.hpp:624-634 | One pass of that loop preserves the loop invariant. |
| NetServer.Server.Update | p2dNetwork.hpp:652-663 | Hands the oldest `min(maxMessages, count)` messages to `onMessage` in queue order and leaves the rest queued. |
| P2dUtil.StateAfterAdd | p2d.hpp:99-101 | `a` calls to `random()` and then `b` more reach the state `a + b` calls reach. |
| P2dUtil.ScaleToRange | p2d.hpp:121-124 | For `min < max` the result lies in `[min, max)` and is `min` plus the draw modulo `max - min`. |
| P2dUtil.OffsetWraps | p2d.hpp:123 | Adding an in-range offset to `min` in unsigned 32-bit arithmetic and storing it in an `int` gives the exact sum. |
| P2dUtil.Util.constructor | p2d.hpp:145 | A new generator is at state 0. |
| P2dUtil.Util.Random | p2d.hpp:99-108 | Steps the state by `0xe120fc15` modulo 2^32 and returns the mix of the new state. |
| P2dUtil.Util.RandomInt | p2d.hpp:121-124 | Advances the generator once and returns a value in `[min, max)` when `min < max`. |
| P2dUtil.Util.RandomSeed | p2d.hpp:139-142 | Sets the state to the seed, so every later output is a function of the seed. |
| P2dMath.Min | p2d.hpp:401-405 | The smaller of the two. |
| P2dMath.Max | p2d.hpp:408-412 | The larger of the two. |
| P2dMath.Clamp | p2d.hpp:446-450 | Within `[min, max]` when `min <= max`. Unchanged if already in range; `min` below and `max` above. |
| P2dSave.PutStringOf | p2d.hpp:808-819 | `putString` grows the data by the string length plus 4. |
| P2dSave.TakePutString | p2d.hpp:808-839 | `getString` after `putString` returns the string and restores the data exactly. |
| P2dSave.Save.constructor | p2d.hpp:770-773 | A new save is empty. |
| P2dSave.Save.FromFile | p2d.hpp:775-778 | Starts from the given bytes. |
| P2dSave.Save.Size | p2d.hpp:782-785 | The number of bytes held. |
| P2dSave.Save.Push | p2d.hpp:787-795 | `<<` pushes the value's bytes, growing the data by exactly their width. |
| P2dSave.Save.Pop | p2d.hpp:797-805 | `>>` returns the top `width` bytes and shrinks the data by exactly that width. |
| P2dSave.Save.PutString | p2d.hpp:808-819 | The copy loop leaves the old data, the characters, then the length's four bytes. |
| P2dSave.Save.GetString | p2d.hpp:821-839 | The pop loop returns the stored characters in their original order and leaves the data beneath them. |
| P2dInput.HoldsOfAt | p2d.hpp:165-193 | For one code, the held map after replaying the events is true iff the code was pressed and its last press or release is a press. |
| P2dInput.HoldsOfHeld | p2d.hpp:165-193 | The held map is true for exactly the codes held according to that reference definition. |
| P2dInput.MarksOfCodes | p2d.hpp:165-193 | A down or up map holds only `true`, for exactly the codes pressed or released. |
| P2dInput.Input.constructor | p2d.hpp:152 | A new `Input` has seen no events. |
| P2dInput.Input.GetKey | p2d.hpp:208-212 | True iff the key is held; a key never seen reads false. |
| P2dInput.Input.GetKeyDown | p2d.hpp:214-218 | True iff the key was pressed since the last `clear`. |
| P2dInput.Input.GetKeyUp | p2d.hpp:220-224 | True iff the key was released since the last `clear`. |
| P2dInput.Input.GetButton | p2d.hpp:226-230 | True iff the button is held; a button never seen reads false. |
| P2dInput.Input.GetButtonDown | p2d.hpp:232-236 | True iff the button was pressed since the last `clear`. |
| P2dInput.Input.GetButtonUp | p2d.hpp:238-242 | True iff the button was released since the last `clear`. |
| P2dInput.Input.Clear | p2d.hpp:155-162 | Empties the down and up maps and zeroes `deltaScroll`, leaving the held maps unchanged. |
| P2dInput.Input.Poll | p2d.hpp:165-193 | The maps become what replaying the event after all earlier ones gives, both in total and since the last `clear`. |
| P2dInput.PollReads | p2d.hpp:165-193 | After a press the code reads held and down. After a release it reads up and not held. Other codes read as before. |
| P2dSprites.LayerOf | p2d.hpp:1029-1030 | The layer is clamped into `[0, 31]` and is unchanged when in range. |
| P2dSprites.AtlasSprite.constructor | p2d.hpp:697-701 | A sprite starts marked modified, with whatever its uninitialised id holds. |
| P2dSprites.AtlasSprite.SetId | p2d.hpp:751-755 | Sets the id and marks the sprite modified. |
| P2dSprites.FreshKey | p2d.hpp:1116-1124 | Draws until a key is not in the map. It returns the first such draw, all earlier draws are keys, and it fails only after a full period. |
| P2dSprites.SpriteBuffer.constructor | p2d.hpp:1099-1103 | A buffer has 32 empty layers and a generator at state 0. |
| P2dSprites.SpriteBuffer.GenerateId | p2d.hpp:1116-1124 | `generateID(layer)` returns an id absent from that layer, drawn from the buffer's generator. |
| P2dSprites.SpriteBuffer.Insert | p2d.hpp:1027-1034 | The sprite gets a fresh id and is added under it to the clamped layer, adding exactly one entry. The other layers are unchanged. |
| P2dSprites.Assets.constructor | p2d.hpp:850-855 | The assets copy the caller's generator state. |
| P2dSprites.Assets.Unique | p2d.hpp:931-940 | `unique(map)` returns a key absent from the map, drawn from the assets' generator. |
| CellMap.IdxIn | examples/lightsExample.cpp:122-123 | `y * w + x` of a grid cell lies below `w * h`. |
| CellMap.IdxInjective | examples/lightsExample.cpp:135-139 | Two cells of one row width never share an index. |
| CellMap.CellAtMark | examples/lightsExample.cpp:146-147 | Writing one cell's side leaves every other cell of the grid as it was. |
| CellMap.NewFits | examples/lightsExample.cpp:151-155 | A new edge lies on its side's line and covers it: vertical for west and east, horizontal for north and south. |
| CellMap.GrowFits | examples/lightsExample.cpp:145 | Growing an edge keeps it on the line and covering a side it covered. |
| CellMap.GrowCovers | examples/lightsExample.cpp:145 | The previous cell's edge grown by `blockWidth` covers this cell's side. |
| CellMap.GrowEnds | examples/lightsExample.cpp:145 | An edge ending at the previous cell's side, grown by `blockWidth`, ends at this side and keeps its start. |
| CellMap.Transfer | examples/lightsExample.cpp:131-133 | Moving the scan position over no boundary side keeps the invariant. |
| CellMap.PrevRun | examples/lightsExample.cpp:143-148 | In the extend case the previous cell's side is the last side of its edge, and neither this side nor the next one has an edge yet. |
| CellMap.ExtendSideAt | examples/lightsExample.cpp:143-148 | The extended side takes the previous side's id, and its edge now ends at it. |
| CellMap.ExtendSideOther | examples/lightsExample.cpp:143-148 | Every other side keeps its id and its place in its run after the extend step. |
| CellMap.StepNone | examples/lightsExample.cpp:143 | A side whose neighbour exists is passed over. |
| CellMap.SkipCell | examples/lightsExample.cpp:141 | A missing cell gets no edges. |
| CellMap.ExtendSide | examples/lightsExample.cpp:143-148 | In the extend case, each side of the grid satisfies the invariant after the step. |
| CellMap.ExtendRunSame | examples/lightsExample.cpp:145 | The grown edge keeps its start and ends at the far corner of the extending side. |
| CellMap.ExtendRunOther | examples/lightsExample.cpp:143-148 | Every other edge keeps its start, its end and the sides that hold them. |
| CellMap.StepExtend | examples/lightsExample.cpp:143-148 | The side reuses the previous cell's edge id and grows that edge by a block, keeping the invariant. |
| CellMap.NewSide | examples/lightsExample.cpp:149-161 | In the new-edge case, each side of the grid satisfies the invariant after the step. |
| CellMap.NewRun | examples/lightsExample.cpp:149-161 | The new edge starts and ends at the side that appended it; every other edge keeps its start and end. |
| CellMap.StepNew | examples/lightsExample.cpp:149-161 | The side starts an edge with id the old `edges.size()`, appended, keeping the invariant. |
| CellMap.ScanStart | examples/lightsExample.cpp:114-127 | After the reset nothing is handled and no side has an edge. |
| CellMap.ExAtIs | examples/lightsExample.cpp:135-139 | The flags read through a grid index are the cell's own. |
| CellMap.ExtractedSide | examples/lightsExample.cpp:129-232 | In the result a side has an edge iff its cell is interior and exists and the neighbour across it does not. An edge-less side has id 0, so the outer ring and missing cells have none. An edge id indexes `edges`, and that edge covers the side. |
| CellMap.ExtractedRuns | examples/lightsExample.cpp:143-161 | A side reuses the id of the previous cell's same side when that side has an edge, otherwise its edge starts at this side's corner; it passes its id to the next cell's same side when that side has an edge, otherwise its edge ends at this side's far corner. |
| CellMap.ExtractedEdges | examples/lightsExample.cpp:143-227 | Every edge is exactly the span from the corner of the boundary side that started it (whose previous cell has no edge on that side) to the far corner of the boundary side that ends it (whose next cell has none); both sides hold it, and it is vertical for west and east and horizontal for north and south. |
| CellMap.CellMap.constructor | examples/lightsExample.cpp:25-30 | `width * height` cells, none existing, and no edges. |
| CellMap.CellMap.ResetCell | examples/lightsExample.cpp:120-124 | Clears the four sides of one cell and nothing else. |
| CellMap.CellMap.Reset | examples/lightsExample.cpp:116-127 | Clears every cell of the `w` by `h` grid, keeping existence flags and cells beyond the grid. |
| CellMap.CellMap.HandleSide | examples/lightsExample.cpp:141-162 | One side of an existing cell: pass over, extend or append, keeping the invariant and adding at most one edge. |
| CellMap.CellMap.ExtendEdge | examples/lightsExample.cpp:143-148 | The edge `id` of the previous cell's side alone grows by `blockWidth` (`edges[id].ey` or `.ex` increases); this cell alone changes, its side taking `id`; the edge count is kept and the invariant holds. |
| CellMap.CellMap.AppendEdge | examples/lightsExample.cpp:149-161 | `edges` becomes the old edges plus `NewEdge(x, y, d, blockWidth)`; this cell alone changes, its side taking the old `edges.size()` as id; the invariant holds. |
| CellMap.CellMap.Visit | examples/lightsExample.cpp:133-232 | Handles the west, east, north and south sides of one cell in the source's order. |
| CellMap.CellMap.VisitColumn | examples/lightsExample.cpp:131-233 | Handles every interior cell of a column from the top, adding at most 4 edges per cell. |
| CellMap.CellMap.ConvertTileMapToVectorMap | examples/lightsExample.cpp:112-236 | Clears `edges`, resets the grid and visits every interior cell. The result satisfies `Extracted` for the cells' original existence flags, so `ExtractedSide`, `ExtractedRuns` and `ExtractedEdges` fix every side's flag and id and every edge exactly. Cells beyond `w * h` are untouched, and at most `4 * (w-2) * (h-2)` edges are created. |

## Left out

- Sockets, asio, `io_context`, threads and the mutexes and condition
  variable of `ts_queue` (including `wait()`). The pipelines are sequential
  event handlers, and each asio completion is a method call with its
  success flag.
- `connect`, `disconnect`, `start`, `stop`, the accept loop's re-arming,
  and client_interface: these are I/O drivers.
- `scramble`: its body shifts a `float` and may divide by zero. It is a
  function parameter of the connection and the server.
- The clock that seeds the server's challenge is a parameter.
- `onClientValidated` and `onMessage` are application hooks. `onMessage` is
  recorded as the `handled` log; `onClientValidated` is not modelled.
- NetServer.Server.MessageClient: only the connected branch is modelled.
  The other branch dereferences the client after `reset()`, which is
  undefined behaviour.
- NetServer.Server.Update: the `wait` flag is left out, because it only
  blocks the calling thread.
- NetServer.GenerateUniqueId: gives up after 2^32 draws (a full period of
  the generator) with `found` false, where the source would loop for ever.
- P2dSprites.FreshKey: gives up after 2^32 draws in the same way, where
  the source would loop for ever. This applies to
  P2dSprites.SpriteBuffer.GenerateId and P2dSprites.Assets.Unique too.
- NetServer.Server.OnAccept: a connection that gets no fresh id is still
  appended, but no id is recorded for it. In the source that case cannot
  end.
- NetWire.OnHeader: a size of 1 to 7 makes `size - 8` wrap. The source's
  `resize` then throws on the asio context's thread, where nothing catches
  it, so `std::terminate` ends the process; the model reports an overrun
  and stops reading.
- P2dSave.Save.PutString: requires the data size plus the string length to
  stay below 2^31. The source stores both in `int`s and adds them; beyond
  that the narrowing and the signed overflow are not modelled.
- P2dSave.Save.GetString, NetMessage.Message.Pop and P2dSave.Save.Pop
  require that enough bytes are held. The source does not check this, and
  reading before the buffer is undefined there.
- Mouse motion, the scroll wheel, `randomBool`, `randomFloat`,
  `randomDouble`, the float `Math` overloads and
  `calculateVisibilityPolygon`: floating point. `Input::poll`'s
  `deltaScroll` is only reset to 0.
- CellMap.CellMap.ConvertTileMapToVectorMap: `blockWidth` is a natural
  number and edge coordinates are integers, where the source uses `float`.
  The only call sites pass 16.
- CellMap.CellMap.ConvertTileMapToVectorMap: requires `w * h` cells to fit
  in the world array; the source does not check this.
- CellMap.CellMap.constructor: the source leaves a new cell's edge arrays
  uninitialised. The model starts them cleared, and the pass's reset makes
  the two agree.
- Rendering and SFML: `Application`, drawing, the camera,
  `SpriteBuffer::update` and `isOnScreen`, `TileMap`, `Time`, `Console`
  and textures.
- File I/O: `Assets::load`, `loadSave`, `saveData`.
- The application example programs and the older API files.

## Findings

| source | as written | input that shows it | evidently intended | confidence | as-written member | corrected member |
|---|---|---|---|---|---|---|
| p2dNetwork.hpp:277-286 | With `header.size == 0`, readHeader delivers `m_msgTemporaryIn` without clearing its body, so the previous message's body is handed on again | A message of kind 1 with a 4-byte body, then a size-0 message of kind 2: the second arrives with the 4 stale bytes | A size-0 message arrives with an empty body | not executed | NetWire.StaleBodyDelivered | NetWire.DeframeSerialize |
| p2dNetwork.hpp:640-647 | After swapping a dead id with the last one and popping, `i` still advances, so the id swapped in is never examined | `ids = [1, 2]`, both connections closed, and an `onClientDisconnect` override that keeps `ids`: `[2]` remains | Every collected id is removed from `ids` | not executed | NetServer.SweepSkipsSwappedIn | NetServer.SweepIds |

`NetConnection.Connection.OnHeaderRead` and `NetServer.Server.Compact` follow
the code as written (`OnHeaderAsWritten`, `SweepIdsAsWritten`). The corrected
definitions (`OnHeader`, `Deframe`, `Swept`, `SweepIds`) stand beside them
with their intended properties proved.
