# PyBoof list transfer and geometry values, modelled in Dafny

PyBoof is the Python binding of BoofCV. BoofCV runs in a Java process reached through py4j. Lists of 2D points and of associated pairs cross between the two processes through a memory-mapped file (`pyboof.mmap_file`, `pyboof.mmap_size` bytes).

This project models that transfer as `pyboof/geo.py` implements it, together with the `Point2D` and `Quadrilateral2D` value classes of the same file.

- **`Wire`**: the byte layouts.
  - The `>HI` message header: a big-endian u16 type tag followed by a u32 element count.
  - The `>2d` point record (16 bytes) and the `>4d` associated-pair record (32 bytes).
  - A double is kept as its 64-bit pattern. `Codec<T>` packages a record layout with its size, encoder and decoder, and `Codec.Valid` states what every layout satisfies: decoding an encoding gives the value back, decoding succeeds exactly on `size` bytes, and encoding what any `size` bytes decode to gives those bytes back.
- **`Channel`**: the mapped region as a class, `MmapFile`.
  - It holds a fixed `array<byte>` and a cursor.
  - `Seek`, `Write` and `Read` behave like Python's `mmap` methods.
- **`Transfer`**: the chunked transfer shared by the four `mmap_list_*` functions.
  - **Send.**
    - `max_elements = (mmap_size - 100) / record_size` records are sent per round.
    - Each round writes, at offset 0, a header carrying the list's TOTAL length, followed by that round's records. Then the Java side is called to read the round.
    - The Java side is a `Peer` object whose ghost log `seen` records the region each time it reads.
  - **Receive.**
    - The Python side asks the Java side for the round at `num_read` and checks the header's tag and count. It then unpacks `num_found` records, appending each to the Python list.
    - The Java list is a `RemoteList`: its `size()`, plus the message it writes for each `num_read`.
  - `SendList` and `ReceiveList` are loops proved against the functions `SendMessages`/`Snapshots` and `RecvLoop`. Lemmas about those functions give the round count, the header contents, the error cases and the send/receive round trip.
- **`Geo`**: the four `mmap_list_*` functions and the `p2b_list_*` / `b2p_list_*` entry points. Each entry point refuses to work without a memory-mapped file.
- **`Geometry`**: `Point2D` and `Quadrilateral2D` as classes with their setters and accessors.

Three behaviours of the code that the model keeps:
- **Records per round.** A send writes `(mmap_size - 100) / record_size` records per round. At least 94 bytes at the end of the region are therefore never used by a send.
- **Partial receives.** A receive that raises keeps in the caller's list the records it already appended. `b2p_list_*` loses that list only because the exception propagates.
- **Unrecognised arguments to `set`.** `set` raises a plain `Exception("Unknown object type")`. The model returns `Failure(UnknownObjectType)`.

## Model

| member | source | states |
|---|---|---|
| Wire.ToBigEndian | pyboof/geo.py:278 | a `struct` big-endian integer field of a given width is exactly that many bytes |
| Wire.FromBigEndian | pyboof/geo.py:304 | the value read from n big-endian bytes is below 256^n |
| Wire.FromToBigEndian | pyboof/geo.py:304 | reading back the big-endian bytes of a value gives the value |
| Wire.ToFromBigEndian | pyboof/geo.py:304 | every byte string is the big-endian encoding of the value it reads as |
| Wire.EncodeHeader | pyboof/geo.py:278 | `struct.pack('>HI', tag, count)` is six bytes |
| Wire.DecodeHeader | pyboof/geo.py:304 | `struct.unpack('>HI', ...)` succeeds exactly on six bytes, otherwise struct.error |
| Wire.HeaderRoundTrip | pyboof/geo.py:278 | the packed `>HI` header is 6 bytes and unpacks to the same tag and count |
| Wire.HeaderBytesRoundTrip | pyboof/geo.py:304 | any six bytes unpack to a header that packs back to those bytes |
| Wire.PackDoubles | pyboof/geo.py:281 | packing n doubles with `>nd` gives 8n bytes |
| Wire.UnpackDoubles | pyboof/geo.py:310 | unpacking 8n bytes gives n doubles |
| Wire.UnpackPackDoubles | pyboof/geo.py:281 | unpacking packed doubles gives them back in order |
| Wire.PackUnpackDoubles | pyboof/geo.py:310 | packing the unpacked doubles gives back the bytes |
| Wire.EncodePoint | pyboof/geo.py:335 | `struct.pack('>2d', x, y)` is 16 bytes |
| Wire.DecodePoint | pyboof/geo.py:364 | `struct.unpack('>2d', ...)` succeeds exactly on 16 bytes, otherwise struct.error |
| Wire.EncodePair | pyboof/geo.py:281 | `struct.pack('>4d', x0, y0, x1, y1)` is 32 bytes |
| Wire.DecodePair | pyboof/geo.py:310-311 | `struct.unpack('>4d', ...)` succeeds exactly on 32 bytes, otherwise struct.error |
| Wire.PointRoundTrip | pyboof/geo.py:335 | a `>2d` point record is 16 bytes and unpacks to the same (x, y) |
| Wire.PointBytesRoundTrip | pyboof/geo.py:364-365 | any 16 bytes unpack to a point that packs back to them |
| Wire.PairRoundTrip | pyboof/geo.py:281 | a `>4d` pair record is 32 bytes and unpacks, regrouped, to the same ((x0,y0),(x1,y1)) |
| Wire.PairLayout | pyboof/geo.py:281 | the pair record holds x0, y0, x1, y1 in that order, 8 bytes each |
| Wire.PairBytesRoundTrip | pyboof/geo.py:310-311 | any 32 bytes unpack to a pair that packs back to them |
| Wire.PointCodecValid | pyboof/geo.py:335 | the point layout is a valid 16-byte codec: fixed size, both round trips, struct.error on any other length |
| Wire.PairCodecValid | pyboof/geo.py:281 | the pair layout is a valid 32-byte codec: fixed size, both round trips, struct.error on any other length |
| Wire.EncodeAll | pyboof/geo.py:279-281 | n records written back to back take record_size * n bytes |
| Wire.DecodeAll | pyboof/geo.py:309-311 | decoding n back-to-back records yields n values |
| Wire.EncodeAllAppend | pyboof/geo.py:279-281 | the records of a + b are those of a followed by those of b |
| Wire.DecodeEncodeAll | pyboof/geo.py:309-311 | decoding back-to-back records gives the list that was encoded |
| Channel.Overlay | pyboof/geo.py:277-278 | a write at offset 0 replaces that prefix of the region and keeps the rest |
| Channel.OverlayExtend | pyboof/geo.py:279-281 | a write right after a message written at offset 0 extends that message |
| Channel.MmapFile.Seek | pyboof/geo.py:277 | `mm.seek(p)` moves the cursor to p |
| Channel.MmapFile.Write | pyboof/geo.py:278 | `mm.write(b)` copies b at the cursor, advances it by \|b\|, and leaves the rest of the region unchanged; when b would run past the end it raises ValueError and changes nothing |
| Channel.MmapFile.Read | pyboof/geo.py:304 | `mm.read(n)` returns the bytes from the cursor up to n or the end of the region and moves the cursor past them |
| Transfer.PyList.constructor | pyboof/geo.py:218 | a new Python list is empty |
| Transfer.MessageBytes | pyboof/geo.py:302 | a message from the Java side is the packed header followed by its body |
| Transfer.Peer.ReadList | pyboof/geo.py:284 | `read_List_*` lets the Java side see the region as it is now |
| Transfer.Peer.WriteList | pyboof/geo.py:302 | `write_List_*(java_list, num_read)` puts the reply for num_read at offset 0 and keeps the rest of the region |
| Transfer.MaxElements | pyboof/geo.py:271 | `max_elements = (mmap_size - 100) / record_size`, with Python 2's floor division |
| Transfer.MaxElementsFloor | pyboof/geo.py:271 | max_elements is the largest count whose records fit in mmap_size - 100 bytes |
| Transfer.Chunks | pyboof/geo.py:273-287 | the rounds of a send: no round for an empty list, and never more rounds than elements |
| Transfer.SendMessages | pyboof/geo.py:276-281 | one message per round |
| Transfer.ChunksFlatten | pyboof/geo.py:273-287 | the rounds of a send, concatenated, are the whole list |
| Transfer.ChunksCount | pyboof/geo.py:274-287 | a send of N elements with m per round takes ceil(N/m) rounds, none when N is 0 |
| Transfer.ChunkAt | pyboof/geo.py:276-281 | round k sends `pylist[k*m : k*m + min(m, N - k*m)]` |
| Transfer.ChunksBounded | pyboof/geo.py:276 | every round sends between 1 and max_elements records |
| Transfer.RoundFits | pyboof/geo.py:271 | a header plus at most max_elements records fits in mmap_size bytes |
| Transfer.SendMessagesFit | pyboof/geo.py:271-281 | every round the send writes fits the region |
| Transfer.SendMessagesDecode | pyboof/geo.py:278-281 | every round's header has the list's type tag and the TOTAL element count, and its records decode to exactly that round's slice |
| Transfer.SnapshotsShowMessages | pyboof/geo.py:284 | when the Java side reads round k, offset 0 of the region holds round k's message |
| Transfer.SendRoundTrip | pyboof/geo.py:259-287 | decoding the records of every round in round order gives back the whole list |
| Transfer.SevenPointsInThreeRounds | pyboof/geo.py:326-335 | 7 points through a region with room for 3 per round go in rounds of 3, 3 and 1, every header counting 7 |
| Transfer.NextChunk | pyboof/geo.py:276-287 | the round starting at curr is the next slice, and later rounds cut the rest of the list |
| Transfer.EncodePrefixStep | pyboof/geo.py:279-281 | writing one more record of the round appends its bytes |
| Transfer.WriteRound | pyboof/geo.py:277-281 | one round leaves the header and the round's records at offset 0 and the cursor just after them; a header longer than the region raises ValueError with nothing written |
| Transfer.SendStep | pyboof/geo.py:274-287 | the round starting at curr is round k of the send, it fits, and after it the loop state holds for curr + num_write |
| Transfer.SendLoopStep | pyboof/geo.py:274-287 | the message written next, and the send's state once the Java side has read it |
| Transfer.SendLoopDone | pyboof/geo.py:274 | when curr reaches the list's length, every round has been written and read, in order |
| Transfer.SendLoopFails | pyboof/geo.py:277-278 | the first round raises after `mm.seek(0)` with nothing written: struct.error for a list of 2^32 or more elements, otherwise ValueError when the header does not fit the region |
| Transfer.SendRound | pyboof/geo.py:276-287 | one iteration either raises as the whole send does or advances the state by one round of num_write >= 1 records |
| Transfer.SendList | pyboof/geo.py:259-287 | a send leaves the region, cursor and Java-side log exactly as the sequence of rounds prescribes: nothing for an empty list, struct.error for a count over 2^32 - 1, ValueError for a region shorter than the header |
| Transfer.MessageHeaderDecodes | pyboof/geo.py:302-304 | after the Java side writes a reply, the six bytes at offset 0 unpack to the reply's tag and count |
| Transfer.ReadRecords | pyboof/geo.py:309-311 | reading records never changes the region and keeps the cursor inside it |
| Transfer.RecvRound | pyboof/geo.py:302-311 | a round succeeds only with the expected tag and at most the remaining count, and then appends exactly num_found elements |
| Transfer.RecvLoop | pyboof/geo.py:297-312 | the receive loop never changes the region's size |
| Transfer.ReadRecordsSucceeds | pyboof/geo.py:309-311 | reading n records succeeds exactly when they lie inside the region; a short read raises struct.error with the cursor at the end, keeping what was appended |
| Transfer.ReadRecordsDecodes | pyboof/geo.py:309-311 | reading records laid out back to back appends exactly those records, in order |
| Transfer.RecvLoopNext | pyboof/geo.py:301-312 | after one round, the loop either stops with that round's exception or continues at num_read + num_found |
| Transfer.RecvLoopCount | pyboof/geo.py:297-312 | a receive only appends, and one that completes appends exactly the number of elements still expected |
| Transfer.RecvRejectsTag | pyboof/geo.py:305-306 | a reply with the wrong type tag raises before any of that round's records are appended |
| Transfer.RecvRejectsOverReport | pyboof/geo.py:307-308 | a reply counting more elements than remain raises before any of that round's records are appended |
| Transfer.RecvRoundHonest | pyboof/geo.py:302-312 | a well-formed reply appends its slice of the Java list |
| Transfer.HonestProgress | pyboof/geo.py:301-312 | a Java side replying with well-formed slices always reports at least one element, so the loop advances |
| Transfer.RecvHonestStep | pyboof/geo.py:301-312 | against such a Java side, one round appends the next slice and the rest of the loop continues from there |
| Transfer.RecvHonest | pyboof/geo.py:297-312 | a Java side replying with consecutive well-formed slices is received completely and in order, whatever the round sizes |
| Transfer.EchoHonest | pyboof/geo.py:302 | a Java side that echoes a list in rounds cut as the send cuts them replies honestly and fits the region |
| Transfer.SendReceiveRoundTrip | pyboof/geo.py:259-312 | a list cut into rounds and received back through the same record layout comes back unchanged |
| Transfer.ReadRecordsStep | pyboof/geo.py:310-311 | one record read either raises struct.error or appends the decoded record and leaves one fewer to read |
| Transfer.ReadRound | pyboof/geo.py:309-311 | the inner loop reads num_found records as ReadRecords prescribes, appending to the Python list in place |
| Transfer.ReceiveRound | pyboof/geo.py:302-311 | one iteration: the Java side writes, the header is checked, the records are read; the result is RecvRound's |
| Transfer.RecvInvStep | pyboof/geo.py:301-312 | one round either ends the loop with its exception or keeps the loop's invariant at the next num_read |
| Transfer.ReceiveList | pyboof/geo.py:290-312 | a receive's outcome, region, cursor and appended elements are those of RecvLoop |
| Geo.ListPythonToAssociatedPair | pyboof/geo.py:259-287 | sends associated pairs as 32-byte records tagged LIST_ASSOCIATEDPAIR_F64, as SendList prescribes |
| Geo.ListAssociatedPairToPython | pyboof/geo.py:290-312 | receives ((x0,y0),(x1,y1)) pairs into the Python list, as ReceiveList prescribes |
| Geo.ListPythonToPoint2DF64 | pyboof/geo.py:314-341 | sends points as 16-byte records tagged LIST_POINT2D_F64 |
| Geo.ListPoint2DF64ToPython | pyboof/geo.py:344-366 | receives (x, y) points into the Python list |
| Geo.MmapEnabled | pyboof/geo.py:204 | `if pyboof.mmap_file:` is true exactly for a mapping of non-zero length; the four entry points state their refusal through it |
| Geo.P2bListAssociatedPair | pyboof/geo.py:201-208 | without a memory-mapped file it raises and the Java side sees nothing; otherwise it is the send |
| Geo.B2pListAssociatedPair | pyboof/geo.py:211-224 | without a memory-mapped file it raises; otherwise it returns the received list or the receive's exception |
| Geo.P2bListPoint2DF64 | pyboof/geo.py:227-240 | without a memory-mapped file it raises and the Java side sees nothing; otherwise it is the send |
| Geo.B2pListPoint2DF64 | pyboof/geo.py:243-256 | without a memory-mapped file it raises; otherwise it returns the received list or the receive's exception |
| Geometry.Point2D.constructor | pyboof/geo.py:82-90 | a new point holds the given coordinates |
| Geometry.Point2D.Origin | pyboof/geo.py:82 | `Point2D()` with its default arguments is (0, 0) |
| Geometry.Point2D.GetX | pyboof/geo.py:120-121 | get_x returns the x last stored; the constructors, `set` and `set_x` state their effect through it |
| Geometry.Point2D.GetY | pyboof/geo.py:123-124 | get_y returns the y last stored; the constructors, `set` and `set_y` state their effect through it |
| Geometry.Point2D.GetTuple | pyboof/geo.py:114-118 | get_tuple is (get_x(), get_y()) |
| Geometry.Point2D.SetX | pyboof/geo.py:126-127 | set_x changes x and keeps y, as get_x, get_y and get_tuple then report |
| Geometry.Point2D.SetY | pyboof/geo.py:129-130 | set_y changes y and keeps x, as get_x, get_y and get_tuple then report |
| Geometry.Point2D.SetAsWritten | pyboof/geo.py:95-106 | set as written: a Point2D is copied and then the call raises; a tuple sets x and y; a tuple shorter than two raises IndexError after setting what it has; anything else raises |
| Geometry.SetFromPointRaises | pyboof/geo.py:95-106 | copying point (1, 2) into a point with set as written raises, although the coordinates were copied |
| Geometry.Point2D.Set | pyboof/geo.py:95-106 | corrected set: a Point2D or a tuple of two or more coordinates is copied and the call succeeds; the other cases behave as written |
| Geometry.Quadrilateral2D.constructor | pyboof/geo.py:138-153 | the vertexes are stored as given, not copied |
| Geometry.Quadrilateral2D.GetVertexes | pyboof/geo.py:178-183 | get_vertexes is (get_a(), get_b(), get_c(), get_d()) |
| Geometry.Quadrilateral2D.GetA | pyboof/geo.py:188-189 | get_a returns vertex a itself, not a copy; `get_vertexes` and `get_tuple_tuple` are stated through it |
| Geometry.Quadrilateral2D.GetB | pyboof/geo.py:191-192 | get_b returns vertex b itself, not a copy; `get_vertexes` and `get_tuple_tuple` are stated through it |
| Geometry.Quadrilateral2D.GetC | pyboof/geo.py:194-195 | get_c returns vertex c itself, not a copy; `get_vertexes` and `get_tuple_tuple` are stated through it |
| Geometry.Quadrilateral2D.GetD | pyboof/geo.py:197-198 | get_d returns vertex d itself, not a copy; `get_vertexes` and `get_tuple_tuple` are stated through it |
| Geometry.Quadrilateral2D.GetTupleTuple | pyboof/geo.py:185-186 | get_tuple_tuple holds each vertex's get_tuple, in a, b, c, d order |
| Geometry.Quadrilateral2D.Set | pyboof/geo.py:163-176 | with the corrected Point2D.set, copying a quadrilateral succeeds and reproduces its four coordinate pairs; anything else raises |
| Geometry.Quadrilateral2D.SetAsWritten | pyboof/geo.py:163-168 | as written, copying a quadrilateral copies vertex a and then raises |

## Left out

- The Java side (`PyBoofEntryPoint.mmap`) is not visible. Its `read_List_*` calls are modelled as a ghost log of the region it sees, and its `write_List_*` calls as an arbitrary reply per `num_read` (`RemoteList`). What ends up in `java_list` is not modelled.
- Transfer.ReceiveList: it requires that each reply fits the region (`RemoteFits`) and that a reply with the right tag counts at least one element (`Progress`). With a count of 0 the Python loop never ends, and a reply larger than the region cannot be written into it.
- Transfer.SendList: it requires `SendTerminates`, which holds when the list is empty, longer than 2^32 - 1, shorter than the 6-byte header (the first `mm.write` raises ValueError), or when `max_elements >= 1`. For a non-empty list and a region of 6 to 115 bytes for points (6 to 131 for pairs), `max_elements` is 0 or negative, every round writes only the header, and the Python loop never ends.
- The region's length is taken as `pyboof.mmap_size`. The two are set together outside `pyboof/geo.py`.
- The numeric values of `pyboof.MmapType` are defined outside `pyboof/geo.py`. They are a parameter (`Geo.MmapType`).
- Doubles are opaque 64-bit patterns. IEEE-754 arithmetic, `float()` conversions of non-float coordinates and `Point2D.distance` are not modelled.
- Points sent by `mmap_list_python_to_Point2DF64` are pairs. A tuple of another length, which makes `struct.pack('>2d', *p)` raise, cannot be expressed.
- The `jg.is_instance_of` branches of `Point2D.set` and `Quadrilateral2D.set` take Java objects over py4j and are not modelled. A Python object is taken never to be a Java instance.
- `convert_to_boof`, the `create_java_point_*`, `tuple_to_Point2D_*` and other single-value py4j conversions of `pyboof/geo.py` are not modelled. Each is a single call into the Java side.
- Geometry.Quadrilateral2D.Set: the resulting coordinates are stated only when the quadrilateral's own vertexes are distinct objects and none of them is a vertex of the argument that is still to be read (`CopiesCleanly`). Vertex objects can be shared between quadrilaterals: the default arguments of `Quadrilateral2D.__init__` are the same four `Point2D` objects for every instance. When vertex a of this quadrilateral is also vertex b of the argument, say, copying a overwrites the argument's b before it is read.
- Geometry.Quadrilateral2D.constructor: it takes four given points. The default arguments of `Quadrilateral2D.__init__` are four `Point2D()` objects evaluated once, when the class is defined, and shared by every instance built without arguments; that sharing is not modelled beyond the `CopiesCleanly` condition above.
- `Point2D` and `Quadrilateral2D` have no value equality in the code (no `__eq__`), so none is modelled.
- `examples/calibrate_pinhole_camera.py` is a demonstration script that calls the camera calibration, not the transfer. It is not part of this model.

## Findings

| source | as written | input that shows it | evidently intended | confidence | as-written member | corrected member |
|---|---|---|---|---|---|---|
| pyboof/geo.py:96-106 | the Point2D test is a separate `if`. After copying a Point2D, execution falls into the tuple `if`/`elif`/`else` chain and reaches `raise Exception("Unknown object type")` | `Point2D(0, 0).set(Point2D(1, 2))` copies (1, 2) and then raises. `Quadrilateral2D.set(q)` copies vertex a and raises, leaving b, c and d unchanged | `elif`: copying a Point2D succeeds, and `Quadrilateral2D.set` copies all four vertexes | not executed | Geometry.SetFromPointRaises | Geometry.Point2D.Set |
