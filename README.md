# QuickSet PTCR protocol and form-feed field table, in Dafny

This project models two pieces of the snark robotics library.

**The QuickSet PTCR pan-tilt protocol** is in `actuators/quickset/ptcr/protocol.cpp`.
A command packet is byte-stuffed into a 128-byte transmit buffer as STX, then its bytes from the header address up to (not including) the footer ETX, escaped, then the constant ETX.
The packet's own footer ETX is never escaped or copied. In the model the packet parameter `p` of `Escape` and `Send` is that range of bytes. The whole packet is under 64 bytes, so the range is too.
Each of the five reserved bytes (ACK, NAK, STX, ETX, ESC) becomes the pair ESC, b | 0x80.
The frame is written to the device with `::write` until every byte is taken.
The response is read one byte at a time into a 128-byte receive buffer until ETX arrives.
It is then unescaped into a 64-byte response buffer.
A `command_pending` marker guards the exchange.
Finally the response's command id, footer end marker and LRC are checked.
The name of the transport (`tcp:address:port` or a serial device path) is classified by splitting it on `:`.

The model has four modules:

- `PtcrFraming` (`ptcr_framing.dfy`) holds the pure encoder and decoder: `EscapeBody`, `Frame`, `UnescapeFrom` and `Decode`. Their properties include the round trip.
- `PtcrLink` (`ptcr_link.dfy`) is the byte stream. `::write`, `select` and `::read` replay scripted outcomes through the class `Link`. `Transmission` and `Listen` say what the write loop and the receive loop do with such a script.
- `PtcrSession` (`ptcr_session.dfy`) is the class `Session`. It has the escape table and the three buffers as arrays, `txsize` and `commandPending` as fields, and one method per member function of the C++ class. Each method is proved against the pure functions.
- `PtcrAddress` (`ptcr_address.dfy`) is the transport's choice between TCP and serial.

The reserved byte values are not part of this model. They are a `Controls` record whose `Valid()` says two things: the five values are pairwise distinct, and each is below 0x80. The codec depends on the second: without it, b | 0x80 could itself be reserved and & 0x7f would not undo it. The LRC check is a predicate parameter `lrcOk`. Where the response packet holds its command id and footer ETX is a `Shape` parameter.

**The form feed's field table** is in `web/feeds/frontend/js/model/FormFeed.js`. `populate_path_values` flattens a nested form configuration into `fields`, a table from paths to leaf values. `get_prefix` builds each path as `prefix/key`, or `prefix[key]` for a numeric key. Module `FormFeed` (`form_feed.dfy`) models the configuration as the datatype `Value`. The class `FormFeed` has a `fields` map. Its methods are proved to compute the function `Populate`. `Populate` is proved equal to storing a declaratively defined list of leaves (`Leaves`) in order. JavaScript's `isNaN(key)` is the parameter `numeric` (numeric = not NaN).

Where the source does not check a bound, the model makes the failure explicit instead of writing past the buffer:

- `receive_` never checks that `rxbuf_` still has room. A byte that arrives when all 128 cells are used is written past the buffer. A failed or closed read in that state writes nothing and still raises its usual exception, and the model keeps that.
- `unescape_` never checks that it stays inside `rxbuf_` or `response_`.

The model turns the out-of-bounds writes and reads into the errors `ReceiveOverrun` and `ResponseOverrun`. The C++ code raises no such exceptions: these cases are undefined behaviour there.

## Model

| member | source | states |
|---|---|---|
| PtcrSession.InitEscaped | actuators/quickset/ptcr/protocol.cpp:117-127 | the new 256-entry table is true at exactly the reserved byte values |
| PtcrSession.ReservedExactlyFive | actuators/quickset/ptcr/protocol.cpp:117-127 | exactly five of the 256 byte values are reserved (so 251 are not) |
| PtcrFraming.EscapeBody | actuators/quickset/ptcr/protocol.cpp:138-149 | each packet byte becomes one or two wire bytes |
| PtcrFraming.EscapeByte | actuators/quickset/ptcr/protocol.cpp:140-148 | a reserved byte becomes ESC and a byte that is not reserved and whose high bit cleared gives the original back; any other byte is sent as it is |
| PtcrFraming.EscapeBodyAppend | actuators/quickset/ptcr/protocol.cpp:138-149 | escaping works byte by byte: the escape of a concatenation is the concatenation of the escapes |
| PtcrFraming.EscapePrefix | actuators/quickset/ptcr/protocol.cpp:138-149 | the first n bytes escape to at most 2n wire bytes |
| PtcrFraming.EscapePrefixIsBody | actuators/quickset/ptcr/protocol.cpp:138-149 | escaping from the left, as the loop does, gives the escaped body of the prefix |
| PtcrFraming.EscapeBodyLength | actuators/quickset/ptcr/protocol.cpp:140-149 | the body is the payload length plus one byte per reserved byte |
| PtcrFraming.FrameLength | actuators/quickset/ptcr/protocol.cpp:131-151 | txsize_ is payload + reserved count + 2, so a packet under 64 bytes fits the 128-byte txbuf_ |
| PtcrFraming.EscapeBodyShape | actuators/quickset/ptcr/protocol.cpp:140-144 | a reserved value in the body is always ESC, followed by a byte that is not reserved |
| PtcrFraming.Frame | actuators/quickset/ptcr/protocol.cpp:134-151 | the frame is STX, the escaped body and ETX, between |p| + 2 and 2|p| + 2 bytes long |
| PtcrFraming.FrameEndsAtEtx | actuators/quickset/ptcr/protocol.cpp:134-150 | the only raw ETX of a command frame is its last byte |
| PtcrSession.Session.Escape | actuators/quickset/ptcr/protocol.cpp:131-152 | txbuf_ starts with Frame(packet) (STX, escaped bytes, ETX), the rest of the buffer is untouched, and txsize_ is the frame length |
| PtcrFraming.UnescapeFrom | actuators/quickset/ptcr/protocol.cpp:159-161 | a scan ends at an unescaped ETX inside the buffer and yields no more bytes than it consumed |
| PtcrFraming.Decode | actuators/quickset/ptcr/protocol.cpp:157-164 | rejected exactly when the first byte is neither ACK nor NAK; a decoded frame keeps that first byte and ends with ETX |
| PtcrFraming.DecodeShrinks | actuators/quickset/ptcr/protocol.cpp:159-164 | the decoded frame is never longer than the received bytes up to and including the ETX |
| PtcrFraming.UnescapeByte | actuators/quickset/ptcr/protocol.cpp:140-161 | an escaped byte unescapes to itself: setting and then clearing the high bit of a reserved b gives b |
| PtcrFraming.UnescapeEscaped | actuators/quickset/ptcr/protocol.cpp:159-161 | an escaped body followed by ETX unescapes to the original body, whatever follows the ETX |
| PtcrFraming.RoundTrip | actuators/quickset/ptcr/protocol.cpp:140-164 | ACK or NAK, an escaped body and ETX decode to that byte, the original body and ETX, for every body |
| PtcrFraming.EscapeBeforeEtxRunsOff | actuators/quickset/ptcr/protocol.cpp:159-161 | ESC right before the terminating ETX makes the decoder consume the ETX and run off the received bytes |
| PtcrFraming.EscapeBeforeEtxReadsStale | actuators/quickset/ptcr/protocol.cpp:159-161 | in that case the decoder puts the ETX in the response as data and copies stale buffer bytes up to the next ETX after it |
| PtcrFraming.EscapeTakesEtx | actuators/quickset/ptcr/protocol.cpp:159-161 | wherever ESC is followed by ETX, the scan keeps that ETX as data and does not stop at it |
| PtcrSession.Session.Unescape | actuators/quickset/ptcr/protocol.cpp:154-166 | rejects a buffer not led by ACK/NAK and writes nothing; otherwise the response buffer starts with Decode(rxbuf_) and keeps its other bytes, or the scan overran a buffer |
| PtcrSession.Overlay | actuators/quickset/ptcr/protocol.cpp:158-164 | the decoded frame overwrites the front of response_ and the rest stays as it was |
| PtcrLink.WriteReturn | actuators/quickset/ptcr/protocol.cpp:175 | a write of k > 0 bytes returns -1 or a count between 1 and k |
| PtcrLink.Remaining | actuators/quickset/ptcr/protocol.cpp:175 | each write call uses up at most one scripted outcome |
| PtcrLink.Link.Write | actuators/quickset/ptcr/protocol.cpp:175 | the device receives the accepted leading bytes and nothing on failure |
| PtcrLink.Transmission | actuators/quickset/ptcr/protocol.cpp:168-180 | the write loop never delivers more than was pending, nor uses more outcomes than scripted |
| PtcrLink.TransmissionOutcome | actuators/quickset/ptcr/protocol.cpp:172-179 | the loop succeeds exactly when every pending byte was taken, and a failure stops at the write that returned -1 |
| PtcrLink.TransmittingResumes | actuators/quickset/ptcr/protocol.cpp:172-179 | part way through, the loop finishes the transmission of the bytes not yet written |
| PtcrSession.Session.SendFrame | actuators/quickset/ptcr/protocol.cpp:168-180 | returns normally exactly when all txsize_ bytes were written; the device got txbuf_'s bytes in order, cut off at a failed write |
| PtcrLink.Link.Wait | actuators/quickset/ptcr/protocol.cpp:185 | the wait reports a readable descriptor or uses up one timeout |
| PtcrLink.Link.Read | actuators/quickset/ptcr/protocol.cpp:187 | a one-byte read returns -1, 0, or 1 and the byte |
| PtcrLink.Listen | actuators/quickset/ptcr/protocol.cpp:182-193 | the receive loop stores at most the room it has and uses only scripted events; a failed or closed read ends it whatever the room, and only a byte arriving with no room left is an overrun |
| PtcrLink.ListenStopsAtEtx | actuators/quickset/ptcr/protocol.cpp:189-190 | the loop returns true exactly when the byte just read is ETX, and no earlier stored byte is ETX |
| PtcrLink.ListeningResumes | actuators/quickset/ptcr/protocol.cpp:186-191 | part way through, the loop finishes the reception of the events still to come |
| PtcrLink.ListenFullThenFails | actuators/quickset/ptcr/protocol.cpp:185-189 | a device that fills the whole buffer without ETX and whose next read fails or ends the stream is reported as a connection failure or closure, with every byte stored |
| PtcrLink.ListenFrame | actuators/quickset/ptcr/protocol.cpp:186-191 | a device sending a frame whose only ETX is its last byte is received as exactly that frame |
| PtcrSession.Session.Receive | actuators/quickset/ptcr/protocol.cpp:182-193 | rxbuf_ starts with the bytes Listen stores and keeps its other bytes; the outcome is ETX seen, timeout, read failure, end of stream, or a byte arriving with the buffer full |
| PtcrSession.Reply | actuators/quickset/ptcr/protocol.cpp:96-103 | a response is returned only after ETX, a decoded frame and all three checks; a timeout or a first byte other than ACK/NAK is "no response"; a decoded frame that fits gives the response exactly when the three checks pass; ConnectionFailed, ConnectionClosed, ReceiveOverrun and ResponseOverrun each happen exactly for a read failure, an end of stream, a full receive buffer, and a scan that ran off or a frame over 64 bytes |
| PtcrSession.CoherentReadsFrame | actuators/quickset/ptcr/protocol.cpp:100-102 | when the decoded frame covers the id and footer offsets the three checks read the frame; when it is shorter they read bytes left from an earlier response |
| PtcrSession.EscapeBodyHasNoEtx | actuators/quickset/ptcr/protocol.cpp:140-144 | an escaped body never contains a raw ETX |
| PtcrSession.WellFormedReply | actuators/quickset/ptcr/protocol.cpp:97-103 | a device answering ACK/NAK, an escaped body and ETX yields that reply, laid over the old response, exactly when the checks pass, whatever stale bytes remain |
| PtcrSession.Session.constructor | actuators/quickset/ptcr/protocol.cpp:79-83 | a new session holds an escape table that marks exactly the reserved bytes, fresh 128-, 128- and 64-byte buffers, and no pending command |
| PtcrSession.Session.Send | actuators/quickset/ptcr/protocol.cpp:85-104 | throws and writes nothing while a command is pending; marks the command pending only after the frame is written; clears the mark when the receive loop returns normally and keeps it when it throws; returns Reply(...) |
| PtcrAddress.Split | actuators/quickset/ptcr/protocol.cpp:43 | a split has at least one field and no field contains ':' |
| PtcrAddress.JoinSplit | actuators/quickset/ptcr/protocol.cpp:43 | the fields joined by ':' give back the name |
| PtcrAddress.SplitJoin | actuators/quickset/ptcr/protocol.cpp:43 | fields without ':' are recovered by splitting their join |
| PtcrAddress.FirstField | actuators/quickset/ptcr/protocol.cpp:43-44 | the first field is the name up to its first ':' |
| PtcrAddress.FirstFieldTcp | actuators/quickset/ptcr/protocol.cpp:44 | the first field is "tcp" exactly when the name is "tcp" or starts with "tcp:" |
| PtcrAddress.Classify | actuators/quickset/ptcr/protocol.cpp:43-57 | error exactly for a "tcp" first field with other than 3 fields; TCP takes fields 2 and 3; serial takes the whole name |
| PtcrAddress.ClassifyTcp | actuators/quickset/ptcr/protocol.cpp:44-48 | tcp:address:port names that host and port |
| PtcrAddress.ClassifySerial | actuators/quickset/ptcr/protocol.cpp:55-57 | any other name is a serial device named by the whole string |
| FormFeed.GetPrefix | web/feeds/frontend/js/model/FormFeed.js:42-57 | with no prefix the path is the key; below a non-empty prefix it strictly extends the prefix, the key follows one separator, and it is one byte longer again for a numeric key |
| FormFeed.GetPrefixShape | web/feeds/frontend/js/model/FormFeed.js:42-57 | with no prefix the path is the key, numeric or not; otherwise prefix, '/', key, or prefix, '[', key, ']' for a numeric key |
| FormFeed.GetPrefixInjective | web/feeds/frontend/js/model/FormFeed.js:42-57 | under one prefix, different keys give different paths |
| FormFeed.BelowPrefix | web/feeds/frontend/js/model/FormFeed.js:44-51 | a path below a non-empty prefix starts with it and is longer |
| FormFeed.PopulateFrom | web/feeds/frontend/js/model/FormFeed.js:27-39 | visiting the properties keeps every existing path, and every path added or changed holds a primitive value |
| FormFeed.Populate | web/feeds/frontend/js/model/FormFeed.js:26-40 | a non-object leaves the table unchanged; otherwise paths are kept and every path added or changed holds a primitive value |
| FormFeed.Extracted | web/feeds/frontend/js/model/FormFeed.js:18-23 | an undefined, null or primitive configuration leaves the table unchanged; otherwise paths are kept and every path added or changed holds a primitive value |
| FormFeed.PopulateStoresLeaves | web/feeds/frontend/js/model/FormFeed.js:26-40 | flattening stores exactly the leaves, in visiting order, later over earlier |
| FormFeed.LeavesArePrimitive | web/feeds/frontend/js/model/FormFeed.js:30-36 | no object or null is stored itself, and every leaf path extends the prefix |
| FormFeed.StoreLast | web/feeds/frontend/js/model/FormFeed.js:36 | a path holds the value of the last leaf stored at it |
| FormFeed.StoreUntouched | web/feeds/frontend/js/model/FormFeed.js:36 | a path that no leaf has keeps its value, or stays absent |
| FormFeed.PopulateOnlyStoresLeaves | web/feeds/frontend/js/model/FormFeed.js:26-40 | the table only gains or overwrites entries; new paths are leaf paths holding primitive values |
| FormFeed.SharedPathLaterWins | web/feeds/frontend/js/model/FormFeed.js:31-36 | a key "b" inside "a" and a later top-level key "a/b" share the path "a/b", and the later value is kept |
| FormFeed.ExtractedHoldsLeaves | web/feeds/frontend/js/model/FormFeed.js:18-23 | an undefined or null configuration leaves the table empty; otherwise it holds only primitive values |
| FormFeed.FormFeed.PopulatePathValues | web/feeds/frontend/js/model/FormFeed.js:26-40 | the table becomes Populate(old table, elements, prefix) |
| FormFeed.FormFeed.ExtractFields | web/feeds/frontend/js/model/FormFeed.js:18-23 | the table is flattened from the configuration unless it is undefined or null |
| FormFeed.FormFeed.constructor | web/feeds/frontend/js/model/FormFeed.js:6-14 | a new feed's table is the flattened configuration |

## Left out

- The socket and serial plumbing are left out. This covers resolving and connecting the TCP socket, the serial port options, `fd()`, `close()` and the destructor (actuators/quickset/ptcr/protocol.cpp:47-53, 57-62, 66-68, 106, 199-201). These are operating-system I/O. `Link` replays scripted outcomes in their place.
- The one-second `select` timeout is left out. Its length is not modelled: a `Quiet` event is one wait that timed out.
- The packet layouts, the command catalogue and the LRC computation live in headers that are not part of this model. The response is a 64-byte sequence. `Shape` gives the offsets of its id and footer ETX, and `lrcOk` is the LRC check.
- The `std::cerr` diagnostic in `unescape_` and the text of exception messages are left out.
- PtcrSession.Session.Receive and PtcrSession.Session.Unescape: the source does not check the 128-byte receive buffer or the 64-byte response buffer. Where it writes or reads past them (undefined behaviour), the model stops with `RxOverrun` or `Overrun` instead. `RxOverrun` is only for a byte that arrives with the receive buffer full; a failed or closed read is reported as such. `send` turns these into `ReceiveOverrun` and `ResponseOverrun`.
- PtcrSession.Session.Escape: the static assertions on packet sizes (lines 89-90) become the precondition that the packet is under 64 bytes.
- PtcrSession.Session.Send: `send` returns a pointer into `response_`, which the next exchange overwrites. The model returns a copy of the response, so that aliasing is not captured.
- `escaped_` is one static table in the source. Each `Session` here holds its own copy built by `InitEscaped`.
- The split on ':' (`comma::split`) is not part of this model. It is assumed to split at every ':' and keep empty fields.
- A `Link` write outcome `Accepted(room)` takes at least one byte. A blocking write that returns 0 forever would make `send_` loop forever; the model does not cover that case.
- The `char` signedness of the C++ buffers is not modelled. Bytes are the values 0..255 that the escape table is indexed with, and `| 0x80` and `& 0x7f` act on those values.
- FormFeed: the order in which `for..in` visits keys (integer-like keys first, ascending) is taken as given by the order of `entries`.
- FormFeed.PopulateFrom, FormFeed.Populate, FormFeed.FormFeed.PopulatePathValues: `this.fields` is a JavaScript array used as a dictionary. It is modelled as a map, so the array's `length` and the order in which `init` lists the fields are left out. Two top-level keys are not plain entries on the array. Storing a non-numeric value at `length` throws a RangeError, and a numeric one truncates the table. Storing a primitive at `__proto__` is silently dropped.
- FormFeed.Populate, FormFeed.Extracted: a `for..in` over a top-level string configuration would enumerate its characters. The model treats every non-object configuration as having no properties.
- FormFeed: `console.log`, `init`, `load`, `onload_` and the jQuery form building are DOM and AJAX code and are left out.
