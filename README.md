# Chat relay server: framing, client registry, broadcast and sessions

This project models the core of a small TCP chat relay written in C++ (`src/server.cpp`).
Clients connect and send their display name as the first frame. Every further message they
send is broadcast to all connected clients, tagged with the sender's name. The model covers:

- **Framing** (`wire.dfy`, `transport.dfy`). A frame is a 4-byte big-endian unsigned length
  followed by that many payload bytes. `send_all` and `recv_all` loop over partial
  `send`/`recv` calls. `send_message` and `recv_message` move one frame. A socket is a value:
  - the bytes the peer has sent and the server has not read yet;
  - the bytes the server has written;
  - the successive answers the operating system gives to `send`/`recv`.

  An answer of 0 or less is an error. A positive answer moves at most what was asked for.
  The loop methods are proved against tail-recursive functions that describe them.
- **Announcement texts** (`protocol.dfy`). These are the bytes the server puts on the wire:
  - the `"[" + from + "] " + msg` line;
  - the reserved `"__quit__"` message;
  - the `"anonymous"` default name;
  - the UTF-8 join and leave announcements sent under the tag `"Server"`.
- **Client registry** (`peers.dfy`, `registry.dfy`). The global `clients` vector is a
  `Registry` class. Besides the vector, it keeps a log of every `close_socket` call and a log
  of every send a broadcast makes. Its methods are:
  - `Accept`: append at accept;
  - `Remove`: erase by socket through `remove_if`;
  - `Rename`: assign `client->name` through the shared record;
  - `Broadcast`: one send per entry in order, erasing in place every entry whose send fails
    and closing its socket;
  - `Shutdown`: close every socket, then clear.

  In the source, insertion, erasure, broadcast and the final clear run under `clients_mutex`.
  The rename (line 157) and `close_socket` in `handle_client` (lines 149 and 177) take no lock.
  Each operation is one step here.
- **Sessions** (`session.dfy`, `guarantees.dfy`). `handle_client` is a method on the registry.
  It reads the name frame, broadcasts the join announcement and runs the message loop. It
  then closes the socket, erases the entry and broadcasts the leave announcement.
  - The value of `running` at each loop test is an input sequence.
  - Which sockets each broadcast fails to reach is also an input sequence.
  - A `std::bad_alloc` from `out.resize(len)` is modelled as an announced length above an
    allocation bound `maxAlloc`. A receive that exceeds it "throws". The `catch (...)` then
    sends control to the cleanup.

Four behaviours of the code are worth knowing. The model captures each of them and a lemma
states each one:

- A broadcast goes to every entry, the sender included. The new client also receives its own
  join announcement.
- A message of 2^32 bytes or more is announced with its length modulo 2^32. Only that many
  leading bytes are sent.
- If the join announcement fails to reach the new client itself, that broadcast closes the
  client's socket. The handler's cleanup later closes the same socket again
  (`JoinFailureClosesTwice`).
- An exception during the name receive skips the join announcement. It still leads to the
  leave announcement, with an empty name (`SessionSays`).

Two further facts about the code:

- Accept stores a new entry with an empty name (lines 251-255). The name is assigned only at
  line 157 (`Relay.Registry.Accept`).
- Shutdown (lines 263-268) closes every socket and clears the vector. It broadcasts no notice
  and waits for no handler thread (`Relay.Registry.Shutdown`).

## Model

| member | source | states |
|---|---|---|
| `Wire.DecodeEncodeLength` | src/server.cpp:91-92 | `ntohl` recovers every length below 2^32 that `htonl` encoded as four big-endian bytes |
| `Wire.EncodeDecodeLength` | src/server.cpp:105-108 | every 4-byte header is the big-endian encoding of the length it decodes to |
| `Wire.EncodeLength` | src/server.cpp:91-92 | the header `htonl` produces for a length below 2^32 is always four bytes |
| `Wire.DecodeLength` | src/server.cpp:105-108 | every four-byte header decodes to a length below 2^32 |
| `Wire.Announced` | src/server.cpp:91 | the `uint32_t` cast keeps a prefix of the message shorter than 2^32 bytes; that prefix is the whole message below 2^32 and the length modulo 2^32 above |
| `Wire.Frame` | src/server.cpp:89-101 | a frame is the 4-byte header encoding the payload length followed by exactly the payload, which is empty for a zero length |
| `Wire.FrameThen` | src/server.cpp:103-118 | a frame followed by other bytes splits into its header and its payload followed by those bytes |
| `Wire.ParseFrame` | src/server.cpp:103-118 | reading one frame fails exactly when the bytes end before the header or before the announced payload; otherwise the payload has the announced length |
| `Wire.ParseFrameOfFrame` | src/server.cpp:89-118 | a frame followed by anything parses back to its payload, the empty one included, and leaves the rest |
| `Wire.FrameOfParseFrame` | src/server.cpp:103-118 | whatever parses is the frame of its payload followed by the rest |
| `Transport.SendCall` | src/server.cpp:60-62 | one `send` accepts at most what was asked; the accepted bytes are appended to what was written before |
| `Transport.RecvCall` | src/server.cpp:77-79 | one `recv` hands over at most what was asked and what the peer sent, taken from the front of the unread bytes; a failing call hands over nothing |
| `Transport.SendAllFrom` | src/server.cpp:54-69 | `send_all` returns true exactly when the counter reaches the length; the counter never decreases nor exceeds the length; exactly the counted bytes are written; a failing call ends it with false |
| `Transport.RecvAllFrom` | src/server.cpp:71-86 | `recv_all` returns true exactly when the length has arrived; what it receives is a prefix of the unread bytes, and the rest stays unread; a failing call ends it with false |
| `Transport.SendAll` | src/server.cpp:54-69 | the loop returns true exactly when everything was sent, and has written exactly the bytes it counted |
| `Transport.RecvAll` | src/server.cpp:71-86 | the loop returns true exactly when `len` bytes arrived, and those bytes came off the front of the unread input |
| `Transport.SendAllSucceeds` | src/server.cpp:54-69 | when every call is answered positively, `send_all` returns true |
| `Transport.RecvAllSucceeds` | src/server.cpp:71-86 | when every call is answered positively and the peer sent enough, `recv_all` returns exactly the next `len` bytes |
| `Transport.SendMessageSpec` | src/server.cpp:89-101 | on success exactly the frame of the length-cast message has been written; on failure only a proper prefix of that frame; nothing is read |
| `Transport.SendMessage` | src/server.cpp:89-101 | `send_message` sends the header, then the payload only when the length is non-zero, as `SendMessageSpec` describes |
| `Transport.RecvMessageSpec` | src/server.cpp:103-118 | a returned message is the frame at the front of the input and no larger than the allocation bound; a throw means that the header announced more than the bound; nothing is written |
| `Transport.RecvMessage` | src/server.cpp:103-118 | `recv_message` reads the header; a zero length yields the empty message without reading more; otherwise it resizes, which may throw, and reads the payload |
| `Transport.SendMessageSucceeds` | src/server.cpp:89-101 | with enough positive answers `send_message` returns true |
| `Transport.RecvMessageOfFrame` | src/server.cpp:103-118 | when a frame is at the front of the input, `recv_message` returns exactly its payload (the empty one too) and leaves the rest unread |
| `Transport.HeaderArrives` | src/server.cpp:105-108 | the four header bytes arrive and announce the payload length |
| `Transport.SendThenRecv` | src/server.cpp:89-118 | what a successful `send_message(msg)` writes is read back by `recv_message` as exactly `msg` when it is shorter than 2^32 bytes, and as its length-cast prefix otherwise |
| `Protocol.QuitIsAscii` | src/server.cpp:166 | the quit message is the ASCII text `__quit__` |
| `Protocol.AnonymousIsAscii` | src/server.cpp:157 | the default name is the ASCII text `anonymous` |
| `Protocol.ServerIsAscii` | src/server.cpp:160 | the announcement tag is the ASCII text `Server` |
| `Protocol.Line` | src/server.cpp:122 | the broadcast line is `[`, the tag, `] `, then the message, byte for byte, and three bytes longer than tag and message together |
| `Protocol.JoinText` | src/server.cpp:160 | the join announcement starts with the fixed head, then carries the name, then the fixed join tail |
| `Protocol.LeaveText` | src/server.cpp:185 | the leave announcement starts with the fixed head, then carries the name, then the fixed leave tail |
| `Protocol.DisplayName` | src/server.cpp:157 | an empty name frame becomes `anonymous`, and any other frame is the name itself; a name is never empty |
| `Protocol.ParseLine` | src/server.cpp:122 | a line that parses is `"[" + tag + "] " + msg` for a tag free of `]` |
| `Protocol.ParseLineOfLine` | src/server.cpp:122 | the broadcast line gives back its tag and message exactly when the tag holds no `]` |
| `Protocol.AnnouncementsDistinct` | src/server.cpp:160 | join and leave announcements differ from each other and from `__quit__`, and each determines the name it carries |
| `Peers.SocksOf` | src/server.cpp:34-40 | the sockets of the entries, position by position |
| `Peers.Drop` | src/server.cpp:124-137 | an erasure pass never adds entries; which entries survive is stated by `Peers.DropMembers` |
| `Peers.Removed` | src/server.cpp:124-137 | the entries a pass removes are never more than there were; which ones is stated by `Peers.DropMembers` |
| `Peers.DropMembers` | src/server.cpp:124-137 | exactly the entries whose socket is not in the failed set survive an erasure pass, and exactly the others are removed |
| `Peers.DropAppend` | src/server.cpp:124-137 | an erasure pass over two runs of entries handles the first run, then the second |
| `Peers.RemovedAppend` | src/server.cpp:124-137 | the same split holds for the removed entries |
| `Peers.DropKeepsOrder` | src/server.cpp:124-137 | survivors and removed entries each keep their relative order |
| `Peers.DropPartition` | src/server.cpp:124-137 | every entry either survives or is removed, and none is lost or duplicated |
| `Peers.DropDrop` | src/server.cpp:151-154 | erasing one set, then another, is erasing their union |
| `Peers.DropNone` | src/server.cpp:180-183 | removing a socket no entry has changes nothing, e.g. after a failed broadcast already erased it |
| `Peers.DropUnique` | src/server.cpp:151-154 | erasing keeps sockets unique |
| `Peers.DropOneUnique` | src/server.cpp:180-183 | with unique sockets, removal by socket erases at most one entry |
| `Peers.RemovedUnique` | src/server.cpp:124-137 | the entries a broadcast erases have distinct sockets, all from the failed set |
| `Peers.DropCommutes` | src/server.cpp:124-137 | a broadcast's erasure and removal by socket may happen in either order with the same result |
| `Peers.Renamed` | src/server.cpp:157 | assigning the name changes only the entry with that socket, and keeps every socket in place |
| `Peers.RenamedUnique` | src/server.cpp:157 | renaming keeps sockets unique |
| `Relay.Attempts` | src/server.cpp:124-127 | a broadcast makes one send per entry, in registry order, each with the same line, succeeding exactly for the sockets outside the failed set |
| `Relay.Broadcasted` | src/server.cpp:120-138 | each entry is either kept or has its socket closed, once; the close and send logs only grow; exactly one send is made per entry |
| `Relay.DeliveredAreKept` | src/server.cpp:124-137 | the sockets a broadcast reached, in order, are exactly those of the entries it keeps |
| `Relay.Registry.constructor` | src/server.cpp:40 | the vector starts empty |
| `Relay.Registry.Accept` | src/server.cpp:251-256 | accepting appends one entry for the new socket, with an empty name, and changes nothing else |
| `Relay.Registry.Remove` | src/server.cpp:180-184 | removal by socket leaves the entries with other sockets, in order, erases at most one entry since sockets are unique, and changes nothing else |
| `Relay.Registry.Rename` | src/server.cpp:157 | the entry with that socket carries the new name; nothing else changes |
| `Relay.Registry.CloseSocket` | src/server.cpp:45-52 | closing is logged and changes nothing else |
| `Relay.Registry.Broadcast` | src/server.cpp:120-138 | the in-place loop leaves exactly the entries whose send succeeded, in order. It closes exactly the failed sockets, in order, and sends the tagged line once to each entry, in order |
| `Relay.Registry.Sweep` | src/server.cpp:124-137 | the iterator loop, erasing in place, does exactly what `BroadcastFrom` describes from the start of the vector |
| `Relay.BroadcastFrom` | src/server.cpp:124-137 | from any iterator position, the loop only adds to the close and send logs |
| `Relay.BroadcastFromFilters` | src/server.cpp:124-137 | from any iterator position, the loop keeps the entries before it and filters the rest. It closes the sockets of exactly the erased entries and sends once to every entry from there, all in order |
| `Relay.ErasedStep` | src/server.cpp:127-131 | erasing the entry under the iterator and not advancing continues the filter from the same position |
| `Relay.KeptStep` | src/server.cpp:133-136 | stepping over a reached entry continues the filter from the next position |
| `Relay.SweepErases` | src/server.cpp:127-131 | a failed send logs the attempt, closes the socket under the iterator, erases that entry, and the loop goes on from the same position |
| `Relay.SweepKeeps` | src/server.cpp:133-136 | a successful send logs the attempt and the loop goes on from the next position |
| `Relay.Registry.Shutdown` | src/server.cpp:263-267 | every registered socket is closed, in registry order, and the vector is left empty |
| `Relay.SocksAppend` | src/server.cpp:124-137 | the sockets of two runs of entries are those of the first, then the second |
| `Session.Apply` | src/server.cpp:140-186 | no registry operation of a session forgets a close or a send already made |
| `Session.Exec` | src/server.cpp:140-186 | the close and send logs only grow over a session's operations |
| `Session.ExecAppend` | src/server.cpp:140-186 | running two runs of operations is running the second from where the first left the registry |
| `Session.ExecStep` | src/server.cpp:140-186 | one operation, then the rest, from where it left the registry |
| `Session.RelayFrom` | src/server.cpp:163-169 | the loop never broadcasts `__quit__`; it ends on the quit message, on `running` reading false, on a failed receive or on a throw; it writes nothing; it stops at once, with nothing read, when `running` reads false |
| `Session.Receive` | src/server.cpp:145-169 | the name stays empty exactly when the name receive fails or throws, and then nothing is broadcast; `__quit__` is never broadcast |
| `Session.Relays` | src/server.cpp:168 | one broadcast per message, under the client's name, in arrival order |
| `Session.Teardown` | src/server.cpp:176-185 | the cleanup closes the socket, then erases its entry, then ends with the leave announcement under `Server` |
| `Session.ActionsShape` | src/server.cpp:140-186 | every session closes its socket and, right after, erases its entry; it ends with that erasure when the name receive failed, and with the leave announcement otherwise |
| `Session.HandleClient` | src/server.cpp:140-186 | `handle_client` leaves the registry as its operations, in the order the source performs them, leave it. It returns the name the shared record ends with and the socket |
| `Session.Converse` | src/server.cpp:163-169 | the loop broadcasts each message it relays, in order, and leaves the socket where the loop ends |
| `Session.RelayAll` | src/server.cpp:163-169 | the loop's broadcasts never add an entry, and the close and send logs only grow |
| `Session.Cleanup` | src/server.cpp:176-185 | the cleanup after the loop (or after a throwing name receive) leaves the registry as closing, erasing and the leave broadcast, in that order, leave it |
| `Session.RelayStep` | src/server.cpp:168 | broadcasting one message, then the others, from where it left the registry |
| `Session.ExecRelays` | src/server.cpp:163-169 | the loop's broadcasts, run as session operations, are those of the message loop |
| `Session.LoopStep` | src/server.cpp:164-168 | with `running` true, a message other than `__quit__` is broadcast and the loop goes on; anything else ends the loop there and broadcasts nothing more |
| `Session.NameLostActions` | src/server.cpp:146-155 | a failed name receive leads only to the close and the erasure |
| `Session.ThrewActions` | src/server.cpp:142-186 | a throwing name receive leads to the general cleanup with the name still empty |
| `Session.SessionShape` | src/server.cpp:157-185 | a named session renames, announces the join, relays, then closes, erases and announces the leave |
| `Session.TeardownSteps` | src/server.cpp:176-185 | the cleanup is the close, the erasure, then the leave announcement |
| `Guarantees.Frames` | src/server.cpp:89-101 | a client's stream is empty exactly when it has no messages, and otherwise starts with the frame of the first one |
| `Guarantees.FramesParse` | src/server.cpp:103-118 | the stream parses back one message at a time: the first frame is the first message, and the others' stream follows |
| `Guarantees.UntilQuit` | src/server.cpp:164-167 | the messages before the first `__quit__`: a prefix free of it, followed by it in the input when it occurs, and all of the input otherwise |
| `Guarantees.NothingLeftFails` | src/server.cpp:103-107 | with no bytes left to read, `recv_message` returns false |
| `Guarantees.RelayOfFrames` | src/server.cpp:163-169 | fed the frames of a list of messages over a healthy connection, the loop broadcasts exactly the messages before the first `__quit__`; it ends on the quit message if there is one, and on the lost connection otherwise |
| `Guarantees.ReceiveOfFrames` | src/server.cpp:144-169 | fed a name frame, then message frames, a session is named after the frame, or `anonymous` when it is empty, and relays exactly the messages before the first `__quit__` |
| `Guarantees.Said` | src/server.cpp:120-122 | no more messages are said than operations made |
| `Guarantees.SaidAppend` | src/server.cpp:140-186 | what two runs of operations say is what each says, in order |
| `Guarantees.SaidRelays` | src/server.cpp:168 | the loop's broadcasts say the relayed messages under the client's name and nothing under any other tag |
| `Guarantees.SaidTeardown` | src/server.cpp:185 | the cleanup says only the leave announcement, under `Server` |
| `Guarantees.SaidJoin` | src/server.cpp:157-160 | naming the client says only the join announcement, under `Server` |
| `Guarantees.SaidNamed` | src/server.cpp:157-185 | a named session says the join and the leave announcements under `Server`, and the relayed messages under its own name |
| `Guarantees.SessionSays` | src/server.cpp:140-186 | for a client not named `Server`: under its own name a session says exactly the messages it relayed, and nothing if the name receive failed or threw. Under `Server` it says nothing after a failed name receive, only the leave announcement after a thrown one (whose name `Session.Receive` leaves empty), and otherwise exactly one join and one leave announcement |
| `Guarantees.PrefixCount` | src/server.cpp:177 | a log that only grows never loses a close |
| `Guarantees.SendsKeepGone` | src/server.cpp:185 | broadcasts never bring back an erased socket |
| `Guarantees.SessionCleansUp` | src/server.cpp:176-185 | whatever the peer sent and whichever broadcasts failed, a session ends with no entry for its socket and that socket closed |
| `Guarantees.NameLostQuiet` | src/server.cpp:146-155 | after a failed name receive the session only closes the socket and erases its entry; nothing is sent |
| `Guarantees.FailedSendCloses` | src/server.cpp:127-131 | a broadcast whose send to a registered socket fails closes that socket |
| `Guarantees.JoinFailureClosesTwice` | src/server.cpp:160-177 | when the join announcement cannot reach the new client, the session closes its socket at least twice: once in the broadcast, once in the cleanup |
| `Guarantees.JoinedActions` | src/server.cpp:157-185 | a session past its name frame renames, joins, relays, then cleans up |
| `Guarantees.JoinedThen` | src/server.cpp:157-160 | the rename and the join broadcast come first, and the rest of the session runs from the registry they leave |
| `Guarantees.CloseAfter` | src/server.cpp:168-177 | the loop's broadcasts and the cleanup close the socket at least once more |

## Left out

- Threads, `clients_mutex`, `t.detach()` and interleaving between handlers are not modelled. Each registry operation is one step, and a session runs alone against the registry.
- `Session.HandleClient`: the race between cleanup and accept is not modelled. `close_socket` at line 177 runs before the lock at line 179 is taken, and likewise line 149 before line 150. In that gap a concurrent accept (lines 242-255) can be given the same descriptor and push a new entry. The erasure at lines 180-183 matches by socket, so it then removes the new client's entry as well.
- `Session.HandleClient`: the session keeps reading its own socket after one of its broadcasts has closed it. When the join at line 160 or a relay at line 168 fails to reach the session's own client, that broadcast closes the socket and erases the entry (lines 130-131). The next `recv_message` at line 164 then works on a closed descriptor and fails. In the model the peer's remaining bytes stay readable, so the loop may go on relaying messages that the source would not receive.
- The `std::atomic<bool> running` flag is an input sequence of the values read at each loop test. Nothing in the server ever sets it to false.
- `main` is not modelled beyond the registry operations it performs: socket setup, `bind`/`listen`/`accept`, `setsockopt`, Winsock start-up, port parsing with `std::stoi`, and logging to `std::cout`/`std::cerr` are I/O and platform glue.
- The accept loop is represented by `Relay.Registry.Accept` alone. A new socket must differ from every registered one. With sessions run one at a time, every registered socket is still open, and the operating system never hands out an open descriptor twice. The reuse race described above falls outside this requirement.
- `Transport.SendCall`: follows the POSIX branch (line 62). On Windows (line 60) the remaining length is cast to `int`, so a send of 2^31 bytes or more passes a wrong count there.
- `Transport.RecvCall`: follows the POSIX branch (line 79). The Windows branch (line 77) has the same `int` cast.
- `Transport.SendCall`: a failed send is modelled as a call that returns false. `::send` at line 62 passes no `MSG_NOSIGNAL`, and the server installs no `SIGPIPE` handler. On POSIX, a send to a peer that has reset the connection raises `SIGPIPE`, and by default that ends the whole process.
- `Relay.Registry.Broadcast`: a failed send closes and erases that client. On POSIX the source may instead be ended by `SIGPIPE` (see `Transport.SendCall` above).
- `htonl`/`ntohl` are foreign calls. The model states big-endian byte order directly.
- `std::bad_alloc` is the only exception modelled: an announced length above `maxAlloc` throws. Other exceptions from the standard library are left out.
- `Relay.Registry.Broadcast`: which sends fail is an input set of sockets, not the outcome of `send_message` on modelled `Socket` values. Broadcast and the framing codec are linked only through `Transport.SendMessageSpec`, not inside one model.
- `Transport.RecvMessage`: a failed payload receive returns `Failed`. The source leaves `out` resized and partly filled, but no caller reads `out` after a false return.
- `close_socket` is a log entry. What the operating system does with a descriptor closed twice, or reused, is not modelled.
- `Guarantees.SessionSays`: requires that the client's name is not `Server`. A client may take that name, and its messages then cannot be told apart from the server's announcements.
