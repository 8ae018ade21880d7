# File transfer over TCP: a Dafny model

The system is a pair of C++ programs. The client (`client.cpp`) connects to a server and streams one local file over the socket, reading and sending at most 1024 bytes at a time. The server (`server.cpp`) listens on a port and accepts connections one at a time. For each connection it:

- acknowledges the connection;
- writes everything it receives to `<directory>/<n>.file`, where `n` is a connection counter;
- checks the file against a 100 MiB limit;
- acknowledges again and closes the connection.

The server shuts down after 30 seconds without a new connection.

The model keeps the sequential logic and replaces the operating system by the results its calls return:

- The file is a `seq<bv8>`, or `None` when it cannot be opened.
- Each `send` either succeeds or returns -1; `failAt` is the index of the first send that fails.
- Each accepted connection's `recv` calls are a list of results: data of 1 to 1024 bytes, `Closed` (0) or `Error` (-1).
- Each pass of the accept loop is one `select`/`accept` event: a timeout, a failed accept, or an accepted connection with its `recv` results.
- The output directory is a map from file name to contents.

Modules:

- `Wire` (wire.dfy): the byte type, the 1024-byte buffer size and the concatenation of chunks.
- `Decimal` (decimal.dfy): `std::to_string` of the unsigned counter, with its inverse.
- `Client` (client.dfy): the sender's loop over `file_stream.good()`, with `connect_to_server` and `main`.
- `Receive` (receive.dfy): what one connection delivers, and the verdict `handle_connection` reaches on it.
- `Server` (server.dfy): class `FileServer` with fields `connection_count`, the output directory and a log of observable actions. Its methods model `send_ack`, `handle_connection` and `start_server` (split into its per-connection body, its accept loop and its setup). `ServerMain` models `main`.
  - Each loop method is proved against a specification function: `Plan` for the accept loop, and `Payload` and `SessionVerdict` for the receive loop.
  - `StoreAll` and `RunTrace` give the directory and the log after a run.
- `Transfer` (transfer.dfy): the two programs together.

`connection_count` is an `unsigned int`, so it counts modulo 2^32. The port is atoi's value converted to `unsigned short`, so it is taken modulo 65536, and 0 is rejected.

A run whose events, or whose current connection's `recv` results, run out before the process ends has the outcome `StillListening` or `StillReceiving`: the model then describes a prefix of a run.

## Model

| member | source | states |
|---|---|---|
| Decimal.NatToString | server.cpp:119 | `std::to_string` of the counter: never empty, and its last character is the counter's last decimal digit |
| Decimal.NatToStringShape | server.cpp:119 | the counter's numeral consists of decimal digits only; it has a leading zero only for 0, and is one digit exactly for values below 10 |
| Decimal.ValueOfNatToString | server.cpp:119 | reading the numeral back as a decimal number gives the counter |
| Decimal.NatToStringInjective | server.cpp:119 | different counters give different numerals |
| Receive.RecvReturn | server.cpp:140 | recv's return value is positive exactly for data and -1 exactly for an error |
| Receive.Payload | server.cpp:140-142 | the bytes written to the file: at most 1024 per recv call |
| Receive.SessionVerdict | server.cpp:140-153 | a session completes only when the stream closed cleanly with at most MAX_FILE_SIZE bytes written |
| Receive.ReceiveStep | server.cpp:140-142 | one recv: data is appended before whatever follows; any other result ends the stream there, as a clean close or as a failure |
| Receive.PayloadUpToEnd | server.cpp:140-147 | for any cutting of the stream into recv results, the bytes written are the in-order concatenation of every data result before the first close or error, and nothing after it; that result decides whether the stream closed or failed |
| Receive.SizeGuard | server.cpp:144-153 | after a clean close, the session completes exactly when at most MAX_FILE_SIZE bytes were written, so exactly 100 MiB passes; a recv error fails the session whatever the size |
| Client.Chunks | client.cpp:57-66 | the chunks handed to send: none exactly for an empty file, and the first is the file's first 1024 bytes, or the whole file if it is shorter |
| Client.ChunksCoverFile | client.cpp:57-67 | the chunks handed to send concatenate to the file; each holds 1 to 1024 bytes, and all but the last hold exactly 1024 |
| Client.ChunkCount | client.cpp:58-61 | the number of sends is the file length divided by 1024, rounded up: an empty file sends nothing, and a length that is a multiple of 1024 sends length/1024 chunks (the last, empty read is not sent) |
| Client.FlattenChunksPrefix | client.cpp:58-66 | the first k chunks carry the first k·1024 bytes of the file, or the whole file if it is shorter |
| Client.SendStep | client.cpp:58-61 | one pass of the loop: a non-empty read is the next chunk, an empty read sends nothing, and a read shorter than 1024 bytes leaves no chunk after it |
| Client.SendingShape | client.cpp:58-67 | on success the chunks sent reassemble the file; when send fails, exactly failAt+1 chunks were handed to send and they carry the file's first (failAt+1)·1024 bytes; every chunk holds 1 to 1024 bytes |
| Client.SendFile | client.cpp:50-71 | an unopenable file fails before any send; otherwise the loop sends the chunks in order and stops after the first send that returns -1 with a failure; with no failing send it sends every chunk and succeeds |
| Client.ConnectToServer | client.cpp:28-48 | socket failure exits with nothing done; connect failure closes the socket and exits without sending; otherwise the file is sent and the socket closed afterwards, except that a failure inside send_file exits with the socket open |
| Client.ClientMain | client.cpp:74-87 | an argument count other than 4 fails before any socket is created; otherwise the run is connect_to_server's |
| Server.Next | server.cpp:115 | `connection_count++` on an unsigned int: the result is below 2^32, and it is the counter plus one except that 2^32-1 wraps to 0 |
| Server.AdvanceClosedForm | server.cpp:115 | after n successful accepts the counter is (count + n) mod 2^32 |
| Server.AdvanceNoWrap | server.cpp:115 | below 2^32 the counter rises by exactly one per accepted connection |
| Server.CounterWraps | server.cpp:115 | 2^32 accepts later the counter is back where it was |
| Server.ArtifactName | server.cpp:119 | the file name is the directory, a slash, the counter's numeral and `.file`, so its length is the directory's plus the numeral's plus 6 |
| Server.ArtifactNamesDistinct | server.cpp:119 | two counter values give the same file name only when they are equal |
| Server.StoredFile | server.cpp:115-124 | while the counter does not wrap, the file of the k-th connection after the counter's start value c is named after c+k+1 (after k+1 on a fresh server) and holds exactly what that connection delivered; no later session overwrites it |
| Server.StoreAllLast | server.cpp:115-121 | while the counter does not wrap, the last connection's file is named after the start value plus the number of connections, and holds what it delivered |
| Server.StoredOther | server.cpp:119-121 | a file whose name no session of the run uses keeps its contents, and no file appears under such a name |
| Server.SessionAck | server.cpp:117-129 | within one session, "ACK File received successfully" is sent only to that connection, and exactly when handle_connection returned |
| Server.ReceivedAckIffCompleted | server.cpp:124-127 | over a whole run, a connection receives the second acknowledgement exactly when its session completed |
| Server.Conclude | server.cpp:144-153 | a session that does not return ends the run in a failure exit (or still in recv), never in the idle shutdown |
| Server.Plan | server.cpp:92-131 | the connections the accept loop serves and how it ends: a fatal end is always a session's failure, and a run that ends neither by timeout nor still waiting in select has served a connection |
| Server.PlanStep | server.cpp:103-130 | one pass of the accept loop: a timeout ends the run with no connection; a failed accept changes nothing; a completed session is followed by the rest of the run; any other session is the last one |
| Server.PlanLength | server.cpp:92-131 | a run serves at most one connection per event |
| Server.PlanFailure | server.cpp:108-130 | every served connection but the last completed its session; a run that ends otherwise than by timeout or idle waiting ends the way its last session did |
| Server.PlanQuiet | server.cpp:92-131 | the run ends by timeout, or is still waiting in select, exactly when every session it served completed |
| Server.QuietPrefix | server.cpp:108-113 | a stretch of failed accepts and completed sessions only puts its connections, in order, before the rest of the run |
| Server.PlanAt | server.cpp:103-106 | the loop stops at the first timeout (with no connection after it), or at the first session that does not complete (which is then the last connection), or runs out of events still listening |
| Server.FileServer.constructor | server.cpp:19-20 | the server starts with the given port and directory and a zero counter |
| Server.FileServer.SendAck | server.cpp:65-67 | an acknowledgement goes to the current connection and changes nothing else |
| Server.FileServer.HandleConnection | server.cpp:136-154 | the file gets exactly the data recv delivered before its first close or error, in order; the verdict is a recv failure, a size failure, completion or still receiving, as SessionVerdict says |
| Server.FileServer.ServeConnection | server.cpp:115-129 | per connection: the counter goes up by one, the connection is acknowledged, its file is created and receives the connection's data, and only if handle_connection returns are the file closed, the second ack sent and the client socket closed |
| Server.FileServer.AcceptLoop | server.cpp:92-133 | the counter, the directory and the log after the loop are those of the connections Plan selects, in order; a timeout closes the listening socket and touches nothing else |
| Server.FileServer.StartServer | server.cpp:38-133 | get_server_ip's two failures (no UDP socket, no connection to 8.8.8.8:53) and a listening-socket failure exit with nothing done; a bind failure closes the listening socket and exits; otherwise the run is the accept loop's |
| Server.ServerMain | server.cpp:157-174 | an argument count other than 3, or a port that converts to 0, fails before any server exists; otherwise a fresh server with a zero counter runs start_server, including its setup failures, and its counter, directory and log are those of the run |
| Server.PortOf | server.cpp:163 | atoi's value stored in an unsigned short: below 65536, equal to it when it is already in range, and congruent to it modulo 65536 |
| Transfer.FileArrives | server.cpp:136-153 | when a finished sender's close arrives as a clean end of stream (recv returns 0), then whatever way the network cuts the stream into recv results, the receiver stores the sender's file byte for byte; the session then completes exactly when the file is at most 100 MiB |
| Transfer.ResetEndsRun | server.cpp:140-147 | when the sender's close arrives as a reset instead (recv returns -1 after the data), the file holds the data received before it and the run ends there with EXIT_FAILURE, whatever would have come after |
| Transfer.UnsplitDelivery | client.cpp:57-66 | the sender's chunks fit the receiver's recv buffer, and delivered one per recv they are stored as the file |
| Transfer.TwoSessionsThenTimeout | server.cpp:92-106 | two completed sessions and then a timeout: the run serves both and shuts down cleanly, whatever would have come later |
| Transfer.TwoSessionsStored | server.cpp:115-121 | on a fresh server, the first two connections' files are `<dir>/1.file` and `<dir>/2.file` with what each delivered, and other files are untouched |
| Transfer.TwoSenders | server.cpp:92-133 | two senders that finish sending files of at most 100 MiB each, each stream cut by the network into any recv results and ended by a clean close (recv returns 0), then a timeout: the server stores each sender's file byte for byte under `1.file` and `2.file`, acknowledges both, and shuts down cleanly |

## Left out

- The address `get_server_ip` (server.cpp:38-63) finds: it is only printed. Its two fatal exits are modelled as the `AddressProbe` parameter of `StartServer`: the UDP socket cannot be created (server.cpp:40-43), or its connect to 8.8.8.8 port 53 fails (server.cpp:50-54), for example on a host with no route. The closing of that UDP socket is not recorded in the log.
- Signal handling (server.cpp:21-22, 32-36): SIGQUIT and SIGTERM end the process asynchronously, which has no place in a sequential model.
- A `select` result of -1: what `FD_ISSET` reports after a failed `select` is unspecified, so no event models it.
- The 30-second wait: it is the `SelectTimeout` event, not time.
- The `timed_out` field: it is written and never read.
- The result of `listen`: the source does not check it, so it cannot fail here.
- Failure to open or to write the output file: the source never checks the stream. The model assumes the open and every `write` (server.cpp:141) succeed, so the file always holds every byte received. In the source, a failed open, or a failed write on a full disk or an I/O error, sets the stream's error state: later writes are discarded and `tellp` (server.cpp:150) returns -1, which passes the size check. The session then completes and "ACK File received successfully" is sent for a short or missing file.
- Output buffering: the model's file holds every byte as soon as it is written. On a fatal exit the source skips the stream's close, so bytes still buffered may never reach the disk.
- Short writes by `send`: the client checks only for -1, so each send either delivers its whole chunk or fails. The server ignores the results of its acknowledgement sends, and the model records each acknowledgement as sent.
- Read errors on the input file other than end of file: the file is its contents, and reading it never fails midway.
- `atoi` parsing: the server's port argument is given as atoi's result. The client's address and port are not modelled beyond their effect on `connect`, which is a parameter.
- Console output on `std::cout` and `std::cerr`.
- `FileClient` is not a class here: its three fields are set once by the constructor and never updated, so they are parameters of the client's methods.
- Server.StoredFile: proved only while the counter's start value plus the number of connections is below 2^32; after 2^32 connections the names repeat (Server.CounterWraps), and a later session overwrites an earlier file.
- Server.StoredOther: proved under the same no-wrap bound as Server.StoredFile.
- Server.FileServer.SendAck: the model assumes that no acknowledgement send ends the run. `send_ack` (server.cpp:65-67) calls `send` without `MSG_NOSIGNAL`, and only SIGQUIT and SIGTERM have handlers (server.cpp:21-22). So a send to a peer that has reset the connection raises SIGPIPE, which ends the server. The client never reads the acknowledgements and closes right after its last send (client.cpp:46-47), so the send of "ACK File received successfully" (server.cpp:127) can meet a reset connection. Server.FileServer.ServeConnection, Server.FileServer.AcceptLoop and Transfer.TwoSenders inherit this assumption: in the model the run always goes on to the next event.
- Transfer.FileArrives / Transfer.TwoSenders: both assume that the sender's close reaches the receiver as a clean end of stream. If "ACK Connection established" is still unread in the client's receive buffer when the client closes, its TCP stack sends a reset instead of a FIN (RFC 2525, section 2.17). Bytes the client has not yet transmitted are then lost, recv returns -1, and the server exits with EXIT_FAILURE (server.cpp:144-147). Transfer.ResetEndsRun states what the model does in that case. When the reset occurs depends on timing, which the model does not capture.
