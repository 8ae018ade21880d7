/** The sender: FileClient in client.cpp. It opens one TCP connection,
    streams a local file over it in reads of at most MaxBufferSize bytes and
    closes the connection. Sockets and the file system are replaced by the
    results they return: whether the socket could be created, whether the
    connection was accepted, the file's contents (None when it cannot be
    opened) and the index of the first call to send that returns -1. */
module Client {
  import opened Wire

  datatype ClientFault = UsageError | SocketFailed | ConnectFailed | OpenFailed | SendFailed

  /** Done is exit status 0; Failed(_) is EXIT_FAILURE. */
  datatype Status = Done | Failed(fault: ClientFault)

  /** What the sender does to its socket, in order. */
  datatype ClientAction = Connected | Sent(chunk: seq<Byte>) | SocketClosed

  /** The chunks a sender hands to send for a file: every read of
      MaxBufferSize bytes, and a last shorter read when one is non-empty. */
  function Chunks(file: seq<Byte>): (chunks: seq<seq<Byte>>)
    ensures chunks == [] <==> file == []
    ensures chunks != [] ==> chunks[0] == file[..if |file| < MaxBufferSize then |file| else MaxBufferSize]
    decreases |file|
  {
    if |file| == 0 then []
    else if |file| <= MaxBufferSize then [file]
    else [file[..MaxBufferSize]] + Chunks(file[MaxBufferSize..])
  }

  /** The chunks carry the file, in order, each non-empty and at most
      MaxBufferSize bytes, and all but the last exactly MaxBufferSize. */
  lemma {:induction false} ChunksCoverFile(file: seq<Byte>)
    ensures Flatten(Chunks(file)) == file
    ensures forall j :: 0 <= j < |Chunks(file)| ==> 1 <= |Chunks(file)[j]| <= MaxBufferSize
    ensures forall j :: 0 <= j < |Chunks(file)| - 1 ==> |Chunks(file)[j]| == MaxBufferSize
    decreases |file|
  {
    if |file| > MaxBufferSize {
      var rest := file[MaxBufferSize..];
      ChunksCoverFile(rest);
      assert file[..MaxBufferSize] + rest == file;
      assert Chunks(file)[1..] == Chunks(rest);
    }
  }

  /** The number of chunks is the file length divided by MaxBufferSize,
      rounded up: an empty file sends nothing, and a length that is a
      multiple of MaxBufferSize sends exactly length / MaxBufferSize chunks. */
  lemma {:induction false} ChunkCount(file: seq<Byte>)
    ensures |Chunks(file)| == (|file| + MaxBufferSize - 1) / MaxBufferSize
    ensures |file| % MaxBufferSize == 0 ==> |Chunks(file)| == |file| / MaxBufferSize
    decreases |file|
  {
    if |file| > MaxBufferSize {
      ChunkCount(file[MaxBufferSize..]);
    }
  }

  /** One pass of the sender's loop: at offset position the read takes count
      bytes; a non-empty read is the next chunk, and a short read leaves no
      chunk after it. */
  lemma SendStep(all: seq<seq<Byte>>, sent: seq<seq<Byte>>, bytes: seq<Byte>, position: nat, count: nat)
    requires position <= |bytes| && all == sent + Chunks(bytes[position..])
    requires count == if |bytes| - position < MaxBufferSize then |bytes| - position else MaxBufferSize
    ensures count == 0 ==> all == sent
    ensures 0 < count ==>
      all == (sent + [bytes[position..position + count]]) +
                       if count == MaxBufferSize then Chunks(bytes[position + count..]) else []
  {
    var rest := bytes[position..];
    var chunk := bytes[position..position + count];
    var after := bytes[position + count..];
    if count == 0 {
      assert rest == [];
      assert sent + [] == sent;
    } else if count < MaxBufferSize {
      assert rest == chunk;
      assert Chunks(rest) == [chunk];
      assert (sent + [chunk]) + [] == sent + [chunk];
    } else {
      assert rest[..count] == chunk && rest[count..] == after;
      if |rest| == MaxBufferSize {
        assert rest == chunk && after == [];
        assert Chunks(rest) == [chunk] && Chunks(after) == [];
        assert (sent + [chunk]) + [] == sent + [chunk];
      } else {
        assert Chunks(rest) == [chunk] + Chunks(after);
        assert sent + ([chunk] + Chunks(after)) == (sent + [chunk]) + Chunks(after);
      }
    }
  }

  /** A sent prefix of the chunks is the chunks up to its length. */
  lemma PrefixOfChunks(all: seq<seq<Byte>>, done: seq<seq<Byte>>, rest: seq<seq<Byte>>)
    requires all == done + rest
    ensures |done| <= |all| && all[..|done|] == done
  {
  }

  /** The sends a sender performs, as actions on its socket. */
  function SentActions(chunks: seq<seq<Byte>>): (actions: seq<ClientAction>)
    ensures |actions| == |chunks|
    ensures forall j :: 0 <= j < |chunks| ==> actions[j] == Sent(chunks[j])
  {
    seq(|chunks|, j requires 0 <= j < |chunks| => Sent(chunks[j]))
  }

  /** What send_file hands to send for a file it could open, and how it
      ends: every chunk in order, or the chunks up to and including the
      first send that fails. */
  function Sending(bytes: seq<Byte>, failAt: Option<nat>): (seq<seq<Byte>>, Status)
  {
    var chunks := Chunks(bytes);
    if failAt.Some? && failAt.value < |chunks| then (chunks[..failAt.value + 1], Failed(SendFailed))
    else (chunks, Done)
  }

  /** The first k chunks carry the first k * MaxBufferSize bytes of the
      file, or all of it when it is shorter. */
  lemma {:induction false} FlattenChunksPrefix(file: seq<Byte>, k: nat)
    requires k <= |Chunks(file)|
    ensures Flatten(Chunks(file)[..k]) ==
            file[..if k * MaxBufferSize < |file| then k * MaxBufferSize else |file|]
    decreases k
  {
    if k == 0 {
      assert Chunks(file)[..0] == [];
    } else if |file| <= MaxBufferSize {
      assert Chunks(file)[..k] == [file];
      assert Flatten([file]) == file + Flatten([]);
      assert file[..|file|] == file;
    } else {
      var head, rest := file[..MaxBufferSize], file[MaxBufferSize..];
      FlattenChunksPrefix(rest, k - 1);
      assert Chunks(file)[..k] == [head] + Chunks(rest)[..k - 1];
      assert ([head] + Chunks(rest)[..k - 1])[1..] == Chunks(rest)[..k - 1];
      var m := if (k - 1) * MaxBufferSize < |rest| then (k - 1) * MaxBufferSize else |rest|;
      assert head + rest[..m] == file[..MaxBufferSize + m];
    }
  }

  /** A completed send delivers the file exactly. A failed one has sent
      failAt + 1 chunks, which carry the first (failAt + 1) * MaxBufferSize
      bytes of the file, or all of it when the failing send was the last.
      Every chunk sent holds 1 to MaxBufferSize bytes. */
  lemma SendingShape(bytes: seq<Byte>, failAt: Option<nat>)
    ensures var (sent, status) := Sending(bytes, failAt);
      && (status == Done ==> Flatten(sent) == bytes)
      && (status == Failed(SendFailed) ==>
            failAt.Some? && |sent| == failAt.value + 1 &&
            var size := (failAt.value + 1) * MaxBufferSize;
            Flatten(sent) == bytes[..if size < |bytes| then size else |bytes|])
      && (forall j :: 0 <= j < |sent| ==> 1 <= |sent[j]| <= MaxBufferSize)
  {
    ChunksCoverFile(bytes);
    if failAt.Some? && failAt.value < |Chunks(bytes)| {
      FlattenChunksPrefix(bytes, failAt.value + 1);
    }
  }

  /** FileClient::send_file. The loop runs while the stream is good: each
      pass reads up to MaxBufferSize bytes, a read that comes up short sets
      eof (and fail), and only a non-empty read is sent. A file whose length
      is a multiple of MaxBufferSize therefore takes one more pass whose read
      is empty and is not sent. A send that returns -1 ends the process. */
  method SendFile(file: Option<seq<Byte>>, failAt: Option<nat>)
    returns (sent: seq<seq<Byte>>, status: Status)
    ensures file.None? ==> sent == [] && status == Failed(OpenFailed)
    ensures file.Some? ==> (sent, status) == Sending(file.value, failAt)
  {
    sent := [];
    if file.None? {
      return sent, Failed(OpenFailed);
    }
    var bytes := file.value;
    var position := 0;
    var good := true;
    assert bytes[0..] == bytes && Chunks(bytes) == [] + Chunks(bytes);
    while good
      invariant 0 <= position <= |bytes|
      invariant Chunks(bytes) == sent + if good then Chunks(bytes[position..]) else []
      invariant failAt.Some? ==> |sent| <= failAt.value
      decreases |bytes| - position, good
    {
      var count := if |bytes| - position < MaxBufferSize then |bytes| - position else MaxBufferSize;
      SendStep(Chunks(bytes), sent, bytes, position, count);
      var buffer := bytes[position..position + count];
      position := position + count;
      good := count == MaxBufferSize;
      if count > 0 {
        if failAt == Some(|sent|) {
          sent := sent + [buffer];
          PrefixOfChunks(Chunks(bytes), sent, if good then Chunks(bytes[position..]) else []);
          return sent, Failed(SendFailed);
        }
        sent := sent + [buffer];
      }
    }
    assert sent + [] == sent;
    status := Done;
  }

  /** The facts FileClient::connect_to_server establishes about one run:
      the order of what happens on the socket, and the exit status. */
  ghost predicate SessionOutcome(socketOk: bool, connectOk: bool, file: Option<seq<Byte>>,
                                 failAt: Option<nat>, trace: seq<ClientAction>, status: Status)
  {
    if !socketOk then trace == [] && status == Failed(SocketFailed)
    else if !connectOk then trace == [SocketClosed] && status == Failed(ConnectFailed)
    else if file.None? then trace == [Connected] && status == Failed(OpenFailed)
    else
      var (sent, result) := Sending(file.value, failAt);
      status == result &&
      trace == [Connected] + SentActions(sent) + (if result == Done then [SocketClosed] else [])
  }

  /** FileClient::connect_to_server: a failed connect closes the socket and
      exits before send_file; the socket is closed after send_file returns,
      and a fatal error inside send_file exits without closing it. */
  method ConnectToServer(socketOk: bool, connectOk: bool, file: Option<seq<Byte>>, failAt: Option<nat>)
    returns (trace: seq<ClientAction>, status: Status)
    ensures SessionOutcome(socketOk, connectOk, file, failAt, trace, status)
  {
    trace := [];
    if !socketOk {
      return trace, Failed(SocketFailed);
    }
    if !connectOk {
      trace := trace + [SocketClosed];
      return trace, Failed(ConnectFailed);
    }
    trace := trace + [Connected];
    var sent;
    sent, status := SendFile(file, failAt);
    trace := trace + SentActions(sent);
    if status.Failed? {
      return;
    }
    trace := trace + [SocketClosed];
  }

  /** client.cpp main: anything but three arguments after the program name
      is a usage error; otherwise the run is connect_to_server's. The port
      string's conversion is not modelled; only its effect on the connect
      result, which is a parameter. */
  method ClientMain(argc: nat, socketOk: bool, connectOk: bool, file: Option<seq<Byte>>, failAt: Option<nat>)
    returns (trace: seq<ClientAction>, status: Status)
    ensures argc != 4 ==> trace == [] && status == Failed(UsageError)
    ensures argc == 4 ==> SessionOutcome(socketOk, connectOk, file, failAt, trace, status)
  {
    if argc != 4 {
      return [], Failed(UsageError);
    }
    trace, status := ConnectToServer(socketOk, connectOk, file, failAt);
  }
}
