/** What the receiver reads from one accepted connection, and the verdict
    FileServer::handle_connection in server.cpp reaches on it. The socket is
    replaced by the sequence of results its recv calls return. */
module Receive {
  import opened Wire

  /** MAX_FILE_SIZE: 100 MiB. */
  const MaxFileSize: nat := 100 * 1024 * 1024

  /** What one recv into the MaxBufferSize-byte buffer can deliver. */
  type Chunk = s: seq<Byte> | 1 <= |s| <= MaxBufferSize witness [0]

  /** One recv result: a positive byte count with the bytes, 0 (the peer
      closed the stream) or -1 (an error). */
  datatype RecvResult = Data(bytes: Chunk) | Closed | Error

  /** The value recv returns. */
  function RecvReturn(r: RecvResult): (n: int)
    ensures n > 0 <==> r.Data?
    ensures n == -1 <==> r.Error?
  {
    match r
    case Data(bytes) => |bytes|
    case Closed => 0
    case Error => -1
  }

  /** The bytes a connection delivers before its first result that is not
      data, in order. */
  function Payload(script: seq<RecvResult>): (bytes: seq<Byte>)
    ensures |bytes| <= |script| * MaxBufferSize
  {
    if script == [] || !script[0].Data? then [] else script[0].bytes + Payload(script[1..])
  }

  /** How the stream ends: closed, failed, or not yet (the results run out
      while recv is still waiting). */
  datatype StreamEnd = PeerClosed | RecvFailed | NotYet

  function End(script: seq<RecvResult>): StreamEnd
  {
    if script == [] then NotYet
    else match script[0]
      case Data(_) => End(script[1..])
      case Closed => PeerClosed
      case Error => RecvFailed
  }

  /** One recv result, read at position i: data adds its bytes in front
      of the rest; anything else ends the stream there. */
  lemma ReceiveStep(script: seq<RecvResult>, i: nat)
    requires i < |script|
    ensures script[i].Data? ==> Payload(script[i..]) == script[i].bytes + Payload(script[i + 1..])
    ensures script[i].Data? ==> End(script[i..]) == End(script[i + 1..])
    ensures !script[i].Data? ==> Payload(script[i..]) == []
    ensures script[i].Closed? ==> End(script[i..]) == PeerClosed
    ensures script[i].Error? ==> End(script[i..]) == RecvFailed
  {
    assert script[i..][0] == script[i] && script[i..][1..] == script[i + 1..];
  }

  datatype SessionFault = RecvError | TooLarge

  /** Completed: handle_connection returns normally. Failed: it ends the
      process with EXIT_FAILURE. Stalled: recv is still blocked. */
  datatype Verdict = Completed | Failed(fault: SessionFault) | Stalled

  /** The verdict of handle_connection: a recv error is fatal whatever was
      written; after a clean close the size guard compares the number of
      bytes written with MaxFileSize. */
  function SessionVerdict(script: seq<RecvResult>): (verdict: Verdict)
    ensures verdict == Completed ==> End(script) == PeerClosed && |Payload(script)| <= MaxFileSize
  {
    match End(script)
    case RecvFailed => Failed(RecvError)
    case NotYet => Stalled
    case PeerClosed => if |Payload(script)| > MaxFileSize then Failed(TooLarge) else Completed
  }

  /** The results a connection produces when the peer's stream arrives in
      the given segments. */
  function Deliver(segments: seq<Chunk>): (script: seq<RecvResult>)
    ensures |script| == |segments|
    ensures forall j :: 0 <= j < |segments| ==> script[j] == Data(segments[j])
  {
    seq(|segments|, j requires 0 <= j < |segments| => Data(segments[j]))
  }

  /** Everything received before the first result that is not data is
      stored, in order, and nothing after it; that result decides how the
      stream ended. */
  lemma {:induction false} PayloadUpToEnd(segments: seq<Chunk>, last: RecvResult, later: seq<RecvResult>)
    requires !last.Data?
    ensures Payload(Deliver(segments) + [last] + later) == Flatten(segments)
    ensures End(Deliver(segments) + [last] + later) == if last.Closed? then PeerClosed else RecvFailed
  {
    var script := Deliver(segments) + [last] + later;
    if segments != [] {
      assert script[1..] == Deliver(segments[1..]) + [last] + later;
      PayloadUpToEnd(segments[1..], last, later);
    } else {
      assert script[0] == last;
    }
  }

  /** The size guard runs only after a clean close, and a stream of exactly
      MaxFileSize bytes passes it; a recv error fails the session whatever
      its size, with the bytes before it already stored. */
  lemma SizeGuard(segments: seq<Chunk>, later: seq<RecvResult>)
    ensures SessionVerdict(Deliver(segments) + [Closed] + later) ==
            if |Flatten(segments)| <= MaxFileSize then Completed else Failed(TooLarge)
    ensures SessionVerdict(Deliver(segments) + [Error] + later) == Failed(RecvError)
  {
    PayloadUpToEnd(segments, Closed, later);
    PayloadUpToEnd(segments, Error, later);
  }
}
