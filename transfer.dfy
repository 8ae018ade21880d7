/** The two programs together: what a sender that finishes puts on the
    connection, and what the receiver stores and answers for it. TCP is
    modelled as delivering the sent byte stream in order, cut into recv
    results of any sizes the receiver's buffer allows, and ended by the
    sender's close: a clean end of stream (recv returns 0), or a reset
    (recv returns -1) when the close finds an unread acknowledgement. */
module Transfer {
  import opened Wire
  import opened Receive
  import Client
  import Server

  /** The sender's chunks as recv results, when every send arrives as one
      recv. */
  function AsSegments(chunks: seq<seq<Byte>>): (segments: seq<Chunk>)
    requires forall j :: 0 <= j < |chunks| ==> 1 <= |chunks[j]| <= MaxBufferSize
    ensures |segments| == |chunks|
    ensures forall j :: 0 <= j < |chunks| ==> segments[j] == chunks[j]
  {
    seq(|chunks|, j requires 0 <= j < |chunks| => chunks[j])
  }

  lemma {:induction false} FlattenSegments(chunks: seq<seq<Byte>>)
    requires forall j :: 0 <= j < |chunks| ==> 1 <= |chunks[j]| <= MaxBufferSize
    ensures Flatten(AsSegments(chunks)) == Flatten(chunks)
    decreases |chunks|
  {
    if chunks != [] {
      assert AsSegments(chunks)[1..] == AsSegments(chunks[1..]);
      FlattenSegments(chunks[1..]);
    }
  }

  /** A sender that finishes followed by a clean close: however the stream
      is cut into recv results, the receiver stores the file byte for byte,
      and the session completes exactly when the file is at most
      MaxFileSize bytes. */
  lemma FileArrives(file: seq<Byte>, failAt: Option<nat>, segments: seq<Chunk>, later: seq<RecvResult>)
    requires Client.Sending(file, failAt).1 == Client.Done
    requires Flatten(segments) == Flatten(Client.Sending(file, failAt).0)
    ensures Payload(Deliver(segments) + [Closed] + later) == file
    ensures SessionVerdict(Deliver(segments) + [Closed] + later) ==
            if |file| <= MaxFileSize then Completed else Failed(TooLarge)
  {
    Client.SendingShape(file, failAt);
    PayloadUpToEnd(segments, Closed, later);
    SizeGuard(segments, later);
  }

  /** A sender's close that arrives as a reset, so that recv returns -1
      after the data: the file holds the data received before it, and the
      run ends there with EXIT_FAILURE, whatever would have come after. */
  lemma ResetEndsRun(segments: seq<Chunk>, later: seq<RecvResult>, rest: seq<Server.SelectEvent>)
    ensures var script := Deliver(segments) + [Error] + later;
      && Payload(script) == Flatten(segments)
      && Server.Plan([Server.Accept(script)] + rest) == ([script], Server.FatalExit(Server.SessionFailed(RecvError)))
  {
    var script := Deliver(segments) + [Error] + later;
    PayloadUpToEnd(segments, Error, later);
    SizeGuard(segments, later);
    var events := [Server.Accept(script)] + rest;
    assert events[0] == Server.Accept(script);
    Server.PlanStep(events);
  }

  /** The simplest network: each send arrives as one recv, then the sender
      closes. The receiver stores exactly the file. */
  lemma UnsplitDelivery(file: seq<Byte>, later: seq<RecvResult>)
    ensures forall j :: 0 <= j < |Client.Chunks(file)| ==> 1 <= |Client.Chunks(file)[j]| <= MaxBufferSize
    ensures Payload(Deliver(AsSegments(Client.Chunks(file))) + [Closed] + later) == file
  {
    Client.ChunksCoverFile(file);
    FlattenSegments(Client.Chunks(file));
    PayloadUpToEnd(AsSegments(Client.Chunks(file)), Closed, later);
  }

  /** Two completed sessions, then a timeout: the run serves both and
      shuts down cleanly, whatever would have come after. */
  lemma TwoSessionsThenTimeout(one: seq<RecvResult>, two: seq<RecvResult>, rest: seq<Server.SelectEvent>)
    requires SessionVerdict(one) == Completed && SessionVerdict(two) == Completed
    ensures Server.Plan([Server.Accept(one), Server.Accept(two), Server.SelectTimeout] + rest) ==
            ([one, two], Server.IdleShutdown)
  {
    var events := [Server.Accept(one), Server.Accept(two), Server.SelectTimeout] + rest;
    assert Server.QuietBefore(events, 2);
    Server.PlanAt(events, 2);
    Server.ScriptsStep(events, 0);
    Server.ScriptsStep(events, 1);
    assert events[..0] == [] && events[2] == Server.SelectTimeout;
    assert Server.Scripts(events[..2]) == [] + [one] + [two] == [one, two];
  }

  /** On a fresh server, the files of the first two connections are
      <dir>/1.file and <dir>/2.file with what each delivered, both get the
      second acknowledgement when they completed, and every other file is
      untouched. */
  lemma TwoSessionsStored(dir: string, disk: map<string, seq<Byte>>, one: seq<RecvResult>, two: seq<RecvResult>)
    ensures var stored := Server.StoreAll(dir, 0, disk, [one, two]);
      && dir + "/1.file" in stored && stored[dir + "/1.file"] == Payload(one)
      && dir + "/2.file" in stored && stored[dir + "/2.file"] == Payload(two)
      && (forall name :: name in disk && name != dir + "/1.file" && name != dir + "/2.file" ==>
            name in stored && stored[name] == disk[name])
  {
    var accepted := [one, two];
    assert Server.ArtifactName(dir, 1) == dir + "/1.file";
    assert Server.ArtifactName(dir, 2) == dir + "/2.file";
    Server.StoredFile(dir, 0, disk, accepted, 0);
    Server.StoredFile(dir, 0, disk, accepted, 1);
    forall name | name in disk && name != dir + "/1.file" && name != dir + "/2.file"
      ensures name in Server.StoreAll(dir, 0, disk, accepted)
      ensures Server.StoreAll(dir, 0, disk, accepted)[name] == disk[name]
    {
      Server.StoredOther(dir, 0, disk, accepted, name);
    }
  }

  /** Two senders that finish in turn, then 30 seconds without a
      connection: a fresh server shuts down cleanly, stores each sender's
      file byte for byte under <dir>/1.file and <dir>/2.file, and sends
      both the second acknowledgement. Each connection delivers its
      sender's chunks, cut by the network into any recv results, then a
      clean close; no acknowledgement send ends the run. */
  lemma TwoSenders(dir: string, disk: map<string, seq<Byte>>,
                   file1: seq<Byte>, failAt1: Option<nat>, first: seq<Chunk>,
                   file2: seq<Byte>, failAt2: Option<nat>, second: seq<Chunk>,
                   rest: seq<Server.SelectEvent>)
    requires Client.Sending(file1, failAt1).1 == Client.Done
    requires Flatten(first) == Flatten(Client.Sending(file1, failAt1).0)
    requires Client.Sending(file2, failAt2).1 == Client.Done
    requires Flatten(second) == Flatten(Client.Sending(file2, failAt2).0)
    requires |file1| <= MaxFileSize && |file2| <= MaxFileSize
    ensures var one, two := Deliver(first) + [Closed], Deliver(second) + [Closed];
      var events := [Server.Accept(one), Server.Accept(two), Server.SelectTimeout] + rest;
      var stored := Server.StoreAll(dir, 0, disk, Server.Plan(events).0);
      var trace := Server.RunTrace(dir, 0, [], Server.Plan(events).0);
      && Server.Plan(events).1 == Server.IdleShutdown
      && dir + "/1.file" in stored && stored[dir + "/1.file"] == file1
      && dir + "/2.file" in stored && stored[dir + "/2.file"] == file2
      && Server.AckSent(1, Server.FileReceived) in trace
      && Server.AckSent(2, Server.FileReceived) in trace
  {
    Client.SendingShape(file1, failAt1);
    Client.SendingShape(file2, failAt2);
    var one, two := Deliver(first) + [Closed], Deliver(second) + [Closed];
    assert Deliver(first) + [Closed] + [] == one && Deliver(second) + [Closed] + [] == two;
    PayloadUpToEnd(first, Closed, []);
    PayloadUpToEnd(second, Closed, []);
    SizeGuard(first, []);
    SizeGuard(second, []);
    TwoSessionsThenTimeout(one, two, rest);
    TwoSessionsStored(dir, disk, one, two);
    var accepted := [one, two];
    Server.AdvanceNoWrap(0, 1);
    Server.AdvanceNoWrap(0, 2);
    Server.ReceivedAckIffCompleted(dir, 0, [], accepted, 1);
    Server.ReceivedAckIffCompleted(dir, 0, [], accepted, 2);
    assert accepted[0] == one && accepted[1] == two;
  }
}
