/** The receiver: FileServer in server.cpp. One object holds the connection
    counter, and its accept loop serves connections one at a time, storing
    each under a name made from the counter, until a select times out or a
    session ends the process. The listening socket, select, accept and recv
    are replaced by the results they return; the output directory is a map
    from file name to contents. */
module Server {
  import opened Wire
  import opened Decimal
  import opened Receive

  /** connection_count is an unsigned int: it counts modulo 2^32. */
  const Word: nat := 0x1_0000_0000

  /** server_port is an unsigned short. */
  const PortRange: nat := 0x1_0000

  /** The two acknowledgements the receiver sends on a connection:
      "ACK Connection established" and "ACK File received successfully". */
  datatype Ack = ConnectionEstablished | FileReceived

  /** get_server_ip: a UDP socket is created and connected to 8.8.8.8 port
      53 to learn the local address, which is only printed. Creating that
      socket or connecting it can fail, and either failure ends the
      process. */
  datatype AddressProbe = ProbeSocketFailed | ProbeConnectFailed | AddressFound

  /** One pass of the accept loop, as select and accept decide it: select
      returns 0 after 30 seconds without a connection, or a connection is
      ready and accept either fails (-1) or yields a connection whose recv
      calls return the given results. */
  datatype SelectEvent = SelectTimeout | AcceptFail | Accept(script: seq<RecvResult>)

  /** What the receiver does that a peer or the file system can observe,
      apart from the bytes it writes (those are in the disk map). */
  datatype Action =
    | AckSent(connection: nat, ack: Ack)
    | FileOpened(name: string)
    | FileClosed(name: string)
    | ClientClosed(connection: nat)
    | ListenerClosed

  datatype Fault =
    | BadArgumentCount | BadPort | NoProbeSocket | NoRoute | NoSocket | BindFailed
    | SessionFailed(fault: SessionFault)

  /** IdleShutdown ends with exit status 0 and FatalExit with EXIT_FAILURE.
      StillListening and StillReceiving describe a run whose events (or the
      current connection's recv results) have run out: the process is still
      waiting in select or in recv. */
  datatype RunOutcome = IdleShutdown | FatalExit(fault: Fault) | StillListening | StillReceiving

  /** connection_count++ on an unsigned int. */
  function Next(count: nat): (next: nat)
    ensures next < Word
    ensures count < Word ==> (next == count + 1 || (count == Word - 1 && next == 0))
  {
    (count + 1) % Word
  }

  /** The counter after n successful accepts. */
  function Advance(count: nat, n: nat): nat
  {
    if n == 0 then count else Next(Advance(count, n - 1))
  }

  /** The counter wraps only after 2^32 accepts. */
  lemma {:induction false} AdvanceClosedForm(count: nat, n: nat)
    requires count < Word
    ensures Advance(count, n) == (count + n) % Word
  {
    if n > 0 {
      AdvanceClosedForm(count, n - 1);
      NextOfRemainder(count + n - 1);
    }
  }

  /** A full cycle of 2^32 does not change the remainder. */
  lemma RemainderOfCycle(x: nat)
    ensures (x + Word) % Word == x % Word
  {
    var q, r := x / Word, x % Word;
    assert x + Word == (q + 1) * Word + r;
  }

  /** Incrementing the remainder is incrementing before taking it. */
  lemma NextOfRemainder(x: nat)
    ensures Next(x % Word) == (x + 1) % Word
  {
    var q, r := x / Word, x % Word;
    assert x == q * Word + r;
    if r + 1 < Word {
      assert x + 1 == q * Word + (r + 1);
    } else {
      assert x + 1 == (q + 1) * Word;
    }
  }

  /** Below 2^32 the counter simply counts. */
  lemma {:induction false} AdvanceNoWrap(count: nat, n: nat)
    requires count + n < Word
    ensures Advance(count, n) == count + n
  {
    if n > 0 {
      AdvanceNoWrap(count, n - 1);
    }
  }

  /** The file for connection index: directory, "/", the index in decimal,
      ".file". */
  function ArtifactName(dir: string, index: nat): (name: string)
    ensures |name| == |dir| + |NatToString(index)| + 6
  {
    dir + "/" + NatToString(index) + ".file"
  }

  /** Different counter values give different file names. */
  lemma ArtifactNamesDistinct(dir: string, i: nat, j: nat)
    ensures ArtifactName(dir, i) == ArtifactName(dir, j) ==> i == j
  {
    var si, sj := NatToString(i), NatToString(j);
    if ArtifactName(dir, i) == ArtifactName(dir, j) {
      var lo := |dir| + 1;
      assert |si| == |sj|;
      assert ArtifactName(dir, i)[lo..lo + |si|] == si;
      assert ArtifactName(dir, j)[lo..lo + |sj|] == sj;
      NatToStringInjective(i, j);
    }
  }

  /** The actions of the session for connection index: the connection ack
      and the opening of its file; then, only when handle_connection returns,
      the closing of the file, the second ack and the closing of the client
      socket. */
  function SessionTrace(dir: string, index: nat, script: seq<RecvResult>): seq<Action>
  {
    var name := ArtifactName(dir, index);
    [AckSent(index, ConnectionEstablished), FileOpened(name)] +
    if SessionVerdict(script) == Completed then
      [FileClosed(name), AckSent(index, FileReceived), ClientClosed(index)]
    else []
  }

  /** The trace after earlier and the sessions for the accepted
      connections, in order, the first of them numbered Next(count). */
  function RunTrace(dir: string, count: nat, earlier: seq<Action>, accepted: seq<seq<RecvResult>>): seq<Action>
    decreases |accepted|
  {
    if accepted == [] then earlier
    else
      var n := |accepted|;
      RunTrace(dir, count, earlier, accepted[..n - 1]) + SessionTrace(dir, Advance(count, n), accepted[n - 1])
  }

  /** The directory after the sessions for the accepted connections: each
      session's file holds what its connection delivered. */
  function StoreAll(dir: string, count: nat, disk: map<string, seq<Byte>>,
                    accepted: seq<seq<RecvResult>>): map<string, seq<Byte>>
    decreases |accepted|
  {
    if accepted == [] then disk
    else
      var n := |accepted|;
      StoreAll(dir, count, disk, accepted[..n - 1])[ArtifactName(dir, Advance(count, n)) := Payload(accepted[n - 1])]
  }

  /** One more session on top of the sessions before it. */
  lemma SessionStep(dir: string, count: nat, disk: map<string, seq<Byte>>, earlier: seq<Action>,
                    before: seq<seq<RecvResult>>, script: seq<RecvResult>)
    ensures Advance(count, |before + [script]|) == Next(Advance(count, |before|))
    ensures StoreAll(dir, count, disk, before + [script]) ==
            StoreAll(dir, count, disk, before)[ArtifactName(dir, Next(Advance(count, |before|))) := Payload(script)]
    ensures RunTrace(dir, count, earlier, before + [script]) ==
            RunTrace(dir, count, earlier, before) + SessionTrace(dir, Next(Advance(count, |before|)), script)
  {
    assert (before + [script])[..|before|] == before;
  }

  /** The counter is back where it was after 2^32 more accepts, so from
      then on the file names repeat. */
  lemma CounterWraps(count: nat, n: nat)
    requires count < Word
    ensures Advance(count, n + Word) == Advance(count, n)
  {
    AdvanceClosedForm(count, n);
    AdvanceClosedForm(count, n + Word);
    RemainderOfCycle(count + n);
  }

  /** As long as the counter does not wrap, the k-th accepted connection's
      file is named after count + k + 1 and holds exactly what that
      connection delivered: no later session overwrites it. */
  lemma {:induction false} StoredFile(dir: string, count: nat, disk: map<string, seq<Byte>>,
                                      accepted: seq<seq<RecvResult>>, k: nat)
    requires count + |accepted| < Word && k < |accepted|
    ensures ArtifactName(dir, count + k + 1) in StoreAll(dir, count, disk, accepted)
    ensures StoreAll(dir, count, disk, accepted)[ArtifactName(dir, count + k + 1)] == Payload(accepted[k])
    decreases |accepted|
  {
    var n := |accepted|;
    var before := accepted[..n - 1];
    StoreAllLast(dir, count, disk, accepted);
    if k < n - 1 {
      StoredFile(dir, count, disk, before, k);
      ArtifactNamesDistinct(dir, count + k + 1, count + n);
      assert before[k] == accepted[k];
    }
  }

  /** Without wrap-around, the last session's file is named after
      count + |accepted|. */
  lemma StoreAllLast(dir: string, count: nat, disk: map<string, seq<Byte>>, accepted: seq<seq<RecvResult>>)
    requires count + |accepted| < Word && accepted != []
    ensures StoreAll(dir, count, disk, accepted) ==
            StoreAll(dir, count, disk, accepted[..|accepted| - 1])[ArtifactName(dir, count + |accepted|) :=
                                                                   Payload(accepted[|accepted| - 1])]
  {
    AdvanceNoWrap(count, |accepted|);
  }

  /** A file whose name no session of the run uses is left as it was, and
      no file appears under such a name. */
  lemma {:induction false} StoredOther(dir: string, count: nat, disk: map<string, seq<Byte>>,
                                       accepted: seq<seq<RecvResult>>, name: string)
    requires count + |accepted| < Word
    requires forall j :: count < j <= count + |accepted| ==> ArtifactName(dir, j) != name
    ensures name in StoreAll(dir, count, disk, accepted) <==> name in disk
    ensures name in disk ==> StoreAll(dir, count, disk, accepted)[name] == disk[name]
    decreases |accepted|
  {
    if accepted != [] {
      var n := |accepted|;
      AdvanceNoWrap(count, n);
      assert ArtifactName(dir, count + n) != name;
      StoredOther(dir, count, disk, accepted[..n - 1], name);
    }
  }

  /** Within one session, the second acknowledgement is sent exactly when
      the session completed, and only for that session's connection. */
  lemma SessionAck(dir: string, index: nat, connection: nat, script: seq<RecvResult>)
    ensures AckSent(index, FileReceived) in SessionTrace(dir, connection, script) <==>
            index == connection && SessionVerdict(script) == Completed
  {
    var name := ArtifactName(dir, connection);
    if SessionVerdict(script) == Completed {
      assert SessionTrace(dir, connection, script)[3] == AckSent(connection, FileReceived);
    }
  }

  /** Some accepted connection numbered index completed its session. */
  predicate CompletedAs(count: nat, accepted: seq<seq<RecvResult>>, index: nat)
  {
    exists k :: 0 <= k < |accepted| && index == Advance(count, k + 1) && SessionVerdict(accepted[k]) == Completed
  }

  lemma CompletedAsStep(count: nat, accepted: seq<seq<RecvResult>>, index: nat)
    requires accepted != []
    ensures var n := |accepted|;
      CompletedAs(count, accepted, index) <==>
      CompletedAs(count, accepted[..n - 1], index) ||
      (index == Advance(count, n) && SessionVerdict(accepted[n - 1]) == Completed)
  {
    var n := |accepted|;
    var before := accepted[..n - 1];
    if CompletedAs(count, before, index) {
      var k :| 0 <= k < n - 1 && index == Advance(count, k + 1) && SessionVerdict(before[k]) == Completed;
      assert accepted[k] == before[k];
    }
    if CompletedAs(count, accepted, index) {
      var k :| 0 <= k < n && index == Advance(count, k + 1) && SessionVerdict(accepted[k]) == Completed;
      if k < n - 1 {
        assert accepted[k] == before[k];
      }
    }
  }

  /** A connection gets the second acknowledgement exactly when its
      session completed. */
  lemma {:induction false} ReceivedAckIffCompleted(dir: string, count: nat, earlier: seq<Action>,
                                                   accepted: seq<seq<RecvResult>>, index: nat)
    ensures AckSent(index, FileReceived) in RunTrace(dir, count, earlier, accepted) <==>
            AckSent(index, FileReceived) in earlier || CompletedAs(count, accepted, index)
    decreases |accepted|
  {
    if accepted != [] {
      var n := |accepted|;
      var before := accepted[..n - 1];
      ReceivedAckIffCompleted(dir, count, earlier, before, index);
      CompletedAsStep(count, accepted, index);
      var session := SessionTrace(dir, Advance(count, n), accepted[n - 1]);
      assert RunTrace(dir, count, earlier, accepted) == RunTrace(dir, count, earlier, before) + session;
      SessionAck(dir, index, Advance(count, n), accepted[n - 1]);
    }
  }

  /** How a run ends when a session does not return normally. */
  function Conclude(verdict: Verdict): (outcome: RunOutcome)
    requires verdict != Completed
    ensures outcome != IdleShutdown && outcome != StillListening
  {
    match verdict
    case Failed(fault) => FatalExit(SessionFailed(fault))
    case Stalled => StillReceiving
  }

  /** The connections the accept loop serves, in order, and how the loop
      ends. A failed accept is skipped; a timeout ends the loop; a session
      that does not complete ends the run. */
  function Plan(events: seq<SelectEvent>): (run: (seq<seq<RecvResult>>, RunOutcome))
    ensures run.1.FatalExit? ==> run.1.fault.SessionFailed?
    ensures run.1 != IdleShutdown && run.1 != StillListening ==> run.0 != []
    decreases |events|
  {
    if events == [] then ([], StillListening)
    else match events[0]
      case SelectTimeout => ([], IdleShutdown)
      case AcceptFail => Plan(events[1..])
      case Accept(script) =>
        if SessionVerdict(script) == Completed then
          var rest := Plan(events[1..]);
          ([script] + rest.0, rest.1)
        else
          ([script], Conclude(SessionVerdict(script)))
  }

  /** A run serves at most one connection per event. */
  lemma {:induction false} PlanLength(events: seq<SelectEvent>)
    ensures |Plan(events).0| <= |events|
    decreases |events|
  {
    if events != [] {
      PlanStep(events);
      PlanLength(events[1..]);
    }
  }

  /** A run that ends any other way than by timeout or by running out of
      events ends as its last session did, and every session before that
      one completed. */
  lemma {:induction false} PlanFailure(events: seq<SelectEvent>)
    ensures forall j :: 0 <= j < |Plan(events).0| - 1 ==> SessionVerdict(Plan(events).0[j]) == Completed
    ensures Plan(events).1 != IdleShutdown && Plan(events).1 != StillListening ==>
            |Plan(events).0| > 0 && SessionVerdict(Plan(events).0[|Plan(events).0| - 1]) != Completed &&
            Plan(events).1 == Conclude(SessionVerdict(Plan(events).0[|Plan(events).0| - 1]))
    decreases |events|
  {
    if events != [] {
      PlanStep(events);
      PlanFailure(events[1..]);
      var e := events[0];
      if e.Accept? && SessionVerdict(e.script) == Completed {
        var rest := Plan(events[1..]).0;
        var all := Plan(events).0;
        assert all == [e.script] + rest;
        forall j | 0 <= j < |all| - 1 ensures SessionVerdict(all[j]) == Completed {
          if j > 0 { assert all[j] == rest[j - 1]; }
        }
        if rest != [] {
          assert all[|all| - 1] == rest[|rest| - 1];
        }
      }
    }
  }

  /** A run ends by timeout or is still listening exactly when every session
      it served completed. */
  lemma {:induction false} PlanQuiet(events: seq<SelectEvent>)
    ensures (Plan(events).1 == IdleShutdown || Plan(events).1 == StillListening) <==>
            (forall j :: 0 <= j < |Plan(events).0| ==> SessionVerdict(Plan(events).0[j]) == Completed)
    decreases |events|
  {
    PlanFailure(events);
    if events != [] {
      PlanStep(events);
      PlanQuiet(events[1..]);
      var e := events[0];
      if e.Accept? && SessionVerdict(e.script) == Completed {
        var rest := Plan(events[1..]).0;
        var all := Plan(events).0;
        assert all == [e.script] + rest;
        if forall j :: 0 <= j < |rest| ==> SessionVerdict(rest[j]) == Completed {
          forall j | 0 <= j < |all| ensures SessionVerdict(all[j]) == Completed {
            if j > 0 { assert all[j] == rest[j - 1]; }
          }
        } else {
          var j :| 0 <= j < |rest| && SessionVerdict(rest[j]) != Completed;
          assert all[j + 1] == rest[j];
        }
      }
    }
  }

  /** Plan unfolded once: what the first event does to the run. */
  lemma PlanStep(events: seq<SelectEvent>)
    requires events != []
    ensures events[0] == SelectTimeout ==> Plan(events) == ([], IdleShutdown)
    ensures events[0] == AcceptFail ==> Plan(events) == Plan(events[1..])
    ensures events[0].Accept? && SessionVerdict(events[0].script) == Completed ==>
            Plan(events) == ([events[0].script] + Plan(events[1..]).0, Plan(events[1..]).1)
    ensures events[0].Accept? && SessionVerdict(events[0].script) != Completed ==>
            Plan(events) == ([events[0].script], Conclude(SessionVerdict(events[0].script)))
  {
  }

  /** The scripts of the connections accept yields, in order. */
  function Scripts(events: seq<SelectEvent>): seq<seq<RecvResult>>
    decreases |events|
  {
    if events == [] then []
    else
      var last := events[|events| - 1];
      Scripts(events[..|events| - 1]) + if last.Accept? then [last.script] else []
  }

  lemma ScriptsStep(events: seq<SelectEvent>, i: nat)
    requires i < |events|
    ensures Scripts(events[..i + 1]) == Scripts(events[..i]) + if events[i].Accept? then [events[i].script] else []
  {
    assert events[..i + 1][..i] == events[..i];
  }

  /** No event before index i ends the loop: no timeout, and every
      connection accepted completed its session. */
  predicate QuietBefore(events: seq<SelectEvent>, i: nat)
  {
    forall j :: 0 <= j < i && j < |events| ==>
      events[j] != SelectTimeout && (events[j].Accept? ==> SessionVerdict(events[j].script) == Completed)
  }

  /** A quiet stretch of events only adds its accepted connections in front
      of whatever the rest of the run does: failed accepts change nothing,
      and nothing in the stretch ends the run. */
  lemma {:induction false} QuietPrefix(quiet: seq<SelectEvent>, rest: seq<SelectEvent>)
    requires QuietBefore(quiet, |quiet|)
    ensures Plan(quiet + rest) == (Scripts(quiet) + Plan(rest).0, Plan(rest).1)
    decreases |quiet|
  {
    if quiet != [] {
      var n := |quiet| - 1;
      var e := quiet[n];
      assert quiet[..n] + ([e] + rest) == quiet + rest;
      QuietPrefix(quiet[..n], [e] + rest);
      assert ([e] + rest)[0] == e && ([e] + rest)[1..] == rest;
      PlanStep([e] + rest);
      assert QuietBefore(quiet, |quiet|) && e == quiet[n];
      var earlier := Scripts(quiet[..n]);
      if e.Accept? {
        assert Scripts(quiet) == earlier + [e.script];
        assert earlier + ([e.script] + Plan(rest).0) == earlier + [e.script] + Plan(rest).0;
      } else {
        assert Scripts(quiet) == earlier + [];
        assert earlier + [] == earlier;
      }
    } else {
      assert quiet + rest == rest && Scripts(quiet) == [];
      assert [] + Plan(rest).0 == Plan(rest).0;
    }
  }

  /** Where the accept loop stops: at a timeout, at a session that does not
      complete, or when the events run out, after a quiet stretch. */
  lemma PlanAt(events: seq<SelectEvent>, i: nat)
    requires i <= |events| && QuietBefore(events, i)
    ensures i == |events| ==> Plan(events) == (Scripts(events), StillListening)
    ensures i < |events| && events[i] == SelectTimeout ==> Plan(events) == (Scripts(events[..i]), IdleShutdown)
    ensures i < |events| && events[i].Accept? && SessionVerdict(events[i].script) != Completed ==>
            Plan(events) == (Scripts(events[..i]) + [events[i].script], Conclude(SessionVerdict(events[i].script)))
  {
    assert events[..i] + events[i..] == events;
    assert QuietBefore(events[..i], i);
    QuietPrefix(events[..i], events[i..]);
    if i < |events| {
      assert events[i..][0] == events[i];
      PlanStep(events[i..]);
      assert Scripts(events[..i]) + [] == Scripts(events[..i]);
    } else {
      assert events[..i] == events;
      assert Scripts(events) + [] == Scripts(events);
    }
  }

  /** The outcome of start_server: setup failures first, in the order
      get_server_ip, socket, bind, then the loop. */
  function ServeOutcome(probe: AddressProbe, socketOk: bool, bindOk: bool, events: seq<SelectEvent>): RunOutcome
  {
    if probe == ProbeSocketFailed then FatalExit(NoProbeSocket)
    else if probe == ProbeConnectFailed then FatalExit(NoRoute)
    else if !socketOk then FatalExit(NoSocket)
    else if !bindOk then FatalExit(BindFailed)
    else Plan(events).1
  }

  class FileServer {
    const serverPort: nat
    const fileDirectory: string
    var connectionCount: nat
    /** The output directory: file name to contents. */
    var disk: map<string, seq<Byte>>
    /** Everything observable the server has done, in order. */
    var trace: seq<Action>

    ghost predicate Valid()
      reads this
    {
      serverPort < PortRange && connectionCount < Word
    }

    /** The constructor's member initialisers. The source's constructor
        then installs the signal handlers and calls start_server; here
        ServerMain makes that call. */
    constructor (port: nat, directory: string, existing: map<string, seq<Byte>>)
      requires port < PortRange
      ensures Valid() && serverPort == port && fileDirectory == directory
      ensures connectionCount == 0 && disk == existing && trace == []
    {
      serverPort := port;
      fileDirectory := directory;
      connectionCount := 0;
      disk := existing;
      trace := [];
    }

    /** send_ack: the message goes to the current connection; its result is
        ignored. A send that raises SIGPIPE on a reset connection is not
        modelled: the ack is recorded as sent. */
    method SendAck(ack: Ack)
      modifies this`trace
      ensures trace == old(trace) + [AckSent(connectionCount, ack)]
    {
      trace := trace + [AckSent(connectionCount, ack)];
    }

    /** handle_connection: append every chunk recv delivers to the file
        until recv returns 0 or -1; then fail on -1, or on a stream position
        (bytes written) greater than MaxFileSize. */
    method HandleConnection(name: string, script: seq<RecvResult>) returns (verdict: Verdict)
      requires name in disk
      modifies this`disk
      ensures disk == old(disk)[name := old(disk)[name] + Payload(script)]
      ensures verdict == SessionVerdict(script)
    {
      var position := 0;
      ghost var base := disk[name];
      ghost var written: seq<Byte> := [];
      var i := 0;
      assert base + written == base && script[i..] == script;
      while i < |script| && RecvReturn(script[i]) > 0
        invariant 0 <= i <= |script|
        invariant written + Payload(script[i..]) == Payload(script)
        invariant End(script[i..]) == End(script)
        invariant position == |written|
        invariant disk == old(disk)[name := base + written]
      {
        var buffer := script[i].bytes;
        ReceiveStep(script, i);
        assert written + (buffer + Payload(script[i + 1..])) == (written + buffer) + Payload(script[i + 1..]);
        assert base + written + buffer == base + (written + buffer);
        disk := disk[name := disk[name] + buffer];
        written := written + buffer;
        position := position + |buffer|;
        i := i + 1;
      }
      if i == |script| {
        assert script[i..] == [] && written + [] == written;
        return Stalled;
      }
      ReceiveStep(script, i);
      assert written + [] == written;
      if RecvReturn(script[i]) == -1 {
        return Failed(RecvError);
      }
      if position > MaxFileSize {
        return Failed(TooLarge);
      }
      return Completed;
    }

    /** The body of the accept loop for one accepted connection: count it,
        acknowledge it, open its file, receive into it, and only when
        handle_connection returns close the file, send the second
        acknowledgement and close the client socket. */
    method ServeConnection(script: seq<RecvResult>) returns (verdict: Verdict)
      requires Valid()
      modifies this
      ensures Valid()
      ensures verdict == SessionVerdict(script)
      ensures connectionCount == Next(old(connectionCount))
      ensures disk == old(disk)[ArtifactName(fileDirectory, connectionCount) := Payload(script)]
      ensures trace == old(trace) + SessionTrace(fileDirectory, connectionCount, script)
    {
      ghost var disk0, trace0 := disk, trace;
      connectionCount := Next(connectionCount);
      var index := connectionCount;
      SendAck(ConnectionEstablished);
      var name := ArtifactName(fileDirectory, index);
      disk := disk[name := []];
      trace := trace + [FileOpened(name)];
      ghost var begun := trace;
      assert begun == trace0 + [AckSent(index, ConnectionEstablished), FileOpened(name)];
      verdict := HandleConnection(name, script);
      assert disk == disk0[name := [] + Payload(script)];
      assert [] + Payload(script) == Payload(script);
      if verdict != Completed {
        assert begun + [] == begun;
        return;
      }
      trace := trace + [FileClosed(name)];
      SendAck(FileReceived);
      trace := trace + [ClientClosed(index)];
      assert trace == begun + [FileClosed(name), AckSent(index, FileReceived), ClientClosed(index)];
    }

    /** The while (true) loop of start_server: a timeout closes the
        listening socket and leaves the loop, a failed accept goes round
        again, an accepted connection is served and ends the process when
        its session does not complete. */
    method AcceptLoop(events: seq<SelectEvent>) returns (outcome: RunOutcome)
      requires Valid()
      modifies this
      ensures Valid()
      ensures outcome == Plan(events).1
      ensures connectionCount == Advance(old(connectionCount), |Plan(events).0|)
      ensures disk == StoreAll(fileDirectory, old(connectionCount), old(disk), Plan(events).0)
      ensures trace == RunTrace(fileDirectory, old(connectionCount), old(trace), Plan(events).0) +
                       (if outcome == IdleShutdown then [ListenerClosed] else [])
    {
      ghost var count0, disk0, trace0 := connectionCount, disk, trace;
      ghost var accepted: seq<seq<RecvResult>> := [];
      var i := 0;
      while i < |events|
        invariant 0 <= i <= |events| && Valid()
        invariant QuietBefore(events, i)
        invariant accepted == Scripts(events[..i])
        invariant connectionCount == Advance(count0, |accepted|)
        invariant disk == StoreAll(fileDirectory, count0, disk0, accepted)
        invariant trace == RunTrace(fileDirectory, count0, trace0, accepted)
      {
        ScriptsStep(events, i);
        match events[i]
        case SelectTimeout =>
          PlanAt(events, i);
          trace := trace + [ListenerClosed];
          return IdleShutdown;
        case AcceptFail =>
          i := i + 1;
        case Accept(script) =>
          var verdict := ServeConnection(script);
          SessionStep(fileDirectory, count0, disk0, trace0, accepted, script);
          if verdict != Completed {
            PlanAt(events, i);
            accepted := accepted + [script];
            return Conclude(verdict);
          }
          accepted := accepted + [script];
          i := i + 1;
      }
      assert events[..i] == events;
      PlanAt(events, i);
      return StillListening;
    }

    /** start_server: get_server_ip's failures, then socket creation and
        bind failures are fatal, a failed bind closing the listening socket
        first; then the accept loop. The result of listen is not checked by
        the source and has no failure here. */
    method StartServer(probe: AddressProbe, socketOk: bool, bindOk: bool, events: seq<SelectEvent>)
      returns (outcome: RunOutcome)
      requires Valid()
      modifies this
      ensures Valid()
      ensures outcome == ServeOutcome(probe, socketOk, bindOk, events)
      ensures !(probe == AddressFound && socketOk && bindOk) ==>
        connectionCount == old(connectionCount) && disk == old(disk) &&
        trace == old(trace) + (if probe == AddressFound && socketOk then [ListenerClosed] else [])
      ensures probe == AddressFound && socketOk && bindOk ==>
        connectionCount == Advance(old(connectionCount), |Plan(events).0|) &&
        disk == StoreAll(fileDirectory, old(connectionCount), old(disk), Plan(events).0) &&
        trace == RunTrace(fileDirectory, old(connectionCount), old(trace), Plan(events).0) +
                 (if outcome == IdleShutdown then [ListenerClosed] else [])
    {
      if probe == ProbeSocketFailed {
        return FatalExit(NoProbeSocket);
      }
      if probe == ProbeConnectFailed {
        return FatalExit(NoRoute);
      }
      if !socketOk {
        return FatalExit(NoSocket);
      }
      if !bindOk {
        trace := trace + [ListenerClosed];
        return FatalExit(BindFailed);
      }
      outcome := AcceptLoop(events);
    }
  }

  /** The port as main stores it: atoi's value converted to unsigned short. */
  function PortOf(portArg: int): (port: nat)
    ensures port < PortRange
    ensures 0 <= portArg < PortRange ==> port == portArg
    ensures (portArg - port) % PortRange == 0
  {
    portArg % PortRange
  }

  /** server.cpp main: exactly two arguments after the program name, and a
      port that converts to a non-zero unsigned short, or EXIT_FAILURE
      before any server exists; otherwise a server with a zero counter is
      built and runs start_server. */
  method ServerMain(argc: nat, portArg: int, directory: string, existing: map<string, seq<Byte>>,
                    probe: AddressProbe, socketOk: bool, bindOk: bool, events: seq<SelectEvent>)
    returns (outcome: RunOutcome, server: FileServer?)
    ensures argc != 3 ==> outcome == FatalExit(BadArgumentCount) && server == null
    ensures argc == 3 && PortOf(portArg) == 0 ==> outcome == FatalExit(BadPort) && server == null
    ensures argc == 3 && PortOf(portArg) != 0 ==>
      server != null && fresh(server) && server.Valid() &&
      server.serverPort == PortOf(portArg) && server.fileDirectory == directory &&
      outcome == ServeOutcome(probe, socketOk, bindOk, events) &&
      (probe != AddressFound || !socketOk ==>
        server.connectionCount == 0 && server.disk == existing && server.trace == []) &&
      (probe == AddressFound && socketOk && !bindOk ==>
        server.connectionCount == 0 && server.disk == existing && server.trace == [ListenerClosed]) &&
      (probe == AddressFound && socketOk && bindOk ==>
        server.connectionCount == Advance(0, |Plan(events).0|) &&
        server.disk == StoreAll(directory, 0, existing, Plan(events).0) &&
        server.trace == RunTrace(directory, 0, [], Plan(events).0) +
                        (if outcome == IdleShutdown then [ListenerClosed] else []))
  {
    if argc != 3 {
      return FatalExit(BadArgumentCount), null;
    }
    var port := PortOf(portArg);
    if port == 0 {
      return FatalExit(BadPort), null;
    }
    server := new FileServer(port, directory, existing);
    outcome := server.StartServer(probe, socketOk, bindOk, events);
  }
}
