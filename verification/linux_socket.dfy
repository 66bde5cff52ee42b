/** The connection endpoint of LinuxSocket.cpp: one listening socket and one
    peer socket, a five-valued connection state, and the operations that
    move between states. Every system call (`socket`, `bind`, `listen`,
    `accept`, `connect`, `recv`, `read`, `send`) is replaced by an abstract
    outcome passed in by the caller; `usleep` becomes a decrement of an
    integer microsecond budget. */
module LinuxSocket {

  datatype ConnMode = Client | Server

  /** ISocket::ConnectionState_t, including STATE_UNKNOWN, which this
      endpoint never enters but which a caller must still handle. */
  datatype ConnState = Unknown | NoConnection | ServerPortSetup | ServerListening | Connected

  /** The endpoint: mode, configured port, state, and whether the listening
      and the peer socket handles are valid (not INVALID_SOCKET). */
  datatype Endpoint = Endpoint(mode: ConnMode, port: int, state: ConnState, serverSock: bool, clientSock: bool)

  /** A freshly constructed LinuxSocket. */
  const Fresh: Endpoint := Endpoint(Server, 0, NoConnection, false, false)

  /** Result of a call that returns `bool` and may change the endpoint. */
  datatype Call = Call(ok: bool, ep: Endpoint)

  /** How the server-side setup in `init` goes: `socket` fails, `bind` fails,
      `listen` fails, or all succeed. (A failing `fcntl` is only logged.) */
  datatype ServerSetup = SocketFails | BindFails | ListenFails | SetupOk

  /** How `reconnect` goes: `socket` fails, `setsockopt` fails, `connect`
      fails, or the connection is made. */
  datatype Reconnect = ReconnectSocketFails | ReconnectOptionFails | ConnectFails | ConnectOk

  /** reconnect(): drops the old peer socket and opens a new one. A failed
      `connect` leaves the new socket open; the other failures leave none. */
  function DoReconnect(ep: Endpoint, rc: Reconnect): (r: Call)
    ensures r.ok <==> rc == ConnectOk
    ensures r.ep == ep.(clientSock := rc == ConnectOk || rc == ConnectFails)
  {
    match rc
    case ReconnectSocketFails => Call(false, ep.(clientSock := false))
    case ReconnectOptionFails => Call(false, ep.(clientSock := false))
    case ConnectFails => Call(false, ep.(clientSock := true))
    case ConnectOk => Call(true, ep.(clientSock := true))
  }

  /** init(mode, address, port). A server reaches SERVER_PORT_SETUP only when
      bind and listen both succeed, and otherwise fails with its state
      unchanged; a client ends CONNECTED or NO_CONNECTION according to the
      connect outcome. Mode and port are recorded in every case. */
  function Init(ep: Endpoint, mode: ConnMode, port: int, setup: ServerSetup, rc: Reconnect): (r: Call)
    ensures r.ep.mode == mode && r.ep.port == port
    ensures mode == Server ==> (r.ok <==> setup == SetupOk)
    ensures mode == Server && r.ok ==> r.ep.state == ServerPortSetup && r.ep.serverSock
    ensures mode == Server && !r.ok ==> r.ep.state == ep.state
    ensures mode == Server && (setup == SocketFails || setup == ListenFails) ==> !r.ep.serverSock
    ensures mode == Server ==> r.ep.clientSock == ep.clientSock
    ensures mode == Client ==> (r.ok <==> rc == ConnectOk)
    ensures mode == Client ==> r.ep.state == (if rc == ConnectOk then Connected else NoConnection)
    ensures mode == Client ==> r.ep.serverSock == ep.serverSock
  {
    var ep1 := ep.(mode := mode, port := port);
    match mode
    case Server =>
      (match setup
       case SocketFails => Call(false, ep1.(serverSock := false))
       case BindFails => Call(false, ep1.(serverSock := true))
       case ListenFails => Call(false, ep1.(serverSock := false))
       case SetupOk => Call(true, ep1.(serverSock := true, state := ServerPortSetup)))
    case Client =>
      var c := DoReconnect(ep1, rc);
      if c.ok then Call(true, c.ep.(state := Connected)) else Call(false, c.ep.(state := NoConnection))
  }

  /** ListenForClient: fails (changing nothing) unless the endpoint is a
      server with a valid listening socket. Otherwise it succeeds whatever
      `accept` does: an accepted peer makes the state CONNECTED; a failed
      accept leaves the state alone and the peer handle invalid. */
  function ListenForClient(ep: Endpoint, accepted: bool): (r: Call)
    ensures r.ok <==> ep.mode == Server && ep.serverSock
    ensures !r.ok ==> r.ep == ep
    ensures r.ok ==> r.ep.clientSock == accepted
    ensures r.ok ==> r.ep.state == (if accepted then Connected else ep.state)
    ensures r.ep.mode == ep.mode && r.ep.port == ep.port && r.ep.serverSock == ep.serverSock
  {
    if ep.mode == Server && ep.serverSock then
      Call(true, ep.(clientSock := accepted, state := if accepted then Connected else ep.state))
    else Call(false, ep)
  }

  /** ResetConnection. A client reconnects and ends CONNECTED or
      NO_CONNECTION. A server fails, unchanged, exactly when its port is not
      positive, and otherwise re-arms to SERVER_PORT_SETUP without touching
      either socket. */
  function ResetConnection(ep: Endpoint, rc: Reconnect): (r: Call)
    ensures ep.mode == Server ==> (r.ok <==> ep.port > 0)
    ensures ep.mode == Server && !r.ok ==> r.ep == ep
    ensures ep.mode == Server && r.ok ==> r.ep == ep.(state := ServerPortSetup)
    ensures ep.mode == Client ==> (r.ok <==> rc == ConnectOk)
    ensures ep.mode == Client ==> r.ep.state == (if rc == ConnectOk then Connected else NoConnection)
    ensures r.ep.mode == ep.mode && r.ep.port == ep.port
  {
    match ep.mode
    case Client =>
      var c := DoReconnect(ep, rc);
      if c.ok then Call(true, c.ep.(state := Connected)) else Call(false, c.ep.(state := NoConnection))
    case Server =>
      if ep.port <= 0 then Call(false, ep) else Call(true, ep.(state := ServerPortSetup))
  }

  /** CloseConnection: invalidates both sockets, keeps the state, always succeeds. */
  function CloseConnection(ep: Endpoint): (r: Call)
    ensures r.ok
    ensures !r.ep.clientSock && !r.ep.serverSock
    ensures r.ep.state == ep.state && r.ep.mode == ep.mode && r.ep.port == ep.port
  {
    Call(true, ep.(clientSock := false, serverSock := false))
  }

  lemma CloseIdempotent(ep: Endpoint)
    ensures CloseConnection(CloseConnection(ep).ep) == CloseConnection(ep)
  {
  }

  /** sendData: an empty send succeeds without a socket; otherwise it needs
      a valid peer socket and succeeds iff `send` does not report an error. */
  function SendData(ep: Endpoint, numBytes: int, sendOk: bool): (r: bool)
    ensures numBytes == 0 ==> r
    ensures numBytes != 0 ==> (r <==> ep.clientSock && sendOk)
  {
    if numBytes == 0 then true
    else if !ep.clientSock then false
    else sendOk
  }

  // ---------------------------------------------------------------------------
  // readBlock
  // ---------------------------------------------------------------------------

  /** What one `recv` call reports. `Received` lists the bytes waiting on the
      socket; `recv` hands over at most the requested count of them. */
  datatype RecvOutcome = Received(bytes: string) | RecvEof | RecvAgain | RecvIntr | RecvFail

  datatype BlockRead = BlockRead(ok: bool, numRead: int, data: string)

  /** readBlock: one `recv` into a buffer of `len` bytes. Without a valid
      peer socket nothing is read and the call succeeds with 0 bytes. A
      `recv` returning 0 (end of stream, or nothing to hand over) fails
      with `numRead == -1`; would-block and interrupted succeed with 0
      bytes; any other error fails; data gives `numRead` equal to the byte
      count. The connection state is never touched, so no endpoint is
      returned. */
  function ReadBlock(ep: Endpoint, len: nat, rv: RecvOutcome): (r: BlockRead)
    ensures !ep.clientSock ==> r == BlockRead(true, 0, "")
    ensures r.numRead == |r.data| || (r.numRead == -1 && r.data == "")
    ensures |r.data| <= len
    ensures ep.clientSock && rv.Received? && 0 < |rv.bytes| && len > 0 ==>
      r.ok && 0 < r.numRead <= |rv.bytes| && r.data == rv.bytes[..r.numRead]
    ensures ep.clientSock && (rv.RecvEof? || (rv.Received? && (|rv.bytes| == 0 || len == 0))) ==>
      r == BlockRead(false, -1, "")
    ensures ep.clientSock && (rv.RecvAgain? || rv.RecvIntr?) ==> r == BlockRead(true, 0, "")
    ensures ep.clientSock && rv.RecvFail? ==> r == BlockRead(false, 0, "")
  {
    if !ep.clientSock then BlockRead(true, 0, "")
    else match rv
      case Received(bytes) =>
        var n := if |bytes| < len then |bytes| else len;
        if n == 0 then BlockRead(false, -1, "") else BlockRead(true, n, bytes[..n])
      case RecvEof => BlockRead(false, -1, "")
      case RecvAgain => BlockRead(true, 0, "")
      case RecvIntr => BlockRead(true, 0, "")
      case RecvFail => BlockRead(false, 0, "")
  }

  // ---------------------------------------------------------------------------
  // readLine
  // ---------------------------------------------------------------------------

  /** What one single-byte `read` reports. */
  datatype ReadEvent = Byte(c: char) | Again | Intr | Eof | Fail

  /** Microseconds a would-block (or a tolerated end of stream) costs. */
  const PollUs: int := 250

  predicate IsTerminator(c: char)
  {
    c == '\n' || c == '\r'
  }

  /** The outcome of `readLine` over a finite prefix of read events:
      `Pending` when the events run out before the call returns; otherwise
      the return value, `numRead`, the stored line, whether an end of stream
      was seen (which sets NO_CONNECTION), and how many events were used. */
  datatype LineRead = Pending | Finished(ok: bool, numRead: int, line: string, eof: bool, used: nat)

  /** The reference definition of `readLine` from event `i` on, with the
      bytes stored so far, the remaining budget, whether a byte has already
      refilled the budget, and whether an end of stream was seen. */
  function ReadLineFrom(events: seq<ReadEvent>, len: int, timeoutUs: int, stop: bool,
                        i: nat, line: string, budget: int, first: bool, eof: bool): LineRead
    requires i <= |events|
    decreases |events| - i
  {
    if i == |events| then Pending
    else
      match events[i]
      case Fail => Finished(false, |line|, line, eof, i + 1)
      case Eof =>
        if stop then Finished(false, -1, line, true, i + 1)
        else AfterEvent(events, len, timeoutUs, stop, i, line, budget - PollUs, first, true)
      case Again => AfterEvent(events, len, timeoutUs, stop, i, line, budget - PollUs, first, eof)
      case Intr => AfterEvent(events, len, timeoutUs, stop, i, line, budget, first, eof)
      case Byte(c) =>
        var b := if first then budget else timeoutUs;
        if IsTerminator(c) then Finished(true, |line|, line, eof, i + 1)
        else if |line| + 1 >= len then Finished(true, |line| + 1, line + [c], eof, i + 1)
        else AfterEvent(events, len, timeoutUs, stop, i, line + [c], b, true, eof)
  }

  /** The timeout test at the bottom of the loop, then the next iteration. */
  function AfterEvent(events: seq<ReadEvent>, len: int, timeoutUs: int, stop: bool,
                      i: nat, line: string, budget: int, first: bool, eof: bool): LineRead
    requires i < |events|
    decreases |events| - i, 0
  {
    if budget <= 0 then
      if |line| > 0 then Finished(false, |line|, line, eof, i + 1)
      else Finished(true, 0, line, eof, i + 1)
    else ReadLineFrom(events, len, timeoutUs, stop, i + 1, line, budget, first, eof)
  }

  /** readLine(buffer, len, numRead, timeout, stopOnDisconnect) from its start. */
  function ReadLineSpec(events: seq<ReadEvent>, len: int, timeoutUs: int, stop: bool): LineRead
  {
    ReadLineFrom(events, len, timeoutUs, stop, 0, "", timeoutUs, false, false)
  }

  /** The characters delivered by the byte events, in order. */
  function Bytes(events: seq<ReadEvent>): string
  {
    if |events| == 0 then ""
    else Bytes(events[..|events| - 1]) + (if events[|events| - 1].Byte? then [events[|events| - 1].c] else "")
  }

  predicate NoTerminator(s: string)
  {
    forall k :: 0 <= k < |s| ==> !IsTerminator(s[k])
  }

  /** Some event before `n` is an end of stream. */
  predicate SawEof(events: seq<ReadEvent>, n: int)
  {
    exists k :: 0 <= k < n && k < |events| && events[k] == Eof
  }

  /** What every finished `readLine` guarantees: the stored line holds no
      terminator and at most `len` bytes; it is exactly the bytes read, less
      the terminator when one ended the line; `numRead` is its length unless
      an end of stream stopped the call, which is reported as `-1` and
      failure; a success that did not fill the buffer ended on a terminator
      or on a timeout with nothing read; an end of stream seen on the way is
      recorded. */
  predicate LineReadValid(events: seq<ReadEvent>, len: int, stop: bool, r: LineRead)
  {
    r.Finished? ==>
      && 0 < r.used <= |events|
      && NoTerminator(r.line)
      && |r.line| <= len
      && (Bytes(events[..r.used]) == r.line ||
          (events[r.used - 1].Byte? && IsTerminator(events[r.used - 1].c) && Bytes(events[..r.used]) == r.line + [events[r.used - 1].c]))
      && (r.numRead == -1 <==> stop && events[r.used - 1] == Eof)
      && (r.numRead != -1 ==> r.numRead == |r.line|)
      && (r.numRead == -1 ==> !r.ok)
      && (r.ok && |r.line| < len ==> |r.line| == 0 || (events[r.used - 1].Byte? && IsTerminator(events[r.used - 1].c)))
      && (r.eof <==> SawEof(events, r.used))
  }

  lemma BytesSnoc(events: seq<ReadEvent>, i: nat)
    requires i < |events|
    ensures Bytes(events[..i + 1]) == Bytes(events[..i]) + (if events[i].Byte? then [events[i].c] else "")
  {
    assert events[..i + 1][..i] == events[..i];
  }

  /** Induction over the events for `LineReadValid`. */
  lemma {:induction false} ReadLineFromValid(events: seq<ReadEvent>, len: int, timeoutUs: int, stop: bool,
                                             i: nat, line: string, budget: int, first: bool, eof: bool)
    requires i <= |events| && 1 <= len
    requires NoTerminator(line) && |line| < len
    requires Bytes(events[..i]) == line
    requires eof <==> SawEof(events, i)
    ensures LineReadValid(events, len, stop, ReadLineFrom(events, len, timeoutUs, stop, i, line, budget, first, eof))
    decreases |events| - i
  {
    if i < |events| {
      BytesSnoc(events, i);
      var ev := events[i];
      var eof' := eof || ev == Eof;
      assert eof' <==> SawEof(events, i + 1) by {
        if eof' && !eof {
          assert events[i] == Eof;
        }
        if SawEof(events, i + 1) && !eof {
          var k :| 0 <= k < i + 1 && k < |events| && events[k] == Eof;
          assert k == i;
        }
      }
      match ev
      case Fail =>
      case Eof =>
        if !stop {
          AfterEventValid(events, len, timeoutUs, stop, i, line, budget - PollUs, first, true);
        }
      case Again =>
        AfterEventValid(events, len, timeoutUs, stop, i, line, budget - PollUs, first, eof);
      case Intr =>
        AfterEventValid(events, len, timeoutUs, stop, i, line, budget, first, eof);
      case Byte(c) =>
        if !IsTerminator(c) && |line| + 1 < len {
          var b := if first then budget else timeoutUs;
          AfterEventValid(events, len, timeoutUs, stop, i, line + [c], b, true, eof);
        }
    }
  }

  lemma {:induction false} AfterEventValid(events: seq<ReadEvent>, len: int, timeoutUs: int, stop: bool,
                                           i: nat, line: string, budget: int, first: bool, eof: bool)
    requires i < |events| && 1 <= len
    requires NoTerminator(line) && |line| < len
    requires Bytes(events[..i + 1]) == line
    requires eof <==> SawEof(events, i + 1)
    requires events[i] != Fail && !(events[i] == Eof && stop)
    ensures LineReadValid(events, len, stop, AfterEvent(events, len, timeoutUs, stop, i, line, budget, first, eof))
    decreases |events| - i, 0
  {
    if budget > 0 {
      ReadLineFromValid(events, len, timeoutUs, stop, i + 1, line, budget, first, eof);
    }
  }

  /** Every finished `readLine` satisfies `LineReadValid`. */
  lemma ReadLineValid(events: seq<ReadEvent>, len: int, timeoutUs: int, stop: bool)
    requires 1 <= len
    ensures LineReadValid(events, len, stop, ReadLineSpec(events, len, timeoutUs, stop))
  {
    assert events[..0] == [];
    ReadLineFromValid(events, len, timeoutUs, stop, 0, "", timeoutUs, false, false);
  }

  /** `n` would-block events. */
  function Agains(n: nat): (es: seq<ReadEvent>)
    ensures |es| == n && forall k :: 0 <= k < n ==> es[k] == Again
  {
    if n == 0 then [] else [Again] + Agains(n - 1)
  }

  /** Number of 250 µs polls that exhaust a positive budget. */
  function PollsFor(budget: int): nat
    requires budget > 0
  {
    (budget + PollUs - 1) / PollUs
  }

  /** A silent peer: with nothing but would-blocks the call gives up after
      exactly as many polls as the budget allows, succeeding with zero
      bytes read. */
  lemma {:induction false} SilentPeerTimesOut(extra: seq<ReadEvent>, line: string, len: int, timeoutUs: int, stop: bool,
                                               budget: int, first: bool, eof: bool, prefix: seq<ReadEvent>)
    requires budget > 0
    ensures var events := prefix + Agains(PollsFor(budget)) + extra;
      ReadLineFrom(events, len, timeoutUs, stop, |prefix|, line, budget, first, eof) ==
      Finished(|line| == 0, |line|, line, eof, |prefix| + PollsFor(budget))
    decreases budget
  {
    var events := prefix + Agains(PollsFor(budget)) + extra;
    var i := |prefix|;
    assert events[i] == Again;
    if budget - PollUs <= 0 {
      assert PollsFor(budget) == 1;
    } else {
      assert PollsFor(budget) == 1 + PollsFor(budget - PollUs);
      var prefix' := prefix + [Again];
      assert prefix' + Agains(PollsFor(budget - PollUs)) + extra == events by {
        assert Agains(PollsFor(budget)) == [Again] + Agains(PollsFor(budget - PollUs));
      }
      SilentPeerTimesOut(extra, line, len, timeoutUs, stop, budget - PollUs, first, eof, prefix');
    }
  }

  /** readLine against a silent peer: success, no bytes, after ⌈timeout / 250⌉ polls. */
  lemma ReadLineSilentPeer(len: int, timeoutUs: int, stop: bool, extra: seq<ReadEvent>)
    requires timeoutUs > 0
    ensures ReadLineSpec(Agains(PollsFor(timeoutUs)) + extra, len, timeoutUs, stop) ==
      Finished(true, 0, "", false, PollsFor(timeoutUs))
  {
    SilentPeerTimesOut(extra, "", len, timeoutUs, stop, timeoutUs, false, false, []);
    assert [] + Agains(PollsFor(timeoutUs)) + extra == Agains(PollsFor(timeoutUs)) + extra;
  }

  /** A peer that sends one byte and then goes silent: the byte refills the
      budget, and when it runs out the partial line is reported as failure. */
  lemma ReadLinePartialTimesOut(c: char, len: int, timeoutUs: int, stop: bool, extra: seq<ReadEvent>)
    requires timeoutUs > 0 && len > 1 && !IsTerminator(c)
    ensures ReadLineSpec([Byte(c)] + Agains(PollsFor(timeoutUs)) + extra, len, timeoutUs, stop) ==
      Finished(false, 1, [c], false, 1 + PollsFor(timeoutUs))
  {
    var events := [Byte(c)] + Agains(PollsFor(timeoutUs)) + extra;
    SilentPeerTimesOut(extra, [c], len, timeoutUs, stop, timeoutUs, true, false, [Byte(c)]);
    assert events[0] == Byte(c);
    assert "" + [c] == [c];
    assert ReadLineSpec(events, len, timeoutUs, stop) ==
      AfterEvent(events, len, timeoutUs, stop, 0, [c], timeoutUs, true, false);
    assert ReadLineSpec(events, len, timeoutUs, stop) ==
      ReadLineFrom(events, len, timeoutUs, stop, 1, [c], timeoutUs, true, false);
  }

  /** readLine as a loop over the read events, in the shape of the C code:
      one event per iteration, a `switch` on what `read` reported, the
      `done` flag, then the timeout test. */
  method ReadLine(events: seq<ReadEvent>, len: int, timeoutUs: int, stop: bool) returns (r: LineRead)
    requires 1 <= len
    ensures r == ReadLineSpec(events, len, timeoutUs, stop)
    ensures r.Finished? ==> NoTerminator(r.line) && |r.line| <= len
    ensures r.Finished? && r.numRead != -1 ==> r.numRead == |r.line|
    ensures r.Finished? && r.numRead == -1 ==> !r.ok && stop
  {
    ReadLineValid(events, len, timeoutUs, stop);
    var budget := timeoutUs;
    var line := "";
    var first := false;
    var eof := false;
    var i := 0;
    r := Pending;
    while i < |events|
      invariant 0 <= i <= |events|
      invariant |line| < len
      invariant ReadLineFrom(events, len, timeoutUs, stop, i, line, budget, first, eof) == ReadLineSpec(events, len, timeoutUs, stop)
      decreases |events| - i
    {
      var done := false;
      var ev := events[i];
      match ev {
        case Fail =>
          return Finished(false, |line|, line, eof, i + 1);
        case Eof =>
          eof := true;
          if stop {
            return Finished(false, -1, line, true, i + 1);
          }
          budget := budget - PollUs;
        case Again =>
          budget := budget - PollUs;
        case Intr =>
        case Byte(c) =>
          if !first {
            first := true;
            budget := timeoutUs;
          }
          if IsTerminator(c) {
            done := true;
          } else {
            line := line + [c];
            if |line| >= len {
              done := true;
            }
          }
      }
      if done {
        return Finished(true, |line|, line, eof, i + 1);
      }
      if budget <= 0 {
        if |line| > 0 {
          return Finished(false, |line|, line, eof, i + 1);
        } else {
          return Finished(true, 0, line, eof, i + 1);
        }
      }
      i := i + 1;
    }
  }
}
