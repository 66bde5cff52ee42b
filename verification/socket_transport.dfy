/** SocketTransport: the receive side of the server. One call of `Tick` is
    one pass of `update_rx`: it asks the endpoint for its state and either
    re-arms it, accepts a client, or reads and frames what the client sent.
    The transport owns the command buffer (the unterminated tail of the
    stream) and the callback counter; the endpoint is passed alongside. */
module SocketTransport {
  import opened Text
  import opened LinuxSocket
  import opened Framing

  datatype ReadMode = LineMode | BlockMode | UntilMode

  /** Size of the receive buffer. */
  const ReadBlockSize: int := 32768

  /** The 1.0 s receive timeout, in microseconds. */
  const ReceiveTimeoutUs: int := 1_000_000

  datatype Transport = Transport(
    cmdBuffer: string,
    invokeCnt: int,
    started: bool,
    mode: ReadMode,
    hasCallback: bool,
    stopOnDisconnect: bool,
    hasSocket: bool)

  /** A freshly constructed transport: block reads, stop on disconnect, no
      socket and no callback yet. */
  const Fresh: Transport := Transport("", 0, false, BlockMode, false, true, false)

  /** init(): succeeds iff a socket has been attached. */
  function Init(t: Transport): (ok: bool)
    ensures ok <==> t.hasSocket
  {
    t.hasSocket
  }

  /** UseSocket and RegisterRecvCallback: attach an endpoint or a receiver. */
  function UseSocket(t: Transport): (r: Transport)
    ensures r.hasSocket && r == t.(hasSocket := true)
  {
    t.(hasSocket := true)
  }

  function RegisterRecvCallback(t: Transport): (r: Transport)
    ensures r.hasCallback && r == t.(hasCallback := true)
  {
    t.(hasCallback := true)
  }

  datatype StartResult = StartResult(ok: bool, t: Transport)

  /** StartComm: needs a socket; spawns the receive thread once. A failed
      spawn fails and leaves the transport stopped; starting again while
      started does nothing. */
  function StartComm(t: Transport, spawnOk: bool): (r: StartResult)
    ensures !t.hasSocket ==> r == StartResult(false, t)
    ensures t.hasSocket && t.started ==> r == StartResult(true, t)
    ensures t.hasSocket && !t.started ==> r.ok == spawnOk && r.t == t.(started := spawnOk)
  {
    if !t.hasSocket then StartResult(false, t)
    else if t.started then StartResult(true, t)
    else if spawnOk then StartResult(true, t.(started := true))
    else StartResult(false, t)
  }

  datatype Link = Link(t: Transport, ep: Endpoint)

  /** StopComm: when started, stops the receive thread and closes both
      sockets (in either order, depending on whether the endpoint was still
      waiting for a client); always succeeds. */
  function StopComm(l: Link): (r: Link)
    ensures !r.t.started
    ensures l.t.started ==> !r.ep.clientSock && !r.ep.serverSock && r.ep.state == l.ep.state
    ensures !l.t.started ==> r == l
    ensures r.t == l.t.(started := false)
  {
    if l.t.started then Link(l.t.(started := false), CloseConnection(l.ep).ep) else l
  }

  /** Outcomes of the system calls one tick may make. */
  datatype TickInputs = TickInputs(
    rc: Reconnect,
    accepted: bool,
    recv: RecvOutcome,
    lineEvents: seq<ReadEvent>)

  /** What one tick did: its return value, the new transport and endpoint,
      the text appended to the command buffer, and the callbacks made. */
  datatype TickResult = TickResult(ok: bool, link: Link, appended: string, frames: seq<string>, invoked: seq<Invocation>)

  /** The read in the CONNECTED state: its success flag, the byte count,
      the bytes left in the receive buffer, and the endpoint afterwards. */
  datatype ReadStep = ReadStep(ok: bool, numRead: int, data: string, ep: Endpoint)

  /** In line mode the read must complete within the events given, and must
      not fill the whole buffer (a full line leaves the buffer without its
      terminating NUL, and the append that follows would run past it). */
  predicate LineReadDefined(ep: Endpoint, inputs: TickInputs, stop: bool)
  {
    var r := ReadLineSpec(inputs.lineEvents, ReadBlockSize, ReceiveTimeoutUs, stop);
    r.Finished? && |r.line| < ReadBlockSize
  }

  predicate TickDefined(l: Link, inputs: TickInputs)
  {
    && l.t.hasSocket
    && (l.ep.state == Connected && l.t.mode == LineMode ==> LineReadDefined(l.ep, inputs, l.t.stopOnDisconnect))
  }

  function ReadConnected(l: Link, inputs: TickInputs): (r: ReadStep)
    requires TickDefined(l, inputs) && l.ep.state == Connected && !l.t.mode.UntilMode?
    ensures r.ok && r.numRead > 0 ==> r.numRead == |r.data|
    ensures '\n' !in r.data || l.t.mode == BlockMode
    ensures |r.data| < ReadBlockSize
  {
    if l.t.mode == LineMode then
      var lr := ReadLineSpec(inputs.lineEvents, ReadBlockSize, ReceiveTimeoutUs, l.t.stopOnDisconnect);
      ReadLineValid(inputs.lineEvents, ReadBlockSize, ReceiveTimeoutUs, l.t.stopOnDisconnect);
      assert NoTerminator(lr.line);
      ReadStep(lr.ok, lr.numRead, lr.line, if lr.eof then l.ep.(state := NoConnection) else l.ep)
    else
      var br := ReadBlock(l.ep, ReadBlockSize - 1, inputs.recv);
      ReadStep(br.ok, br.numRead, br.data, l.ep)
  }

  /** One pass of update_rx. */
  function Tick(l: Link, inputs: TickInputs): (r: TickResult)
    requires TickDefined(l, inputs)
    ensures Framed(r.frames) + r.link.t.cmdBuffer == l.t.cmdBuffer + r.appended
    ensures AllNoNewline(r.frames)
    ensures NoNewline(l.t.cmdBuffer) ==> NoNewline(r.link.t.cmdBuffer)
    ensures r.invoked == Deliver(l.t.invokeCnt, r.frames, l.t.hasCallback).invoked
    ensures r.link.t == l.t.(cmdBuffer := r.link.t.cmdBuffer, invokeCnt := Deliver(l.t.invokeCnt, r.frames, l.t.hasCallback).counter)
    ensures r.appended != "" ==> l.ep.state == Connected
    ensures l.ep.state == Unknown ==> !r.ok && r.link == l
  {
    var t := l.t;
    var ep := l.ep;
    var idle := TickResult(true, l, "", [], []);
    match ep.state
    case Unknown => idle.(ok := false)
    case NoConnection =>
      var c := ResetConnection(ep, inputs.rc);
      TickResult(c.ok, Link(t, c.ep), "", [], [])
    case ServerPortSetup =>
      var c := ListenForClient(ep, inputs.accepted);
      TickResult(c.ok, Link(t, c.ep), "", [], [])
    case ServerListening => idle
    case Connected =>
      if t.mode == UntilMode then idle.(ok := false)
      else
        var rd := ReadConnected(l, inputs);
        var reset := if rd.ok then Call(true, rd.ep) else ResetConnection(rd.ep, inputs.rc);
        var numRead := if rd.ok then rd.numRead else 0;
        if !reset.ok then TickResult(false, Link(t, reset.ep), "", [], [])
        else if numRead <= 0 then TickResult(true, Link(t, reset.ep), "", [], [])
        else
          var appended := UpToNul(rd.data);
          var s := Extract(t.cmdBuffer + appended);
          ExtractLossless(t.cmdBuffer + appended);
          var d := Deliver(t.invokeCnt, s.frames, t.hasCallback);
          TickResult(true, Link(t.(cmdBuffer := s.rest, invokeCnt := d.counter), reset.ep), appended, s.frames, d.invoked)
  }

  /** What each connection state makes a tick do: NO_CONNECTION resets,
      SERVER_PORT_SETUP waits for a client, SERVER_LISTENING does nothing,
      and CONNECTED reads; a failed read resets the connection and leaves
      the command buffer as it was, so a partial frame outlives the
      session. */
  lemma TickStates(l: Link, inputs: TickInputs)
    requires TickDefined(l, inputs)
    ensures var r := Tick(l, inputs); var c := ResetConnection(l.ep, inputs.rc);
      l.ep.state == NoConnection ==> r == TickResult(c.ok, Link(l.t, c.ep), "", [], [])
    ensures var r := Tick(l, inputs); var c := ListenForClient(l.ep, inputs.accepted);
      l.ep.state == ServerPortSetup ==> r == TickResult(c.ok, Link(l.t, c.ep), "", [], [])
    ensures l.ep.state == ServerListening ==> Tick(l, inputs) == TickResult(true, l, "", [], [])
    ensures l.ep.state == Connected && l.t.mode == UntilMode ==> !Tick(l, inputs).ok && Tick(l, inputs).link == l
    ensures var r := Tick(l, inputs);
      l.ep.state == Connected && l.t.mode != UntilMode && !ReadConnected(l, inputs).ok ==>
        && r.appended == "" && r.frames == [] && r.link.t == l.t
        && r.ok == ResetConnection(ReadConnected(l, inputs).ep, inputs.rc).ok
    ensures l.ep.state == Connected && l.t.mode != UntilMode ==>
      var rd := ReadConnected(l, inputs);
      rd.ok && rd.numRead > 0 ==> Tick(l, inputs).ok && Tick(l, inputs).appended == UpToNul(rd.data)
  {
  }

  /** With a newline-free buffer (as `Tick` keeps it), a
      tick's frames and new buffer are exactly the extraction from the old
      buffer followed by what the tick appended. */
  lemma TickIsExtract(l: Link, inputs: TickInputs)
    requires TickDefined(l, inputs) && NoNewline(l.t.cmdBuffer)
    ensures var r := Tick(l, inputs);
      Extract(l.t.cmdBuffer + r.appended) == Split(r.frames, r.link.t.cmdBuffer)
  {
    var r := Tick(l, inputs);
    ExtractUnique(l.t.cmdBuffer + r.appended, r.frames, r.link.t.cmdBuffer);
  }

  /** In line mode the terminator is stripped before the line reaches the
      command buffer, so no newline ever enters it and no frame is ever
      delivered: line mode never reaches the receive callback. */
  lemma LineModeNeverFrames(l: Link, inputs: TickInputs)
    requires TickDefined(l, inputs) && NoNewline(l.t.cmdBuffer) && l.t.mode == LineMode
    ensures var r := Tick(l, inputs);
      r.frames == [] && r.invoked == [] && r.link.t.cmdBuffer == l.t.cmdBuffer + r.appended
  {
    var r := Tick(l, inputs);
    if r.appended != "" {
      var rd := ReadConnected(l, inputs);
      assert r.appended == UpToNul(rd.data);
      assert NoNewline(r.appended);
    }
    TickIsExtract(l, inputs);
    ExtractNoNewline(l.t.cmdBuffer + r.appended);
  }

  /** A run of ticks, each one defined in the state the previous one left. */
  predicate RunDefined(l: Link, ins: seq<TickInputs>)
    decreases |ins|
  {
    |ins| == 0 || (TickDefined(l, ins[0]) && RunDefined(Tick(l, ins[0]).link, ins[1..]))
  }

  datatype RunResult = RunResult(link: Link, received: string, frames: seq<string>, invoked: seq<Invocation>)

  /** The thread loop of the receive side, over finitely many passes. */
  function Run(l: Link, ins: seq<TickInputs>): (r: RunResult)
    requires RunDefined(l, ins)
    decreases |ins|
  {
    if |ins| == 0 then RunResult(l, "", [], [])
    else
      var t := Tick(l, ins[0]);
      var rest := Run(t.link, ins[1..]);
      RunResult(rest.link, t.appended + rest.received, t.frames + rest.frames, t.invoked + rest.invoked)
  }

  /** Over any run, the frames delivered are exactly the newline-separated
      frames of the buffer followed by everything received, however the
      stream was split into reads, and the buffer ends holding the
      unterminated tail; with a callback, every frame is handed over in
      order with consecutive sequence numbers. */
  lemma {:induction false} RunIsExtract(l: Link, ins: seq<TickInputs>)
    requires RunDefined(l, ins) && NoNewline(l.t.cmdBuffer)
    ensures var r := Run(l, ins);
      Extract(l.t.cmdBuffer + r.received) == Split(r.frames, r.link.t.cmdBuffer)
    ensures var r := Run(l, ins);
      r.invoked == Deliver(l.t.invokeCnt, r.frames, l.t.hasCallback).invoked &&
      r.link.t.invokeCnt == Deliver(l.t.invokeCnt, r.frames, l.t.hasCallback).counter
    decreases |ins|
  {
    if |ins| > 0 {
      var t := Tick(l, ins[0]);
      var rest := Run(t.link, ins[1..]);
      assert Run(l, ins) == RunResult(rest.link, t.appended + rest.received, t.frames + rest.frames, t.invoked + rest.invoked);
      TickIsExtract(l, ins[0]);
      assert t.link.t.hasCallback == l.t.hasCallback;
      RunIsExtract(t.link, ins[1..]);
      ExtractCombine(l.t.cmdBuffer, t.appended, t.frames, t.link.t.cmdBuffer, rest.received, rest.frames, rest.link.t.cmdBuffer);
      DeliverCombine(l.t.invokeCnt, t.frames, rest.frames, l.t.hasCallback, t.invoked, t.link.t.invokeCnt, rest.invoked, rest.link.t.invokeCnt);
    } else {
      ExtractNoNewline(l.t.cmdBuffer);
      assert l.t.cmdBuffer + "" == l.t.cmdBuffer;
    }
  }

  /** Two extractions in turn, the second from the tail the first left,
      are one extraction from all the text. */
  lemma ExtractCombine(buf: string, a: string, fa: seq<string>, ra: string, b: string, fb: seq<string>, rb: string)
    requires Extract(buf + a) == Split(fa, ra)
    requires Extract(ra + b) == Split(fb, rb)
    ensures Extract(buf + (a + b)) == Split(fa + fb, rb)
  {
    Assoc(buf, a, b);
    ExtractChunked(buf + a, b);
  }

  lemma Assoc(x: string, y: string, z: string)
    ensures x + (y + z) == (x + y) + z
  {
  }

  lemma DeliverCombine(c: int, fa: seq<string>, fb: seq<string>, h: bool, ia: seq<Invocation>, ca: int, ib: seq<Invocation>, cb: int)
    requires ia == Deliver(c, fa, h).invoked && ca == Deliver(c, fa, h).counter
    requires ib == Deliver(ca, fb, h).invoked && cb == Deliver(ca, fb, h).counter
    ensures ia + ib == Deliver(c, fa + fb, h).invoked && cb == Deliver(c, fa + fb, h).counter
  {
    DeliverAppend(c, fa, fb, h);
  }

  /** Over two passes of update_rx: a CONNECTED pass whose read fails resets
      the connection and keeps the command buffer, so when a later pass
      appends `a`, a newline and `b`, the first frame it delivers is the
      old session's unterminated tail followed by `a`. */
  lemma ResetKeepsTail(l: Link, i1: TickInputs, i2: TickInputs, a: string, b: string)
    requires TickDefined(l, i1) && l.ep.state == Connected && l.t.mode != UntilMode
    requires NoNewline(l.t.cmdBuffer) && NoNewline(a)
    requires !ReadConnected(l, i1).ok
    requires TickDefined(Tick(l, i1).link, i2)
    requires Tick(Tick(l, i1).link, i2).appended == a + [NL] + b
    ensures Tick(l, i1).frames == [] && Tick(l, i1).link.t.cmdBuffer == l.t.cmdBuffer
    ensures var r2 := Tick(Tick(l, i1).link, i2);
      r2.frames != [] && r2.frames[0] == l.t.cmdBuffer + a
  {
    TickStates(l, i1);
    var l2 := Tick(l, i1).link;
    TickIsExtract(l2, i2);
    StaleTailPrefixesNextFrame(l.t.cmdBuffer, a, b);
  }

  /** The command buffer survives a reconnect: the unterminated tail of a
      dropped session becomes the start of the first frame of the next. */
  lemma StaleTailPrefixesNextFrame(tail: string, a: string, b: string)
    requires NoNewline(tail) && NoNewline(a)
    ensures Extract(tail + (a + [NL] + b)).frames != []
    ensures Extract(tail + (a + [NL] + b)).frames[0] == tail + a
  {
    var f := tail + a;
    var buf := tail + (a + [NL] + b);
    assert buf == f + [NL] + b;
    assert NL !in f;
    var k := IndexOf(buf, NL);
    assert buf[|f|] == NL;
    assert forall i :: 0 <= i < |f| ==> buf[i] == f[i];
    assert buf[..k] == f;
  }
}
