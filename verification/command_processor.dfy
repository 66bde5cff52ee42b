/** CommandProcessor: queues the frames the transport delivers, and on each
    pass of its worker takes the oldest frame, classifies it (quit,
    unparsable, no method, registry write, registry read, build stats, or
    anything else for the printer API), builds a JSON-RPC style reply with
    a `log_msgs` array, and sends the reply's text followed by a newline.

    The JSON parser and printer and the printer API are not part of this
    model: they are passed in as functions. The registry file is passed in
    as the document a load would give (absent when the load fails). */
module CommandProcessor {
  import opened Outcomes
  import opened Json
  import opened Text
  import opened CntJson
  import opened Registry
  import opened Framing
  import LinuxSocket
  import SocketTransport

  datatype Processor = Processor(
    running: bool,
    exitOnQuit: bool,
    fifo: seq<string>,
    buildStats: string,
    xmlFiles: map<string, string>)

  /** A freshly constructed processor. */
  const Fresh: Processor := Processor(false, true, [], "", map[])

  /** The XML file table entry the registry handler loads and saves. */
  const XusbKey: string := "XUSB"

  /** `std::map::operator[]`: reading an entry inserts it, with an empty
      file name, when it is absent. */
  function Touch(m: map<string, string>, k: string): (r: map<string, string>)
    ensures r.Keys == m.Keys + {k}
    ensures forall j :: j in m ==> r[j] == m[j]
    ensures k !in m ==> r[k] == ""
  {
    if k in m then m else m[k := ""]
  }

  /** A second lookup of the same entry changes nothing. */
  lemma TouchIdempotent(m: map<string, string>, k: string)
    ensures Touch(Touch(m, k), k) == Touch(m, k)
    ensures k in m ==> Touch(m, k) == m
  {
  }

  /** `b` is `a`, or `a` after the entry `k` was looked up. */
  predicate TouchedAt(a: map<string, string>, b: map<string, string>, k: string)
  {
    b == a || b == Touch(a, k)
  }

  /** recvCBRoutine: the frame goes to the back of the queue. */
  function Receive(p: Processor, frame: string): (r: Processor)
    ensures r.fifo == p.fifo + [frame]
    ensures r == p.(fifo := r.fifo)
  {
    p.(fifo := p.fifo + [frame])
  }

  /** Receive each frame in turn. */
  function ReceiveAll(p: Processor, frames: seq<string>): (r: Processor)
    ensures r.fifo == p.fifo + frames
    ensures r == p.(fifo := r.fifo)
    decreases |frames|
  {
    if |frames| == 0 then p
    else ReceiveAll(Receive(p, frames[0]), frames[1..])
  }

  function SetBuildStats(p: Processor, stats: string): (r: Processor)
    ensures r == p.(buildStats := stats)
  {
    p.(buildStats := stats)
  }

  /** What the printer API returns for a request: a response object's
      children (absent for NULL) and the log lines it added. */
  datatype ApiReply = ApiReply(resp: Option<seq<Member>>, logs: seq<string>)

  /** The collaborators this module does not model. */
  datatype Services = Services(
    parse: string -> Option<JValue>,
    render: JValue -> string,
    api: JValue -> ApiReply)

  /** A reply before `log_msgs` is attached: the response object's children
      and the log lines gathered while handling the request. */
  datatype Reply = Reply(members: seq<Member>, logs: seq<string>)

  /** The reply object that is printed: the response with `log_msgs` last. */
  function ReplyObject(r: Reply): (v: JValue)
    ensures v.JObject? && |v.members| == |r.members| + 1
    ensures v.members[|r.members|] == Member("log_msgs", StringArray(r.logs))
  {
    JObject(r.members + [Member("log_msgs", StringArray(r.logs))])
  }

  /** `{"error_code": code, "Success": false}` under `result`. */
  function ErrorResult(code: int): Member
  {
    Member("result", JObject([Member("error_code", Num(code)), Member("Success", JFalse)]))
  }

  const UnparsableCode: int := -993
  const NoMethodCode: int := -992
  const HandlerFailedCode: int := -991

  /** How a frame was handled: answered (with whether it was the quit
      command, the registry document afterwards, and whether the handler
      looked up the registry file's name to load it), or a frame on which
      the C++ code has undefined behaviour. */
  datatype Dispatch = Answered(reply: Reply, quit: bool, doc: Option<RegDoc>, loadsRegistry: bool) | Undefined

  /** getBuildStats: one string per line of the build statistics. */
  function BuildStatsReply(rpc: JValue, stats: string): (r: Reply)
    requires rpc.JObject?
    ensures r.logs == []
    ensures Keys(r.members) == ["id", "result"]
    ensures GetId(JObject(r.members)) == GetId(rpc)
  {
    var result := JObject([Member("Success", JTrue), Member("build_stats", StringArray(GetlineSplit(stats, '\n')))]);
    var ms := RespFor(rpc) + [Member("result", result)];
    assert !KeyedKind(ms, "id", KNumber, 1);
    Reply(ms, [])
  }

  /** The build-statistics array loses nothing: its strings joined with
      newlines give back the statistics (but for one final newline), and no
      string holds a newline. */
  lemma BuildStatsLossless(rpc: JValue, stats: string)
    requires rpc.JObject?
    ensures var lines := BuildStatsReply(rpc, stats).members[1].value.members[1].value.items;
      forall i :: 0 <= i < |lines| ==> lines[i].JString? && '\n' !in lines[i].str
    ensures var lines := GetlineSplit(stats, '\n');
      BuildStatsReply(rpc, stats).members[1].value.members[1].value == StringArray(lines) &&
      Join(lines + (if EndsWith(stats, '\n') then [""] else []), '\n') == stats
  {
    GetlineSplitSpec(stats, '\n');
    if !EndsWith(stats, '\n') {
      assert GetlineSplit(stats, '\n') + [] == GetlineSplit(stats, '\n');
    }
  }

  /** A handler's result: a NULL response becomes the -991 error, with one
      more log line. */
  function Finish(rpc: JValue, resp: Option<seq<Member>>, logs: seq<string>): (r: Reply)
    requires rpc.JObject?
    ensures resp.Some? ==> r == Reply(resp.value, logs)
    ensures resp.None? ==> r.members == RespFor(rpc) + [ErrorResult(HandlerFailedCode)]
    ensures resp.None? ==> r.logs == logs + ["Error in RPC method"]
  {
    match resp
    case Some(ms) => Reply(ms, logs)
    case None => Reply(RespFor(rpc) + [ErrorResult(HandlerFailedCode)], logs + ["Error in RPC method"])
  }

  /** Route a request that names a method: the first of the registry write,
      registry read and build-statistics names that occurs in it wins; any
      other method goes to the printer API. */
  function Route(rpc: JValue, name: string, stats: string, svc: Services, doc: Option<RegDoc>): (d: Dispatch)
    requires rpc.JObject?
    ensures d.Answered? ==> !d.quit
    ensures !Contains(name, "setRegistrySetting") ==> d.Answered? && d.doc == doc
    ensures Contains(name, "setRegistrySetting") ==> (d.Undefined? <==> SetRegistrySetting(rpc.members, doc).RegUndefined?)
    ensures d.Answered? ==> (d.loadsRegistry <==> Contains(name, "setRegistrySetting") && RequestParams(rpc.members).Request?)
  {
    if Contains(name, "setRegistrySetting") then
      match SetRegistrySetting(rpc.members, doc)
      case RegUndefined => Undefined
      case RegDone(resp, logs, doc') => Answered(Finish(rpc, resp, logs), false, doc', RequestParams(rpc.members).Request?)
    else if Contains(name, "getRegistrySetting") then
      Answered(Reply(RespFor(rpc) + [Member("result", JObject([Member("Success", JFalse)]))],
                     ["getRegistrySetting not yet implemented..."]), false, doc, false)
    else if Contains(name, "getBuildStats") then
      Answered(BuildStatsReply(rpc, stats), false, doc, false)
    else
      var a := svc.api(rpc);
      Answered(Finish(rpc, a.resp, a.logs), false, doc, false)
  }

  /** The handler names are tried in a fixed order and the first one the
      method name contains wins; anything else goes to the printer API. */
  lemma RouteFirstMatchWins(rpc: JValue, name: string, stats: string, svc: Services, doc: Option<RegDoc>)
    requires rpc.JObject?
    ensures var d := Route(rpc, name, stats, svc, doc);
      Contains(name, "setRegistrySetting") && d.Answered? ==>
        d.reply == Finish(rpc, SetRegistrySetting(rpc.members, doc).resp, SetRegistrySetting(rpc.members, doc).logs)
    ensures !Contains(name, "setRegistrySetting") && Contains(name, "getRegistrySetting") ==>
      Route(rpc, name, stats, svc, doc).reply ==
        Reply(RespFor(rpc) + [Member("result", JObject([Member("Success", JFalse)]))], ["getRegistrySetting not yet implemented..."])
    ensures !Contains(name, "setRegistrySetting") && !Contains(name, "getRegistrySetting") && Contains(name, "getBuildStats") ==>
      Route(rpc, name, stats, svc, doc).reply == BuildStatsReply(rpc, stats)
    ensures !Contains(name, "setRegistrySetting") && !Contains(name, "getRegistrySetting") && !Contains(name, "getBuildStats") ==>
      Route(rpc, name, stats, svc, doc).reply == Finish(rpc, svc.api(rpc).resp, svc.api(rpc).logs)
  {
  }

  /** The reply to a frame that mentions `quit` anywhere. */
  function QuitReply(): (r: Reply)
    ensures Keys(r.members) == ["id"] && GetId(JObject(r.members)) == 0
    ensures r.logs == ["ScorpionServer shutting down..."]
  {
    Reply(RespFor(CreateRpc("quit", 0)), ["ScorpionServer shutting down..."])
  }

  /** Classify and answer one frame. */
  function Classify(frame: string, stats: string, svc: Services, doc: Option<RegDoc>): (d: Dispatch)
    ensures Contains(frame, "quit") ==> d == Answered(QuitReply(), true, doc, false)
    ensures d.Answered? && d.quit ==> Contains(frame, "quit")
    ensures !Contains(frame, "quit") && svc.parse(frame).None? ==>
      d == Answered(Reply(RespMembers(0) + [ErrorResult(UnparsableCode)], ["Invalid RPC message; could not parse"]), false, doc, false)
    ensures (!Contains(frame, "quit") && svc.parse(frame).Some? && svc.parse(frame).value.JObject? &&
             GetString(svc.parse(frame).value, "method").Some?) ==>
      d == Route(svc.parse(frame).value, GetString(svc.parse(frame).value, "method").value, stats, svc, doc)
  {
    if Contains(frame, "quit") then Answered(QuitReply(), true, doc, false)
    else match svc.parse(frame)
      case None =>
        var unknown := CreateRpc("unknown", 0);
        Answered(Reply(RespFor(unknown) + [ErrorResult(UnparsableCode)], ["Invalid RPC message; could not parse"]), false, doc, false)
      case Some(v) => AnswerParsed(v, stats, svc, doc)
  }

  /** Answer a frame that parsed: look for a string `method` and route it.
      On a bare string, and on a bare number without a `method`, the
      getters read through a NULL key, which is undefined behaviour. */
  function AnswerParsed(v: JValue, stats: string, svc: Services, doc: Option<RegDoc>): (d: Dispatch)
    ensures d.Answered? ==> !d.quit
    ensures d.Answered? && d.loadsRegistry ==> v.JObject? && RequestParams(v.members).Request?
    ensures v.JObject? && GetString(v, "method").Some? ==> d == Route(v, GetString(v, "method").value, stats, svc, doc)
    ensures d.Undefined? && !v.JString? && !v.JNumber? ==> v.JObject? && exists name :: GetString(v, "method") == Some(name)
  {
    if v.JString? then Undefined
    else match GetString(v, "method")
      case None =>
        if v.JNumber? then Undefined
        else Answered(Reply(RespFor(v) + [ErrorResult(NoMethodCode)], ["No method listed in RPC"]), false, doc, false)
      case Some(name) => Route(v, name, stats, svc, doc)
  }

  /** What one pass did with the frame it took. */
  datatype Handled = Handled(frame: string, dispatch: Dispatch, sent: string, delivered: bool)

  datatype ProcessResult = ProcessResult(ok: bool, p: Processor, handled: Option<Handled>)

  /** The text sent for a reply: the printed object and a newline. */
  function Wire(svc: Services, r: Reply): (s: string)
    ensures |s| > 0 && s[|s| - 1] == '\n'
  {
    svc.render(ReplyObject(r)) + "\n"
  }

  /** ProcessCommands: one pass of the worker. Does nothing unless running
      with a frame queued; otherwise takes the oldest frame, answers it,
      stops the processor on `quit` when so configured, and sends the
      reply to the connected client. A registry write that gets as far as
      loading the file looks its name up in the XML file table, which adds
      an empty entry when there was none. */
  function ProcessCommands(p: Processor, svc: Services, doc: Option<RegDoc>, ep: LinuxSocket.Endpoint, sendOk: bool): (r: ProcessResult)
    ensures r.ok <==> p.running && |p.fifo| > 0
    ensures !r.ok ==> r == ProcessResult(false, p, None)
    ensures r.ok ==> r.handled.Some? && r.handled.value.frame == p.fifo[0] && r.p.fifo == p.fifo[1..]
    ensures r.ok ==> r.handled.value.dispatch == Classify(p.fifo[0], p.buildStats, svc, doc)
    ensures r.ok ==> r.p == p.(fifo := r.p.fifo, running := r.p.running, xmlFiles := r.p.xmlFiles)
    ensures r.ok ==> TouchedAt(p.xmlFiles, r.p.xmlFiles, XusbKey)
    ensures r.ok ==> (r.p.xmlFiles == Touch(p.xmlFiles, XusbKey) <==>
      XusbKey in p.xmlFiles || (r.handled.value.dispatch.Answered? && r.handled.value.dispatch.loadsRegistry))
    ensures r.ok ==> (r.p.running <==> !(Contains(p.fifo[0], "quit") && p.exitOnQuit))
    ensures r.ok && r.handled.value.dispatch.Answered? ==>
      r.handled.value.sent == Wire(svc, r.handled.value.dispatch.reply) &&
      r.handled.value.delivered == (ep.clientSock && sendOk)
    ensures r.ok && r.handled.value.dispatch.Undefined? ==> r.handled.value.sent == ""
  {
    if !p.running || |p.fifo| == 0 then ProcessResult(false, p, None)
    else
      var frame := p.fifo[0];
      var d := Classify(frame, p.buildStats, svc, doc);
      var p1 := p.(fifo := p.fifo[1..]);
      match d
      case Undefined => ProcessResult(true, p1, Some(Handled(frame, d, "", false)))
      case Answered(reply, quit, _, loads) =>
        var text := Wire(svc, reply);
        var delivered := LinuxSocket.SendData(ep, |text|, sendOk);
        var files := if loads then Touch(p.xmlFiles, XusbKey) else p.xmlFiles;
        ProcessResult(true, p1.(running := !(quit && p.exitOnQuit), xmlFiles := files), Some(Handled(frame, d, text, delivered)))
  }

  /** A parsed frame other than a bare string or number, without a string
      `method`, is answered with -992 and the matching log line. The reply
      carries the request's own id, which is -9999 for an array, `null`,
      `true` or `false`. */
  lemma NoMethodReply(frame: string, v: JValue, stats: string, svc: Services, doc: Option<RegDoc>)
    requires !Contains(frame, "quit")
    requires svc.parse(frame) == Some(v) && !v.JString? && !v.JNumber?
    requires GetString(v, "method").None?
    ensures Classify(frame, stats, svc, doc).reply == Reply(RespFor(v) + [ErrorResult(NoMethodCode)], ["No method listed in RPC"])
    ensures !v.JObject? ==> GetId(JObject(Classify(frame, stats, svc, doc).reply.members)) == InvalidId
  {
    var d := Classify(frame, stats, svc, doc);
    assert d == AnswerParsed(v, stats, svc, doc);
    assert d.reply == Reply(RespFor(v) + [ErrorResult(NoMethodCode)], ["No method listed in RPC"]);
    if !v.JObject? {
      NoMethodId(v);
    }
  }

  lemma NoMethodId(v: JValue)
    requires !v.JObject? && !v.JString? && !v.JNumber?
    ensures GetId(JObject(RespFor(v) + [ErrorResult(NoMethodCode)])) == InvalidId
  {
    var ms := RespFor(v) + [ErrorResult(NoMethodCode)];
    assert !KeyedKind(ms, "id", KNumber, |ms| - 1);
  }

  /** A request that falls through to the printer API, whose handler
      produced no response, is answered with -991 after the handler's own
      log lines. */
  lemma HandlerFailedReply(frame: string, v: JValue, name: string, stats: string, svc: Services, doc: Option<RegDoc>)
    requires !Contains(frame, "quit")
    requires svc.parse(frame) == Some(v) && v.JObject?
    requires GetString(v, "method") == Some(name)
    requires !Contains(name, "setRegistrySetting") && !Contains(name, "getRegistrySetting") && !Contains(name, "getBuildStats")
    requires svc.api(v).resp.None?
    ensures Classify(frame, stats, svc, doc).reply == Reply(RespFor(v) + [ErrorResult(HandlerFailedCode)], svc.api(v).logs + ["Error in RPC method"])
  {
    RouteFirstMatchWins(v, name, stats, svc, doc);
  }

  /** `quit` is found anywhere in the frame and takes priority over any
      method: even a well-formed request whose text mentions it is
      answered as quit, and stops the processor when exit-on-quit is set. */
  lemma QuitAnywhere(p: Processor, prefix: string, suffix: string, svc: Services, doc: Option<RegDoc>, ep: LinuxSocket.Endpoint, sendOk: bool)
    requires p.running && p.fifo != [] && p.fifo[0] == prefix + "quit" + suffix
    ensures var r := ProcessCommands(p, svc, doc, ep, sendOk);
      r.handled.value.dispatch == Answered(QuitReply(), true, doc, false) && (r.p.running <==> !p.exitOnQuit)
  {
    assert Contains("quit", "quit");
    ContainsExtend(prefix, "quit", suffix, "quit");
  }

  /** A registry write whose parameters are complete looks up the "XUSB"
      entry of the XML file table, and so adds it with an empty file name
      when it was missing, whether or not the load then succeeds. */
  lemma RegistryWriteAddsXusbEntry(p: Processor, v: JValue, name: string, svc: Services, doc: Option<RegDoc>, ep: LinuxSocket.Endpoint, sendOk: bool)
    requires p.running && |p.fifo| > 0 && !Contains(p.fifo[0], "quit")
    requires svc.parse(p.fifo[0]) == Some(v) && v.JObject?
    requires GetString(v, "method") == Some(name) && Contains(name, "setRegistrySetting")
    requires RequestParams(v.members).Request?
    ensures var r := ProcessCommands(p, svc, doc, ep, sendOk);
      r.p.xmlFiles == Touch(p.xmlFiles, XusbKey) && XusbKey in r.p.xmlFiles
  {
    assert SetRegistrySetting(v.members, doc).RegDone?;
    var d := Route(v, name, p.buildStats, svc, doc);
    assert d.Answered? && d.loadsRegistry;
    assert Classify(p.fifo[0], p.buildStats, svc, doc) == d;
  }

  /** The reply is one frame for a reader that splits at newlines, provided
      the printer writes no newline of its own (cJSON's unformatted printer
      escapes newlines in strings). */
  lemma ReplyIsOneFrame(svc: Services, r: Reply)
    requires '\n' !in svc.render(ReplyObject(r))
    ensures Extract(Wire(svc, r)) == Split([svc.render(ReplyObject(r))], "")
  {
    var s := svc.render(ReplyObject(r));
    assert Framed([s]) + "" == Wire(svc, r) by {
      assert [s][1..] == [];
    }
    ExtractUnique(Wire(svc, r), [s], "");
  }

  /** The passes of `thread_func` (which loops until told to stop,
      sleeping between passes) up to the first that finds nothing to do,
      collecting the frames they took. Frames are
      handled first in, first out. With exit-on-quit set (the default) the
      worker stops right after the first frame that mentions `quit`, and
      the frames behind it stay queued; otherwise it empties the queue.
      The registry document each pass loads is the one the previous write
      saved. */
  method DrainQueue(p: Processor, svc: Services, doc: Option<RegDoc>, ep: LinuxSocket.Endpoint) returns (q: Processor, taken: seq<string>)
    requires p.running
    ensures taken + q.fifo == p.fifo
    ensures q == p.(fifo := q.fifo, running := q.running, xmlFiles := q.xmlFiles)
    ensures TouchedAt(p.xmlFiles, q.xmlFiles, XusbKey)
    ensures q.running ==> q.fifo == []
    ensures q.running <==> forall i :: 0 <= i < |taken| ==> !(p.exitOnQuit && Contains(taken[i], "quit"))
    ensures forall i :: 0 <= i < |taken| - 1 ==> !(p.exitOnQuit && Contains(taken[i], "quit"))
    ensures !p.exitOnQuit ==> taken == p.fifo && q.running
  {
    q := p;
    taken := [];
    var cur := doc;
    while q.running && |q.fifo| > 0
      invariant taken + q.fifo == p.fifo
      invariant q == p.(fifo := q.fifo, running := q.running, xmlFiles := q.xmlFiles)
      invariant TouchedAt(p.xmlFiles, q.xmlFiles, XusbKey)
      invariant forall i :: 0 <= i < |taken| - 1 ==> !(p.exitOnQuit && Contains(taken[i], "quit"))
      invariant q.running <==> forall i :: 0 <= i < |taken| ==> !(p.exitOnQuit && Contains(taken[i], "quit"))
      decreases |q.fifo|
    {
      var frame, next, after := TakeFront(q, svc, cur, ep);
      assert [q.fifo[0]] + q.fifo[1..] == q.fifo;
      assert q.exitOnQuit == p.exitOnQuit;
      ghost var before := taken;
      taken := taken + [frame];
      assert forall i :: 0 <= i < |before| ==> taken[i] == before[i];
      assert taken[|before|] == frame;
      q := next;
      cur := after;
    }
  }

  /** One pass of a running processor with a frame queued: it pops the
      front frame, stops on `quit` when exit-on-quit is set, may add the
      registry file's entry, and changes nothing else. It also gives the
      document the registry file holds afterwards. */
  method TakeFront(q: Processor, svc: Services, doc: Option<RegDoc>, ep: LinuxSocket.Endpoint) returns (frame: string, next: Processor, after: Option<RegDoc>)
    requires q.running && |q.fifo| > 0
    ensures frame == q.fifo[0]
    ensures next == q.(fifo := q.fifo[1..], running := next.running, xmlFiles := next.xmlFiles)
    ensures next.running <==> !(q.exitOnQuit && Contains(frame, "quit"))
    ensures TouchedAt(q.xmlFiles, next.xmlFiles, XusbKey)
  {
    var s := ProcessCommands(q, svc, doc, ep, true);
    frame := s.handled.value.frame;
    next := s.p;
    after := if s.handled.value.dispatch.Answered? then s.handled.value.dispatch.doc else doc;
  }

  /** The whole receive path: over any run of transport passes with the
      processor's callback registered, the queue gains exactly the
      newline-separated frames of the stream (the buffered tail followed by
      everything received), in order, however the stream was split into
      reads. */
  lemma StreamToQueue(p: Processor, l: SocketTransport.Link, ins: seq<SocketTransport.TickInputs>)
    requires SocketTransport.RunDefined(l, ins) && NoNewline(l.t.cmdBuffer) && l.t.hasCallback
    ensures var run := SocketTransport.Run(l, ins);
      ReceiveAll(p, FramesOf(run.invoked)).fifo == p.fifo + Extract(l.t.cmdBuffer + run.received).frames
  {
    var run := SocketTransport.Run(l, ins);
    SocketTransport.RunIsExtract(l, ins);
    DeliveredFrames(l.t.invokeCnt, run.frames);
  }

  // ---------------------------------------------------------------------------
  // Init, Start, Shutdown
  // ---------------------------------------------------------------------------

  /** Each entry must be an object whose first child is a string: the code
      reads the entry's first child's key and string unchecked. */
  predicate EntryDefined(e: JValue)
  {
    e.JObject? && |e.members| > 0 && e.members[0].value.JString?
  }

  /** Insert each entry's first child (key, text); `std::map::insert` keeps
      an existing key. */
  function AddXmlFiles(es: seq<JValue>, m: map<string, string>): (r: map<string, string>)
    requires forall i :: 0 <= i < |es| ==> es[i].JObject? && |es[i].members| > 0 && es[i].members[0].value.JString?
    ensures forall k :: k in m ==> k in r && r[k] == m[k]
    ensures forall k :: k in r <==> k in m || exists i :: 0 <= i < |es| && es[i].members[0].key == k
    decreases |es|
  {
    if |es| == 0 then m
    else
      var f := es[0].members[0];
      var m1 := if f.key in m then m else m[f.key := f.value.str];
      var r := AddXmlFiles(es[1..], m1);
      assert forall i :: 1 <= i < |es| ==> es[1..][i - 1] == es[i];
      r
  }

  /** The first entry naming a key decides its file. */
  lemma {:induction false} AddXmlFilesFirstWins(es: seq<JValue>, m: map<string, string>, j: int)
    requires forall i :: 0 <= i < |es| ==> es[i].JObject? && |es[i].members| > 0 && es[i].members[0].value.JString?
    requires 0 <= j < |es| && es[j].members[0].key !in m
    requires forall i :: 0 <= i < j ==> es[i].members[0].key != es[j].members[0].key
    ensures AddXmlFiles(es, m)[es[j].members[0].key] == es[j].members[0].value.str
    decreases |es|
  {
    var f := es[0].members[0];
    var m1 := if f.key in m then m else m[f.key := f.value.str];
    if j > 0 {
      assert es[1..][j - 1] == es[j];
      AddXmlFilesFirstWins(es[1..], m1, j - 1);
    }
  }

  /** The XML_Files entry of the configuration, if any. */
  function XmlEntries(config: JValue): (es: seq<JValue>)
    requires config.JObject?
  {
    match Item(config.members, "XML_Files")
    case Some(x) => Children(x)
    case None => []
  }

  /** The configurations on which Init is defined: the `ipAddress` getter
      reads through a NULL key on a bare string, and once both `ipAddress`
      and `port` are found (so the configuration is an object) every
      `XML_Files` entry is read unchecked. A configuration without them is
      rejected before anything else is read. */
  predicate ConfigDefined(config: JValue)
  {
    && !config.JString?
    && (GetString(config, "ipAddress").Some? && GetInt(config, "port").Some? ==>
          forall e :: e in XmlEntries(config) ==> EntryDefined(e))
  }

  /** Configurations without `ipAddress` are rejected cleanly, whatever
      else they hold: a bare number, and an object whose `XML_Files` entry
      is malformed. */
  lemma InitRejectsWithoutAddress(p: Processor, setup: LinuxSocket.ServerSetup, rc: LinuxSocket.Reconnect, apiOk: bool)
    ensures ConfigDefined(Num(7)) && Init(p, Num(7), setup, rc, apiOk) == InitResult(false, p, None)
    ensures var c := JObject([Member("XML_Files", JArray([JNull]))]);
      ConfigDefined(c) && Init(p, c, setup, rc, apiOk) == InitResult(false, p, None)
  {
    var c := JObject([Member("XML_Files", JArray([JNull]))]);
    assert GetString(c, "ipAddress").None? by {
      assert !KeyedKind(c.members, "ipAddress", KString, 0);
    }
  }

  datatype InitResult = InitResult(ok: bool, p: Processor, link: Option<SocketTransport.Link>)

  /** Init(config): needs `ipAddress` and `port`; records the XML files
      and the exit-on-quit flag (default true); sets up a server endpoint
      on the port; attaches it to a new transport with this processor's
      callback; and starts the printer API, which may fail. */
  function Init(p: Processor, config: JValue, setup: LinuxSocket.ServerSetup, rc: LinuxSocket.Reconnect, apiOk: bool): (r: InitResult)
    requires ConfigDefined(config)
    ensures GetString(config, "ipAddress").None? || GetInt(config, "port").None? ==> r == InitResult(false, p, None)
    ensures r.ok <==> GetString(config, "ipAddress").Some? && GetInt(config, "port").Some? && setup == LinuxSocket.SetupOk && apiOk
    ensures GetString(config, "ipAddress").Some? && GetInt(config, "port").Some? ==>
      r.p.exitOnQuit == GetBool(config, "exit_on_quit").GetOr(true)
    ensures GetString(config, "ipAddress").Some? && GetInt(config, "port").Some? ==>
      && config.JObject?
      && (forall i :: 0 <= i < |XmlEntries(config)| ==> EntryDefined(XmlEntries(config)[i]))
      && r.p.xmlFiles == AddXmlFiles(XmlEntries(config), p.xmlFiles)
    ensures r.ok ==> r.link.Some? && r.link.value.ep.state == LinuxSocket.ServerPortSetup
    ensures r.ok ==> r.link.Some? && r.link.value.ep.port == GetInt(config, "port").value
    ensures r.ok ==> r.link.Some? && r.link.value.t.hasSocket && r.link.value.t.hasCallback && !r.link.value.t.started
    ensures r.p.fifo == p.fifo && r.p.running == p.running && r.p.buildStats == p.buildStats
  {
    var ip := GetString(config, "ipAddress");
    if ip.None? || GetInt(config, "port").None? then InitResult(false, p, None)
    else
      var port := GetInt(config, "port");
      var es := XmlEntries(config);
      assert forall i :: 0 <= i < |es| ==> EntryDefined(es[i]) by {
        assert forall i :: 0 <= i < |es| ==> es[i] in es;
      }
      var p1 := p.(xmlFiles := AddXmlFiles(es, p.xmlFiles),
                   exitOnQuit := GetBool(config, "exit_on_quit").GetOr(true));
      var sock := LinuxSocket.Init(LinuxSocket.Fresh, LinuxSocket.Server, port.value, setup, rc);
      if !sock.ok then InitResult(false, p1, None)
      else
        var t := SocketTransport.RegisterRecvCallback(SocketTransport.UseSocket(SocketTransport.Fresh));
        assert SocketTransport.Init(t);
        InitResult(apiOk, p1, Some(SocketTransport.Link(t, sock.ep)))
  }

  /** Start: starts the transport, then the worker; only then is the
      processor running. */
  function Start(p: Processor, l: SocketTransport.Link, transportSpawnOk: bool, workerSpawnOk: bool): (r: (bool, Processor, SocketTransport.Link))
    ensures r.0 <==> SocketTransport.StartComm(l.t, transportSpawnOk).ok && workerSpawnOk
    ensures r.1.running <==> p.running || r.0
    ensures r.1 == p.(running := r.1.running)
  {
    var s := SocketTransport.StartComm(l.t, transportSpawnOk);
    if !s.ok then (false, p, l)
    else if !workerSpawnOk then (false, p, SocketTransport.Link(s.t, l.ep))
    else (true, p.(running := true), SocketTransport.Link(s.t, l.ep))
  }

  /** Shutdown: stops the worker and the transport (closing the sockets);
      always succeeds. The queue is left as it is. */
  function Shutdown(p: Processor, l: SocketTransport.Link): (r: (bool, Processor, SocketTransport.Link))
    ensures r.0 && !r.1.running && r.1 == p.(running := false)
    ensures r.2 == SocketTransport.StopComm(l)
    ensures !r.2.t.started
  {
    (true, p.(running := false), SocketTransport.StopComm(l))
  }

  /** After shutdown the worker does nothing, whatever is queued. */
  lemma ShutdownStopsWorker(p: Processor, l: SocketTransport.Link, svc: Services, doc: Option<RegDoc>, ep: LinuxSocket.Endpoint, sendOk: bool)
    ensures var q := Shutdown(p, l).1;
      ProcessCommands(q, svc, doc, ep, sendOk) == ProcessResult(false, q, None)
  {
  }
}
