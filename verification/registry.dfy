/** The `setRegistrySetting` handler of CommandProcessor.cpp: validation of
    the request's `params`, sanitising of the key and section names,
    splitting of the registry path, and the edit made to the registry
    document. The XML document is abstracted to the two things the handler
    asks of it: which (root, section) elements exist, and the `value`
    attribute of each (root, section, key) element. Loading and saving the
    file are not modelled; a load failure is an absent document. */
module Registry {
  import opened Outcomes
  import opened Json
  import opened Text
  import opened CntJson

  /** Characters stripped from key and section names. */
  const Unsafe: set<char> := {' ', '=', ','}

  /** The three `erase(remove(...))` passes over a name. */
  function Sanitize(s: string): (r: string)
    ensures forall i :: 0 <= i < |r| ==> r[i] !in Unsafe
  {
    Remove(s, Unsafe)
  }

  /** Sanitising is the three single-character passes the handler makes, in
      its order, and keeps a clean name as it is. */
  lemma SanitizeIsThreePasses(s: string)
    ensures Sanitize(s) == EraseChar(EraseChar(EraseChar(s, ' '), '='), ',')
    ensures (forall i :: 0 <= i < |s| ==> s[i] !in Unsafe) <==> Sanitize(s) == s
  {
    EraseThreeIsRemove(s, ' ', '=', ',');
    RemoveIdentity(s, Unsafe);
  }

  /** The registry document: the (root, section) elements present, and the
      `value` attribute of each key element. */
  datatype RegDoc = RegDoc(sections: set<(string, string)>, values: map<(string, string, string), string>)

  /** A validated request: where to write, what, and whether a missing key
      may be created. */
  datatype SetRequest = SetRequest(root: string, section: string, key: string, value: int, createKey: bool)

  /** `valueint` as cJSON's parser leaves it: the number's integer view, 1
      for `true`, 0 for every other type. */
  function ValueInt(v: JValue): (n: int)
    ensures v.JNumber? ==> n == v.valueint
    ensures !v.JNumber? && !v.JTrue? ==> n == 0
  {
    match v
    case JNumber(i, _) => i
    case JTrue => 1
    case _ => 0
  }

  /** `cJSON_GetObjectItem`: the first child with that key. */
  function Item(ms: seq<Member>, key: string): (r: Option<JValue>)
    ensures r.Some? <==> exists j :: 0 <= j < |ms| && ms[j].key == key
    ensures r.Some? ==> exists j :: FirstKeyed(ms, key, j) && r.value == ms[j].value
  {
    var k := FindKey(ms, key);
    if k < |ms| then Some(ms[k].value) else None
  }

  /** Some child carries `key`. */
  predicate Has(ms: seq<Member>, key: string)
  {
    exists j :: 0 <= j < |ms| && ms[j].key == key
  }

  /** Some child carries `key`, and the first such holds a string. */
  predicate StringParam(ms: seq<Member>, key: string)
  {
    Has(ms, key) && Item(ms, key).value.JString?
  }

  /** Some child from index `from` on carries `key` (the sibling walk
      `doesAttributeExist` makes when handed a non-container child). */
  predicate SiblingHasKey(ms: seq<Member>, from: int, key: string)
  {
    exists i :: 0 <= from <= i < |ms| && ms[i].key == key
  }

  /** Outcome of reading the request's parameters: a request, a missing
      parameter (with the log lines the handler adds), or a request on
      which the C++ code has undefined behaviour (a NULL `valuestring`
      read as a string, a path with fewer than four elements, or a lookup
      inside a non-object `params`). */
  datatype Params = Request(req: SetRequest) | Missing(logs: seq<string>) | ParamsUndefined

  /** The chain of `doesAttributeExist` / `cJSON_GetObjectItem` checks on
      an object's `params`: the four parameters in order, the two names read
      as strings, and the registry path split at backslashes, whose third
      and fourth pieces name the root and the section. */
  function ReadParams(pm: seq<Member>): (r: Params)
    ensures !Has(pm, "path_name") ==> r == Missing([])
    ensures Has(pm, "path_name") && Item(pm, "path_name").value.JString? && !Has(pm, "key_name") ==>
      r == Missing(["Error in RPC: No key_name key"])
    ensures StringParam(pm, "path_name") && StringParam(pm, "key_name") && !Has(pm, "value") ==>
      r == Missing(["Error in RPC: No value key"])
    ensures StringParam(pm, "path_name") && StringParam(pm, "key_name") && Has(pm, "value") && !Has(pm, "createKey") ==>
      r == Missing(["Error in RPC: No createKey key"])
    ensures r.Missing? <==>
      || !Has(pm, "path_name")
      || (Item(pm, "path_name").value.JString? &&
          (|| !Has(pm, "key_name")
           || (Item(pm, "key_name").value.JString? && (!Has(pm, "value") || !Has(pm, "createKey")))))
    ensures r.ParamsUndefined? <==>
      Has(pm, "path_name") &&
      (|| !Item(pm, "path_name").value.JString?
       || (Has(pm, "key_name") &&
           (|| !Item(pm, "key_name").value.JString?
            || (Has(pm, "value") && Has(pm, "createKey") &&
                |GetlineSplit(Item(pm, "path_name").value.str, '\\')| < 4))))
    ensures r.Request? ==> Has(pm, "path_name") && Has(pm, "key_name") && Has(pm, "value") && Has(pm, "createKey")
    ensures r.Request? ==>
      Item(pm, "path_name").value.JString? && Item(pm, "key_name").value.JString? &&
      var elems := GetlineSplit(Item(pm, "path_name").value.str, '\\');
      |elems| >= 4 && r.req.root == elems[2] && r.req.section == Sanitize(elems[3]) &&
      r.req.key == Sanitize(Item(pm, "key_name").value.str)
    ensures r.Request? ==> (r.req.createKey <==> Item(pm, "createKey") == Some(JTrue))
    ensures r.Request? ==> r.req.value == ValueInt(Item(pm, "value").value)
    ensures r.Request? ==> forall i :: 0 <= i < |r.req.key| ==> r.req.key[i] !in Unsafe
    ensures r.Request? ==> forall i :: 0 <= i < |r.req.section| ==> r.req.section[i] !in Unsafe
  {
    var params := JObject(pm);
    ExistsDirect(params, "path_name");
    ExistsDirect(params, "key_name");
    ExistsDirect(params, "value");
    ExistsDirect(params, "createKey");
    if !Exists(params, "path_name", false) then Missing([])
    else if !Item(pm, "path_name").value.JString? then ParamsUndefined
    else if !Exists(params, "key_name", false) then Missing(["Error in RPC: No key_name key"])
    else if !Item(pm, "key_name").value.JString? then ParamsUndefined
    else if !Exists(params, "value", false) then Missing(["Error in RPC: No value key"])
    else if !Exists(params, "createKey", false) then Missing(["Error in RPC: No createKey key"])
    else
      var path := Item(pm, "path_name").value.str;
      var key := Sanitize(Item(pm, "key_name").value.str);
      var value := ValueInt(Item(pm, "value").value);
      var createKey := Item(pm, "createKey").value == JTrue;
      var elems := GetlineSplit(path, '\\');
      if |elems| < 4 then ParamsUndefined
      else Request(SetRequest(elems[2], Sanitize(elems[3]), key, value, createKey))
  }

  /** A complete request whose path is backslash-free pieces glued with
      backslashes (the last piece non-empty) writes to the root and section
      its third and fourth pieces name, and has undefined behaviour when
      there are fewer than four pieces. */
  lemma ReadParamsPath(pm: seq<Member>, ps: seq<string>, keyName: string)
    requires Item(pm, "path_name") == Some(JString(Join(ps, '\\')))
    requires Item(pm, "key_name") == Some(JString(keyName))
    requires Has(pm, "value") && Has(pm, "createKey")
    requires |ps| >= 1 && ps[|ps| - 1] != ""
    requires forall i :: 0 <= i < |ps| ==> '\\' !in ps[i]
    ensures |ps| < 4 ==> ReadParams(pm).ParamsUndefined?
    ensures |ps| >= 4 ==>
      ReadParams(pm) == Request(SetRequest(ps[2], Sanitize(ps[3]), Sanitize(keyName),
                                           ValueInt(Item(pm, "value").value), Item(pm, "createKey") == Some(JTrue)))
  {
    GetlineSplitOfJoin(ps, '\\');
    var r := ReadParams(pm);
    assert StringParam(pm, "path_name") && StringParam(pm, "key_name");
    assert !r.Missing?;
    if |ps| >= 4 {
      assert r.Request?;
    }
  }

  /** The parameters of a request object: a missing `params` fails quietly;
      an array `params` has no keyed children, so its `path_name` is
      missing; any other non-object `params` makes the existence test walk
      on through the later children of the request, and finding a
      `path_name` there leads to a lookup inside the scalar. */
  function RequestParams(rpc: seq<Member>): (r: Params)
    ensures !(exists j :: 0 <= j < |rpc| && rpc[j].key == "params") ==> r == Missing([])
    ensures r.Request? ==> exists j :: FirstKeyed(rpc, "params", j) && rpc[j].value.JObject? && r == ReadParams(rpc[j].value.members)
    ensures r.ParamsUndefined? <==>
      exists j :: FirstKeyed(rpc, "params", j) &&
        if rpc[j].value.JObject? then ReadParams(rpc[j].value.members).ParamsUndefined?
        else !rpc[j].value.JArray? && SiblingHasKey(rpc, j, "path_name")
    ensures r.Missing? && r.logs != [] ==> exists j :: FirstKeyed(rpc, "params", j) && rpc[j].value.JObject? && r == ReadParams(rpc[j].value.members)
  {
    ExistsDirect(JObject(rpc), "params");
    if !Exists(JObject(rpc), "params", false) then Missing([])
    else
      var pi := FindKey(rpc, "params");
      var params := rpc[pi].value;
      if params.JObject? then ReadParams(params.members)
      else if params.JArray? then Missing([])
      else if SiblingHasKey(rpc, pi, "path_name") then ParamsUndefined
      else Missing([])
  }

  /** The log line written when the key is found and updated. */
  function UpdatedLog(q: SetRequest): string
  {
    "setRegistrySetting: section: " + q.section + ", key: " + q.key + ", value:" + Decimal(q.value)
  }

  function CreatingLog(q: SetRequest): string
  {
    "setRegistrySetting: Creating section: " + q.section + ", key: " + q.key + ", value:" + Decimal(q.value)
  }

  function CreateFailedLog(q: SetRequest): string
  {
    "setRegistrySetting: Error Creating key!! Section: " + q.section + ", key: " + q.key
  }

  /** The (root, section, key) element the request names. */
  function Path(q: SetRequest): (string, string, string)
  {
    (q.root, q.section, q.key)
  }

  datatype Applied = Applied(doc: RegDoc, logs: seq<string>)

  /** The edit made to a loaded document: an existing key gets the new
      value; a missing key is created (as the section's last element) when
      `createKey` is set and the section exists; otherwise the document is
      unchanged. */
  function Apply(q: SetRequest, d: RegDoc): (r: Applied)
    ensures r.doc.sections == d.sections
    ensures Path(q) in d.values || (q.createKey && (q.root, q.section) in d.sections) ==>
      r.doc.values == d.values[Path(q) := Decimal(q.value)]
    ensures !(Path(q) in d.values || (q.createKey && (q.root, q.section) in d.sections)) ==> r.doc == d
    ensures Path(q) in d.values ==> r.logs == [UpdatedLog(q)]
    ensures Path(q) !in d.values && !q.createKey ==> r.logs == []
    ensures Path(q) !in d.values && q.createKey ==>
      r.logs == [CreatingLog(q)] + (if (q.root, q.section) in d.sections then [] else [CreateFailedLog(q)])
  {
    var v := Decimal(q.value);
    if Path(q) in d.values then
      Applied(d.(values := d.values[Path(q) := v]), [UpdatedLog(q)])
    else if !q.createKey then Applied(d, [])
    else if (q.root, q.section) !in d.sections then Applied(d, [CreatingLog(q), CreateFailedLog(q)])
    else Applied(d.(values := d.values[Path(q) := v]), [CreatingLog(q)])
  }

  /** Every key element sits in a section element. */
  predicate WellFormed(d: RegDoc)
  {
    forall p :: p in d.values ==> (p.0, p.1) in d.sections
  }

  lemma ApplyKeepsWellFormed(q: SetRequest, d: RegDoc)
    requires WellFormed(d)
    ensures WellFormed(Apply(q, d).doc)
  {
  }

  /** After an edit that took effect, reading the key gives the decimal
      text of the value; every other key keeps its value. */
  lemma ApplyReadsBack(q: SetRequest, d: RegDoc)
    requires WellFormed(d)
    ensures var r := Apply(q, d).doc;
      Path(q) in r.values <==> Path(q) in d.values || (q.createKey && (q.root, q.section) in d.sections)
    ensures var r := Apply(q, d).doc;
      Path(q) in r.values ==> r.values[Path(q)] == Decimal(q.value)
    ensures var r := Apply(q, d).doc;
      forall p :: p != Path(q) ==> (p in r.values <==> p in d.values) && (p in d.values ==> r.values[p] == d.values[p])
  {
  }

  /** Repeating a request changes nothing further. */
  lemma ApplyIdempotent(q: SetRequest, d: RegDoc)
    ensures Apply(q, Apply(q, d).doc).doc == Apply(q, d).doc
  {
  }

  /** What setRegistrySetting returns: undefined behaviour, or the
      response object's children (none when it returns NULL), the log lines
      it added, and the document afterwards (absent when it was not
      loaded). */
  datatype RegOutcome = RegUndefined | RegDone(resp: Option<seq<Member>>, logs: seq<string>, doc: Option<RegDoc>)

  /** The success result `{"Success": true}`. */
  const SuccessResult: Member := Member("result", JObject([Member("Success", JTrue)]))

  function SetRegistrySetting(rpc: seq<Member>, doc: Option<RegDoc>): (r: RegOutcome)
    ensures r.RegDone? && r.resp.Some? <==> RequestParams(rpc).Request? && doc.Some?
    ensures r.RegDone? && r.resp.Some? ==> r.resp.value == RespFor(JObject(rpc)) + [SuccessResult]
    ensures r.RegDone? && r.resp.Some? ==> r.doc == Some(Apply(RequestParams(rpc).req, doc.value).doc)
    ensures r.RegDone? && r.resp.None? ==> r.doc == doc
    ensures r.RegUndefined? <==> RequestParams(rpc).ParamsUndefined?
    ensures RequestParams(rpc).Missing? ==> r == RegDone(None, RequestParams(rpc).logs, doc)
    ensures RequestParams(rpc).Request? && doc.None? ==> r.RegDone? && r.resp.None? && r.logs == []
    ensures RequestParams(rpc).Request? && doc.Some? ==> r.RegDone? && r.logs == Apply(RequestParams(rpc).req, doc.value).logs
  {
    match RequestParams(rpc)
    case ParamsUndefined => RegUndefined
    case Missing(logs) => RegDone(None, logs, doc)
    case Request(q) =>
      match doc
      case None => RegDone(None, [], None)
      case Some(d) =>
        var a := Apply(q, d);
        RegDone(Some(RespFor(JObject(rpc)) + [SuccessResult]), a.logs, Some(a.doc))
  }
}
