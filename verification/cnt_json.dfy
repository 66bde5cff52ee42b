/** The attribute helpers of CNT_JSON.c: typed lookups and updates over an
    object's ordered child list, the attribute-existence test, request and
    response construction, the id accessor, copying numbers into a map, the
    string hash, and the throwing accessors `getKey` / `asString` / `asInt`.

    The cJSON primitives are taken to behave as follows: adding an item to an
    object appends it; looking an item up by name finds the first child
    whose key equals the name exactly; replacing an item by name replaces
    that same first child. */
module CntJson {
  import opened Outcomes
  import opened Json

  /** `INVALID_ID`, what `getID` answers when a request carries no numeric id. */
  const InvalidId: int := -9999

  // ---------------------------------------------------------------------------
  // Searching a child list
  // ---------------------------------------------------------------------------

  /** Child `j` has key `key` and type `kind`. */
  predicate KeyedKind(ms: seq<Member>, key: string, kind: Kind, j: int)
  {
    0 <= j < |ms| && ms[j].key == key && KindOf(ms[j].value) == kind
  }

  /** Child `j` is the first child with key `key` and type `kind`. */
  predicate FirstKeyedKind(ms: seq<Member>, key: string, kind: Kind, j: int)
  {
    KeyedKind(ms, key, kind, j) && forall i :: 0 <= i < j ==> !KeyedKind(ms, key, kind, i)
  }

  /** Child `j` is the first child with key `key`, whatever its type. */
  predicate FirstKeyed(ms: seq<Member>, key: string, j: int)
  {
    0 <= j < |ms| && ms[j].key == key && forall i :: 0 <= i < j ==> ms[i].key != key
  }

  /** Index of the first child keyed `key` (cJSON_GetObjectItem), or `|ms|`. */
  function FindKey(ms: seq<Member>, key: string): (k: nat)
    ensures k <= |ms|
    ensures k < |ms| ==> FirstKeyed(ms, key, k)
    ensures k == |ms| ==> forall i :: 0 <= i < |ms| ==> ms[i].key != key
  {
    if |ms| == 0 then 0 else if ms[0].key == key then 0 else 1 + FindKey(ms[1..], key)
  }

  /** Index of the first child keyed `key` of type `kind`, or `|ms|`. */
  function FindTyped(ms: seq<Member>, key: string, kind: Kind): (k: nat)
    ensures k <= |ms|
    ensures k < |ms| ==> FirstKeyedKind(ms, key, kind, k)
    ensures k == |ms| ==> forall i :: 0 <= i < |ms| ==> !KeyedKind(ms, key, kind, i)
  {
    if |ms| == 0 then 0
    else if ms[0].key == key && KindOf(ms[0].value) == kind then 0
    else
      var k := FindTyped(ms[1..], key, kind);
      assert forall i :: 1 <= i < |ms| ==> (KeyedKind(ms, key, kind, i) <==> KeyedKind(ms[1..], key, kind, i - 1));
      1 + k
  }

  lemma FindKeyBeforeTyped(ms: seq<Member>, key: string, kind: Kind)
    ensures FindKey(ms, key) <= FindTyped(ms, key, kind)
  {
    var t := FindTyped(ms, key, kind);
    if t < |ms| {
      assert ms[t].key == key;
    }
  }

  // ---------------------------------------------------------------------------
  // Getters: getAttributeValue_{Int,Double,String,Bool}
  // ---------------------------------------------------------------------------

  /** The getters start their walk at the receiver itself when the receiver
      already has the wanted type, and compare the receiver's key with the
      attribute name. A top-level value has no key (a NULL `string`), so
      that comparison is undefined behaviour; every other receiver is
      defined: an object searches its children, any other value walks its
      (absent) siblings and finds nothing. */
  predicate GetterDefined(v: JValue, kind: Kind)
  {
    v.JObject? || KindOf(v) != kind
  }

  /** The value of the first child of `v` with key `key` and type `kind`. */
  function Lookup(v: JValue, key: string, kind: Kind): (r: Option<JValue>)
    requires GetterDefined(v, kind)
    ensures r.Some? <==> v.JObject? && exists j :: KeyedKind(v.members, key, kind, j)
    ensures r.Some? ==> exists j :: FirstKeyedKind(v.members, key, kind, j) && r.value == v.members[j].value
    ensures r.Some? ==> KindOf(r.value) == kind
  {
    if v.JObject? then
      var k := FindTyped(v.members, key, kind);
      if k < |v.members| then Some(v.members[k].value) else None
    else None
  }

  /** getAttributeValue_Int: `valueint` of the first number child with that key. */
  function GetInt(v: JValue, key: string): (r: Option<int>)
    requires GetterDefined(v, KNumber)
    ensures r.Some? <==> v.JObject? && exists j :: KeyedKind(v.members, key, KNumber, j)
    ensures r.Some? ==> exists j :: FirstKeyedKind(v.members, key, KNumber, j) && r.value == v.members[j].value.valueint
  {
    match Lookup(v, key, KNumber)
    case Some(n) => Some(n.valueint)
    case None => None
  }

  /** getAttributeValue_Double: `valuedouble` of the first number child with that key. */
  function GetDouble(v: JValue, key: string): (r: Option<real>)
    requires GetterDefined(v, KNumber)
    ensures r.Some? <==> v.JObject? && exists j :: KeyedKind(v.members, key, KNumber, j)
    ensures r.Some? ==> exists j :: FirstKeyedKind(v.members, key, KNumber, j) && r.value == v.members[j].value.valuedouble
  {
    match Lookup(v, key, KNumber)
    case Some(n) => Some(n.valuedouble)
    case None => None
  }

  /** getAttributeValue_String: the text of the first string child with that key. */
  function GetString(v: JValue, key: string): (r: Option<string>)
    requires GetterDefined(v, KString)
    ensures r.Some? <==> v.JObject? && exists j :: KeyedKind(v.members, key, KString, j)
    ensures r.Some? ==> exists j :: FirstKeyedKind(v.members, key, KString, j) && r.value == v.members[j].value.str
  {
    match Lookup(v, key, KString)
    case Some(s) => Some(s.str)
    case None => None
  }

  predicate IsBool(v: JValue)
  {
    v.JTrue? || v.JFalse?
  }

  /** The Bool getter compares its receiver's key when the receiver is true or false. */
  predicate BoolGetterDefined(v: JValue)
  {
    v.JObject? || !IsBool(v)
  }

  /** getAttributeValue_Bool: decided by the FIRST child with that key; if
      that child is neither true nor false the lookup fails, even when a
      later child with the same key is a boolean. */
  function GetBool(v: JValue, key: string): (r: Option<bool>)
    requires BoolGetterDefined(v)
    ensures r.Some? <==> v.JObject? && exists j :: FirstKeyed(v.members, key, j) && IsBool(v.members[j].value)
    ensures r.Some? ==> exists j :: FirstKeyed(v.members, key, j) && r.value == v.members[j].value.JTrue?
  {
    if v.JObject? then
      var k := FindKey(v.members, key);
      if k < |v.members| && IsBool(v.members[k].value) then Some(v.members[k].value.JTrue?) else None
    else None
  }

  /** A later boolean with the same key is never reached past a non-boolean. */
  lemma GetBoolStopsAtFirstKey(ms: seq<Member>, key: string, j: int)
    requires FirstKeyed(ms, key, j) && !IsBool(ms[j].value)
    ensures GetBool(JObject(ms), key) == None
  {
  }

  /** Same-key children of another type are skipped by the typed getters. */
  lemma GetIntSkipsOtherTypes(ms: seq<Member>, key: string, s: string, n: int)
    ensures GetInt(JObject([Member(key, JString(s))] + ms + [Member(key, Num(n))]), key).Some?
    ensures (forall i :: 0 <= i < |ms| ==> !KeyedKind(ms, key, KNumber, i)) ==>
      GetInt(JObject([Member(key, JString(s))] + ms + [Member(key, Num(n))]), key) == Some(n)
  {
    var all := [Member(key, JString(s))] + ms + [Member(key, Num(n))];
    assert KeyedKind(all, key, KNumber, |all| - 1);
    if forall i :: 0 <= i < |ms| ==> !KeyedKind(ms, key, KNumber, i) {
      forall i | 0 <= i < |all| - 1
        ensures !KeyedKind(all, key, KNumber, i)
      {
        if i > 0 {
          assert all[i] == ms[i - 1];
          assert !KeyedKind(ms, key, KNumber, i - 1);
        }
      }
      assert FirstKeyedKind(all, key, KNumber, |all| - 1);
    }
  }

  /** getAttributeDefault_Int: the looked-up value, or `missing` when the lookup fails. */
  function GetIntOr(v: JValue, key: string, missing: int): (r: int)
    requires GetterDefined(v, KNumber)
    ensures GetInt(v, key).None? ==> r == missing
    ensures GetInt(v, key).Some? ==> r == GetInt(v, key).value
  {
    match GetInt(v, key)
    case Some(x) => x
    case None => missing
  }

  /** getID: the numeric `id`, or `INVALID_ID`. */
  function GetId(v: JValue): (r: int)
    requires GetterDefined(v, KNumber)
    ensures (v.JObject? && exists j :: KeyedKind(v.members, "id", KNumber, j)) ==>
      exists j :: FirstKeyedKind(v.members, "id", KNumber, j) && r == v.members[j].value.valueint
    ensures !(v.JObject? && exists j :: KeyedKind(v.members, "id", KNumber, j)) ==> r == InvalidId
  {
    GetIntOr(v, "id", InvalidId)
  }

  // ---------------------------------------------------------------------------
  // doesAttributeExist
  // ---------------------------------------------------------------------------

  /** doesAttributeExist on a top-level value: a container is searched
      through its children; a child matches when its key is non-empty and
      equals `key`; with `recurse` the search also descends into every
      child that is itself an object or array. A non-container receiver has
      no key and no siblings, so nothing matches. */
  function Exists(v: JValue, key: string, recurse: bool): bool
    decreases v
  {
    match v
    case JObject(ms) =>
      exists i :: 0 <= i < |ms| &&
        ((ms[i].key != "" && ms[i].key == key) ||
         (recurse && IsContainer(ms[i].value) && Exists(ms[i].value, key, recurse)))
    case JArray(items) =>
      exists i :: 0 <= i < |items| && recurse && IsContainer(items[i]) && Exists(items[i], key, recurse)
    case _ => false
  }

  /** The non-recursive form asks exactly whether some direct child carries
      the (non-empty) key; it is never true for the empty key. */
  lemma ExistsDirect(v: JValue, key: string)
    ensures Exists(v, key, false) <==> v.JObject? && key != "" && exists i :: 0 <= i < |v.members| && v.members[i].key == key
  {
  }

  /** Whatever the flat search finds, the recursive search finds too. */
  lemma ExistsFlatImpliesDeep(v: JValue, key: string)
    ensures Exists(v, key, false) ==> Exists(v, key, true)
  {
    if Exists(v, key, false) {
      var i :| 0 <= i < |v.members| && v.members[i].key != "" && v.members[i].key == key;
      assert Exists(v, key, true);
    }
  }

  /** The value reached by following child indices from `v`, stepping
      only through arrays and objects. */
  function Descend(v: JValue, path: seq<nat>): (w: Option<JValue>)
    ensures |path| == 0 ==> w == Some(v)
    decreases |path|
  {
    if |path| == 0 then Some(v)
    else if IsContainer(v) && path[0] < |Children(v)| then Descend(Children(v)[path[0]], path[1..])
    else None
  }

  /** One level of the recursive search: a container child whose own
      recursive search hits makes its parent's hit. */
  lemma ExistsThroughChild(v: JValue, i: nat, key: string)
    requires IsContainer(v) && i < |Children(v)|
    requires IsContainer(Children(v)[i]) && Exists(Children(v)[i], key, true)
    ensures Exists(v, key, true)
  {
    if v.JObject? {
      assert v.members[i].value == Children(v)[i];
    }
  }

  /** The recursive search finds a key at every depth and nowhere else: it
      hits exactly when some path of containers leads to an object with a
      direct child carrying the key. */
  lemma {:induction false} ExistsIffPath(v: JValue, key: string)
    ensures Exists(v, key, true) <==> exists path :: Descend(v, path).Some? && Exists(Descend(v, path).value, key, false)
    decreases v
  {
    if Exists(v, key, true) {
      ExistsFindsPath(v, key);
    }
    if exists path :: Descend(v, path).Some? && Exists(Descend(v, path).value, key, false) {
      var path :| Descend(v, path).Some? && Exists(Descend(v, path).value, key, false);
      PathFindsExists(v, path, key);
    }
  }

  lemma {:induction false} ExistsFindsPath(v: JValue, key: string)
    requires Exists(v, key, true)
    ensures exists path :: Descend(v, path).Some? && Exists(Descend(v, path).value, key, false)
    decreases v
  {
    if Exists(v, key, false) {
      assert Descend(v, []) == Some(v);
    } else if v.JObject? {
      var ms := v.members;
      var i :| 0 <= i < |ms| &&
        ((ms[i].key != "" && ms[i].key == key) || (IsContainer(ms[i].value) && Exists(ms[i].value, key, true)));
      ExistsFindsPath(ms[i].value, key);
      PathThroughChild(v, i, key);
    } else {
      var i :| 0 <= i < |v.items| && IsContainer(v.items[i]) && Exists(v.items[i], key, true);
      ExistsFindsPath(v.items[i], key);
      PathThroughChild(v, i, key);
    }
  }

  lemma PathThroughChild(v: JValue, i: nat, key: string)
    requires IsContainer(v) && i < |Children(v)|
    requires exists p :: Descend(Children(v)[i], p).Some? && Exists(Descend(Children(v)[i], p).value, key, false)
    ensures exists path :: Descend(v, path).Some? && Exists(Descend(v, path).value, key, false)
  {
    var c := Children(v)[i];
    var p :| Descend(c, p).Some? && Exists(Descend(c, p).value, key, false);
    assert ([i] + p)[1..] == p;
    assert Descend(v, [i] + p) == Descend(c, p);
  }

  lemma {:induction false} PathFindsExists(v: JValue, path: seq<nat>, key: string)
    requires Descend(v, path).Some? && Exists(Descend(v, path).value, key, false)
    ensures Exists(v, key, true)
    decreases |path|
  {
    if |path| == 0 {
      ExistsFlatImpliesDeep(v, key);
    } else {
      var c := Children(v)[path[0]];
      assert Descend(v, path) == Descend(c, path[1..]);
      PathFindsExists(c, path[1..], key);
      if |path| == 1 {
        assert Descend(c, path[1..]) == Some(c);
      }
      ExistsThroughChild(v, path[0], key);
    }
  }

  // ---------------------------------------------------------------------------
  // Setters: setAttributeValue_{Int,Bool,String}, incrAttributeValue_Int
  // ---------------------------------------------------------------------------

  /** setAttributeValue_Int finds the first number child with the key and
      then replaces the first child with that key by name, afterwards writing
      through its handle on the item it found. When those two children are
      one and the same, the write lands on freed memory and has no visible
      effect; that is the only case modelled. */
  predicate ReplaceHitsMatch(ms: seq<Member>, key: string, kind: Kind)
  {
    FindTyped(ms, key, kind) < |ms| ==> FindKey(ms, key) == FindTyped(ms, key, kind)
  }

  /** Keys are pairwise distinct. */
  predicate UniqueKeys(ms: seq<Member>)
  {
    forall i, j :: 0 <= i < j < |ms| ==> ms[i].key != ms[j].key
  }

  lemma UniqueKeysReplaceHits(ms: seq<Member>, key: string, kind: Kind)
    requires UniqueKeys(ms)
    ensures ReplaceHitsMatch(ms, key, kind)
  {
    FindKeyBeforeTyped(ms, key, kind);
  }

  /** The effect common to the setters: replace at `FindKey` when a child of
      the wanted type exists, otherwise append a new child at the top level. */
  function Put(ms: seq<Member>, key: string, kind: Kind, nv: JValue): (r: seq<Member>)
    ensures |r| >= |ms|
    ensures forall i :: 0 <= i < |ms| && ms[i].key != key ==> r[i] == ms[i]
    ensures FindTyped(ms, key, kind) < |ms| ==> |r| == |ms| && FindKey(ms, key) < |ms|
    ensures FindTyped(ms, key, kind) < |ms| ==>
      && r[FindKey(ms, key)] == Member(key, nv)
      && forall i :: 0 <= i < |ms| && i != FindKey(ms, key) ==> r[i] == ms[i]
    ensures FindTyped(ms, key, kind) == |ms| ==> r == ms + [Member(key, nv)]
  {
    FindKeyBeforeTyped(ms, key, kind);
    if FindTyped(ms, key, kind) < |ms| then ms[FindKey(ms, key) := Member(key, nv)]
    else ms + [Member(key, nv)]
  }

  /** setAttributeValue_Int (always returns true): afterwards the Int getter
      reads the new value; children with other keys are untouched; a new
      child is appended exactly when no number child with the key existed. */
  function SetInt(ms: seq<Member>, key: string, x: int): (r: seq<Member>)
    requires ReplaceHitsMatch(ms, key, KNumber)
    ensures GetInt(JObject(r), key) == Some(x)
    ensures |r| >= |ms|
    ensures forall i :: 0 <= i < |ms| && ms[i].key != key ==> r[i] == ms[i]
    ensures (exists j :: KeyedKind(ms, key, KNumber, j)) ==> |r| == |ms|
    ensures (exists j :: KeyedKind(ms, key, KNumber, j)) ==>
      && FindKey(ms, key) < |ms| && r[FindKey(ms, key)] == Member(key, Num(x))
      && forall i :: 0 <= i < |ms| && i != FindKey(ms, key) ==> r[i] == ms[i]
    ensures (forall j :: !KeyedKind(ms, key, KNumber, j)) ==> r == ms + [Member(key, Num(x))]
  {
    var r := Put(ms, key, KNumber, Num(x));
    PutReadsBack(ms, key, KNumber, Num(x));
    r
  }

  /** After `Put`, the first child of the wanted type with the key holds the new value. */
  lemma PutReadsBack(ms: seq<Member>, key: string, kind: Kind, nv: JValue)
    requires KindOf(nv) == kind
    ensures Lookup(JObject(Put(ms, key, kind, nv)), key, kind) == Some(nv)
    ensures FindTyped(Put(ms, key, kind, nv), key, kind) == (if FindTyped(ms, key, kind) < |ms| then FindKey(ms, key) else |ms|)
  {
    var r := Put(ms, key, kind, nv);
    var t := FindTyped(ms, key, kind);
    FindKeyBeforeTyped(ms, key, kind);
    if t < |ms| {
      var k := FindKey(ms, key);
      assert KeyedKind(r, key, kind, k);
      forall i | 0 <= i < k
        ensures !KeyedKind(r, key, kind, i)
      {
        assert r[i] == ms[i];
      }
      assert FirstKeyedKind(r, key, kind, k);
    } else {
      assert KeyedKind(r, key, kind, |ms|);
      forall i | 0 <= i < |ms|
        ensures !KeyedKind(r, key, kind, i)
      {
        assert r[i] == ms[i] && !KeyedKind(ms, key, kind, i);
      }
      assert FirstKeyedKind(r, key, kind, |ms|);
    }
  }

  /** setAttributeValue_String (always returns true). Replacement goes by
      name, so when an earlier child with the same key has another type, it
      is that earlier child that is overwritten; the read-back still holds. */
  function SetString(ms: seq<Member>, key: string, s: string): (r: seq<Member>)
    ensures GetString(JObject(r), key) == Some(s)
    ensures |r| >= |ms|
    ensures forall i :: 0 <= i < |ms| && ms[i].key != key ==> r[i] == ms[i]
    ensures (exists j :: KeyedKind(ms, key, KString, j)) ==> |r| == |ms|
    ensures (exists j :: KeyedKind(ms, key, KString, j)) ==>
      && FindKey(ms, key) < |ms| && r[FindKey(ms, key)] == Member(key, JString(s))
      && forall i :: 0 <= i < |ms| && i != FindKey(ms, key) ==> r[i] == ms[i]
    ensures (forall j :: !KeyedKind(ms, key, KString, j)) ==> r == ms + [Member(key, JString(s))]
  {
    var r := Put(ms, key, KString, JString(s));
    PutReadsBack(ms, key, KString, JString(s));
    r
  }

  /** Index of the first true-or-false child with the key, or `|ms|`. */
  function FindBool(ms: seq<Member>, key: string): (k: nat)
    ensures k <= |ms|
    ensures k < |ms| ==> ms[k].key == key && IsBool(ms[k].value)
    ensures forall i :: 0 <= i < k ==> !(ms[i].key == key && IsBool(ms[i].value))
  {
    if |ms| == 0 then 0
    else if ms[0].key == key && IsBool(ms[0].value) then 0
    else 1 + FindBool(ms[1..], key)
  }

  /** setAttributeValue_Bool (always returns true): flips the type of the
      first boolean child with the key in place, or appends one. Other
      children are untouched. It reads back through the Bool getter exactly
      when no earlier child with the same key has another type. */
  function SetBool(ms: seq<Member>, key: string, b: bool): (r: seq<Member>)
    ensures |r| >= |ms|
    ensures forall i :: 0 <= i < |ms| && i != FindBool(ms, key) ==> r[i] == ms[i]
    ensures FindBool(ms, key) < |ms| ==> |r| == |ms| && r[FindBool(ms, key)] == Member(key, Bool(b))
    ensures FindBool(ms, key) == |ms| ==> r == ms + [Member(key, Bool(b))]
    ensures GetBool(JObject(r), key) == Some(b) <==> FindKey(ms, key) >= FindBool(ms, key)
  {
    var k := FindBool(ms, key);
    var r := if k < |ms| then ms[k := Member(key, Bool(b))] else ms + [Member(key, Bool(b))];
    SetBoolReadBack(ms, key, b, r);
    r
  }

  lemma SetBoolReadBack(ms: seq<Member>, key: string, b: bool, r: seq<Member>)
    requires r == if FindBool(ms, key) < |ms| then ms[FindBool(ms, key) := Member(key, Bool(b))] else ms + [Member(key, Bool(b))]
    ensures GetBool(JObject(r), key) == Some(b) <==> FindKey(ms, key) >= FindBool(ms, key)
  {
    var k := FindBool(ms, key);
    var f := FindKey(ms, key);
    if f >= k {
      assert forall i :: 0 <= i < k ==> r[i] == ms[i] && ms[i].key != key;
      assert FirstKeyed(r, key, k);
      assert FindKey(r, key) == k;
    } else {
      assert r[f] == ms[f] && !IsBool(ms[f].value);
      assert forall i :: 0 <= i < f ==> r[i] == ms[i];
      assert FirstKeyed(r, key, f);
      assert FindKey(r, key) == f;
    }
  }

  /** A true child shadowed by an earlier string child: the Bool setter
      updates the true child, and the getter still fails. */
  lemma SetBoolShadowed()
    ensures GetBool(JObject(SetBool([Member("k", JString("x")), Member("k", JTrue)], "k", false)), "k") == None
  {
    var ms := [Member("k", JString("x")), Member("k", JTrue)];
    assert FindKey(ms, "k") == 0;
    assert FindBool(ms, "k") == 1;
  }

  /** A C `int` holds `n`. */
  predicate IsInt32(n: int)
  {
    -0x8000_0000 <= n < 0x8000_0000
  }

  /** What incrAttributeValue_Int does: whether a number child was found,
      with the children afterwards, or undefined behaviour. */
  datatype Incremented = Incremented(found: bool, ms: seq<Member>) | IncrUndefined

  /** incrAttributeValue_Int: fails and changes nothing when no number
      child has the key; otherwise stores old + incr (through the Int
      setter). The sum is a C `int` addition, so a sum outside the 32-bit
      range is undefined behaviour. */
  function IncrInt(ms: seq<Member>, key: string, incr: int): (r: Incremented)
    requires ReplaceHitsMatch(ms, key, KNumber)
    ensures r.IncrUndefined? <==>
      (exists j :: KeyedKind(ms, key, KNumber, j)) && !IsInt32(GetInt(JObject(ms), key).value + incr)
    ensures r.Incremented? ==> (r.found <==> exists j :: KeyedKind(ms, key, KNumber, j))
    ensures r.Incremented? && !r.found ==> r.ms == ms
    ensures r.Incremented? && r.found ==> GetInt(JObject(r.ms), key) == Some(GetInt(JObject(ms), key).value + incr)
    ensures r.Incremented? && r.found ==> |r.ms| == |ms|
    ensures r.Incremented? && r.found ==>
      && FindKey(ms, key) < |ms| && r.ms[FindKey(ms, key)] == Member(key, Num(GetInt(JObject(ms), key).value + incr))
      && forall i :: 0 <= i < |ms| && i != FindKey(ms, key) ==> r.ms[i] == ms[i]
  {
    match GetInt(JObject(ms), key)
    case Some(cur) => if IsInt32(cur + incr) then Incremented(true, SetInt(ms, key, cur + incr)) else IncrUndefined
    case None => Incremented(false, ms)
  }

  /** Incrementing INT_MAX by one overflows. */
  lemma IncrIntOverflow()
    ensures IncrInt([Member("n", Num(0x7fff_ffff))], "n", 1) == IncrUndefined
  {
    assert KeyedKind([Member("n", Num(0x7fff_ffff))], "n", KNumber, 0);
  }

  // ---------------------------------------------------------------------------
  // Requests and responses
  // ---------------------------------------------------------------------------

  /** createRPCObj(method, id): `{"method": method, "id": id}`. */
  function CreateRpc(name: string, id: int): (r: JValue)
    ensures r.JObject? && Keys(r.members) == ["method", "id"]
    ensures GetString(r, "method") == Some(name)
    ensures GetId(r) == id
  {
    var r := JObject([Member("method", JString(name)), Member("id", Num(id))]);
    assert FirstKeyedKind(r.members, "method", KString, 0);
    assert KeyedKind(r.members, "id", KNumber, 1) && !KeyedKind(r.members, "id", KNumber, 0);
    assert FirstKeyedKind(r.members, "id", KNumber, 1);
    r
  }

  /** createRPC_RespObj(int id): `{"id": id}`, as a child list. */
  function RespMembers(id: int): (r: seq<Member>)
    ensures Keys(r) == ["id"]
    ensures GetId(JObject(r)) == id
  {
    var r := [Member("id", Num(id))];
    assert FirstKeyedKind(r, "id", KNumber, 0);
    r
  }

  /** createRPC_RespObj(RPCObj): a response mirroring the request's id. */
  function RespFor(rpc: JValue): (r: seq<Member>)
    requires GetterDefined(rpc, KNumber)
    ensures Keys(r) == ["id"]
    ensures GetId(JObject(r)) == GetId(rpc)
  {
    RespMembers(GetId(rpc))
  }

  /** A request built by createRPCObj answers with its own id. */
  lemma RespForCreatedRpc(name: string, id: int)
    ensures GetId(JObject(RespFor(CreateRpc(name, id)))) == id
  {
  }

  // ---------------------------------------------------------------------------
  // JSONToMap_Str_Double
  // ---------------------------------------------------------------------------

  /** Child `j` is a number with key `k`. */
  predicate NumberAt(ms: seq<Member>, k: string, j: int)
  {
    0 <= j < |ms| && ms[j].key == k && ms[j].value.JNumber?
  }

  /** Child `j` is the last number child with key `k`. */
  predicate LastNumberAt(ms: seq<Member>, k: string, j: int)
  {
    NumberAt(ms, k, j) && forall i :: j < i < |ms| ==> !NumberAt(ms, k, i)
  }

  /** Copy the number children, in order, into the map (insert or overwrite). */
  function CopyNumbers(ms: seq<Member>, m: map<string, real>): (r: map<string, real>)
    ensures forall k :: k in r <==> k in m || exists j :: NumberAt(ms, k, j)
    ensures forall k, j :: LastNumberAt(ms, k, j) ==> k in r && r[k] == ms[j].value.valuedouble
    ensures forall k :: k in m && (forall j :: !NumberAt(ms, k, j)) ==> r[k] == m[k]
    decreases |ms|
  {
    if |ms| == 0 then m
    else
      var m1 := if ms[0].value.JNumber? then m[ms[0].key := ms[0].value.valuedouble] else m;
      var r := CopyNumbers(ms[1..], m1);
      CopyNumbersStep(ms, m, m1, r);
      r
  }

  lemma CopyNumbersStep(ms: seq<Member>, m: map<string, real>, m1: map<string, real>, r: map<string, real>)
    requires |ms| > 0
    requires m1 == if ms[0].value.JNumber? then m[ms[0].key := ms[0].value.valuedouble] else m
    requires forall k :: k in r <==> k in m1 || exists j :: NumberAt(ms[1..], k, j)
    requires forall k, j :: LastNumberAt(ms[1..], k, j) ==> k in r && r[k] == ms[1..][j].value.valuedouble
    requires forall k :: k in m1 && (forall j :: !NumberAt(ms[1..], k, j)) ==> r[k] == m1[k]
    ensures forall k :: k in r <==> k in m || exists j :: NumberAt(ms, k, j)
    ensures forall k, j :: LastNumberAt(ms, k, j) ==> k in r && r[k] == ms[j].value.valuedouble
    ensures forall k :: k in m && (forall j :: !NumberAt(ms, k, j)) ==> r[k] == m[k]
  {
    var tl := ms[1..];
    assert forall k, j :: NumberAt(tl, k, j) ==> NumberAt(ms, k, j + 1);
    assert forall k, j :: 1 <= j && NumberAt(ms, k, j) ==> NumberAt(tl, k, j - 1);
    forall k, j | LastNumberAt(ms, k, j)
      ensures k in r && r[k] == ms[j].value.valuedouble
    {
      if j == 0 {
        forall i | 0 <= i < |tl|
          ensures !NumberAt(tl, k, i)
        {
          assert !NumberAt(ms, k, i + 1);
        }
      } else {
        forall i | j - 1 < i < |tl|
          ensures !NumberAt(tl, k, i)
        {
          assert !NumberAt(ms, k, i + 1);
        }
        assert LastNumberAt(tl, k, j - 1);
      }
    }
    forall k | k in r
      ensures k in m || exists j :: NumberAt(ms, k, j)
    {
      if k !in m1 {
        var j :| NumberAt(tl, k, j);
        assert NumberAt(ms, k, j + 1);
      } else if k !in m {
        assert NumberAt(ms, k, 0);
      }
    }
    forall k | k in m && (forall j :: !NumberAt(ms, k, j))
      ensures r[k] == m[k]
    {
      assert !NumberAt(ms, k, 0);
      forall j | true
        ensures !NumberAt(tl, k, j)
      {
        assert !NumberAt(ms, k, j + 1);
      }
    }
  }

  /** An array's children have no key; streaming a number child's NULL key is undefined. */
  predicate ToMapDefined(obj: Option<JValue>)
  {
    obj.Some? && obj.value.JArray? ==> forall i :: 0 <= i < |obj.value.items| ==> !obj.value.items[i].JNumber?
  }

  /** JSONToMap_Str_Double: `None` (false) when either argument is null;
      otherwise the map with every number child copied in, a later child
      with the same key overwriting an earlier one, other entries kept. */
  function JsonToMap(obj: Option<JValue>, m: Option<map<string, real>>): (r: Option<map<string, real>>)
    requires ToMapDefined(obj)
    ensures r.None? <==> obj.None? || m.None?
    ensures r.Some? && !obj.value.JObject? ==> r.value == m.value
    ensures r.Some? && obj.value.JObject? ==> forall k :: k in r.value <==> k in m.value || exists j :: NumberAt(obj.value.members, k, j)
    ensures r.Some? && obj.value.JObject? ==> forall k, j :: LastNumberAt(obj.value.members, k, j) ==> r.value[k] == obj.value.members[j].value.valuedouble
    ensures r.Some? && obj.value.JObject? ==> forall k :: k in m.value && (forall j :: !NumberAt(obj.value.members, k, j)) ==> r.value[k] == m.value[k]
  {
    if obj.None? || m.None? then None
    else if obj.value.JObject? then Some(CopyNumbers(obj.value.members, m.value))
    else Some(m.value)
  }

  // ---------------------------------------------------------------------------
  // getKey, asString, asInt
  // ---------------------------------------------------------------------------

  /** getKey: null for a null or non-object receiver; the first child whose
      key equals `key`; otherwise a thrown "key ... not found". */
  function GetKey(obj: Option<JValue>, key: string): (r: Except<Option<JValue>>)
    ensures (obj.None? || !obj.value.JObject?) ==> r == Ok(None)
    ensures obj.Some? && obj.value.JObject? ==>
      (r.Ok? <==> exists j :: 0 <= j < |obj.value.members| && obj.value.members[j].key == key)
    ensures r.Ok? && r.value.Some? ==> exists j :: FirstKeyed(obj.value.members, key, j) && r.value.value == obj.value.members[j].value
    ensures r.Thrown? ==> r.msg == "key " + key + " not found"
  {
    if obj.None? || !obj.value.JObject? then Ok(None)
    else
      var k := FindKey(obj.value.members, key);
      if k < |obj.value.members| then Ok(Some(obj.value.members[k].value))
      else Thrown("key " + key + " not found")
  }

  /** asString: the text of a string item; any other type throws. */
  function AsString(v: JValue): (r: Except<string>)
    ensures r.Ok? <==> v.JString?
    ensures r.Ok? ==> r.value == v.str
    ensures r.Thrown? ==> r.msg == "not a string"
  {
    if v.JString? then Ok(v.str) else Thrown("not a string")
  }

  /** asInt: `valueint` of a number item; any other type throws. */
  function AsInt(v: JValue): (r: Except<int>)
    ensures r.Ok? <==> v.JNumber?
    ensures r.Ok? ==> r.value == v.valueint
    ensures r.Thrown? ==> r.msg == "not a number"
  {
    if v.JNumber? then Ok(v.valueint) else Thrown("not a number")
  }

  /** The throwing accessors read the child `getKey` finds, which is the
      first child with the key whatever its type. When they succeed they
      agree with the typed getters, which skip children of other types. */
  lemma AccessorsAgreeWithGetters(ms: seq<Member>, key: string)
    requires FindKey(ms, key) < |ms|
    ensures GetKey(Some(JObject(ms)), key) == Ok(Some(ms[FindKey(ms, key)].value))
    ensures AsString(ms[FindKey(ms, key)].value).Ok? ==>
      GetString(JObject(ms), key) == Some(AsString(ms[FindKey(ms, key)].value).value)
    ensures AsInt(ms[FindKey(ms, key)].value).Ok? ==>
      GetInt(JObject(ms), key) == Some(AsInt(ms[FindKey(ms, key)].value).value)
  {
    AsStringAgrees(ms, key);
    AsIntAgrees(ms, key);
  }

  /** A string as the first child with the key is what the string getter reads. */
  lemma AsStringAgrees(ms: seq<Member>, key: string)
    requires FindKey(ms, key) < |ms|
    ensures ms[FindKey(ms, key)].value.JString? ==>
      GetString(JObject(ms), key) == Some(ms[FindKey(ms, key)].value.str)
  {
    if ms[FindKey(ms, key)].value.JString? {
      FirstKeyedIsTyped(ms, key, KString);
    }
  }

  /** A number as the first child with the key is what the Int getter reads. */
  lemma AsIntAgrees(ms: seq<Member>, key: string)
    requires FindKey(ms, key) < |ms|
    ensures ms[FindKey(ms, key)].value.JNumber? ==>
      GetInt(JObject(ms), key) == Some(ms[FindKey(ms, key)].value.valueint)
  {
    if ms[FindKey(ms, key)].value.JNumber? {
      FirstKeyedIsTyped(ms, key, KNumber);
    }
  }

  /** When the first child with the key has the wanted type, it is also the
      first child of that type. */
  lemma FirstKeyedIsTyped(ms: seq<Member>, key: string, kind: Kind)
    requires FindKey(ms, key) < |ms| && KindOf(ms[FindKey(ms, key)].value) == kind
    ensures FindTyped(ms, key, kind) == FindKey(ms, key)
  {
    assert KeyedKind(ms, key, kind, FindKey(ms, key));
    FindKeyBeforeTyped(ms, key, kind);
  }

  // ---------------------------------------------------------------------------
  // createStringHash
  // ---------------------------------------------------------------------------

  /** The hash of a byte string: 0 for the empty string, and
      `(33 * hash(s)) ^ c` for `s` followed by byte `c`, in 32-bit
      two's-complement arithmetic. */
  function Hash(bytes: seq<bv8>): bv32
  {
    if |bytes| == 0 then 0
    else HashStep(Hash(bytes[..|bytes| - 1]), bytes[|bytes| - 1])
  }

  /** One round of the hash: `33 * hash ^ c`. */
  function HashStep(h: bv32, c: bv8): bv32
  {
    (h * 33) ^ (c as bv32)
  }

  /** A 32-bit pattern read as a signed C `int`. */
  function AsInt32(b: bv32): (r: int)
    ensures -0x8000_0000 <= r < 0x8000_0000
    ensures r == Unsigned(b) || r == Unsigned(b) - 0x1_0000_0000
  {
    var n := Unsigned(b);
    if n < 0x8000_0000 then n else n - 0x1_0000_0000
  }

  function Unsigned(b: bv32): (n: int)
    ensures 0 <= n < 0x1_0000_0000
  {
    b as int
  }

  /** createStringHash: walks the bytes front to back; always returns true. */
  method CreateStringHash(bytes: seq<bv8>) returns (ok: bool, hash: int)
    ensures ok
    ensures -0x8000_0000 <= hash < 0x8000_0000
    ensures hash == AsInt32(Hash(bytes))
  {
    var h: bv32 := 0;
    var i := 0;
    while i < |bytes|
      invariant 0 <= i <= |bytes|
      invariant h == Hash(bytes[..i])
    {
      assert bytes[..i + 1][..i] == bytes[..i];
      h := HashStep(h, bytes[i]);
      i := i + 1;
    }
    assert bytes[..|bytes|] == bytes;
    ok := true;
    hash := AsInt32(h);
  }

  /** Hashing is a left fold: the hash of `a + b` depends on `a` only
      through the hash of `a`. */
  lemma {:induction false} HashAppend(a: seq<bv8>, b: seq<bv8>, a2: seq<bv8>)
    requires Hash(a) == Hash(a2)
    ensures Hash(a + b) == Hash(a2 + b)
    decreases |b|
  {
    if |b| == 0 {
      assert a + b == a;
      assert a2 + b == a2;
    } else {
      var b0 := b[..|b| - 1];
      var c := b[|b| - 1];
      HashAppend(a, b0, a2);
      var ab, a2b := a + b, a2 + b;
      assert ab[..|ab| - 1] == a + b0 && ab[|ab| - 1] == c;
      assert a2b[..|a2b| - 1] == a2 + b0 && a2b[|a2b| - 1] == c;
      assert Hash(ab) == HashStep(Hash(a + b0), c);
      assert Hash(a2b) == HashStep(Hash(a2 + b0), c);
    }
  }
}
