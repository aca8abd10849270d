/**
 * JSON values as the plugin handles them. A JavaScript object keeps its
 * properties in insertion order, so an object is an ordered list of members;
 * assigning a property replaces the existing member in place or appends a new one.
 */
module Json {
  import opened Wrappers

  datatype JValue =
    | JNull
    | JBool(b: bool)
    | JNum(n: int)
    | JStr(s: string)
    | JArr(items: seq<JValue>)
    | JObj(members: seq<Member>)

  datatype Member = Member(key: string, value: JValue)

  /** JavaScript truthiness of a JSON value. */
  predicate Truthy(v: JValue) {
    match v
    case JNull => false
    case JBool(b) => b
    case JNum(n) => n != 0
    case JStr(s) => s != ""
    case _ => true
  }

  /** Truthiness of a property read; a missing property reads as `undefined`. */
  predicate TruthyField(v: Option<JValue>) {
    v.Some? && Truthy(v.value)
  }

  /** The property names of an object, in order. */
  function KeysOf(ms: seq<Member>): seq<string> {
    if ms == [] then [] else [ms[0].key] + KeysOf(ms[1..])
  }

  lemma KeysOfIndex(ms: seq<Member>, i: nat)
    requires i < |ms|
    ensures |KeysOf(ms)| == |ms| && KeysOf(ms)[i] == ms[i].key
  {
    if i > 0 { KeysOfIndex(ms[1..], i - 1); }
  }

  /** No property name occurs twice, as in every object JavaScript builds. */
  predicate UniqueKeys(ms: seq<Member>) {
    forall i, j :: 0 <= i < j < |ms| ==> ms[i].key != ms[j].key
  }

  /** Reading property `k`: the first member with that name. */
  function Get(ms: seq<Member>, k: string): (r: Option<JValue>)
    ensures r.Some? ==> Member(k, r.value) in ms
  {
    if ms == [] then None
    else if ms[0].key == k then Some(ms[0].value)
    else Get(ms[1..], k)
  }

  /** Assigning property `k := v` on an object. */
  function Set(ms: seq<Member>, k: string, v: JValue): (r: seq<Member>)
    ensures Get(r, k) == Some(v)
    ensures forall k' :: k' != k ==> Get(r, k') == Get(ms, k')
  {
    if ms == [] then [Member(k, v)]
    else if ms[0].key == k then [Member(k, v)] + ms[1..]
    else [ms[0]] + Set(ms[1..], k, v)
  }

  /** Assigning a property the value it already reads changes nothing. */
  lemma {:induction false} SetSame(ms: seq<Member>, k: string, v: JValue)
    requires Get(ms, k) == Some(v)
    ensures Set(ms, k, v) == ms
  {
    if ms[0].key != k {
      SetSame(ms[1..], k, v);
    }
  }

  /** Every member's name can be read back; with unique names, it reads that member's value. */
  lemma {:induction false} GetMember(ms: seq<Member>, m: Member)
    requires m in ms
    ensures Get(ms, m.key).Some?
    ensures UniqueKeys(ms) ==> Get(ms, m.key) == Some(m.value)
  {
    if ms[0] != m {
      assert m in ms[1..];
      GetMember(ms[1..], m);
      if UniqueKeys(ms) {
        var x :| 0 <= x < |ms[1..]| && ms[1..][x] == m;
        assert ms[x + 1] == m;
      }
    }
  }

  /** Assignment keeps the order of existing names and appends a new name at the end. */
  lemma {:induction false} SetKeyOrder(ms: seq<Member>, k: string, v: JValue)
    ensures KeysOf(Set(ms, k, v)) == if Get(ms, k).Some? then KeysOf(ms) else KeysOf(ms) + [k]
  {
    if ms != [] && ms[0].key != k {
      SetKeyOrder(ms[1..], k, v);
    }
  }

  /** Assignment adds no member other than the assigned one. */
  lemma {:induction false} SetOnlyAdds(ms: seq<Member>, k: string, v: JValue)
    ensures forall m :: m in Set(ms, k, v) ==> m == Member(k, v) || m in ms
  {
    if ms != [] && ms[0].key != k {
      SetOnlyAdds(ms[1..], k, v);
      assert Set(ms, k, v) == [ms[0]] + Set(ms[1..], k, v);
    }
  }

  /** Assignment keeps property names unique. */
  lemma {:induction false} SetMembers(ms: seq<Member>, k: string, v: JValue)
    ensures forall m :: m in Set(ms, k, v) ==> m == Member(k, v) || m in ms
    ensures UniqueKeys(ms) ==> UniqueKeys(Set(ms, k, v))
  {
    SetOnlyAdds(ms, k, v);
    if ms != [] && ms[0].key != k && UniqueKeys(ms) {
      SetMembers(ms[1..], k, v);
      var rest := Set(ms[1..], k, v);
      TailApart(ms);
      forall j | 0 <= j < |rest| ensures rest[j].key != ms[0].key {
        assert rest[j] in rest;
      }
      assert Set(ms, k, v) == [ms[0]] + rest;
    }
  }

  /** `Object.assign(target, source)` / lodash.assign: copies source's members in order. */
  function Assign(target: seq<Member>, source: seq<Member>): (r: seq<Member>)
    ensures forall k :: Get(source, k).None? ==> Get(r, k) == Get(target, k)
    ensures UniqueKeys(source) ==> forall k :: Get(source, k).Some? ==> Get(r, k) == Get(source, k)
    decreases |source|
  {
    if source == [] then target
    else
      DistinctTail(source);
      Assign(Set(target, source[0].key, source[0].value), source[1..])
  }

  lemma DistinctTail(ms: seq<Member>)
    requires ms != []
    ensures UniqueKeys(ms) ==> Get(ms[1..], ms[0].key).None?
  {
    if UniqueKeys(ms) {
      TailApart(ms);
    }
  }

  /** With unique names, no later member shares the first one's name. */
  lemma TailApart(ms: seq<Member>)
    requires ms != [] && UniqueKeys(ms)
    ensures forall m :: m in ms[1..] ==> m.key != ms[0].key
  {
    forall m | m in ms[1..] ensures m.key != ms[0].key {
      var x :| 0 <= x < |ms[1..]| && ms[1..][x] == m;
      assert ms[x + 1] == m;
    }
  }

  /** Following a path of property names from `v`; `None` when a step is missing or not an object. */
  function Lookup(v: JValue, path: seq<string>): Option<JValue>
    decreases |path|
  {
    if path == [] then Some(v)
    else if v.JObj? then
      match Get(v.members, path[0])
      case Some(c) => Lookup(c, path[1..])
      case None => None
    else None
  }
}
