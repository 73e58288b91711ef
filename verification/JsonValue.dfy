/** JSON values as parson builds them: objects keep their members in insertion order,
    with a capacity that grows by doubling and is trimmed once an object is parsed. */
module JsonValue {
  import opened Text

  datatype Value =
    | Null
    | Boolean(b: bool)
    | Number(x: real)
    | String(s: string)
    | Array(items: seq<Value>)
    | Object(members: seq<Member>, capacity: nat)

  datatype Member = Member(name: string, value: Value)

  const STARTING_CAPACITY: nat := 15
  const ARRAY_MAX_CAPACITY: nat := 122880
  const OBJECT_MAX_CAPACITY: nat := 960
  const MAX_NESTING: nat := 19

  const EmptyObject := Object([], 0)

  /** The index of the first member called `name`, or the number of members. */
  function Find(ms: seq<Member>, name: string): (k: nat)
    ensures k <= |ms|
    ensures k < |ms| ==> ms[k].name == name
    ensures forall j :: 0 <= j < k ==> ms[j].name != name
  {
    if ms == [] || ms[0].name == name then 0 else 1 + Find(ms[1..], name)
  }

  /** `json_object_get_value`. */
  function Get(ms: seq<Member>, name: string): Option<Value> {
    var k := Find(ms, name);
    if k < |ms| then Some(ms[k].value) else None
  }

  ghost predicate UniqueNames(ms: seq<Member>) {
    forall i, j :: 0 <= i < j < |ms| ==> ms[i].name != ms[j].name
  }

  /** Each object of the value has unique names, as every object built through parson has. */
  ghost predicate WellNamed(v: Value) {
    match v
    case Array(items) => forall i :: 0 <= i < |items| ==> WellNamed(items[i])
    case Object(ms, _) => UniqueNames(ms) && forall i :: 0 <= i < |ms| ==> WellNamed(ms[i].value)
    case _ => true
  }

  lemma FindUnique(ms: seq<Member>, i: nat)
    requires UniqueNames(ms) && i < |ms|
    ensures Find(ms, ms[i].name) == i
  {
  }

  /** The capacity after making room for one more element, if the limit allows it. */
  function Room(count: nat, capacity: nat, limit: nat): Option<nat> {
    if count < capacity then Some(capacity)
    else
      var grown := if capacity * 2 > STARTING_CAPACITY then capacity * 2 else STARTING_CAPACITY;
      if grown > limit then None else Some(grown)
  }

  datatype AddResult = AddResult(ok: bool, target: Value)

  /** `json_object_add`: a name that is present is refused, but only after the object
      was grown. */
  function ObjectAdd(o: Value, name: string, value: Value): (r: AddResult)
    requires o.Object?
    ensures r.target.Object?
  {
    match Room(|o.members|, o.capacity, OBJECT_MAX_CAPACITY)
    case None => AddResult(false, o)
    case Some(c) =>
      if Get(o.members, name).Some? then AddResult(false, Object(o.members, c))
      else AddResult(true, Object(o.members + [Member(name, value)], c))
  }

  /** A full array or object grows to twice its capacity, and to 15 at least. */
  lemma RoomExactly(count: nat, capacity: nat, limit: nat)
    ensures count < capacity ==> Room(count, capacity, limit) == Some(capacity)
    ensures count >= capacity && capacity <= 7 ==>
              Room(count, capacity, limit) == if 15 <= limit then Some(15) else None
    ensures count >= capacity && capacity >= 8 ==>
              Room(count, capacity, limit) == if 2 * capacity <= limit then Some(2 * capacity) else None
  {
  }

  /** Adding succeeds exactly for a new name, as long as the object holds fewer members
      than its capacity or its capacity can still be doubled; a full object grows before a
      known name is refused. */
  lemma ObjectAddExactly(o: Value, name: string, value: Value)
    requires o.Object?
    ensures var r := ObjectAdd(o, name, value);
      && (r.ok <==> Get(o.members, name).None?
                    && (|o.members| < o.capacity || 2 * o.capacity <= OBJECT_MAX_CAPACITY))
      && (!r.ok ==> r.target.members == o.members)
      && r.target.capacity
         == (var room := Room(|o.members|, o.capacity, 960); if room.Some? then room.value else o.capacity)
      && (r.ok ==> Get(r.target.members, name) == Some(value))
      && (UniqueNames(o.members) ==> UniqueNames(r.target.members))
      && (forall other :: other != name ==> Get(r.target.members, other) == Get(o.members, other))
  {
    var r := ObjectAdd(o, name, value);
    if r.ok {
      forall other ensures Get(r.target.members, other)
                        == if other == name then Some(value) else Get(o.members, other) {
        GetAppended(o.members, Member(name, value), other);
      }
    }
  }

  lemma GetAppended(ms: seq<Member>, m: Member, name: string)
    ensures Get(ms + [m], name) == if Get(ms, name).Some? then Get(ms, name)
                                   else if m.name == name then Some(m.value) else None
  {
    var k := Find(ms + [m], name);
    assert (ms + [m])[|ms|] == m;
    if k < |ms| {
      assert ms[k].name == name;
      assert Find(ms, name) <= k;
    }
    var j := Find(ms, name);
    if j < |ms| {
      assert (ms + [m])[j].name == name;
    }
  }

  /** The capacities an array or object passes through when it only grows. */
  predicate OnLadder(capacity: nat) {
    capacity in {0, 15, 30, 60, 120, 240, 480, 960, 1920, 3840, 7680, 15360, 30720, 61440, 122880}
  }

  /** Growing from nothing, there is room until the limit is reached. */
  lemma RoomOnLadder(count: nat, capacity: nat, limit: nat)
    requires limit == OBJECT_MAX_CAPACITY || limit == ARRAY_MAX_CAPACITY
    requires OnLadder(capacity) && count <= capacity <= limit
    ensures Room(count, capacity, limit).Some? <==> count < limit
    ensures count < limit ==> var c := Room(count, capacity, limit).value;
                              OnLadder(c) && count < c <= limit
  {
  }

  /** The value with every object's capacity trimmed to its number of members. */
  function Trim(v: Value): (t: Value)
    ensures v.Object? ==> t.Object? && |t.members| == |v.members| == t.capacity
    ensures v.Array? ==> t.Array? && |t.items| == |v.items|
    decreases v, 0
  {
    match v
    case Array(items) => Array(TrimItems(items))
    case Object(ms, _) => Object(TrimMembers(ms), |ms|)
    case _ => v
  }

  function TrimItems(items: seq<Value>): (r: seq<Value>)
    ensures |r| == |items|
    ensures forall i :: 0 <= i < |r| ==> r[i] == Trim(items[i])
    decreases items, 1
  {
    if items == [] then [] else [Trim(items[0])] + TrimItems(items[1..])
  }

  function TrimMembers(ms: seq<Member>): (r: seq<Member>)
    ensures |r| == |ms|
    ensures forall i :: 0 <= i < |r| ==> r[i] == Member(ms[i].name, Trim(ms[i].value))
    decreases ms, 1
  {
    if ms == [] then [] else [Member(ms[0].name, Trim(ms[0].value))] + TrimMembers(ms[1..])
  }

  lemma {:induction false} TrimTwice(v: Value)
    ensures Trim(Trim(v)) == Trim(v)
    decreases v
  {
    match v
    case Array(items) =>
      forall i | 0 <= i < |items| ensures Trim(Trim(items[i])) == Trim(items[i]) {
        TrimTwice(items[i]);
      }
      assert TrimItems(TrimItems(items)) == TrimItems(items);
    case Object(ms, _) =>
      forall i | 0 <= i < |ms| ensures Trim(Trim(ms[i].value)) == Trim(ms[i].value) {
        TrimTwice(ms[i].value);
      }
      assert TrimMembers(TrimMembers(ms)) == TrimMembers(ms);
    case _ =>
  }
}
