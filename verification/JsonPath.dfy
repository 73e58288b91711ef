/** Dotted names: reading and setting a value deep inside an object. Objects are values
    here; setting returns the changed object together with the status. */
module JsonPath {
  import opened Text
  import opened JsonValue
  import JsonEquality

  /** `strchr(name, '.')`, or the length of the name. */
  function Dot(name: string): (d: nat)
    ensures d <= |name|
    ensures d < |name| ==> name[d] == '.'
    ensures '.' !in name[..d]
  {
    if name == "" || name[0] == '.' then 0 else 1 + Dot(name[1..])
  }

  /** `json_object_dotget_value`. */
  function DotGet(ms: seq<Member>, name: string): Option<Value> {
    var d := Dot(name);
    if d == |name| then Get(ms, name)
    else
      var sub := Get(ms, name[..d]);
      if sub.None? || !sub.value.Object? then None else DotGet(sub.value.members, name[d + 1..])
  }

  /** `json_object_set_value`. */
  function SetValue(o: Value, name: string, value: Value): (r: AddResult)
    requires o.Object?
    ensures r.target.Object?
  {
    var k := Find(o.members, name);
    if k < |o.members| then AddResult(true, Object(o.members[k := Member(name, value)], o.capacity))
    else ObjectAdd(o, name, value)
  }

  /** `json_object_dotset_value`: missing objects on the way are created. */
  function DotSet(o: Value, name: string, value: Value): (r: AddResult)
    requires o.Object?
    ensures r.target.Object?
    decreases |name|
  {
    var d := Dot(name);
    if d == |name| then SetValue(o, name, value)
    else
      var k := Find(o.members, name[..d]);
      if k < |o.members| && o.members[k].value.Object? then
        var r := DotSet(o.members[k].value, name[d + 1..], value);
        AddResult(r.ok, Object(o.members[k := Member(name[..d], r.target)], o.capacity))
      else
        var add := ObjectAdd(o, name[..d], EmptyObject);
        if !add.ok then add
        else
          var r := DotSet(EmptyObject, name[d + 1..], value);
          var last := |add.target.members| - 1;
          AddResult(r.ok, Object(add.target.members[last := Member(name[..d], r.target)], add.target.capacity))
  }

  // ----- paths

  function Segments(name: string): (path: seq<string>)
    ensures path != []
  {
    var d := Dot(name);
    if d == |name| then [name] else [name[..d]] + Segments(name[d + 1..])
  }

  function Join(path: seq<string>): string {
    if path == [] then "" else if |path| == 1 then path[0] else path[0] + "." + Join(path[1..])
  }

  /** What a value holds at a path of names. */
  function Lookup(v: Value, path: seq<string>): Option<Value> {
    if path == [] then Some(v)
    else if !v.Object? then None
    else
      var sub := Get(v.members, path[0]);
      if sub.None? then None else Lookup(sub.value, path[1..])
  }

  lemma {:induction false} DotGetIsLookup(ms: seq<Member>, capacity: nat, name: string)
    ensures DotGet(ms, name) == Lookup(Object(ms, capacity), Segments(name))
    decreases |name|
  {
    var d := Dot(name);
    if d < |name| {
      var sub := Get(ms, name[..d]);
      assert Segments(name)[1..] == Segments(name[d + 1..]);
      if sub.Some? && sub.value.Object? {
        DotGetIsLookup(sub.value.members, sub.value.capacity, name[d + 1..]);
      }
    }
  }

  /** Setting at a path of names. */
  function SetAt(o: Value, path: seq<string>, value: Value): (r: AddResult)
    requires o.Object? && path != []
    ensures r.target.Object?
    decreases |path|
  {
    if |path| == 1 then SetValue(o, path[0], value)
    else
      var k := Find(o.members, path[0]);
      if k < |o.members| && o.members[k].value.Object? then
        var r := SetAt(o.members[k].value, path[1..], value);
        AddResult(r.ok, Object(o.members[k := Member(path[0], r.target)], o.capacity))
      else
        var add := ObjectAdd(o, path[0], EmptyObject);
        if !add.ok then add
        else
          var r := SetAt(EmptyObject, path[1..], value);
          var last := |add.target.members| - 1;
          AddResult(r.ok, Object(add.target.members[last := Member(path[0], r.target)], add.target.capacity))
  }

  lemma {:induction false} DotSetIsSetAt(o: Value, name: string, value: Value)
    requires o.Object?
    ensures DotSet(o, name, value) == SetAt(o, Segments(name), value)
    decreases |name|
  {
    hide SetValue, ObjectAdd;
    var d := Dot(name);
    if d < |name| {
      var rest := name[d + 1..];
      assert Segments(name)[1..] == Segments(rest);
      DotSetIsSetAt(EmptyObject, rest, value);
      var k := Find(o.members, name[..d]);
      if k < |o.members| && o.members[k].value.Object? {
        DotSetIsSetAt(o.members[k].value, rest, value);
      }
    }
  }

  // ----- what one object holds after a change

  lemma GetReplaced(ms: seq<Member>, k: nat, value: Value, name: string)
    requires k < |ms| && Find(ms, ms[k].name) == k
    ensures Get(ms[k := Member(ms[k].name, value)], name)
         == if name == ms[k].name then Some(value) else Get(ms, name)
  {
    var ms' := ms[k := Member(ms[k].name, value)];
    assert forall i :: 0 <= i < |ms| ==> ms'[i].name == ms[i].name;
    var i, j := Find(ms', name), Find(ms, name);
    assert i == j by {
      assert i < |ms| ==> ms[i].name == name;
      assert j < |ms| ==> ms'[j].name == name;
    }
  }

  lemma GetInAppended(ms: seq<Member>, name: string, value: Value, other: string)
    requires Get(ms, name).None?
    ensures Get(ms + [Member(name, value)], other) == if other == name then Some(value) else Get(ms, other)
  {
    GetAppended(ms, Member(name, value), other);
  }

  lemma SetValueGets(o: Value, name: string, value: Value, other: string)
    requires o.Object? && SetValue(o, name, value).ok
    ensures Get(SetValue(o, name, value).target.members, other)
         == if other == name then Some(value) else Get(o.members, other)
  {
    var k := Find(o.members, name);
    if k < |o.members| {
      GetReplaced(o.members, k, value, other);
    } else {
      GetInAppended(o.members, name, value, other);
    }
  }

  /** The child a path of two or more names leads into. */
  function Child(o: Value, name: string): Value
    requires o.Object?
  {
    var sub := Get(o.members, name);
    if sub.Some? && sub.value.Object? then sub.value else EmptyObject
  }

  lemma SetAtGets(o: Value, path: seq<string>, value: Value, other: string)
    requires o.Object? && |path| >= 2 && SetAt(o, path, value).ok
    ensures
      var r := SetAt(Child(o, path[0]), path[1..], value);
      && r.ok
      && Get(SetAt(o, path, value).target.members, other)
         == (if other == path[0] then Some(r.target) else Get(o.members, other))
      && (Get(o.members, path[0]).Some? ==> Get(o.members, path[0]).value.Object?)
  {
    hide SetValue;
    var k := Find(o.members, path[0]);
    var r := SetAt(Child(o, path[0]), path[1..], value);
    if k < |o.members| && o.members[k].value.Object? {
      GetReplaced(o.members, k, r.target, other);
    } else {
      var add := ObjectAdd(o, path[0], EmptyObject);
      var last := |o.members|;
      assert add.target.members[last := Member(path[0], r.target)] == o.members + [Member(path[0], r.target)];
      GetInAppended(o.members, path[0], r.target, other);
    }
  }

  // ----- the laws of setting

  /** After a successful set, the path leads to the value, everything below the path is
      found inside the value, the names on the way lead to objects, and every other path
      leads where it led before. */
  lemma {:induction false} LookupAfterSet(o: Value, path: seq<string>, value: Value, q: seq<string>)
    requires o.Object? && path != [] && SetAt(o, path, value).ok
    ensures
      var found := Lookup(SetAt(o, path, value).target, q);
      if path <= q then found == Lookup(value, q[|path|..])
      else if q < path then found.Some? && found.value.Object?
      else found == Lookup(o, q)
    decreases |path|
  {
    hide SetValue, SetAt;
    if q != [] {
      if |path| == 1 {
        SetAtOne(o, path, value);
        SetValueGets(o, path[0], value, q[0]);
        assert path <= q <==> q[0] == path[0];
        assert q[0] == path[0] ==> q[|path|..] == q[1..];
      } else {
        SetAtGets(o, path, value, q[0]);
        var child := Child(o, path[0]);
        if q[0] == path[0] {
          LookupAfterSet(child, path[1..], value, q[1..]);
          PrefixTail(path, q);
          assert q[1..] != [] && Get(o.members, path[0]).None? ==> Lookup(child, q[1..]).None?;
        } else {
          assert !(path <= q) && !(q <= path);
        }
      }
    }
  }

  /** Members stay in their order, a new one comes last, and an object grows for a new one only. */
  lemma SetKeepsOrder(o: Value, path: seq<string>, value: Value)
    requires o.Object? && path != [] && SetAt(o, path, value).ok
    ensures
      var k, ms := Find(o.members, path[0]), SetAt(o, path, value).target.members;
      && |ms| == (if k < |o.members| then |o.members| else |o.members| + 1) && ms[k].name == path[0]
      && (k < |o.members| ==> SetAt(o, path, value).target.capacity == o.capacity)
      && forall i :: 0 <= i < |o.members| && i != k ==> ms[i] == o.members[i]
  {
  }

  lemma SetAtOne(o: Value, path: seq<string>, value: Value)
    requires o.Object? && |path| == 1
    ensures SetAt(o, path, value) == SetValue(o, path[0], value)
  {
  }

  lemma PrefixTail(path: seq<string>, q: seq<string>)
    requires path != [] && q != [] && path[0] == q[0]
    ensures path <= q <==> path[1..] <= q[1..]
    ensures q < path <==> q[1..] < path[1..]
    ensures path <= q ==> q[|path|..] == q[1..][|path| - 1..]
  {
    if path[1..] <= q[1..] {
      assert path == [path[0]] + path[1..] && q == [q[0]] + q[1..];
    }
    if q[1..] < path[1..] {
      assert path == [path[0]] + path[1..] && q == [q[0]] + q[1..];
    }
  }

  /** One path is a prefix of the other. */
  predicate Related(p: seq<string>, q: seq<string>) {
    p <= q || q <= p
  }

  lemma ReadsBack(o: Value, path: seq<string>, value: Value, q: seq<string>)
    requires o.Object? && path != [] && SetAt(o, path, value).ok
    ensures Lookup(SetAt(o, path, value).target, path) == Some(value)
    ensures !Related(path, q) ==> Lookup(SetAt(o, path, value).target, q) == Lookup(o, q)
  {
    hide SetAt;
    LookupAfterSet(o, path, value, path);
    LookupAfterSet(o, path, value, q);
    assert path[|path|..] == [];
  }

  lemma DotGetAfter(o: Value, name: string, value: Value, other: string)
    requires o.Object?
    ensures DotGet(DotSet(o, name, value).target.members, other)
         == Lookup(SetAt(o, Segments(name), value).target, Segments(other))
  {
    hide DotSet, DotGet, SetAt, Lookup, Segments;
    DotSetIsSetAt(o, name, value);
    var target := DotSet(o, name, value).target;
    DotGetIsLookup(target.members, target.capacity, other);
    assert target == Object(target.members, target.capacity);
  }

  /** The same for dotted names: a name reads back what was set under it. */
  lemma DotGetReadsBack(o: Value, name: string, value: Value)
    requires o.Object? && DotSet(o, name, value).ok
    ensures DotGet(DotSet(o, name, value).target.members, name) == Some(value)
  {
    hide DotSet, DotGet, SetAt, Lookup, Segments, Related;
    DotSetIsSetAt(o, name, value);
    ReadsBack(o, Segments(name), value, Segments(name));
    DotGetAfter(o, name, value, name);
  }

  /** A name that is neither a prefix nor an extension of the one set reads what it read
      before. */
  lemma DotGetElsewhere(o: Value, name: string, value: Value, other: string)
    requires o.Object? && DotSet(o, name, value).ok && !Related(Segments(name), Segments(other))
    ensures DotGet(DotSet(o, name, value).target.members, other) == DotGet(o.members, other)
  {
    hide DotSet, DotGet, SetAt, Lookup, Segments, Related;
    DotSetIsSetAt(o, name, value);
    ReadsBack(o, Segments(name), value, Segments(other));
    DotGetAfter(o, name, value, other);
    DotGetIsLookup(o.members, o.capacity, other);
    assert o == Object(o.members, o.capacity);
  }

  // ----- when setting succeeds

  predicate HasRoom(o: Value)
    requires o.Object?
  {
    |o.members| < o.capacity || 2 * o.capacity <= OBJECT_MAX_CAPACITY
  }

  /** Setting can fail only at the first name that is missing, for want of room, or at a
      value that is no object in the middle of the path. */
  predicate CanSet(o: Value, path: seq<string>)
    requires o.Object? && path != []
  {
    var sub := Get(o.members, path[0]);
    if sub.None? then HasRoom(o)
    else |path| == 1 || (sub.value.Object? && CanSet(sub.value, path[1..]))
  }

  lemma {:induction false} SetAtSucceedsExactly(o: Value, path: seq<string>, value: Value)
    requires o.Object? && path != []
    ensures SetAt(o, path, value).ok <==> CanSet(o, path)
    decreases |path|
  {
    hide ObjectAdd;
    ObjectAddExactly(o, path[0], if |path| == 1 then value else EmptyObject);
    if |path| > 1 {
      SetAtSucceedsExactly(Child(o, path[0]), path[1..], value);
    }
  }

  /** A failed set changes at most capacities. */
  lemma {:induction false} FailedSetChangesNothing(o: Value, path: seq<string>, value: Value)
    requires o.Object? && path != [] && !SetAt(o, path, value).ok
    ensures Trim(SetAt(o, path, value).target) == Trim(o)
    decreases |path|
  {
    hide ObjectAdd, Trim;
    ObjectAddExactly(o, path[0], if |path| == 1 then value else EmptyObject);
    TrimIgnoresCapacity(o, ObjectAdd(o, path[0], if |path| == 1 then value else EmptyObject).target);
    if |path| > 1 {
      var k := Find(o.members, path[0]);
      if k < |o.members| && o.members[k].value.Object? {
        FailedSetChangesNothing(o.members[k].value, path[1..], value);
        TrimReplaced(o, k, SetAt(o.members[k].value, path[1..], value).target);
      } else if ObjectAdd(o, path[0], EmptyObject).ok {
        SetAtSucceedsExactly(EmptyObject, path[1..], value);
      }
    }
  }

  lemma TrimIgnoresCapacity(o: Value, o': Value)
    requires o.Object? && o'.Object?
    ensures o.members == o'.members ==> Trim(o) == Trim(o')
  {
  }

  lemma TrimReplaced(o: Value, k: nat, value: Value)
    requires o.Object? && k < |o.members| && Trim(value) == Trim(o.members[k].value)
    ensures Trim(Object(o.members[k := Member(o.members[k].name, value)], o.capacity)) == Trim(o)
  {
    var ms' := o.members[k := Member(o.members[k].name, value)];
    assert TrimMembers(ms') == TrimMembers(o.members);
  }

  /** Unique names stay unique at every level, whether or not the set succeeds. */
  lemma {:induction false} SetKeepsNamesUnique(o: Value, path: seq<string>, value: Value)
    requires o.Object? && path != [] && WellNamed(o) && WellNamed(value)
    ensures WellNamed(SetAt(o, path, value).target)
    decreases |path|
  {
    hide Room;
    var k := Find(o.members, path[0]);
    if |path| > 1 {
      if k < |o.members| && o.members[k].value.Object? {
        SetKeepsNamesUnique(o.members[k].value, path[1..], value);
      } else {
        SetKeepsNamesUnique(EmptyObject, path[1..], value);
      }
    }
  }
}
