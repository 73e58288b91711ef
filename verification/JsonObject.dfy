/** An object of the JSON library as it lies in memory: parallel arrays of names and values
    that grow, are searched and are overwritten in place. */
module JsonObject {
  import opened Text
  import opened JsonValue
  import JsonPath

  /** What removing member `k` leaves: the last member takes its place. */
  function Removed(ms: seq<Member>, k: nat): (r: seq<Member>)
    requires k < |ms|
    ensures |r| == |ms| - 1 && forall i :: 0 <= i < |r| ==> r[i] == if i == k then ms[|ms| - 1] else ms[i]
  {
    ms[k := ms[|ms| - 1]][..|ms| - 1]
  }

  /** Removing a name takes away that name and no other, and names stay unique. */
  lemma RemovedReads(ms: seq<Member>, k: nat, name: string)
    requires UniqueNames(ms) && k < |ms|
    ensures UniqueNames(Removed(ms, k))
    ensures Get(Removed(ms, k), name) == if name == ms[k].name then None else Get(ms, name)
  {
    var r, last := Removed(ms, k), |ms| - 1;
    assert forall i :: 0 <= i < last ==> r[i] == if i == k then ms[last] else ms[i];
    var j := Find(ms, name);
    if j < |ms| && j != k {
      var i := if j == last then k else j;
      assert r[i] == ms[j];
      FindUnique(r, i);
    } else {
      assert forall i :: 0 <= i < last ==> r[i].name != name;
      assert Find(r, name) == last;
    }
  }

  class Record {
    var names: array<string>
    var values: array<Value>
    var count: nat

    ghost predicate Valid()
      reads this, names, values
    {
      names.Length == values.Length && count <= names.Length
    }

    ghost function Members(): (ms: seq<Member>)
      requires Valid()
      reads this, names, values
      ensures |ms| == count
    {
      seq(count, i requires 0 <= i < count && Valid() reads this, names, values => Member(names[i], values[i]))
    }

    /** The value the record stands for. */
    ghost function Model(): Value
      requires Valid()
      reads this, names, values
    {
      Object(Members(), names.Length)
    }

    /** `json_object_init`. */
    constructor ()
      ensures Valid() && Model() == EmptyObject && fresh(names) && fresh(values)
    {
      names, values, count := new string[0](_ => ""), new Value[0](_ => Null), 0;
    }

    /** `json_object_resize`: the members move to new arrays of the capacity asked for. */
    method Resize(capacity: nat) returns (ok: bool)
      requires Valid() && (capacity == 0 || count <= capacity)
      modifies this
      ensures Valid() && (ok <==> capacity != 0)
      ensures if ok then fresh(names) && fresh(values) && names.Length == capacity && Members() == old(Members())
              else names == old(names) && values == old(values) && count == old(count)
    {
      if capacity == 0 {
        return false;
      }
      ghost var ms := Members();
      var newNames := new string[capacity](_ => "");
      var newValues := new Value[capacity](_ => Null);
      var i := 0;
      while i < count
        invariant 0 <= i <= count && Valid() && newNames.Length == newValues.Length == capacity
        invariant Members() == ms
        invariant forall k :: 0 <= k < i ==> newNames[k] == names[k] && newValues[k] == values[k]
      {
        newNames[i], newValues[i] := names[i], values[i];
        i := i + 1;
      }
      assert forall k :: 0 <= k < count ==> ms[k] == Member(newNames[k], newValues[k]);
      names, values := newNames, newValues;
      ok := true;
      assert Members() == ms;
    }

    /** `json_object_nget_value`: the place of the first member of that name, or the count. */
    method Search(name: string) returns (k: nat)
      requires Valid()
      ensures k == Find(Members(), name)
    {
      k := 0;
      ghost var ms := Members();
      while k < count && names[k] != name
        invariant 0 <= k <= count && forall i :: 0 <= i < k ==> ms[i].name != name
      {
        assert ms[k].name == names[k];
        k := k + 1;
      }
      assert k < count ==> ms[k].name == name;
    }

    /** `json_object_get_value`. */
    method Lookup(name: string) returns (value: Option<Value>)
      requires Valid()
      ensures value == Get(Members(), name)
    {
      var k := Search(name);
      value := if k < count then Some(values[k]) else None;
    }

    /** `json_object_add`. */
    method Add(name: string, value: Value) returns (ok: bool)
      requires Valid()
      modifies this, names, values
      ensures Valid() && (names == old(names) || fresh(names)) && (values == old(values) || fresh(values))
      ensures AddResult(ok, Model()) == ObjectAdd(old(Model()), name, value)
    {
      hide Find, Get;
      ghost var ms := Members();
      if count >= names.Length {
        var capacity := if names.Length * 2 > STARTING_CAPACITY then names.Length * 2 else STARTING_CAPACITY;
        if capacity > OBJECT_MAX_CAPACITY {
          return false;
        }
        ok := Resize(capacity);
      }
      assert Members() == ms;
      var found := Lookup(name);
      if found.Some? {
        return false;
      }
      names[count], values[count] := name, value;
      count := count + 1;
      ok := true;
      assert Members() == ms + [Member(name, value)];
    }

    /** `json_object_set_value`. */
    method Set(name: string, value: Value) returns (ok: bool)
      requires Valid()
      modifies this, names, values
      ensures Valid() && (names == old(names) || fresh(names)) && (values == old(values) || fresh(values))
      ensures AddResult(ok, Model()) == JsonPath.SetValue(old(Model()), name, value)
    {
      ghost var ms := Members();
      var k := Search(name);
      if k < count {
        assert ms[k].name == names[k];
        values[k] := value;
        ok := true;
        assert Members() == ms[k := Member(name, value)];
      } else {
        ok := Add(name, value);
      }
    }

    /** `json_object_remove`. */
    method Remove(name: string) returns (ok: bool)
      requires Valid()
      modifies this, names, values
      ensures Valid() && names == old(names) && values == old(values)
      ensures var k := Find(old(Members()), name);
        && (ok <==> k < |old(Members())|)
        && Members() == if ok then Removed(old(Members()), k) else old(Members())
    {
      ghost var ms := Members();
      var k := Search(name);
      if k == count {
        return false;
      }
      var last := count - 1;
      if k != last {
        names[k], values[k] := names[last], values[last];
      }
      count := last;
      ok := true;
      assert forall i :: 0 <= i < last ==> Members()[i] == if i == k then ms[last] else ms[i];
      assert Members() == Removed(ms, k);
    }
  }
}
