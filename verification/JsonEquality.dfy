/** Equality of values, and copies. The reference is the document a value stands for, in
    which an object is a map: the order of members and the capacities are gone. Numbers
    count as equal if they are less than one millionth apart. */
module JsonEquality {
  import opened Text
  import opened JsonNumber
  import opened JsonValue
  import JsonPrint
  import JsonRoundTrip

  /** Whether two numbers are less than one millionth apart. */
  predicate Close(x: real, y: real) {
    -0.000001 < x - y < 0.000001
  }

  /** `json_value_equals`. */
  predicate Equals(a: Value, b: Value)
    decreases a, 0
  {
    match a
    case Null => b.Null?
    case Boolean(x) => b.Boolean? && x == b.b
    case Number(x) => b.Number? && Close(x, b.x)
    case String(s) => b.String? && s == b.s
    case Array(items) =>
      b.Array? && |items| == |b.items| && forall i :: 0 <= i < |items| ==> Equals(items[i], b.items[i])
    case Object(ms, _) => b.Object? && |ms| == |b.members| && MembersEqual(ms, b.members)
  }

  /** Every name of one object is looked up in both. */
  predicate MembersEqual(ms: seq<Member>, other: seq<Member>)
    decreases ms, 1
  {
    forall i :: 0 <= i < |ms| ==>
      var j, k := Find(ms, ms[i].name), Find(other, ms[i].name);
      j < |ms| && k < |other| && Equals(ms[j].value, other[k].value)
  }

  datatype Document =
    | Nothing
    | Truth(b: bool)
    | Amount(x: real)
    | Words(s: string)
    | List(elements: seq<Document>)
    | Record(fields: map<string, Document>)

  /** The same document, up to close numbers. */
  ghost predicate Similar(d: Document, e: Document) {
    match d
    case Nothing => e.Nothing?
    case Truth(b) => e == d
    case Amount(x) => e.Amount? && Close(x, e.x)
    case Words(s) => e == d
    case List(xs) => e.List? && |xs| == |e.elements| && forall i :: 0 <= i < |xs| ==> Similar(xs[i], e.elements[i])
    case Record(m) =>
      e.Record? && m.Keys == e.fields.Keys && forall name :: name in m ==> Similar(m[name], e.fields[name])
  }

  lemma SimilarRecords(m: map<string, Document>, n: map<string, Document>)
    ensures Similar(Record(m), Record(n))
       <==> m.Keys == n.Keys && forall name :: name in m ==> Similar(m[name], n[name])
  {
  }

  ghost function Names(ms: seq<Member>): set<string> {
    set i | 0 <= i < |ms| :: ms[i].name
  }

  lemma NamesFound(ms: seq<Member>, name: string)
    ensures name in Names(ms) <==> Find(ms, name) < |ms|
  {
  }

  ghost function Meaning(v: Value): Document
    decreases v, 0
  {
    match v
    case Null => Nothing
    case Boolean(b) => Truth(b)
    case Number(x) => Amount(x)
    case String(s) => Words(s)
    case Array(items) => List(seq(|items|, i requires 0 <= i < |items| => Meaning(items[i])))
    case Object(ms, _) => Record(Fields(ms))
  }

  ghost function Fields(ms: seq<Member>): (m: map<string, Document>)
    ensures m.Keys == Names(ms)
    decreases ms, 1
  {
    map name | name in Names(ms) :: NamesFound(ms, name); Meaning(ms[Find(ms, name)].value)
  }

  lemma {:induction false} NamesCounted(ms: seq<Member>)
    requires UniqueNames(ms)
    ensures |Names(ms)| == |ms|
  {
    if ms != [] {
      var init := ms[..|ms| - 1];
      NamesCounted(init);
      assert Names(ms) == Names(init) + {ms[|ms| - 1].name};
    }
  }

  lemma SubsetOfSameSize(a: set<string>, b: set<string>)
    requires a <= b && |a| == |b|
    ensures a == b
  {
    assert |b - a| == |b| - |a|;
  }

  /** Two values are equal exactly when they stand for the same document, up to close numbers. */
  lemma {:induction false} EqualsIsSameMeaning(a: Value, b: Value)
    requires WellNamed(a) && WellNamed(b)
    ensures Equals(a, b) <==> Similar(Meaning(a), Meaning(b))
    decreases a, 0
  {
    match a
    case Array(items) =>
      if b.Array? && |items| == |b.items| {
        forall i | 0 <= i < |items| ensures Equals(items[i], b.items[i])
          <==> Similar(Meaning(items[i]), Meaning(b.items[i])) {
          EqualsIsSameMeaning(items[i], b.items[i]);
        }
        var x, y := Meaning(a).elements, Meaning(b).elements;
        assert forall i :: 0 <= i < |items| ==> x[i] == Meaning(items[i]) && y[i] == Meaning(b.items[i]);
      } else if b.Array? {
        assert |Meaning(a).elements| != |Meaning(b).elements|;
      }
    case Object(ms, _) =>
      if b.Object? {
        NamesCounted(ms);
        NamesCounted(b.members);
        if |ms| == |b.members| {
          MembersEqualIsSimilarFields(ms, b.members);
        }
      }
    case _ =>
  }

  /** With unique names, equal counts and one-way lookup are enough. */
  lemma {:induction false} MembersEqualIsSimilarFields(ms: seq<Member>, other: seq<Member>)
    requires |ms| == |other| && UniqueNames(ms) && UniqueNames(other)
    requires forall i :: 0 <= i < |ms| ==> WellNamed(ms[i].value)
    requires forall i :: 0 <= i < |other| ==> WellNamed(other[i].value)
    ensures MembersEqual(ms, other) <==> Similar(Record(Fields(ms)), Record(Fields(other)))
    decreases ms, 1
  {
    hide Meaning, WellNamed, Equals, Similar;
    forall i | 0 <= i < |ms| && Find(other, ms[i].name) < |other|
      ensures Find(ms, ms[i].name) == i
      ensures Equals(ms[i].value, other[Find(other, ms[i].name)].value)
         <==> Similar(Fields(ms)[ms[i].name], Fields(other)[ms[i].name])
    {
      FindUnique(ms, i);
      NamesFound(other, ms[i].name);
      EqualsIsSameMeaning(ms[i].value, other[Find(other, ms[i].name)].value);
    }
    SimilarRecords(Fields(ms), Fields(other));
    if MembersEqual(ms, other) {
      SameFields(ms, other);
    }
    if Similar(Record(Fields(ms)), Record(Fields(other))) {
      forall i | 0 <= i < |ms| ensures Find(ms, ms[i].name) == i && Find(other, ms[i].name) < |other| {
        FindUnique(ms, i);
        assert ms[i].name in Fields(ms);
        NamesFound(other, ms[i].name);
      }
    }
  }

  lemma SameNames(ms: seq<Member>, other: seq<Member>)
    requires |ms| == |other| && UniqueNames(ms) && UniqueNames(other)
    requires forall i :: 0 <= i < |ms| ==> Find(other, ms[i].name) < |other|
    ensures Names(ms) == Names(other)
  {
    NamesCounted(ms);
    NamesCounted(other);
    forall i | 0 <= i < |ms| ensures ms[i].name in Names(other) {
      NamesFound(other, ms[i].name);
    }
    SubsetOfSameSize(Names(ms), Names(other));
  }

  lemma SameFields(ms: seq<Member>, other: seq<Member>)
    requires |ms| == |other| && UniqueNames(ms) && UniqueNames(other)
    requires forall i :: 0 <= i < |ms| ==>
               Find(other, ms[i].name) < |other| && ms[i].name in Fields(other)
               && Similar(Fields(ms)[ms[i].name], Fields(other)[ms[i].name])
    ensures Similar(Record(Fields(ms)), Record(Fields(other)))
  {
    hide Fields, Similar, UniqueNames, Find;
    SameNames(ms, other);
    SimilarRecords(Fields(ms), Fields(other));
    forall name | name in Fields(ms) ensures Similar(Fields(ms)[name], Fields(other)[name]) {
      var i :| 0 <= i < |ms| && ms[i].name == name;
    }
  }

  /** Two numbers are equal exactly if they are less than one millionth apart. */
  lemma NumbersEqualExactly(x: real, y: real)
    ensures Equals(Number(x), Number(y)) <==> Abs(x - y) * 1000000.0 < 1.0
  {
  }

  // ----- what kind of relation it is

  lemma {:induction false} SimilarBothWays(d: Document, e: Document)
    ensures Similar(d, d)
    ensures Similar(d, e) <==> Similar(e, d)
    decreases d
  {
    match d
    case List(xs) =>
      forall i | 0 <= i < |xs| ensures Similar(xs[i], xs[i]) {
        SimilarBothWays(xs[i], xs[i]);
      }
      if e.List? && |xs| == |e.elements| {
        forall i | 0 <= i < |xs| ensures Similar(xs[i], e.elements[i]) <==> Similar(e.elements[i], xs[i]) {
          SimilarBothWays(xs[i], e.elements[i]);
        }
      }
    case Record(m) =>
      forall name | name in m ensures Similar(m[name], m[name]) {
        SimilarBothWays(m[name], m[name]);
      }
      if e.Record? && m.Keys == e.fields.Keys {
        forall name | name in m ensures Similar(m[name], e.fields[name]) <==> Similar(e.fields[name], m[name]) {
          SimilarBothWays(m[name], e.fields[name]);
        }
      }
    case _ =>
  }

  /** Equality looks up only one side's names, and yet goes both ways. */
  lemma EqualsIsSymmetric(a: Value, b: Value)
    requires WellNamed(a) && WellNamed(b)
    ensures Equals(a, a)
    ensures Equals(a, b) <==> Equals(b, a)
  {
    hide Equals, Meaning, WellNamed, Similar;
    EqualsIsSameMeaning(a, a);
    EqualsIsSameMeaning(a, b);
    EqualsIsSameMeaning(b, a);
    SimilarBothWays(Meaning(a), Meaning(b));
  }

  /** All numbers in the document are multiples of one millionth. */
  ghost predicate MicroDocument(d: Document) {
    match d
    case Amount(x) => IsMicro(x)
    case List(xs) => forall i :: 0 <= i < |xs| ==> MicroDocument(xs[i])
    case Record(m) => forall name :: name in m ==> MicroDocument(m[name])
    case _ => true
  }

  lemma CloseMicros(x: real, y: real)
    requires IsMicro(x) && IsMicro(y) && Close(x, y)
    ensures x == y
  {
    var j, k := (x * 1000000.0).Floor, (y * 1000000.0).Floor;
    assert -1.0 < j as real - k as real < 1.0;
    assert j == k;
  }

  lemma {:induction false} SimilarMicros(d: Document, e: Document)
    requires MicroDocument(d) && MicroDocument(e)
    ensures Similar(d, e) <==> d == e
    decreases d
  {
    hide IsMicro, Close;
    SimilarBothWays(d, e);
    if Similar(d, e) {
      match d
      case Amount(x) => CloseMicros(x, e.x);
      case List(xs) =>
        forall i | 0 <= i < |xs| ensures xs[i] == e.elements[i] {
          SimilarMicros(xs[i], e.elements[i]);
        }
        assert xs == e.elements;
      case Record(m) =>
        assert m.Keys == e.fields.Keys;
        forall name | name in m ensures m[name] == e.fields[name] {
          SimilarMicros(m[name], e.fields[name]);
        }
        assert m == e.fields;
      case _ =>
    }
  }

  lemma {:induction false} MicroMeaning(v: Value)
    requires WellNamed(v) && JsonRoundTrip.AllMicro(v)
    ensures MicroDocument(Meaning(v))
    decreases v
  {
    hide IsMicro;
    match v
    case Array(items) =>
      forall i | 0 <= i < |items| ensures MicroDocument(Meaning(v).elements[i]) {
        MicroMeaning(items[i]);
      }
    case Object(ms, _) =>
      forall name | name in Fields(ms) ensures MicroDocument(Fields(ms)[name]) {
        NamesFound(ms, name);
        MicroMeaning(ms[Find(ms, name)].value);
      }
    case _ =>
  }

  /** On values whose numbers are multiples of one millionth, equality is having the same
      meaning, and so an equivalence. */
  lemma EqualsIsEquivalence(a: Value, b: Value, c: Value)
    requires WellNamed(a) && WellNamed(b) && WellNamed(c)
    requires JsonRoundTrip.AllMicro(a) && JsonRoundTrip.AllMicro(b) && JsonRoundTrip.AllMicro(c)
    ensures Equals(a, b) <==> Meaning(a) == Meaning(b)
    ensures Equals(a, b) && Equals(b, c) ==> Equals(a, c)
  {
    hide Equals, Meaning, WellNamed, Similar, MicroDocument, JsonRoundTrip.AllMicro;
    MicroMeaning(a);
    MicroMeaning(b);
    MicroMeaning(c);
    EqualsIsSameMeaning(a, b);
    EqualsIsSameMeaning(b, c);
    EqualsIsSameMeaning(a, c);
    SimilarMicros(Meaning(a), Meaning(b));
    SimilarMicros(Meaning(b), Meaning(c));
    SimilarMicros(Meaning(a), Meaning(c));
  }

  /** On other numbers it is not: 0 equals 0.0000006, which equals 0.0000012. */
  lemma EqualsIsNotTransitive()
    ensures var a, b, c := Number(0.0), Number(0.0000006), Number(0.0000012);
      WellNamed(a) && WellNamed(b) && WellNamed(c) && Equals(a, b) && Equals(b, c) && !Equals(a, c)
  {
  }

  /** What a printed value is read back as equals the value, although its numbers were rounded. */
  lemma {:induction false} RereadIsEqual(v: Value)
    requires WellNamed(v)
    ensures WellNamed(JsonRoundTrip.Reread(v)) && Equals(JsonRoundTrip.Reread(v), v)
    decreases v
  {
    hide Rounded;
    match v
    case Number(x) => RoundedExactly(x);
    case Array(items) =>
      forall i | 0 <= i < |items|
        ensures WellNamed(JsonRoundTrip.Reread(items[i])) && Equals(JsonRoundTrip.Reread(items[i]), items[i]) {
        RereadIsEqual(items[i]);
      }
    case Object(ms, _) =>
      var r := JsonRoundTrip.RereadMembers(ms);
      forall i | 0 <= i < |ms|
        ensures WellNamed(r[i].value) && Equals(r[i].value, ms[i].value)
        ensures Find(ms, r[i].name) == i && Find(r, r[i].name) == i {
        RereadIsEqual(ms[i].value);
        FindUnique(ms, i);
        FindUnique(r, i);
      }
    case _ =>
  }

  /** The order of an object's members does not matter. */
  lemma OrderDoesNotMatter(ms: seq<Member>, other: seq<Member>, c: nat, d: nat)
    requires WellNamed(Object(ms, c)) && WellNamed(Object(other, d))
    requires multiset(ms) == multiset(other)
    ensures Equals(Object(ms, c), Object(other, d))
  {
    assert |ms| == |multiset(ms)| == |other|;
    forall i | 0 <= i < |ms|
      ensures Find(ms, ms[i].name) == i && Find(other, ms[i].name) < |other|
      ensures Equals(ms[i].value, other[Find(other, ms[i].name)].value)
    {
      FindUnique(ms, i);
      assert ms[i] in multiset(other);
      var k :| 0 <= k < |other| && other[k] == ms[i];
      FindUnique(other, k);
      EqualsIsSymmetric(ms[i].value, ms[i].value);
    }
  }

  // ----- copies

  /** All counts are within what an array or object can grow to. */
  ghost predicate Growable(v: Value) {
    match v
    case Array(items) =>
      |items| <= ARRAY_MAX_CAPACITY && forall i :: 0 <= i < |items| ==> Growable(items[i])
    case Object(ms, _) =>
      |ms| <= OBJECT_MAX_CAPACITY && forall i :: 0 <= i < |ms| ==> Growable(ms[i].value)
    case _ => true
  }

  /** `json_value_deep_copy`: elements and members are added one by one to new arrays and
      objects. It fails only for a count beyond the limits, and what it makes differs from
      the original at most in capacities. */
  method DeepCopy(v: Value) returns (ok: bool, copy: Value)
    requires WellNamed(v)
    ensures ok <==> Growable(v)
    ensures ok ==> Trim(copy) == Trim(v)
    decreases v
  {
    ok, copy := true, v;
    match v {
      case Array(items) =>
        var copies, capacity, i := [], 0, 0;
        while i < |items|
          invariant 0 <= i <= |items| && |copies| == i <= capacity <= ARRAY_MAX_CAPACITY && OnLadder(capacity)
          invariant forall j :: 0 <= j < i ==> Growable(items[j]) && Trim(copies[j]) == Trim(items[j])
        {
          var item;
          ok, item := DeepCopy(items[i]);
          if !ok {
            return;
          }
          RoomOnLadder(i, capacity, ARRAY_MAX_CAPACITY);
          var room := Room(i, capacity, ARRAY_MAX_CAPACITY);
          if room.None? {
            return false, v;
          }
          copies, capacity, i := copies + [item], room.value, i + 1;
        }
        copy := Array(copies);
        assert TrimItems(copies) == TrimItems(items);
      case Object(ms, _) =>
        ok, copy := DeepCopyObject(ms);
      case _ =>
    }
  }

  method DeepCopyObject(ms: seq<Member>) returns (ok: bool, copy: Value)
    requires UniqueNames(ms) && forall i :: 0 <= i < |ms| ==> WellNamed(ms[i].value)
    ensures ok <==> |ms| <= OBJECT_MAX_CAPACITY && forall i :: 0 <= i < |ms| ==> Growable(ms[i].value)
    ensures ok ==> copy.Object? && Trim(copy) == Object(TrimMembers(ms), |ms|)
    decreases ms
  {
    ok, copy := true, EmptyObject;
    var i := 0;
    while i < |ms|
      invariant 0 <= i <= |ms| && copy.Object? && |copy.members| == i <= copy.capacity <= OBJECT_MAX_CAPACITY
      invariant OnLadder(copy.capacity)
      invariant forall j :: 0 <= j < i ==> Growable(ms[j].value)
      invariant forall j :: 0 <= j < i ==> Copied(copy.members[j], ms[j])
    {
      var key := ms[i].name;
      FindUnique(ms, i);
      var value;
      ok, value := DeepCopy(ms[Find(ms, key)].value);
      if !ok {
        return;
      }
      ghost var k := Find(copy.members, key);
      assert k == i;
      RoomOnLadder(i, copy.capacity, OBJECT_MAX_CAPACITY);
      var add := ObjectAdd(copy, key, value);
      ok, copy := add.ok, add.target;
      if !ok {
        return;
      }
      i := i + 1;
    }
    assert TrimMembers(copy.members) == TrimMembers(ms);
  }

  ghost predicate Copied(copy: Member, m: Member) {
    copy.name == m.name && Trim(copy.value) == Trim(m.value)
  }

  lemma {:induction false} TrimKeepsMeaning(v: Value)
    ensures Meaning(Trim(v)) == Meaning(v)
    ensures WellNamed(Trim(v)) <==> WellNamed(v)
    decreases v, 0
  {
    match v
    case Array(items) =>
      forall i | 0 <= i < |items| ensures Meaning(Trim(items[i])) == Meaning(items[i])
                                  ensures WellNamed(Trim(items[i])) <==> WellNamed(items[i]) {
        TrimKeepsMeaning(items[i]);
      }
      assert Meaning(Trim(v)).elements == Meaning(v).elements;
    case Object(ms, _) =>
      forall i | 0 <= i < |ms| ensures Meaning(Trim(ms[i].value)) == Meaning(ms[i].value)
                               ensures WellNamed(Trim(ms[i].value)) <==> WellNamed(ms[i].value) {
        TrimKeepsMeaning(ms[i].value);
      }
      TrimKeepsFields(ms);
    case _ =>
  }

  lemma TrimKeepsNames(ms: seq<Member>)
    ensures |TrimMembers(ms)| == |ms| && forall i :: 0 <= i < |ms| ==> TrimMembers(ms)[i].name == ms[i].name
    ensures Names(TrimMembers(ms)) == Names(ms) && (UniqueNames(TrimMembers(ms)) <==> UniqueNames(ms))
  {
    hide Trim, TrimMembers;
    var t := TrimMembers(ms);
    assert forall i :: 0 <= i < |ms| ==> t[i].name == ms[i].name;
    assert forall i :: 0 <= i < |ms| ==> t[i].name in Names(ms) && ms[i].name in Names(t);
  }

  lemma TrimKeepsFields(ms: seq<Member>)
    requires forall i :: 0 <= i < |ms| ==> Meaning(Trim(ms[i].value)) == Meaning(ms[i].value)
    ensures Fields(TrimMembers(ms)) == Fields(ms)
    ensures UniqueNames(TrimMembers(ms)) <==> UniqueNames(ms)
  {
    hide Trim, TrimMembers, Meaning, Names, UniqueNames;
    TrimKeepsNames(ms);
    forall name | name in Names(ms) ensures Fields(TrimMembers(ms))[name] == Fields(ms)[name] {
      NamesFound(ms, name);
      JsonRoundTrip.FindTrimmed(ms, name);
    }
  }

  /** A value that equals another up to capacities, such as a copy of it or what is parsed
      from its text, is equal to it and prints the same text. */
  lemma SameUpToCapacities(copy: Value, v: Value)
    requires WellNamed(v) && Trim(copy) == Trim(v)
    ensures WellNamed(copy) && Equals(copy, v)
    ensures forall level: nat, pretty :: JsonPrint.Print(copy, level, pretty) == JsonPrint.Print(v, level, pretty)
  {
    hide Equals, Meaning, WellNamed, Trim, Similar;
    TrimKeepsMeaning(copy);
    TrimKeepsMeaning(v);
    EqualsIsSameMeaning(copy, v);
    SimilarBothWays(Meaning(v), Meaning(v));
    forall level: nat, pretty
      ensures JsonPrint.Print(copy, level, pretty) == JsonPrint.Print(v, level, pretty) {
      JsonRoundTrip.TrimKeepsText(copy, level, pretty);
      JsonRoundTrip.TrimKeepsText(v, level, pretty);
    }
  }
}
