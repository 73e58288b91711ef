/** The tree that saving builds: values set one after the other under dotted names into an
    empty object, and what the finished tree holds. */
module ConfigTree {
  import opened Collections
  import opened Text
  import opened JsonNumber
  import opened JsonValue
  import opened JsonPath
  import JsonEquality
  import JsonParse
  import JsonPrint
  import JsonRoundTrip

  datatype Entry = Entry(name: string, leaf: Value)

  function Path(e: Entry): (p: seq<string>)
    ensures p != []
  {
    Segments(e.name)
  }

  /** The object after the entries were set in turn. */
  function Build(es: seq<Entry>): (o: Value)
    ensures o.Object?
    decreases |es|
  {
    if es == [] then EmptyObject
    else
      var last := es[|es| - 1];
      DotSet(Build(es[..|es| - 1]), last.name, last.leaf).target
  }

  /** Every single set succeeds. */
  ghost predicate AllSet(es: seq<Entry>)
    decreases |es|
  {
    es == [] ||
      (var last := es[|es| - 1];
       AllSet(es[..|es| - 1]) && DotSet(Build(es[..|es| - 1]), last.name, last.leaf).ok)
  }

  // ----- which entries a tree keeps

  ghost function Of(es: seq<Entry>): set<Entry> {
    set e | e in es
  }

  /** The different names that follow `p`. */
  ghost function NextNames(k: set<Entry>, p: seq<string>): set<string> {
    set e | e in k && p < Path(e) :: Path(e)[|p|]
  }

  /** No entry is in the way, and at every step of the path there is room for the next name. */
  ghost predicate Fits(k: set<Entry>, e: Entry) {
    && (forall d :: d in k ==> !(Path(d) < Path(e)))
    && forall p :: p < Path(e) ==> |NextNames(k + {e}, p)| <= OBJECT_MAX_CAPACITY
  }

  ghost function Without(k: set<Entry>, p: seq<string>): set<Entry> {
    set e | e in k && !(p <= Path(e))
  }

  /** The entries left of those set in turn: one that fits takes the place of all that
      extend its path, one that does not is lost. */
  ghost function Kept(es: seq<Entry>): set<Entry>
    decreases |es|
  {
    if es == [] then {}
    else
      var k, last := Kept(es[..|es| - 1]), es[|es| - 1];
      if Fits(k, last) then Without(k, Path(last)) + {last} else k
  }

  /** No path is a prefix of another. */
  ghost predicate PrefixFree(k: set<Entry>) {
    forall d, e :: d in k && e in k && Path(d) <= Path(e) ==> d == e
  }

  ghost predicate RoomEverywhere(k: set<Entry>) {
    forall p :: |NextNames(k, p)| <= OBJECT_MAX_CAPACITY
  }

  /** Strings, and numbers with at most six decimals. */
  predicate IsLeafValue(v: Value) {
    v.String? || (v.Number? && IsMicro(v.x))
  }

  ghost predicate Leaves(k: set<Entry>) {
    forall e :: e in k ==> IsLeafValue(e.leaf)
  }

  // ----- what a tree of entries is

  ghost predicate LeadsToLeaf(o: Value, e: Entry) {
    Lookup(o, Path(e)) == Some(e.leaf)
  }

  ghost predicate Towards(k: set<Entry>, q: seq<string>) {
    exists e :: e in k && q <= Path(e)
  }

  ghost predicate IsLeaf(k: set<Entry>, q: seq<string>, x: Value) {
    exists e :: e in k && q == Path(e) && x == e.leaf
  }

  /** What a path leads to is an object on the way to entries, or an entry's leaf. */
  ghost predicate Explained(o: Value, k: set<Entry>, q: seq<string>) {
    var x := Lookup(o, q);
    x.Some? ==> (q == [] || Towards(k, q)) && (x.value.Object? || IsLeaf(k, q, x.value))
  }

  /** The entries are in the tree, and nothing else is. */
  ghost predicate Represents(o: Value, k: set<Entry>) {
    && o.Object?
    && (forall e :: e in k ==> LeadsToLeaf(o, e))
    && (forall q :: Explained(o, k, q))
  }

  lemma LookupInLeaf(leaf: Value, q: seq<string>)
    requires !leaf.Object?
    ensures Lookup(leaf, q) == if q == [] then Some(leaf) else None
  {
  }

  lemma PrefixesRelated(p: seq<string>, q: seq<string>, r: seq<string>)
    requires p <= r && q <= r
    ensures p <= q || q < p
  {
  }

  lemma ExplainedAfterSet(o: Value, k: set<Entry>, e: Entry, q: seq<string>)
    requires o.Object? && Explained(o, k, q) && !e.leaf.Object? && SetAt(o, Path(e), e.leaf).ok
    ensures Explained(SetAt(o, Path(e), e.leaf).target, Without(k, Path(e)) + {e}, q)
  {
    hide SetAt, Lookup, Path;
    var p, k' := Path(e), Without(k, Path(e)) + {e};
    LookupAfterSet(o, p, e.leaf, q);
    assert e in k';
    if p <= q {
      LookupInLeaf(e.leaf, q[|p|..]);
      assert q[|p|..] == [] ==> q == p;
    } else if !(q < p) && Lookup(o, q).Some? {
      if q != [] {
        var d :| d in k && q <= Path(d);
        if p <= Path(d) {
          PrefixesRelated(p, q, Path(d));
        }
        assert d in k';
      }
      if !Lookup(o, q).value.Object? {
        var d :| d in k && q == Path(d) && Lookup(o, q).value == d.leaf;
        assert d in k';
      }
    }
  }

  /** What lies on the way of a path that can be set is an object. */
  lemma {:induction false} ObjectsOnTheWay(o: Value, path: seq<string>, r: seq<string>)
    requires o.Object? && path != [] && CanSet(o, path) && r < path && Lookup(o, r).Some?
    ensures Lookup(o, r).value.Object?
    decreases |r|
  {
    if r != [] {
      ObjectsOnTheWay(Get(o.members, r[0]).value, path[1..], r[1..]);
    }
  }

  lemma NoneInTheWay(o: Value, k: set<Entry>, e: Entry)
    requires Represents(o, k) && Leaves(k) && SetAt(o, Path(e), e.leaf).ok
    ensures forall d :: d in k ==> !(Path(d) < Path(e))
  {
    hide SetAt, Lookup, CanSet, Path, IsMicro;
    SetAtSucceedsExactly(o, Path(e), e.leaf);
    forall d | d in k ensures !(Path(d) < Path(e)) {
      assert LeadsToLeaf(o, d) && IsLeafValue(d.leaf);
      if Path(d) < Path(e) {
        ObjectsOnTheWay(o, Path(e), Path(d));
        assert false;
      }
    }
  }

  lemma RepresentsAfterSet(o: Value, k: set<Entry>, e: Entry)
    requires Represents(o, k) && Leaves(k) && !e.leaf.Object? && SetAt(o, Path(e), e.leaf).ok
    ensures Represents(SetAt(o, Path(e), e.leaf).target, Without(k, Path(e)) + {e})
  {
    hide SetAt, Lookup, Explained, Path, Leaves;
    var o', k' := SetAt(o, Path(e), e.leaf).target, Without(k, Path(e)) + {e};
    NoneInTheWay(o, k, e);
    forall q ensures Explained(o', k', q) {
      assert Explained(o, k, q);
      ExplainedAfterSet(o, k, e, q);
    }
    forall d | d in k' ensures LeadsToLeaf(o', d) {
      ReadsBack(o, Path(e), e.leaf, Path(e));
      if d != e {
        assert LeadsToLeaf(o, d);
        NotRelated(Path(e), Path(d));
        ReadsBack(o, Path(e), e.leaf, Path(d));
      }
    }
  }

  lemma NotRelated(p: seq<string>, q: seq<string>)
    requires !(p <= q) && !(q < p)
    ensures !Related(p, q)
  {
  }

  // ----- room

  /** Objects that only grew. */
  ghost predicate Grown(v: Value) {
    v.Object? ==>
      && OnLadder(v.capacity) && |v.members| <= v.capacity <= OBJECT_MAX_CAPACITY
      && forall i :: 0 <= i < |v.members| ==> Grown(v.members[i].value)
  }

  lemma HasRoomExactly(o: Value)
    requires o.Object? && OnLadder(o.capacity) && |o.members| <= o.capacity <= OBJECT_MAX_CAPACITY
    ensures HasRoom(o) <==> |o.members| < OBJECT_MAX_CAPACITY
  {
  }

  lemma {:induction false} SetKeepsGrown(o: Value, path: seq<string>, value: Value)
    requires o.Object? && path != [] && Grown(o) && Grown(value)
    ensures Grown(SetAt(o, path, value).target)
    decreases |path|
  {
    hide Find, Room, OnLadder;
    RoomOnLadder(|o.members|, o.capacity, OBJECT_MAX_CAPACITY);
    EmptyIsGrown();
    if |path| > 1 {
      var k := Find(o.members, path[0]);
      if k < |o.members| && o.members[k].value.Object? {
        SetKeepsGrown(o.members[k].value, path[1..], value);
      } else {
        SetKeepsGrown(EmptyObject, path[1..], value);
      }
    }
  }

  lemma EmptyIsGrown()
    ensures Grown(EmptyObject)
  {
  }

  lemma {:induction false} LookupStep(o: Value, p: seq<string>, name: string)
    ensures Lookup(o, p + [name]) ==
            if Lookup(o, p).Some? && Lookup(o, p).value.Object? then Get(Lookup(o, p).value.members, name) else None
    decreases |p|
  {
    if p == [] {
      assert p + [name] == [name] && [name][1..] == [];
    } else if o.Object? && Get(o.members, p[0]).Some? {
      assert (p + [name])[1..] == p[1..] + [name];
      LookupStep(Get(o.members, p[0]).value, p[1..], name);
    }
  }

  /** The names of an object in the tree are among those that follow its path. */
  lemma NamesAreNext(o: Value, k: set<Entry>, p: seq<string>)
    requires Represents(o, k) && Lookup(o, p).Some? && Lookup(o, p).value.Object?
    ensures JsonEquality.Names(Lookup(o, p).value.members) <= NextNames(k, p)
  {
    hide Represents, Lookup, IsLeaf, Path;
    var ms := Lookup(o, p).value.members;
    forall name | name in JsonEquality.Names(ms) ensures name in NextNames(k, p) {
      JsonEquality.NamesFound(ms, name);
      LookupStep(o, p, name);
      var q := p + [name];
      ExplainedAt(o, k, q);
      var e :| e in k && q <= Path(e);
      assert p < Path(e) && Path(e)[|p|] == name;
    }
  }

  lemma ExplainedAt(o: Value, k: set<Entry>, q: seq<string>)
    requires Represents(o, k)
    ensures Explained(o, k, q)
  {
  }

  lemma NextNamesMore(k: set<Entry>, e: Entry, p: seq<string>)
    ensures NextNames(k + {e}, p) == NextNames(k, p) + (if p < Path(e) then {Path(e)[|p|]} else {})
  {
    hide Path;
    assert e in k + {e};
    forall name | name in NextNames(k, p) ensures name in NextNames(k + {e}, p) {
      var d :| d in k && p < Path(d) && Path(d)[|p|] == name;
      assert d in k + {e};
    }
    assert p < Path(e) ==> Path(e)[|p|] in NextNames(k + {e}, p);
  }

  /** Where a path goes on from an object in the tree, the object has room for the next
      name, and what has that name already is an object. */
  lemma {:induction false} CanSetFrom(o: Value, k: set<Entry>, e: Entry, p: seq<string>, node: Value, rest: seq<string>)
    requires Represents(o, k) && Fits(k, e)
    requires Path(e) == p + rest && rest != [] && Lookup(o, p) == Some(node) && node.Object?
    requires Grown(node) && WellNamed(node)
    ensures CanSet(node, rest)
    decreases |rest|
  {
    hide Represents, Lookup, Path, Fits, OnLadder;
    var name := rest[0];
    var sub := Get(node.members, name);
    LookupStep(o, p, name);
    if sub.None? {
      RoomForOne(o, k, e, p, node, name);
    } else if |rest| > 1 {
      var q := p + [name];
      assert q + rest[1..] == Path(e) by {
        assert rest == [name] + rest[1..];
      }
      ObjectAtStep(o, k, e, q);
      CanSetFrom(o, k, e, q, sub.value, rest[1..]);
    }
  }

  lemma ObjectAtStep(o: Value, k: set<Entry>, e: Entry, q: seq<string>)
    requires Represents(o, k) && Fits(k, e) && q < Path(e) && Lookup(o, q).Some?
    ensures Lookup(o, q).value.Object?
  {
    hide Lookup, Path, NextNames;
    assert Explained(o, k, q);
  }

  lemma RoomForOne(o: Value, k: set<Entry>, e: Entry, p: seq<string>, node: Value, name: string)
    requires Represents(o, k) && Fits(k, e)
    requires p < Path(e) && Path(e)[|p|] == name && Lookup(o, p) == Some(node) && node.Object?
    requires Grown(node) && UniqueNames(node.members) && Get(node.members, name).None?
    ensures HasRoom(node)
  {
    hide Represents, Lookup, Path, NextNames;
    var names, next := JsonEquality.Names(node.members), NextNames(k, p);
    NamesAreNext(o, k, p);
    NextNamesMore(k, e, p);
    JsonEquality.NamesFound(node.members, name);
    JsonEquality.NamesCounted(node.members);
    assert |NextNames(k + {e}, p)| <= OBJECT_MAX_CAPACITY;
    SubsetIsSmaller(names + {name}, next + {name});
    HasRoomExactly(node);
  }

  lemma ObjectOf(o: Value, k: set<Entry>)
    requires Represents(o, k)
    ensures o.Object?
  {
  }

  lemma {:induction false} PrefixFound(o: Value, p: seq<string>, q: seq<string>)
    requires p <= q && Lookup(o, q).Some?
    ensures Lookup(o, p).Some? && (p < q ==> Lookup(o, p).value.Object?)
    decreases |p|
  {
    if p != [] {
      PrefixFound(Get(o.members, p[0]).value, p[1..], q[1..]);
    }
  }

  lemma {:induction false} PartsAreGrown(o: Value, p: seq<string>)
    requires Grown(o) && WellNamed(o) && Lookup(o, p).Some?
    ensures Grown(Lookup(o, p).value) && WellNamed(Lookup(o, p).value)
    decreases |p|
  {
    if p != [] {
      PartsAreGrown(Get(o.members, p[0]).value, p[1..]);
    }
  }

  /** The names that follow a path are among those of the object there. */
  lemma NextAreNames(o: Value, k: set<Entry>, p: seq<string>)
    requires Represents(o, k) && NextNames(k, p) != {}
    ensures Lookup(o, p).Some? && Lookup(o, p).value.Object?
    ensures NextNames(k, p) <= JsonEquality.Names(Lookup(o, p).value.members)
  {
    hide Path, Lookup, Explained;
    forall name | name in NextNames(k, p)
      ensures Lookup(o, p).Some? && Lookup(o, p).value.Object?
        && name in JsonEquality.Names(Lookup(o, p).value.members) {
      var e :| e in k && p < Path(e) && Path(e)[|p|] == name;
      assert LeadsToLeaf(o, e);
      var q := p + [name];
      assert q <= Path(e) && p < q;
      PrefixFound(o, q, Path(e));
      PrefixFound(o, p, q);
      LookupStep(o, p, name);
      JsonEquality.NamesFound(Lookup(o, p).value.members, name);
    }
  }

  /** A tree holds no more names at any place than an object can have. */
  lemma TreeHasRoom(o: Value, k: set<Entry>)
    requires Represents(o, k) && Grown(o) && WellNamed(o)
    ensures RoomEverywhere(k)
  {
    hide Represents, Path, Lookup, NextNames;
    forall p ensures |NextNames(k, p)| <= OBJECT_MAX_CAPACITY {
      if NextNames(k, p) != {} {
        NextAreNames(o, k, p);
        PartsAreGrown(o, p);
        var node := Lookup(o, p).value;
        JsonEquality.NamesCounted(node.members);
        SubsetIsSmaller(NextNames(k, p), JsonEquality.Names(node.members));
      }
    }
  }

  /** Giving up what extends a path takes no name from the steps of the path. */
  lemma NamesOnTheWay(k: set<Entry>, e: Entry, p: seq<string>)
    requires p < Path(e)
    ensures NextNames(k + {e}, p) == NextNames(Without(k, Path(e)) + {e}, p)
  {
    hide Path;
    var k' := Without(k, Path(e)) + {e};
    assert e in k' && e in k + {e};
    forall name | name in NextNames(k + {e}, p) ensures name in NextNames(k', p) {
      var d :| d in k + {e} && p < Path(d) && Path(d)[|p|] == name;
      if d !in k' {
        assert Path(e) <= Path(d) && Path(e)[|p|] == name;
      }
    }
    forall name | name in NextNames(k', p) ensures name in NextNames(k + {e}, p) {
      var d :| d in k' && p < Path(d) && Path(d)[|p|] == name;
      assert d in k + {e};
    }
  }

  /** Setting one more entry succeeds exactly if it fits, which its name and the names in
      the tree decide. */
  lemma SetSucceedsExactly(o: Value, k: set<Entry>, e: Entry)
    requires Represents(o, k) && Grown(o) && WellNamed(o) && Leaves(k) && IsLeafValue(e.leaf)
    ensures DotSet(o, e.name, e.leaf).ok <==> Fits(k, e)
  {
    hide Represents, CanSet, DotSet, SetAt, Leaves, WellNamed, Grown, Without, NextNames, IsMicro;
    ObjectOf(o, k);
    DotSetIsSetAt(o, e.name, e.leaf);
    SetAtSucceedsExactly(o, Path(e), e.leaf);
    if Fits(k, e) {
      assert Path(e) == [] + Path(e);
      CanSetFrom(o, k, e, [], o, Path(e));
    }
    if SetAt(o, Path(e), e.leaf).ok {
      NoneInTheWay(o, k, e);
      AfterSet(o, k, e);
      var o', k' := SetAt(o, Path(e), e.leaf).target, Without(k, Path(e)) + {e};
      TreeHasRoom(o', k');
      forall p | p < Path(e) ensures |NextNames(k + {e}, p)| <= OBJECT_MAX_CAPACITY {
        NamesOnTheWay(k, e, p);
        assert |NextNames(k', p)| <= OBJECT_MAX_CAPACITY;
      }
    }
  }

  lemma AfterSet(o: Value, k: set<Entry>, e: Entry)
    requires Represents(o, k) && Grown(o) && WellNamed(o) && Leaves(k) && IsLeafValue(e.leaf)
    ensures var r := SetAt(o, Path(e), e.leaf);
      Grown(r.target) && WellNamed(r.target) && (r.ok ==> Represents(r.target, Without(k, Path(e)) + {e}))
  {
    hide Represents, SetAt, Leaves, Without, IsMicro;
    ObjectOf(o, k);
    LeafIsWellNamed(e.leaf);
    SetKeepsGrown(o, Path(e), e.leaf);
    SetKeepsNamesUnique(o, Path(e), e.leaf);
    if SetAt(o, Path(e), e.leaf).ok {
      RepresentsAfterSet(o, k, e);
    }
  }

  lemma LeafIsWellNamed(v: Value)
    requires IsLeafValue(v)
    ensures WellNamed(v) && Grown(v)
  {
  }

  // ----- the whole tree

  /** The tree holds the entries kept, and nothing else. */
  lemma {:induction false} BuiltSoFar(es: seq<Entry>)
    requires Leaves(Of(es))
    ensures Represents(Build(es), Kept(es)) && Grown(Build(es)) && WellNamed(Build(es)) && Kept(es) <= Of(es)
    decreases |es|
  {
    hide Represents, DotSet, SetAt, Fits, Without, IsMicro, Grown, WellNamed;
    if es == [] {
      EmptyRepresents();
    } else {
      var front, last := es[..|es| - 1], es[|es| - 1];
      assert Of(front) <= Of(es) && last in Of(es);
      BuiltSoFar(front);
      ObjectOf(Build(front), Kept(front));
      DotSetIsSetAt(Build(front), last.name, last.leaf);
      SetSucceedsExactly(Build(front), Kept(front), last);
      AfterSet(Build(front), Kept(front), last);
      assert Without(Kept(front), Path(last)) <= Kept(front) by { WithoutIsLess(Kept(front), Path(last)); }
      if !SetAt(Build(front), Path(last), last.leaf).ok {
        FailedSetChangesNothing(Build(front), Path(last), last.leaf);
        CapacitiesAside(Build(front), Build(es), Kept(front));
      }
    }
  }

  lemma WithoutIsLess(k: set<Entry>, p: seq<string>)
    ensures Without(k, p) <= k
  {
  }

  lemma EmptyRepresents()
    ensures Represents(EmptyObject, {}) && Grown(EmptyObject) && WellNamed(EmptyObject)
  {
    forall q: seq<string> ensures Explained(EmptyObject, {}, q) {
    }
  }

  /** The sets that succeed are exactly those of entries that fit. */
  lemma {:induction false} AllSetExactly(es: seq<Entry>)
    requires Leaves(Of(es))
    ensures AllSet(es) <==> forall i :: 0 <= i < |es| ==> Fits(Kept(es[..i]), es[i])
    decreases |es|
  {
    hide Represents, DotSet, Fits, Kept, IsMicro, Grown, WellNamed;
    if es != [] {
      var front, last := es[..|es| - 1], es[|es| - 1];
      assert Of(front) <= Of(es) && last in Of(es);
      AllSetExactly(front);
      BuiltSoFar(front);
      SetSucceedsExactly(Build(front), Kept(front), last);
      assert forall i :: 0 <= i < |front| ==> front[..i] == es[..i] && front[i] == es[i];
    }
  }

  /** What is kept is prefix-free and has room. */
  lemma {:induction false} KeptIsPrefixFree(es: seq<Entry>)
    ensures PrefixFree(Kept(es)) && RoomEverywhere(Kept(es))
    decreases |es|
  {
    hide Path, NextNames;
    if es == [] {
      NoNextNames();
    } else {
      var front, last := es[..|es| - 1], es[|es| - 1];
      KeptIsPrefixFree(front);
      if Fits(Kept(front), last) {
        RoomAfter(Kept(front), last);
      }
    }
  }

  lemma NoNextNames()
    ensures forall p :: NextNames({}, p) == {}
  {
  }

  lemma RoomAfter(k: set<Entry>, e: Entry)
    requires RoomEverywhere(k) && Fits(k, e)
    ensures RoomEverywhere(Without(k, Path(e)) + {e})
  {
    hide Path, NextNames;
    var k' := Without(k, Path(e));
    forall p ensures |NextNames(k' + {e}, p)| <= OBJECT_MAX_CAPACITY {
      if p < Path(e) {
        NamesOnTheWay(k, e, p);
      } else {
        NextNamesMore(k', e, p);
        FewerNextNames(k', k, p);
        SubsetIsSmaller(NextNames(k', p), NextNames(k, p));
      }
    }
  }

  lemma FewerNextNames(k: set<Entry>, l: set<Entry>, p: seq<string>)
    requires k <= l
    ensures NextNames(k, p) <= NextNames(l, p)
  {
  }

  lemma RoomBelow(k: set<Entry>, l: set<Entry>)
    requires k <= l && RoomEverywhere(l)
    ensures RoomEverywhere(k)
  {
    hide NextNames;
    forall p ensures |NextNames(k, p)| <= OBJECT_MAX_CAPACITY {
      FewerNextNames(k, l, p);
      SubsetIsSmaller(NextNames(k, p), NextNames(l, p));
    }
  }

  /** The entries whose paths extend no other entry's. */
  ghost function Shortest(k: set<Entry>): set<Entry> {
    set e | e in k && forall d :: d in k ==> !(Path(d) < Path(e))
  }

  lemma {:induction false} ShortestBefore(k: set<Entry>, d: Entry) returns (s: Entry)
    requires d in k
    ensures s in Shortest(k) && Path(s) <= Path(d)
    decreases |Path(d)|
  {
    hide Path;
    if d in Shortest(k) {
      s := d;
    } else {
      var c :| c in k && Path(c) < Path(d);
      s := ShortestBefore(k, c);
    }
  }

  /** Different entries have different paths. */
  ghost predicate Distinct(k: set<Entry>) {
    forall d, e :: d in k && e in k && Path(d) == Path(e) ==> d == e
  }

  /** Where there is room, the entries kept are those that extend no other, whatever the
      order in which they are set. */
  lemma {:induction false} KeptAreShortest(es: seq<Entry>)
    requires Distinct(Of(es)) && RoomEverywhere(Of(es))
    ensures Kept(es) == Shortest(Of(es))
    decreases |es|
  {
    hide Path, NextNames, RoomEverywhere;
    if es != [] {
      var front, last := es[..|es| - 1], es[|es| - 1];
      assert Of(es) == Of(front) + {last};
      RoomBelow(Of(front), Of(es));
      KeptAreShortest(front);
      ShortestAfter(Of(front), last);
    }
  }

  lemma ShortestAfter(k: set<Entry>, e: Entry)
    requires Distinct(k + {e}) && RoomEverywhere(k + {e})
    ensures Fits(Shortest(k), e) <==> forall d :: d in k ==> !(Path(d) < Path(e))
    ensures Shortest(k + {e}) == if Fits(Shortest(k), e) then Without(Shortest(k), Path(e)) + {e} else Shortest(k)
  {
    hide Path, NextNames;
    RoomBelow(Shortest(k) + {e}, k + {e});
    if d :| d in k && Path(d) < Path(e) {
      var s := ShortestBefore(k, d);
      assert Path(s) < Path(e);
      assert Shortest(k + {e}) == Shortest(k) by {
        forall f | f in Shortest(k) ensures f in Shortest(k + {e}) {
          assert Path(e) < Path(f) ==> Path(s) < Path(f);
        }
      }
    } else {
      var l := Without(Shortest(k), Path(e)) + {e};
      forall f | f in k + {e} ensures f in Shortest(k + {e}) <==> f in l {
        if f != e {
          assert Path(e) == Path(f) ==> f == e;
        }
      }
    }
  }

  /** Of two entries one of which extends the other the longer is lost, in either order. */
  lemma LongerIsLost(d: Entry, e: Entry)
    requires Path(d) < Path(e)
    ensures Kept([d, e]) == Kept([e, d]) == {d}
  {
    hide Path, NextNames, Kept;
    var both := {d, e};
    assert Of([d, e]) == both && Of([e, d]) == both;
    forall p ensures |NextNames(both, p)| <= OBJECT_MAX_CAPACITY {
      NextNamesMore({}, d, p);
      NextNamesMore({} + {d}, e, p);
      NoNextNames();
      assert {} + {d} + {e} == both;
    }
    KeptAreShortest([d, e]);
    KeptAreShortest([e, d]);
    assert Shortest(both) == {d};
  }

  /** Nothing is lost exactly if no path is a prefix of another and no path is followed by
      more than 960 different names. */
  lemma AllKeptExactly(es: seq<Entry>)
    ensures Kept(es) == Of(es) <==> PrefixFree(Of(es)) && RoomEverywhere(Of(es))
  {
    hide Path, NextNames, RoomEverywhere, Kept;
    KeptIsPrefixFree(es);
    if PrefixFree(Of(es)) && RoomEverywhere(Of(es)) {
      KeptAreShortest(es);
    }
  }

  /** With prefix-free paths every single set succeeds exactly if no path is followed by
      more than 960 different names. */
  lemma {:induction false} BuildSucceedsExactly(es: seq<Entry>)
    requires PrefixFree(Of(es)) && Leaves(Of(es))
    ensures AllSet(es) <==> RoomEverywhere(Of(es))
    decreases |es|
  {
    hide Path, NextNames, RoomEverywhere, AllSet, Fits, IsMicro;
    AllSetExactly(es);
    if RoomEverywhere(Of(es)) {
      forall i | 0 <= i < |es| ensures Fits(Kept(es[..i]), es[i]) {
        FitsNext(es, i);
      }
    }
    if AllSet(es) {
      AllFittingKept(es);
      KeptIsPrefixFree(es);
    }
  }

  lemma FitsNext(es: seq<Entry>, i: nat)
    requires PrefixFree(Of(es)) && RoomEverywhere(Of(es)) && i < |es|
    ensures Fits(Kept(es[..i]), es[i])
  {
    hide Path, NextNames, Kept;
    var front, e := es[..i], es[i];
    assert Of(front) + {e} <= Of(es);
    RoomBelow(Of(front) + {e}, Of(es));
    RoomBelow(Of(front), Of(es));
    AllKeptExactly(front);
  }

  lemma {:induction false} AllFittingKept(es: seq<Entry>)
    requires PrefixFree(Of(es)) && forall i :: 0 <= i < |es| ==> Fits(Kept(es[..i]), es[i])
    ensures Kept(es) == Of(es)
    decreases |es|
  {
    hide Path, Fits;
    if es != [] {
      var front, last := es[..|es| - 1], es[|es| - 1];
      assert Of(es) == Of(front) + {last};
      assert forall i :: 0 <= i < |front| ==> front[..i] == es[..i] && front[i] == es[i];
      AllFittingKept(front);
    }
  }

  // ----- the tree can be read back

  /** What the parser takes back: short enough paths, and no other control characters than
      the five that are escaped. */
  ghost predicate Plain(k: set<Entry>) {
    forall e :: e in k ==> PlainEntry(e)
  }

  predicate PlainEntry(e: Entry) {
    && |Path(e)| <= MAX_NESTING && JsonRoundTrip.PrintableText(e.name)
    && (e.leaf.String? ==> JsonRoundTrip.PrintableText(e.leaf.s))
  }

  lemma {:induction false} SegmentsPrintable(name: string, k: nat)
    requires JsonRoundTrip.PrintableText(name) && k < |Segments(name)|
    ensures JsonRoundTrip.PrintableText(Segments(name)[k])
    decreases |name|
  {
    var d := Dot(name);
    if d < |name| && k > 0 {
      SegmentsPrintable(name[d + 1..], k - 1);
    }
  }

  lemma {:induction false} JoinPrintable(path: seq<string>)
    requires forall k :: 0 <= k < |path| ==> JsonRoundTrip.PrintableText(path[k])
    ensures JsonRoundTrip.PrintableText(Join(path))
    decreases |path|
  {
    if |path| > 1 {
      JoinPrintable(path[1..]);
    }
  }

  lemma {:induction false} JoinSegments(name: string)
    ensures Join(Segments(name)) == name
    decreases |name|
  {
    var d := Dot(name);
    if d < |name| {
      JoinSegments(name[d + 1..]);
      assert Segments(name)[1..] == Segments(name[d + 1..]);
      assert name == name[..d] + "." + name[d + 1..];
    } else {
      assert Segments(name) == [name];
    }
  }

  lemma NamePrintable(o: Value, k: set<Entry>, p: seq<string>, name: string)
    requires Represents(o, k) && Plain(k) && Lookup(o, p + [name]).Some?
    ensures JsonRoundTrip.PrintableText(name) && |p| + 1 <= MAX_NESTING
  {
    hide Represents, Lookup, Segments, JsonRoundTrip.PrintableText;
    var q := p + [name];
    ExplainedAt(o, k, q);
    var e :| e in k && q <= Path(e);
    assert PlainEntry(e);
    SegmentsPrintable(e.name, |p|);
    assert Path(e)[|p|] == name;
  }

  lemma LeafReadable(o: Value, k: set<Entry>, p: seq<string>, v: Value)
    requires Represents(o, k) && Plain(k) && Leaves(k) && Lookup(o, p) == Some(v) && !v.Object?
    ensures JsonRoundTrip.Readable(v, |p|)
  {
    hide Represents, Lookup, Segments, JsonRoundTrip.PrintableText, IsMicro;
    ExplainedAt(o, k, p);
    var e :| e in k && p == Path(e) && v == e.leaf;
    assert PlainEntry(e) && IsLeafValue(e.leaf);
  }

  lemma MemberFound(o: Value, p: seq<string>, v: Value, i: nat)
    requires Lookup(o, p) == Some(v) && v.Object? && UniqueNames(v.members) && i < |v.members|
    ensures Lookup(o, p + [v.members[i].name]) == Some(v.members[i].value)
  {
    LookupStep(o, p, v.members[i].name);
    FindUnique(v.members, i);
  }

  lemma {:induction false} TreeReadable(o: Value, k: set<Entry>, p: seq<string>, v: Value)
    requires Represents(o, k) && Plain(k) && Leaves(k) && Lookup(o, p) == Some(v)
    requires Grown(v) && WellNamed(v) && |p| <= MAX_NESTING
    ensures JsonRoundTrip.Readable(v, |p|)
    decreases v
  {
    hide Represents, Lookup, Segments, JsonRoundTrip.PrintableText, Plain, Leaves, OnLadder;
    if v.Object? {
      forall i | 0 <= i < |v.members|
        ensures JsonRoundTrip.PrintableText(v.members[i].name) && JsonRoundTrip.Readable(v.members[i].value, |p| + 1) {
        var name := v.members[i].name;
        MemberFound(o, p, v, i);
        NamePrintable(o, k, p, name);
        TreeReadable(o, k, p + [name], v.members[i].value);
      }
    } else {
      LeafReadable(o, k, p, v);
    }
  }

  /** In a readable value all names on a path are printable, and what it leads to is readable. */
  lemma {:induction false} ReadableAlong(v: Value, depth: nat, p: seq<string>)
    requires JsonRoundTrip.Readable(v, depth) && Lookup(v, p).Some?
    ensures JsonRoundTrip.Readable(Lookup(v, p).value, depth + |p|)
    ensures forall i :: 0 <= i < |p| ==> JsonRoundTrip.PrintableText(p[i])
    decreases |p|
  {
    hide JsonRoundTrip.PrintableText;
    if p != [] {
      var m := v.members[Find(v.members, p[0])];
      ReadableAlong(m.value, depth + 1, p[1..]);
      forall i | 0 <= i < |p| ensures JsonRoundTrip.PrintableText(p[i]) {
        if i > 0 {
          assert p[i] == p[1..][i - 1];
        }
      }
    }
  }

  /** A tree can be read back exactly if its entries are plain. */
  lemma TreeReadableExactly(o: Value, k: set<Entry>)
    requires Represents(o, k) && Leaves(k) && Grown(o) && WellNamed(o)
    ensures JsonRoundTrip.Readable(o, 0) <==> Plain(k)
  {
    hide Lookup, Explained, JsonRoundTrip.PrintableText, JsonRoundTrip.Readable, Grown, WellNamed, Join, Segments,
      IsMicro;
    if Plain(k) {
      LookupNothing(o);
      TreeReadable(o, k, [], o);
    }
    if JsonRoundTrip.Readable(o, 0) {
      forall e | e in k ensures PlainEntry(e) {
        assert LeadsToLeaf(o, e) && IsLeafValue(e.leaf);
        ReadableAlong(o, 0, Path(e));
        JoinPrintable(Path(e));
        JoinSegments(e.name);
        ReadableLeaf(e.leaf, |Path(e)|);
      }
    }
  }

  lemma ReadableLeaf(v: Value, depth: nat)
    requires JsonRoundTrip.Readable(v, depth)
    ensures depth <= MAX_NESTING && (v.String? ==> JsonRoundTrip.PrintableText(v.s))
  {
  }

  lemma LookupNothing(v: Value)
    ensures Lookup(v, []) == Some(v)
  {
  }

  lemma {:induction false} TreeIsMicro(o: Value, k: set<Entry>, p: seq<string>, v: Value)
    requires Represents(o, k) && Leaves(k) && Lookup(o, p) == Some(v) && WellNamed(v)
    ensures JsonRoundTrip.AllMicro(v)
    decreases v
  {
    hide Represents, Lookup, IsMicro;
    if v.Object? {
      forall i | 0 <= i < |v.members| ensures JsonRoundTrip.AllMicro(v.members[i].value) {
        MemberFound(o, p, v, i);
        TreeIsMicro(o, k, p + [v.members[i].name], v.members[i].value);
      }
    } else {
      ExplainedAt(o, k, p);
      var e :| e in k && p == Path(e) && v == e.leaf;
      assert IsLeafValue(e.leaf);
    }
  }

  lemma {:induction false} LookupTrimmed(o: Value, q: seq<string>)
    ensures Lookup(Trim(o), q) == if Lookup(o, q).Some? then Some(Trim(Lookup(o, q).value)) else None
    decreases |q|
  {
    if q != [] && o.Object? {
      JsonRoundTrip.FindTrimmed(o.members, q[0]);
      if Get(o.members, q[0]).Some? {
        LookupTrimmed(Get(o.members, q[0]).value, q[1..]);
      }
    }
  }

  lemma TrimBasics(v: Value)
    ensures Trim(v).Object? <==> v.Object?
    ensures Trim(v).Number? || Trim(v).String? || v.Number? || v.String? ==> Trim(v) == v
  {
  }

  lemma LeafLookups(o: Value, o': Value, q: seq<string>)
    requires Trim(o) == Trim(o')
    ensures Lookup(o, q).Some? <==> Lookup(o', q).Some?
    ensures Lookup(o, q).Some? ==>
              var x, x' := Lookup(o, q).value, Lookup(o', q).value;
              && (x.Object? <==> x'.Object?) && (IsLeafValue(x) || IsLeafValue(x') ==> x == x')
  {
    hide Trim, Lookup, IsMicro;
    LookupTrimmed(o, q);
    LookupTrimmed(o', q);
    if Lookup(o, q).Some? {
      TrimBasics(Lookup(o, q).value);
      TrimBasics(Lookup(o', q).value);
    }
  }

  /** Trees that differ in capacities only hold the same entries. */
  lemma CapacitiesAside(o: Value, o': Value, k: set<Entry>)
    requires Represents(o, k) && Leaves(k) && Trim(o) == Trim(o')
    ensures Represents(o', k)
  {
    hide Trim, Lookup, Path, IsMicro;
    TrimBasics(o);
    TrimBasics(o');
    forall e | e in k ensures LeadsToLeaf(o', e) {
      assert LeadsToLeaf(o, e) && IsLeafValue(e.leaf);
      LeafLookups(o, o', Path(e));
    }
    forall q ensures Explained(o', k, q) {
      assert Explained(o, k, q);
      LeafLookups(o, o', q);
      if Lookup(o, q).Some? && !Lookup(o, q).value.Object? {
        var e :| e in k && q == Path(e) && Lookup(o, q).value == e.leaf;
        assert IsLeafValue(e.leaf);
      }
    }
  }

  /** The tree of entries survives printing and parsing exactly if the entries it keeps are
      plain; otherwise its text is refused. */
  lemma TreeSurvivesExactly(es: seq<Entry>)
    requires Leaves(Of(es))
    ensures JsonParse.ParseText(JsonPrint.Print(Build(es), 0, true))
         == if Plain(Kept(es)) then JsonParse.Ok(Trim(Build(es)), "") else JsonParse.Fail
    ensures Represents(Trim(Build(es)), Kept(es)) && WellNamed(Trim(Build(es)))
  {
    hide Plain, Represents, JsonParse.ParseText, JsonPrint.Print, Trim, Kept, JsonRoundTrip.Readable,
      JsonRoundTrip.Reread, JsonRoundTrip.AllMicro, IsMicro, Grown, WellNamed, Lookup;
    BuiltSoFar(es);
    var o, k := Build(es), Kept(es);
    assert Leaves(k);
    TreeReadableExactly(o, k);
    LookupNothing(o);
    TreeIsMicro(o, k, [], o);
    JsonRoundTrip.RereadExactly(o);
    JsonRoundTrip.RoundTrip(o, true, "");
    assert JsonPrint.Print(o, 0, true) + "" == JsonPrint.Print(o, 0, true);
    TrimTwice(o);
    CapacitiesAside(o, Trim(o), k);
    JsonEquality.TrimKeepsMeaning(o);
  }

  predicate CEntry(e: Entry) {
    '\0' !in e.name && (e.leaf.String? ==> '\0' !in e.leaf.s)
  }

  lemma {:induction false} SegmentsAreCStrings(name: string, k: nat)
    requires '\0' !in name && k < |Segments(name)|
    ensures '\0' !in Segments(name)[k]
    decreases |name|
  {
    var d := Dot(name);
    if d < |name| && k > 0 {
      SegmentsAreCStrings(name[d + 1..], k - 1);
    }
  }

  lemma {:induction false} TreeOfCStrings(o: Value, k: set<Entry>, p: seq<string>, v: Value)
    requires Represents(o, k) && Leaves(k) && (forall e :: e in k ==> CEntry(e))
    requires Lookup(o, p) == Some(v) && WellNamed(v)
    ensures JsonRoundTrip.CStrings(v)
    decreases v
  {
    hide Represents, Lookup, IsMicro, Segments;
    if v.Object? {
      forall i | 0 <= i < |v.members|
        ensures JsonRoundTrip.NoNul(v.members[i].name) && JsonRoundTrip.CStrings(v.members[i].value) {
        MemberFound(o, p, v, i);
        var q := p + [v.members[i].name];
        ExplainedAt(o, k, q);
        var e :| e in k && q <= Path(e);
        SegmentsAreCStrings(e.name, |p|);
        assert Path(e)[|p|] == v.members[i].name;
        TreeOfCStrings(o, k, q, v.members[i].value);
      }
    } else {
      ExplainedAt(o, k, p);
      var e :| e in k && p == Path(e) && v == e.leaf;
      assert IsLeafValue(e.leaf) && CEntry(e);
    }
  }

  /** The text of the tree is a C string. */
  lemma TextIsCString(es: seq<Entry>)
    requires Leaves(Of(es)) && forall e :: e in es ==> CEntry(e)
    ensures '\0' !in JsonPrint.Print(Build(es), 0, true)
  {
    hide Represents, JsonPrint.Print, IsMicro, WellNamed, Grown, Kept, CEntry;
    BuiltSoFar(es);
    LookupNothing(Build(es));
    TreeOfCStrings(Build(es), Kept(es), [], Build(es));
    JsonRoundTrip.PrintedHasNoNul(Build(es), 0, true);
  }
}
