/** The chained hash table. Elements are told apart by their hash alone, so a table is a
    map from hash to data, kept in buckets by hash modulo size. */
module HashTable {
  import opened Text

  const WORD := 0x1_0000_0000
  const LONG_WORD := 0x1_0000_0000_0000_0000

  /** Unsigned int arithmetic. */
  function Wrap(x: int): nat {
    x % WORD
  }

  lemma WrapAgain(x: int, d: int)
    ensures Wrap(Wrap(x) + d) == Wrap(x + d)
  {
  }

  /** `None` is a null data pointer. */
  datatype Node<D> = Node(hash: nat, data: Option<D>)

  /** A key is a sequence of bytes or null. */
  type Key = Option<string>

  function HashFrom(hash: nat, s: string): nat
    decreases |s|
  {
    if s == [] then hash else HashFrom((hash * 33 + s[0] as nat) % LONG_WORD, s[1..])
  }

  /** `iw_hash_data`, in 64-bit unsigned arithmetic. */
  function HashData(key: Key): nat {
    if key.None? then 0 else HashFrom(5381, key.value)
  }

  lemma {:induction false} HashFromNext(hash: nat, s: string, i: nat)
    requires i < |s|
    ensures HashFrom(hash, s[..i + 1]) == (HashFrom(hash, s[..i]) * 33 + s[i] as nat) % LONG_WORD
    decreases i
  {
    assert s[..i + 1][0] == s[0] && s[..i + 1][1..] == s[1..][..i];
    if i > 0 {
      assert s[..i][1..] == s[1..][..i - 1];
      HashFromNext((hash * 33 + s[0] as nat) % LONG_WORD, s[1..], i - 1);
    }
  }

  /** The hash of a key that is one byte longer. */
  lemma HashOneMore(s: string, c: char)
    ensures HashData(Some(s + [c])) == (HashData(Some(s)) * 33 + c as nat) % 0x1_0000_0000_0000_0000
    ensures HashData(Some("")) == 5381 && HashData(None) == 0
  {
    hide HashFrom;
    HashFromNext(5381, s + [c], |s|);
    assert (s + [c])[..|s|] == s && (s + [c])[..|s| + 1] == s + [c];
    HashOfNothing();
  }

  lemma HashOfNothing()
    ensures HashFrom(5381, "") == 5381
  {
  }

  /** The loop of `iw_hash_data`. */
  method ComputeHash(key: Key) returns (hash: nat)
    ensures hash == HashData(key)
  {
    hash := 5381;
    if key.None? {
      return 0;
    }
    assert key.value[..0] == [];
    for cnt := 0 to |key.value|
      invariant hash == HashFrom(5381, key.value[..cnt])
    {
      HashFromNext(5381, key.value, cnt);
      hash := (hash * 32 + hash + key.value[cnt] as nat) % LONG_WORD;
    }
    assert key.value[..|key.value|] == key.value;
  }

  function BucketOf(hash: nat, size: nat): (b: nat)
    requires size > 0
    ensures b < size
  {
    hash % size
  }

  // ----- the buckets as one sequence, and as a map

  /** All nodes in the order the iteration visits them: bucket by bucket, each from its head. */
  function Flat<D>(b: seq<seq<Node<D>>>): seq<Node<D>> {
    if b == [] then [] else b[0] + Flat(b[1..])
  }

  ghost predicate Unique<D>(nodes: seq<Node<D>>) {
    forall i, j :: 0 <= i < j < |nodes| ==> nodes[i].hash != nodes[j].hash
  }

  ghost predicate Lacks<D>(nodes: seq<Node<D>>, hash: nat) {
    forall i :: 0 <= i < |nodes| ==> nodes[i].hash != hash
  }

  ghost function MapOf<D>(nodes: seq<Node<D>>): map<nat, Option<D>> {
    if nodes == [] then map[] else MapOf(nodes[1..])[nodes[0].hash := nodes[0].data]
  }

  ghost predicate Placed<D>(b: seq<seq<Node<D>>>) {
    forall i, k :: 0 <= i < |b| && 0 <= k < |b[i]| ==> BucketOf(b[i][k].hash, |b|) == i
  }

  /** Elements beyond the first of each bucket. */
  function Extra<D>(b: seq<seq<Node<D>>>): nat {
    if b == [] then 0 else (if |b[0]| > 1 then |b[0]| - 1 else 0) + Extra(b[1..])
  }

  function Occupied<D>(b: seq<seq<Node<D>>>): nat {
    if b == [] then 0 else (if b[0] != [] then 1 else 0) + Occupied(b[1..])
  }

  lemma {:induction false} FlatSplit<D>(b: seq<seq<Node<D>>>, i: nat)
    requires i < |b|
    ensures Flat(b) == Flat(b[..i]) + b[i] + Flat(b[i + 1..])
  {
    if i == 0 {
      assert b[..0] == [];
    } else {
      FlatSplit(b[1..], i - 1);
      assert b[1..][..i - 1] == b[..i][1..];
      assert b[1..][i..] == b[i + 1..];
    }
  }

  lemma {:induction false} ExtraUpdate<D>(b: seq<seq<Node<D>>>, i: nat, chain: seq<Node<D>>)
    requires i < |b|
    ensures Extra(b[i := chain]) + (if |b[i]| > 1 then |b[i]| - 1 else 0)
         == Extra(b) + (if |chain| > 1 then |chain| - 1 else 0)
  {
    if i == 0 {
      assert b[0 := chain][1..] == b[1..];
    } else {
      ExtraUpdate(b[1..], i - 1, chain);
      assert b[i := chain][1..] == b[1..][i - 1 := chain];
    }
  }

  lemma {:induction false} ExtraIsBeyondFirst<D>(b: seq<seq<Node<D>>>)
    ensures Extra(b) + Occupied(b) == |Flat(b)|
  {
    if b != [] {
      ExtraIsBeyondFirst(b[1..]);
    }
  }

  lemma {:induction false} MapOfHolds<D>(nodes: seq<Node<D>>, i: nat)
    requires Unique(nodes) && i < |nodes|
    ensures nodes[i].hash in MapOf(nodes) && MapOf(nodes)[nodes[i].hash] == nodes[i].data
  {
    if i > 0 {
      assert nodes[1..][i - 1] == nodes[i];
      MapOfHolds(nodes[1..], i - 1);
    }
  }

  lemma {:induction false} MapOfLacks<D>(nodes: seq<Node<D>>, hash: nat)
    ensures Lacks(nodes, hash) <==> hash !in MapOf(nodes)
  {
    if nodes != [] {
      MapOfLacks(nodes[1..], hash);
      assert Lacks(nodes, hash) <==> nodes[0].hash != hash && Lacks(nodes[1..], hash) by {
        assert forall i :: 1 <= i < |nodes| ==> nodes[i] == nodes[1..][i - 1];
        assert forall i :: 0 <= i < |nodes| - 1 ==> nodes[1..][i] == nodes[i + 1];
      }
    }
  }

  lemma {:induction false} MapOfMiddle<D>(pre: seq<Node<D>>, n: Node<D>, post: seq<Node<D>>)
    requires Lacks(pre, n.hash)
    ensures MapOf(pre + [n] + post) == MapOf(pre + post)[n.hash := n.data]
  {
    if pre == [] {
      assert pre + [n] + post == [n] + post && pre + post == post;
    } else {
      assert (pre + [n] + post)[1..] == pre[1..] + [n] + post;
      assert (pre + post)[1..] == pre[1..] + post;
      MapOfMiddle(pre[1..], n, post);
    }
  }

  lemma {:induction false} MapSize<D>(nodes: seq<Node<D>>)
    requires Unique(nodes)
    ensures |MapOf(nodes)| == |nodes|
  {
    if nodes != [] {
      MapSize(nodes[1..]);
      assert Lacks(nodes[1..], nodes[0].hash);
      MapOfLacks(nodes[1..], nodes[0].hash);
    }
  }

  lemma {:induction false} FlatMember<D>(b: seq<seq<Node<D>>>, k: nat) returns (i: nat, j: nat)
    requires k < |Flat(b)|
    ensures i < |b| && j < |b[i]| && b[i][j] == Flat(b)[k]
  {
    if k < |b[0]| {
      i, j := 0, k;
    } else {
      i, j := FlatMember(b[1..], k - |b[0]|);
      i := i + 1;
    }
  }

  /** A hash missing from its own bucket is missing from the table. */
  lemma LacksEverywhere<D>(b: seq<seq<Node<D>>>, hash: nat)
    requires |b| > 0 && Placed(b) && Lacks(b[BucketOf(hash, |b|)], hash)
    ensures Lacks(Flat(b), hash)
  {
    hide BucketOf, Flat;
    forall k | 0 <= k < |Flat(b)| ensures Flat(b)[k].hash != hash {
      var i, j := FlatMember(b, k);
      assert BucketOf(b[i][j].hash, |b|) == i;
    }
  }

  lemma FoundInBucket<D>(b: seq<seq<Node<D>>>, hash: nat, k: nat)
    requires |b| > 0 && Unique(Flat(b)) && k < |b[BucketOf(hash, |b|)]| && b[BucketOf(hash, |b|)][k].hash == hash
    ensures hash in MapOf(Flat(b)) && MapOf(Flat(b))[hash] == b[BucketOf(hash, |b|)][k].data
  {
    hide BucketOf, Flat, MapOf, Unique;
    var i := BucketOf(hash, |b|);
    FlatSplit(b, i);
    var at := |Flat(b[..i])| + k;
    assert Flat(b)[at] == b[i][k];
    MapOfHolds(Flat(b), at);
  }

  lemma NotInBucket<D>(b: seq<seq<Node<D>>>, hash: nat)
    requires |b| > 0 && Placed(b) && Lacks(b[BucketOf(hash, |b|)], hash)
    ensures hash !in MapOf(Flat(b))
  {
    LacksEverywhere(b, hash);
    MapOfLacks(Flat(b), hash);
  }

  /** The buckets with a node at the head of its bucket. */
  function WithFirst<D>(b: seq<seq<Node<D>>>, n: Node<D>): seq<seq<Node<D>>>
    requires |b| > 0
  {
    b[n.hash % |b| := [n] + b[n.hash % |b|]]
  }

  lemma BucketIs(hash: nat, size: nat)
    requires size > 0
    ensures BucketOf(hash, size) == hash % size
  {
  }

  /** A node not yet in the table goes to the head of its bucket. */
  lemma AfterAdd<D>(b: seq<seq<Node<D>>>, n: Node<D>)
    requires |b| > 0 && Placed(b) && Unique(Flat(b)) && Lacks(b[BucketOf(n.hash, |b|)], n.hash)
    ensures var i := BucketOf(n.hash, |b|); var b' := b[i := [n] + b[i]];
      Placed(b') && Unique(Flat(b')) && MapOf(Flat(b')) == MapOf(Flat(b))[n.hash := n.data]
        && |Flat(b')| == |Flat(b)| + 1
  {
    hide BucketOf, Flat, MapOf;
    var i := BucketOf(n.hash, |b|);
    var b' := b[i := [n] + b[i]];
    LacksEverywhere(b, n.hash);
    FlatSplit(b, i);
    FlatSplit(b', i);
    var pre, post := Flat(b[..i]), b[i] + Flat(b[i + 1..]);
    assert b'[..i] == b[..i] && b'[i + 1..] == b[i + 1..];
    assert Flat(b) == pre + post && Flat(b') == pre + [n] + post;
    AddKeepsUnique(pre, n, post);
    MapOfMiddle(pre, n, post);
  }

  lemma AddKeepsUnique<D>(pre: seq<Node<D>>, n: Node<D>, post: seq<Node<D>>)
    requires Unique(pre + post) && Lacks(pre + post, n.hash)
    ensures Unique(pre + [n] + post) && Lacks(pre, n.hash)
  {
    var all, but := pre + [n] + post, pre + post;
    forall i | 0 <= i < |all| && i != |pre| ensures all[i] == but[if i < |pre| then i else i - 1] {
    }
    assert forall i :: 0 <= i < |pre| ==> pre[i] == but[i];
  }

  lemma DropKeepsUnique<D>(pre: seq<Node<D>>, n: Node<D>, post: seq<Node<D>>)
    requires Unique(pre + [n] + post)
    ensures Unique(pre + post) && Lacks(pre + post, n.hash) && Lacks(pre, n.hash)
  {
    var all, but := pre + [n] + post, pre + post;
    assert all[|pre|] == n;
    assert forall i :: 0 <= i < |but| ==> but[i] == all[if i < |pre| then i else i + 1];
    assert forall i :: 0 <= i < |pre| ==> pre[i] == but[i];
  }

  lemma AfterDrop<D>(b: seq<seq<Node<D>>>, i: nat, k: nat)
    requires i < |b| && k < |b[i]| && Placed(b) && Unique(Flat(b))
    ensures var b' := b[i := b[i][..k] + b[i][k + 1..]];
      Placed(b') && Unique(Flat(b')) && MapOf(Flat(b')) == MapOf(Flat(b)) - {b[i][k].hash}
        && |Flat(b')| == |Flat(b)| - 1
  {
    hide BucketOf, Flat, MapOf;
    var n := b[i][k];
    var b' := b[i := b[i][..k] + b[i][k + 1..]];
    FlatSplit(b, i);
    FlatSplit(b', i);
    var pre, post := Flat(b[..i]) + b[i][..k], b[i][k + 1..] + Flat(b[i + 1..]);
    assert b'[..i] == b[..i] && b'[i + 1..] == b[i + 1..];
    assert Flat(b) == pre + [n] + post;
    assert Flat(b') == pre + post;
    DropKeepsUnique(pre, n, post);
    MapOfMiddle(pre, n, post);
    MapOfLacks(pre + post, n.hash);
    assert MapOf(pre + post) == MapOf(pre + post)[n.hash := n.data] - {n.hash};
  }

  // ----- places in the sequence of all nodes

  function Offset<D>(b: seq<seq<Node<D>>>, i: nat): nat
    requires i <= |b|
  {
    |Flat(b[..i])|
  }

  lemma OffsetNext<D>(b: seq<seq<Node<D>>>, i: nat)
    requires i < |b|
    ensures Offset(b, i + 1) == Offset(b, i) + |b[i]| <= |Flat(b)|
    ensures forall k :: 0 <= k < |b[i]| ==> Flat(b)[Offset(b, i) + k] == b[i][k]
  {
    hide Flat;
    FlatSplit(b, i);
    FlatSplit(b[..i + 1], i);
    assert b[..i + 1][..i] == b[..i] && b[..i + 1][i + 1..] == [];
    FlatOfNothing<D>();
  }

  lemma FlatOfNothing<D>()
    ensures Flat<D>([]) == []
  {
  }

  lemma OffsetEnds<D>(b: seq<seq<Node<D>>>)
    ensures Offset(b, 0) == 0 && Offset(b, |b|) == |Flat(b)|
  {
    assert b[..0] == [] && b[..|b|] == b;
  }

  /** The node after the first one with this hash, in the order of iteration. */
  function NextOf<D>(nodes: seq<Node<D>>, hash: nat): Option<Node<D>> {
    if nodes == [] then None
    else if nodes[0].hash == hash then (if |nodes| > 1 then Some(nodes[1]) else None)
    else NextOf(nodes[1..], hash)
  }

  lemma {:induction false} NextOfAt<D>(nodes: seq<Node<D>>, i: nat, hash: nat)
    requires i < |nodes| && nodes[i].hash == hash && Lacks(nodes[..i], hash)
    ensures NextOf(nodes, hash) == if i + 1 < |nodes| then Some(nodes[i + 1]) else None
  {
    if i > 0 {
      assert nodes[..i][0] == nodes[0];
      var front, rest := nodes[..i], nodes[1..][..i - 1];
      assert rest == front[1..];
      forall j | 0 <= j < |rest| ensures rest[j].hash != hash {
        assert front[j + 1].hash != hash;
      }
      NextOfAt(nodes[1..], i - 1, hash);
    }
  }

  lemma {:induction false} NextOfMissing<D>(nodes: seq<Node<D>>, hash: nat)
    requires Lacks(nodes, hash)
    ensures NextOf(nodes, hash) == None
  {
    if nodes != [] {
      assert forall j :: 0 <= j < |nodes| - 1 ==> nodes[1..][j] == nodes[j + 1];
      NextOfMissing(nodes[1..], hash);
    }
  }

  lemma UniqueNext<D>(nodes: seq<Node<D>>, i: nat)
    requires Unique(nodes) && i < |nodes|
    ensures NextOf(nodes, nodes[i].hash) == if i + 1 < |nodes| then Some(nodes[i + 1]) else None
  {
    NextOfAt(nodes, i, nodes[i].hash);
  }

  // ----- orders

  type Compare<!D> = (Option<D>, Option<D>) -> int

  predicate Below<D>(compare: Compare<D>, n: Node<D>, m: Node<D>) {
    compare(n.data, m.data) < 0
  }

  /** The comparator is a strict total order on the data stored, and no data is null. */
  ghost predicate StrictOrder<D(!new)>(compare: Compare<D>, nodes: seq<Node<D>>) {
    && (forall n :: n in nodes ==> n.data.Some?)
    && (forall n, m :: n in nodes && m in nodes ==> Opposed(compare, n, m))
    && (forall n, m, p :: n in nodes && m in nodes && p in nodes && Below(compare, n, m) && Below(compare, m, p) ==>
          Below(compare, n, p))
  }

  /** Exactly one of below, above and same. */
  predicate Opposed<D(==)>(compare: Compare<D>, n: Node<D>, m: Node<D>) {
    (compare(n.data, m.data) == 0 <==> n == m) && (compare(n.data, m.data) > 0 <==> Below(compare, m, n))
  }

  /** The choice `iw_htable_get_first_ordered` makes: a node gives way to a later smaller one. */
  function FirstOf<D>(compare: Compare<D>, nodes: seq<Node<D>>): (n: Node<D>)
    requires nodes != []
    ensures n in nodes
  {
    var last := nodes[|nodes| - 1];
    if |nodes| == 1 then last
    else
      var n := FirstOf(compare, nodes[..|nodes| - 1]);
      if compare(n.data, last.data) > 0 then last else n
  }

  /** The choice `iw_htable_get_next_ordered` makes among the nodes above `prev`. */
  function NextUp<D>(compare: Compare<D>, prev: Node<D>, nodes: seq<Node<D>>): (n: Option<Node<D>>)
    ensures n.Some? ==> n.value in nodes && compare(prev.data, n.value.data) < 0
  {
    if nodes == [] then None
    else
      var last, n := nodes[|nodes| - 1], NextUp(compare, prev, nodes[..|nodes| - 1]);
      if compare(prev.data, last.data) < 0 && (n.None? || compare(n.value.data, last.data) > 0) then Some(last)
      else n
  }

  lemma FirstOfStep<D>(compare: Compare<D>, nodes: seq<Node<D>>, at: nat)
    requires at < |nodes|
    ensures FirstOf(compare, nodes[..at + 1]) ==
            if at == 0 then nodes[0]
            else if compare(FirstOf(compare, nodes[..at]).data, nodes[at].data) > 0 then nodes[at]
            else FirstOf(compare, nodes[..at])
  {
    assert nodes[..at + 1][..at] == nodes[..at];
  }

  lemma NextUpStep<D>(compare: Compare<D>, prev: Node<D>, nodes: seq<Node<D>>, at: nat)
    requires at < |nodes|
    ensures var n := NextUp(compare, prev, nodes[..at]);
      NextUp(compare, prev, nodes[..at + 1]) ==
      if compare(prev.data, nodes[at].data) < 0
        && (n.None? || compare(n.value.data, nodes[at].data) > 0) then Some(nodes[at]) else n
  {
    assert nodes[..at + 1][..at] == nodes[..at];
  }

  lemma NextUpOfNone<D>(compare: Compare<D>, prev: Node<D>)
    ensures NextUp(compare, prev, []) == None
  {
  }

  lemma Above<D(!new)>(compare: Compare<D>, all: seq<Node<D>>, n: Node<D>, m: Node<D>, p: Node<D>)
    requires StrictOrder(compare, all) && n in all && m in all && p in all
    ensures Opposed(compare, n, m)
    ensures Below(compare, n, m) && Below(compare, m, p) ==> Below(compare, n, p)
  {
  }

  lemma {:induction false} FirstIsLeast<D(!new)>(compare: Compare<D>, all: seq<Node<D>>, nodes: seq<Node<D>>,
        m: Node<D>)
    requires StrictOrder(compare, all) && m in nodes && forall n :: n in nodes ==> n in all
    ensures m == FirstOf(compare, nodes) || Below(compare, FirstOf(compare, nodes), m)
    decreases |nodes|
  {
    if |nodes| > 1 {
      hide StrictOrder;
      var front, last := nodes[..|nodes| - 1], nodes[|nodes| - 1];
      assert nodes == front + [last];
      var n := FirstOf(compare, front);
      Above(compare, all, n, last, m);
      Above(compare, all, last, n, m);
      if m in front {
        FirstIsLeast(compare, all, front, m);
      }
    }
  }

  /** The node chosen is the least of those above `prev`; there is none only if `prev` is the greatest. */
  lemma {:induction false} NextIsLeastAbove<D(!new)>(compare: Compare<D>, prev: Node<D>, all: seq<Node<D>>,
        nodes: seq<Node<D>>, m: Node<D>)
    requires StrictOrder(compare, all) && prev in all && m in nodes && Below(compare, prev, m)
    requires forall n :: n in nodes ==> n in all
    ensures NextUp(compare, prev, nodes).Some?
    ensures m == NextUp(compare, prev, nodes).value || Below(compare, NextUp(compare, prev, nodes).value, m)
    decreases |nodes|
  {
    hide StrictOrder;
    var front, last := nodes[..|nodes| - 1], nodes[|nodes| - 1];
    assert nodes == front + [last];
    var n := NextUp(compare, prev, front);
    if n.Some? {
      Above(compare, all, n.value, last, m);
      Above(compare, all, last, n.value, m);
    }
    if m in front {
      NextIsLeastAbove(compare, prev, all, front, m);
    }
  }

  // ----- the table

  class Table<D> {
    const fn: Key -> nat
    const buckets: array<seq<Node<D>>>
    var numElems: nat       // unsigned int
    var collisions: nat     // unsigned int
    /** Nodes that `iw_htable_replace` put into non-empty buckets while it had a delete function. */
    ghost var uncounted: nat

    ghost predicate Valid()
      reads this, buckets
    {
      && buckets.Length > 0
      && Placed(buckets[..]) && Unique(Flat(buckets[..]))
      && numElems == Wrap(|Flat(buckets[..])|)
      && collisions == Wrap(Extra(buckets[..]) - uncounted)
    }

    /** The map the table stands for. */
    ghost function Contents(): map<nat, Option<D>>
      reads this, buckets
    {
      MapOf(Flat(buckets[..]))
    }

    ghost function Nodes(): seq<Node<D>>
      reads this, buckets
    {
      Flat(buckets[..])
    }

    constructor (size: nat, fn: Option<Key -> nat>)
      requires size > 0
      ensures Valid() && fresh(buckets) && buckets.Length == size && Contents() == map[] && uncounted == 0
      ensures forall key :: this.fn(key) == if fn.None? then HashData(key) else fn.value(key)
    {
      if fn.None? {
        this.fn := HashData;
      } else {
        this.fn := fn.value;
      }
      buckets := new seq<Node<D>>[size](_ => []);
      numElems := 0;
      collisions := 0;
      uncounted := 0;
      new;
      EmptyBuckets(buckets[..]);
    }

    /** `iw_htable_get`. */
    method Get(key: Key) returns (data: Option<D>)
      requires Valid()
      ensures data == if fn(key) in Contents() then Contents()[fn(key)] else None
    {
      var hash := fn(key);
      var k := Search(hash);
      if k < |buckets[BucketOf(hash, buckets.Length)]| {
        data := buckets[BucketOf(hash, buckets.Length)][k].data;
      } else {
        data := None;
      }
    }

    /** Walks the chain a hash belongs to. */
    method Search(hash: nat) returns (k: nat)
      requires Valid()
      ensures k <= |buckets[BucketOf(hash, buckets.Length)]|
      ensures k < |buckets[BucketOf(hash, buckets.Length)]| ==>
                buckets[BucketOf(hash, buckets.Length)][k].hash == hash
                && hash in Contents() && Contents()[hash] == buckets[BucketOf(hash, buckets.Length)][k].data
      ensures k == |buckets[BucketOf(hash, buckets.Length)]| ==>
                Lacks(buckets[BucketOf(hash, buckets.Length)], hash) && hash !in Contents()
    {
      var chain := buckets[BucketOf(hash, buckets.Length)];
      k := 0;
      while k < |chain|
        invariant 0 <= k <= |chain| && Lacks(chain[..k], hash)
      {
        if chain[k].hash == hash {
          FoundInBucket(buckets[..], hash, k);
          return;
        }
        k := k + 1;
      }
      assert chain[..k] == chain;
      NotInBucket(buckets[..], hash);
    }

    /** Every node is in the bucket of its hash. */
    lemma InItsBucket(i: nat, k: nat)
      requires Valid() && i < buckets.Length && k < |buckets[i]|
      ensures buckets[i][k].hash % buckets.Length == i
    {
      assert buckets[..][i][k] == buckets[i][k];
    }

    /** Unlinks node `k` of bucket `i`. */
    method Unlink(i: nat, k: nat)
      requires Valid() && i < buckets.Length && k < |buckets[i]|
      modifies this`numElems, this`collisions, buckets
      ensures Valid() && Contents() == old(Contents()) - {old(buckets[i][k].hash)}
      ensures buckets[..] == old(buckets[..][i := buckets[i][..k] + buckets[i][k + 1..]])
    {
      ghost var b := buckets[..];
      var chain := buckets[i];
      hide Flat, MapOf, Placed, Unique, Extra, BucketOf, Wrap;
      AfterDrop(b, i, k);
      WrapAgain(|Flat(b)|, -1);
      WrapAgain(Extra(b) - uncounted, -1);
      ExtraUpdate(b, i, chain[..k] + chain[k + 1..]);
      buckets[i] := chain[..k] + chain[k + 1..];
      assert buckets[..] == b[i := chain[..k] + chain[k + 1..]];
      numElems := Wrap(numElems - 1);
      if k > 0 || |chain| > 1 {
        collisions := Wrap(collisions - 1);
      }
    }

    /** `iw_htable_remove`. */
    method Remove(key: Key) returns (data: Option<D>)
      requires Valid()
      modifies this`numElems, this`collisions, buckets
      ensures Valid() && Contents() == old(Contents()) - {fn(key)}
      ensures data == if fn(key) in old(Contents()) then old(Contents())[fn(key)] else None
    {
      var hash := fn(key);
      var i := BucketOf(hash, buckets.Length);
      var k := Search(hash);
      if k < |buckets[i]| {
        data := buckets[i][k].data;
        Unlink(i, k);
      } else {
        data := None;
      }
    }

    /** `iw_htable_delete`; `called` is what the delete function is called on. */
    method Delete(key: Key) returns (ok: bool, called: Option<D>)
      requires Valid()
      modifies this`numElems, this`collisions, buckets
      ensures Valid() && Contents() == old(Contents()) - {fn(key)}
      ensures called == if fn(key) in old(Contents()) then old(Contents())[fn(key)] else None
      ensures ok <==> called.Some?
    {
      called := Remove(key);
      ok := called.Some?;
    }

    /** `iw_htable_replace`: with a delete function an old element gives way, without one it stays.
        What gives way is found by the table's hash function; what is added has the default hash. */
    method Replace(key: Key, data: Option<D>, deleter: bool) returns (ok: bool, called: Option<D>)
      requires Valid()
      requires deleter && HashData(key) in Contents() ==> fn(key) == HashData(key)
      modifies this, buckets
      ensures Valid()
      ensures ok <==> deleter || HashData(key) !in old(Contents())
      ensures !ok ==> buckets[..] == old(buckets[..])
      ensures Contents() ==
              if !ok then old(Contents())
              else if deleter then (old(Contents()) - {fn(key)})[HashData(key) := data]
              else old(Contents())[HashData(key) := data]
      ensures ok && fn(key) == HashData(key) ==> Contents() == old(Contents())[HashData(key) := data]
      ensures called == if deleter && fn(key) in old(Contents()) then old(Contents())[fn(key)] else None
      ensures ok && !deleter ==> buckets[..] == WithFirst(old(buckets[..]), Node(HashData(key), data))
      ensures uncounted == old(uncounted)
        + (if deleter && |buckets[BucketOf(HashData(key), buckets.Length)]| > 1 then 1 else 0)
    {
      hide Flat, MapOf, Placed, Unique, Extra, BucketOf, Wrap, HashData;
      var hash := HashData(key);
      var i := BucketOf(hash, buckets.Length);
      BucketIs(hash, buckets.Length);
      called := None;
      if deleter {
        var deleted;
        deleted, called := Delete(key);
        NotInMap(buckets[..], hash);
      } else {
        var k := Search(hash);
        if k < |buckets[i]| {
          return false, None;
        }
      }
      ghost var b := buckets[..];
      AfterAdd(b, Node(hash, data));
      WrapAgain(|Flat(b)|, 1);
      WrapAgain(Extra(b) - uncounted, 1);
      ExtraUpdate(b, i, [Node(hash, data)] + b[i]);
      if buckets[i] != [] {
        if deleter {
          uncounted := uncounted + 1;
        } else {
          collisions := Wrap(collisions + 1);
        }
      }
      buckets[i] := [Node(hash, data)] + buckets[i];
      assert buckets[..] == b[i := [Node(hash, data)] + b[i]];
      numElems := Wrap(numElems + 1);
      ok := true;
    }

    /** `iw_htable_insert`. */
    method Insert(key: Key, data: Option<D>) returns (ok: bool)
      requires Valid()
      modifies this, buckets
      ensures Valid() && uncounted == old(uncounted)
      ensures ok <==> HashData(key) !in old(Contents())
      ensures Contents() == if ok then old(Contents())[HashData(key) := data] else old(Contents())
      ensures buckets[..] == if ok then WithFirst(old(buckets[..]), Node(HashData(key), data)) else old(buckets[..])
    {
      var called;
      ok, called := Replace(key, data, false);
    }

    // ----- iteration

    /** `iw_htable_get_first_hash`. */
    method FirstNode() returns (n: Option<Node<D>>)
      requires Valid()
      ensures n == if Nodes() == [] then None else Some(Nodes()[0])
    {
      hide Flat, Placed, Unique;
      var index := 0;
      OffsetEnds(buckets[..]);
      while index < buckets.Length
        invariant 0 <= index <= buckets.Length && Offset(buckets[..], index) == 0
      {
        OffsetNext(buckets[..], index);
        if buckets[index] != [] {
          assert Nodes()[0] == buckets[index][0];
          return Some(buckets[index][0]);
        }
        index := index + 1;
      }
      n := None;
    }

    /** `iw_htable_find_hash`. */
    method FindNode(hash: nat) returns (n: Option<Node<D>>)
      requires Valid()
      ensures if n.Some? then n.value in Nodes() && n.value.hash == hash else Lacks(Nodes(), hash)
    {
      hide Flat, Placed, Unique;
      var index := 0;
      OffsetEnds(buckets[..]);
      while index < buckets.Length
        invariant 0 <= index <= buckets.Length && Offset(buckets[..], index) <= |Nodes()|
        invariant Lacks(Nodes()[..Offset(buckets[..], index)], hash)
      {
        OffsetNext(buckets[..], index);
        var k := 0;
        while k < |buckets[index]|
          invariant 0 <= k <= |buckets[index]|
          invariant Lacks(Nodes()[..Offset(buckets[..], index) + k], hash)
        {
          assert Nodes()[Offset(buckets[..], index) + k] == buckets[index][k];
          if buckets[index][k].hash == hash {
            return Some(buckets[index][k]);
          }
          k := k + 1;
        }
        index := index + 1;
      }
      assert Nodes()[..|Nodes()|] == Nodes();
      n := None;
    }

    /** `iw_htable_get_next_hash`. */
    method NextNode(hash: nat) returns (n: Option<Node<D>>)
      requires Valid()
      ensures n == NextOf(Nodes(), hash)
    {
      hide Flat, Placed, NextOf;
      var foundLast, index := false, 0;
      OffsetEnds(buckets[..]);
      while index < buckets.Length
        invariant 0 <= index <= buckets.Length && Offset(buckets[..], index) <= |Nodes()|
        invariant Passed(Nodes(), Offset(buckets[..], index), hash, foundLast)
      {
        OffsetNext(buckets[..], index);
        var k := 0;
        while k < |buckets[index]|
          invariant 0 <= k <= |buckets[index]|
          invariant Passed(Nodes(), Offset(buckets[..], index) + k, hash, foundLast)
        {
          ghost var at := Offset(buckets[..], index) + k;
          assert Nodes()[at] == buckets[index][k];
          if foundLast {
            NextOfAt(Nodes(), at - 1, hash);
            return Some(buckets[index][k]);
          }
          if buckets[index][k].hash == hash {
            foundLast := true;
          }
          k := k + 1;
        }
        index := index + 1;
      }
      if foundLast {
        NextOfAt(Nodes(), |Nodes()| - 1, hash);
      } else {
        assert Nodes()[..|Nodes()|] == Nodes();
        NextOfMissing(Nodes(), hash);
      }
      n := None;
    }

    /** `iw_htable_get_first`: the data, and the hash to go on from. */
    method GetFirst(hash: nat) returns (data: Option<D>, hash': nat)
      requires Valid()
      ensures if Nodes() == [] then data == None && hash' == hash else Node(hash', data) == Nodes()[0]
    {
      var n := FirstNode();
      if n.Some? {
        return n.value.data, n.value.hash;
      }
      return None, hash;
    }

    /** `iw_htable_get_next`. */
    method GetNext(hash: nat) returns (data: Option<D>, hash': nat)
      requires Valid()
      ensures var n := NextOf(Nodes(), hash);
        if n.None? then data == None && hash' == hash else Node(hash', data) == n.value
    {
      var n := NextNode(hash);
      if n.Some? {
        return n.value.data, n.value.hash;
      }
      return None, hash;
    }

    /** `iw_htable_get_first_ordered`. */
    method GetFirstOrdered(compare: Compare<D>) returns (data: Option<D>, hash: nat)
      requires Valid()
      ensures if Nodes() == [] then data == None && hash == 0 else Node(hash, data) == FirstOf(compare, Nodes())
    {
      hide Flat, Placed, Extra, Wrap, NextOf, Unique, FirstOf, MapOf;
      var cur := FirstNode();
      if cur.None? {
        return None, 0;
      }
      var hashCur := cur.value.hash;
      ghost var at := 0;
      FirstOfStep(compare, Nodes(), 0);
      while true
        invariant 0 <= at < |Nodes()| && hashCur == Nodes()[at].hash
        invariant cur == Some(FirstOf(compare, Nodes()[..at + 1]))
        decreases |Nodes()| - at
      {
        UniqueNext(Nodes(), at);
        var next := NextNode(hashCur);
        if next.None? {
          break;
        }
        FirstOfStep(compare, Nodes(), at + 1);
        hashCur := next.value.hash;
        if compare(cur.value.data, next.value.data) > 0 {
          cur := next;
        }
        at := at + 1;
      }
      assert Nodes()[..at + 1] == Nodes();
      return cur.value.data, cur.value.hash;
    }

    /** `iw_htable_get_next_ordered`. */
    method GetNextOrdered(compare: Compare<D>, hash: nat) returns (data: Option<D>, hash': nat)
      requires Valid()
      ensures forall prev :: prev in Nodes() && prev.hash == hash ==>
                var n := NextUp(compare, prev, Nodes());
                if n.None? then data == None && hash' == hash else Node(hash', data) == n.value
      ensures Lacks(Nodes(), hash) ==> data == None && hash' == hash
    {
      hide Flat, Placed, Extra, Wrap, NextOf, Unique, NextUp, MapOf;
      var prev := FindNode(hash);
      var next := FirstNode();
      var cur := None;
      hash' := hash;
      if prev.None? || next.None? {
        return None, hash;
      }
      OnlyNode(Nodes(), prev.value);
      var hashCur := next.value.hash;
      ghost var at := 0;
      assert Nodes()[..0] == [];
      NextUpOfNone(compare, prev.value);
      while next.Some?
        invariant 0 <= at <= |Nodes()|
        invariant if next.None? then at == |Nodes()|
                  else at < |Nodes()| && next.value == Nodes()[at] && hashCur == Nodes()[at].hash
        invariant cur == NextUp(compare, prev.value, Nodes()[..at])
        invariant hash' == if cur.None? then hash else cur.value.hash
        decreases |Nodes()| - at
      {
        NextUpStep(compare, prev.value, Nodes(), at);
        if compare(prev.value.data, next.value.data) < 0 {
          if cur.None? || compare(cur.value.data, next.value.data) > 0 {
            hash' := hashCur;
            cur := next;
          }
        }
        UniqueNext(Nodes(), at);
        next := NextNode(hashCur);
        if next.Some? {
          hashCur := next.value.hash;
        }
        at := at + 1;
      }
      assert Nodes()[..at] == Nodes();
      data := if cur.Some? then cur.value.data else None;
    }
  }

  /** What a scan for the node after `hash` knows after `at` nodes. */
  ghost predicate Passed<D>(nodes: seq<Node<D>>, at: nat, hash: nat, foundLast: bool) {
    at <= |nodes| &&
    if foundLast then at > 0 && nodes[at - 1].hash == hash && Lacks(nodes[..at - 1], hash) else Lacks(nodes[..at], hash)
  }

  lemma OnlyNode<D>(nodes: seq<Node<D>>, n: Node<D>)
    requires Unique(nodes) && n in nodes
    ensures forall m :: m in nodes && m.hash == n.hash ==> m == n
  {
  }

  /** The loop callers write around the plain iteration: with no null data it sees every
      element once, in bucket order. */
  method VisitAll<D>(table: Table<D>) returns (visited: seq<Node<D>>)
    requires table.Valid() && forall n :: n in table.Nodes() ==> n.data.Some?
    ensures visited == table.Nodes()
  {
    hide Flat, Placed, Extra, Wrap, Unique, NextOf, MapOf;
    visited := [];
    var data, hash := table.GetFirst(0);
    while data.Some?
      invariant |visited| <= |table.Nodes()| && visited == table.Nodes()[..|visited|]
      invariant if |visited| < |table.Nodes()| then Node(hash, data) == table.Nodes()[|visited|] else data.None?
      decreases |table.Nodes()| - |visited|
    {
      UniqueNext(table.Nodes(), |visited|);
      visited := visited + [Node(hash, data)];
      data, hash := table.GetNext(hash);
    }
  }

  /** The loop callers write around the ordered iteration: it sees every element exactly
      once, in strictly ascending order. */
  method VisitOrdered<D(!new)>(table: Table<D>, compare: Compare<D>) returns (visited: seq<Node<D>>)
    requires table.Valid() && StrictOrder(compare, table.Nodes())
    ensures forall i, j :: 0 <= i < j < |visited| ==> Below(compare, visited[i], visited[j])
    ensures multiset(visited) == multiset(table.Nodes())
  {
    hide Flat, Placed, Extra, Wrap, StrictOrder, Unique, Progress, Unseen, MapOf, FirstOf, NextUp;
    ghost var nodes := table.Nodes();
    visited := [];
    var data, hash := table.GetFirstOrdered(compare);
    StartOfOrder(compare, nodes, Node(hash, data));
    while data.Some?
      invariant Progress(compare, nodes, visited, Node(hash, data))
      decreases Unseen(nodes, visited)
    {
      ghost var n := Node(hash, data);
      UnseenShrinks(compare, nodes, visited, n);
      visited := visited + [Node(hash, data)];
      data, hash := table.GetNextOrdered(compare, hash);
      StepOfOrder(compare, nodes, visited[..|visited| - 1], n, Node(hash, data));
      assert visited[..|visited| - 1] + [n] == visited;
    }
    EndOfOrder(compare, nodes, visited, Node(hash, data));
  }

  /** Visited is everything below the current node, in order; or everything, if there is none. */
  ghost predicate Progress<D(!new)>(compare: Compare<D>, nodes: seq<Node<D>>, visited: seq<Node<D>>, n: Node<D>) {
    && (forall i, j :: 0 <= i < j < |visited| ==> Below(compare, visited[i], visited[j]))
    && (forall m :: m in visited ==> m in nodes)
    && (n.data.Some? ==> n in nodes)
    && (forall m :: m in nodes ==> (m in visited <==> n.data.None? || Below(compare, m, n)))
  }

  ghost function Unseen<D(!new)>(nodes: seq<Node<D>>, visited: seq<Node<D>>): set<Node<D>> {
    (set n | n in nodes) - (set n | n in visited)
  }

  lemma UnseenShrinks<D(!new)>(compare: Compare<D>, nodes: seq<Node<D>>, visited: seq<Node<D>>, n: Node<D>)
    requires StrictOrder(compare, nodes) && Progress(compare, nodes, visited, n) && n.data.Some?
    ensures Unseen(nodes, visited + [n]) < Unseen(nodes, visited)
    ensures n in nodes
  {
    Above(compare, nodes, n, n, n);
    assert n in Unseen(nodes, visited) && n !in Unseen(nodes, visited + [n]);
  }

  lemma StartOfOrder<D(!new)>(compare: Compare<D>, nodes: seq<Node<D>>, n: Node<D>)
    requires StrictOrder(compare, nodes)
    requires if nodes == [] then n.data.None? else n == FirstOf(compare, nodes)
    ensures Progress(compare, nodes, [], n)
  {
    if nodes != [] {
      forall m | m in nodes ensures !Below(compare, m, n) {
        FirstIsLeast(compare, nodes, nodes, m);
        Above(compare, nodes, n, m, n);
      }
    }
  }

  lemma StepOfOrder<D(!new)>(compare: Compare<D>, nodes: seq<Node<D>>, visited: seq<Node<D>>, n: Node<D>, next: Node<D>)
    requires StrictOrder(compare, nodes) && Progress(compare, nodes, visited, n) && n.data.Some?
    requires var up := NextUp(compare, n, nodes); if up.None? then next.data.None? else next == up.value
    ensures Progress(compare, nodes, visited + [n], next)
  {
    assert next.data.Some? ==> next in nodes;
    hide StrictOrder;
    forall m | m in nodes ensures m in visited + [n] <==> next.data.None? || Below(compare, m, next) {
      Above(compare, nodes, n, m, n);
      Above(compare, nodes, m, n, n);
      if Below(compare, n, m) {
        NextIsLeastAbove(compare, n, nodes, nodes, m);
        Above(compare, nodes, next, m, m);
      } else if next.data.Some? {
        Above(compare, nodes, m, n, next);
        Above(compare, nodes, n, m, next);
      }
    }
  }

  lemma EndOfOrder<D(!new)>(compare: Compare<D>, nodes: seq<Node<D>>, visited: seq<Node<D>>, n: Node<D>)
    requires StrictOrder(compare, nodes) && Unique(nodes) && Progress(compare, nodes, visited, n) && n.data.None?
    ensures forall i, j :: 0 <= i < j < |visited| ==> Below(compare, visited[i], visited[j])
    ensures multiset(visited) == multiset(nodes)
  {
    hide StrictOrder;
    forall i, j | 0 <= i < j < |visited| ensures visited[i] != visited[j] {
      assert visited[i] in visited && visited[j] in visited;
      Above(compare, nodes, visited[i], visited[j], visited[i]);
    }
    assert forall i, j :: 0 <= i < j < |nodes| ==> nodes[i] != nodes[j];
    forall m ensures multiset(visited)[m] == multiset(nodes)[m] {
      CountsOnce(visited, m);
      CountsOnce(nodes, m);
    }
  }

  lemma {:induction false} CountsOnce<T>(s: seq<T>, x: T)
    requires forall i, j :: 0 <= i < j < |s| ==> s[i] != s[j]
    ensures multiset(s)[x] == if x in s then 1 else 0
  {
    if s != [] {
      assert s == [s[0]] + s[1..];
      CountsOnce(s[1..], x);
    }
  }

  lemma EmptyBuckets<D>(b: seq<seq<Node<D>>>)
    requires forall i :: 0 <= i < |b| ==> b[i] == []
    ensures Flat(b) == [] && Extra(b) == 0
  {
  }

  lemma NotInMap<D>(b: seq<seq<Node<D>>>, hash: nat)
    requires |b| > 0 && hash !in MapOf(Flat(b))
    ensures Lacks(b[BucketOf(hash, |b|)], hash)
  {
    hide BucketOf, Flat;
    var i := BucketOf(hash, |b|);
    MapOfLacks(Flat(b), hash);
    FlatSplit(b, i);
    forall k | 0 <= k < |b[i]| ensures b[i][k].hash != hash {
      assert Flat(b)[|Flat(b[..i])| + k] == b[i][k];
    }
  }

  /** What the two counters count: the map's size, and, as long as no element was replaced
      into a bucket in use, the elements beyond the first of each bucket. */
  lemma CountersSay<D>(table: Table<D>)
    requires table.Valid()
    ensures table.numElems == Wrap(|table.Contents()|)
    ensures table.collisions == Wrap(|table.Contents()| - Occupied(table.buckets[..]) - table.uncounted)
  {
    MapSize(table.Nodes());
    ExtraIsBeyondFirst(table.buckets[..]);
  }

  lemma OneBucket<D>(table: Table<D>)
    requires table.Valid() && table.buckets.Length == 1
    ensures BucketOf(0, 1) == BucketOf(5381, 1) == 0
    ensures |table.buckets[0]| == |table.Contents()|
    ensures Occupied(table.buckets[..]) == if |table.Contents()| == 0 then 0 else 1
  {
    var b := table.buckets[..];
    assert b == [table.buckets[0]] && Flat(b) == b[0] + Flat(b[1..]);
    assert b[1..] == [];
    MapSize(table.Nodes());
  }

  /** Two replacing adds to a table of one bucket. */
  method TwoReplaced() returns (table: Table<int>)
    ensures fresh(table) && fresh(table.buckets) && table.Valid() && table.buckets.Length == 1
    ensures table.Contents() == map[0 := Some(1), 5381 := Some(2)] && table.uncounted == 1
    ensures forall key :: table.fn(key) == HashData(key)
  {
    hide Flat, MapOf, Table.Contents, Table.Valid, BucketOf, HashData, Occupied, Wrap;
    HashesOfShortKeys();
    table := new Table<int>(1, None);
    OneBucket(table);
    var ok, called := table.Replace(None, Some(1), true);
    OneBucket(table);
    assert table.Contents() == map[0 := Some(1)];
    ok, called := table.Replace(Some(""), Some(2), true);
    OneBucket(table);
    ghost var two := map[0 := Some(1), 5381 := Some(2)];
    assert table.Contents() == two && |two.Keys| == 2 by { assert two.Keys == {0, 5381}; }
  }

  /** The collision counter goes below zero: two replacing adds to one bucket, then a removal. */
  method CollisionsWrapAround() returns (collisions: nat, elements: nat)
    ensures collisions == 4294967295 && elements == 1
  {
    hide Flat, MapOf, Table.Contents, Table.Valid, BucketOf, HashData, Occupied, Wrap;
    HashesOfShortKeys();
    var table := TwoReplaced();
    var data := table.Remove(None);
    ghost var one: map<nat, Option<int>> := map[5381 := Some(2)];
    assert table.Contents() == one && |one.Keys| == 1 by { assert one.Keys == {5381}; }
    OneBucket(table);
    CountersSay(table);
    WrapOfMinusOne();
    collisions, elements := table.collisions, table.numElems;
  }

  /** Adding at the head of a bucket keeps hashes apart exactly if the hash is new. After a
      replacing add has deleted what its table's hash function finds, that is what is left to ask. */
  lemma AddKeepsUniqueExactly<D>(b: seq<seq<Node<D>>>, n: Node<D>)
    requires |b| > 0 && Placed(b) && Unique(Flat(b))
    ensures var i := BucketOf(n.hash, |b|);
      Unique(Flat(b[i := [n] + b[i]])) <==> n.hash !in MapOf(Flat(b))
  {
    hide BucketOf, Flat, MapOf, Unique;
    var i := BucketOf(n.hash, |b|);
    var b' := b[i := [n] + b[i]];
    if n.hash !in MapOf(Flat(b)) {
      NotInMap(b, n.hash);
      AfterAdd(b, n);
    }
    if Unique(Flat(b')) {
      FlatSplit(b, i);
      FlatSplit(b', i);
      assert b'[..i] == b[..i] && b'[i + 1..] == b[i + 1..];
      var pre, post := Flat(b[..i]), b[i] + Flat(b[i + 1..]);
      assert Flat(b) == pre + post && Flat(b') == pre + [n] + post;
      DropKeepsUnique(pre, n, post);
      MapOfLacks(Flat(b), n.hash);
    }
  }

  /** What was just inserted is found exactly if the table's own hash function agrees with
      the default one on the key, or already led to equal data. */
  method InsertThenGet<D(==)>(table: Table<D>, key: Key, data: Option<D>) returns (ok: bool, found: Option<D>)
    requires table.Valid()
    modifies table, table.buckets
    ensures table.Valid() && (ok <==> HashData(key) !in old(table.Contents()))
    ensures ok ==> (found == data <==>
                      || table.fn(key) == HashData(key)
                      || (table.fn(key) in old(table.Contents()) && old(table.Contents())[table.fn(key)] == data)
                      || (data.None? && table.fn(key) !in old(table.Contents())))
  {
    hide Table.Valid, Table.Contents, HashData;
    ok := table.Insert(key, data);
    found := table.Get(key);
  }

  /** A hash function of the table's own is used to look up, but not to add. */
  method OwnHashMisses() returns (ok: bool, data: Option<int>, elements: nat)
    ensures ok && data == None && elements == 1
  {
    hide Flat, MapOf, Table.Contents, Table.Valid, BucketOf, HashData, Occupied, Wrap;
    HashesOfShortKeys();
    WrapOfMinusOne();
    var table := new Table<int>(1, Some(key => 1));
    ok := table.Insert(Some(""), Some(5));
    ghost var one: map<nat, Option<int>> := map[5381 := Some(5)];
    assert table.Contents() == one && |one.Keys| == 1 by { assert one.Keys == {5381}; }
    CountersSay(table);
    data := table.Get(Some(""));
    elements := table.numElems;
  }

  lemma HashesOfShortKeys()
    ensures HashData(None) == 0 && HashData(Some("")) == 5381
  {
  }

  lemma WrapOfMinusOne()
    ensures Wrap(-1) == WORD - 1 && Wrap(1) == 1
  {
  }
}
