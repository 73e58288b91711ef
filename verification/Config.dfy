/** Saving the persisted settings as a JSON text and loading them back. */
module Config {
  import opened Collections
  import opened Text
  import opened JsonPath
  import J = JsonValue
  import S = ValStore
  import HashTable
  import Utf8
  import JsonNumber
  import JsonParse
  import JsonParser
  import JsonPrint
  import opened ConfigTree

  // ----- saving

  /** The JSON value a setting is saved as, if any: strings that are not UTF-8 are refused. */
  function LeafOf(body: S.Body): Option<J.Value> {
    match body
    case Nothing => None
    case Number(n) => Some(J.Number(n as real))
    case Str(t) => if Utf8.IsValid(t) then Some(J.String(t)) else None
    case Address(text) => if Utf8.IsValid(text) then Some(J.String(text)) else None
  }

  predicate IsSaved(s: S.State, val: S.Val) {
    S.Persisted(s, val.name) && LeafOf(val.body).Some?
  }

  /** What the loop of `iw_cfg_save` sets, in its order. */
  function Entries(s: S.State, vals: seq<S.Val>): seq<Entry>
    decreases |vals|
  {
    if vals == [] then []
    else
      var last, es := vals[|vals| - 1], Entries(s, vals[..|vals| - 1]);
      if IsSaved(s, last) then es + [Entry(last.name, LeafOf(last.body).value)] else es
  }

  function SavedText(s: S.State, vals: seq<S.Val>): string {
    JsonPrint.Print(Build(Entries(s, vals)), 0, true)
  }

  // ----- loading

  /** A `double` passed as an `int` loses its fraction; what the processor makes of one out
      of range is its smallest `int`. */
  function DoubleToInt(x: real): int {
    var n := if x < 0.0 then 0 - (0.0 - x).Floor else x.Floor;
    if -0x8000_0000 <= n < 0x8000_0000 then n else -0x8000_0000
  }

  function BodyOf(v: J.Value): Option<S.Body> {
    match v
    case String(t) => Some(S.Str(t))
    case Number(x) => Some(S.Number(DoubleToInt(x)))
    case Boolean(b) => Some(S.Number(if b then 1 else 0))
    case _ => None
  }

  /** `iw_cfg_get_json_obj` for the member with this value and full name. */
  function LoadValue(s: S.State, full: string, v: J.Value): S.State
    decreases v, 0, 0
  {
    if v.Object? then LoadMembers(s, full, v.members, 0)
    else if BodyOf(v).None? || !S.Persisted(s, full) then s
    else S.AfterSet(s, full, S.Val(full, BodyOf(v).value))
  }

  function LoadMembers(s: S.State, path: string, ms: seq<J.Member>, i: nat): S.State
    requires i <= |ms|
    decreases ms, 1, |ms| - i
  {
    if i == |ms| then s
    else
      var k := J.Find(ms, ms[i].name);
      assert k <= i;
      LoadMembers(LoadValue(s, path + "." + ms[i].name, ms[k].value), path, ms, i + 1)
  }

  /** `iw_cfg_load` on the text of the file. */
  function LoadText(s: S.State, text: string): Option<S.State> {
    match JsonParse.ParseText(text)
    case Fail => None
    case Ok(v, _) =>
      if !v.Object? then None
      else
        var cfg := J.Get(v.members, "cfg");
        if cfg.Some? && cfg.value.Object? then Some(LoadMembers(s, "cfg", cfg.value.members, 0)) else Some(s)
  }

  // ----- what is saved and what is loaded

  /** How a value is written: a number as it is, a UTF-8 string or the text of an address as a string. */
  ghost predicate WrittenAs(body: S.Body, leaf: J.Value) {
    || (body.Number? && leaf == J.Number(body.n as real))
    || (body.Str? && Utf8.IsValid(body.s) && leaf == J.String(body.s))
    || (body.Address? && Utf8.IsValid(body.text) && leaf == J.String(body.text))
  }

  /** Saved are exactly the values whose names are registered to be persisted and that can be written. */
  lemma {:induction false} EntriesAre(s: S.State, vals: seq<S.Val>, e: Entry)
    ensures e in Entries(s, vals) <==>
      exists val <- vals :: && val.name == e.name && WrittenAs(val.body, e.leaf)
        && S.Hash(e.name) in s.names && s.names[S.Hash(e.name)].Some? && s.names[S.Hash(e.name)].value.persist
    decreases |vals|
  {
    hide HashTable.HashData, Utf8.IsValid;
    if vals != [] {
      EntriesAre(s, vals[..|vals| - 1], e);
      assert vals == vals[..|vals| - 1] + [vals[|vals| - 1]];
    }
  }

  /** They are saved in the order in which the values come. */
  lemma {:induction false} EntriesInOrder(s: S.State, a: seq<S.Val>, b: seq<S.Val>)
    ensures Entries(s, a + b) == Entries(s, a) + Entries(s, b)
    decreases |b|
  {
    hide IsSaved, LeafOf;
    if b == [] {
      assert a + b == a;
    } else {
      var front := b[..|b| - 1];
      EntriesInOrder(s, a, front);
      assert (a + b)[..|a + b| - 1] == a + front;
    }
  }

  /** The `int` made of a `double` in range is the number without its fraction. */
  lemma FractionIsLost(x: real, n: int)
    ensures -0x8000_0000 <= n <= 0 && n as real - 1.0 < x <= n as real && x <= 0.0 ==> DoubleToInt(x) == n
    ensures 0 <= n < 0x8000_0000 && n as real <= x < n as real + 1.0 ==> DoubleToInt(x) == n
    ensures x >= 2147483648.0 || x <= -2147483649.0 ==> DoubleToInt(x) == -2147483648
  {
  }

  /** What a value in the file sets, if the name is registered to be persisted: a string the
      string, a number its integer part, a boolean 1 or 0; null and arrays set nothing. */
  lemma LeafLoaded(s: S.State, full: string, v: J.Value)
    requires !v.Object?
    ensures
      var hash := S.Hash(full);
      var s' := LoadValue(s, full, v);
      if hash in s.names && s.names[hash].Some? && s.names[hash].value.persist then
        && (v.String? ==> S.Stored(s, s', full, S.Str(v.s)))
        && (v.Number? ==> S.Stored(s, s', full, S.Number(DoubleToInt(v.x))))
        && (v == J.Boolean(true) ==> S.Stored(s, s', full, S.Number(1)))
        && (v == J.Boolean(false) ==> S.Stored(s, s', full, S.Number(0)))
        && (v.Null? || v.Array? ==> s' == s)
      else s' == s
  {
    hide HashTable.HashData, S.Check;
  }

  /** The setting is not registered to be persisted. */
  ghost predicate NotPersisted(s: S.State, hash: nat) {
    !(hash in s.names && s.names[hash].Some? && s.names[hash].value.persist)
  }

  ghost predicate LeftAlone(s: S.State, s': S.State, hash: nat) {
    s'.names == s.names && S.Held(s'.values, hash) == S.Held(s.values, hash)
  }

  lemma {:induction false} ValueLeavesAlone(s: S.State, full: string, v: J.Value, hash: nat)
    requires NotPersisted(s, hash)
    ensures LeftAlone(s, LoadValue(s, full, v), hash)
    decreases v, 0, 0
  {
    hide HashTable.HashData, S.Check;
    if v.Object? {
      MembersLeaveAlone(s, full, v.members, 0, hash);
    }
  }

  lemma {:induction false} MembersLeaveAlone(s: S.State, path: string, ms: seq<J.Member>, i: nat, hash: nat)
    requires NotPersisted(s, hash) && i <= |ms|
    ensures LeftAlone(s, LoadMembers(s, path, ms, i), hash)
    decreases ms, 1, |ms| - i
  {
    hide LoadValue;
    if i < |ms| {
      var full, v := path + "." + ms[i].name, ms[J.Find(ms, ms[i].name)].value;
      ValueLeavesAlone(s, full, v, hash);
      MembersLeaveAlone(LoadValue(s, full, v), path, ms, i + 1, hash);
    }
  }

  /** Whatever the file says, a setting that is not registered to be persisted is left as it was. */
  lemma NotPersistedStays(s: S.State, text: string, hash: nat)
    requires NotPersisted(s, hash)
    ensures LoadText(s, text).Some? ==> LeftAlone(s, LoadText(s, text).value, hash)
  {
    hide JsonParse.ParseText, LoadMembers;
    if LoadText(s, text).Some? {
      var cfg := J.Get(JsonParse.ParseText(text).value.members, "cfg");
      if cfg.Some? && cfg.value.Object? {
        MembersLeaveAlone(s, "cfg", cfg.value.members, 0, hash);
      }
    }
  }

  // ----- what loading a tree does

  /** Each leaf below is the saved form of the stored value of that name. */
  ghost predicate Mirrors(s: S.State, full: string, v: J.Value)
    decreases v
  {
    if v.Object? then
      forall i :: 0 <= i < |v.members| ==> Mirrors(s, full + "." + v.members[i].name, v.members[i].value)
    else SavedAs(s, full, v)
  }

  predicate SavedAs(s: S.State, full: string, v: J.Value) {
    var val := S.Get(s, full);
    val.Some? && val.value.name == full && S.Persisted(s, full) && LeafOf(val.value.body) == Some(v)
  }

  ghost function Touched(full: string, v: J.Value): set<nat>
    decreases v, 0, 0
  {
    if v.Object? then TouchedBelow(full, v.members, 0) else {S.Hash(full)}
  }

  ghost function TouchedBelow(path: string, ms: seq<J.Member>, i: nat): set<nat>
    requires i <= |ms|
    decreases ms, 1, |ms| - i
  {
    if i == |ms| then {} else Touched(path + "." + ms[i].name, ms[i].value) + TouchedBelow(path, ms, i + 1)
  }

  /** Numbers and strings are loaded as what they were; an address is saved as a string,
      which its setting does not take. */
  predicate ComesBack(s: S.State, hash: nat) {
    var val := S.Held(s.values, hash);
    val.Some? && (val.value.body.Number? || val.value.body.Str?)
  }

  /** `t` after a load from `s`: settings touched are as in `s`, the others unchanged. */
  ghost predicate Loaded(s: S.State, t: S.State, t': S.State, touched: set<nat>) {
    && t'.names == t.names && t'.controlled == t.controlled
    && forall hash :: S.Held(t'.values, hash) ==
                      if hash in touched && ComesBack(s, hash) then S.Held(s.values, hash) else S.Held(t.values, hash)
  }

  lemma LoadLeaf(s: S.State, t: S.State, full: string, v: J.Value)
    requires S.WellKept(s) && t.controlled && t.names == s.names
    requires !v.Object? && SavedAs(s, full, v)
    ensures Loaded(s, t, LoadValue(t, full, v), {S.Hash(full)})
  {
    hide HashTable.HashData, S.Matches;
    assert S.Kept(s, S.Hash(full));
  }

  lemma LoadedTwice(s: S.State, t: S.State, u: S.State, w: S.State, a: set<nat>, b: set<nat>)
    requires Loaded(s, t, u, a) && Loaded(s, u, w, b)
    ensures Loaded(s, t, w, a + b)
  {
  }

  lemma {:induction false} LoadTree(s: S.State, t: S.State, full: string, v: J.Value)
    requires S.WellKept(s) && t.controlled && t.names == s.names
    requires Mirrors(s, full, v) && J.WellNamed(v)
    ensures Loaded(s, t, LoadValue(t, full, v), Touched(full, v))
    decreases v, 0, 0
  {
    hide S.WellKept, SavedAs, Loaded, HashTable.HashData;
    if v.Object? {
      LoadTreeMembers(s, t, full, v.members, 0);
    } else {
      LoadLeaf(s, t, full, v);
    }
  }

  lemma {:induction false} LoadTreeMembers(s: S.State, t: S.State, path: string, ms: seq<J.Member>, i: nat)
    requires S.WellKept(s) && t.controlled && t.names == s.names && i <= |ms|
    requires forall k :: 0 <= k < |ms| ==> Mirrors(s, path + "." + ms[k].name, ms[k].value) && J.WellNamed(ms[k].value)
    requires J.UniqueNames(ms)
    ensures Loaded(s, t, LoadMembers(t, path, ms, i), TouchedBelow(path, ms, i))
    decreases ms, 1, |ms| - i
  {
    hide S.WellKept, Mirrors, J.WellNamed, J.UniqueNames, Touched;
    if i < |ms| {
      J.FindUnique(ms, i);
      var full := path + "." + ms[i].name;
      var u := LoadValue(t, full, ms[i].value);
      LoadTree(s, t, full, ms[i].value);
      LoadTreeMembers(s, u, path, ms, i + 1);
      LoadedTwice(s, t, u, LoadMembers(t, path, ms, i), Touched(full, ms[i].value), TouchedBelow(path, ms, i + 1));
    }
  }

  // ----- the tree built by saving, as loading meets it

  /** The values of a store, each once, in the order its table is walked. */
  ghost predicate Listed(s: S.State, vals: seq<S.Val>) {
    && (forall i :: 0 <= i < |vals| ==> S.Get(s, vals[i].name) == Some(vals[i]))
    && (forall hash :: S.Held(s.values, hash).Some? ==> S.Held(s.values, hash).value in vals)
  }

  ghost predicate EntryMirrors(s: S.State, e: Entry) {
    SavedAs(s, e.name, e.leaf)
  }

  lemma {:induction false} EntriesMirror(s: S.State, vals: seq<S.Val>)
    requires forall i :: 0 <= i < |vals| ==> S.Get(s, vals[i].name) == Some(vals[i])
    ensures forall e :: e in Of(Entries(s, vals)) ==> EntryMirrors(s, e)
    ensures Leaves(Of(Entries(s, vals)))
    decreases |vals|
  {
    hide S.Get, S.Persisted, Utf8.IsValid, JsonNumber.IsMicro;
    if vals != [] {
      EntriesMirror(s, vals[..|vals| - 1]);
      var last := vals[|vals| - 1];
      if last.body.Number? {
        IntIsMicro(last.body.n);
      }
    }
  }

  lemma IntIsMicro(n: int)
    ensures JsonNumber.IsMicro(n as real)
  {
    JsonNumber.IntegerIsMicro(n * 1000000, n as real);
  }

  lemma {:induction false} EntryOf(s: S.State, vals: seq<S.Val>, val: S.Val)
    requires val in vals && IsSaved(s, val)
    ensures Entry(val.name, LeafOf(val.body).value) in Of(Entries(s, vals))
    decreases |vals|
  {
    hide S.Persisted, LeafOf;
    var es, front := Entries(s, vals), Entries(s, vals[..|vals| - 1]);
    assert forall e :: e in front ==> e in es;
    if vals[|vals| - 1] != val {
      EntryOf(s, vals[..|vals| - 1], val);
    } else {
      assert es[|es| - 1] == Entry(val.name, LeafOf(val.body).value);
    }
  }

  lemma JoinOneMore(p: seq<string>, name: string)
    requires p != []
    ensures Join(p + [name]) == Join(p) + "." + name
    decreases |p|
  {
    if |p| == 1 {
      assert p + [name] == [p[0], name] && [p[0], name][1..] == [name];
    } else {
      assert (p + [name])[1..] == p[1..] + [name];
      JoinOneMore(p[1..], name);
    }
  }

  lemma {:induction false} TreeMirrors(s: S.State, o: J.Value, k: set<Entry>, p: seq<string>, v: J.Value)
    requires Represents(o, k) && forall e :: e in k ==> EntryMirrors(s, e)
    requires p != [] && Lookup(o, p) == Some(v) && J.WellNamed(v)
    ensures Mirrors(s, Join(p), v)
    decreases v
  {
    hide Represents, Lookup, Join, Segments, SavedAs;
    if v.Object? {
      forall i | 0 <= i < |v.members| ensures Mirrors(s, Join(p) + "." + v.members[i].name, v.members[i].value) {
        MemberFound(o, p, v, i);
        JoinOneMore(p, v.members[i].name);
        TreeMirrors(s, o, k, p + [v.members[i].name], v.members[i].value);
      }
    } else {
      ExplainedAt(o, k, p);
      var e :| e in k && p == Path(e) && v == e.leaf;
      assert EntryMirrors(s, e);
      JoinSegments(e.name);
    }
  }

  lemma {:induction false} TouchedMember(path: string, ms: seq<J.Member>, i: nat, k: nat)
    requires i <= k < |ms|
    ensures Touched(path + "." + ms[k].name, ms[k].value) <= TouchedBelow(path, ms, i)
    decreases k - i
  {
    if i < k {
      TouchedMember(path, ms, i + 1, k);
    }
  }

  /** Every leaf found by a path is touched. */
  lemma {:induction false} LeafTouched(p: seq<string>, v: J.Value, q: seq<string>)
    requires p != [] && Lookup(v, q).Some? && !Lookup(v, q).value.Object?
    ensures S.Hash(Join(p + q)) in Touched(Join(p), v)
    decreases |q|
  {
    hide HashTable.HashData, Join;
    if q == [] {
      assert p + q == p;
    } else {
      var k := J.Find(v.members, q[0]);
      JoinOneMore(p, q[0]);
      assert p + q == (p + [q[0]]) + q[1..];
      LeafTouched(p + [q[0]], v.members[k].value, q[1..]);
      TouchedMember(Join(p), v.members, 0, k);
    }
  }

  /** Everything touched is the name of a leaf. */
  lemma {:induction false} TouchedIsLeaf(p: seq<string>, v: J.Value, hash: nat) returns (q: seq<string>)
    requires p != [] && hash in Touched(Join(p), v) && J.WellNamed(v)
    ensures Lookup(v, q).Some? && !Lookup(v, q).value.Object? && hash == S.Hash(Join(p + q))
    decreases v, 1, 0
  {
    hide HashTable.HashData, Join;
    if v.Object? {
      q := TouchedBelowIsLeaf(p, v, 0, hash);
    } else {
      q := [];
      assert p + q == p;
    }
  }

  lemma {:induction false} TouchedBelowIsLeaf(p: seq<string>, v: J.Value, i: nat, hash: nat) returns (q: seq<string>)
    requires p != [] && v.Object? && i <= |v.members| && hash in TouchedBelow(Join(p), v.members, i) && J.WellNamed(v)
    ensures Lookup(v, q).Some? && !Lookup(v, q).value.Object? && hash == S.Hash(Join(p + q))
    decreases v, 0, |v.members| - i
  {
    hide HashTable.HashData, Join;
    var m := v.members[i];
    if hash in Touched(Join(p) + "." + m.name, m.value) {
      JoinOneMore(p, m.name);
      var rest := TouchedIsLeaf(p + [m.name], m.value, hash);
      q := [m.name] + rest;
      J.FindUnique(v.members, i);
      assert p + q == (p + [m.name]) + rest;
    } else {
      q := TouchedBelowIsLeaf(p, v, i + 1, hash);
    }
  }

  // ----- saving, then loading

  predicate UnderCfg(name: string) {
    |Segments(name)| >= 2 && Segments(name)[0] == "cfg"
  }

  /** The settings a load brings back: the numbers and UTF-8 strings under `cfg` among the
      entries the saved tree keeps. */
  ghost predicate Restored(s: S.State, k: set<Entry>, hash: nat) {
    var val := S.Held(s.values, hash);
    && val.Some? && ComesBack(s, hash) && UnderCfg(val.value.name)
    && LeafOf(val.value.body).Some? && Entry(val.value.name, LeafOf(val.value.body).value) in k
  }

  lemma SplitFirst(name: string) returns (q: seq<string>)
    requires UnderCfg(name)
    ensures Segments(name) == ["cfg"] + q && q != [] && Join(["cfg"] + q) == name
  {
    q := Segments(name)[1..];
    assert Segments(name) == [Segments(name)[0]] + q;
    JoinSegments(name);
  }

  lemma LookupCfg(o: J.Value, q: seq<string>)
    requires o.Object?
    ensures Lookup(o, ["cfg"] + q)
      == if J.Get(o.members, "cfg").Some? then Lookup(J.Get(o.members, "cfg").value, q) else None
    ensures Join(["cfg"]) == "cfg"
  {
    assert (["cfg"] + q)[1..] == q;
  }

  /** What is restored was found by loading. */
  lemma RestoredIsTouched(s: S.State, o: J.Value, k: set<Entry>, hash: nat)
    requires S.WellKept(s) && Represents(o, k) && Restored(s, k, hash)
    ensures var cfg := J.Get(o.members, "cfg"); cfg.Some? && cfg.value.Object? && hash in Touched("cfg", cfg.value)
  {
    hide HashTable.HashData, Segments, Lookup, Touched, Join, LeafOf;
    var val := S.Held(s.values, hash).value;
    assert S.Kept(s, hash);
    assert LeadsToLeaf(o, Entry(val.name, LeafOf(val.body).value));
    LeafIsNoObject(val.body);
    var q := SplitFirst(val.name);
    LookupCfg(o, q);
    var cfg := J.Get(o.members, "cfg").value;
    LookupBelow(cfg, q);
    LeafTouched(["cfg"], cfg, q);
  }

  lemma LeafIsNoObject(body: S.Body)
    ensures LeafOf(body).Some? ==> !LeafOf(body).value.Object?
  {
  }

  lemma LookupBelow(v: J.Value, q: seq<string>)
    requires q != [] && Lookup(v, q).Some?
    ensures v.Object?
  {
  }

  lemma TouchedIsRestored(s: S.State, o: J.Value, k: set<Entry>, hash: nat)
    requires Represents(o, k) && J.WellNamed(o)
    requires forall e :: e in k ==> EntryMirrors(s, e)
    requires J.Get(o.members, "cfg").Some? && J.Get(o.members, "cfg").value.Object?
    requires hash in Touched("cfg", J.Get(o.members, "cfg").value) && ComesBack(s, hash)
    ensures Restored(s, k, hash)
  {
    hide HashTable.HashData, Segments, Touched, Join, Lookup;
    var cfg := J.Get(o.members, "cfg").value;
    LookupCfg(o, []);
    var q := TouchedIsLeaf(["cfg"], cfg, hash);
    LookupCfg(o, q);
    LookupNothing(cfg);
    ExplainedAt(o, k, ["cfg"] + q);
    var e :| e in k && ["cfg"] + q == Path(e) && Lookup(cfg, q).value == e.leaf;
    JoinSegments(e.name);
    assert EntryMirrors(s, e);
  }

  /** A store that saved its settings, and a store with the same names that loads the text.
      The text is accepted exactly if the entries its tree keeps are plain; then each of them
      that is a number or a string under `cfg` is as it was saved, and every other setting of
      the second store is left alone. */
  lemma SaveThenLoad(s: S.State, vals: seq<S.Val>, t: S.State)
    requires S.WellKept(s) && Listed(s, vals) && t.controlled && t.names == s.names
    ensures var k := Kept(Entries(s, vals)); var t' := LoadText(t, SavedText(s, vals));
      && (t'.Some? <==> Plain(k))
      && (t'.Some? ==>
            && t'.value.names == t.names && t'.value.controlled
            && forall hash :: S.Held(t'.value.values, hash) ==
                              if Restored(s, k, hash) then S.Held(s.values, hash) else S.Held(t.values, hash))
  {
    hide S.WellKept, Listed, Plain, Represents, Entries, Kept, JsonParse.ParseText, JsonPrint.Print, J.Trim, Restored,
      ComesBack, J.WellNamed, LoadMembers;
    var es := Entries(s, vals);
    ListedAreHeld(s, vals);
    EntriesMirror(s, vals);
    TreeSurvivesExactly(es);
    BuiltSoFar(es);
    if Plain(Kept(es)) {
      var o := J.Trim(Build(es));
      ObjectOf(o, Kept(es));
      LoadTreeOf(s, o, Kept(es), t);
    }
  }

  /** Loading a tree of entries, under `cfg` if there is such an object. */
  lemma LoadTreeOf(s: S.State, o: J.Value, k: set<Entry>, t: S.State)
    requires S.WellKept(s) && t.controlled && t.names == s.names
    requires o.Object? && Represents(o, k) && J.WellNamed(o) && forall e :: e in k ==> EntryMirrors(s, e)
    ensures var cfg := J.Get(o.members, "cfg");
      var t' := if cfg.Some? && cfg.value.Object? then LoadMembers(t, "cfg", cfg.value.members, 0) else t;
      && t'.names == t.names && t'.controlled
      && forall hash :: S.Held(t'.values, hash) ==
                        if Restored(s, k, hash) then S.Held(s.values, hash) else S.Held(t.values, hash)
  {
    hide S.WellKept, Represents, Restored, ComesBack, Touched, Mirrors, J.WellNamed, LoadMembers, EntryMirrors;
    var cfg := J.Get(o.members, "cfg");
    if cfg.Some? && cfg.value.Object? {
      LookupCfg(o, []);
      PartsAreNamed(o, cfg.value);
      assert Lookup(o, ["cfg"]) == cfg by {
        assert ["cfg"] + [] == ["cfg"];
        LookupNothing(cfg.value);
      }
      TreeMirrors(s, o, k, ["cfg"], cfg.value);
      LoadTree(s, t, "cfg", cfg.value);
      forall hash ensures hash in Touched("cfg", cfg.value) && ComesBack(s, hash) <==> Restored(s, k, hash) {
        if hash in Touched("cfg", cfg.value) && ComesBack(s, hash) {
          TouchedIsRestored(s, o, k, hash);
        }
        if Restored(s, k, hash) {
          RestoredIsTouched(s, o, k, hash);
          RestoredComesBack(s, k, hash);
        }
      }
    } else {
      forall hash ensures !Restored(s, k, hash) {
        if Restored(s, k, hash) {
          RestoredIsTouched(s, o, k, hash);
        }
      }
    }
  }

  lemma RestoredComesBack(s: S.State, k: set<Entry>, hash: nat)
    requires Restored(s, k, hash)
    ensures ComesBack(s, hash)
  {
  }

  /** Where no name extends another and no object would hold more than 960 names, every
      persisted number and UTF-8 string under `cfg` is among those brought back. */
  lemma AllRestored(s: S.State, vals: seq<S.Val>, hash: nat)
    requires S.WellKept(s) && Listed(s, vals)
    requires PrefixFree(Of(Entries(s, vals))) && RoomEverywhere(Of(Entries(s, vals)))
    ensures var val := S.Held(s.values, hash);
      Restored(s, Kept(Entries(s, vals)), hash) <==>
        val.Some? && ComesBack(s, hash) && UnderCfg(val.value.name) && IsSaved(s, val.value)
  {
    hide HashTable.HashData, Segments, PrefixFree, RoomEverywhere, Kept, Entries, S.Matches;
    AllKeptExactly(Entries(s, vals));
    ListedAreHeld(s, vals);
    EntriesMirror(s, vals);
    var val := S.Held(s.values, hash);
    if val.Some? {
      assert S.Kept(s, hash);
      if IsSaved(s, val.value) {
        EntryOf(s, vals, val.value);
      }
      if Restored(s, Kept(Entries(s, vals)), hash) {
        assert EntryMirrors(s, Entry(val.value.name, LeafOf(val.value.body).value));
      }
    }
  }

  lemma ListedAreHeld(s: S.State, vals: seq<S.Val>)
    requires Listed(s, vals)
    ensures forall i :: 0 <= i < |vals| ==> S.Get(s, vals[i].name) == Some(vals[i])
  {
  }

  lemma PartsAreNamed(o: J.Value, cfg: J.Value)
    requires o.Object? && J.WellNamed(o) && J.Get(o.members, "cfg") == Some(cfg)
    ensures J.WellNamed(cfg)
  {
  }

  // ----- the two operations on a store

  function ValuesOf(nodes: seq<HashTable.Node<S.Val>>): seq<S.Val>
    requires forall i :: 0 <= i < |nodes| ==> nodes[i].data.Some?
  {
    seq(|nodes|, i requires 0 <= i < |nodes| => nodes[i].data.value)
  }

  /** In a controlled store no data is null. */
  lemma NoNullData(store: S.Store)
    requires store.Valid() && store.controlled
    ensures forall i :: 0 <= i < |store.table.Nodes()| ==> store.table.Nodes()[i].data.Some?
  {
    hide HashTable.MapOf, HashTable.Flat, HashTable.HashData;
    var nodes := store.table.Nodes();
    forall i | 0 <= i < |nodes| ensures nodes[i].data.Some? {
      HashTable.MapOfHolds(nodes, i);
      assert S.Fits(store.Model(), nodes[i].hash);
    }
  }

  lemma {:induction false} FoundNode(nodes: seq<HashTable.Node<S.Val>>, hash: nat) returns (i: nat)
    requires hash in HashTable.MapOf(nodes)
    ensures i < |nodes| && nodes[i].hash == hash && HashTable.MapOf(nodes)[hash] == nodes[i].data
  {
    if nodes[0].hash == hash {
      i := 0;
    } else {
      i := FoundNode(nodes[1..], hash);
      i := i + 1;
    }
  }

  ghost predicate EachOnce(vals: seq<S.Val>) {
    forall i, j :: 0 <= i < j < |vals| ==> vals[i].name != vals[j].name
  }

  /** The walk over the table lists the values, each once and under its own name. */
  lemma TableIsListed(store: S.Store)
    requires store.Valid() && S.WellKept(store.Model())
    ensures store.controlled
    ensures forall i :: 0 <= i < |store.table.Nodes()| ==> store.table.Nodes()[i].data.Some?
    ensures Listed(store.Model(), ValuesOf(store.table.Nodes())) && EachOnce(ValuesOf(store.table.Nodes()))
  {
    hide HashTable.MapOf, HashTable.Flat, HashTable.HashData, S.Accepts;
    NoNullData(store);
    var s, nodes := store.Model(), store.table.Nodes();
    var vals := ValuesOf(nodes);
    forall i | 0 <= i < |vals| ensures S.Get(s, vals[i].name) == Some(vals[i]) {
      HashTable.MapOfHolds(nodes, i);
      assert S.Kept(s, nodes[i].hash);
    }
    forall hash | S.Held(s.values, hash).Some? ensures S.Held(s.values, hash).value in vals {
      var i := FoundNode(nodes, hash);
      assert vals[i] == S.Held(s.values, hash).value;
    }
    forall i, j | 0 <= i < j < |vals| ensures vals[i].name != vals[j].name {
      HashTable.MapOfHolds(nodes, i);
      HashTable.MapOfHolds(nodes, j);
      assert S.Kept(s, nodes[i].hash) && S.Kept(s, nodes[j].hash);
    }
  }

  lemma EntriesStep(s: S.State, vals: seq<S.Val>, i: nat)
    requires i < |vals|
    ensures Entries(s, vals[..i + 1])
      == Entries(s, vals[..i]) + (if IsSaved(s, vals[i]) then [Entry(vals[i].name, LeafOf(vals[i].body).value)] else [])
  {
    assert vals[..i + 1][..i] == vals[..i];
  }

  lemma BuildStep(es: seq<Entry>, e: Entry)
    ensures Build(es + [e]) == DotSet(Build(es), e.name, e.leaf).target
  {
    assert (es + [e])[..|es|] == es;
  }

  /** `iw_cfg_save`; the text is what is written to the file, and the answer is always `false`. */
  method Save(store: S.Store) returns (ok: bool, text: string, ghost vals: seq<S.Val>)
    requires store.Valid() && store.controlled
    ensures !ok && text == SavedText(store.Model(), vals)
    ensures S.WellKept(store.Model()) ==> Listed(store.Model(), vals) && EachOnce(vals)
  {
    hide HashTable.Flat, HashTable.Unique, HashTable.NextOf, HashTable.MapOf, JsonPrint.Print, DotSet, Entries, Build,
      S.Persisted, Utf8.IsValid, Listed, EachOnce, S.WellKept, HashTable.HashData, S.Sound, IsSaved;
    NoNullData(store);
    ghost var nodes := store.table.Nodes();
    vals := ValuesOf(nodes);
    if S.WellKept(store.Model()) {
      TableIsListed(store);
    }
    var obj, i := J.EmptyObject, 0;
    var value, token := store.table.GetFirst(0);
    NothingBuilt(store.Model());
    while value.Some?
      invariant 0 <= i <= |vals| && obj == Build(Entries(store.Model(), vals[..i]))
      invariant if i < |vals| then HashTable.Node(token, value) == nodes[i] else value.None?
      decreases |vals| - i
    {
      assert value.value == vals[i];
      EntriesStep(store.Model(), vals, i);
      obj := SaveValue(store, obj, value.value, Entries(store.Model(), vals[..i]));
      HashTable.UniqueNext(nodes, i);
      value, token := store.table.GetNext(token);
      i := i + 1;
    }
    assert vals[..i] == vals;
    var buf := JsonPrint.SerializeToString(obj, true);
    text := buf[..buf.Length - 1];
    ok := false;
  }

  lemma NothingBuilt(s: S.State)
    ensures Build(Entries(s, [])) == J.EmptyObject
  {
  }

  /** One turn of the loop. */
  method SaveValue(store: S.Store, obj: J.Value, value: S.Val, ghost es: seq<Entry>) returns (obj': J.Value)
    requires store.Valid() && store.controlled && obj == Build(es)
    ensures obj' ==
            Build(es + if IsSaved(store.Model(), value) then [Entry(value.name, LeafOf(value.body).value)] else [])
  {
    hide DotSet, Build, S.Persisted, Utf8.IsValid;
    obj' := obj;
    assert es + [] == es;
    var persist := store.GetPersist(value.name);
    if persist {
      var leaf := LeafOf(value.body);
      if leaf.Some? {
        BuildStep(es, Entry(value.name, leaf.value));
        obj' := DotSet(obj, value.name, leaf.value).target;
      }
    }
  }

  /** `iw_cfg_get_json_obj`. */
  method LoadMember(store: S.Store, ms: seq<J.Member>, idx: nat, path: string)
    requires store.Valid() && store.controlled && idx < |ms|
    modifies store.table, store.table.buckets
    ensures store.Valid()
    ensures store.Model()
      == LoadValue(old(store.Model()), path + "." + ms[idx].name, ms[J.Find(ms, ms[idx].name)].value)
    decreases ms
  {
    hide S.Persisted, S.AfterSet, HashTable.HashData, S.Store.Valid, S.Store.Model;
    var name := ms[idx].name;
    var val := ms[J.Find(ms, name)].value;
    var fullName := path + "." + name;
    var ret;
    if val.String? || val.Number? || val.Boolean? {
      var persist := store.GetPersist(fullName);
      if !persist {
        return;
      }
    }
    match val
    case String(t) => ret := store.SetString(fullName, t);
    case Number(x) => ret := store.SetNumber(fullName, DoubleToInt(x));
    case Boolean(b) => ret := store.SetNumber(fullName, if b then 1 else 0);
    case Object(sub, _) =>
      var subIdx := 0;
      while subIdx < |sub|
        invariant 0 <= subIdx <= |sub| && store.Valid()
        invariant LoadMembers(store.Model(), fullName, sub, subIdx) == LoadMembers(old(store.Model()), fullName, sub, 0)
      {
        LoadMember(store, sub, subIdx, fullName);
        subIdx := subIdx + 1;
      }
    case _ =>
  }

  /** `iw_cfg_load` on the text read from the file. */
  method Load(store: S.Store, text: string) returns (ok: bool)
    requires store.Valid() && store.controlled && '\0' !in text
    modifies store.table, store.table.buckets
    ensures store.Valid()
    ensures ok <==> LoadText(old(store.Model()), text).Some?
    ensures store.Model() == if ok then LoadText(old(store.Model()), text).value else old(store.Model())
  {
    hide JsonParse.ParseText, J.Find, LoadValue;
    var root;
    ok, root := JsonParser.ParseJson(text);
    if !ok || !root.Object? {
      return false;
    }
    var cfg := J.Get(root.members, "cfg");
    if cfg.Some? && cfg.value.Object? {
      var ms, idx := cfg.value.members, 0;
      while idx < |ms|
        invariant 0 <= idx <= |ms| && store.Valid()
        invariant LoadMembers(store.Model(), "cfg", ms, idx) == LoadMembers(old(store.Model()), "cfg", ms, 0)
      {
        LoadMember(store, ms, idx, "cfg");
        idx := idx + 1;
      }
    }
    ok := true;
  }

  // ----- an address that is saved and not loaded

  const AddressCriteria := S.Criteria(S.AddressKind, true, None, None)

  /** A store with one persisted address. */
  ghost function OneAddress(text: string): S.State {
    var h := S.Hash("cfg.a");
    S.State(map[h := Some(S.Val("cfg.a", S.Address(text)))], map[h := Some(AddressCriteria)], true)
  }

  lemma OneAddressKept(text: string)
    ensures S.WellKept(OneAddress(text))
    ensures S.AfterSet(S.AddName(S.State(map[], map[], true), "cfg.a", AddressCriteria), "cfg.a",
      S.Val("cfg.a", S.Address(text)))
         == OneAddress(text)
  {
    hide HashTable.HashData;
    assert S.Kept(OneAddress(text), S.Hash("cfg.a"));
  }

  lemma OneAddressListed(text: string, vals: seq<S.Val>)
    requires Listed(OneAddress(text), vals) && EachOnce(vals)
    ensures vals == [S.Val("cfg.a", S.Address(text))]
  {
    hide HashTable.HashData;
    var s, val := OneAddress(text), S.Val("cfg.a", S.Address(text));
    assert S.Held(s.values, S.Hash("cfg.a")) == Some(val);
    forall i | 0 <= i < |vals| ensures vals[i] == val {
      assert S.Get(s, vals[i].name) == Some(vals[i]);
    }
    var last := |vals| - 1;
    assert vals[0].name == vals[last].name;
  }

  lemma AddressEntry()
    ensures Entries(OneAddress("::1"), [S.Val("cfg.a", S.Address("::1"))]) == [Entry("cfg.a", J.String("::1"))]
  {
    hide HashTable.HashData, Utf8.Verify;
    AsciiIsValid("1");
    AsciiIsValid(":1");
    AsciiIsValid("::1");
    var s, val := OneAddress("::1"), S.Val("cfg.a", S.Address("::1"));
    assert IsSaved(s, val);
    assert [val][..0] == [] && [val][0] == val;
    assert Entries(s, []) == [];
  }

  lemma AsciiIsValid(t: string)
    requires t != "" && t[0] as int < 0x80 && Utf8.IsValid(t[1..])
    ensures Utf8.IsValid(t)
  {
  }

  lemma AddressPath()
    ensures Segments("cfg.a") == ["cfg", "a"]
  {
    assert "cfg.a"[1..] == "fg.a" && "fg.a"[1..] == "g.a" && "g.a"[1..] == ".a";
    assert Dot(".a") == 0 && Dot("g.a") == 1 && Dot("fg.a") == 2 && Dot("cfg.a") == 3;
    assert "cfg.a"[..3] == "cfg" && "cfg.a"[4..] == "a";
    assert Dot("a") == 1 && Segments("a") == ["a"];
  }

  lemma OneEntryKept(e: Entry)
    ensures Kept([e]) == {e}
  {
    hide Path, NextNames;
    assert [e][..0] == [];
    NoNextNames();
    forall p ensures |NextNames({} + {e}, p)| <= J.OBJECT_MAX_CAPACITY {
      NextNamesMore({}, e, p);
    }
    assert Fits({}, e);
  }

  lemma AddressEntryFits()
    ensures var e := Entry("cfg.a", J.String("::1")); Kept([e]) == {e} && Plain({e})
  {
    hide Segments, Kept;
    AddressPath();
    OneEntryKept(Entry("cfg.a", J.String("::1")));
  }

  lemma AddressNotRestored(vals: seq<S.Val>)
    requires Listed(OneAddress("::1"), vals) && EachOnce(vals)
    ensures SavedText(OneAddress("::1"), vals) == JsonPrint.Print(Build([Entry("cfg.a", J.String("::1"))]), 0, true)
    ensures var t' := LoadText(OneAddress("::2"), SavedText(OneAddress("::1"), vals));
      t'.Some? && S.Get(t'.value, "cfg.a") == Some(S.Val("cfg.a", S.Address("::2")))
    ensures '\0' !in SavedText(OneAddress("::1"), vals)
  {
    hide HashTable.HashData, S.WellKept, Listed, EachOnce, Entries, Kept, Plain, LoadText, JsonPrint.Print, Build,
      UnderCfg;
    OneAddressKept("::1");
    OneAddressListed("::1", vals);
    AddressEntry();
    AddressEntryFits();
    SaveThenLoad(OneAddress("::1"), vals, OneAddress("::2"));
    assert !Restored(OneAddress("::1"), Kept(Entries(OneAddress("::1"), vals)), S.Hash("cfg.a"));
    TextIsCString([Entry("cfg.a", J.String("::1"))]);
  }

  method AddressStore(text: string) returns (store: S.Store)
    ensures store.Valid() && store.Model() == OneAddress(text) && store.controlled
    ensures fresh(store.table) && fresh(store.table.buckets)
  {
    hide HashTable.HashData;
    store := new S.Store(true);
    var added := store.AddPlainName("cfg.a", S.AddressKind, true);
    var ret := store.SetAddress("cfg.a", text);
    OneAddressKept(text);
  }

  /** The address "::1" is saved, and a store that holds "::2" still holds it after loading. */
  method AddressIsNotLoadedBack() returns (text: string, ok: bool, val: Option<S.Val>)
    ensures text == JsonPrint.Print(Build([Entry("cfg.a", J.String("::1"))]), 0, true)
    ensures ok && val == Some(S.Val("cfg.a", S.Address("::2")))
  {
    hide HashTable.HashData, S.WellKept, Listed, EachOnce, LoadText, SavedText, JsonPrint.Print, Build;
    var one := AddressStore("::1");
    var saved;
    ghost var vals;
    saved, text, vals := Save(one);
    OneAddressKept("::1");
    AddressNotRestored(vals);
    var two := AddressStore("::2");
    ok := Load(two, text);
    val := two.Lookup("cfg.a");
  }

  // ----- a string that makes the whole file unreadable

  const NumberCriteria := S.Criteria(S.NumberKind, true, None, None)
  const StringCriteria := S.Criteria(S.StringKind, true, None, None)

  /** A store with a persisted number and a persisted string. */
  ghost function TwoSettings(n: int, text: string): S.State {
    var h, h' := S.Hash("cfg.n"), S.Hash("cfg.s");
    S.State(map[h := Some(S.Val("cfg.n", S.Number(n))), h' := Some(S.Val("cfg.s", S.Str(text)))],
            map[h := Some(NumberCriteria), h' := Some(StringCriteria)], true)
  }

  lemma DifferentHashes()
    ensures S.Hash("cfg.n") != S.Hash("cfg.s")
  {
    hide HashTable.HashFrom;
    HashTable.HashFromNext(5381, "cfg.n", 4);
    HashTable.HashFromNext(5381, "cfg.s", 4);
    assert "cfg.n"[..5] == "cfg.n" && "cfg.s"[..5] == "cfg.s" && "cfg.n"[..4] == "cfg." == "cfg.s"[..4];
  }

  lemma TwoSettingsKept(n: int, text: string)
    requires -0x8000_0000 <= n < 0x8000_0000
    ensures S.WellKept(TwoSettings(n, text))
  {
    hide HashTable.HashData;
    DifferentHashes();
    assert S.Kept(TwoSettings(n, text), S.Hash("cfg.n")) && S.Kept(TwoSettings(n, text), S.Hash("cfg.s"));
  }

  lemma TwoSettingsReached(n: int, text: string)
    ensures var s := S.AddName(S.State(map[], map[], true), "cfg.n", NumberCriteria);
      var t := S.AfterSet(S.AddName(s, "cfg.s", StringCriteria), "cfg.n", S.Val("cfg.n", S.Number(n)));
      S.AfterSet(t, "cfg.s", S.Val("cfg.s", S.Str(text))) == TwoSettings(n, text)
  {
    hide HashTable.HashData;
    DifferentHashes();
  }

  method TwoSettingsStore(n: int, text: string) returns (store: S.Store)
    ensures store.Valid() && store.Model() == TwoSettings(n, text) && store.controlled
    ensures fresh(store.table) && fresh(store.table.buckets)
  {
    hide HashTable.HashData, S.AddName, S.AfterSet, TwoSettings;
    store := new S.Store(true);
    var added := store.AddPlainName("cfg.n", S.NumberKind, true);
    added := store.AddPlainName("cfg.s", S.StringKind, true);
    var ret := store.SetNumber("cfg.n", n);
    ret := store.SetString("cfg.s", text);
    TwoSettingsReached(n, text);
  }

  lemma TwoPaths()
    ensures Segments("cfg.n") == ["cfg", "n"] && Segments("cfg.s") == ["cfg", "s"]
  {
    PathUnderCfg("n");
    PathUnderCfg("s");
    assert "cfg." + "n" == "cfg.n" && "cfg." + "s" == "cfg.s";
  }

  lemma PathUnderCfg(name: string)
    requires '.' !in name
    ensures Segments("cfg." + name) == ["cfg", name]
  {
    var full := "cfg." + name;
    assert full[1..] == "fg." + name && full[1..][1..] == "g." + name && full[1..][1..][1..] == "." + name;
    assert Dot("." + name) == 0 && Dot("g." + name) == 1 && Dot("fg." + name) == 2 && Dot(full) == 3;
    assert full[..3] == "cfg" && full[4..] == name;
    NoDot(name);
  }

  lemma {:induction false} NoDot(name: string)
    requires '.' !in name
    ensures Dot(name) == |name|
  {
    if name != "" {
      NoDot(name[1..]);
    }
  }

  /** Two entries side by side are both kept. */
  lemma TwoEntriesKept(es: seq<Entry>, d: Entry, e: Entry)
    requires Of(es) <= {d, e} && Path(d) == ["cfg", "n"] && Path(e) == ["cfg", "s"]
    ensures Kept(es) == Of(es)
  {
    hide Path, NextNames, Kept;
    assert PrefixFree(Of(es)) by {
      assert "n"[0] != "s"[0];
      assert ["cfg", "n"][1] != ["cfg", "s"][1];
    }
    forall p ensures |NextNames(Of(es), p)| <= J.OBJECT_MAX_CAPACITY {
      NextNamesMore({}, d, p);
      NextNamesMore({} + {d}, e, p);
      NoNextNames();
      assert {} + {d} + {e} == {d, e};
      FewerNextNames(Of(es), {d, e}, p);
      SubsetIsSmaller(NextNames(Of(es), p), NextNames({d, e}, p));
    }
    AllKeptExactly(es);
  }

  lemma EntriesOfTwo(vals: seq<S.Val>)
    requires Listed(TwoSettings(7, "\U{01}"), vals)
    ensures var es := Entries(TwoSettings(7, "\U{01}"), vals);
      && Of(es) == {Entry("cfg.n", J.Number(7.0)), Entry("cfg.s", J.String("\U{01}"))}
  {
    hide HashTable.HashData, Utf8.IsValid;
    var s := TwoSettings(7, "\U{01}");
    DifferentHashes();
    assert Utf8.IsValid("\U{01}") by {
      ControlIsValid();
    }
    var v, w := S.Val("cfg.n", S.Number(7)), S.Val("cfg.s", S.Str("\U{01}"));
    assert S.Held(s.values, S.Hash("cfg.n")) == Some(v) && S.Held(s.values, S.Hash("cfg.s")) == Some(w);
    EntryOf(s, vals, v);
    EntryOf(s, vals, w);
    forall i | 0 <= i < |vals| ensures vals[i] == v || vals[i] == w {
      assert S.Get(s, vals[i].name) == Some(vals[i]);
    }
    OnlyThese(s, vals, v, w);
  }

  lemma ControlIsValid()
    ensures Utf8.IsValid("\U{01}")
  {
    assert "\U{01}"[1..] == "";
    AsciiIsValid("\U{01}");
  }

  lemma {:induction false} OnlyThese(s: S.State, vals: seq<S.Val>, v: S.Val, w: S.Val)
    requires forall i :: 0 <= i < |vals| ==> vals[i] == v || vals[i] == w
    requires LeafOf(v.body).Some? && LeafOf(w.body).Some?
    ensures Of(Entries(s, vals)) <= {Entry(v.name, LeafOf(v.body).value), Entry(w.name, LeafOf(w.body).value)}
    decreases |vals|
  {
    hide LeafOf, IsSaved;
    if vals != [] {
      OnlyThese(s, vals[..|vals| - 1], v, w);
    }
  }

  lemma ControlIsKept(vals: seq<S.Val>)
    requires Listed(TwoSettings(7, "\U{01}"), vals)
    ensures !Plain(Kept(Entries(TwoSettings(7, "\U{01}"), vals)))
  {
    hide HashTable.HashData, Listed, Entries, Kept, TwoSettings, Segments;
    var d, e := Entry("cfg.n", J.Number(7.0)), Entry("cfg.s", J.String("\U{01}"));
    EntriesOfTwo(vals);
    TwoPaths();
    TwoEntriesKept(Entries(TwoSettings(7, "\U{01}"), vals), d, e);
    assert "\U{01}"[0] < ' ';
    assert !PlainEntry(e);
  }

  lemma ControlTextIsCString(vals: seq<S.Val>)
    requires Listed(TwoSettings(7, "\U{01}"), vals)
    ensures '\0' !in SavedText(TwoSettings(7, "\U{01}"), vals)
  {
    hide HashTable.HashData, Listed, Entries, TwoSettings, Build, JsonPrint.Print;
    var s := TwoSettings(7, "\U{01}");
    var es := Entries(s, vals);
    EntriesOfTwo(vals);
    ListedAreHeld(s, vals);
    EntriesMirror(s, vals);
    forall f | f in es ensures CEntry(f) {
      assert f in Of(es);
    }
    TextIsCString(es);
  }

  lemma ControlRefused(vals: seq<S.Val>, t: S.State)
    requires Listed(TwoSettings(7, "\U{01}"), vals) && t.controlled && t.names == TwoSettings(7, "\U{01}").names
    ensures LoadText(t, SavedText(TwoSettings(7, "\U{01}"), vals)) == None
  {
    hide S.WellKept, Listed, Entries, Kept, Plain, LoadText, SavedText, TwoSettings;
    TwoSettingsKept(7, "\U{01}");
    ControlIsKept(vals);
    SaveThenLoad(TwoSettings(7, "\U{01}"), vals, t);
  }

  /** A persisted number and a persisted string of one control character are saved; the file
      is refused, and the number is not loaded back either. */
  method ControlLosesAll() returns (text: string, ok: bool, val: Option<S.Val>)
    ensures !ok && val == Some(S.Val("cfg.n", S.Number(5)))
    ensures exists vals :: Listed(TwoSettings(7, "\U{01}"), vals) && text == SavedText(TwoSettings(7, "\U{01}"), vals)
  {
    hide HashTable.HashData, S.WellKept, Listed, EachOnce, LoadText, SavedText, JsonPrint.Print, Build;
    var one := TwoSettingsStore(7, "\U{01}");
    var saved;
    ghost var vals;
    saved, text, vals := Save(one);
    TwoSettingsKept(7, "\U{01}");
    ControlTextIsCString(vals);
    ControlRefused(vals, TwoSettings(5, ""));
    var two := TwoSettingsStore(5, "");
    ok := Load(two, text);
    DifferentHashes();
    val := two.Lookup("cfg.n");
  }
}
