/** Facts about sets and sequences used by several modules. */
module Collections {
  lemma SubsetIsSmaller<T>(a: set<T>, b: set<T>)
    requires a <= b
    ensures |a| <= |b|
  {
    assert b == a + (b - a);
  }

  lemma SliceOfSlice<T>(s: seq<T>, from: nat, to: nat, i: nat, j: nat)
    requires from <= to <= |s| && i <= j <= to - from
    ensures s[from..to][i..j] == s[from + i..from + j]
  {
    forall k | 0 <= k < j - i ensures s[from..to][i..j][k] == s[from + i..from + j][k] {
      assert s[from..to][i + k] == s[from + (i + k)];
    }
  }

  lemma OneMore<T>(done: seq<T>, v: T, more: seq<T>)
    ensures done + ([v] + more) == done + [v] + more
    ensures more == [] ==> done + ([v] + more) == done + [v]
  {
  }
}
