/** What the two kinds of search tree in sys-tree.h share: sides, and sequences of nodes in
    the order of their keys. */
module SearchTrees {
  import opened Machine

  datatype Side = L | R

  function Other(s: Side): Side { if s == L then R else L }

  /** The nodes s are the same in both memories. */
  ghost predicate Agree<V>(m: map<Ptr, V>, m': map<Ptr, V>, s: set<Ptr>) {
    forall x :: x in s && x in m ==> x in m' && m'[x] == m[x]
  }

  ghost predicate Sorted(key: Ptr -> int, q: seq<Ptr>) {
    forall i, j :: 0 <= i < j < |q| ==> key(q[i]) < key(q[j])
  }

  /** Keys on side s of k. */
  ghost predicate AllOn(s: Side, key: Ptr -> int, q: seq<Ptr>, k: int) {
    forall i :: 0 <= i < |q| ==> if s == L then key(q[i]) < k else key(q[i]) > k
  }

  lemma SortedSplit(key: Ptr -> int, a: seq<Ptr>, x: Ptr, b: seq<Ptr>)
    ensures Sorted(key, a + [x] + b) ==> AllOn(L, key, a, key(x)) && AllOn(R, key, b, key(x)) && Sorted(key, a + b)
    ensures Sorted(key, a + b) && AllOn(L, key, a, key(x)) && AllOn(R, key, b, key(x)) ==> Sorted(key, a + [x] + b)
  {
    var q, t := a + [x] + b, a + b;
    if Sorted(key, q) {
      assert q[|a|] == x;
      forall i | 0 <= i < |a| ensures key(a[i]) < key(x) { assert q[i] == a[i]; }
      forall i | 0 <= i < |b| ensures key(b[i]) > key(x) { assert q[|a| + 1 + i] == b[i]; }
      forall i, j | 0 <= i < j < |t| ensures key(t[i]) < key(t[j]) {
        assert t[i] == q[if i < |a| then i else i + 1] && t[j] == q[if j < |a| then j else j + 1];
      }
    }
    if Sorted(key, t) && AllOn(L, key, a, key(x)) && AllOn(R, key, b, key(x)) {
      forall i, j | 0 <= i < j < |q| ensures key(q[i]) < key(q[j]) {
        if i != |a| && j != |a| {
          assert q[i] == t[if i < |a| then i else i - 1] && q[j] == t[if j < |a| then j else j - 1];
        }
      }
    }
  }
}
