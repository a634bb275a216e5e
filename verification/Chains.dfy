/** Singly linked lists as the engine writes them: a head pointer, a next field
    per node, and edits through a pointer to the pointer that leads to a node. */
module Chains {

  ghost predicate Unique<N>(s: seq<N>) { forall i, j :: 0 <= i < j < |s| ==> s[i] != s[j] }

  /** What the i-th node must point to. */
  ghost function At<N>(s: seq<N>, end: N, i: nat): N { if i < |s| then s[i] else end }

  /** The list from head on is s. */
  ghost predicate IsChain<N>(next: map<N, N>, end: N, head: N, s: seq<N>) {
    && Unique(s) && head == At(s, end, 0)
    && forall i :: 0 <= i < |s| ==> s[i] != end && s[i] in next && next[s[i]] == At(s, end, i + 1)
  }

  ghost function Without<N>(s: seq<N>, k: nat): seq<N>
    requires k < |s|
  {
    s[..k] + s[k + 1..]
  }

  /** The pointer field that leads to s[k]: the head, or the next field of the
      node before. Writing v through it gives this head and these next fields. */
  ghost function WriteHead<N>(head: N, k: nat, v: N): N { if k == 0 then v else head }

  ghost function WriteNext<N>(next: map<N, N>, s: seq<N>, k: nat, v: N): map<N, N>
    requires k <= |s|
  {
    if k == 0 then next else next[s[k - 1] := v]
  }

  /** Bypassing the k-th node. */
  lemma RemoveAt<N>(next: map<N, N>, end: N, head: N, s: seq<N>, k: nat)
    requires IsChain(next, end, head, s) && k < |s|
    ensures s[k] in next
    ensures IsChain(WriteNext(next, s, k, next[s[k]]), end, WriteHead(head, k, next[s[k]]), Without(s, k))
  {
    var t := Without(s, k);
    var next' := WriteNext(next, s, k, next[s[k]]);
    WithoutUnique(s, k);
    forall i | 0 <= i < |t|
      ensures t[i] != end && t[i] in next' && next'[t[i]] == At(t, end, i + 1)
    {
      RemoveLink(next, end, head, s, k, i);
    }
    hide Unique, WriteNext, Without;
  }

  lemma RemoveLink<N>(next: map<N, N>, end: N, head: N, s: seq<N>, k: nat, i: nat)
    requires IsChain(next, end, head, s) && k < |s| && i + 1 < |s|
    ensures s[k] in next
    ensures var t, next' := Without(s, k), WriteNext(next, s, k, next[s[k]]);
            t[i] != end && t[i] in next' && next'[t[i]] == At(t, end, i + 1)
  {
    var t, j := Without(s, k), if i < k then i else i + 1;
    assert t[i] == s[j];
    assert k > 0 && j != k - 1 ==> s[j] != s[k - 1];
  }

  lemma WithoutUnique<N>(s: seq<N>, k: nat)
    requires Unique(s) && k < |s|
    ensures Unique(Without(s, k))
  {
    var t := Without(s, k);
    forall i, j | 0 <= i < j < |t|
      ensures t[i] != t[j]
    {
      assert t[i] == s[if i < k then i else i + 1] && t[j] == s[if j < k then j else j + 1];
    }
  }

  /** Putting x before the k-th node (at the end for k == |s|). */
  lemma InsertAt<N>(next: map<N, N>, end: N, head: N, s: seq<N>, k: nat, x: N)
    requires IsChain(next, end, head, s) && k <= |s| && x != end && x !in s
    ensures IsChain(WriteNext(next[x := At(s, end, k)], s, k, x), end, WriteHead(head, k, x), s[..k] + [x] + s[k..])
  {
    var t := s[..k] + [x] + s[k..];
    var next' := WriteNext(next[x := At(s, end, k)], s, k, x);
    forall i | 0 <= i < |t|
      ensures t[i] != end && t[i] in next' && next'[t[i]] == At(t, end, i + 1)
    {
      InsertLink(next, end, head, s, k, x, i);
    }
    InsertUnique(s, k, x);
    hide Unique, WriteNext;
  }

  lemma InsertLink<N>(next: map<N, N>, end: N, head: N, s: seq<N>, k: nat, x: N, i: nat)
    requires IsChain(next, end, head, s) && k <= |s| && x != end && x !in s && i <= |s|
    ensures var t, next' := s[..k] + [x] + s[k..], WriteNext(next[x := At(s, end, k)], s, k, x);
            t[i] != end && t[i] in next' && next'[t[i]] == At(t, end, i + 1)
  {
    var t := s[..k] + [x] + s[k..];
    if i < k { assert t[i] == s[i]; }
    else if i > k { assert t[i] == s[i - 1]; }
  }

  lemma InsertUnique<N>(s: seq<N>, k: nat, x: N)
    requires Unique(s) && k <= |s| && x !in s
    ensures Unique(s[..k] + [x] + s[k..])
  {
    var t := s[..k] + [x] + s[k..];
    forall i, j | 0 <= i < j < |t|
      ensures t[i] != t[j]
    {
      if i != k && j != k {
        assert t[i] == s[if i < k then i else i - 1] && t[j] == s[if j < k then j else j - 1];
      }
    }
  }

  /** A list does not notice writes to other nodes. */
  lemma ChainFrame<N>(next: map<N, N>, next': map<N, N>, end: N, head: N, s: seq<N>)
    requires IsChain(next, end, head, s)
    requires forall x :: x in s && x in next ==> x in next' && next'[x] == next[x]
    ensures IsChain(next', end, head, s)
  {
  }

  lemma WithoutMembers<N>(s: seq<N>, k: nat, x: N)
    requires Unique(s) && k < |s|
    ensures x in Without(s, k) <==> x in s && x != s[k]
  {
    if x in s && x != s[k] {
      var i :| 0 <= i < |s| && s[i] == x;
      assert Without(s, k)[if i < k then i else i - 1] == x;
    }
    if x in Without(s, k) {
      var i :| 0 <= i < |s| - 1 && Without(s, k)[i] == x;
      assert s[if i < k then i else i + 1] == x;
    }
  }

  ghost function IndexOf<N>(s: seq<N>, x: N): (k: nat)
    requires x in s
    ensures k < |s| && s[k] == x
  {
    if s[0] == x then 0 else 1 + IndexOf(s[1..], x)
  }

  /** The list without x. */
  ghost function Minus<N>(s: seq<N>, x: N): seq<N> {
    if x in s then Without(s, IndexOf(s, x)) else s
  }

  lemma MinusMembers<N>(s: seq<N>, x: N, y: N)
    requires Unique(s)
    ensures y in Minus(s, x) <==> y in s && y != x
  {
    if x in s { WithoutMembers(s, IndexOf(s, x), y); }
  }

  lemma IndexOfUnique<N>(s: seq<N>, k: nat)
    requires Unique(s) && k < |s|
    ensures IndexOf(s, s[k]) == k
  {
  }

  /** Removing or passing the first of s[k..] behind a. */
  lemma Middle<N>(a: seq<N>, s: seq<N>, k: nat)
    requires k < |s|
    ensures (a + s[k..])[|a|] == s[k] && Without(a + s[k..], |a|) == a + s[k + 1..]
            && a + s[k..] == (a + [s[k]]) + s[k + 1..]
    ensures a != [] ==> (a + s[k..])[|a| - 1] == a[|a| - 1]
  {
  }

  lemma ChainUnique<N>(next: map<N, N>, end: N, head: N, s: seq<N>)
    requires IsChain(next, end, head, s)
    ensures Unique(s)
  {
  }

  lemma ChainStart<N>(next: map<N, N>, end: N, head: N, s: seq<N>)
    requires IsChain(next, end, head, s)
    ensures head == At(s, end, 0)
  {
  }

  lemma ChainAt<N>(next: map<N, N>, end: N, head: N, s: seq<N>, k: nat)
    requires IsChain(next, end, head, s) && k < |s|
    ensures s[k] != end && s[k] in next && next[s[k]] == At(s, end, k + 1)
  {
  }
}
