/** Top-down splay trees (sys-tree.h, SPLAY_*): nodes in memory, rewritten in
    place while the tree is cut into a left part, a middle and a right part. A
    Side parameter stands for the two mirror-image halves of the source. */
module Splay {
  import opened Machine
  import opened SearchTrees

  /** The stack cell __node that holds the two parts during a splay. */
  const HEADER: Ptr := 1

  datatype Cell = Cell(left: Ptr, right: Ptr) {
    function Kid(s: Side): Ptr { if s == L then left else right }

    function SetKid(s: Side, n: Ptr): Cell { if s == L then this.(left := n) else this.(right := n) }
  }

  type Mem = map<Ptr, Cell>

  datatype Tree = Leaf | T(l: Tree, x: Ptr, r: Tree)

  /** The left part (s == L) hangs by its right spine: each node x has its left
      subtree sub and a hole on the right; the right part is the mirror image. */
  datatype Spine = End | Link(x: Ptr, sub: Tree, up: Spine)

  ghost function Mk(s: Side, a: Tree, x: Ptr, b: Tree): Tree { if s == L then T(a, x, b) else T(b, x, a) }

  ghost function Near(s: Side, t: Tree): Tree
    requires t.T?
  {
    if s == L then t.l else t.r
  }

  /** Filling the hole of a spine with t. */
  ghost function Attach(s: Side, sp: Spine, t: Tree): Tree {
    match sp
    case End => t
    case Link(x, sub, up) => Attach(s, up, Mk(s, sub, x, t))
  }

  // ------------------------------------------------------------ in-order

  ghost function InOrder(t: Tree): seq<Ptr> {
    match t
    case Leaf => []
    case T(l, x, r) => InOrder(l) + [x] + InOrder(r)
  }

  ghost function Size(t: Tree): nat { |InOrder(t)| }

  /** Join two sequences, the first on side s. */
  ghost function Cat(s: Side, a: seq<Ptr>, b: seq<Ptr>): seq<Ptr> { if s == L then a + b else b + a }

  ghost function SpineOrder(s: Side, sp: Spine): seq<Ptr> {
    match sp
    case End => []
    case Link(x, sub, up) => Cat(s, SpineOrder(s, up), Cat(s, InOrder(sub), [x]))
  }

  lemma CatAssoc(s: Side, a: seq<Ptr>, b: seq<Ptr>, c: seq<Ptr>)
    ensures Cat(s, Cat(s, a, b), c) == Cat(s, a, Cat(s, b, c))
  {
  }

  lemma InOrderMk(s: Side, a: Tree, x: Ptr, b: Tree)
    ensures InOrder(Mk(s, a, x, b)) == Cat(s, Cat(s, InOrder(a), [x]), InOrder(b))
    ensures InOrder(Mk(s, a, x, b)) == Cat(s, InOrder(a), Cat(s, [x], InOrder(b)))
  {
    CatAssoc(s, InOrder(a), [x], InOrder(b));
  }

  lemma {:induction false} AttachOrder(s: Side, sp: Spine, t: Tree)
    ensures InOrder(Attach(s, sp, t)) == Cat(s, SpineOrder(s, sp), InOrder(t))
    decreases sp
  {
    if sp.Link? {
      hide InOrder, Cat, Mk;
      AttachOrder(s, sp.up, Mk(s, sp.sub, sp.x, t));
      InOrderMk(s, sp.sub, sp.x, t);
      CatAssoc(s, SpineOrder(s, sp.up), Cat(s, InOrder(sp.sub), [sp.x]), InOrder(t));
    } else {
      assert [] + InOrder(t) == InOrder(t) == InOrder(t) + [];
    }
  }

  /** Everything, with t in the middle. */
  ghost function Order(l: Spine, t: Tree, r: Spine): seq<Ptr> { SpineOrder(L, l) + InOrder(t) + SpineOrder(R, r) }

  /** The tree put together around the middle. */
  ghost function Assembled(l: Spine, t: Tree, r: Spine): Tree
    requires t.T?
  {
    T(Attach(L, l, t.l), t.x, Attach(R, r, t.r))
  }

  lemma AssembledOrder(l: Spine, t: Tree, r: Spine)
    requires t.T?
    ensures InOrder(Assembled(l, t, r)) == Order(l, t, r)
  {
    AttachOrder(L, l, t.l);
    AttachOrder(R, r, t.r);
    AssocSeven(SpineOrder(L, l), InOrder(t.l), [t.x], InOrder(t.r), SpineOrder(R, r));
  }

  lemma AssocSeven<U>(a: seq<U>, b: seq<U>, c: seq<U>, d: seq<U>, e: seq<U>)
    ensures (a + b) + c + (d + e) == a + (b + c + d) + e
  {
  }

  // ------------------------------------------------------------ node sets and memory

  ghost function Nodes(t: Tree): set<Ptr> {
    match t
    case Leaf => {}
    case T(l, x, r) => Nodes(l) + {x} + Nodes(r)
  }

  ghost predicate Distinct(t: Tree) {
    match t
    case Leaf => true
    case T(l, x, r) => Distinct(l) && Distinct(r) && Nodes(l) !! Nodes(r) && x !in Nodes(l) && x !in Nodes(r)
  }

  ghost function SpineNodes(sp: Spine): set<Ptr> {
    match sp
    case End => {}
    case Link(x, sub, up) => {x} + Nodes(sub) + SpineNodes(up)
  }

  ghost predicate SpineDistinct(sp: Spine) {
    match sp
    case End => true
    case Link(x, sub, up) =>
      Distinct(sub) && SpineDistinct(up) && Nodes(sub) !! SpineNodes(up) && x !in Nodes(sub) && x !in SpineNodes(up)
  }

  ghost function Root(t: Tree): Ptr { if t == Leaf then NULL else t.x }

  /** The cell whose pointer is the hole. */
  ghost function Tip(sp: Spine): Ptr { if sp == End then HEADER else sp.x }

  ghost predicate Shape(m: Mem, t: Tree) {
    match t
    case Leaf => true
    case T(l, x, r) =>
      x != NULL && x != HEADER && x in m && m[x].left == Root(l) && m[x].right == Root(r) && Shape(m, l) && Shape(m, r)
  }

  ghost predicate SpineShape(m: Mem, s: Side, sp: Spine) {
    match sp
    case End => true
    case Link(x, sub, up) =>
      && x != NULL && x != HEADER && x in m && m[x].Kid(s) == Root(sub) && Shape(m, sub)
      && Tip(up) in m && m[Tip(up)].Kid(Other(s)) == x && SpineShape(m, s, up)
  }

  lemma {:induction false} ShapeFrame(m: Mem, m': Mem, t: Tree)
    requires Shape(m, t) && Agree(m, m', Nodes(t))
    ensures Shape(m', t)
  {
    if t.T? {
      ShapeFrame(m, m', t.l);
      ShapeFrame(m, m', t.r);
    }
  }

  /** A spine survives changes outside its nodes, to its own hole and to the
      header's other pointer. */
  lemma {:induction false} SpineFrame(m: Mem, m': Mem, s: Side, sp: Spine)
    requires SpineShape(m, s, sp) && SpineDistinct(sp)
    requires Agree(m, m', SpineNodes(sp) - {Tip(sp)})
    requires sp.Link? ==> sp.x in m' && m'[sp.x].Kid(s) == m[sp.x].Kid(s)
    requires sp.Link? && HEADER in m ==> HEADER in m' && m'[HEADER].Kid(Other(s)) == m[HEADER].Kid(Other(s))
    ensures SpineShape(m', s, sp)
    decreases sp
  {
    if sp.Link? {
      ShapeFrame(m, m', sp.sub);
      if sp.up.Link? {
        assert sp.up.x in SpineNodes(sp.up);
      }
      SpineFrame(m, m', s, sp.up);
    }
  }

  /** When the hole points to t, the header's pointer leads to the filled part. */
  lemma {:induction false} AttachShape(m: Mem, s: Side, sp: Spine, t: Tree)
    requires SpineShape(m, s, sp) && Shape(m, t)
    requires Tip(sp) in m && m[Tip(sp)].Kid(Other(s)) == Root(t)
    ensures Shape(m, Attach(s, sp, t)) && HEADER in m && m[HEADER].Kid(Other(s)) == Root(Attach(s, sp, t))
    decreases sp
  {
    if sp.Link? { AttachShape(m, s, sp.up, Mk(s, sp.sub, sp.x, t)); }
  }

  // ------------------------------------------------------------ one step

  ghost predicate Apart(l: Spine, t: Tree, r: Spine) {
    && SpineDistinct(l) && SpineDistinct(r) && Distinct(t)
    && SpineNodes(l) !! SpineNodes(r) && SpineNodes(l) !! Nodes(t) && SpineNodes(r) !! Nodes(t)
  }

  /** Memory in the middle of a splay. */
  ghost predicate Cut(m: Mem, l: Spine, t: Tree, r: Spine) {
    Apart(l, t, r) && HEADER in m && SpineShape(m, L, l) && SpineShape(m, R, r) && Shape(m, t)
  }

  lemma OpenMk(m: Mem, s: Side, a: Tree, x: Ptr, b: Tree)
    ensures Root(Mk(s, a, x, b)) == x && Mk(s, a, x, b).T?
    ensures Shape(m, Mk(s, a, x, b)) <==>
            && x != NULL && x != HEADER && x in m && m[x].Kid(s) == Root(a) && m[x].Kid(Other(s)) == Root(b)
            && Shape(m, a) && Shape(m, b)
    ensures Nodes(Mk(s, a, x, b)) == Nodes(a) + {x} + Nodes(b)
    ensures Distinct(Mk(s, a, x, b)) <==>
            Distinct(a) && Distinct(b) && Nodes(a) !! Nodes(b) && x !in Nodes(a) && x !in Nodes(b)
  {
  }

  lemma RootShape(m: Mem, t: Tree)
    requires Shape(m, t)
    ensures Root(t) == NULL <==> t == Leaf
    ensures t.T? ==> t.x in m && t.x in Nodes(t)
  {
  }

  lemma {:induction false} NotHeader(m: Mem, t: Tree)
    requires Shape(m, t)
    ensures HEADER !in Nodes(t) && NULL !in Nodes(t)
  {
    if t.T? {
      NotHeader(m, t.l);
      NotHeader(m, t.r);
    }
  }

  lemma {:induction false} SpineNotHeader(m: Mem, s: Side, sp: Spine)
    requires SpineShape(m, s, sp)
    ensures HEADER !in SpineNodes(sp) && (sp.Link? ==> sp.x in SpineNodes(sp) && sp.x in m)
    decreases sp
  {
    if sp.Link? {
      NotHeader(m, sp.sub);
      SpineNotHeader(m, s, sp.up);
    }
  }

  /** SPLAY_ROTATE_RIGHT for s == L, SPLAY_ROTATE_LEFT for s == R. */
  ghost function RotateMem(m: Mem, s: Side, x: Ptr, y: Ptr): Mem
    requires x in m && y in m
  {
    var m1 := m[x := m[x].SetKid(s, m[y].Kid(Other(s)))];
    m1[y := m1[y].SetKid(Other(s), x)]
  }

  lemma RotateShape(m: Mem, l: Spine, s: Side, a: Tree, y: Ptr, b: Tree, x: Ptr, d: Tree, r: Spine)
    requires Cut(m, l, Mk(s, Mk(s, a, y, b), x, d), r)
    ensures x in m && y in m && x != y && m[x].Kid(s) == y
    ensures Cut(RotateMem(m, s, x, y), l, Mk(s, a, y, Mk(s, b, x, d)), r)
    ensures InOrder(Mk(s, a, y, Mk(s, b, x, d))) == InOrder(Mk(s, Mk(s, a, y, b), x, d))
  {
    OpenMk(m, s, Mk(s, a, y, b), x, d);
    OpenMk(m, s, a, y, b);
    hide Shape, SpineShape, Nodes, Distinct, SpineNodes, SpineDistinct, Mk, InOrder, Cat;
    var m' := RotateMem(m, s, x, y);
    OpenMk(m', s, b, x, d);
    OpenMk(m', s, a, y, Mk(s, b, x, d));
    SpineNotHeader(m, L, l);
    SpineNotHeader(m, R, r);
    ShapeFrame(m, m', a);
    ShapeFrame(m, m', b);
    ShapeFrame(m, m', d);
    SpineFrame(m, m', L, l);
    SpineFrame(m, m', R, r);
    InOrderMk(s, Mk(s, a, y, b), x, d);
    InOrderMk(s, a, y, b);
    InOrderMk(s, b, x, d);
    InOrderMk(s, a, y, Mk(s, b, x, d));
    CatFour(s, InOrder(a), [y], InOrder(b), [x], InOrder(d));
  }

  lemma CatFour(s: Side, a: seq<Ptr>, y: seq<Ptr>, b: seq<Ptr>, x: seq<Ptr>, d: seq<Ptr>)
    ensures Cat(s, Cat(s, Cat(s, Cat(s, a, y), b), x), d) == Cat(s, a, Cat(s, y, Cat(s, b, Cat(s, x, d))))
  {
    hide Cat;
    CatAssoc(s, Cat(s, Cat(s, a, y), b), x, d);
    CatAssoc(s, Cat(s, a, y), b, Cat(s, x, d));
    CatAssoc(s, a, y, Cat(s, b, Cat(s, x, d)));
  }

  /** SPLAY_LINKLEFT for s == L, SPLAY_LINKRIGHT for s == R: the middle's root and
      its far subtree go to the part on the other side. */
  lemma LinkShape(m: Mem, l: Spine, s: Side, a: Tree, x: Ptr, d: Tree, r: Spine)
    requires Cut(m, l, Mk(s, a, x, d), r)
    ensures var tip := Tip(if s == L then r else l);
            && tip in m && x in m && tip != x && m[x].Kid(s) == Root(a)
            && var m' := m[tip := m[tip].SetKid(s, x)];
               if s == L then Cut(m', l, a, Link(x, d, r)) else Cut(m', Link(x, d, l), a, r)
    ensures if s == L then Order(l, a, Link(x, d, r)) == Order(l, Mk(s, a, x, d), r)
            else Order(Link(x, d, l), a, r) == Order(l, Mk(s, a, x, d), r)
  {
    OpenMk(m, s, a, x, d);
    LinkOrder(l, s, a, x, d, r);
    LinkNodes(x, d, r);
    LinkNodes(x, d, l);
    hide Shape, Nodes, Distinct, SpineNodes, SpineDistinct, Mk, Order;
    var tip := Tip(if s == L then r else l);
    SpineNotHeader(m, L, l);
    SpineNotHeader(m, R, r);
    NotHeader(m, a);
    NotHeader(m, d);
    assert tip in m;
    var m' := m[tip := m[tip].SetKid(s, x)];
    ShapeFrame(m, m', a);
    ShapeFrame(m, m', d);
    SpineFrame(m, m', L, l);
    SpineFrame(m, m', R, r);
  }

  lemma LinkNodes(x: Ptr, d: Tree, sp: Spine)
    ensures SpineNodes(Link(x, d, sp)) == {x} + Nodes(d) + SpineNodes(sp)
    ensures SpineDistinct(Link(x, d, sp)) <==>
            Distinct(d) && SpineDistinct(sp) && Nodes(d) !! SpineNodes(sp) && x !in Nodes(d) && x !in SpineNodes(sp)
  {
  }

  lemma LinkOrder(l: Spine, s: Side, a: Tree, x: Ptr, d: Tree, r: Spine)
    ensures if s == L then Order(l, a, Link(x, d, r)) == Order(l, Mk(s, a, x, d), r)
            else Order(Link(x, d, l), a, r) == Order(l, Mk(s, a, x, d), r)
  {
    hide SpineOrder, InOrder;
    InOrderMk(s, a, x, d);
    var p, q := SpineOrder(L, l), SpineOrder(R, r);
    if s == L {
      assert SpineOrder(R, Link(x, d, r)) == ([x] + InOrder(d)) + q by { LinkSpine(R, x, d, r); }
      Regroup(p, InOrder(a), [x] + InOrder(d), q);
    } else {
      assert SpineOrder(L, Link(x, d, l)) == p + (InOrder(d) + [x]) by { LinkSpine(L, x, d, l); }
      Regroup(p, InOrder(d) + [x], InOrder(a), q);
    }
  }

  lemma LinkSpine(s: Side, x: Ptr, d: Tree, sp: Spine)
    ensures SpineOrder(s, Link(x, d, sp)) == Cat(s, SpineOrder(s, sp), Cat(s, InOrder(d), [x]))
  {
  }

  lemma Regroup<U>(p: seq<U>, a: seq<U>, b: seq<U>, q: seq<U>)
    ensures p + (a + b) + q == p + a + (b + q)
    ensures p + (a + b) + q == (p + a) + b + q
  {
  }

  // ------------------------------------------------------------ keys

  /** k lies on side s of the key. */
  predicate Beyond(s: Side, k: int, key: int) { if s == L then k < key else k > key }

  /** The parts cut off lie on their sides of k. */
  ghost predicate Around(key: Ptr -> int, k: int, l: Spine, r: Spine) {
    AllOn(L, key, SpineOrder(L, l), k) && AllOn(R, key, SpineOrder(R, r), k)
  }

  lemma LinkKeys(key: Ptr -> int, k: int, l: Spine, s: Side, a: Tree, x: Ptr, d: Tree, r: Spine)
    requires Sorted(key, Order(l, Mk(s, a, x, d), r)) && Around(key, k, l, r) && Beyond(s, k, key(x))
    ensures if s == L then Around(key, k, l, Link(x, d, r)) else Around(key, k, Link(x, d, l), r)
  {
    hide Sorted, AllOn, SpineOrder, InOrder;
    InOrderMk(s, a, x, d);
    LinkSpine(Other(s), x, d, if s == L then r else l);
    var p, q := SpineOrder(L, l), SpineOrder(R, r);
    if s == L {
      MiddleSeq(p, InOrder(a), [x], InOrder(d), q);
      SortedSplit(key, p + InOrder(a), x, InOrder(d) + q);
      AllOnMore(R, key, InOrder(d) + q, key(x), k);
      AllOnCons(R, key, [x], InOrder(d) + q, k);
    } else {
      MiddleSeq(p, InOrder(d), [x], InOrder(a), q);
      SortedSplit(key, p + InOrder(d), x, InOrder(a) + q);
      AllOnMore(L, key, p + InOrder(d), key(x), k);
      AllOnCons(L, key, p + InOrder(d), [x], k);
    }
  }

  lemma MiddleSeq<U>(p: seq<U>, a: seq<U>, x: seq<U>, d: seq<U>, q: seq<U>)
    ensures p + (a + (x + d)) + q == (p + a) + x + (d + q) && p + (a + x + d) + q == (p + a) + x + (d + q)
    ensures (x + d) + q == x + (d + q) && p + (a + x) == (p + a) + x
  {
  }

  lemma AllOnMore(s: Side, key: Ptr -> int, q: seq<Ptr>, b: int, k: int)
    requires AllOn(s, key, q, b) && (if s == L then b <= k else k <= b)
    ensures AllOn(s, key, q, k)
  {
  }

  lemma AllOnCons(s: Side, key: Ptr -> int, a: seq<Ptr>, b: seq<Ptr>, k: int)
    requires forall x :: x in a || x in b ==> if s == L then key(x) < k else key(x) > k
    ensures AllOn(s, key, a + b, k)
  {
  }

  /** x is the node for k, or the node next to where k would be. */
  ghost predicate Closest(key: Ptr -> int, k: int, t: Tree) {
    t.T? && forall s :: Beyond(s, k, key(t.x)) ==> AllOn(s, key, InOrder(Near(s, t)), k)
  }

  lemma AssembledClosest(key: Ptr -> int, k: int, l: Spine, t: Tree, r: Spine)
    requires t.T? && Around(key, k, l, r)
    requires forall s :: Beyond(s, k, key(t.x)) ==> Near(s, t) == Leaf
    ensures Closest(key, k, Assembled(l, t, r))
  {
    AttachOrder(L, l, t.l);
    AttachOrder(R, r, t.r);
    assert SpineOrder(L, l) + [] == SpineOrder(L, l) && [] + SpineOrder(R, r) == SpineOrder(R, r);
  }

  /** Closest means: if k is somewhere in the tree, it is at the root. */
  lemma ClosestFinds(key: Ptr -> int, k: int, t: Tree, x: Ptr)
    requires Closest(key, k, t) && Sorted(key, InOrder(t)) && x in InOrder(t) && key(x) == k
    ensures t.x == x
  {
    SortedSplit(key, InOrder(t.l), t.x, InOrder(t.r));
    assert x in InOrder(t.l) || x == t.x || x in InOrder(t.r);
    if x in InOrder(t.l) {
      AllOnMember(L, key, InOrder(t.l), key(t.x), x);
      assert Near(L, t) == t.l && Beyond(L, k, key(t.x));
      AllOnMember(L, key, InOrder(t.l), k, x);
      assert false;
    }
    if x in InOrder(t.r) {
      AllOnMember(R, key, InOrder(t.r), key(t.x), x);
      assert Near(R, t) == t.r && Beyond(R, k, key(t.x));
      AllOnMember(R, key, InOrder(t.r), k, x);
      assert false;
    }
  }

  lemma ClosestMissing(key: Ptr -> int, k: int, t: Tree)
    requires Closest(key, k, t) && Sorted(key, InOrder(t)) && key(t.x) != k
    ensures forall y :: y in InOrder(t) ==> key(y) != k
  {
    hide Closest, Sorted, InOrder;
    forall y | y in InOrder(t) ensures key(y) != k {
      if key(y) == k { ClosestFinds(key, k, t, y); assert false; }
    }
  }

  lemma AllOnMember(s: Side, key: Ptr -> int, q: seq<Ptr>, k: int, x: Ptr)
    requires AllOn(s, key, q, k) && x in q
    ensures if s == L then key(x) < k else key(x) > k
  {
  }

  // ------------------------------------------------------------ how deep nodes end up

  /** The nodes a search for k comes by. */
  ghost function Path(key: Ptr -> int, k: int, t: Tree): seq<Ptr> {
    if t == Leaf then []
    else [t.x] + if k < key(t.x) then Path(key, k, t.l) else if k > key(t.x) then Path(key, k, t.r) else []
  }

  /** x stands in t, at most d steps below the root. */
  ghost predicate Within(t: Tree, x: Ptr, d: int) {
    t.T? && d >= 0 && (t.x == x || Within(t.l, x, d - 1) || Within(t.r, x, d - 1))
  }

  ghost function Len(sp: Spine): nat { if sp == End then 0 else 1 + Len(sp.up) }

  /** p is on the spine, or the root of a subtree beside it. */
  ghost predicate Beside(sp: Spine, p: Ptr) {
    sp.Link? && (sp.x == p || (sp.sub.T? && sp.sub.x == p) || Beside(sp.up, p))
  }

  lemma {:induction false} WithinAttach(s: Side, sp: Spine, t: Tree, x: Ptr, d: nat)
    requires Within(t, x, d)
    ensures Within(Attach(s, sp, t), x, d + Len(sp))
    decreases sp
  {
    if sp.Link? {
      assert Within(Mk(s, sp.sub, sp.x, t), x, d + 1);
      WithinAttach(s, sp.up, Mk(s, sp.sub, sp.x, t), x, d + 1);
    }
  }

  lemma {:induction false} BesideAttach(s: Side, sp: Spine, t: Tree, p: Ptr)
    requires Beside(sp, p)
    ensures Within(Attach(s, sp, t), p, Len(sp))
    decreases sp
  {
    var u := Mk(s, sp.sub, sp.x, t);
    if sp.x == p || (sp.sub.T? && sp.sub.x == p) {
      assert sp.x != p ==> Within(sp.sub, p, 0);
      assert Within(u, p, 1);
      WithinAttach(s, sp.up, u, p, 1);
    } else {
      BesideAttach(s, sp.up, u, p);
      WithinMore(Attach(s, sp.up, u), p, Len(sp.up), Len(sp));
    }
  }

  lemma {:induction false} WithinMore(t: Tree, x: Ptr, d: int, e: int)
    requires Within(t, x, d) && d <= e
    ensures Within(t, x, e)
  {
    if t.x != x {
      if Within(t.l, x, d - 1) { WithinMore(t.l, x, d - 1, e - 1); } else { WithinMore(t.r, x, d - 1, e - 1); }
    }
  }

  /** What has been passed of the path stands beside the spines, and these grow by one for
      every two nodes passed. */
  ghost predicate Halving(key: Ptr -> int, k: int, path: seq<Ptr>, l: Spine, t: Tree, r: Spine) {
    && t.T? && |Path(key, k, t)| <= |path|
    && (forall p :: p in path ==> Beside(l, p) || Beside(r, p) || p in Path(key, k, t))
    && var c := |path| - |Path(key, k, t)|;
       && 2 * Len(l) <= c + 1 && 2 * Len(r) <= c + 1
       && (k > key(t.x) ==> 2 * Len(l) <= c) && (k < key(t.x) ==> 2 * Len(r) <= c)
  }

  lemma HalvingStarts(key: Ptr -> int, k: int, t: Tree)
    requires t.T?
    ensures Halving(key, k, Path(key, k, t), End, t, End)
  {
  }

  /** The path goes on by side s. */
  lemma PathOn(key: Ptr -> int, k: int, t: Tree, s: Side)
    requires t.T? && Beyond(s, k, key(t.x))
    ensures Path(key, k, t) == [t.x] + Path(key, k, Near(s, t))
    ensures (k < key(t.x)) == (s == L) && (k > key(t.x)) == (s == R)
  {
  }

  /** One node is passed, and the path turns or ends at the next. */
  lemma HalvingZig(key: Ptr -> int, k: int, path: seq<Ptr>, l: Spine, t: Tree, r: Spine, s: Side)
    requires Halving(key, k, path, l, t, r) && Beyond(s, k, key(t.x)) && Near(s, t).T?
    requires !Beyond(s, k, key(Near(s, t).x))
    ensures var d := Near(Other(s), t);
            if s == L then Halving(key, k, path, l, Near(s, t), Link(t.x, d, r))
            else Halving(key, k, path, Link(t.x, d, l), Near(s, t), r)
  {
    PathOn(key, k, t, s);
    hide Path;
  }

  /** Two nodes are passed, and the spine grows by one. */
  lemma HalvingZigZig(key: Ptr -> int, k: int, path: seq<Ptr>, l: Spine, t: Tree, r: Spine, s: Side)
    requires Halving(key, k, path, l, t, r) && Beyond(s, k, key(t.x)) && Near(s, t).T?
    requires Beyond(s, k, key(Near(s, t).x)) && Near(s, Near(s, t)).T?
    ensures var y := Near(s, t);
            var d := Mk(s, Near(Other(s), y), t.x, Near(Other(s), t));
            if s == L then Halving(key, k, path, l, Near(s, y), Link(y.x, d, r))
            else Halving(key, k, path, Link(y.x, d, l), Near(s, y), r)
  {
    PathOn(key, k, t, s);
    PathOn(key, k, Near(s, t), s);
    var y := Near(s, t);
    assert Path(key, k, t) == [t.x, y.x] + Path(key, k, Near(s, y));
    hide Path;
  }

  /** All of the path is beside the spines, at the root or just below it. */
  ghost predicate Passed(path: seq<Ptr>, l: Spine, t: Tree, r: Spine) {
    && t.T? && 2 * Len(l) <= |path| + 1 && 2 * Len(r) <= |path| + 1
    && forall p :: p in path ==>
         || Beside(l, p) || Beside(r, p) || p == t.x || (t.l.T? && p == t.l.x) || (t.r.T? && p == t.r.x)
  }

  lemma PassedEnd(key: Ptr -> int, k: int, path: seq<Ptr>, l: Spine, t: Tree, r: Spine)
    requires Halving(key, k, path, l, t, r) && forall s :: Beyond(s, k, key(t.x)) ==> Near(s, t) == Leaf
    ensures Passed(path, l, t, r)
  {
    assert Beyond(L, k, key(t.x)) ==> Near(L, t) == Leaf;
    assert Beyond(R, k, key(t.x)) ==> Near(R, t) == Leaf;
    assert Path(key, k, t) == [t.x];
  }

  lemma PassedRotated(key: Ptr -> int, k: int, path: seq<Ptr>, l: Spine, t: Tree, r: Spine, s: Side)
    requires Halving(key, k, path, l, t, r) && Beyond(s, k, key(t.x)) && Near(s, t).T?
    requires Beyond(s, k, key(Near(s, t).x)) && Near(s, Near(s, t)) == Leaf
    ensures var y := Near(s, t);
            Passed(path, l, Mk(s, Leaf, y.x, Mk(s, Near(Other(s), y), t.x, Near(Other(s), t))), r)
  {
    PathOn(key, k, t, s);
    PathOn(key, k, Near(s, t), s);
    assert Path(key, k, t) == [t.x, Near(s, t).x];
  }

  /** Splaying halves the way to every node of the path, but for two steps. */
  lemma Halved(path: seq<Ptr>, l: Spine, t: Tree, r: Spine, p: Ptr)
    requires Passed(path, l, t, r) && p in path
    ensures Within(Assembled(l, t, r), p, (|path| + 3) / 2)
  {
    var u, n := Assembled(l, t, r), (|path| + 1) / 2;
    if Beside(l, p) {
      BesideAttach(L, l, t.l, p);
      WithinMore(u.l, p, Len(l), n);
    } else if Beside(r, p) {
      BesideAttach(R, r, t.r, p);
      WithinMore(u.r, p, Len(r), n);
    } else if p != t.x {
      if t.l.T? && p == t.l.x {
        WithinAttach(L, l, t.l, p, 0);
        WithinMore(u.l, p, Len(l), n);
      } else {
        WithinAttach(R, r, t.r, p, 0);
        WithinMore(u.r, p, Len(r), n);
      }
    }
  }

  // ------------------------------------------------------------ SPLAY

  /** SPLAY_ASSEMBLE. */
  ghost function AssembleMem(m: Mem, x: Ptr, left: Ptr, right: Ptr): Mem
    requires x in m && left in m && right in m && HEADER in m
  {
    var m1 := m[left := m[left].(right := m[x].left)];
    var m2 := m1[right := m1[right].(left := m1[x].right)];
    var m3 := m2[x := m2[x].(left := m2[HEADER].right)];
    m3[x := m3[x].(right := m3[HEADER].left)]
  }

  ghost function CloseHoles(m: Mem, x: Ptr, left: Ptr, right: Ptr): Mem
    requires x in m && left in m && right in m
  {
    var m1 := m[left := m[left].(right := m[x].left)];
    m1[right := m1[right].(left := m1[x].right)]
  }

  lemma TipsIn(m: Mem, l: Spine, t: Tree, r: Spine)
    requires Cut(m, l, t, r) && t.T?
    ensures t.x in m && Tip(l) in m && Tip(r) in m && HEADER in m
    ensures t.x != HEADER && t.x != NULL && Tip(l) != t.x && Tip(r) != t.x && (Tip(l) == Tip(r) ==> Tip(l) == HEADER)
    ensures Tip(l) !in Nodes(t) && Tip(r) !in Nodes(t) && HEADER !in Nodes(t)
    ensures HEADER !in SpineNodes(l) && HEADER !in SpineNodes(r)
    ensures Tip(l) !in SpineNodes(r) && Tip(r) !in SpineNodes(l)
  {
    SpineNotHeader(m, L, l);
    SpineNotHeader(m, R, r);
    NotHeader(m, t);
  }

  lemma CloseHolesShape(m: Mem, l: Spine, t: Tree, r: Spine)
    requires Cut(m, l, t, r) && t.T? && t.x in m && Tip(l) in m && Tip(r) in m
    ensures var m2 := CloseHoles(m, t.x, Tip(l), Tip(r));
            && Shape(m2, Attach(L, l, t.l)) && Shape(m2, Attach(R, r, t.r)) && HEADER in m2
            && m2[HEADER].right == Root(Attach(L, l, t.l)) && m2[HEADER].left == Root(Attach(R, r, t.r))
  {
    TipsIn(m, l, t, r);
    assert Shape(m, t.l) && Shape(m, t.r) && Nodes(t) == Nodes(t.l) + {t.x} + Nodes(t.r);
    hide Shape, SpineShape, Nodes, Distinct, SpineNodes, SpineDistinct, Attach;
    var m2 := CloseHoles(m, t.x, Tip(l), Tip(r));
    SpineFrame(m, m2, L, l);
    SpineFrame(m, m2, R, r);
    ShapeFrame(m, m2, t.l);
    ShapeFrame(m, m2, t.r);
    AttachShape(m2, L, l, t.l);
    AttachShape(m2, R, r, t.r);
  }

  lemma AssembleShape(m: Mem, l: Spine, t: Tree, r: Spine)
    requires Cut(m, l, t, r) && t.T?
    ensures t.x in m && Tip(l) in m && Tip(r) in m && HEADER in m
    ensures Shape(AssembleMem(m, t.x, Tip(l), Tip(r)), Assembled(l, t, r)) && Distinct(Assembled(l, t, r))
  {
    TipsIn(m, l, t, r);
    CloseHolesShape(m, l, t, r);
    AttachNodes(L, l, t.l);
    AttachNodes(R, r, t.r);
    assert t.x !in Nodes(t.l) && t.x !in Nodes(t.r) && Nodes(t.l) !! Nodes(t.r)
           && Nodes(t) == Nodes(t.l) + {t.x} + Nodes(t.r);
    hide Shape, SpineShape, Nodes, Distinct, SpineNodes, SpineDistinct, Attach, Cut;
    var m2 := CloseHoles(m, t.x, Tip(l), Tip(r));
    var m' := AssembleMem(m, t.x, Tip(l), Tip(r));
    ShapeFrame(m2, m', Attach(L, l, t.l));
    ShapeFrame(m2, m', Attach(R, r, t.r));
    CloseT(m', Attach(L, l, t.l), t.x, Attach(R, r, t.r));
  }

  lemma CloseT(m: Mem, l: Tree, x: Ptr, r: Tree)
    requires x != NULL && x != HEADER && x in m && m[x].left == Root(l) && m[x].right == Root(r) && Shape(m, l)
             && Shape(m, r)
    requires Distinct(l) && Distinct(r) && Nodes(l) !! Nodes(r) && x !in Nodes(l) && x !in Nodes(r)
    ensures Shape(m, T(l, x, r)) && Distinct(T(l, x, r))
  {
  }

  lemma {:induction false} AttachNodes(s: Side, sp: Spine, t: Tree)
    ensures Nodes(Attach(s, sp, t)) == SpineNodes(sp) + Nodes(t)
    ensures Distinct(Attach(s, sp, t)) <==> SpineDistinct(sp) && Distinct(t) && SpineNodes(sp) !! Nodes(t)
    decreases sp
  {
    if sp.Link? { AttachNodes(s, sp.up, Mk(s, sp.sub, sp.x, t)); }
  }

  /** Only cells of the given nodes, and the header, were written. */
  ghost predicate OutsideSame(m: Mem, m': Mem, nodes: seq<Ptr>) {
    forall p :: p in m && p !in nodes && p != HEADER ==> p in m' && m'[p] == m[p]
  }

  lemma SameAgain(m: Mem, nodes: seq<Ptr>)
    ensures OutsideSame(m, m, nodes)
  {
  }

  lemma OutsideTrans(m0: Mem, m1: Mem, m2: Mem, nodes: seq<Ptr>)
    requires OutsideSame(m0, m1, nodes) && OutsideSame(m1, m2, nodes)
    ensures OutsideSame(m0, m2, nodes)
  {
  }

  lemma AssembleOutside(m: Mem, l: Spine, t: Tree, r: Spine)
    requires Cut(m, l, t, r) && t.T? && t.x in m && Tip(l) in m && Tip(r) in m
    ensures OutsideSame(m, AssembleMem(m, t.x, Tip(l), Tip(r)), Order(l, t, r))
  {
    OrderHas(l, t, r);
    RootMember(t);
    hide Cut, Order, InOrder;
  }

  lemma CutOutside(m: Mem, s: Side, l: Spine, t: Tree, r: Spine)
    requires t.T?
    ensures var tip := Tip(if s == L then r else l);
            tip in m ==> OutsideSame(m, m[tip := m[tip].SetKid(s, t.x)], Order(l, t, r))
  {
    OrderHas(l, t, r);
    hide Order;
  }

  lemma OrderHas(l: Spine, t: Tree, r: Spine)
    ensures forall p :: p in InOrder(t) ==> p in Order(l, t, r)
    ensures l.Link? ==> l.x in Order(l, t, r)
    ensures r.Link? ==> r.x in Order(l, t, r)
  {
  }

  class Head {
    /** The element's place in the order; cmp compares keys. */
    const key: Ptr -> int
    var mem: Mem
    var root: Ptr

    constructor (key: Ptr -> int)
      ensures this.key == key && root == NULL && mem == map[]
    {
      this.key, root, mem := key, NULL, map[];
    }

    /** Memory holds the search tree t. */
    ghost predicate Holds(t: Tree)
      reads this
    {
      Distinct(t) && Shape(mem, t) && root == Root(t) && Sorted(key, InOrder(t))
    }

    /** In the middle of a splay for k, with parts l and r cut off. */
    ghost predicate Splaying(k: int, l: Spine, t: Tree, r: Spine, order: seq<Ptr>)
      reads this
    {
      && Cut(mem, l, t, r) && t.T? && root == t.x
      && Order(l, t, r) == order && Sorted(key, order) && Around(key, k, l, r)
    }

    /** The rotation of a zig-zig step. */
    method Rotate(s: Side, tmp: Ptr, ghost k: int, ghost l: Spine, ghost t: Tree, ghost r: Spine, ghost order: seq<Ptr>)
      returns (ghost t': Tree)
      requires Splaying(k, l, t, r, order) && Near(s, t).T? && tmp == Near(s, t).x
      modifies this
      ensures Splaying(k, l, t', r, order) && root == tmp && Size(t') == Size(t)
      ensures var y := Near(s, t);
              t' == Mk(s, Near(s, y), y.x, Mk(s, Near(Other(s), y), t.x, Near(Other(s), t)))
      ensures OutsideSame(old(mem), mem, order)
    {
      OrderHas(l, t, r);
      InOrderAs(t);
      InOrderAs(Near(s, t));
      ghost var x, y := t.x, Near(s, t);
      ghost var a, b, d := Near(s, y), Near(Other(s), y), Near(Other(s), t);
      assert t == Mk(s, Mk(s, a, y.x, b), x, d);
      RotateShape(mem, l, s, a, y.x, b, x, d, r);
      t' := Mk(s, a, y.x, Mk(s, b, x, d));
      OpenMk(mem, s, a, y.x, Mk(s, b, x, d));
      hide Cut, InOrder, SpineOrder, Mk, Sorted, Around;
      mem := mem[root := mem[root].SetKid(s, mem[tmp].Kid(Other(s)))];
      mem := mem[tmp := mem[tmp].SetKid(Other(s), root)];
      root := tmp;
    }

    /** Cut the root and its far subtree off; tip is the hole's cell. */
    method CutOff(s: Side, tip: Ptr, ghost k: int, ghost l: Spine, ghost t: Tree, ghost r: Spine, ghost order: seq<Ptr>)
      returns (newTip: Ptr, ghost l': Spine, ghost t': Tree, ghost r': Spine)
      requires Splaying(k, l, t, r, order) && Near(s, t).T? && Beyond(s, k, key(t.x))
      requires tip == Tip(if s == L then r else l)
      modifies this
      ensures Splaying(k, l', t', r', order) && Size(t') < Size(t) && t' == Near(s, t)
      ensures if s == L then r' == Link(t.x, Near(Other(s), t), r) else l' == Link(t.x, Near(Other(s), t), l)
      ensures if s == L then l' == l && newTip == Tip(r') else r' == r && newTip == Tip(l')
      ensures OutsideSame(old(mem), mem, order)
    {
      CutOutside(mem, s, l, t, r);
      ghost var a, d := Near(s, t), Near(Other(s), t);
      assert t == Mk(s, a, t.x, d) && Size(a) < Size(t);
      LinkShape(mem, l, s, a, t.x, d, r);
      LinkKeys(key, k, l, s, a, t.x, d, r);
      hide OutsideSame, Cut, InOrder, SpineOrder, Mk, Sorted, Around, Order;
      t' := a;
      l', r' := if s == L then l else Link(t.x, d, l), if s == L then Link(t.x, d, r) else r;
      mem := mem[tip := mem[tip].SetKid(s, root)];
      newTip := root;
      root := mem[root].Kid(s);
    }

    /** The search for k ends at the root of t. */
    ghost predicate Stopped(k: int, t: Tree)
      requires t.T?
      reads this
    {
      forall s :: Beyond(s, k, key(t.x)) ==> Near(s, t) == Leaf
    }

    /** One turn of the loop, to side s: it stops at the end of the path, or passes one node
        or two. */
    method Turn(s: Side, left: Ptr, right: Ptr, k: int, ghost l: Spine, ghost t: Tree, ghost r: Spine,
                ghost order: seq<Ptr>, ghost path: seq<Ptr>)
      returns (stop: bool, left': Ptr, right': Ptr, ghost l': Spine, ghost t': Tree, ghost r': Spine)
      requires Splaying(k, l, t, r, order) && left == Tip(l) && right == Tip(r)
      requires Halving(key, k, path, l, t, r) && Beyond(s, k, key(t.x))
      modifies this
      ensures Splaying(k, l', t', r', order) && left' == Tip(l') && right' == Tip(r')
      ensures OutsideSame(old(mem), mem, order)
      ensures if stop then Passed(path, l', t', r') && Stopped(k, t')
              else Halving(key, k, path, l', t', r') && Size(t') < Size(t)
    {
      hide InOrder, Sorted, SpineOrder, Order, Cut, OutsideSame, Shape, Around, Halving, Passed, Path;
      stop, left', right', l', t', r' := false, left, right, l, t, r;
      Children(mem, l, t, r);
      var tmp := mem[root].Kid(s);
      SameAgain(mem, order);
      if tmp == NULL {
        PassedEnd(key, k, path, l, t, r);
        stop := true;
        return;
      }
      if Beyond(s, k, key(tmp)) {
        t' := Rotate(s, tmp, k, l, t, r, order);
        Children(mem, l, t', r);
        if mem[root].Kid(s) == NULL {
          PassedRotated(key, k, path, l, t, r, s);
          stop := true;
          return;
        }
        HalvingZigZig(key, k, path, l, t, r, s);
      } else {
        HalvingZig(key, k, path, l, t, r, s);
      }
      ghost var m := mem;
      if s == L {
        right', l', t', r' := CutOff(s, right, k, l, t', r, order);
      } else {
        left', l', t', r' := CutOff(s, left, k, l, t', r, order);
      }
      OutsideTrans(old(mem), m, mem, order);
    }

    /** name##_SPLAY: the same nodes in the same order, with the node for k, or a
        neighbour of where it would be, at the root. */
    method SplayTo(k: int, ghost t0: Tree) returns (ghost t1: Tree)
      requires Holds(t0) && t0.T?
      modifies this
      ensures t1.T? && Holds(t1) && InOrder(t1) == InOrder(t0) && Closest(key, k, t1)
      ensures OutsideSame(old(mem), mem, InOrder(t0))
      ensures var path := Path(key, k, t0);
              forall p :: p in path ==> Within(t1, p, (|path| + 3) / 2)
    {
      hide InOrder, Sorted, Distinct, Nodes, SpineOrder, Order, Cut, OutsideSame, Shape, Around, Halving, Passed, Path,
           Within, Attach, Beside;
      ghost var path := Path(key, k, t0);
      HalvingStarts(key, k, t0);
      mem := mem[HEADER := Cell(NULL, NULL)];
      var left, right := HEADER, HEADER;
      ghost var l, t, r, order := End, t0, End, InOrder(t0);
      Start(mem, old(mem), key, k, t0);
      var stop := false;
      while !stop && k != key(root)
        invariant Splaying(k, l, t, r, order) && left == Tip(l) && right == Tip(r)
        invariant order == InOrder(t0) && OutsideSame(old(mem), mem, order)
        invariant if stop then Passed(path, l, t, r) && Stopped(k, t) else Halving(key, k, path, l, t, r)
        decreases !stop, Size(t)
      {
        ghost var m := mem;
        stop, left, right, l, t, r := Turn(if k < key(root) then L else R, left, right, k, l, t, r, order, path);
        OutsideTrans(old(mem), m, mem, order);
      }
      Children(mem, l, t, r);
      if !stop { PassedEnd(key, k, path, l, t, r); }
      forall p | p in path ensures Within(Assembled(l, t, r), p, (|path| + 3) / 2) { Halved(path, l, t, r, p); }
      AssembleShape(mem, l, t, r);
      AssembledOrder(l, t, r);
      AssembledClosest(key, k, l, t, r);
      AssembleOutside(mem, l, t, r);
      OutsideTrans(old(mem), mem, AssembleMem(mem, t.x, Tip(l), Tip(r)), order);
      t1 := Assembled(l, t, r);
      mem := mem[left := mem[left].(right := mem[root].left)];
      mem := mem[right := mem[right].(left := mem[root].right)];
      mem := mem[root := mem[root].(left := mem[HEADER].right)];
      mem := mem[root := mem[root].(right := mem[HEADER].left)];
    }

    /** SPLAY_INSERT: an equal element is returned and nothing is added; otherwise
        the tree gains exactly elm, at its root. */
    method Insert(elm: Ptr, ghost t0: Tree) returns (r: Ptr, ghost t1: Tree)
      requires Holds(t0) && elm != NULL && elm != HEADER
      modifies this
      ensures Holds(t1)
      ensures r != NULL ==> r in InOrder(t0) && key(r) == key(elm) && InOrder(t1) == InOrder(t0)
      ensures r == NULL ==>
                && (forall y :: y in InOrder(t0) ==> key(y) != key(elm))
                && multiset(InOrder(t1)) == multiset(InOrder(t0)) + multiset{elm}
                && t1.T? && t1.x == elm
    {
      hide InOrder, Sorted, Distinct, Nodes, Shape, OutsideSame, Closest;
      RootShape(mem, t0);
      SingleShape(key, elm);
      if root == NULL {
        mem := mem[elm := Cell(NULL, NULL)];
        t1 := T(Leaf, elm, Leaf);
        SingleIn(mem, elm);
      } else {
        ghost var t := SplayTo(key(elm), t0);
        RootShape(mem, t);
        if key(elm) == key(root) {
          RootMember(t);
          return root, t;
        }
        InsertedOrder(key, t, elm);
        t1 := Inserted(key, t, elm);
        HangAbove(elm, t);
      }
      root := elm;
      r := NULL;
    }

    /** Make elm the parent of the splayed root, with one of its subtrees. */
    method HangAbove(elm: Ptr, ghost t: Tree)
      requires Shape(mem, t) && Distinct(t) && t.T? && root == t.x && elm != NULL && elm != HEADER
      requires forall y :: y in InOrder(t) ==> key(y) != key(elm)
      modifies this`mem
      ensures Shape(mem, Inserted(key, t, elm)) && Distinct(Inserted(key, t, elm))
    {
      InsertedShape(mem, key, t, elm);
      hide InOrder, Distinct, Shape;
      if key(elm) < key(root) {
        mem := mem[elm := Cell(mem[root].left, root)];
        mem := mem[root := mem[root].(left := NULL)];
      } else {
        mem := mem[elm := Cell(root, mem[root].right)];
        mem := mem[root := mem[root].(right := NULL)];
      }
    }

    /** SPLAY_REMOVE: removes the element with elm's key, if there is one. */
    method Remove(elm: Ptr, ghost t0: Tree) returns (r: Ptr, ghost t1: Tree, ghost gone: Ptr)
      requires Holds(t0) && elm != NULL
      modifies this
      ensures Holds(t1)
      ensures r == NULL ==> InOrder(t1) == InOrder(t0) && forall y :: y in InOrder(t0) ==> key(y) != key(elm)
      ensures r != NULL ==>
                && r == elm && gone in InOrder(t0) && key(gone) == key(elm)
                && multiset(InOrder(t0)) == multiset(InOrder(t1)) + multiset{gone}
    {
      hide InOrder, Sorted, Distinct, Nodes, Shape, OutsideSame, Closest;
      RootShape(mem, t0);
      SingleShape(key, elm);
      if root == NULL {
        return NULL, t0, NULL;
      }
      var k := key(elm);
      ghost var t := SplayTo(k, t0);
      RootMember(t);
      Subtrees(mem, key, t);
      gone := root;
      if k != key(root) {
        ClosestMissing(key, k, t);
        return NULL, t, NULL;
      }
      if mem[root].left == NULL {
        root := mem[root].right;
        t1 := t.r;
        JoinedOrder(key, t, t.l, t.r);
        LeafOrder(t.l, t.r);
      } else {
        var tmp := mem[root].right;
        root := mem[root].left;
        ghost var m := mem;
        ghost var u := SplayTo(k, t.l);
        MaxAtRoot(key, k, t, u);
        SplayKeeps(m, mem, t, u);
        RootShape(mem, u);
        JoinShape(mem, mem[root := mem[root].(right := tmp)], u, t.r);
        mem := mem[root := mem[root].(right := tmp)];
        t1 := T(u.l, u.x, t.r);
        JoinedOrder(key, t, u, t.r);
        JoinAs(u, t.r);
      }
      r := elm;
    }
  }

  /** The tree that SPLAY_INSERT builds: the new node over the two halves. */
  ghost function Inserted(key: Ptr -> int, t: Tree, elm: Ptr): Tree
    requires t.T?
  {
    if key(elm) < key(t.x) then T(t.l, elm, T(Leaf, t.x, t.r)) else T(T(t.l, t.x, Leaf), elm, t.r)
  }

  lemma InsertedOrder(key: Ptr -> int, t: Tree, elm: Ptr)
    requires t.T? && Sorted(key, InOrder(t)) && Closest(key, key(elm), t) && key(elm) != key(t.x)
    ensures Sorted(key, InOrder(Inserted(key, t, elm)))
    ensures multiset(InOrder(Inserted(key, t, elm))) == multiset(InOrder(t)) + multiset{elm}
    ensures forall y :: y in InOrder(t) ==> key(y) != key(elm)
  {
    ClosestMissing(key, key(elm), t);
    InOrderAs(t);
    InOrderSplit(t.l, elm, t.x, t.r);
    assert Near(L, t) == t.l && Near(R, t) == t.r;
    assert key(elm) < key(t.x) ==> Beyond(L, key(elm), key(t.x));
    assert key(elm) > key(t.x) ==> Beyond(R, key(elm), key(t.x));
    hide Sorted, AllOn, InOrder;
    if key(elm) < key(t.x) {
      InsertLow(key, InOrder(t.l), t.x, InOrder(t.r), elm);
    } else {
      InsertHigh(key, InOrder(t.l), t.x, InOrder(t.r), elm);
    }
  }

  lemma InsertLow(key: Ptr -> int, l: seq<Ptr>, x: Ptr, r: seq<Ptr>, elm: Ptr)
    requires Sorted(key, l + [x] + r) && AllOn(L, key, l, key(elm)) && key(elm) < key(x)
    ensures Sorted(key, l + [elm] + ([x] + r))
    ensures multiset(l + [elm] + ([x] + r)) == multiset(l + [x] + r) + multiset{elm}
  {
    SortedSplit(key, l, x, r);
    AllOnMore(R, key, r, key(x), key(elm));
    AllOnJoin(R, key, [x], r, key(elm));
    hide Sorted, AllOn;
    assert l + [x] + r == l + ([x] + r);
    InsertSeq(key, l, elm, [x] + r);
  }

  lemma InsertHigh(key: Ptr -> int, l: seq<Ptr>, x: Ptr, r: seq<Ptr>, elm: Ptr)
    requires Sorted(key, l + [x] + r) && AllOn(R, key, r, key(elm)) && key(elm) > key(x)
    ensures Sorted(key, (l + [x]) + [elm] + r)
    ensures multiset((l + [x]) + [elm] + r) == multiset(l + [x] + r) + multiset{elm}
  {
    SortedSplit(key, l, x, r);
    AllOnMore(L, key, l, key(x), key(elm));
    AllOnJoin(L, key, l, [x], key(elm));
    hide Sorted, AllOn;
    InsertSeq(key, l + [x], elm, r);
  }

  lemma AllOnJoin(s: Side, key: Ptr -> int, a: seq<Ptr>, b: seq<Ptr>, k: int)
    requires AllOn(s, key, a, k) || (|a| == 1 && Beyond(Other(s), k, key(a[0])) )
    requires AllOn(s, key, b, k) || (|b| == 1 && Beyond(Other(s), k, key(b[0])) )
    ensures AllOn(s, key, a + b, k)
  {
  }

  lemma SingleShape(key: Ptr -> int, elm: Ptr)
    ensures InOrder(Leaf) == [] && InOrder(T(Leaf, elm, Leaf)) == [elm]
    ensures Sorted(key, [elm]) && Distinct(T(Leaf, elm, Leaf)) && Distinct(Leaf)
    ensures multiset([elm]) == multiset(InOrder(Leaf)) + multiset{elm}
  {
  }

  lemma SingleIn(m: Mem, elm: Ptr)
    requires elm != NULL && elm != HEADER && elm in m && m[elm] == Cell(NULL, NULL)
    ensures Shape(m, T(Leaf, elm, Leaf))
  {
  }

  lemma InOrderAs(t: Tree)
    requires t.T?
    ensures InOrder(t) == InOrder(t.l) + [t.x] + InOrder(t.r)
  {
  }

  lemma InOrderSplit(l: Tree, elm: Ptr, x: Ptr, r: Tree)
    ensures InOrder(T(l, elm, T(Leaf, x, r))) == InOrder(l) + [elm] + ([x] + InOrder(r))
    ensures InOrder(T(T(l, x, Leaf), elm, r)) == (InOrder(l) + [x]) + [elm] + InOrder(r)
  {
    InOrderAs(T(Leaf, x, r));
    InOrderAs(T(l, x, Leaf));
    assert [] + [x] + InOrder(r) == [x] + InOrder(r);
    assert InOrder(l) + [x] + [] == InOrder(l) + [x];
  }

  lemma InsertSeq(key: Ptr -> int, a: seq<Ptr>, x: Ptr, b: seq<Ptr>)
    requires Sorted(key, a + b) && AllOn(L, key, a, key(x)) && AllOn(R, key, b, key(x))
    ensures Sorted(key, a + [x] + b) && multiset(a + [x] + b) == multiset(a + b) + multiset{x}
  {
    SortedSplit(key, a, x, b);
  }

  lemma InsertedShape(m: Mem, key: Ptr -> int, t: Tree, elm: Ptr)
    requires Shape(m, t) && Distinct(t) && t.T? && elm != NULL && elm != HEADER
    requires forall y :: y in InOrder(t) ==> key(y) != key(elm)
    ensures t.x in m && t.x != elm
    ensures var m' := if key(elm) < key(t.x) then m[elm := Cell(m[t.x].left, t.x)][t.x := m[t.x].(left := NULL)]
                      else m[elm := Cell(t.x, m[t.x].right)][t.x := m[t.x].(right := NULL)];
            Shape(m', Inserted(key, t, elm)) && Distinct(Inserted(key, t, elm))
  {
    InOrderAs(t);
    NodesInOrder(t, elm);
    assert elm !in Nodes(t) && t.x in InOrder(t);
    if key(elm) < key(t.x) { HungLow(m, t, elm); } else { HungHigh(m, t, elm); }
    hide InOrder, Shape, Distinct;
  }

  lemma HungLow(m: Mem, t: Tree, elm: Ptr)
    requires Shape(m, t) && Distinct(t) && t.T? && elm != NULL && elm != HEADER && elm !in Nodes(t)
    ensures t.x in m && t.x != elm
    ensures var m' := m[elm := Cell(m[t.x].left, t.x)][t.x := m[t.x].(left := NULL)];
            var u := T(t.l, elm, T(Leaf, t.x, t.r));
            Shape(m', u) && Distinct(u)
  {
    var m' := m[elm := Cell(m[t.x].left, t.x)][t.x := m[t.x].(left := NULL)];
    ShapeFrame(m, m', t.l);
    ShapeFrame(m, m', t.r);
  }

  lemma HungHigh(m: Mem, t: Tree, elm: Ptr)
    requires Shape(m, t) && Distinct(t) && t.T? && elm != NULL && elm != HEADER && elm !in Nodes(t)
    ensures t.x in m && t.x != elm
    ensures var m' := m[elm := Cell(t.x, m[t.x].right)][t.x := m[t.x].(right := NULL)];
            var u := T(T(t.l, t.x, Leaf), elm, t.r);
            Shape(m', u) && Distinct(u)
  {
    var m' := m[elm := Cell(t.x, m[t.x].right)][t.x := m[t.x].(right := NULL)];
    ShapeFrame(m, m', t.l);
    ShapeFrame(m, m', t.r);
  }

  lemma {:induction false} NodesInOrder(t: Tree, x: Ptr)
    ensures x in InOrder(t) <==> x in Nodes(t)
  {
    if t.T? {
      NodesInOrder(t.l, x);
      NodesInOrder(t.r, x);
    }
  }

  lemma RootMember(t: Tree)
    requires t.T?
    ensures t.x in InOrder(t)
  {
  }

  /** The two subtrees of a search tree, on their own. */
  lemma Subtrees(m: Mem, key: Ptr -> int, t: Tree)
    requires Shape(m, t) && Distinct(t) && t.T? && Sorted(key, InOrder(t))
    ensures t.x in m && t.x != NULL && m[t.x].left == Root(t.l) && m[t.x].right == Root(t.r)
    ensures Root(t.l) == NULL <==> t.l == Leaf
    ensures Shape(m, t.l) && Distinct(t.l) && Sorted(key, InOrder(t.l))
    ensures Shape(m, t.r) && Distinct(t.r) && Sorted(key, InOrder(t.r))
  {
    RootShape(m, t.l);
    var q := InOrder(t);
    assert InOrder(t.l) == q[..|InOrder(t.l)|];
    assert InOrder(t.r) == q[|InOrder(t.l)| + 1..];
  }

  /** Splaying the left subtree for the removed key brings up its maximum. */
  lemma MaxAtRoot(key: Ptr -> int, k: int, t: Tree, u: Tree)
    requires t.T? && Sorted(key, InOrder(t)) && k == key(t.x) && InOrder(u) == InOrder(t.l) && Closest(key, k, u)
    ensures u.r == Leaf
  {
    SortedSplit(key, InOrder(t.l), t.x, InOrder(t.r));
    RootMember(u);
    AllOnMember(L, key, InOrder(t.l), k, u.x);
    assert Beyond(R, k, key(u.x)) && Near(R, u) == u.r;
    if u.r.T? {
      RootMember(u.r);
      AllOnMember(R, key, InOrder(u.r), k, u.r.x);
      InOrderAs(u);
      AllOnMember(L, key, InOrder(t.l), k, u.r.x);
      assert false;
    }
  }

  /** The right subtree is untouched by splaying the left one. */
  lemma SplayKeeps(m: Mem, m': Mem, t: Tree, u: Tree)
    requires t.T? && Distinct(t) && Shape(m, t) && InOrder(u) == InOrder(t.l) && OutsideSame(m, m', InOrder(t.l))
    ensures Shape(m', t.r) && Nodes(u) !! Nodes(t.r) && Distinct(t.r)
  {
    NotHeader(m, t.r);
    forall p | p in Nodes(t.r) ensures p !in InOrder(t.l) && p !in Nodes(u) {
      NodesInOrder(t.l, p);
      NodesInOrder(u, p);
    }
    ShapeFrame(m, m', t.r);
  }

  lemma JoinShape(m: Mem, m': Mem, u: Tree, r: Tree)
    requires u.T? && u.r == Leaf && Shape(m, u) && Distinct(u) && Shape(m, r) && Distinct(r) && Nodes(u) !! Nodes(r)
    requires m' == m[u.x := m[u.x].(right := Root(r))]
    ensures Shape(m', T(u.l, u.x, r)) && Distinct(T(u.l, u.x, r))
  {
    assert u.x in Nodes(u);
    ShapeFrame(m, m', u.l);
    ShapeFrame(m, m', r);
  }

  /** Taking the root out and keeping the rest in order. */
  lemma JoinedOrder(key: Ptr -> int, t: Tree, l: Tree, r: Tree)
    requires t.T? && Sorted(key, InOrder(t)) && InOrder(l) == InOrder(t.l) && r == t.r
    ensures Sorted(key, InOrder(l) + InOrder(r))
    ensures multiset(InOrder(t)) == multiset(InOrder(l) + InOrder(r)) + multiset{t.x}
  {
    SortedSplit(key, InOrder(t.l), t.x, InOrder(t.r));
    InOrderAs(t);
  }

  lemma LeafOrder(l: Tree, r: Tree)
    requires l == Leaf
    ensures InOrder(l) + InOrder(r) == InOrder(r)
  {
  }

  lemma JoinAs(u: Tree, r: Tree)
    requires u.T? && u.r == Leaf
    ensures InOrder(T(u.l, u.x, r)) == InOrder(u) + InOrder(r) && u == T(u.l, u.x, Leaf)
  {
    assert InOrder(u) == InOrder(u.l) + [u.x];
  }

  lemma Start(m: Mem, m0: Mem, key: Ptr -> int, k: int, t: Tree)
    requires Shape(m0, t) && Distinct(t) && m == m0[HEADER := Cell(NULL, NULL)]
    ensures Cut(m, End, t, End) && Order(End, t, End) == InOrder(t) && Around(key, k, End, End)
    ensures OutsideSame(m0, m, InOrder(t))
  {
    assert SpineOrder(L, End) == [] == SpineOrder(R, End);
    NotHeader(m0, t);
    hide InOrder, Shape, Distinct, Nodes;
    ShapeFrame(m0, m, t);
    assert [] + InOrder(t) + [] == InOrder(t);
  }

  /** What the loop reads of the middle's root. */
  lemma Children(m: Mem, l: Spine, t: Tree, r: Spine)
    requires Cut(m, l, t, r) && t.T?
    ensures t.x in m && t.x != NULL && t.x != HEADER
    ensures forall s :: m[t.x].Kid(s) == Root(Near(s, t)) && (Root(Near(s, t)) == NULL <==> Near(s, t) == Leaf)
  {
    RootShape(m, t.l);
    RootShape(m, t.r);
  }
}
