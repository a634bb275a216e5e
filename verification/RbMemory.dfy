/** Red-black nodes in memory (sys-tree.h, RB_ENTRY and RB_ROTATE_*): cells with
    left, right and parent pointers and a colour, updated one field at a time.
    The left and right halves of the source are mirror images; a Side parameter
    says which half is running. */
module RbMemory {
  import opened Machine
  import opened SearchTrees
  import opened RedBlack

  datatype Cell = Cell(left: Ptr, right: Ptr, parent: Ptr, red: bool) {
    function Kid(s: Side): Ptr { if s == L then left else right }

    function SetKid(s: Side, n: Ptr): Cell { if s == L then this.(left := n) else this.(right := n) }
  }

  type Mem = map<Ptr, Cell>

  ghost function Root(t: Tree): Ptr { if t == Leaf then NULL else t.x }

  ghost function Above(c: Path): Ptr { if c == Top then NULL else c.x }

  /** Memory holds the tree t, with its root's parent pointer at p. */
  ghost predicate Shape(m: Mem, t: Tree, p: Ptr) {
    match t
    case Leaf => true
    case T(l, x, red, r) =>
      && x != NULL && x in m
      && m[x].left == Root(l) && m[x].right == Root(r) && m[x].parent == p && m[x].red == red
      && Shape(m, l, x) && Shape(m, r, x)
  }

  /** Memory holds everything around a hole that points to n, up to the root. */
  ghost predicate PathShape(m: Mem, root: Ptr, c: Path, n: Ptr) {
    match c
    case Top => root == n
    case Frame(s, x, red, sib, up) =>
      && x != NULL && x in m
      && m[x].Kid(s) == n && m[x].Kid(Other(s)) == Root(sib) && m[x].parent == Above(up) && m[x].red == red
      && Shape(m, sib, x) && PathShape(m, root, up, x)
  }

  /** Memory is the tree Plug(c, t), looked at from the subtree t. */
  ghost predicate At(m: Mem, root: Ptr, c: Path, t: Tree) {
    && PathDistinct(c) && Distinct(t) && PathNodes(c) !! Nodes(t)
    && PathShape(m, root, c, Root(t)) && Shape(m, t, Above(c))
  }

  lemma {:induction false} ShapeFrame(m: Mem, m': Mem, t: Tree, p: Ptr)
    requires Shape(m, t, p) && Agree(m, m', Nodes(t))
    ensures Shape(m', t, p)
  {
    if t.T? {
      ShapeFrame(m, m', t.l, t.x);
      ShapeFrame(m, m', t.r, t.x);
    }
  }

  lemma {:induction false} PathFrame(m: Mem, m': Mem, root: Ptr, c: Path, n: Ptr)
    requires PathShape(m, root, c, n) && Agree(m, m', PathNodes(c))
    ensures PathShape(m', root, c, n)
    decreases c
  {
    if c.Frame? {
      ShapeFrame(m, m', c.sib, c.x);
      PathFrame(m, m', root, c.up, c.x);
    }
  }

  lemma {:induction false} ShapeIn(m: Mem, t: Tree, p: Ptr)
    requires Shape(m, t, p)
    ensures NULL !in Nodes(t) && forall x :: x in Nodes(t) ==> x in m
  {
    if t.T? {
      ShapeIn(m, t.l, t.x);
      ShapeIn(m, t.r, t.x);
    }
  }

  lemma {:induction false} PathIn(m: Mem, root: Ptr, c: Path, n: Ptr)
    requires PathShape(m, root, c, n)
    ensures NULL !in PathNodes(c) && forall x :: x in PathNodes(c) ==> x in m
    decreases c
  {
    if c.Frame? {
      ShapeIn(m, c.sib, c.x);
      PathIn(m, root, c.up, c.x);
    }
  }

  /** Changing only the parent pointer of the root. */
  lemma ShapeReparent(m: Mem, m': Mem, t: Tree, p: Ptr, q: Ptr)
    requires Shape(m, t, p) && Distinct(t) && Agree(m, m', Nodes(t) - {Root(t)})
    requires t.T? ==> t.x in m' && m'[t.x] == m[t.x].(parent := q)
    ensures Shape(m', t, q)
  {
    if t.T? {
      ShapeFrame(m, m', t.l, t.x);
      ShapeFrame(m, m', t.r, t.x);
    }
  }

  lemma OpenMk(m: Mem, s: Side, a: Tree, x: Ptr, red: bool, b: Tree, p: Ptr)
    ensures Shape(m, Mk(s, a, x, red, b), p) <==>
            && x != NULL && x in m
            && m[x].Kid(s) == Root(a) && m[x].Kid(Other(s)) == Root(b) && m[x].parent == p && m[x].red == red
            && Shape(m, a, x) && Shape(m, b, x)
    ensures Root(Mk(s, a, x, red, b)) == x
  {
  }

  /** Memory, and the root pointer, after the pointer that leads into the hole has
      been redirected to n. */
  ghost function RedirectMem(m: Mem, c: Path, n: Ptr): Mem {
    if c.Frame? && c.x in m then m[c.x := m[c.x].SetKid(c.s, n)] else m
  }

  ghost function RedirectRoot(root: Ptr, c: Path, n: Ptr): Ptr { if c == Top then n else root }

  lemma PathRedirect(m: Mem, root: Ptr, m': Mem, c: Path, o: Ptr, n: Ptr)
    requires PathDistinct(c) && PathShape(m, root, c, o)
    requires Agree(RedirectMem(m, c, n), m', PathNodes(c))
    ensures PathShape(m', RedirectRoot(root, c, n), c, n)
  {
    if c.Frame? {
      ShapeFrame(m, m', c.sib, c.x);
      PathFrame(m, m', root, c.up, c.x);
    }
  }

  /** Which child of its parent a node is can be told from the left pointer. */
  lemma SideOf(m: Mem, root: Ptr, c: Path, n: Ptr)
    requires PathShape(m, root, c, n) && n != NULL && n !in PathNodes(c)
    ensures c.Frame? ==> (m[c.x].left == n <==> c.s == L)
  {
  }

  class Head {
    /** The element's place in the order; cmp compares keys. */
    const key: Ptr -> int
    var mem: Mem
    var root: Ptr

    constructor (key: Ptr -> int)
      ensures this.key == key && mem == map[] && root == NULL
    {
      this.key, mem, root := key, map[], NULL;
    }

    /** Redirect the pointer that leads to elm, in its parent p or in the head. */
    method Redirect(p: Ptr, elm: Ptr, n: Ptr, ghost c: Path)
      requires p == Above(c) && elm != NULL && elm !in PathNodes(c) && PathShape(mem, root, c, elm)
      modifies this
      ensures mem == RedirectMem(old(mem), c, n) && root == RedirectRoot(old(root), c, n)
    {
      SideOf(mem, root, c, elm);
      if p != NULL {
        if mem[p].left == elm {
          mem := mem[p := mem[p].(left := n)];
        } else {
          mem := mem[p := mem[p].(right := n)];
        }
      } else {
        root := n;
      }
    }

    /** RB_ROTATE_LEFT for s == L, RB_ROTATE_RIGHT for s == R: elm goes down on
        side s and its other child comes up. */
    method Rotate(s: Side, elm: Ptr, ghost c: Path, ghost a: Tree, ghost ce: bool,
                  ghost b: Tree, ghost y: Ptr, ghost cy: bool, ghost d: Tree) returns (tmp: Ptr)
      requires At(mem, root, c, Mk(s, a, elm, ce, Mk(s, b, y, cy, d)))
      modifies this
      ensures tmp == y
      ensures At(mem, root, c, Mk(s, Mk(s, a, elm, ce, b), y, cy, d))
    {
      hide Shape, PathShape, Distinct, PathDistinct, Nodes, PathNodes, Mk;
      ghost var m, r := mem, root;
      Parts(s, a, elm, ce, b, y, cy, d);
      OpenMk(m, s, a, elm, ce, Mk(s, b, y, cy, d), Above(c));
      OpenMk(m, s, b, y, cy, d, elm);
      RootIn(m, b, y);
      AboveIn(m, r, c, elm);
      tmp := mem[elm].Kid(Other(s));
      var mid := mem[tmp].Kid(s);
      assert elm != mid && y != mid && elm != y;
      mem := mem[elm := mem[elm].SetKid(Other(s), mid)];
      if mid != NULL {
        mem := mem[mid := mem[mid].(parent := elm)];
      }
      mem := mem[tmp := mem[tmp].(parent := mem[elm].parent)];
      PathFrame(m, mem, r, c, elm);
      Redirect(mem[elm].parent, elm, tmp, c);
      mem := mem[tmp := mem[tmp].SetKid(s, elm)];
      mem := mem[elm := mem[elm].(parent := tmp)];
      RotateCells(m, s, elm, y, mid, c);
      RotateShape(m, r, mem, s, elm, c, a, ce, b, y, cy, d);
    }
  }

  /** The writes of a rotation up to the redirection. */
  ghost function RotateInner(m: Mem, s: Side, elm: Ptr, y: Ptr, mid: Ptr): Mem
    requires elm in m && y in m && (mid != NULL ==> mid in m)
  {
    var m1 := m[elm := m[elm].SetKid(Other(s), mid)];
    var m2 := if mid != NULL then m1[mid := m1[mid].(parent := elm)] else m1;
    m2[y := m2[y].(parent := m2[elm].parent)]
  }

  ghost function RotateOuter(m: Mem, s: Side, elm: Ptr, y: Ptr): Mem
    requires elm in m && y in m
  {
    var m1 := m[y := m[y].SetKid(s, elm)];
    m1[elm := m1[elm].(parent := y)]
  }

  /** What all the writes of a rotation come to. */
  lemma RotateCells(m: Mem, s: Side, elm: Ptr, y: Ptr, mid: Ptr, c: Path)
    requires elm in m && y in m && (mid != NULL ==> mid in m)
    requires elm != y && elm != mid && y != mid
    requires c.Frame? ==> c.x in m && c.x != elm && c.x != y && c.x != mid
    ensures var m' := RotateOuter(RedirectMem(RotateInner(m, s, elm, y, mid), c, y), s, elm, y);
            && elm in m' && m'[elm] == m[elm].SetKid(Other(s), mid).(parent := y)
            && y in m' && m'[y] == m[y].SetKid(s, elm).(parent := m[elm].parent)
            && (mid != NULL ==> mid in m' && m'[mid] == m[mid].(parent := elm))
            && Agree(RedirectMem(m, c, y), m', m.Keys - {elm, y, mid})
  {
  }

  lemma RootIn(m: Mem, t: Tree, p: Ptr)
    requires Shape(m, t, p)
    ensures Root(t) == NULL <==> t == Leaf
    ensures t != Leaf ==> Root(t) in Nodes(t) && Root(t) in m && m[Root(t)].red == t.red && m[Root(t)].parent == p
  {
  }

  lemma AboveIn(m: Mem, root: Ptr, c: Path, n: Ptr)
    requires PathShape(m, root, c, n)
    ensures Above(c) == NULL <==> c == Top
    ensures c != Top ==> Above(c) in PathNodes(c) && Above(c) in m && m[Above(c)].red == c.red
  {
  }

  lemma RotateShape(m: Mem, r: Ptr, m': Mem, s: Side, elm: Ptr, c: Path,
                    a: Tree, ce: bool, b: Tree, y: Ptr, cy: bool, d: Tree)
    requires At(m, r, c, Mk(s, a, elm, ce, Mk(s, b, y, cy, d)))
    requires elm in m && y in m && elm in m' && y in m'
    requires m'[elm] == m[elm].SetKid(Other(s), Root(b)).(parent := y)
    requires m'[y] == m[y].SetKid(s, elm).(parent := Above(c))
    requires b != Leaf ==> b.x in m && b.x in m' && m'[b.x] == m[b.x].(parent := elm)
    requires Agree(RedirectMem(m, c, y), m', m.Keys - {elm, y, Root(b)})
    ensures At(m', RedirectRoot(r, c, y), c, Mk(s, Mk(s, a, elm, ce, b), y, cy, d))
  {
    hide Shape, PathShape, Distinct, PathDistinct, Nodes, PathNodes, Mk;
    Parts(s, a, elm, ce, b, y, cy, d);
    OpenMk(m, s, a, elm, ce, Mk(s, b, y, cy, d), Above(c));
    OpenMk(m, s, b, y, cy, d, elm);
    RootIn(m, b, y);
    AboveIn(m, r, c, elm);
    ShapeIn(m, a, elm);
    ShapeIn(m, b, y);
    ShapeIn(m, d, y);
    ShapeFrame(m, m', a, elm);
    ShapeFrame(m, m', d, y);
    ShapeReparent(m, m', b, y, elm);
    PathIn(m, r, c, elm);
    PathRedirect(m, r, m', c, elm, y);
    OpenMk(m', s, a, elm, ce, b, y);
    OpenMk(m', s, Mk(s, a, elm, ce, b), y, cy, d, Above(c));
  }

  lemma Flip(s: Side, a: Tree, x: Ptr, red: bool, b: Tree)
    ensures Mk(s, a, x, red, b) == Mk(Other(s), b, x, red, a) && Other(Other(s)) == s
  {
  }

  /** Looking at the same memory from a node or from its child on side s. */
  lemma Refocus(m: Mem, root: Ptr, s: Side, t: Tree, x: Ptr, red: bool, sib: Tree, up: Path)
    ensures At(m, root, Frame(s, x, red, sib, up), t) <==> At(m, root, up, Mk(s, t, x, red, sib))
  {
    hide Shape, PathShape, Distinct, PathDistinct, Nodes, PathNodes, Mk;
    OpenMk(m, s, t, x, red, sib, Above(up));
    NodesMk(s, t, x, red, sib);
    FrameNodes(s, x, red, sib, up);
    OpenFrame(m, root, s, x, red, sib, up, Root(t));
  }

  lemma FrameNodes(s: Side, x: Ptr, red: bool, sib: Tree, up: Path)
    ensures PathNodes(Frame(s, x, red, sib, up)) == {x} + Nodes(sib) + PathNodes(up)
    ensures PathDistinct(Frame(s, x, red, sib, up)) <==>
            Distinct(sib) && PathDistinct(up) && Nodes(sib) !! PathNodes(up) && x !in Nodes(sib) && x !in PathNodes(up)
  {
  }

  lemma OpenFrame(m: Mem, root: Ptr, s: Side, x: Ptr, red: bool, sib: Tree, up: Path, n: Ptr)
    ensures PathShape(m, root, Frame(s, x, red, sib, up), n) <==>
            && x != NULL && x in m
            && m[x].Kid(s) == n && m[x].Kid(Other(s)) == Root(sib) && m[x].parent == Above(up) && m[x].red == red
            && Shape(m, sib, x) && PathShape(m, root, up, x)
  {
  }

  function Paint(m: Mem, x: Ptr, red: bool): Mem
    requires x in m
  {
    m[x := m[x].(red := red)]
  }

  /** Painting the node looked at. */
  lemma PaintAt(m: Mem, root: Ptr, c: Path, s: Side, a: Tree, x: Ptr, was: bool, b: Tree, red: bool)
    requires At(m, root, c, Mk(s, a, x, was, b))
    ensures x in m && At(Paint(m, x, red), root, c, Mk(s, a, x, red, b))
  {
    hide Shape, PathShape, Distinct, PathDistinct, Nodes, PathNodes, Mk;
    OpenMk(m, s, a, x, was, b, Above(c));
    NodesMk(s, a, x, was, b);
    NodesMk(s, a, x, red, b);
    var m' := Paint(m, x, red);
    ShapeFrame(m, m', a, x);
    ShapeFrame(m, m', b, x);
    PathFrame(m, m', root, c, x);
    OpenMk(m', s, a, x, red, b, Above(c));
  }

  /** Painting a child of the node looked at. */
  lemma PaintChild(m: Mem, root: Ptr, c: Path, s: Side, k: Side, a: Tree, x: Ptr, was: bool, b: Tree,
                   y: Ptr, cy: bool, d: Tree, red: bool)
    requires At(m, root, c, Mk(s, Mk(k, a, x, was, b), y, cy, d))
    ensures x in m && At(Paint(m, x, red), root, c, Mk(s, Mk(k, a, x, red, b), y, cy, d))
  {
    hide At, Mk;
    Refocus(m, root, s, Mk(k, a, x, was, b), y, cy, d, c);
    PaintAt(m, root, Frame(s, y, cy, d, c), k, a, x, was, b, red);
    Refocus(Paint(m, x, red), root, s, Mk(k, a, x, red, b), y, cy, d, c);
  }
}
