/** RB_INSERT_COLOR and RB_INSERT (sys-tree.h). */
module RbInsert {
  import opened Machine
  import opened SearchTrees
  import opened RedBlack
  import opened RbMemory

  ghost function Depth(c: Path): nat { if c == Top then 0 else 1 + Depth(c.up) }

  ghost function Order(c: Path, t: Tree): seq<Ptr> { Before(c) + InOrder(t) + After(c) }

  /** The tree is right except that the red node elm may have a red parent. */
  ghost predicate RedAt(m: Mem, root: Ptr, elm: Ptr, c: Path, t: Tree, order: seq<Ptr>) {
    && At(m, root, c, t)
    && t.T? && t.x == elm && t.red && Balanced(t) && PathOk(c, BlackHeight(t))
    && Order(c, t) == order
  }

  // ---------------------------------------------------------- the tree side

  /** Going up one frame leaves the order alone. */
  lemma OrderUp(s: Side, t: Tree, x: Ptr, red: bool, sib: Tree, up: Path)
    ensures Order(Frame(s, x, red, sib, up), t) == Order(up, Mk(s, t, x, red, sib))
  {
    if s == L {
      Regroup(Before(up), InOrder(t), [x], InOrder(sib), After(up));
    } else {
      Regroup(Before(up), InOrder(sib), [x], InOrder(t), After(up));
    }
  }

  lemma OrderRecolour(s: Side, a: Tree, x: Ptr, red: bool, red': bool, b: Tree)
    ensures InOrder(Mk(s, a, x, red, b)) == InOrder(Mk(s, a, x, red', b))
  {
  }

  /** Red uncle: recolour and go on from the grandparent. */
  lemma RecolourTree(t: Tree, ps: Side, p: Ptr, sib: Tree, g: Side, gp: Ptr, k: Side, ua: Tree, u: Ptr, ub: Tree,
                     up: Path)
    requires IsRed(t) && Balanced(t)
    requires PathOk(Frame(ps, p, true, sib, Frame(g, gp, false, Mk(k, ua, u, true, ub), up)), BlackHeight(t))
    ensures var t' := Mk(g, Mk(ps, t, p, false, sib), gp, true, Mk(k, ua, u, false, ub));
            && Balanced(t') && PathOk(up, BlackHeight(t'))
            && Order(up, t') == Order(Frame(ps, p, true, sib, Frame(g, gp, false, Mk(k, ua, u, true, ub), up)), t)
  {
    var uncle := Mk(k, ua, u, true, ub);
    OrderUp(ps, t, p, true, sib, Frame(g, gp, false, uncle, up));
    OrderUp(g, Mk(ps, t, p, true, sib), gp, false, uncle, up);
    OrderRecolour(ps, t, p, true, false, sib);
    OrderRecolour(k, ua, u, true, false, ub);
  }

  /** Black uncle, elm on the outer side: the rotated tree is in order everywhere. */
  lemma RotatedTree(e: Tree, g: Side, p: Ptr, inner: Tree, gp: Ptr, uncle: Tree, up: Path)
    requires IsRed(e) && Balanced(e) && !IsRed(uncle)
    requires PathOk(Frame(g, p, true, inner, Frame(g, gp, false, uncle, up)), BlackHeight(e))
    ensures var c' := Frame(g, p, false, Mk(Other(g), uncle, gp, true, inner), up);
            && PathOk(c', BlackHeight(e))
            && Order(c', e) == Order(Frame(g, p, true, inner, Frame(g, gp, false, uncle, up)), e)
  {
    var s := Other(g);
    OrderUp(g, e, p, true, inner, Frame(g, gp, false, uncle, up));
    OrderUp(g, Mk(g, e, p, true, inner), gp, false, uncle, up);
    OrderUp(g, e, p, false, Mk(s, uncle, gp, true, inner), up);
    RotateInOrder(s, uncle, gp, true, inner, p, false, e);
    OrderRecolour(g, e, p, true, false, inner);
    OrderRecolour(g, Mk(g, e, p, true, inner), gp, false, true, uncle);
  }

  /** Black uncle, elm on the inner side: the first rotation brings the outer case. */
  lemma InnerTree(g: Side, sib: Tree, p: Ptr, b: Tree, elm: Ptr, d: Tree, up: Path)
    requires Balanced(Mk(g, b, elm, true, d))
    requires PathOk(Frame(Other(g), p, true, sib, up), BlackHeight(Mk(g, b, elm, true, d)))
    ensures var e, c' := Mk(g, sib, p, true, b), Frame(g, elm, true, d, up);
            && Balanced(e) && IsRed(e) && PathOk(c', BlackHeight(e))
            && Order(c', e) == Order(Frame(Other(g), p, true, sib, up), Mk(g, b, elm, true, d))
  {
    var t := Mk(g, b, elm, true, d);
    OrderUp(Other(g), t, p, true, sib, up);
    OrderUp(g, Mk(g, sib, p, true, b), elm, true, d, up);
    Flip(g, sib, p, true, t);
    RotateInOrder(g, sib, p, true, b, elm, true, d);
  }

  // ---------------------------------------------------------- in memory

  lemma RedParent(m: Mem, root: Ptr, elm: Ptr, c: Path, t: Tree, order: seq<Ptr>)
    requires RedAt(m, root, elm, c, t, order)
    ensures elm in m && m[elm].parent == Above(c)
    ensures m[elm].parent == NULL <==> c == Top
    ensures c.Frame? ==> c.x in m && m[c.x].red == c.red
  {
    RootIn(m, t, Above(c));
    AboveIn(m, root, c, elm);
  }

  /** What the code reads around a red parent. */
  lemma Around(m: Mem, root: Ptr, elm: Ptr, c: Path, t: Tree, order: seq<Ptr>)
    requires RedAt(m, root, elm, c, t, order) && c.Frame? && c.red
    ensures BlackAbove(c.up)
    ensures elm in m && c.x in m && m[elm].parent == c.x && m[c.x].parent == c.up.x
    ensures c.up.x in m && (m[c.up.x].left == c.x <==> c.up.s == L)
    ensures m[c.up.x].Kid(Other(c.up.s)) == Root(c.up.sib)
    ensures Root(c.up.sib) == NULL <==> c.up.sib == Leaf
    ensures c.up.sib.T? ==> c.up.sib.x in m && m[c.up.sib.x].red == c.up.sib.red
    ensures m[c.x].Kid(Other(c.up.s)) == elm <==> c.s != c.up.s
  {
    RootIn(m, t, Above(c));
    assert PathShape(m, root, c.up, c.x);
    RootIn(m, c.up.sib, c.up.x);
    RootIn(m, c.sib, c.x);
    SideOf(m, root, c.up, c.x);
    SideOf(m, root, c, elm);
  }

  /** The red-uncle step. */
  method Recolour(h: Head, elm: Ptr, parent: Ptr, gparent: Ptr, tmp: Ptr, ghost c: Path, ghost t: Tree,
                  ghost order: seq<Ptr>)
    returns (ghost c': Path, ghost t': Tree)
    requires RedAt(h.mem, h.root, elm, c, t, order) && c.Frame? && c.red && BlackAbove(c.up) && IsRed(c.up.sib)
    requires parent == c.x && gparent == c.up.x && tmp == c.up.sib.x
    modifies h
    ensures RedAt(h.mem, h.root, gparent, c', t', order) && Depth(c') < Depth(c)
  {
    hide At, Mk, PathOk, Balanced, BlackHeight, InOrder, Before, After;
    ghost var m, r, g, up := h.mem, h.root, c.up.s, c.up.up;
    ghost var uncle := c.up.sib;
    AsMk(uncle);
    AsMk(t);
    Refocus(m, r, c.s, t, parent, true, c.sib, c.up);
    Refocus(m, r, g, Mk(c.s, t, parent, true, c.sib), gparent, false, uncle, up);
    Flip(g, Mk(c.s, t, parent, true, c.sib), gparent, false, uncle);
    PaintChild(m, r, up, Other(g), L, uncle.l, tmp, true, uncle.r, gparent, false, Mk(c.s, t, parent, true, c.sib),
               false);
    h.mem := Paint(h.mem, tmp, false);
    ghost var dark := Mk(L, uncle.l, tmp, false, uncle.r);
    Flip(Other(g), dark, gparent, false, Mk(c.s, t, parent, true, c.sib));
    PaintChild(h.mem, r, up, g, c.s, t, parent, true, c.sib, gparent, false, dark, false);
    h.mem := Paint(h.mem, parent, false);
    PaintAt(h.mem, r, up, g, Mk(c.s, t, parent, false, c.sib), gparent, false, dark, true);
    h.mem := Paint(h.mem, gparent, true);
    c', t' := up, Mk(g, Mk(c.s, t, parent, false, c.sib), gparent, true, dark);
    RecolourTree(t, c.s, parent, c.sib, g, gparent, L, uncle.l, tmp, uncle.r, up);
    RootMk(g, Mk(c.s, t, parent, false, c.sib), gparent, true, dark);
  }

  lemma AsMk(t: Tree)
    ensures t.T? ==> t == Mk(L, t.l, t.x, t.red, t.r)
  {
  }

  lemma RootMk(s: Side, a: Tree, x: Ptr, red: bool, b: Tree)
    ensures var t := Mk(s, a, x, red, b); t.T? && t.x == x && t.red == red
  {
  }

  /** The black-uncle step with elm on the outer side g: paint and rotate the
      grandparent. */
  method RotateUp(h: Head, elm: Ptr, parent: Ptr, gparent: Ptr, g: Side, ghost c: Path, ghost t: Tree,
                  ghost order: seq<Ptr>)
    returns (ghost c': Path)
    requires RedAt(h.mem, h.root, elm, c, t, order) && c.Frame? && c.red && BlackAbove(c.up) && !IsRed(c.up.sib)
    requires c.s == g == c.up.s && parent == c.x && gparent == c.up.x
    modifies h
    ensures RedAt(h.mem, h.root, elm, c', t, order) && Depth(c') < Depth(c) && BlackAbove(c')
  {
    hide At, Mk, PathOk, Balanced, BlackHeight, InOrder, Before, After;
    ghost var r, up, uncle, inner := h.root, c.up.up, c.up.sib, c.sib;
    Refocus(h.mem, r, g, t, parent, true, inner, c.up);
    Refocus(h.mem, r, g, Mk(g, t, parent, true, inner), gparent, false, uncle, up);
    PaintChild(h.mem, r, up, g, g, t, parent, true, inner, gparent, false, uncle, false);
    h.mem := Paint(h.mem, parent, false);
    PaintAt(h.mem, r, up, g, Mk(g, t, parent, false, inner), gparent, false, uncle, true);
    h.mem := Paint(h.mem, gparent, true);
    Flip(g, t, parent, false, inner);
    Flip(g, Mk(g, t, parent, false, inner), gparent, true, uncle);
    var tmp := h.Rotate(Other(g), gparent, up, uncle, true, inner, parent, false, t);
    ghost var low := Mk(Other(g), uncle, gparent, true, inner);
    Flip(Other(g), low, parent, false, t);
    c' := Frame(g, parent, false, low, up);
    Refocus(h.mem, h.root, g, t, parent, false, low, up);
    RotatedTree(t, g, parent, inner, gparent, uncle, up);
  }

  /** The black-uncle step with elm on the inner side: rotate the parent first;
      parent and elm then change places. */
  method RotateInner(h: Head, elm: Ptr, parent: Ptr, g: Side, ghost c: Path, ghost t: Tree, ghost order: seq<Ptr>)
    returns (ghost c': Path, ghost t': Tree)
    requires RedAt(h.mem, h.root, elm, c, t, order) && c.Frame? && c.red && BlackAbove(c.up)
    requires c.s == Other(g) && g == c.up.s && parent == c.x
    modifies h
    ensures RedAt(h.mem, h.root, parent, c', t', order)
    ensures c'.Frame? && c'.red && c'.s == g && c'.x == elm && c'.up == c.up && Depth(c') == Depth(c)
  {
    hide At, Mk, PathOk, Balanced, BlackHeight, InOrder, Before, After;
    ghost var b, d := if g == L then t.l else t.r, if g == L then t.r else t.l;
    AsSide(g, t);
    Refocus(h.mem, h.root, c.s, t, parent, true, c.sib, c.up);
    Flip(g, c.sib, parent, true, t);
    var tmp := h.Rotate(g, parent, c.up, c.sib, true, b, elm, true, d);
    c', t' := Frame(g, elm, true, d, c.up), Mk(g, c.sib, parent, true, b);
    Refocus(h.mem, h.root, g, t', elm, true, d, c.up);
    InnerTree(g, c.sib, parent, b, elm, d, c.up);
    RootMk(g, c.sib, parent, true, b);
  }

  lemma AsSide(s: Side, t: Tree)
    ensures t.T? ==> t == if s == L then Mk(s, t.l, t.x, t.red, t.r) else Mk(s, t.r, t.x, t.red, t.l)
  {
  }

  /** RB_INSERT_COLOR. */
  method InsertColor(h: Head, elm0: Ptr, ghost c0: Path, ghost t0: Tree, ghost order: seq<Ptr>)
                     returns (ghost tree: Tree)
    requires RedAt(h.mem, h.root, elm0, c0, t0, order)
    modifies h
    ensures At(h.mem, h.root, Top, tree) && RbTree(tree) && InOrder(tree) == order
  {
    hide At, Mk, PathOk, Balanced, BlackHeight, InOrder, Before, After, Order;
    ghost var c, t := c0, t0;
    var elm := elm0;
    RedParent(h.mem, h.root, elm, c, t, order);
    while h.mem[elm].parent != NULL && h.mem[h.mem[elm].parent].red
      invariant RedAt(h.mem, h.root, elm, c, t, order)
      invariant elm in h.mem && h.mem[elm].parent == Above(c)
      invariant h.mem[elm].parent == NULL <==> c == Top
      invariant c.Frame? ==> c.x in h.mem && h.mem[c.x].red == c.red
      decreases Depth(c)
    {
      Around(h.mem, h.root, elm, c, t, order);
      var parent := h.mem[elm].parent;
      var gparent := h.mem[parent].parent;
      var g := if parent == h.mem[gparent].left then L else R;
      var tmp := h.mem[gparent].Kid(Other(g));
      if tmp != NULL && h.mem[tmp].red {
        c, t := Recolour(h, elm, parent, gparent, tmp, c, t, order);
        elm := gparent;
      } else {
        if h.mem[parent].Kid(Other(g)) == elm {
          c, t := RotateInner(h, elm, parent, g, c, t, order);
          parent, elm := elm, parent;
        }
        c := RotateUp(h, elm, parent, gparent, g, c, t, order);
      }
      RedParent(h.mem, h.root, elm, c, t, order);
    }
    tree := BlackenRoot(h, elm, c, t, order);
  }

  /** The last line: the root is painted black. */
  method BlackenRoot(h: Head, elm: Ptr, ghost c: Path, ghost t: Tree, ghost order: seq<Ptr>) returns (ghost tree: Tree)
    requires RedAt(h.mem, h.root, elm, c, t, order) && (c.Frame? ==> !c.red)
    modifies h
    ensures At(h.mem, h.root, Top, tree) && RbTree(tree) && InOrder(tree) == order
  {
    AtRoot(h.mem, h.root, c, t);
    ghost var whole := Plug(c, t);
    InOrderPlug(c, t);
    AsMk(whole);
    RootIn(h.mem, whole, NULL);
    PaintAt(h.mem, h.root, Top, L, whole.l, whole.x, whole.red, whole.r, false);
    h.mem := Paint(h.mem, h.root, false);
    tree := Mk(L, whole.l, whole.x, false, whole.r);
    if c.Frame? { PlugOk(c, t); }
  }

  /** The whole tree, seen from the root. */
  lemma {:induction false} AtRoot(m: Mem, root: Ptr, c: Path, t: Tree)
    requires At(m, root, c, t)
    ensures At(m, root, Top, Plug(c, t))
    ensures t.T? ==> Plug(c, t).T?
    decreases c
  {
    if c.Frame? {
      Refocus(m, root, c.s, t, c.x, c.red, c.sib, c.up);
      AtRoot(m, root, c.up, Mk(c.s, t, c.x, c.red, c.sib));
    }
  }

  // ---------------------------------------------------------- RB_INSERT

  /** Memory holds the red-black search tree `tree`. */
  ghost predicate Holds(h: Head, tree: Tree)
    reads h
  {
    At(h.mem, h.root, Top, tree) && RbTree(tree) && Sorted(h.key, InOrder(tree))
  }

  /** The search for k has come to subtree t: everything before the hole is
      smaller, everything after it larger. */
  ghost predicate Searching(h: Head, c: Path, t: Tree, k: int, order: seq<Ptr>)
    reads h
  {
    && At(h.mem, h.root, c, t) && Balanced(t) && PathOk(c, BlackHeight(t)) && (IsRed(t) ==> BlackAbove(c))
    && Order(c, t) == order && AllOn(L, h.key, Before(c), k) && AllOn(R, h.key, After(c), k)
  }

  /** One step of the search, down the side of k. */
  lemma SearchStep(h: Head, c: Path, t: Tree, k: int, order: seq<Ptr>)
    requires Searching(h, c, t, k, order) && t.T? && Sorted(h.key, order) && k != h.key(t.x)
    ensures k < h.key(t.x) ==> Searching(h, Frame(L, t.x, t.red, t.r, c), t.l, k, order)
    ensures k > h.key(t.x) ==> Searching(h, Frame(R, t.x, t.red, t.l, c), t.r, k, order)
  {
    hide At, Sorted, AllOn;
    Refocus(h.mem, h.root, L, t.l, t.x, t.red, t.r, c);
    Refocus(h.mem, h.root, R, t.r, t.x, t.red, t.l, c);
    OrderUp(L, t.l, t.x, t.red, t.r, c);
    OrderUp(R, t.r, t.x, t.red, t.l, c);
    SearchKeys(h.key, Before(c), InOrder(t.l), t.x, InOrder(t.r), After(c), k);
  }

  lemma SearchKeys(key: Ptr -> int, a: seq<Ptr>, l: seq<Ptr>, x: Ptr, r: seq<Ptr>, b: seq<Ptr>, k: int)
    requires Sorted(key, a + (l + [x] + r) + b) && AllOn(L, key, a, k) && AllOn(R, key, b, k)
    ensures k < key(x) ==> AllOn(R, key, ([x] + r) + b, k)
    ensures k > key(x) ==> AllOn(L, key, a + (l + [x]), k)
  {
    assert a + (l + [x] + r) + b == (a + l) + [x] + (r + b);
    SortedSplit(key, a + l, x, r + b);
    assert ([x] + r) + b == [x] + (r + b) && a + (l + [x]) == (a + l) + [x];
  }

  /** Hanging a fresh red leaf into the hole. */
  lemma LinkShape(m: Mem, root: Ptr, c: Path, elm: Ptr)
    requires At(m, root, c, Leaf) && elm != NULL && elm !in PathNodes(c)
    ensures var m' := RedirectMem(m[elm := Cell(NULL, NULL, Above(c), true)], c, elm);
            At(m', RedirectRoot(root, c, elm), c, T(Leaf, elm, true, Leaf))
  {
    var m1 := m[elm := Cell(NULL, NULL, Above(c), true)];
    PathFrame(m, m1, root, c, NULL);
    var m' := RedirectMem(m1, c, elm);
    AboveIn(m, root, c, NULL);
    PathRedirect(m1, root, m', c, NULL, elm);
  }

  lemma {:induction false} PathInOrder(c: Path, x: Ptr)
    ensures x in PathNodes(c) <==> x in Before(c) || x in After(c)
    decreases c
  {
    if c.Frame? {
      PathInOrder(c.up, x);
      InOrderNodes(c.sib, x);
    }
  }

  /** RB_INSERT: an equal element stops the insertion and is returned; otherwise
      the tree gains exactly elm. */
  method Insert(h: Head, elm: Ptr, ghost tree: Tree) returns (r: Ptr, ghost tree': Tree)
    requires Holds(h, tree) && elm != NULL
    modifies h
    ensures Holds(h, tree')
    ensures r != NULL ==>
              r in Nodes(tree) && h.key(r) == h.key(elm) && tree' == tree && h.mem == old(h.mem)
              && h.root == old(h.root)
    ensures r == NULL ==>
              && (forall x :: x in Nodes(tree) ==> h.key(x) != h.key(elm))
              && multiset(InOrder(tree')) == multiset(InOrder(tree)) + multiset{elm}
  {
    hide At, PathOk, Balanced, BlackHeight, InOrder, Before, After, Nodes, PathNodes;
    ghost var order, c, t := InOrder(tree), Top, tree;
    var k := h.key(elm);
    var parent, tmp, less := NULL, h.root, false;
    SearchStart(h, tree, k);
    while tmp != NULL
      invariant Searching(h, c, t, k, order) && tmp == Root(t) && parent == Above(c)
      invariant h.mem == old(h.mem) && h.root == old(h.root)
      invariant parent == NULL <==> c == Top
      invariant c.Frame? ==> less == (c.s == L)
      decreases t
    {
      AtNode(h.mem, h.root, c, t);
      parent := tmp;
      if k < h.key(tmp) {
        less := true;
        SearchStep(h, c, t, k, order);
        c, t := Frame(L, t.x, t.red, t.r, c), t.l;
        tmp := h.mem[tmp].left;
      } else if k > h.key(tmp) {
        less := false;
        SearchStep(h, c, t, k, order);
        c, t := Frame(R, t.x, t.red, t.l, c), t.r;
        tmp := h.mem[tmp].right;
      } else {
        FoundNode(tree, c, t, order);
        return tmp, tree;
      }
    }
    AtNode(h.mem, h.root, c, t);
    Missing(h, tree, c, k, order);
    LinkShape(h.mem, h.root, c, elm);
    h.mem := h.mem[elm := Cell(NULL, NULL, parent, true)];
    if parent != NULL {
      if less {
        h.mem := h.mem[parent := h.mem[parent].(left := elm)];
      } else {
        h.mem := h.mem[parent := h.mem[parent].(right := elm)];
      }
    } else {
      h.root := elm;
    }
    ghost var leaf := T(Leaf, elm, true, Leaf);
    NewLeaf(h.key, c, elm, order);
    tree' := InsertColor(h, elm, c, leaf, Order(c, leaf));
    r := NULL;
  }

  lemma SearchStart(h: Head, tree: Tree, k: int)
    requires Holds(h, tree)
    ensures Searching(h, Top, tree, k, InOrder(tree)) && h.root == Root(tree)
  {
    assert [] + InOrder(tree) + [] == InOrder(tree);
  }

  lemma AtNode(m: Mem, root: Ptr, c: Path, t: Tree)
    requires At(m, root, c, t)
    ensures Root(t) == NULL <==> t == Leaf
    ensures t.T? ==> t.x != NULL && t.x in m && m[t.x].left == Root(t.l) && m[t.x].right == Root(t.r)
                     && m[t.x].parent == Above(c) && m[t.x].red == t.red
    ensures Above(c) == NULL <==> c == Top
    ensures c.Frame? ==> c.x in m && m[c.x].red == c.red
  {
    AboveIn(m, root, c, Root(t));
  }

  lemma FoundNode(tree: Tree, c: Path, t: Tree, order: seq<Ptr>)
    requires t.T? && Order(c, t) == order == InOrder(tree)
    ensures t.x in Nodes(tree)
  {
    InOrderNodes(t, t.x);
    assert InOrder(t)[|InOrder(t.l)|] == t.x;
    assert order[|Before(c)| + |InOrder(t.l)|] == t.x;
    InOrderNodes(tree, t.x);
  }

  /** At an empty hole, k is nobody's key. */
  lemma Missing(h: Head, tree: Tree, c: Path, k: int, order: seq<Ptr>)
    requires Searching(h, c, Leaf, k, order) && order == InOrder(tree)
    ensures forall x :: x in Nodes(tree) ==> h.key(x) != k
    ensures forall x :: x in PathNodes(c) ==> h.key(x) != k
  {
    assert order == Before(c) + After(c);
    forall x | x in Nodes(tree) ensures h.key(x) != k { InOrderNodes(tree, x); }
    forall x | x in PathNodes(c) ensures h.key(x) != k { PathInOrder(c, x); }
  }

  lemma MultisetInsert(a: seq<Ptr>, x: Ptr, b: seq<Ptr>)
    ensures multiset(a + [x] + b) == multiset(a + b) + multiset{x}
  {
  }

  lemma NewLeaf(key: Ptr -> int, c: Path, elm: Ptr, order: seq<Ptr>)
    requires Order(c, Leaf) == order && PathOk(c, BlackHeight(Leaf))
    requires Sorted(key, order) && AllOn(L, key, Before(c), key(elm)) && AllOn(R, key, After(c), key(elm))
    ensures var t := T(Leaf, elm, true, Leaf);
            && Balanced(t) && PathOk(c, BlackHeight(t)) && Sorted(key, Order(c, t))
            && multiset(Order(c, t)) == multiset(order) + multiset{elm}
  {
    hide Before, After, PathOk, Sorted;
    var a, b := Before(c), After(c);
    assert order == a + b;
    assert InOrder(T(Leaf, elm, true, Leaf)) == [elm];
    SortedSplit(key, a, elm, b);
    MultisetInsert(a, elm, b);
  }
}
