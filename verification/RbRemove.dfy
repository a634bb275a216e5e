/** RB_REMOVE_COLOR and RB_REMOVE (sys-tree.h). */
module RbRemove {
  import opened Machine
  import opened SearchTrees
  import opened RedBlack
  import opened RbMemory
  import opened RbInsert

  /** Balanced but for the colour of the root. */
  ghost predicate Inner(t: Tree) {
    t.T? ==> Balanced(t.l) && Balanced(t.r) && BlackHeight(t.l) == BlackHeight(t.r)
  }

  /** The tree is right except that subtree t is one black node short. */
  ghost predicate Short(m: Mem, root: Ptr, c: Path, t: Tree, order: seq<Ptr>) {
    At(m, root, c, t) && Inner(t) && PathOk(c, BlackHeight(t) + 1) && Order(c, t) == order
  }

  // ---------------------------------------------------------- the tree side

  lemma BalancedMk(s: Side, a: Tree, x: Ptr, red: bool, b: Tree)
    ensures Balanced(Mk(s, a, x, red, b)) <==>
            Balanced(a) && Balanced(b) && BlackHeight(a) == BlackHeight(b) && (red ==> !IsRed(a) && !IsRed(b))
    ensures BlackHeight(a) == BlackHeight(b) ==>
              BlackHeight(Mk(s, a, x, red, b)) == BlackHeight(a) + if red then 0 else 1
    ensures IsRed(Mk(s, a, x, red, b)) <==> red
  {
  }

  /** Red sibling: rotating it above the parent gives a black sibling. */
  lemma RedSiblingTree(s: Side, t: Tree, p: Ptr, wa: Tree, w: Ptr, wb: Tree, up: Path)
    requires PathOk(Frame(s, p, false, Mk(s, wa, w, true, wb), up), BlackHeight(t) + 1)
    ensures var c' := Frame(s, p, true, wa, Frame(s, w, false, wb, up));
            && PathOk(c', BlackHeight(t) + 1)
            && Order(c', t) == Order(Frame(s, p, false, Mk(s, wa, w, true, wb), up), t)
  {
    OrderUp(s, t, p, false, Mk(s, wa, w, true, wb), up);
    OrderUp(s, t, p, true, wa, Frame(s, w, false, wb, up));
    OrderUp(s, Mk(s, t, p, true, wa), w, false, wb, up);
    RotateInOrder(s, t, p, true, wa, w, false, wb);
    OrderRecolour(s, wa, w, true, false, wb);
    OrderRecolour(s, t, p, false, true, Mk(s, wa, w, true, wb));
  }

  /** Black sibling with black children: painting it red moves the shortage up. */
  lemma BlackNephewsTree(s: Side, t: Tree, p: Ptr, red: bool, wa: Tree, w: Ptr, wb: Tree, up: Path)
    requires Inner(t) && !IsRed(t) && !IsRed(wa) && !IsRed(wb)
    requires PathOk(Frame(s, p, red, Mk(s, wa, w, false, wb), up), BlackHeight(t) + 1)
    ensures var t' := Mk(s, t, p, red, Mk(s, wa, w, true, wb));
            && Inner(t') && PathOk(up, BlackHeight(t') + 1)
            && Order(up, t') == Order(Frame(s, p, red, Mk(s, wa, w, false, wb), up), t)
  {
    OrderUp(s, t, p, red, Mk(s, wa, w, false, wb), up);
    OrderRecolour(s, wa, w, false, true, wb);
  }

  /** Red inner nephew, black outer one: a rotation makes the outer one red. */
  lemma InnerNephewTree(s: Side, t: Tree, p: Ptr, red: bool, na: Tree, n: Ptr, nb: Tree, w: Ptr, wb: Tree, up: Path)
    requires !IsRed(wb)
    requires PathOk(Frame(s, p, red, Mk(s, Mk(s, na, n, true, nb), w, false, wb), up), BlackHeight(t) + 1)
    ensures var c' := Frame(s, p, red, Mk(s, na, n, false, Mk(s, nb, w, true, wb)), up);
            && PathOk(c', BlackHeight(t) + 1)
            && Order(c', t) == Order(Frame(s, p, red, Mk(s, Mk(s, na, n, true, nb), w, false, wb), up), t)
  {
    hide Balanced, BlackHeight, Mk, InOrder, Before, After, Order;
    BalancedMk(s, na, n, true, nb);
    BalancedMk(s, Mk(s, na, n, true, nb), w, false, wb);
    BalancedMk(s, nb, w, true, wb);
    BalancedMk(s, na, n, false, Mk(s, nb, w, true, wb));
    InnerNephewOrder(s, na, n, nb, w, wb);
    SameSibling(s, p, red, Mk(s, Mk(s, na, n, true, nb), w, false, wb), Mk(s, na, n, false, Mk(s, nb, w, true, wb)),
                up, t);
  }

  lemma InnerNephewOrder(s: Side, na: Tree, n: Ptr, nb: Tree, w: Ptr, wb: Tree)
    ensures InOrder(Mk(s, Mk(s, na, n, true, nb), w, false, wb)) == InOrder(Mk(s, na, n, false, Mk(s, nb, w, true, wb)))
  {
    RotateInOrder(s, na, n, false, nb, w, true, wb);
    OrderRecolour(s, na, n, true, false, nb);
    OrderRecolour(s, Mk(s, na, n, true, nb), w, false, true, wb);
  }

  lemma SameSibling(s: Side, p: Ptr, red: bool, sib: Tree, sib': Tree, up: Path, t: Tree)
    requires InOrder(sib) == InOrder(sib')
    ensures Order(Frame(s, p, red, sib, up), t) == Order(Frame(s, p, red, sib', up), t)
  {
  }

  /** Red outer nephew: the last rotation pays the shortage. */
  lemma OuterNephewTree(s: Side, t: Tree, p: Ptr, red: bool, wa: Tree, w: Ptr, k: Side, za: Tree, z: Ptr, zb: Tree,
                        up: Path)
    requires Inner(t) && !IsRed(t)
    requires PathOk(Frame(s, p, red, Mk(s, wa, w, false, Mk(k, za, z, true, zb)), up), BlackHeight(t) + 1)
    ensures var t' := Mk(s, Mk(s, t, p, false, wa), w, red, Mk(k, za, z, false, zb));
            && Balanced(t') && PathOk(up, BlackHeight(t')) && (IsRed(t') ==> BlackAbove(up))
            && Order(up, t') == Order(Frame(s, p, red, Mk(s, wa, w, false, Mk(k, za, z, true, zb)), up), t)
  {
    hide Balanced, BlackHeight, Mk, InOrder, Before, After;
    var sib := Mk(s, wa, w, false, Mk(k, za, z, true, zb));
    BlackInner(t);
    BalancedMk(k, za, z, true, zb);
    BalancedMk(s, wa, w, false, Mk(k, za, z, true, zb));
    BalancedMk(k, za, z, false, zb);
    BalancedMk(s, t, p, false, wa);
    BalancedMk(s, Mk(s, t, p, false, wa), w, red, Mk(k, za, z, false, zb));
    OrderUp(s, t, p, red, sib, up);
    OuterNephewOrder(s, t, p, red, wa, w, k, za, z, zb);
  }

  lemma BlackInner(t: Tree)
    requires Inner(t) && !IsRed(t)
    ensures Balanced(t)
  {
  }

  lemma OuterNephewOrder(s: Side, t: Tree, p: Ptr, red: bool, wa: Tree, w: Ptr, k: Side, za: Tree, z: Ptr, zb: Tree)
    ensures InOrder(Mk(s, Mk(s, t, p, false, wa), w, red, Mk(k, za, z, false, zb))) ==
            InOrder(Mk(s, t, p, red, Mk(s, wa, w, false, Mk(k, za, z, true, zb))))
  {
    OrderRecolour(k, za, z, true, false, zb);
    OrderRecolour(s, t, p, red, false, Mk(s, wa, w, false, Mk(k, za, z, true, zb)));
    OrderRecolour(s, wa, w, false, red, Mk(k, za, z, true, zb));
    RotateInOrder(s, t, p, false, wa, w, red, Mk(k, za, z, false, zb));
  }

  // ---------------------------------------------------------- in memory

  /** What the loop test of RB_REMOVE_COLOR reads. */
  lemma ShortTest(m: Mem, root: Ptr, c: Path, t: Tree, order: seq<Ptr>)
    requires Short(m, root, c, t, order)
    ensures Root(t) == NULL <==> t == Leaf
    ensures t.T? ==> t.x in m && (m[t.x].red <==> IsRed(t)) && m[t.x].parent == Above(c)
    ensures Root(t) == root <==> c == Top
  {
    hide Balanced, BlackHeight, PathOk, Order;
    RootIn(m, t, Above(c));
    RootOutside(m, root, c, t);
  }

  lemma {:induction false} RootOutside(m: Mem, root: Ptr, c: Path, t: Tree)
    requires At(m, root, c, t)
    ensures Root(t) == root <==> c == Top
    ensures c.Frame? ==> root in PathNodes(c) && root != NULL
    decreases c
  {
    if c.Frame? {
      Refocus(m, root, c.s, t, c.x, c.red, c.sib, c.up);
      RootOutside(m, root, c.up, Mk(c.s, t, c.x, c.red, c.sib));
      RootIn(m, t, c.x);
    }
  }

  /** The sibling of a short subtree exists, and tells the sides apart. */
  lemma Sibling(m: Mem, root: Ptr, c: Path, t: Tree, order: seq<Ptr>)
    requires Short(m, root, c, t, order) && c.Frame?
    ensures c.x in m && c.sib.T? && c.sib.x in m
    ensures m[c.x].Kid(Other(c.s)) == c.sib.x && m[c.sib.x].red == c.sib.red && m[c.x].red == c.red
    ensures m[c.x].left == Root(t) <==> c.s == L
    ensures m[c.sib.x].left == Root(c.sib.l) && m[c.sib.x].right == Root(c.sib.r)
    ensures Root(c.sib.l) == NULL <==> c.sib.l == Leaf
    ensures c.sib.l.T? ==> c.sib.l.x in m && m[c.sib.l.x].red == c.sib.l.red
    ensures Root(c.sib.r) == NULL <==> c.sib.r == Leaf
    ensures c.sib.r.T? ==> c.sib.r.x in m && m[c.sib.r.x].red == c.sib.r.red
  {
    hide Balanced, Order;
    RootIn(m, t, c.x);
    RootIn(m, c.sib, c.x);
    RootIn(m, c.sib.l, c.sib.x);
    RootIn(m, c.sib.r, c.sib.x);
  }

  ghost function Near(s: Side, t: Tree): Tree
    requires t.T?
  {
    if s == L then t.l else t.r
  }

  lemma AsNear(s: Side, t: Tree)
    requires t.T?
    ensures t == Mk(s, Near(s, t), t.x, t.red, Near(Other(s), t))
  {
  }

  method RedSibling(h: Head, s: Side, parent: Ptr, tmp: Ptr, ghost c: Path, ghost t: Tree, ghost order: seq<Ptr>)
    returns (ghost c': Path)
    requires Short(h.mem, h.root, c, t, order) && c.Frame? && IsRed(c.sib) && c.s == s && c.x == parent
             && c.sib.x == tmp
    modifies h
    ensures Short(h.mem, h.root, c', t, order)
    ensures c'.Frame? && c'.s == s && c'.x == parent && c'.red && !IsRed(c'.sib)
    ensures Depth(c') == Depth(c) + 1
  {
    ParentBlack(c, t);
    hide At, Mk, PathOk, Balanced, BlackHeight, InOrder, Before, After, Order;
    ghost var r, up, wa, wb := h.root, c.up, Near(s, c.sib), Near(Other(s), c.sib);
    AsNear(s, c.sib);
    Refocus(h.mem, r, s, t, parent, false, c.sib, up);
    Flip(s, t, parent, false, c.sib);
    PaintChild(h.mem, r, up, Other(s), s, wa, tmp, true, wb, parent, false, t, false);
    h.mem := Paint(h.mem, tmp, false);
    ghost var dark := Mk(s, wa, tmp, false, wb);
    Flip(Other(s), dark, parent, false, t);
    PaintAt(h.mem, r, up, s, t, parent, false, dark, true);
    h.mem := Paint(h.mem, parent, true);
    var w := h.Rotate(s, parent, up, t, true, wa, tmp, false, wb);
    c' := Frame(s, parent, true, wa, Frame(s, tmp, false, wb, up));
    Refocus(h.mem, h.root, s, Mk(s, t, parent, true, wa), tmp, false, wb, up);
    Refocus(h.mem, h.root, s, t, parent, true, wa, Frame(s, tmp, false, wb, up));
    RedSiblingTree(s, t, parent, wa, tmp, wb, up);
  }

  /** A red sibling has a black parent and black children. */
  lemma ParentBlack(c: Path, t: Tree)
    requires c.Frame? && IsRed(c.sib) && PathOk(c, BlackHeight(t) + 1)
    ensures !c.red && !IsRed(c.sib.l) && !IsRed(c.sib.r)
  {
  }

  method BlackNephews(h: Head, s: Side, parent: Ptr, tmp: Ptr, ghost c: Path, ghost t: Tree, ghost order: seq<Ptr>)
    returns (ghost t': Tree)
    requires Short(h.mem, h.root, c, t, order) && !IsRed(t)
    requires c.Frame? && c.sib.T? && !c.sib.red && !IsRed(c.sib.l) && !IsRed(c.sib.r)
    requires c.s == s && c.x == parent && c.sib.x == tmp
    modifies h
    ensures Short(h.mem, h.root, c.up, t', order) && t'.T? && t'.x == parent && t'.red == c.red
  {
    hide At, Mk, PathOk, Balanced, BlackHeight, InOrder, Before, After, Order, Inner;
    ghost var r, up, wa, wb := h.root, c.up, Near(s, c.sib), Near(Other(s), c.sib);
    AsNear(s, c.sib);
    Refocus(h.mem, r, s, t, parent, c.red, c.sib, up);
    Flip(s, t, parent, c.red, c.sib);
    PaintChild(h.mem, r, up, Other(s), s, wa, tmp, false, wb, parent, c.red, t, true);
    h.mem := Paint(h.mem, tmp, true);
    Flip(Other(s), Mk(s, wa, tmp, true, wb), parent, c.red, t);
    t' := Mk(s, t, parent, c.red, Mk(s, wa, tmp, true, wb));
    BlackNephewsTree(s, t, parent, c.red, wa, tmp, wb, up);
    RootMk(s, t, parent, c.red, Mk(s, wa, tmp, true, wb));
  }

  method InnerNephew(h: Head, s: Side, parent: Ptr, tmp: Ptr, ghost c: Path, ghost t: Tree, ghost order: seq<Ptr>)
    returns (ghost c': Path)
    requires Short(h.mem, h.root, c, t, order)
    requires c.Frame? && c.sib.T? && !c.sib.red && IsRed(Near(s, c.sib)) && !IsRed(Near(Other(s), c.sib))
    requires c.s == s && c.x == parent && c.sib.x == tmp
    modifies h
    ensures Short(h.mem, h.root, c', t, order)
    ensures c'.Frame? && c'.s == s && c'.x == parent && c'.red == c.red && c'.up == c.up
    ensures c'.sib.T? && !c'.sib.red && IsRed(Near(Other(s), c'.sib))
  {
    hide At, Mk, PathOk, Balanced, BlackHeight, InOrder, Before, After, Order, Inner, BlackAbove;
    Sibling(h.mem, h.root, c, t, order);
    ghost var n := Near(s, c.sib);
    ghost var na, nb, wb := Near(s, n), Near(Other(s), n), Near(Other(s), c.sib);
    var inner := h.mem[tmp].Kid(s);
    Refocus(h.mem, h.root, s, t, parent, c.red, c.sib, c.up);
    Flip(s, t, parent, c.red, c.sib);
    ghost var cs := Frame(Other(s), parent, c.red, t, c.up);
    Refocus(h.mem, h.root, Other(s), c.sib, parent, c.red, t, c.up);
    AsNear(s, c.sib);
    AsNear(s, n);
    SideChild(h.mem, h.root, cs, s, n, tmp, false, wb);
    PaintChild(h.mem, h.root, cs, s, s, na, inner, true, nb, tmp, false, wb, false);
    h.mem := Paint(h.mem, inner, false);
    PaintAt(h.mem, h.root, cs, s, Mk(s, na, inner, false, nb), tmp, false, wb, true);
    h.mem := Paint(h.mem, tmp, true);
    Flip(s, na, inner, false, nb);
    Flip(s, Mk(s, na, inner, false, nb), tmp, true, wb);
    var o := h.Rotate(Other(s), tmp, cs, wb, true, nb, inner, false, na);
    ghost var sib := Mk(s, na, inner, false, Mk(s, nb, tmp, true, wb));
    Flip(s, nb, tmp, true, wb);
    Flip(s, na, inner, false, Mk(s, nb, tmp, true, wb));
    c' := Frame(s, parent, c.red, sib, c.up);
    Refocus(h.mem, h.root, Other(s), sib, parent, c.red, t, c.up);
    Flip(s, t, parent, c.red, sib);
    Refocus(h.mem, h.root, s, t, parent, c.red, sib, c.up);
    InnerNephewTree(s, t, parent, c.red, na, inner, nb, tmp, wb, c.up);
    NearMk(s, na, inner, false, Mk(s, nb, tmp, true, wb));
    RootMk(s, nb, tmp, true, wb);
  }

  lemma NearMk(s: Side, a: Tree, x: Ptr, red: bool, b: Tree)
    ensures var t := Mk(s, a, x, red, b);
            t.T? && t.x == x && t.red == red && Near(s, t) == a && Near(Other(s), t) == b
  {
  }

  lemma SideChild(m: Mem, root: Ptr, c: Path, s: Side, a: Tree, x: Ptr, red: bool, b: Tree)
    requires At(m, root, c, Mk(s, a, x, red, b))
    ensures x in m && m[x].Kid(s) == Root(a) && m[x].Kid(Other(s)) == Root(b)
  {
  }

  method OuterNephew(h: Head, s: Side, parent: Ptr, tmp: Ptr, ghost c: Path, ghost t: Tree, ghost order: seq<Ptr>)
    returns (ghost t': Tree)
    requires Short(h.mem, h.root, c, t, order) && !IsRed(t)
    requires c.Frame? && c.sib.T? && !c.sib.red && IsRed(Near(Other(s), c.sib))
    requires c.s == s && c.x == parent && c.sib.x == tmp
    modifies h
    ensures At(h.mem, h.root, c.up, t') && t'.T? && Balanced(t') && PathOk(c.up, BlackHeight(t'))
    ensures (IsRed(t') ==> BlackAbove(c.up)) && Order(c.up, t') == order
  {
    hide At, Mk, PathOk, Balanced, BlackHeight, InOrder, Before, After, Order, Inner, BlackAbove;
    Sibling(h.mem, h.root, c, t, order);
    ghost var z, wa, up, red := Near(Other(s), c.sib), Near(s, c.sib), c.up, c.red;
    ghost var za, zb := Near(L, z), Near(R, z);
    AsNear(s, c.sib);
    AsNear(L, z);
    Refocus(h.mem, h.root, s, t, parent, red, c.sib, up);
    Flip(s, t, parent, red, c.sib);
    PaintChild(h.mem, h.root, up, Other(s), s, wa, tmp, false, z, parent, red, t, h.mem[parent].red);
    h.mem := Paint(h.mem, tmp, h.mem[parent].red);
    ghost var w := Mk(s, wa, tmp, red, z);
    Flip(Other(s), w, parent, red, t);
    PaintAt(h.mem, h.root, up, s, t, parent, red, w, false);
    h.mem := Paint(h.mem, parent, false);
    Flip(s, t, parent, false, w);
    ghost var cw := Frame(Other(s), parent, false, t, up);
    Refocus(h.mem, h.root, Other(s), w, parent, false, t, up);
    SideChild(h.mem, h.root, cw, s, wa, tmp, red, z);
    var outer := h.mem[tmp].Kid(Other(s));
    Flip(s, wa, tmp, red, z);
    PaintChild(h.mem, h.root, cw, Other(s), L, za, outer, true, zb, tmp, red, wa, false);
    h.mem := Paint(h.mem, outer, false);
    ghost var dark := Mk(L, za, outer, false, zb);
    Flip(s, wa, tmp, red, dark);
    Refocus(h.mem, h.root, Other(s), Mk(s, wa, tmp, red, dark), parent, false, t, up);
    Flip(s, t, parent, false, Mk(s, wa, tmp, red, dark));
    var o := h.Rotate(s, parent, up, t, false, wa, tmp, red, dark);
    t' := Mk(s, Mk(s, t, parent, false, wa), tmp, red, dark);
    OuterNephewTree(s, t, parent, red, wa, tmp, L, za, outer, zb, up);
    RootMk(s, Mk(s, t, parent, false, wa), tmp, red, dark);
  }

  /** One turn of the loop with a black sibling: either the shortage moves up to
      the parent, or it is paid and the tree is right. */
  method BlackSibling(h: Head, s: Side, parent: Ptr, tmp0: Ptr, ghost c0: Path, ghost t: Tree, ghost order: seq<Ptr>)
    returns (done: bool, ghost t': Tree)
    requires Short(h.mem, h.root, c0, t, order) && !IsRed(t)
    requires c0.Frame? && c0.sib.T? && !c0.sib.red && c0.s == s && c0.x == parent && c0.sib.x == tmp0
    modifies h
    ensures !done ==> Short(h.mem, h.root, c0.up, t', order) && t'.T? && t'.x == parent && t'.red == c0.red
    ensures done ==> At(h.mem, h.root, c0.up, t') && t'.T? && Balanced(t') && PathOk(c0.up, BlackHeight(t'))
                     && (IsRed(t') ==> BlackAbove(c0.up)) && Order(c0.up, t') == order
  {
    hide At, Mk, PathOk, Balanced, BlackHeight, InOrder, Before, After, Order, Inner;
    ghost var c := c0;
    var tmp := tmp0;
    Sibling(h.mem, h.root, c, t, order);
    var left, right := h.mem[tmp].left, h.mem[tmp].right;
    if (left == NULL || !h.mem[left].red) && (right == NULL || !h.mem[right].red) {
      t' := BlackNephews(h, s, parent, tmp, c, t, order);
      return false, t';
    }
    var outer := h.mem[tmp].Kid(Other(s));
    if outer == NULL || !h.mem[outer].red {
      c := InnerNephew(h, s, parent, tmp, c, t, order);
      Sibling(h.mem, h.root, c, t, order);
      tmp := h.mem[parent].Kid(Other(s));
    }
    t' := OuterNephew(h, s, parent, tmp, c, t, order);
    return true, t';
  }

  /** RB_REMOVE_COLOR. */
  method RemoveColor(h: Head, parent0: Ptr, elm0: Ptr, ghost c0: Path, ghost t0: Tree, ghost order: seq<Ptr>)
    returns (ghost tree: Tree)
    requires Short(h.mem, h.root, c0, t0, order) && elm0 == Root(t0) && parent0 == Above(c0)
    modifies h
    ensures At(h.mem, h.root, Top, tree) && RbTree(tree) && InOrder(tree) == order
  {
    hide At, Mk, PathOk, Balanced, BlackHeight, InOrder, Before, After, Order, Inner;
    var elm, parent := elm0, parent0;
    ghost var c, t := c0, t0;
    ShortTest(h.mem, h.root, c, t, order);
    while (elm == NULL || !h.mem[elm].red) && elm != h.root
      invariant Short(h.mem, h.root, c, t, order) && elm == Root(t) && parent == Above(c)
      invariant elm == NULL <==> t == Leaf
      invariant t.T? ==> t.x in h.mem && (h.mem[t.x].red <==> IsRed(t))
      invariant elm == h.root <==> c == Top
      decreases Depth(c), if IsRed(t) then 0 else 1
    {
      Sibling(h.mem, h.root, c, t, order);
      var s := if h.mem[parent].left == elm then L else R;
      var tmp := h.mem[parent].Kid(Other(s));
      ghost var d := c;
      if h.mem[tmp].red {
        d := RedSibling(h, s, parent, tmp, c, t, order);
        Sibling(h.mem, h.root, d, t, order);
        tmp := h.mem[parent].Kid(Other(s));
      }
      var done;
      ghost var t';
      done, t' := BlackSibling(h, s, parent, tmp, d, t, order);
      if done {
        tree := PaintRootBlack(h, d.up, t', order);
        return;
      }
      c, t := d.up, t';
      elm := parent;
      ShortTest(h.mem, h.root, c, t, order);
      parent := h.mem[elm].parent;
    }
    tree := PayAtElm(h, elm, c, t, order);
  }

  /** The loop was left by the break: elm is the root and is painted black. */
  method PaintRootBlack(h: Head, ghost c: Path, ghost t: Tree, ghost order: seq<Ptr>) returns (ghost tree: Tree)
    requires At(h.mem, h.root, c, t) && Balanced(t) && PathOk(c, BlackHeight(t)) && (IsRed(t) ==> BlackAbove(c))
    requires Order(c, t) == order && t.T?
    modifies h
    ensures At(h.mem, h.root, Top, tree) && RbTree(tree) && InOrder(tree) == order
  {
    AtRoot(h.mem, h.root, c, t);
    InOrderPlug(c, t);
    PlugOk(c, t);
    tree := Plug(c, t);
    RootIn(h.mem, tree, NULL);
    AsMk(tree);
    PaintAt(h.mem, h.root, Top, L, tree.l, tree.x, false, tree.r, false);
    h.mem := Paint(h.mem, h.root, false);
  }

  /** The loop ended by its test: elm, if any, is painted black. */
  method PayAtElm(h: Head, elm: Ptr, ghost c: Path, ghost t: Tree, ghost order: seq<Ptr>) returns (ghost tree: Tree)
    requires Short(h.mem, h.root, c, t, order) && elm == Root(t) && (IsRed(t) || c == Top)
    modifies h
    ensures At(h.mem, h.root, Top, tree) && RbTree(tree) && InOrder(tree) == order
  {
    hide Shape, PathShape, Distinct, PathDistinct, Nodes, PathNodes;
    RootIn(h.mem, t, Above(c));
    ghost var t' := t;
    if elm != NULL {
      AsMk(t);
      PaintAt(h.mem, h.root, c, L, t.l, t.x, t.red, t.r, false);
      h.mem := Paint(h.mem, elm, false);
      t' := Mk(L, t.l, t.x, false, t.r);
      OrderRecolour(L, t.l, t.x, t.red, false, t.r);
    }
    AtRoot(h.mem, h.root, c, t');
    InOrderPlug(c, t');
    PlugOk(c, t');
    tree := Plug(c, t');
  }

  // ---------------------------------------------------------- RB_REMOVE

  /** The way to a node of the tree. */
  lemma {:induction false} Locate(m: Mem, root: Ptr, up: Path, tree: Tree, x: Ptr) returns (c: Path, t: Tree)
    requires At(m, root, up, tree) && x in Nodes(tree)
    requires Balanced(tree) && PathOk(up, BlackHeight(tree)) && (IsRed(tree) ==> BlackAbove(up))
    ensures At(m, root, c, t) && t.T? && t.x == x && Order(c, t) == Order(up, tree)
    ensures Balanced(t) && PathOk(c, BlackHeight(t)) && (IsRed(t) ==> BlackAbove(c))
    decreases tree
  {
    if x == tree.x {
      c, t := up, tree;
    } else if x in Nodes(tree.l) {
      Refocus(m, root, L, tree.l, tree.x, tree.red, tree.r, up);
      OrderUp(L, tree.l, tree.x, tree.red, tree.r, up);
      c, t := Locate(m, root, Frame(L, tree.x, tree.red, tree.r, up), tree.l, x);
    } else {
      Refocus(m, root, R, tree.r, tree.x, tree.red, tree.l, up);
      OrderUp(R, tree.r, tree.x, tree.red, tree.l, up);
      c, t := Locate(m, root, Frame(R, tree.x, tree.red, tree.l, up), tree.r, x);
    }
  }

  /** Memory after a node with at most one child b has been bypassed. */
  ghost function SpliceMem(m: Mem, c: Path, b: Tree): Mem {
    RedirectMem(if b.T? && b.x in m then m[b.x := m[b.x].(parent := Above(c))] else m, c, Root(b))
  }

  lemma SpliceShape(m: Mem, root: Ptr, c: Path, s: Side, x: Ptr, red: bool, b: Tree)
    requires At(m, root, c, Mk(s, Leaf, x, red, b))
    ensures At(SpliceMem(m, c, b), RedirectRoot(root, c, Root(b)), c, b)
    ensures b.T? ==> b.x in m
    ensures c.Frame? ==> c.x in m && c.x != x && c.x !in Nodes(b)
    ensures m[x] == SpliceMem(m, c, b)[x]
  {
    hide Shape, PathShape, Distinct, PathDistinct, Nodes, PathNodes, Mk;
    OpenMk(m, s, Leaf, x, red, b, Above(c));
    NodesMk(s, Leaf, x, red, b);
    RootIn(m, b, x);
    AboveIn(m, root, c, x);
    var m1 := if b.T? then m[b.x := m[b.x].(parent := Above(c))] else m;
    var m' := SpliceMem(m, c, b);
    ShapeReparent(m, m', b, x, Above(c));
    PathFrame(m, m1, root, c, x);
    PathRedirect(m1, root, m', c, x, Root(b));
  }

  /** Bypass elm, whose child pointer on the one side is NULL. */
  method Splice(h: Head, elm: Ptr, child: Ptr, parent: Ptr, ghost c: Path, ghost s: Side, ghost red: bool,
                ghost b: Tree)
    requires At(h.mem, h.root, c, Mk(s, Leaf, elm, red, b))
    requires child == Root(b) && parent == Above(c)
    modifies h
    ensures h.mem == SpliceMem(old(h.mem), c, b) && At(h.mem, h.root, c, b)
    ensures elm in h.mem && elm in old(h.mem) && h.mem[elm] == old(h.mem)[elm]
  {
    SpliceShape(h.mem, h.root, c, s, elm, red, b);
    OpenMk(h.mem, s, Leaf, elm, red, b, Above(c));
    RootIn(h.mem, b, elm);
    NodesMk(s, Leaf, elm, red, b);
    hide Shape, PathShape, Distinct, PathDistinct, Nodes, PathNodes, Mk;
    ghost var m := h.mem;
    if child != NULL {
      h.mem := h.mem[child := h.mem[child].(parent := parent)];
    }
    PathFrame(m, h.mem, h.root, c, elm);
    h.Redirect(parent, elm, child, c);
  }

  /** q continued by up. */
  ghost function Append(q: Path, up: Path): Path {
    match q
    case Top => up
    case Frame(s, x, red, sib, q') => Frame(s, x, red, sib, Append(q', up))
  }

  lemma {:induction false} AtAppend(m: Mem, root: Ptr, q: Path, up: Path, t: Tree)
    ensures At(m, root, Append(q, up), t) <==> At(m, root, up, Plug(q, t))
    ensures Order(Append(q, up), t) == Order(up, Plug(q, t))
    decreases q
  {
    hide At, Order;
    if q.Frame? {
      Refocus(m, root, q.s, t, q.x, q.red, q.sib, Append(q.up, up));
      OrderUp(q.s, t, q.x, q.red, q.sib, Append(q.up, up));
      AtAppend(m, root, q.up, up, Mk(q.s, t, q.x, q.red, q.sib));
    }
  }

  /** Colours along a path do not depend on which node stands in a frame. */
  lemma {:induction false} PathOkRename(q: Path, s: Side, o: Ptr, n: Ptr, red: bool, sib: Tree, up: Path, h: nat)
    ensures PathOk(Append(q, Frame(s, o, red, sib, up)), h) <==> PathOk(Append(q, Frame(s, n, red, sib, up)), h)
    ensures BlackAbove(Append(q, Frame(s, o, red, sib, up))) <==> BlackAbove(Append(q, Frame(s, n, red, sib, up)))
    decreases q
  {
    if q.Frame? { PathOkRename(q.up, s, o, n, red, sib, up, if q.red then h else h + 1); }
  }

  /** Memory after node n has taken the place of o. */
  ghost function SubstMem(m: Mem, c: Path, o: Ptr, n: Ptr, l: Ptr, r: Ptr): Mem
    requires o in m && l in m && (r != NULL ==> r in m)
  {
    var m2 := RedirectMem(m[n := m[o]], c, n);
    var m3 := m2[l := m2[l].(parent := n)];
    if r != NULL then m3[r := m3[r].(parent := n)] else m3
  }

  lemma SubstShape(m: Mem, root: Ptr, c: Path, l: Tree, o: Ptr, red: bool, r: Tree, n: Ptr)
    requires At(m, root, c, T(l, o, red, r)) && l.T?
    requires n != NULL && n !in Nodes(T(l, o, red, r)) && n !in PathNodes(c)
    ensures o in m && l.x in m && (r.T? ==> r.x in m) && (Root(r) == NULL <==> r == Leaf)
    ensures At(SubstMem(m, c, o, n, l.x, Root(r)), RedirectRoot(root, c, n), c, T(l, n, red, r))
  {
    RootIn(m, l, o);
    RootIn(m, r, o);
    AboveIn(m, root, c, o);
    assert o !in Nodes(l) && o !in Nodes(r) && n !in Nodes(l) && n !in Nodes(r) && Nodes(l) !! Nodes(r);
    assert PathNodes(c) !! Nodes(l) && PathNodes(c) !! Nodes(r) && o !in PathNodes(c);
    var m' := SubstMem(m, c, o, n, l.x, Root(r));
    SubstParts(m, root, c, l, o, r, n);
    assert m'[n] == m[o];
  }

  lemma SubstParts(m: Mem, root: Ptr, c: Path, l: Tree, o: Ptr, r: Tree, n: Ptr)
    requires o in m && l.T? && Shape(m, l, o) && Shape(m, r, o) && Distinct(l) && Distinct(r)
    requires PathDistinct(c) && PathShape(m, root, c, o)
    requires n !in Nodes(l) && n !in Nodes(r) && n !in PathNodes(c) && Nodes(l) !! Nodes(r)
    requires PathNodes(c) !! Nodes(l) && PathNodes(c) !! Nodes(r)
    requires l.x in m && (r.T? ==> r.x in m) && (Root(r) == NULL <==> r == Leaf)
    ensures var m' := SubstMem(m, c, o, n, l.x, Root(r));
            Shape(m', l, n) && Shape(m', r, n) && PathShape(m', RedirectRoot(root, c, n), c, n) && m'[n] == m[o]
  {
    RootIn(m, l, o);
    RootIn(m, r, o);
    AboveIn(m, root, c, o);
    hide Shape, PathShape, Distinct, PathDistinct, Nodes, PathNodes;
    var m1 := m[n := m[o]];
    var m' := SubstMem(m, c, o, n, l.x, Root(r));
    ShapeReparent(m, m', l, o, n);
    ShapeReparent(m, m', r, o, n);
    PathFrame(m, m1, root, c, o);
    PathRedirect(m1, root, m', c, o, n);
  }

  /** Put n, already bypassed, in the place of o. */
  method Substitute(h: Head, o: Ptr, n: Ptr, ghost c: Path, ghost l: Tree, ghost red: bool, ghost r: Tree)
    requires At(h.mem, h.root, c, T(l, o, red, r)) && l.T?
    requires n != NULL && n !in Nodes(T(l, o, red, r)) && n !in PathNodes(c)
    modifies h
    ensures At(h.mem, h.root, c, T(l, n, red, r))
  {
    SubstShape(h.mem, h.root, c, l, o, red, r, n);
    AtNode(h.mem, h.root, c, T(l, o, red, r));
    OutsidePath(c, T(l, o, red, r), o);
    hide At, Shape, PathShape, Distinct, PathDistinct, Nodes, PathNodes;
    ghost var m := h.mem;
    h.mem := h.mem[n := h.mem[o]];
    AtPath(m, h.root, c, T(l, o, red, r));
    PathFrame(m, h.mem, h.root, c, o);
    h.Redirect(h.mem[o].parent, o, n, c);
    var left := h.mem[o].left;
    h.mem := h.mem[left := h.mem[left].(parent := n)];
    var right := h.mem[o].right;
    if right != NULL {
      h.mem := h.mem[right := h.mem[right].(parent := n)];
    }
  }

  lemma OutsidePath(c: Path, t: Tree, x: Ptr)
    requires PathNodes(c) !! Nodes(t) && t.T? && t.x == x
    ensures x !in PathNodes(c)
  {
  }

  lemma AtPath(m: Mem, root: Ptr, c: Path, t: Tree)
    requires At(m, root, c, t)
    ensures PathShape(m, root, c, Root(t))
  {
  }

  /** The end of RB_REMOVE: rebalance when a black node was taken out. */
  method Finish(h: Head, red: bool, parent: Ptr, child: Ptr, ghost c: Path, ghost b: Tree, ghost order: seq<Ptr>)
    returns (ghost tree: Tree)
    requires At(h.mem, h.root, c, b) && Balanced(b) && Order(c, b) == order
    requires PathOk(c, BlackHeight(b) + if red then 0 else 1) && (red ==> !IsRed(b))
    requires child == Root(b) && parent == Above(c)
    modifies h
    ensures At(h.mem, h.root, Top, tree) && RbTree(tree) && InOrder(tree) == order
  {
    if !red {
      tree := RemoveColor(h, parent, child, c, b, order);
    } else {
      AtRoot(h.mem, h.root, c, b);
      InOrderPlug(c, b);
      PlugOk(c, b);
      tree := Plug(c, b);
    }
  }

  /** elm has at most one child. */
  method RemoveShallow(h: Head, elm: Ptr, child: Ptr, ghost c: Path, ghost s: Side, ghost red: bool, ghost b: Tree,
                       ghost order: seq<Ptr>)
    returns (ghost tree: Tree)
    requires At(h.mem, h.root, c, Mk(s, Leaf, elm, red, b)) && child == Root(b)
    requires Balanced(Mk(s, Leaf, elm, red, b)) && PathOk(c, BlackHeight(Mk(s, Leaf, elm, red, b)))
    requires Order(c, b) == order
    modifies h
    ensures At(h.mem, h.root, Top, tree) && RbTree(tree) && InOrder(tree) == order
  {
    OpenMk(h.mem, s, Leaf, elm, red, b, Above(c));
    BalancedMk(s, Leaf, elm, red, b);
    hide At, PathOk, Balanced, BlackHeight, Order, Mk, Shape, SpliceMem;
    var parent := h.mem[elm].parent;
    var colour := h.mem[elm].red;
    Splice(h, elm, child, parent, c, s, red, b);
    tree := Finish(h, colour, parent, child, c, b, order);
  }

  /** The order with and without the node looked at, when its successor mn is the
      leftmost node below it. */
  lemma SuccessorOrder(c: Path, l: Tree, o: Ptr, red: bool, q: Path, mn: Ptr, cm: bool, b: Tree)
                       returns (a: seq<Ptr>, z: seq<Ptr>)
    requires Before(q) == []
    ensures Order(c, T(l, o, red, Plug(q, T(Leaf, mn, cm, b)))) == a + [o] + z
    ensures Order(c, T(l, mn, red, Plug(q, b))) == a + z
  {
    var rest := InOrder(b) + After(q);
    SuccessorBelow(q, mn, cm, b);
    a, z := Before(c) + InOrder(l), [mn] + rest + After(c);
    SuccessorSeq(Before(c), InOrder(l), [o], [mn], rest, After(c));
  }

  /** With nothing before it on its path, the successor comes first. */
  lemma SuccessorBelow(q: Path, mn: Ptr, cm: bool, b: Tree)
    requires Before(q) == []
    ensures InOrder(Plug(q, T(Leaf, mn, cm, b))) == [mn] + (InOrder(b) + After(q))
    ensures InOrder(Plug(q, b)) == InOrder(b) + After(q)
  {
    InOrderPlug(q, T(Leaf, mn, cm, b));
    InOrderPlug(q, b);
    NothingBefore([mn], InOrder(b), After(q));
    assert InOrder(T(Leaf, mn, cm, b)) == [] + [mn] + InOrder(b);
  }

  lemma NothingBefore<U>(mn: seq<U>, b: seq<U>, aq: seq<U>)
    ensures [] + ([] + mn + b) + aq == mn + (b + aq) && [] + b + aq == b + aq
  {
  }

  lemma SuccessorSeq<U>(bc: seq<U>, l: seq<U>, o: seq<U>, mn: seq<U>, rest: seq<U>, ac: seq<U>)
    ensures bc + (l + o + (mn + rest)) + ac == bc + l + o + (mn + rest + ac)
    ensures bc + (l + mn + rest) + ac == bc + l + (mn + rest + ac)
  {
  }

  /** On the way down the left spine of t0, at subtree t. */
  ghost predicate Descending(m: Mem, root: Ptr, up: Path, t0: Tree, q: Path, t: Tree) {
    && t.T? && Plug(q, t) == t0 && Before(q) == [] && At(m, root, Append(q, up), t)
    && Balanced(t) && PathOk(Append(q, up), BlackHeight(t)) && (IsRed(t) ==> BlackAbove(Append(q, up)))
  }

  lemma DescendStep(m: Mem, root: Ptr, up: Path, t0: Tree, q: Path, t: Tree)
    requires Descending(m, root, up, t0, q, t)
    ensures t.x in m && m[t.x].left == Root(t.l) && (Root(t.l) == NULL <==> t.l == Leaf)
    ensures t.l.T? ==> Descending(m, root, up, t0, Frame(L, t.x, t.red, t.r, q), t.l)
  {
    AtNode(m, root, Append(q, up), t);
    RootIn(m, t.l, t.x);
    Refocus(m, root, L, t.l, t.x, t.red, t.r, Append(q, up));
  }

  /** The leftmost node below the right child: the loop of RB_REMOVE. */
  method Successor(h: Head, start: Ptr, ghost up: Path, ghost t0: Tree)
                   returns (elm: Ptr, ghost q: Path, ghost cm: bool, ghost b: Tree)
    requires At(h.mem, h.root, up, t0) && t0.T? && start == t0.x && Balanced(t0) && PathOk(up, BlackHeight(t0))
    requires IsRed(t0) ==> BlackAbove(up)
    ensures InOrder(t0) != [] && elm == InOrder(t0)[0]
    ensures Plug(q, T(Leaf, elm, cm, b)) == t0 && Before(q) == []
    ensures At(h.mem, h.root, Append(q, up), T(Leaf, elm, cm, b))
    ensures Balanced(T(Leaf, elm, cm, b)) && PathOk(Append(q, up), BlackHeight(T(Leaf, elm, cm, b)))
  {
    hide At, Balanced, BlackHeight, PathOk;
    elm, q := start, Top;
    ghost var t := t0;
    assert Descending(h.mem, h.root, up, t0, q, t);
    hide Descending;
    DescendStep(h.mem, h.root, up, t0, q, t);
    while h.mem[elm].left != NULL
      invariant Descending(h.mem, h.root, up, t0, q, t) && t.T? && t.x == elm
      invariant elm in h.mem && h.mem[elm].left == Root(t.l) && (Root(t.l) == NULL <==> t.l == Leaf)
      decreases t
    {
      DescendStep(h.mem, h.root, up, t0, q, t);
      elm := h.mem[elm].left;
      q, t := Frame(L, t.x, t.red, t.r, q), t.l;
      DescendStep(h.mem, h.root, up, t0, q, t);
    }
    cm, b := t.red, t.r;
    Descended(h.mem, h.root, up, t0, q, t);
    FirstInOrder(q, elm, cm, b);
  }

  lemma FirstInOrder(q: Path, x: Ptr, red: bool, b: Tree)
    requires Before(q) == []
    ensures InOrder(Plug(q, T(Leaf, x, red, b))) != [] && InOrder(Plug(q, T(Leaf, x, red, b)))[0] == x
  {
    InOrderPlug(q, T(Leaf, x, red, b));
    assert InOrder(T(Leaf, x, red, b)) == [x] + InOrder(b);
  }

  lemma Descended(m: Mem, root: Ptr, up: Path, t0: Tree, q: Path, t: Tree)
    requires Descending(m, root, up, t0, q, t)
    ensures Plug(q, t) == t0 && Before(q) == [] && At(m, root, Append(q, up), t)
    ensures Balanced(t) && PathOk(Append(q, up), BlackHeight(t))
  {
  }

  /** The bypassed successor is not in the tree any more. */
  lemma Bypassed(m: Mem, root: Ptr, q: Path, c: Path, l: Tree, o: Ptr, red: bool, mn: Ptr, cm: bool, b: Tree)
    requires At(m, root, c, T(l, o, red, Plug(q, T(Leaf, mn, cm, b))))
    ensures mn != NULL && mn !in Nodes(T(l, o, red, Plug(q, b))) && mn !in PathNodes(c)
  {
    PlugDistinct(q, T(Leaf, mn, cm, b));
    PlugDistinct(q, b);
    ShapeIn(m, T(l, o, red, Plug(q, T(Leaf, mn, cm, b))), Above(c));
  }

  /** elm has two children: its successor is bypassed and takes its place. */
  method RemoveDeep(h: Head, doomed: Ptr, ghost c: Path, ghost t: Tree)
                    returns (ghost tree: Tree, ghost a: seq<Ptr>, ghost z: seq<Ptr>)
    requires At(h.mem, h.root, c, t) && t.T? && t.x == doomed && t.l.T? && t.r.T?
    requires Balanced(t) && PathOk(c, BlackHeight(t)) && (IsRed(t) ==> BlackAbove(c))
    modifies h
    ensures At(h.mem, h.root, Top, tree) && RbTree(tree)
    ensures Order(c, t) == a + [doomed] + z && InOrder(tree) == a + z
  {
    hide At, Shape, PathShape, Distinct, PathDistinct, Nodes, PathNodes, Balanced, BlackHeight, PathOk, Order, Mk,
         Plug, InOrder, Before, After, SpliceMem;
    ghost var fo := Frame(R, doomed, t.red, t.l, c);
    BelowRight(c, t);
    MkR(doomed, t.red, t.l, t.r);
    Refocus(h.mem, h.root, R, t.r, doomed, t.red, t.l, c);
    AtNode(h.mem, h.root, c, t);
    var elm;
    ghost var q, cm, b;
    elm, q, cm, b := Successor(h, h.mem[doomed].right, fo, t.r);
    Bypassed(h.mem, h.root, q, c, t.l, doomed, t.red, elm, cm, b);
    ghost var low, fn := Append(q, fo), Frame(R, elm, t.red, t.l, c);
    AtNode(h.mem, h.root, low, T(Leaf, elm, cm, b));
    var child := h.mem[elm].right;
    var parent := h.mem[elm].parent;
    var colour := h.mem[elm].red;
    LowMk(elm, cm, b);
    Splice(h, elm, child, parent, low, L, cm, b);
    AtAppend(h.mem, h.root, q, fo, b);
    MkR(doomed, t.red, t.l, Plug(q, b));
    Refocus(h.mem, h.root, R, Plug(q, b), doomed, t.red, t.l, c);
    if h.mem[elm].parent == doomed {
      parent := elm;
    }
    AppendAbove(h.mem, h.root, q, t.red, t.l, c, doomed, elm, b);
    Substitute(h, doomed, elm, c, t.l, t.red, Plug(q, b));
    MkR(elm, t.red, t.l, Plug(q, b));
    Refocus(h.mem, h.root, R, Plug(q, b), elm, t.red, t.l, c);
    AtAppend(h.mem, h.root, q, fn, b);
    PathOkRename(q, R, doomed, elm, t.red, t.l, c, BlackHeight(T(Leaf, elm, cm, b)));
    BalancedMk(L, Leaf, elm, cm, b);
    OrderUp(R, Plug(q, b), elm, t.red, t.l, c);
    a, z := SuccessorOrder(c, t.l, doomed, t.red, q, elm, cm, b);
    tree := Finish(h, colour, parent, child, Append(q, fn), b, a + z);
  }

  lemma BelowRight(c: Path, t: Tree)
    requires t.T? && Balanced(t) && PathOk(c, BlackHeight(t)) && (IsRed(t) ==> BlackAbove(c))
    ensures var fo := Frame(R, t.x, t.red, t.l, c);
            PathOk(fo, BlackHeight(t.r)) && (IsRed(t.r) ==> BlackAbove(fo)) && Balanced(t.r)
  {
  }

  lemma LowMk(x: Ptr, red: bool, b: Tree)
    ensures T(Leaf, x, red, b) == Mk(L, Leaf, x, red, b)
  {
  }

  lemma MkR(x: Ptr, red: bool, l: Tree, r: Tree)
    ensures Mk(R, r, x, red, l) == T(l, x, red, r)
  {
  }

  lemma AppendAbove(m: Mem, root: Ptr, q: Path, red: bool, l: Tree, c: Path, o: Ptr, n: Ptr, b: Tree)
    requires At(m, root, Append(q, Frame(R, o, red, l, c)), b)
    ensures Above(Append(q, Frame(R, o, red, l, c))) == o <==> q == Top
    ensures Above(Append(q, Frame(R, n, red, l, c))) ==
            if q == Top then n else Above(Append(q, Frame(R, o, red, l, c)))
  {
    if q.Frame? { InAppend(q.up, Frame(R, o, red, l, c), o); }
  }

  lemma {:induction false} InAppend(q: Path, up: Path, x: Ptr)
    requires x in PathNodes(up)
    ensures x in PathNodes(Append(q, up))
    decreases q
  {
    if q.Frame? { InAppend(q.up, up, x); }
  }

  /** RB_REMOVE: the tree loses exactly elm. */
  method Remove(h: Head, elm: Ptr, ghost tree: Tree) returns (r: Ptr, ghost tree': Tree)
    requires Holds(h, tree) && elm in Nodes(tree)
    modifies h
    ensures r == elm && Holds(h, tree')
    ensures multiset(InOrder(tree)) == multiset(InOrder(tree')) + multiset{elm}
  {
    StartOrder(tree);
    ghost var c, t := Locate(h.mem, h.root, Top, tree, elm);
    AtNode(h.mem, h.root, c, t);
    RootIn(h.mem, t.l, t.x);
    RootIn(h.mem, t.r, t.x);
    ghost var a, z;
    if h.mem[elm].left == NULL {
      ShallowOrder(c, L, elm, t.red, t.r);
      a, z := Before(c), InOrder(t.r) + After(c);
      LowMk(elm, t.red, t.r);
      hide At, Balanced, PathOk, BlackHeight, InOrder, Before, After, Sorted, Nodes;
      tree' := RemoveShallow(h, elm, h.mem[elm].right, c, L, t.red, t.r, a + z);
      Removed(h.key, a, elm, z);
    } else if h.mem[elm].right == NULL {
      ShallowOrder(c, R, elm, t.red, t.l);
      a, z := Before(c) + InOrder(t.l), After(c);
      MkR(elm, t.red, t.l, Leaf);
      Flip(R, Leaf, elm, t.red, t.l);
      hide At, Balanced, PathOk, BlackHeight, InOrder, Before, After, Sorted, Nodes;
      tree' := RemoveShallow(h, elm, h.mem[elm].left, c, R, t.red, t.l, a + z);
      Removed(h.key, a, elm, z);
    } else {
      hide At, Balanced, PathOk, BlackHeight, InOrder, Before, After, Sorted, Nodes, Order;
      tree', a, z := RemoveDeep(h, elm, c, t);
      Removed(h.key, a, elm, z);
    }
    r := elm;
  }

  lemma StartOrder(tree: Tree)
    ensures Order(Top, tree) == InOrder(tree)
  {
    assert [] + InOrder(tree) + [] == InOrder(tree);
  }

  lemma ShallowOrder(c: Path, s: Side, x: Ptr, red: bool, b: Tree)
    ensures s == L ==> Order(c, T(Leaf, x, red, b)) == Before(c) + [x] + (InOrder(b) + After(c))
                       && Order(c, b) == Before(c) + (InOrder(b) + After(c))
    ensures s == R ==> Order(c, T(b, x, red, Leaf)) == (Before(c) + InOrder(b)) + [x] + After(c)
                       && Order(c, b) == (Before(c) + InOrder(b)) + After(c)
  {
    hide Before, After;
    var p, o, q := Before(c), InOrder(b), After(c);
    if s == L { ShallowSeq(p, [], [x], o, q); } else { ShallowSeq(p, o, [x], [], q); }
  }

  lemma ShallowSeq<U>(p: seq<U>, l: seq<U>, x: seq<U>, r: seq<U>, q: seq<U>)
    ensures p + (l + x + r) + q == p + l + x + (r + q) && p + r + q == p + (r + q)
    ensures p + [] == p && [] + q == q
  {
  }

  lemma Removed(key: Ptr -> int, a: seq<Ptr>, x: Ptr, z: seq<Ptr>)
    requires Sorted(key, a + [x] + z)
    ensures Sorted(key, a + z) && multiset(a + [x] + z) == multiset(a + z) + multiset{x}
  {
    hide Sorted;
    SortedSplit(key, a, x, z);
    MultisetInsert(a, x, z);
  }
}
