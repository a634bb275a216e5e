/** Red-black trees as values (sys-tree.h, the properties listed at the head of
    the file): trees, paths to the root, and the conditions both must meet. */
module RedBlack {

  import opened Machine
  import opened SearchTrees

  /** The tree a pointer stands for. */
  datatype Tree = Leaf | T(l: Tree, x: Ptr, red: bool, r: Tree)

  /** The way from a subtree up to the root: the subtree is the child on side s of
      node x, whose other subtree is sib. */
  datatype Path = Top | Frame(s: Side, x: Ptr, red: bool, sib: Tree, up: Path)

  /** A node with subtree a on side s and b on the other side. */
  ghost function Mk(s: Side, a: Tree, x: Ptr, red: bool, b: Tree): Tree {
    if s == L then T(a, x, red, b) else T(b, x, red, a)
  }

  ghost function Plug(c: Path, t: Tree): Tree {
    match c
    case Top => t
    case Frame(s, x, red, sib, up) => Plug(up, Mk(s, t, x, red, sib))
  }

  // ------------------------------------------------------------ in-order

  ghost function InOrder(t: Tree): seq<Ptr> {
    match t
    case Leaf => []
    case T(l, x, _, r) => InOrder(l) + [x] + InOrder(r)
  }

  /** The nodes before, and after, the hole of a path. */
  ghost function Before(c: Path): seq<Ptr> {
    match c
    case Top => []
    case Frame(s, x, _, sib, up) => if s == L then Before(up) else Before(up) + (InOrder(sib) + [x])
  }

  ghost function After(c: Path): seq<Ptr> {
    match c
    case Top => []
    case Frame(s, x, _, sib, up) => if s == L then ([x] + InOrder(sib)) + After(up) else After(up)
  }

  lemma {:induction false} InOrderPlug(c: Path, t: Tree)
    ensures InOrder(Plug(c, t)) == Before(c) + InOrder(t) + After(c)
    decreases c
  {
    match c
    case Top =>
    case Frame(s, x, red, sib, up) =>
      InOrderPlug(up, Mk(s, t, x, red, sib));
      if s == L {
        Regroup(Before(up), InOrder(t), [x], InOrder(sib), After(up));
      } else {
        Regroup(Before(up), InOrder(sib), [x], InOrder(t), After(up));
      }
  }

  lemma Regroup<U>(a: seq<U>, b: seq<U>, c: seq<U>, d: seq<U>, e: seq<U>)
    ensures a + (b + c + d) + e == a + b + (c + d + e)
    ensures a + (b + c + d) + e == (a + (b + c)) + d + e
  {
  }

  /** A rotation does not change the order. */
  lemma RotateInOrder(s: Side, a: Tree, x: Ptr, cx: bool, b: Tree, y: Ptr, cy: bool, d: Tree)
    ensures InOrder(Mk(s, a, x, cx, Mk(s, b, y, cy, d))) == InOrder(Mk(s, Mk(s, a, x, cx, b), y, cy, d))
  {
    if s == L {
      assert InOrder(a) + [x] + (InOrder(b) + [y] + InOrder(d)) == (InOrder(a) + [x] + InOrder(b)) + [y] + InOrder(d);
    } else {
      assert (InOrder(d) + [y] + InOrder(b)) + [x] + InOrder(a) == InOrder(d) + [y] + (InOrder(b) + [x] + InOrder(a));
    }
  }

  // ------------------------------------------------------------ colours

  predicate IsRed(t: Tree) { t.T? && t.red }

  /** Black nodes on the leftmost path. */
  ghost function BlackHeight(t: Tree): nat {
    match t
    case Leaf => 0
    case T(l, _, red, _) => BlackHeight(l) + if red then 0 else 1
  }

  /** Every path to a leaf has the same number of black nodes, and no red node has
      a red child. */
  ghost predicate Balanced(t: Tree) {
    match t
    case Leaf => true
    case T(l, _, red, r) =>
      Balanced(l) && Balanced(r) && BlackHeight(l) == BlackHeight(r) && (red ==> !IsRed(l) && !IsRed(r))
  }

  ghost predicate RbTree(t: Tree) { Balanced(t) && !IsRed(t) }

  predicate BlackAbove(c: Path) { c.Frame? && !c.red }

  /** A path that becomes a red-black tree when its hole is filled with a balanced
      tree of black height h and a black root. */
  ghost predicate PathOk(c: Path, h: nat) {
    match c
    case Top => true
    case Frame(_, _, red, sib, up) =>
      && Balanced(sib) && BlackHeight(sib) == h
      && (red ==> !IsRed(sib) && BlackAbove(up))
      && PathOk(up, if red then h else h + 1)
  }

  lemma {:induction false} PlugOk(c: Path, t: Tree)
    requires PathOk(c, BlackHeight(t)) && Balanced(t) && (IsRed(t) ==> BlackAbove(c))
    ensures RbTree(Plug(c, t))
    decreases c
  {
    if c.Frame? { PlugOk(c.up, Mk(c.s, t, c.x, c.red, c.sib)); }
  }

  ghost function Size(t: Tree): nat { if t == Leaf then 0 else Size(t.l) + 1 + Size(t.r) }

  ghost function Height(t: Tree): nat {
    if t == Leaf then 0 else 1 + if Height(t.l) > Height(t.r) then Height(t.l) else Height(t.r)
  }

  ghost function Pow2(n: nat): nat { if n == 0 then 1 else 2 * Pow2(n - 1) }

  lemma {:induction false} HeightBound(t: Tree)
    requires Balanced(t)
    ensures Height(t) <= 2 * BlackHeight(t) + if IsRed(t) then 1 else 0
    ensures Pow2(BlackHeight(t)) <= Size(t) + 1
  {
    if t.T? {
      HeightBound(t.l);
      HeightBound(t.r);
    }
  }

  lemma Quadruple(p: nat, q: nat)
    requires p <= q * q
    ensures 4 * p <= (2 * q) * (2 * q)
  {
    assert (2 * q) * (2 * q) == 4 * (q * q);
  }

  lemma {:induction false} Pow2Double(k: nat, h: nat)
    requires h <= 2 * k
    ensures Pow2(h) <= Pow2(k) * Pow2(k)
    decreases k
  {
    if h >= 2 {
      Pow2Double(k - 1, h - 2);
      Quadruple(Pow2(h - 2), Pow2(k - 1));
    } else if k > 0 {
      Pow2Pos(k - 1);
      SquareMonotone(2, Pow2(k));
    }
  }

  lemma {:induction false} Pow2Pos(n: nat)
    ensures Pow2(n) >= 1
  {
    if n > 0 { Pow2Pos(n - 1); }
  }

  /** Height is at most 2 lg (n + 1): 2^height <= (n + 1)^2. */
  lemma HeightLogarithmic(t: Tree)
    requires RbTree(t)
    ensures Pow2(Height(t)) <= (Size(t) + 1) * (Size(t) + 1)
  {
    HeightBound(t);
    Pow2Double(BlackHeight(t), Height(t));
    SquareMonotone(Pow2(BlackHeight(t)), Size(t) + 1);
  }

  lemma SquareMonotone(a: nat, b: nat)
    requires a <= b
    ensures a * a <= b * b
  {
    assert a * a <= a * b <= b * b;
  }

  // ------------------------------------------------------------ node sets

  ghost function Nodes(t: Tree): set<Ptr> {
    match t
    case Leaf => {}
    case T(l, x, _, r) => Nodes(l) + {x} + Nodes(r)
  }

  ghost function PathNodes(c: Path): set<Ptr> {
    match c
    case Top => {}
    case Frame(_, x, _, sib, up) => {x} + Nodes(sib) + PathNodes(up)
  }

  ghost predicate Distinct(t: Tree) {
    match t
    case Leaf => true
    case T(l, x, _, r) => Distinct(l) && Distinct(r) && Nodes(l) !! Nodes(r) && x !in Nodes(l) && x !in Nodes(r)
  }

  ghost predicate PathDistinct(c: Path) {
    match c
    case Top => true
    case Frame(_, x, _, sib, up) =>
      Distinct(sib) && PathDistinct(up) && Nodes(sib) !! PathNodes(up) && x !in Nodes(sib) && x !in PathNodes(up)
  }

  lemma {:induction false} PlugDistinct(c: Path, t: Tree)
    ensures Nodes(Plug(c, t)) == PathNodes(c) + Nodes(t)
    ensures Distinct(Plug(c, t)) <==> PathDistinct(c) && Distinct(t) && PathNodes(c) !! Nodes(t)
    decreases c
  {
    if c.Frame? { PlugDistinct(c.up, Mk(c.s, t, c.x, c.red, c.sib)); }
  }

  lemma {:induction false} InOrderNodes(t: Tree, x: Ptr)
    ensures x in InOrder(t) <==> x in Nodes(t)
  {
    if t.T? {
      InOrderNodes(t.l, x);
      InOrderNodes(t.r, x);
    }
  }

  /** The five parts of a rotation, before and after. */
  lemma Parts(s: Side, a: Tree, x: Ptr, cx: bool, b: Tree, y: Ptr, cy: bool, d: Tree)
    ensures var t, u := Mk(s, a, x, cx, Mk(s, b, y, cy, d)), Mk(s, Mk(s, a, x, cx, b), y, cy, d);
            && Nodes(t) == Nodes(a) + {x} + Nodes(b) + {y} + Nodes(d) == Nodes(u)
            && (Distinct(t) <==> Distinct(u))
            && (Distinct(t) ==>
                && Distinct(a) && Distinct(b) && Distinct(d) && x != y
                && Nodes(a) !! Nodes(b) && Nodes(a) !! Nodes(d) && Nodes(b) !! Nodes(d)
                && x !in Nodes(a) && x !in Nodes(b) && x !in Nodes(d)
                && y !in Nodes(a) && y !in Nodes(b) && y !in Nodes(d))
  {
    hide Nodes, Distinct, Mk;
    NodesMk(s, b, y, cy, d);
    NodesMk(s, a, x, cx, Mk(s, b, y, cy, d));
    NodesMk(s, a, x, cx, b);
    NodesMk(s, Mk(s, a, x, cx, b), y, cy, d);
  }

  lemma NodesMk(s: Side, a: Tree, x: Ptr, red: bool, b: Tree)
    ensures Nodes(Mk(s, a, x, red, b)) == Nodes(a) + {x} + Nodes(b)
    ensures Distinct(Mk(s, a, x, red, b)) <==>
            Distinct(a) && Distinct(b) && Nodes(a) !! Nodes(b) && x !in Nodes(a) && x !in Nodes(b)
  {
  }
}
