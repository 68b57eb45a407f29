/**
 Moving a missing black edge up the tree after a deletion (the loop of tdelete in
 tsearch.c).  Its two mirrored halves are one text here: l says whether the short
 subtree is the left successor, "near" is that side and "far" the sibling's.
 */
module Rebalance {
  import opened RedBlack
  import opened NodeMemory
  import opened Tsearch

  // -------------------------------------------------------- sides of a node

  ghost function Mk(l: bool, near: Tree, p: Ptr, k: int, red: bool, far: Tree): Tree
  {
    if l then Branch(near, p, k, red, far) else Branch(far, p, k, red, near)
  }

  ghost function Near(l: bool, t: Tree): Tree
    requires t.Branch?
  {
    if l then t.left else t.right
  }

  ghost function Far(l: bool, t: Tree): Tree
    requires t.Branch?
  {
    if l then t.right else t.left
  }

  function MkNode(l: bool, k: int, near: Ptr, far: Ptr, red: bool): Node
  {
    if l then Node(k, near, far, red) else Node(k, far, near, red)
  }

  // ------------------------------------------------------------- the deficit

  /** The subtree t is one black node short of what its context expects, unless
      it is red: then blackening its root repairs it. */
  ghost predicate Deficit(c: Ctx, t: Tree, lo: int, hi: int, b: int)
  {
    && OkCtx(c, lo, hi, b + 1) && b >= 0
    && (if IsRed(t) then Ok(Blacken(t), Lo(c, lo), Hi(c, hi), b + 1) else Ok(t, Lo(c, lo), Hi(c, hi), b))
  }

  ghost predicate Short(h: Heap, root: Ptr, c: Ctx, t: Tree, lo: int, hi: int, b: int)
  {
    Rep(h, t) && RepCtx(h, root, c, PtrOf(t)) && Deficit(c, t, lo, hi, b)
  }

  // ------------------------------------------------ the four cases, as trees

  /** Red sibling: rotate, so that the new sibling is black. */
  ghost function RedSiblingCtx(c: Ctx): Ctx
    requires c.Down? && c.other.Branch?
  {
    var q := c.other;
    Down(Down(c.up, c.isLeft, q.ptr, q.key, false, Far(c.isLeft, q)),
         c.isLeft, c.ptr, c.key, true, Near(c.isLeft, q))
  }

  /** Black nephews: colour the sibling red and pass the deficit on. */
  ghost function PassedUp(c: Ctx, t: Tree): Tree
    requires c.Down? && c.other.Branch?
  {
    Mk(c.isLeft, t, c.ptr, c.key, c.red, c.other.(red := true))
  }

  /** Only the near nephew is red: it goes on top. */
  ghost function NearNephewUp(c: Ctx, t: Tree): Tree
    requires c.Down? && c.other.Branch? && Near(c.isLeft, c.other).Branch?
  {
    var l, q := c.isLeft, c.other;
    var q2 := Near(l, q);
    Mk(l, Mk(l, t, c.ptr, c.key, false, Near(l, q2)), q2.ptr, q2.key, c.red,
       Mk(l, Far(l, q2), q.ptr, q.key, false, Far(l, q)))
  }

  /** The far nephew is red: the sibling goes on top, the nephew turns black. */
  ghost function SiblingUp(c: Ctx, t: Tree): Tree
    requires c.Down? && c.other.Branch?
  {
    var l, q := c.isLeft, c.other;
    Mk(l, Mk(l, t, c.ptr, c.key, false, Near(l, q)), q.ptr, q.key, c.red, Blacken(Far(l, q)))
  }

  /** Order, height and colours of a sibling's two subtrees. */
  lemma Nephews(c: Ctx, lo: int, hi: int, b: int)
    requires OkCtx(c, lo, hi, b + 1) && b >= 0 && c.Down?
    ensures c.other.Branch?
    ensures var q := c.other; var b1 := if q.red then b + 1 else b;
      && Ok(q.left, if c.isLeft then c.key else Lo(c.up, lo), q.key, b1)
      && Ok(q.right, q.key, if c.isLeft then Hi(c.up, hi) else c.key, b1)
      && (if c.isLeft then c.key < q.key < Hi(c.up, hi) else Lo(c.up, lo) < q.key < c.key)
      && (q.red ==> q.left.Branch? && q.right.Branch? && !q.left.red && !q.right.red)
    ensures OkCtx(c.up, lo, hi, if c.red then b + 1 else b + 2)
    ensures Lo(c.up, lo) < c.key < Hi(c.up, hi)
  {
    var q := c.other;
    var L, H := if c.isLeft then c.key else Lo(c.up, lo), if c.isLeft then Hi(c.up, hi) else c.key;
    assert Ok(q, L, H, b + 1);
  }

  lemma RedSiblingOk(c: Ctx, t: Tree, lo: int, hi: int, b: int)
    requires Deficit(c, t, lo, hi, b) && c.Down? && IsRed(c.other) && !IsRed(t)
    ensures !c.red
    ensures Deficit(RedSiblingCtx(c), t, lo, hi, b)
    ensures CtxNodes(RedSiblingCtx(c)) == CtxNodes(c)
    ensures !IsRed(RedSiblingCtx(c).other)
  {
    Nephews(c, lo, hi, b);
  }

  lemma PassedUpOk(c: Ctx, t: Tree, lo: int, hi: int, b: int)
    requires Deficit(c, t, lo, hi, b) && c.Down? && c.other.Branch? && !IsRed(c.other) && !IsRed(t)
    requires !IsRed(Near(c.isLeft, c.other)) && !IsRed(Far(c.isLeft, c.other))
    ensures Deficit(c.up, PassedUp(c, t), lo, hi, if c.red then b else b + 1)
    ensures CtxNodes(c.up) + Nodes(PassedUp(c, t)) == CtxNodes(c) + Nodes(t)
  {
  }

  lemma NearNephewOk(c: Ctx, t: Tree, lo: int, hi: int, b: int)
    requires Deficit(c, t, lo, hi, b) && c.Down? && c.other.Branch? && !IsRed(c.other) && !IsRed(t)
    requires IsRed(Near(c.isLeft, c.other)) && !IsRed(Far(c.isLeft, c.other))
    ensures var b' := if c.red then b + 1 else b + 2;
      OkCtx(c.up, lo, hi, b') && Ok(NearNephewUp(c, t), Lo(c.up, lo), Hi(c.up, hi), b')
    ensures Fits(c.up, NearNephewUp(c, t))
  {
    Nephews(c, lo, hi, b);
    var l, q := c.isLeft, c.other;
    var q2 := Near(l, q);
    var low := Mk(l, t, c.ptr, c.key, false, Near(l, q2));
    var high := Mk(l, Far(l, q2), q.ptr, q.key, false, Far(l, q));
    if l {
      assert Ok(low, Lo(c.up, lo), q2.key, b + 1) && Ok(high, q2.key, Hi(c.up, hi), b + 1);
    } else {
      assert Ok(low, q2.key, Hi(c.up, hi), b + 1) && Ok(high, Lo(c.up, lo), q2.key, b + 1);
    }
  }

  lemma NearNephewNodes(c: Ctx, t: Tree)
    requires c.Down? && c.other.Branch? && Near(c.isLeft, c.other).Branch?
    ensures CtxNodes(c.up) + Nodes(NearNephewUp(c, t)) == CtxNodes(c) + Nodes(t)
  {
    var l, q := c.isLeft, c.other;
    var q2 := Near(l, q);
    assert Nodes(q) == Nodes(q2) + {(q.ptr, q.key)} + Nodes(Far(l, q));
    assert Nodes(q2) == Nodes(Near(l, q2)) + {(q2.ptr, q2.key)} + Nodes(Far(l, q2));
    assert Nodes(Mk(l, t, c.ptr, c.key, false, Near(l, q2))) == Nodes(t) + {(c.ptr, c.key)} + Nodes(Near(l, q2));
    assert Nodes(Mk(l, Far(l, q2), q.ptr, q.key, false, Far(l, q)))
        == Nodes(Far(l, q2)) + {(q.ptr, q.key)} + Nodes(Far(l, q));
  }

  lemma SiblingUpOk(c: Ctx, t: Tree, lo: int, hi: int, b: int)
    requires Deficit(c, t, lo, hi, b) && c.Down? && c.other.Branch? && !IsRed(c.other) && !IsRed(t)
    requires IsRed(Far(c.isLeft, c.other))
    ensures var b' := if c.red then b + 1 else b + 2;
      OkCtx(c.up, lo, hi, b') && Ok(SiblingUp(c, t), Lo(c.up, lo), Hi(c.up, hi), b')
    ensures Fits(c.up, SiblingUp(c, t))
    ensures CtxNodes(c.up) + Nodes(SiblingUp(c, t)) == CtxNodes(c) + Nodes(t)
  {
    Nephews(c, lo, hi, b);
    var l, q := c.isLeft, c.other;
    var low := Mk(l, t, c.ptr, c.key, false, Near(l, q));
    var far := Blacken(Far(l, q));
    assert Nodes(far) == Nodes(Far(l, q));
    if l {
      assert Ok(low, Lo(c.up, lo), q.key, b + 1) && Ok(far, q.key, Hi(c.up, hi), b + 1);
    } else {
      assert Ok(low, q.key, Hi(c.up, hi), b + 1) && Ok(far, Lo(c.up, lo), q.key, b + 1);
    }
  }

  // ------------------------------------------------ the four cases, in memory

  /** A rotation at c's node changes nothing above it, in the short subtree, or
      below the nephews. */
  lemma KeptAroundSibling(h: Heap, root: Ptr, c: Ctx, t: Tree, lo: int, hi: int, b: int,
                          h': Heap, root': Ptr, v: Ptr, changed: set<int>)
    requires Short(h, root, c, t, lo, hi, b) && c.Down? && c.other.Branch?
    requires root' == StoreRoot(root, CellOf(c.up), v)
    requires Spares(StoreHeap(h, CellOf(c.up), v), h', changed)
    requires changed <= {c.key, c.other.key} + Keys1(c.other.left) + Keys1(c.other.right)
    ensures RepCtx(h', root', c.up, v)
    ensures !IsRed(t) ==> Rep(h', t)
    ensures KeptNephew(h', c.other.left, changed) && KeptNephew(h', c.other.right, changed)
  {
    hide Ok, OkCtx, RepCtx, Rep, Spares, StoreHeap, StoreRoot, CellOf, CellKeys, Lo, Hi;
    var bu := if c.red then b + 1 else b + 2;
    ShortParts(h, root, c, t, lo, hi, b);
    Nephews(c, lo, hi, b);
    NephewKeys(c, lo, hi, b);
    StoreCell(h, root, c.up, c.ptr, v, lo, hi, bu, h', root', changed);
    RotationSpares(h, root, c.up, c.ptr, v, h', changed);
    CellKeysOutside(c.up, lo, hi, bu);
    KeptInside(h, c, t, lo, hi, b, h', changed + CellKeys(c.up), changed);
  }

  lemma ShortParts(h: Heap, root: Ptr, c: Ctx, t: Tree, lo: int, hi: int, b: int)
    requires Short(h, root, c, t, lo, hi, b) && c.Down?
    ensures OkCtx(c, lo, hi, b + 1) && b >= 0 && RepCtx(h, root, c.up, c.ptr)
    ensures Rep(h, c.other) && Rep(h, t) && (!IsRed(t) ==> Ok(t, Lo(c, lo), Hi(c, hi), b))
  {
  }

  lemma KeptInside(h: Heap, c: Ctx, t: Tree, lo: int, hi: int, b: int, h': Heap, all: set<int>, changed: set<int>)
    requires c.Down? && c.other.Branch? && Rep(h, c.other) && Rep(h, t)
    requires OkCtx(c, lo, hi, b + 1) && b >= 0 && (!IsRed(t) ==> Ok(t, Lo(c, lo), Hi(c, hi), b))
    requires Spares(h, h', all) && changed <= all
    requires changed <= {c.key, c.other.key} + Keys1(c.other.left) + Keys1(c.other.right)
    requires forall k :: k in all ==> k in changed || k <= Lo(c.up, lo) || Hi(c.up, hi) <= k
    ensures !IsRed(t) ==> Rep(h', t)
    ensures KeptNephew(h', c.other.left, changed) && KeptNephew(h', c.other.right, changed)
  {
    hide Ok, OkCtx, Spares, KeptNephew;
    Nephews(c, lo, hi, b);
    NephewKeys(c, lo, hi, b);
    var L, H := if c.isLeft then c.key else Lo(c.up, lo), if c.isLeft then Hi(c.up, hi) else c.key;
    var b1 := if c.other.red then b + 1 else b;
    NephewKept(h, h', c.other.left, L, c.other.key, b1, all, changed);
    NephewKept(h, h', c.other.right, c.other.key, H, b1, all, changed);
    if !IsRed(t) {
      RepSpared(h, h', t, Lo(c, lo), Hi(c, hi), b, all);
    }
  }

  ghost predicate KeptNephew(h': Heap, x: Tree, changed: set<int>)
  {
    && (x.Branch? ==> Rep(h', x.left) && Rep(h', x.right))
    && (Keys1(x) !! changed ==> Rep(h', x))
  }

  lemma NephewKept(h: Heap, h': Heap, x: Tree, lo: int, hi: int, b: int, all: set<int>, changed: set<int>)
    requires Rep(h, x) && Ok(x, lo, hi, b) && Spares(h, h', all) && changed <= all
    requires forall k :: k in all ==> k <= lo || hi <= k || (k in Keys1(x) && k in changed)
    ensures KeptNephew(h', x, changed)
  {
    if x.Branch? {
      RepSpared(h, h', x.left, lo, x.key, if x.red then b else b - 1, all);
      RepSpared(h, h', x.right, x.key, hi, if x.red then b else b - 1, all);
      if x.key !in changed {
        RepSpared(h, h', x, lo, hi, b, all);
      }
    }
  }

  /** Where the keys of a sibling and its children lie. */
  lemma NephewKeys(c: Ctx, lo: int, hi: int, b: int)
    requires OkCtx(c, lo, hi, b + 1) && b >= 0 && c.Down? && c.other.Branch?
    ensures forall k :: k in Keys1(c.other.left) ==>
      (if c.isLeft then c.key else Lo(c.up, lo)) < k < c.other.key
    ensures forall k :: k in Keys1(c.other.right) ==>
      c.other.key < k < if c.isLeft then Hi(c.up, hi) else c.key
    ensures Lo(c.up, lo) < c.key < Hi(c.up, hi)
    ensures if c.isLeft then c.key < c.other.key < Hi(c.up, hi) else Lo(c.up, lo) < c.other.key < c.key
    ensures c.isLeft ==> Hi(c, hi) == c.key && Lo(c, lo) == Lo(c.up, lo)
    ensures !c.isLeft ==> Lo(c, lo) == c.key && Hi(c, hi) == Hi(c.up, hi)
  {
    Nephews(c, lo, hi, b);
  }

  ghost predicate NodeAt(h: Heap, t: Tree)
  {
    t.Branch? ==> t.ptr != NULL && t.ptr in h && h[t.ptr] == Node(t.key, PtrOf(t.left), PtrOf(t.right), t.red)
  }

  lemma OneUp(h: Heap, root: Ptr, c: Ctx, v: Ptr)
    requires RepCtx(h, root, c, v) && c.Down?
    ensures RepCtx(h, root, c.up, c.ptr) && Rep(h, c.other)
    ensures c.other.Branch? ==> Rep(h, c.other.left) && Rep(h, c.other.right)
    ensures c.ptr != NULL && c.ptr in h && h[c.ptr] == MkNode(c.isLeft, c.key, v, PtrOf(c.other), c.red)
    ensures NodeAt(h, c.other)
    ensures CellHolds(h, root, CellOf(c.up), c.ptr)
  {
  }

  /** The heap facts at a rotation: the nodes involved are distinct, and the cell
      that is overwritten is not in any of them. */
  lemma SiblingNodes(h: Heap, root: Ptr, c: Ctx, t: Tree, lo: int, hi: int, b: int)
    requires Short(h, root, c, t, lo, hi, b) && c.Down? && c.other.Branch?
    ensures CellOf(c.up) != RootCell ==> CellOf(c.up).ptr in h
    ensures CellOf(c.up) != RootCell ==>
      h[CellOf(c.up).ptr].key !in {c.key, c.other.key} + Keys1(c.other.left) + Keys1(c.other.right)
    ensures c.key != c.other.key
    ensures Keys1(c.other.left) !! {c.key, c.other.key} && Keys1(c.other.right) !! {c.key, c.other.key}
    ensures Keys1(c.other.left) !! Keys1(c.other.right)
    ensures NodeAt(h, c.other) && NodeAt(h, c.other.left) && NodeAt(h, c.other.right)
  {
    hide Ok;
    OneUp(h, root, c, PtrOf(t));
    NephewKeys(c, lo, hi, b);
    Nephews(c, lo, hi, b);
    CellKeysOutside(c.up, lo, hi, if c.red then b + 1 else b + 2);
    StoreSpares(h, c.up, c.ptr, c.ptr, root);
  }

  /** After the nodes at ps, with the keys in changed, have been relinked, the link to
      P is stored: all else is as it was. */
  lemma StoredAround(h: Heap, root: Ptr, c: Ctx, t: Tree, lo: int, hi: int, b: int, h1: Heap,
                     ps: set<Ptr>, v: Ptr, changed: set<int>)
    requires Short(h, root, c, t, lo, hi, b) && c.Down? && c.other.Branch?
    requires changed <= {c.key, c.other.key} + Keys1(c.other.left) + Keys1(c.other.right)
    requires h1.Keys == h.Keys && forall x :: x in h && x !in ps ==> h1[x] == h[x]
    requires forall x :: x in ps ==> x in h && h[x].key in changed && h1[x].key == h[x].key
    ensures var h2, root2 := StoreHeap(h1, CellOf(c.up), v), StoreRoot(root, CellOf(c.up), v);
      && RepCtx(h2, root2, c.up, v) && (!IsRed(t) ==> Rep(h2, t))
      && KeptNephew(h2, c.other.left, changed) && KeptNephew(h2, c.other.right, changed)
      && forall x :: x in ps ==> x in h2 && h2[x] == h1[x]
  {
    hide Ok, OkCtx, Rep, RepCtx, Deficit, Spares, StoreHeap, StoreRoot, KeptNephew, CellOf;
    var pp := CellOf(c.up);
    SiblingNodes(h, root, c, t, lo, hi, b);
    SparesPointers(h, h1, ps, changed);
    StoreCommutes(h, h1, pp, v, changed);
    StoreElsewhere(h1, pp, v, ps);
    KeptAroundSibling(h, root, c, t, lo, hi, b, StoreHeap(h1, pp, v), StoreRoot(root, pp, v), v, changed);
  }

  /** Q is red: q->red = 0, p->red = 1, rotate p. */
  method RotateRedSibling(s: Memory, l: bool, p: Ptr, q: Ptr, pp: Link,
                          ghost c: Ctx, ghost t: Tree, ghost lo: int, ghost hi: int, ghost b: int)
    requires Short(s.heap, s.root, c, t, lo, hi, b) && c.Down? && IsRed(c.other) && !IsRed(t)
    requires l == c.isLeft && p == c.ptr && q == c.other.ptr && pp == CellOf(c.up)
    modifies s`heap, s`root
    ensures Short(s.heap, s.root, RedSiblingCtx(c), t, lo, hi, b)
  {
    hide Ok, OkCtx, Rep, RepCtx, Deficit, CellOf, Spares, StoreHeap;
    ghost var h, r := s.heap, s.root;
    OneUp(h, r, c, PtrOf(t));
    SiblingNodes(h, r, c, t, lo, hi, b);
    RedSiblingOk(c, t, lo, hi, b);
    SiblingThere(c, t, lo, hi, b);
    RelinkRed(s, l, p, q);
    StoredAround(h, r, c, t, lo, hi, b, s.heap, {p, q}, q, {c.key, c.other.key});
    s.Store(pp, q);
    RedSiblingRep(s.heap, s.root, c, t);
  }

  method RelinkRed(s: Memory, l: bool, p: Ptr, q: Ptr)
    requires p in s.heap && q in s.heap && p != q
    modifies s`heap
    ensures s.heap.Keys == old(s.heap.Keys)
    ensures forall x :: x in s.heap && x !in {p, q} ==> s.heap[x] == old(s.heap)[x]
    ensures s.heap[q] == MkNode(l, old(s.heap[q].key), p, old(s.Succ(q, !l)), false)
    ensures s.heap[p] == MkNode(l, old(s.heap[p].key), old(s.Succ(p, l)), old(s.Succ(q, l)), true)
  {
    s.SetRed(q, false);
    s.SetRed(p, true);
    s.SetSucc(p, !l, s.Succ(q, l));
    s.SetSucc(q, l, p);
  }

  /** Next to a deficit there is a sibling, and a red one has both successors. */
  lemma SiblingThere(c: Ctx, t: Tree, lo: int, hi: int, b: int)
    requires Deficit(c, t, lo, hi, b) && c.Down?
    ensures c.other.Branch?
    ensures IsRed(c.other) ==> c.other.left.Branch? && c.other.right.Branch?
  {
    Nephews(c, lo, hi, b);
  }

  lemma RedSiblingRep(h: Heap, root: Ptr, c: Ctx, t: Tree)
    requires c.Down? && c.other.Branch? && c.ptr != NULL && c.other.ptr != NULL
    requires RepCtx(h, root, c.up, c.other.ptr) && Rep(h, c.other.left) && Rep(h, c.other.right)
    requires c.ptr in h && h[c.ptr] == MkNode(c.isLeft, c.key, PtrOf(t), PtrOf(Near(c.isLeft, c.other)), true)
    requires c.other.ptr in h
    requires h[c.other.ptr] == MkNode(c.isLeft, c.other.key, c.ptr, PtrOf(Far(c.isLeft, c.other)), false)
    ensures RepCtx(h, root, RedSiblingCtx(c), PtrOf(t))
  {
  }

  /** Q has two black successors: q->red = 1. */
  method ColourSibling(s: Memory, q: Ptr, ghost c: Ctx, ghost t: Tree, ghost lo: int, ghost hi: int, ghost b: int)
    requires Short(s.heap, s.root, c, t, lo, hi, b) && c.Down? && c.other.Branch? && !IsRed(c.other) && !IsRed(t)
    requires !IsRed(Near(c.isLeft, c.other)) && !IsRed(Far(c.isLeft, c.other))
    requires q == c.other.ptr
    modifies s`heap
    ensures Short(s.heap, s.root, c.up, PassedUp(c, t), lo, hi, if c.red then b else b + 1)
  {
    hide Ok, OkCtx, Rep, RepCtx, Deficit, CellOf;
    ghost var h := s.heap;
    OneUp(h, s.root, c, PtrOf(t));
    SiblingNodes(h, s.root, c, t, lo, hi, b);
    s.SetRed(q, true);
    ColouredKept(h, s.root, c, t, lo, hi, b, s.heap);
    PassedUpOk(c, t, lo, hi, b);
    PassedUpRep(s.heap, c, t);
  }

  lemma ColouredKept(h: Heap, root: Ptr, c: Ctx, t: Tree, lo: int, hi: int, b: int, h': Heap)
    requires Short(h, root, c, t, lo, hi, b) && c.Down? && c.other.Branch? && !IsRed(t)
    requires Spares(h, h', {c.other.key})
    ensures RepCtx(h', root, c.up, c.ptr) && Rep(h', t)
    ensures Rep(h', c.other.left) && Rep(h', c.other.right)
  {
    hide Ok, OkCtx, RepCtx, Rep, Spares, Lo, Hi;
    ShortParts(h, root, c, t, lo, hi, b);
    Nephews(c, lo, hi, b);
    NephewKeys(c, lo, hi, b);
    CtxSpared(h, h', root, c.up, c.ptr, lo, hi, if c.red then b + 1 else b + 2, {c.other.key});
    KeptInside(h, c, t, lo, hi, b, h', {c.other.key}, {c.other.key});
  }

  lemma PassedUpRep(h: Heap, c: Ctx, t: Tree)
    requires c.Down? && c.other.Branch? && c.ptr != NULL && c.other.ptr != NULL
    requires Rep(h, t) && Rep(h, c.other.left) && Rep(h, c.other.right)
    requires c.ptr in h && h[c.ptr] == MkNode(c.isLeft, c.key, PtrOf(t), c.other.ptr, c.red)
    requires c.other.ptr in h
    requires h[c.other.ptr] == Node(c.other.key, PtrOf(c.other.left), PtrOf(c.other.right), true)
    ensures Rep(h, PassedUp(c, t))
  {
    assert Rep(h, c.other.(red := true));
  }

  /** Q's far successor is black, the near one (Q2) red: Q2 becomes the top of the
      subtree, with the colour P had; P becomes black. */
  method LiftNearNephew(s: Memory, l: bool, p: Ptr, q: Ptr, pp: Link,
                        ghost c: Ctx, ghost t: Tree, ghost lo: int, ghost hi: int, ghost b: int)
    requires Short(s.heap, s.root, c, t, lo, hi, b) && c.Down? && c.other.Branch? && !IsRed(c.other) && !IsRed(t)
    requires IsRed(Near(c.isLeft, c.other)) && !IsRed(Far(c.isLeft, c.other))
    requires l == c.isLeft && p == c.ptr && q == c.other.ptr && pp == CellOf(c.up)
    modifies s`heap, s`root
    ensures Zip(s.heap, s.root, c.up, NearNephewUp(c, t), lo, hi, if c.red then b + 1 else b + 2)
    ensures Fits(c.up, NearNephewUp(c, t))
  {
    hide Ok, OkCtx, Rep, RepCtx, Deficit, CellOf, Spares, StoreHeap, KeptNephew;
    ghost var h, r := s.heap, s.root;
    OneUp(h, r, c, PtrOf(t));
    SiblingNodes(h, r, c, t, lo, hi, b);
    NearNephewOk(c, t, lo, hi, b);
    var q2 := s.Succ(q, l);
    RelinkNephew(s, l, p, q, q2);
    ghost var changed := {c.key, c.other.key} + Keys1(Near(l, c.other));
    StoredAround(h, r, c, t, lo, hi, b, s.heap, {p, q, q2}, q2, changed);
    s.Store(pp, q2);
    NearNephewRep(s.heap, c, t, changed);
  }

  method RelinkNephew(s: Memory, l: bool, p: Ptr, q: Ptr, q2: Ptr)
    requires p in s.heap && q in s.heap && q2 in s.heap
    requires p != q && p != q2 && q != q2
    modifies s`heap
    ensures s.heap.Keys == old(s.heap.Keys)
    ensures forall x :: x in s.heap && x !in {p, q, q2} ==> s.heap[x] == old(s.heap)[x]
    ensures s.heap[q2] == MkNode(l, old(s.heap[q2].key), p, q, old(s.heap[p].red))
    ensures s.heap[p] == MkNode(l, old(s.heap[p].key), old(s.Succ(p, l)), old(s.Succ(q2, l)), false)
    ensures s.heap[q] == MkNode(l, old(s.heap[q].key), old(s.Succ(q2, !l)), old(s.Succ(q, !l)), old(s.heap[q].red))
  {
    s.SetRed(q2, s.heap[p].red);
    s.SetSucc(p, !l, s.Succ(q2, l));
    s.SetSucc(q, l, s.Succ(q2, !l));
    s.SetSucc(q2, !l, q);
    s.SetSucc(q2, l, p);
    s.SetRed(p, false);
  }

  lemma NearNephewRep(h: Heap, c: Ctx, t: Tree, changed: set<int>)
    requires c.Down? && c.other.Branch? && Near(c.isLeft, c.other).Branch?
    requires c.ptr != NULL && c.other.ptr != NULL && Near(c.isLeft, c.other).ptr != NULL
    requires Rep(h, t)
    requires KeptNephew(h, Near(c.isLeft, c.other), changed) && KeptNephew(h, Far(c.isLeft, c.other), changed)
    requires Keys1(Far(c.isLeft, c.other)) !! changed
    requires c.ptr in h && c.other.ptr in h && Near(c.isLeft, c.other).ptr in h
    requires var l, q := c.isLeft, c.other; var q2 := Near(l, q);
      && h[c.ptr] == MkNode(l, c.key, PtrOf(t), PtrOf(Near(l, q2)), false)
      && h[q.ptr] == MkNode(l, q.key, PtrOf(Far(l, q2)), PtrOf(Far(l, q)), false)
      && h[q2.ptr] == MkNode(l, q2.key, c.ptr, q.ptr, c.red)
    ensures Rep(h, NearNephewUp(c, t))
  {
    var l, q := c.isLeft, c.other;
    var q2 := Near(l, q);
    assert Rep(h, Mk(l, t, c.ptr, c.key, false, Near(l, q2)));
    assert Rep(h, Mk(l, Far(l, q2), q.ptr, q.key, false, Far(l, q)));
  }

  /** Q's far successor is red: rotate P.  Q gets the colour P had; P and the far
      successor become black. */
  method LiftSibling(s: Memory, l: bool, p: Ptr, q: Ptr, pp: Link,
                     ghost c: Ctx, ghost t: Tree, ghost lo: int, ghost hi: int, ghost b: int)
    requires Short(s.heap, s.root, c, t, lo, hi, b) && c.Down? && c.other.Branch? && !IsRed(c.other) && !IsRed(t)
    requires IsRed(Far(c.isLeft, c.other))
    requires l == c.isLeft && p == c.ptr && q == c.other.ptr && pp == CellOf(c.up)
    modifies s`heap, s`root
    ensures Zip(s.heap, s.root, c.up, SiblingUp(c, t), lo, hi, if c.red then b + 1 else b + 2)
    ensures Fits(c.up, SiblingUp(c, t))
  {
    hide Ok, OkCtx, Rep, RepCtx, Deficit, CellOf, Spares, StoreHeap, KeptNephew;
    ghost var h, r := s.heap, s.root;
    SuccFacts(s, c, t, lo, hi, b);
    SiblingUpOk(c, t, lo, hi, b);
    hide MkNode, SiblingUp, Short;
    ghost var far := Far(l, c.other).ptr;
    RelinkSibling(s, l, p, q);
    ghost var changed := {c.key, c.other.key} + Keys1(Far(l, c.other));
    StoredAround(h, r, c, t, lo, hi, b, s.heap, {p, q, far}, q, changed);
    s.Store(pp, q);
    SiblingUpRep(s.heap, c, t, changed);
  }

  /** What the memory holds at P, Q and Q's successors. */
  lemma SuccFacts(s: Memory, c: Ctx, t: Tree, lo: int, hi: int, b: int)
    requires Short(s.heap, s.root, c, t, lo, hi, b) && c.Down? && c.other.Branch? && Far(c.isLeft, c.other).Branch?
    ensures var l, p, q, far := c.isLeft, c.ptr, c.other.ptr, Far(c.isLeft, c.other);
      && p in s.heap && q in s.heap && far.ptr in s.heap && p != NULL && q != NULL && far.ptr != NULL
      && p != q && p != far.ptr && q != far.ptr
      && s.heap[p].key == c.key && s.heap[p].red == c.red && s.Succ(p, l) == PtrOf(t)
      && s.heap[q].key == c.other.key && s.Succ(q, l) == PtrOf(Near(l, c.other)) && s.Succ(q, !l) == far.ptr
      && s.heap[far.ptr] == Node(far.key, PtrOf(far.left), PtrOf(far.right), far.red)
      && s.HasCell(CellOf(c.up))
      && Keys1(Near(l, c.other)) !! {c.key, c.other.key} + Keys1(far)
  {
    hide Ok, OkCtx, Rep, RepCtx, Deficit, CellOf;
    OneUp(s.heap, s.root, c, PtrOf(t));
    SiblingNodes(s.heap, s.root, c, t, lo, hi, b);
  }

  method RelinkSibling(s: Memory, l: bool, p: Ptr, q: Ptr)
    requires p in s.heap && q in s.heap && s.Succ(q, !l) in s.heap
    requires p != q && p != s.Succ(q, !l) && q != s.Succ(q, !l)
    modifies s`heap
    ensures s.heap.Keys == old(s.heap.Keys)
    ensures forall x :: x in s.heap && x !in {p, q, old(s.Succ(q, !l))} ==> s.heap[x] == old(s.heap)[x]
    ensures s.heap[q] == MkNode(l, old(s.heap[q].key), p, old(s.Succ(q, !l)), old(s.heap[p].red))
    ensures s.heap[p] == MkNode(l, old(s.heap[p].key), old(s.Succ(p, l)), old(s.Succ(q, l)), false)
    ensures s.heap[old(s.Succ(q, !l))] == old(s.heap[s.Succ(q, !l)].(red := false))
  {
    s.SetRed(q, s.heap[p].red);
    s.SetRed(p, false);
    s.SetRed(s.Succ(q, !l), false);
    s.SetSucc(p, !l, s.Succ(q, l));
    s.SetSucc(q, l, p);
  }

  lemma SiblingUpRep(h: Heap, c: Ctx, t: Tree, changed: set<int>)
    requires c.Down? && c.other.Branch? && Far(c.isLeft, c.other).Branch?
    requires c.ptr != NULL && c.other.ptr != NULL && Far(c.isLeft, c.other).ptr != NULL
    requires Rep(h, t)
    requires KeptNephew(h, Near(c.isLeft, c.other), changed) && KeptNephew(h, Far(c.isLeft, c.other), changed)
    requires Keys1(Near(c.isLeft, c.other)) !! changed
    requires c.ptr in h && c.other.ptr in h && Far(c.isLeft, c.other).ptr in h
    requires var l, q := c.isLeft, c.other; var far := Far(l, q);
      && h[c.ptr] == MkNode(l, c.key, PtrOf(t), PtrOf(Near(l, q)), false)
      && h[q.ptr] == MkNode(l, q.key, c.ptr, far.ptr, c.red)
      && h[far.ptr] == Node(far.key, PtrOf(far.left), PtrOf(far.right), false)
    ensures Rep(h, SiblingUp(c, t))
  {
    var l, q := c.isLeft, c.other;
    assert Rep(h, Mk(l, t, c.ptr, c.key, false, Near(l, q)));
    assert Rep(h, Blacken(Far(l, q)));
  }
}
