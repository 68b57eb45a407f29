/** Top-down insertion (maybe_split_for_insert and tsearch in tsearch.c). */
module Tsearch {
  import opened RedBlack
  import opened NodeMemory

  ghost function Blacken(t: Tree): Tree
  {
    if t.Leaf? then Leaf else t.(red := false)
  }

  /** A split node: itself red, both successors black. */
  ghost function Recoloured(t: Tree): Tree
    requires t.Branch?
  {
    t.(left := Blacken(t.left), red := true, right := Blacken(t.right))
  }

  ghost predicate Splits(mode: nat, t: Tree)
  {
    t.Branch? && (mode == 1 || (IsRed(t.left) && IsRed(t.right)))
  }

  /** The parent and grandparent links and directions are right where a split
      at c would use them. */
  ghost predicate LinksFor(c: Ctx, parentp: OptLink, gparentp: OptLink, pR: int, gpR: int)
  {
    && (c.Top? ==> parentp == NoLink)
    && (c.Down? ==> parentp == SomeLink(CellOf(c.up)) && pR != 0 && (pR < 0 <==> c.isLeft))
    && (ParentRed(c) ==>
          && c.up.Down? && !IsRed(c.up.other)
          && gparentp == SomeLink(CellOf(c.up.up)) && gpR != 0 && (gpR < 0 <==> c.up.isLeft))
  }

  // ------------------------------------------------------------- rotations

  /** Rotating at the grandparent g = c.up when both red edges point the same
      way: p = c moves up, g becomes its other child. */
  ghost function SingleCtx(c: Ctx): Ctx
    requires c.Down? && c.up.Down?
  {
    var g := c.up;
    Down(g.up, c.isLeft, c.ptr, c.key, false,
         if c.isLeft then Branch(c.other, g.ptr, g.key, true, g.other)
         else Branch(g.other, g.ptr, g.key, true, c.other))
  }

  lemma SingleOk(c: Ctx, t: Tree, lo: int, hi: int, b: int)
    requires OkCtx(c, lo, hi, b) && ParentRed(c) && c.up.Down?
    requires c.isLeft == c.up.isLeft && !IsRed(c.up.other)
    ensures OkCtx(SingleCtx(c), lo, hi, b) && CtxNodes(SingleCtx(c)) == CtxNodes(c)
    ensures Lo(SingleCtx(c), lo) == Lo(c, lo) && Hi(SingleCtx(c), hi) == Hi(c, hi)
  {
    assert OkCtx(c.up, lo, hi, b);
    assert OkCtx(c.up.up, lo, hi, b + 1);
  }

  lemma SingleRotation(h: Heap, root: Ptr, c: Ctx, t: Tree, lo: int, hi: int, b: int, h': Heap, root': Ptr)
    requires Zip(h, root, c, t, lo, hi, b)
    requires ParentRed(c) && c.up.Down? && c.isLeft == c.up.isLeft && !IsRed(c.up.other)
    requires root' == StoreRoot(root, CellOf(c.up.up), c.ptr)
    requires Spares(StoreHeap(h, CellOf(c.up.up), c.ptr), h', {c.key, c.up.key})
    requires c.ptr in h' && c.up.ptr in h'
    requires h'[c.ptr] == (if c.isLeft then Node(c.key, PtrOf(t), c.up.ptr, false)
                           else Node(c.key, c.up.ptr, PtrOf(t), false))
    requires h'[c.up.ptr] == (if c.isLeft then Node(c.up.key, PtrOf(c.other), PtrOf(c.up.other), true)
                              else Node(c.up.key, PtrOf(c.up.other), PtrOf(c.other), true))
    ensures Zip(h', root', SingleCtx(c), t, lo, hi, b)
  {
    hide Ok, OkCtx, Spares, StoreHeap, StoreRoot, CellOf, CtxNodes, Lo, Hi;
    KeptAround(h, root, c, t, lo, hi, b, h', root', c.ptr, {c.key, c.up.key});
    InnerKey(c, t, lo, hi, b);
    assert RepCtx(h, root, c.up, c.ptr);
    SingleOk(c, t, lo, hi, b);
  }

  /** A subtree's key differs from its parent's and grandparent's. */
  lemma InnerKey(c: Ctx, t: Tree, lo: int, hi: int, b: int)
    requires c.Down? && c.up.Down?
    requires OkCtx(c, lo, hi, b) && Ok(t, Lo(c, lo), Hi(c, hi), b)
    ensures t.Branch? ==> t.key != c.key && t.key != c.up.key && c.key != c.up.key
  {
    assert OkCtx(c.up, lo, hi, if c.red then b else b + 1);
  }

  /** A rotation at the grandparent leaves alone the four subtrees below it and
      everything above it. */
  lemma KeptAround(h: Heap, root: Ptr, c: Ctx, t: Tree, lo: int, hi: int, b: int, h': Heap, root': Ptr,
                   v: Ptr, changed: set<int>)
    requires Zip(h, root, c, t, lo, hi, b) && ParentRed(c) && c.up.Down?
    requires root' == StoreRoot(root, CellOf(c.up.up), v)
    requires Spares(StoreHeap(h, CellOf(c.up.up), v), h', changed)
    requires changed <= {c.key, c.up.key} + (if t.Branch? then {t.key} else {})
    ensures RepCtx(h', root', c.up.up, v)
    ensures Rep(h', c.other) && Rep(h', c.up.other)
    ensures t.Branch? ==> Rep(h', t.left) && Rep(h', t.right)
    ensures (t.Branch? ==> t.key !in changed) ==> Rep(h', t)
  {
    hide Ok, OkCtx, RepCtx, Rep, Spares, StoreHeap, StoreRoot, CellOf, Lo, Hi;
    var g := c.up;
    var up := g.up;
    TwoUp(h, root, c, PtrOf(t), lo, hi, b);
    InsideGrandparent(c, t, lo, hi, b);
    StoreCell(h, root, up, g.ptr, v, lo, hi, b + 1, h', root', changed);
    RotationSpares(h, root, up, g.ptr, v, h', changed);
    CellKeysOutside(up, lo, hi, b + 1);
    KeptBelow(h, c, t, lo, hi, b, h', changed + CellKeys(up));
  }

  lemma TwoUp(h: Heap, root: Ptr, c: Ctx, v: Ptr, lo: int, hi: int, b: int)
    requires ParentRed(c) && c.up.Down?
    requires OkCtx(c, lo, hi, b) && RepCtx(h, root, c, v)
    ensures OkCtx(c.up, lo, hi, b) && RepCtx(h, root, c.up, c.ptr) && !c.up.red
    ensures OkCtx(c.up.up, lo, hi, b + 1) && RepCtx(h, root, c.up.up, c.up.ptr)
    ensures Rep(h, c.other) && Rep(h, c.up.other)
  {
    assert OkCtx(c.up, lo, hi, b) && RepCtx(h, root, c.up, c.ptr);
  }

  lemma InsideGrandparent(c: Ctx, t: Tree, lo: int, hi: int, b: int)
    requires ParentRed(c) && c.up.Down?
    requires OkCtx(c, lo, hi, b) && Ok(t, Lo(c, lo), Hi(c, hi), b)
    ensures Lo(c.up.up, lo) < c.key < Hi(c.up.up, hi)
    ensures Lo(c.up.up, lo) < c.up.key < Hi(c.up.up, hi)
    ensures t.Branch? ==> Lo(c.up.up, lo) < t.key < Hi(c.up.up, hi)
  {
    assert OkCtx(c.up, lo, hi, b);
  }

  lemma KeptBelow(h: Heap, c: Ctx, t: Tree, lo: int, hi: int, b: int, h': Heap, changed: set<int>)
    requires ParentRed(c) && c.up.Down?
    requires Rep(h, t) && Rep(h, c.other) && Rep(h, c.up.other)
    requires OkCtx(c, lo, hi, b) && Ok(t, Lo(c, lo), Hi(c, hi), b)
    requires Spares(h, h', changed)
    requires forall k :: k in changed ==>
      || k == c.key || k == c.up.key || (t.Branch? && k == t.key)
      || k <= Lo(c.up.up, lo) || Hi(c.up.up, hi) <= k
    ensures Rep(h', c.other) && Rep(h', c.up.other)
    ensures t.Branch? ==> Rep(h', t.left) && Rep(h', t.right)
    ensures (t.Branch? ==> t.key !in changed) ==> Rep(h', t)
  {
    assert OkCtx(c.up, lo, hi, b);
    InsideGrandparent(c, t, lo, hi, b);
    SiblingKept(h, c, lo, hi, b, h', changed);
    SiblingKept(h, c.up, lo, hi, b, h', changed);
    if t.Branch? {
      RepSpared(h, h', t.left, Lo(c, lo), t.key, if t.red then b else b - 1, changed);
      RepSpared(h, h', t.right, t.key, Hi(c, hi), if t.red then b else b - 1, changed);
    }
  }

  lemma SiblingKept(h: Heap, c: Ctx, lo: int, hi: int, b: int, h': Heap, changed: set<int>)
    requires c.Down? && Rep(h, c.other) && OkCtx(c, lo, hi, b)
    requires Spares(h, h', changed)
    requires forall k :: k in changed ==>
      || k <= Lo(c.up, lo) || Hi(c.up, hi) <= k || (if c.isLeft then k <= c.key else k >= c.key)
    ensures Rep(h', c.other)
  {
    if c.isLeft {
      RepSpared(h, h', c.other, c.key, Hi(c.up, hi), b, changed);
    } else {
      RepSpared(h, h', c.other, Lo(c.up, lo), c.key, b, changed);
    }
  }

  lemma RotationSpares(h: Heap, root: Ptr, up: Ctx, v: Ptr, v': Ptr, h': Heap, changed: set<int>)
    requires RepCtx(h, root, up, v)
    requires Spares(StoreHeap(h, CellOf(up), v'), h', changed)
    ensures Spares(h, h', changed + CellKeys(up))
  {
    StoreSpares(h, up, v, v', root);
    SparesTwice(h, StoreHeap(h, CellOf(up), v'), h', CellKeys(up), changed);
    assert CellKeys(up) + changed == changed + CellKeys(up);
  }

  lemma CellKeysOutside(c: Ctx, lo: int, hi: int, b: int)
    requires OkCtx(c, lo, hi, b)
    ensures forall k :: k in CellKeys(c) ==> k <= Lo(c, lo) || Hi(c, hi) <= k
  {
  }

  /** Rotating when the red edges differ: the child goes on top, its parent and
      grandparent become its successors. */
  ghost function DoubleTree(c: Ctx, t: Tree): Tree
    requires c.Down? && c.up.Down? && t.Branch?
  {
    var g := c.up;
    if c.isLeft then
      Branch(Branch(g.other, g.ptr, g.key, true, t.left), t.ptr, t.key, false,
             Branch(t.right, c.ptr, c.key, true, c.other))
    else
      Branch(Branch(c.other, c.ptr, c.key, true, t.left), t.ptr, t.key, false,
             Branch(t.right, g.ptr, g.key, true, g.other))
  }

  lemma DoubleOk(c: Ctx, t: Tree, lo: int, hi: int, b: int)
    requires OkCtx(c, lo, hi, b) && Ok(t, Lo(c, lo), Hi(c, hi), b)
    requires ParentRed(c) && c.up.Down? && IsRed(t)
    requires c.isLeft != c.up.isLeft && !IsRed(c.up.other)
    ensures OkCtx(c.up.up, lo, hi, b + 1)
    ensures Ok(DoubleTree(c, t), Lo(c.up.up, lo), Hi(c.up.up, hi), b + 1)
    ensures Nodes(DoubleTree(c, t)) + CtxNodes(c.up.up) == CtxNodes(c) + Nodes(t)
  {
    assert OkCtx(c.up, lo, hi, b);
  }

  lemma DoubleRotation(h: Heap, root: Ptr, c: Ctx, t: Tree, lo: int, hi: int, b: int, h': Heap, root': Ptr)
    requires Zip(h, root, c, t, lo, hi, b) && IsRed(t)
    requires ParentRed(c) && c.up.Down? && c.isLeft != c.up.isLeft && !IsRed(c.up.other)
    requires root' == StoreRoot(root, CellOf(c.up.up), t.ptr)
    requires Spares(StoreHeap(h, CellOf(c.up.up), t.ptr), h', {c.key, c.up.key, t.key})
    requires t.ptr in h' && c.ptr in h' && c.up.ptr in h'
    requires var d := DoubleTree(c, t);
      && h'[t.ptr] == Node(t.key, d.left.ptr, d.right.ptr, false)
      && h'[d.left.ptr] == Node(d.left.key, PtrOf(d.left.left), PtrOf(d.left.right), true)
      && h'[d.right.ptr] == Node(d.right.key, PtrOf(d.right.left), PtrOf(d.right.right), true)
    ensures Zip(h', root', c.up.up, DoubleTree(c, t), lo, hi, b + 1)
  {
    hide Ok, OkCtx, Spares, StoreHeap, StoreRoot, CellOf, CtxNodes, Nodes, Lo, Hi;
    KeptAround(h, root, c, t, lo, hi, b, h', root', t.ptr, {c.key, c.up.key, t.key});
    assert RepCtx(h, root, c.up, c.ptr);
    var d := DoubleTree(c, t);
    assert Rep(h', d.left) && Rep(h', d.right);
    DoubleOk(c, t, lo, hi, b);
  }

  // ------------------------------------------------------------ recolouring

  lemma RecolouredOk(t: Tree, lo: int, hi: int, b: int, mode: nat)
    requires Splits(mode, t) && Ok(t, lo, hi, b)
    requires mode == 1 ==> t.red && t.left.Leaf? && t.right.Leaf?
    ensures Ok(Recoloured(t), lo, hi, b)
    ensures Nodes(Recoloured(t)) == Nodes(t)
  {
  }

  lemma RecolouredRep(h: Heap, h': Heap, t: Tree, lo: int, hi: int, b: int)
    requires t.Branch? && Rep(h, t) && Ok(t, lo, hi, b)
    requires Spares(h, h', {t.key} + Keys1(t.left) + Keys1(t.right))
    requires t.ptr in h' && h'[t.ptr] == h[t.ptr].(red := true)
    requires t.left.Branch? ==>
      t.left.ptr in h && t.left.ptr in h' && h'[t.left.ptr] == h[t.left.ptr].(red := false)
    requires t.right.Branch? ==>
      t.right.ptr in h && t.right.ptr in h' && h'[t.right.ptr] == h[t.right.ptr].(red := false)
    ensures Rep(h', Recoloured(t))
  {
    var b1 := if t.red then b else b - 1;
    var changed := {t.key} + Keys1(t.left) + Keys1(t.right);
    BlackenedRep(h, h', t.left, lo, t.key, b1, changed);
    BlackenedRep(h, h', t.right, t.key, hi, b1, changed);
  }

  /** The key at the root of a subtree. */
  ghost function Keys1(t: Tree): set<int>
  {
    if t.Leaf? then {} else {t.key}
  }

  lemma BlackenedRep(h: Heap, h': Heap, t: Tree, lo: int, hi: int, b: int, changed: set<int>)
    requires Rep(h, t) && Ok(t, lo, hi, b) && Spares(h, h', changed)
    requires forall k :: k in changed ==> k <= lo || hi <= k || (t.Branch? && k == t.key)
    requires t.Branch? ==> t.ptr in h' && h'[t.ptr] == h[t.ptr].(red := false)
    ensures Rep(h', Blacken(t))
  {
    if t.Branch? {
      RepSpared(h, h', t.left, lo, t.key, if t.red then b else b - 1, changed);
      RepSpared(h, h', t.right, t.key, hi, if t.red then b else b - 1, changed);
    }
  }

  /** This node becomes red, its successors black. */
  method Recolour(s: Memory, ghost c: Ctx, ghost t: Tree, p: Ptr, ghost lo: int, ghost hi: int, ghost b: int,
                  ghost mode: nat)
    requires Zip(s.heap, s.root, c, t, lo, hi, b) && Splits(mode, t) && p == t.ptr
    requires mode == 1 ==> t.red && t.left.Leaf? && t.right.Leaf?
    modifies s`heap
    ensures s.heap.Keys == old(s.heap.Keys)
    ensures Zip(s.heap, s.root, c, Recoloured(t), lo, hi, b)
  {
    ghost var h := s.heap;
    assert Rep(h, t.left) && Rep(h, t.right);
    var rp, lp := s.heap[p].right, s.heap[p].left;
    s.SetRed(p, true);
    if rp != NULL {
      s.SetRed(rp, false);
    }
    if lp != NULL {
      s.SetRed(lp, false);
    }
    RecolouredOk(t, Lo(c, lo), Hi(c, hi), b, mode);
    RecolouredRep(h, s.heap, t, Lo(c, lo), Hi(c, hi), b);
    CtxSpared(h, s.heap, s.root, c, p, lo, hi, b, {t.key} + Keys1(t.left) + Keys1(t.right));
  }

  // ------------------------------------------------- maybe_split_for_insert

  /** What the heap holds at a red parent c, its parent and their cells. */
  lemma NodesAt(h: Heap, root: Ptr, c: Ctx, t: Tree, lo: int, hi: int, b: int)
    requires Zip(h, root, c, t, lo, hi, b) && t.Branch? && ParentRed(c) && c.up.Down?
    ensures t.ptr in h && h[t.ptr] == Node(t.key, PtrOf(t.left), PtrOf(t.right), t.red)
    ensures c.ptr in h && h[c.ptr] == (if c.isLeft then Node(c.key, t.ptr, PtrOf(c.other), true)
                                       else Node(c.key, PtrOf(c.other), t.ptr, true))
    ensures c.up.ptr in h && h[c.up.ptr] == (if c.up.isLeft then Node(c.up.key, c.ptr, PtrOf(c.up.other), false)
                                             else Node(c.up.key, PtrOf(c.up.other), c.ptr, false))
    ensures t.key != c.key && t.key != c.up.key && c.key != c.up.key
    ensures CellOf(c.up.up) == RootCell || CellOf(c.up.up).ptr in h
    ensures CellHolds(h, root, CellOf(c.up.up), c.up.ptr)
    ensures CellOf(c.up.up) != RootCell ==>
              h[CellOf(c.up.up).ptr].key !in {t.key, c.key, c.up.key}
  {
    TwoUp(h, root, c, t.ptr, lo, hi, b);
    InnerKey(c, t, lo, hi, b);
    InsideGrandparent(c, t, lo, hi, b);
  }

  ghost predicate CellHolds(h: Heap, root: Ptr, l: Link, v: Ptr)
  {
    match l
    case RootCell => root == v
    case LeftCell(p) => p in h && h[p].left == v
    case RightCell(p) => p in h && h[p].right == v
  }

  /** Case 2 of maybe_split_for_insert: both red edges of the same type. */
  method RotateSingle(s: Memory, root: Ptr, p: Ptr, gp: Ptr, gparentp: Link, pR: int,
                      ghost c: Ctx, ghost t: Tree, ghost lo: int, ghost hi: int, ghost b: int)
    requires Zip(s.heap, s.root, c, t, lo, hi, b) && t.Branch? && root == t.ptr
    requires ParentRed(c) && c.up.Down? && !IsRed(c.up.other) && c.isLeft == c.up.isLeft
    requires p == c.ptr && gp == c.up.ptr && gparentp == CellOf(c.up.up)
    requires pR < 0 <==> c.isLeft
    modifies s`heap, s`root
    ensures s.heap.Keys == old(s.heap.Keys)
    ensures Zip(s.heap, s.root, SingleCtx(c), t, lo, hi, b)
    ensures Fits(SingleCtx(c), t) && CtxNodes(SingleCtx(c)) == CtxNodes(c)
  {
    hide Zip, Rep, RepCtx, Ok, OkCtx, CellOf, Spares, StoreHeap, CtxNodes;
    ghost var h, r := s.heap, s.root;
    NodesAt(h, r, c, t, lo, hi, b);
    SingleKeeps(h, r, c, t, lo, hi, b);
    s.Store(gparentp, p);
    ghost var h1 := s.heap;
    StoreElsewhere(h, gparentp, p, {p, gp});
    RelinkSingle(s, p, gp, pR);
    SparesPointers(h1, s.heap, {p, gp}, {c.key, c.up.key});
    SingleRotation(h, r, c, t, lo, hi, b, s.heap, s.root);
  }

  lemma SingleKeeps(h: Heap, root: Ptr, c: Ctx, t: Tree, lo: int, hi: int, b: int)
    requires Zip(h, root, c, t, lo, hi, b)
    requires ParentRed(c) && c.up.Down? && !IsRed(c.up.other) && c.isLeft == c.up.isLeft
    ensures Fits(SingleCtx(c), t) && CtxNodes(SingleCtx(c)) == CtxNodes(c)
  {
    hide Ok, OkCtx;
    SingleOk(c, t, lo, hi, b);
  }

  /** Put gp below p, which gives it its inner successor. */
  method RelinkSingle(s: Memory, p: Ptr, gp: Ptr, pR: int)
    requires p in s.heap && gp in s.heap && p != gp
    modifies s`heap
    ensures s.heap.Keys == old(s.heap.Keys)
    ensures forall q :: q in s.heap && q != p && q != gp ==> s.heap[q] == old(s.heap)[q]
    ensures pR < 0 ==> s.heap[p] == old(s.heap[p].(red := false, right := gp))
    ensures pR < 0 ==> s.heap[gp] == old(s.heap[gp].(red := true, left := s.heap[p].right))
    ensures pR >= 0 ==> s.heap[p] == old(s.heap[p].(red := false, left := gp))
    ensures pR >= 0 ==> s.heap[gp] == old(s.heap[gp].(red := true, right := s.heap[p].left))
  {
    s.SetRed(p, false);
    s.SetRed(gp, true);
    if pR < 0 {
      s.SetLeft(gp, s.heap[p].right);
      s.SetRight(p, gp);
    } else {
      s.SetRight(gp, s.heap[p].left);
      s.SetLeft(p, gp);
    }
  }

  /** Put root on top of p and gp, which take over its former successors. */
  method RelinkDouble(s: Memory, root: Ptr, p: Ptr, gp: Ptr, pR: int)
    requires root in s.heap && p in s.heap && gp in s.heap
    requires root != p && root != gp && p != gp
    modifies s`heap
    ensures s.heap.Keys == old(s.heap.Keys)
    ensures forall q :: q in s.heap && q != root && q != p && q != gp ==> s.heap[q] == old(s.heap)[q]
    ensures s.heap[root] == old(s.heap[root].(red := false, left := if pR < 0 then gp else p,
                                              right := if pR < 0 then p else gp))
    ensures pR < 0 ==> s.heap[p] == old(s.heap[p].(red := true, left := s.heap[root].right))
    ensures pR < 0 ==> s.heap[gp] == old(s.heap[gp].(red := true, right := s.heap[root].left))
    ensures pR >= 0 ==> s.heap[p] == old(s.heap[p].(red := true, right := s.heap[root].left))
    ensures pR >= 0 ==> s.heap[gp] == old(s.heap[gp].(red := true, left := s.heap[root].right))
  {
    var rp, lp := s.heap[root].right, s.heap[root].left;
    s.SetRed(p, true);
    s.SetRed(gp, true);
    s.SetRed(root, false);
    if pR < 0 {
      s.SetLeft(p, rp);
      s.SetRight(root, p);
      s.SetRight(gp, lp);
      s.SetLeft(root, gp);
    } else {
      s.SetRight(p, lp);
      s.SetLeft(root, p);
      s.SetLeft(gp, rp);
      s.SetRight(root, gp);
    }
  }

  /** Case 1 of maybe_split_for_insert: the edge types differ. */
  method RotateDouble(s: Memory, root: Ptr, p: Ptr, gp: Ptr, gparentp: Link, pR: int,
                      ghost c: Ctx, ghost t: Tree, ghost lo: int, ghost hi: int, ghost b: int)
    requires Zip(s.heap, s.root, c, t, lo, hi, b) && IsRed(t) && root == t.ptr
    requires ParentRed(c) && c.up.Down? && !IsRed(c.up.other) && c.isLeft != c.up.isLeft
    requires p == c.ptr && gp == c.up.ptr && gparentp == CellOf(c.up.up)
    requires pR < 0 <==> c.isLeft
    modifies s`heap, s`root
    ensures s.heap.Keys == old(s.heap.Keys)
    ensures Zip(s.heap, s.root, c.up.up, DoubleTree(c, t), lo, hi, b + 1)
    ensures Fits(c.up.up, DoubleTree(c, t)) && CtxNodes(c.up.up) + Nodes(DoubleTree(c, t)) == CtxNodes(c) + Nodes(t)
  {
    hide Zip, Rep, RepCtx, Ok, OkCtx, CellOf, CtxNodes, Nodes;
    ghost var h, r := s.heap, s.root;
    NodesAt(h, r, c, t, lo, hi, b);
    DoubleKeeps(h, r, c, t, lo, hi, b);
    RelinkDouble(s, root, p, gp, pR);
    ghost var h1 := s.heap;
    assert Spares(h, h1, {c.key, c.up.key, t.key});
    s.Store(gparentp, root);
    assert s.heap[p] == h1[p] && s.heap[gp] == h1[gp] && s.heap[root] == h1[root];
    StoreCommutes(h, h1, gparentp, root, {c.key, c.up.key, t.key});
    DoubleRotation(h, r, c, t, lo, hi, b, s.heap, s.root);
  }

  lemma DoubleKeeps(h: Heap, root: Ptr, c: Ctx, t: Tree, lo: int, hi: int, b: int)
    requires Zip(h, root, c, t, lo, hi, b) && IsRed(t)
    requires ParentRed(c) && c.up.Down? && !IsRed(c.up.other) && c.isLeft != c.up.isLeft
    ensures Fits(c.up.up, DoubleTree(c, t)) && CtxNodes(c.up.up) + Nodes(DoubleTree(c, t)) == CtxNodes(c) + Nodes(t)
  {
    hide Ok, OkCtx;
    DoubleOk(c, t, lo, hi, b);
  }

  lemma StoreCommutes(h: Heap, h1: Heap, l: Link, v: Ptr, changed: set<int>)
    requires Spares(h, h1, changed)
    requires l != RootCell ==> l.ptr in h && h[l.ptr].key !in changed
    ensures Spares(StoreHeap(h, l, v), StoreHeap(h1, l, v), changed)
  {
  }

  /** The parent's and grandparent's cells hold the parent and grandparent. */
  lemma ParentCells(h: Heap, root: Ptr, c: Ctx, v: Ptr)
    requires RepCtx(h, root, c, v)
    ensures c.Down? ==> c.ptr in h && h[c.ptr].red == c.red && CellHolds(h, root, CellOf(c.up), c.ptr)
    ensures c.Down? && c.up.Down? ==> CellHolds(h, root, CellOf(c.up.up), c.up.ptr)
  {
    if c.Down? {
      assert RepCtx(h, root, c.up, c.ptr);
    }
  }

  /** Possibly split the node at rootp, then fix two red edges in a row.  With
      mode 1 the node is a new red leaf. */
  method MaybeSplitForInsert(s: Memory, rootp: Link, parentp: OptLink, gparentp: OptLink, pR: int, gpR: int, mode: nat,
                             ghost c: Ctx, ghost t: Tree, ghost lo: int, ghost hi: int, ghost b: int)
    returns (ghost c': Ctx, ghost t': Tree, ghost b': int)
    requires Zip(s.heap, s.root, c, t, lo, hi, b) && t.Branch? && rootp == CellOf(c)
    requires if mode == 1 then t.red && t.left.Leaf? && t.right.Leaf? else Fits(c, t)
    requires Splits(mode, t) ==> LinksFor(c, parentp, gparentp, pR, gpR)
    modifies s`heap, s`root
    ensures s.heap.Keys == old(s.heap.Keys)
    ensures Zip(s.heap, s.root, c', t', lo, hi, b') && Fits(c', t')
    ensures CtxNodes(c') + Nodes(t') == CtxNodes(c) + Nodes(t)
    ensures (c', t') == Settled(c, t, mode)
  {
    c', t', b' := c, t, b;
    hide Ok, OkCtx;
    var root := s.Deref(rootp);
    var rp, lp := s.heap[root].right, s.heap[root].left;
    assert Rep(s.heap, t.left) && Rep(s.heap, t.right);
    if mode == 1 || (rp != NULL && lp != NULL && s.heap[rp].red && s.heap[lp].red) {
      assert Splits(mode, t);
      Recolour(s, c, t, root, lo, hi, b, mode);
      t' := Recoloured(t);
      RecolouredNodes(t);
      ParentCells(s.heap, s.root, c, root);
      hide Zip, Rep, RepCtx, CtxNodes, Nodes, SingleCtx, DoubleTree;
      if parentp != NoLink && s.heap[s.Deref(parentp.link)].red {
        var gp := s.Deref(gparentp.link);
        var p := s.Deref(parentp.link);
        if (pR > 0) != (gpR > 0) {
          RotateDouble(s, root, p, gp, gparentp.link, pR, c, t', lo, hi, b);
          c', t', b' := c.up.up, DoubleTree(c, t'), b + 1;
        } else {
          RotateSingle(s, root, p, gp, gparentp.link, pR, c, t', lo, hi, b);
          c' := SingleCtx(c);
        }
      }
    }
  }

  lemma RecolouredNodes(t: Tree)
    requires t.Branch?
    ensures Nodes(Recoloured(t)) == Nodes(t)
  {
  }

  /** Where the node ends up and what is below it: unchanged, recoloured in
      place, below its old parent after a single rotation, or on top of its old
      parent and grandparent after a double one. */
  ghost function Settled(c: Ctx, t: Tree, mode: nat): (Ctx, Tree)
    requires t.Branch? && (ParentRed(c) && Splits(mode, t) ==> c.up.Down?)
  {
    if !Splits(mode, t) then (c, t)
    else if !ParentRed(c) then (c, Recoloured(t))
    else if c.isLeft == c.up.isLeft then (SingleCtx(c), Recoloured(t))
    else (c.up.up, DoubleTree(c, Recoloured(t)))
  }

  // ---------------------------------------------------------------- tsearch

  /** Black, with no red successors: such a node is not split, and nothing below
      it is linked under a red parent in the next step. */
  ghost predicate CalmTree(t: Tree)
  {
    t.Branch? && !t.red && !IsRed(t.left) && !IsRed(t.right)
  }

  /** How much of parentp and gparentp is still right at the node reached: all of
      it; the parent only (below a node just recoloured); or nothing (at a node
      that a double rotation has just put below the node we came from). */
  datatype Phase = Full | Calm | Turn

  ghost predicate InPhase(ph: Phase, c: Ctx, t: Tree, key: int, parentp: OptLink, gparentp: OptLink, pR: int, gpR: int)
  {
    && (c.Down? ==> pR != 0 && (pR < 0 <==> c.isLeft))
    && match ph
       case Full =>
         && (IsRed(t) ==> c.Down? && !IsRed(c.other))
         && LinksFor(c, parentp, gparentp, pR, gpR)
       case Calm =>
         CalmTree(t) && c.Down? && parentp == SomeLink(CellOf(c.up))
       case Turn =>
         && c.Down? && t.Branch? && t.red && key != t.key
         && (key < t.key ==> CalmTree(t.left))
         && (key > t.key ==> CalmTree(t.right))
  }

  ghost function Child(t: Tree, key: int): Tree
    requires t.Branch?
  {
    if key < t.key then t.left else t.right
  }

  /** The context one step down from t towards key. */
  ghost function Below(c: Ctx, t: Tree, key: int): Ctx
    requires t.Branch?
  {
    if key < t.key then Down(c, true, t.ptr, t.key, t.red, t.right)
    else Down(c, false, t.ptr, t.key, t.red, t.left)
  }

  ghost function PathLength(t: Tree, key: int): nat
  {
    if t.Leaf? then 0 else 1 + PathLength(Child(t, key), key)
  }

  ghost function NextPhase(ph: Phase, c: Ctx, t: Tree): Phase
    requires t.Branch?
  {
    if Splits(0, t) then (if ParentRed(c) && c.up.Down? && c.isLeft != c.up.isLeft then Turn else Calm)
    else if ph == Turn then Calm else Full
  }

  /** A step down keeps the zipper together. */
  lemma StepDown(h: Heap, root: Ptr, c: Ctx, t: Tree, lo: int, hi: int, b: int, key: int)
    requires Zip(h, root, c, t, lo, hi, b) && Fits(c, t) && t.Branch?
    ensures Zip(h, root, Below(c, t, key), Child(t, key), lo, hi, if t.red then b else b - 1)
    ensures Fits(Below(c, t, key), Child(t, key))
    ensures CtxNodes(Below(c, t, key)) + Nodes(Child(t, key)) == CtxNodes(c) + Nodes(t)
  {
    OkNonNegative(t.left, Lo(c, lo), t.key, if t.red then b else b - 1);
  }

  lemma {:induction false} OkNonNegative(t: Tree, lo: int, hi: int, b: int)
    requires Ok(t, lo, hi, b)
    ensures b >= 0
  {
    if t.Branch? {
      OkNonNegative(t.left, lo, t.key, if t.red then b else b - 1);
    }
  }

  /** The loop invariant is kept: no link that a rotation has made stale is used
      by a later rotation. */
  lemma NextStep(ph: Phase, c: Ctx, t: Tree, key: int, lo: int, hi: int, b: int,
                 rootp: Link, parentp: OptLink, gparentp: OptLink, pR: int, gpR: int, r: int)
    requires OkCtx(c, lo, hi, b) && Ok(t, Lo(c, lo), Hi(c, hi), b) && Fits(c, t) && t.Branch?
    requires Lo(c, lo) < key < Hi(c, hi) && key != t.key && lo < hi
    requires InPhase(ph, c, t, key, parentp, gparentp, pR, gpR) && rootp == CellOf(c)
    requires r != 0 && (r < 0 <==> key < t.key)
    ensures Splits(0, t) ==> LinksFor(c, parentp, gparentp, pR, gpR)
    ensures var (c', t') := Settled(c, t, 0); var c1, t1 := Below(c', t', key), Child(t', key);
      && Lo(c1, lo) < key < Hi(c1, hi)
      && (t1.Branch? ==> InPhase(NextPhase(ph, c, t), c1, t1, key, SomeLink(rootp), parentp, r, pR))
      && 2 * PathLength(t1, key) - (if NextPhase(ph, c, t) == Turn then 1 else 0)
         < 2 * PathLength(t, key) - (if ph == Turn then 1 else 0)
  {
    assert Splits(0, t) ==> !IsRed(t) && ph == Full;
    if Splits(0, t) && ParentRed(c) {
      assert OkCtx(c.up, lo, hi, b) && OkCtx(c.up.up, lo, hi, b + 1);
      BlackenedPath(t.left, key);
      BlackenedPath(t.right, key);
    } else if Splits(0, t) {
      BlackenedPath(t.left, key);
      BlackenedPath(t.right, key);
    }
  }

  lemma BlackenedPath(t: Tree, key: int)
    ensures PathLength(Blacken(t), key) == PathLength(t, key)
  {
  }

  /** An empty successor is only met where the links are right for the check
      after the insertion. */
  lemma InsertLinks(ph: Phase, c: Ctx, t: Tree, key: int, lo: int, hi: int, b: int,
                    rootp: Link, parentp: OptLink, gparentp: OptLink, pR: int, gpR: int, r: int)
    requires OkCtx(c, lo, hi, b) && Ok(t, Lo(c, lo), Hi(c, hi), b) && Fits(c, t) && t.Branch?
    requires key != t.key && rootp == CellOf(c)
    requires InPhase(ph, c, t, key, parentp, gparentp, pR, gpR)
    requires r != 0 && (r < 0 <==> key < t.key)
    requires var (c', t') := Settled(c, t, 0); Child(t', key).Leaf?
    requires Splits(0, t) ==> LinksFor(c, parentp, gparentp, pR, gpR)
    ensures !Splits(0, t)
    ensures LinksFor(Below(c, t, key), SomeLink(rootp), parentp, r, pR)
  {
  }

  /** A new red leaf in the hole's cell. */
  lemma NewLeaf(h: Heap, root: Ptr, c: Ctx, lo: int, hi: int, b: int, q: Ptr, key: int, h': Heap, root': Ptr)
    requires Zip(h, root, c, Leaf, lo, hi, b) && lo < hi
    requires q != NULL && q !in h && Lo(c, lo) < key < Hi(c, hi)
    requires h' == StoreHeap(h, CellOf(c), q)[q := Node(key, NULL, NULL, true)]
    requires root' == StoreRoot(root, CellOf(c), q)
    ensures Zip(h', root', c, Branch(Leaf, q, key, true, Leaf), lo, hi, b)
  {
    StoreSpares(h, c, NULL, q, root);
    StoreCell(h, root, c, NULL, q, lo, hi, b, h', root', {});
  }

  /** From a zipper back to a valid tree. */
  lemma ZipIsValid(h: Heap, root: Ptr, c: Ctx, t: Tree, lo: int, hi: int, b: int)
    requires Zip(h, root, c, t, lo, hi, b) && Fits(c, t)
    ensures var tree := Plug(c, t);
      root == PtrOf(tree) && Rep(h, tree) && ValidTree(tree) && Nodes(tree) == CtxNodes(c) + Nodes(t)
  {
    PlugRep(h, root, c, t);
    PlugNodes(c, t);
    var b' := PlugOk(c, t, lo, hi, b);
    OkIsValid(Plug(c, t), lo, hi, b');
  }

  /** Colouring the root black at the start. */
  lemma BlackRoot(h: Heap, t: Tree, h': Heap, lo: int, hi: int)
    requires Rep(h, t) && ValidTree(t) && t.Branch? && forall k :: k in Keys(t) ==> lo < k < hi
    requires h' == h[t.ptr := h[t.ptr].(red := false)]
    ensures Zip(h', t.ptr, Top, Blacken(t), lo, hi, BlackHeight(t) + if t.red then 1 else 0)
    ensures Nodes(Blacken(t)) == Nodes(t)
  {
    ValidIsOk(t, lo, hi);
    BlackenedRep(h, h', t, lo, hi, BlackHeight(t), {t.key});
  }

  /** What the heap holds at the node reached. */
  lemma CellFacts(h: Heap, root: Ptr, c: Ctx, t: Tree)
    requires Rep(h, t) && RepCtx(h, root, c, PtrOf(t))
    ensures CellHolds(h, root, CellOf(c), PtrOf(t))
    ensures t.Branch? ==> t.ptr in h && h[t.ptr] == Node(t.key, PtrOf(t.left), PtrOf(t.right), t.red)
    ensures t.Branch? ==> (PtrOf(t.left) == NULL <==> t.left.Leaf?) && (PtrOf(t.right) == NULL <==> t.right.Leaf?)
    ensures t.Branch? ==> (t.ptr, t.key) in Nodes(t) && t.key in Keys(t)
  {
    if t.Branch? {
      assert Rep(h, t.left) && Rep(h, t.right);
    }
  }

  /** The path's own keys are not between its bounds. */
  lemma {:induction false} CtxKeysOutside(c: Ctx, lo: int, hi: int, b: int, key: int)
    requires OkCtx(c, lo, hi, b) && lo < hi && Lo(c, lo) < key < Hi(c, hi)
    ensures forall e :: e in CtxNodes(c) ==> e.1 != key
  {
    if c.Down? {
      var b1 := if c.red then b else b + 1;
      CtxKeysOutside(c.up, lo, hi, b1, key);
      BoundsNest(c.up, lo, hi, b1);
      NodesKeys(c.other);
      if c.isLeft {
        OkIsValid(c.other, c.key, Hi(c.up, hi), b);
      } else {
        OkIsValid(c.other, Lo(c.up, lo), c.key, b);
      }
    }
  }

  lemma OneNode(q: Ptr, key: int)
    ensures ValidTree(Branch(Leaf, q, key, true, Leaf))
    ensures Nodes(Branch(Leaf, q, key, true, Leaf)) == {(q, key)}
  {
    assert ValidTree(Leaf) && Nodes(Leaf) == {};
  }

  /** Insertion into an empty tree. */
  method InsertFirst(s: Memory, key: int, fresh_: Ptr) returns (q: Ptr)
    requires s.root == NULL && s.tree == Leaf
    requires fresh_ != NULL && fresh_ !in s.heap
    modifies s
    ensures s.Valid() && q == fresh_ && Nodes(s.tree) == {(q, key)}
  {
    q := fresh_;
    s.root := q;
    s.heap := s.heap[q := Node(key, NULL, NULL, true)];
    s.tree := Branch(Leaf, q, key, true, Leaf);
    OneNode(q, key);
  }

  /** Link the new node to the old tree, then look for two red edges in a row. */
  method InsertLeaf(s: Memory, key: int, fresh_: Ptr, nextp: Link, rootp: Link, parentp: OptLink, r: int, pR: int,
                    ghost c: Ctx, ghost lo: int, ghost hi: int, ghost b: int)
    returns (q: Ptr)
    requires Zip(s.heap, s.root, c, Leaf, lo, hi, b) && lo < hi && nextp == CellOf(c)
    requires Lo(c, lo) < key < Hi(c, hi)
    requires LinksFor(c, SomeLink(rootp), parentp, r, pR)
    requires fresh_ != NULL && fresh_ !in s.heap
    modifies s
    ensures s.Valid() && q == fresh_ && Nodes(s.tree) == CtxNodes(c) + {(q, key)}
    ensures forall e :: e in CtxNodes(c) ==> e.1 != key
  {
    hide Ok, OkCtx, Rep, RepCtx, ValidTree;
    CtxKeysOutside(c, lo, hi, b, key);
    q := fresh_;
    ghost var h, root := s.heap, s.root;
    StoreSpares(h, c, NULL, q, root);
    s.Store(nextp, q);
    s.heap := s.heap[q := Node(key, NULL, NULL, true)];
    NewLeaf(h, root, c, lo, hi, b, q, key, s.heap, s.root);
    ghost var t := Branch(Leaf, q, key, true, Leaf);
    ghost var c', t', b' := MaybeSplitForInsert(s, nextp, SomeLink(rootp), parentp, r, pR, 1, c, t, lo, hi, b);
    ZipIsValid(s.heap, s.root, c', t', lo, hi, b');
    s.tree := Plug(c', t');
    assert Nodes(t) == {(q, key)};
  }

  /** Find the key or insert it.  fresh_ is the address malloc would return.
      Returns the key's node; the tree stays a valid red/black search tree. */
  method Tsearch(s: Memory, key: int, fresh_: Ptr) returns (q: Ptr)
    requires s.Valid()
    requires fresh_ != NULL && fresh_ !in s.heap
    modifies s
    ensures s.Valid()
    ensures (q, key) in Nodes(s.tree)
    ensures key in old(Keys(s.tree)) ==> Nodes(s.tree) == old(Nodes(s.tree)) && q in old(s.heap)
    ensures key !in old(Keys(s.tree)) ==> Nodes(s.tree) == old(Nodes(s.tree)) + {(q, key)} && q == fresh_
  {
    ghost var tree0 := s.tree;
    ghost var lo, hi := SomeBounds(tree0, key);
    NodesKeys(tree0);
    if s.root == NULL {
      q := InsertFirst(s, key, fresh_);
      return;
    }
    assert Rep(s.heap, tree0);
    BlackRoot(s.heap, tree0, s.heap[s.root := s.heap[s.root].(red := false)], lo, hi);
    s.SetRed(s.root, false);
    q := SearchFrom(s, key, fresh_, Blacken(tree0), lo, hi, BlackHeight(tree0) + if tree0.red then 1 else 0);
  }

  /** The descent from a black root. */
  method SearchFrom(s: Memory, key: int, fresh_: Ptr, ghost t0: Tree, ghost lo: int, ghost hi: int, ghost b0: int)
    returns (q: Ptr)
    requires Zip(s.heap, s.root, Top, t0, lo, hi, b0) && t0.Branch? && !t0.red
    requires lo < key < hi
    requires fresh_ != NULL && fresh_ !in s.heap
    modifies s
    ensures s.Valid()
    ensures (Nodes(s.tree) == Nodes(t0) && (q, key) in Nodes(t0) && q in old(s.heap))
         || (key !in Keys(t0) && Nodes(s.tree) == Nodes(t0) + {(q, key)} && q == fresh_)
  {
    hide Ok, OkCtx, Rep, RepCtx, ValidTree, InPhase, LinksFor, Settled, Splits, PathLength, Plug, Nodes, Keys, CtxNodes;
    hide Below, Child, Fits, CellOf, CellHolds, Lo, Hi;
    NodesKeys(t0);
    ghost var c, t, b := Top, t0, b0;
    var rootp, parentp, gparentp := RootCell, NoLink, NoLink;
    var pR, gpR := 0, 0;
    ghost var ph := Full;
    StartPhase(t, key);
    while true
      invariant s.heap.Keys == old(s.heap.Keys)
      invariant Zip(s.heap, s.root, c, t, lo, hi, b) && Fits(c, t) && t.Branch?
      invariant CtxNodes(c) + Nodes(t) == Nodes(t0)
      invariant Lo(c, lo) < key < Hi(c, hi)
      invariant rootp == CellOf(c)
      invariant InPhase(ph, c, t, key, parentp, gparentp, pR, gpR)
      decreases 2 * PathLength(t, key) - (if ph == Turn then 1 else 0)
    {
      NodeFacts(s, c, t, lo, hi, b);
      var root := s.Deref(rootp);
      var r := if key == s.heap[root].key then 0 else if key < s.heap[root].key then -1 else 1;
      if r == 0 {
        q := root;
        ZipIsValid(s.heap, s.root, c, t, lo, hi, b);
        s.tree := Plug(c, t);
        return;
      }
      NextStep(ph, c, t, key, lo, hi, b, rootp, parentp, gparentp, pR, gpR, r);
      ghost var c', t', b' := MaybeSplitForInsert(s, rootp, parentp, gparentp, pR, gpR, 0, c, t, lo, hi, b);
      SettledNode(c, t, 0);
      BelowFacts(s, c', t', lo, hi, b', key);
      var nextp := if r < 0 then LeftCell(root) else RightCell(root);
      ghost var b1 := if t'.red then b' else b' - 1;
      if s.Deref(nextp) == NULL {
        InsertLinks(ph, c, t, key, lo, hi, b, rootp, parentp, gparentp, pR, gpR, r);
        q := InsertLeaf(s, key, fresh_, nextp, rootp, parentp, r, pR, Below(c', t', key), lo, hi, b1);
        return;
      }
      PathPositive(Child(t', key), key);
      ph := NextPhase(ph, c, t);
      c, t, b := Below(c', t', key), Child(t', key), b1;
      gparentp := parentp;
      parentp := SomeLink(rootp);
      rootp := nextp;
      gpR := pR;
      pR := r;
    }
  }

  /** The node that the search has come to. */
  lemma NodeFacts(s: Memory, c: Ctx, t: Tree, lo: int, hi: int, b: int)
    requires Zip(s.heap, s.root, c, t, lo, hi, b) && t.Branch?
    ensures s.HasCell(CellOf(c)) && s.Deref(CellOf(c)) == t.ptr && t.ptr in s.heap && s.heap[t.ptr].key == t.key
    ensures (t.ptr, t.key) in Nodes(t)
  {
    hide Ok, OkCtx, Rep, RepCtx, Nodes, Keys;
    CellFacts(s.heap, s.root, c, t);
  }

  /** One step down: what is there, and the cell that leads to it. */
  lemma BelowFacts(s: Memory, c: Ctx, t: Tree, lo: int, hi: int, b: int, key: int)
    requires Zip(s.heap, s.root, c, t, lo, hi, b) && Fits(c, t) && t.Branch?
    ensures var d, u, l := Below(c, t, key), Child(t, key), if key < t.key then LeftCell(t.ptr) else RightCell(t.ptr);
      && Zip(s.heap, s.root, d, u, lo, hi, if t.red then b else b - 1) && Fits(d, u)
      && CtxNodes(d) + Nodes(u) == CtxNodes(c) + Nodes(t)
      && CellOf(d) == l && s.HasCell(l) && s.Deref(l) == PtrOf(u) && (PtrOf(u) == NULL <==> u.Leaf?)
      && (u.Leaf? ==> Nodes(u) == {})
  {
    hide Ok, OkCtx, Rep, RepCtx, CtxNodes;
    CellFacts(s.heap, s.root, c, t);
    hide Nodes;
    StepDown(s.heap, s.root, c, t, lo, hi, b, key);
    NoNodes();
  }

  lemma NoNodes()
    ensures Nodes(Leaf) == {}
  {
  }

  lemma StartPhase(t: Tree, key: int)
    requires t.Branch? && !t.red
    ensures InPhase(Full, Top, t, key, NoLink, NoLink, 0, 0) && Fits(Top, t) && CellOf(Top) == RootCell
    ensures forall bound :: Lo(Top, bound) == bound && Hi(Top, bound) == bound
    ensures CtxNodes(Top) == {} && Nodes(Leaf) == {}
  {
  }

  lemma SettledNode(c: Ctx, t: Tree, mode: nat)
    requires t.Branch? && (ParentRed(c) && Splits(mode, t) ==> c.up.Down?)
    ensures var (c', t') := Settled(c, t, mode);
      t'.Branch? && t'.ptr == t.ptr && t'.key == t.key && (!Splits(mode, t) ==> c' == c && t' == t)
  {
  }

  lemma PathPositive(t: Tree, key: int)
    requires t.Branch?
    ensures PathLength(t, key) >= 1
  {
  }
}
