/**
 The memory tsearch.c works in: nodes addressed by pointers, links (addresses of
 pointer cells), and a zipper that names the place in the tree a link stands for.
 */
module NodeMemory {
  import opened RedBlack

  datatype Node = Node(key: int, left: Ptr, right: Ptr, red: bool)

  type Heap = map<Ptr, Node>

  /** A "node *" that points at a cell holding a node pointer. */
  datatype Link = RootCell | LeftCell(ptr: Ptr) | RightCell(ptr: Ptr)

  datatype OptLink = NoLink | SomeLink(link: Link)

  /** The nodes reachable from one root pointer, plus whatever else has been
      allocated. */
  class Memory {
    var heap: Heap
    var root: Ptr
    ghost var tree: Tree

    /** The root pointer denotes a valid red/black search tree. */
    ghost predicate Valid()
      reads this
    {
      root == PtrOf(tree) && Rep(heap, tree) && ValidTree(tree)
    }

    /** No tree yet: a null root pointer. */
    constructor ()
      ensures Valid() && tree == Leaf && root == NULL && heap == map[]
    {
      heap, root, tree := map[], NULL, Leaf;
    }

    predicate HasCell(l: Link)
      reads this
    {
      l == RootCell || l.ptr in heap
    }

    function Deref(l: Link): Ptr
      requires HasCell(l)
      reads this
    {
      match l
      case RootCell => root
      case LeftCell(p) => heap[p].left
      case RightCell(p) => heap[p].right
    }

    method Store(l: Link, v: Ptr)
      requires HasCell(l)
      modifies this`heap, this`root
      ensures heap == StoreHeap(old(heap), l, v) && root == StoreRoot(old(root), l, v)
      ensures heap.Keys == old(heap.Keys)
    {
      match l
      case RootCell => root := v;
      case LeftCell(p) => SetLeft(p, v);
      case RightCell(p) => SetRight(p, v);
    }

    method SetLeft(p: Ptr, v: Ptr)
      requires p in heap
      modifies this`heap
      ensures heap == old(heap)[p := old(heap)[p].(left := v)]
    {
      heap := heap[p := heap[p].(left := v)];
    }

    method SetRight(p: Ptr, v: Ptr)
      requires p in heap
      modifies this`heap
      ensures heap == old(heap)[p := old(heap)[p].(right := v)]
    {
      heap := heap[p := heap[p].(right := v)];
    }

    /** The left or right successor. */
    function Succ(p: Ptr, left: bool): Ptr
      requires p in heap
      reads this
    {
      if left then heap[p].left else heap[p].right
    }

    method SetSucc(p: Ptr, left: bool, v: Ptr)
      requires p in heap
      modifies this`heap
      ensures heap == old(heap)[p := if left then old(heap)[p].(left := v) else old(heap)[p].(right := v)]
    {
      if left {
        SetLeft(p, v);
      } else {
        SetRight(p, v);
      }
    }

    method SetRed(p: Ptr, red: bool)
      requires p in heap
      modifies this`heap
      ensures heap == old(heap)[p := old(heap)[p].(red := red)]
    {
      heap := heap[p := heap[p].(red := red)];
    }
  }

  /** The heap after storing v into a cell (a root cell is not in the heap). */
  function StoreHeap(h: Heap, l: Link, v: Ptr): Heap
  {
    match l
    case RootCell => h
    case LeftCell(p) => if p in h then h[p := h[p].(left := v)] else h
    case RightCell(p) => if p in h then h[p := h[p].(right := v)] else h
  }

  function StoreRoot(root: Ptr, l: Link, v: Ptr): Ptr
  {
    if l == RootCell then v else root
  }

  // ---------------------------------------------------- heaps denote trees

  ghost predicate Rep(h: Heap, t: Tree)
  {
    match t
    case Leaf => true
    case Branch(l, p, k, red, r) =>
      && p != NULL && p in h && h[p] == Node(k, PtrOf(l), PtrOf(r), red)
      && Rep(h, l) && Rep(h, r)
  }

  /** A tree with a hole: the path from the hole up to the root. */
  datatype Ctx = Top | Down(up: Ctx, isLeft: bool, ptr: Ptr, key: int, red: bool, other: Tree)

  ghost function Plug(c: Ctx, t: Tree): Tree
  {
    match c
    case Top => t
    case Down(up, isLeft, p, k, red, other) =>
      Plug(up, if isLeft then Branch(t, p, k, red, other) else Branch(other, p, k, red, t))
  }

  ghost function CellOf(c: Ctx): Link
  {
    match c
    case Top => RootCell
    case Down(_, isLeft, p, _, _, _) => if isLeft then LeftCell(p) else RightCell(p)
  }

  /** The heap denotes everything around the hole, and the hole's cell holds v. */
  ghost predicate RepCtx(h: Heap, root: Ptr, c: Ctx, v: Ptr)
  {
    match c
    case Top => root == v
    case Down(up, isLeft, p, k, red, other) =>
      && p != NULL && p in h
      && h[p] == (if isLeft then Node(k, v, PtrOf(other), red) else Node(k, PtrOf(other), v, red))
      && Rep(h, other) && RepCtx(h, root, up, p)
  }

  ghost function CtxNodes(c: Ctx): set<(Ptr, int)>
  {
    if c.Top? then {} else CtxNodes(c.up) + {(c.ptr, c.key)} + Nodes(c.other)
  }

  ghost function Depth(c: Ctx): nat
  {
    if c.Top? then 0 else 1 + Depth(c.up)
  }

  /** The bounds the path puts on keys in the hole. */
  ghost function Lo(c: Ctx, lo: int): int
  {
    match c
    case Top => lo
    case Down(up, isLeft, _, k, _, _) => if isLeft then Lo(up, lo) else k
  }

  ghost function Hi(c: Ctx, hi: int): int
  {
    match c
    case Top => hi
    case Down(up, isLeft, _, k, _, _) => if isLeft then k else Hi(up, hi)
  }

  ghost predicate ParentRed(c: Ctx)
  {
    c.Down? && c.red
  }

  /** The context of a red/black tree, around a hole for a subtree with b black
      nodes on every path. */
  ghost predicate OkCtx(c: Ctx, lo: int, hi: int, b: int)
  {
    match c
    case Top => b >= 0
    case Down(up, isLeft, _, k, red, other) =>
      && b >= 0
      && Lo(up, lo) < k < Hi(up, hi)
      && (if isLeft then Ok(other, k, Hi(up, hi), b) else Ok(other, Lo(up, lo), k, b))
      && (red ==> !IsRed(other) && !ParentRed(up))
      && OkCtx(up, lo, hi, if red then b else b + 1)
  }

  /** Subtree and context fit in the heap and, by order and black height, each
      other; colours across the edge are not constrained. */
  ghost predicate Zip(h: Heap, root: Ptr, c: Ctx, t: Tree, lo: int, hi: int, b: int)
  {
    && Rep(h, t) && RepCtx(h, root, c, PtrOf(t))
    && OkCtx(c, lo, hi, b) && Ok(t, Lo(c, lo), Hi(c, hi), b)
  }

  /** No red-red edge between the hole's parent and the subtree. */
  ghost predicate Fits(c: Ctx, t: Tree)
  {
    ParentRed(c) ==> !IsRed(t)
  }

  lemma {:induction false} PlugRep(h: Heap, root: Ptr, c: Ctx, t: Tree)
    requires Rep(h, t) && RepCtx(h, root, c, PtrOf(t))
    ensures Rep(h, Plug(c, t)) && root == PtrOf(Plug(c, t))
  {
    if c.Down? {
      PlugRep(h, root, c.up, if c.isLeft then Branch(t, c.ptr, c.key, c.red, c.other)
                             else Branch(c.other, c.ptr, c.key, c.red, t));
    }
  }

  lemma {:induction false} PlugNodes(c: Ctx, t: Tree)
    ensures Nodes(Plug(c, t)) == CtxNodes(c) + Nodes(t)
  {
    if c.Down? {
      PlugNodes(c.up, if c.isLeft then Branch(t, c.ptr, c.key, c.red, c.other)
                      else Branch(c.other, c.ptr, c.key, c.red, t));
    }
  }

  lemma {:induction false} PlugHeight(c: Ctx, t: Tree)
    ensures Height(Plug(c, t)) >= Depth(c) + Height(t)
  {
    if c.Down? {
      PlugHeight(c.up, if c.isLeft then Branch(t, c.ptr, c.key, c.red, c.other)
                       else Branch(c.other, c.ptr, c.key, c.red, t));
    }
  }

  lemma {:induction false} PlugOk(c: Ctx, t: Tree, lo: int, hi: int, b: int) returns (b': int)
    requires OkCtx(c, lo, hi, b) && Ok(t, Lo(c, lo), Hi(c, hi), b) && Fits(c, t)
    ensures Ok(Plug(c, t), lo, hi, b')
  {
    if c.Down? {
      b' := PlugOk(c.up, if c.isLeft then Branch(t, c.ptr, c.key, c.red, c.other)
                         else Branch(c.other, c.ptr, c.key, c.red, t),
                   lo, hi, if c.red then b else b + 1);
    } else {
      b' := b;
    }
  }

  // ------------------------------------------------------------- framing

  /** Only nodes with one of the given keys changed. */
  ghost predicate Spares(h: Heap, h': Heap, changed: set<int>)
  {
    forall p :: p in h && h[p].key !in changed ==> p in h' && h'[p] == h[p]
  }

  lemma SparesPointers(h: Heap, h': Heap, ps: set<Ptr>, changed: set<int>)
    requires forall p :: p in h && p !in ps ==> p in h' && h'[p] == h[p]
    requires forall p :: p in ps ==> p in h && h[p].key in changed
    ensures Spares(h, h', changed)
  {
  }

  lemma StoreElsewhere(h: Heap, l: Link, v: Ptr, ps: set<Ptr>)
    requires l == RootCell || l.ptr !in ps
    ensures forall p :: p in ps && p in h ==> p in StoreHeap(h, l, v) && StoreHeap(h, l, v)[p] == h[p]
  {
  }

  /** A subtree whose keys are all in a range is left alone by changes outside it. */
  lemma {:induction false} RepSpared(h: Heap, h': Heap, t: Tree, lo: int, hi: int, b: int, changed: set<int>)
    requires Rep(h, t) && Ok(t, lo, hi, b)
    requires Spares(h, h', changed) && forall k :: k in changed ==> k <= lo || hi <= k
    ensures Rep(h', t)
  {
    if t.Branch? {
      RepSpared(h, h', t.left, lo, t.key, if t.red then b else b - 1, changed);
      RepSpared(h, h', t.right, t.key, hi, if t.red then b else b - 1, changed);
    }
  }

  lemma {:induction false} BoundsNest(c: Ctx, lo: int, hi: int, b: int)
    requires OkCtx(c, lo, hi, b) && lo < hi
    ensures lo <= Lo(c, lo) < Hi(c, hi) <= hi
  {
    if c.Down? {
      BoundsNest(c.up, lo, hi, if c.red then b else b + 1);
    }
  }

  lemma {:induction false} CtxSpared(h: Heap, h': Heap, root: Ptr, c: Ctx, v: Ptr, lo: int, hi: int, b: int,
                                     changed: set<int>)
    requires RepCtx(h, root, c, v) && OkCtx(c, lo, hi, b)
    requires Spares(h, h', changed) && forall k :: k in changed ==> Lo(c, lo) < k < Hi(c, hi)
    ensures RepCtx(h', root, c, v)
  {
    if c.Down? {
      if c.isLeft {
        RepSpared(h, h', c.other, c.key, Hi(c.up, hi), b, changed);
      } else {
        RepSpared(h, h', c.other, Lo(c.up, lo), c.key, b, changed);
      }
      CtxSpared(h, h', root, c.up, c.ptr, lo, hi, if c.red then b else b + 1, changed);
    }
  }

  /** The key of the node that holds the hole's cell. */
  ghost function CellKeys(c: Ctx): set<int>
  {
    if c.Top? then {} else {c.key}
  }

  /** Writing another pointer into the hole's cell, and changing nodes inside. */
  lemma StoreCell(h: Heap, root: Ptr, c: Ctx, v: Ptr, v': Ptr, lo: int, hi: int, b: int,
                  h': Heap, root': Ptr, changed: set<int>)
    requires RepCtx(h, root, c, v) && OkCtx(c, lo, hi, b)
    requires root' == StoreRoot(root, CellOf(c), v')
    requires Spares(StoreHeap(h, CellOf(c), v'), h', changed)
    requires forall k :: k in changed ==> Lo(c, lo) < k < Hi(c, hi)
    ensures RepCtx(h', root', c, v')
  {
    var h1 := StoreHeap(h, CellOf(c), v');
    if c.Down? {
      if c.isLeft {
        RepSpared(h, h1, c.other, c.key, Hi(c.up, hi), b, {c.key});
      } else {
        RepSpared(h, h1, c.other, Lo(c.up, lo), c.key, b, {c.key});
      }
      CtxSpared(h, h1, root, c.up, c.ptr, lo, hi, if c.red then b else b + 1, {c.key});
    }
    CtxSpared(h1, h', root', c, v', lo, hi, b, changed);
  }

  /** A cell's node keeps its key, and no other node changes. */
  lemma StoreSpares(h: Heap, c: Ctx, v: Ptr, v': Ptr, root: Ptr)
    requires RepCtx(h, root, c, v)
    ensures CellOf(c) == RootCell || CellOf(c).ptr in h
    ensures Spares(h, StoreHeap(h, CellOf(c), v'), CellKeys(c))
    ensures StoreHeap(h, CellOf(c), v').Keys == h.Keys
    ensures forall p :: p in h ==> StoreHeap(h, CellOf(c), v')[p].key == h[p].key
  {
  }

  lemma SparesTwice(h: Heap, h1: Heap, h2: Heap, s1: set<int>, s2: set<int>)
    requires Spares(h, h1, s1) && Spares(h1, h2, s2)
    ensures Spares(h, h2, s1 + s2)
  {
    forall p | p in h && h[p].key !in s1 + s2
      ensures p in h2 && h2[p] == h[p]
    {
      assert h1[p] == h[p];
    }
  }
}
