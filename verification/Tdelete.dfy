/** Deletion with an explicit stack of parent links, and lookup (tdelete and tfind
    in tsearch.c). */
module Tdelete {
  import opened Powers
  import opened RedBlack
  import opened NodeMemory
  import opened Tsearch
  import opened Rebalance

  const STACK_SIZE: nat := 100

  /** The stack holds the cells of all ancestors of c's hole, innermost last. */
  ghost predicate StackFor(st: seq<Link>, c: Ctx)
  {
    match c
    case Top => st == []
    case Down(up, _, _, _, _, _) =>
      st != [] && st[|st| - 1] == CellOf(up) && StackFor(st[..|st| - 1], up)
  }

  lemma {:induction false} StackDepth(st: seq<Link>, c: Ctx)
    requires StackFor(st, c)
    ensures |st| == Depth(c)
  {
    if c.Down? {
      StackDepth(st[..|st| - 1], c.up);
    }
  }

  lemma StackPush(st: seq<Link>, c: Ctx, l: Link)
    requires StackFor(st, c) && l == CellOf(c)
    ensures forall d: Ctx :: d.Down? && d.up == c ==> StackFor(st + [l], d)
  {
    assert (st + [l])[..|st|] == st;
  }

  /** Which side of its parent the short subtree is on, as the pointer comparison
      finds out. */
  lemma SideOf(h: Heap, root: Ptr, c: Ctx, t: Tree, lo: int, hi: int, b: int)
    requires Short(h, root, c, t, lo, hi, b) && c.Down? && !IsRed(t)
    ensures c.ptr in h && (PtrOf(t) == h[c.ptr].left <==> c.isLeft)
    ensures c.other.Branch? && NodeAt(h, c.other) && NodeAt(h, c.other.left) && NodeAt(h, c.other.right)
    ensures CellHolds(h, root, CellOf(c.up), c.ptr)
    ensures h[c.ptr] == MkNode(c.isLeft, c.key, PtrOf(t), c.other.ptr, c.red)
  {
    OneUp(h, root, c, PtrOf(t));
    Nephews(c, lo, hi, b);
    SiblingNodes(h, root, c, t, lo, hi, b);
  }

  lemma SamePtr(h: Heap, t: Tree)
    requires Rep(h, t)
    ensures NodeAt(h, t)
  {
  }

  /** Blackening r at the end repairs a red subtree, and the root in any case. */
  lemma BlackenFinal(h: Heap, root: Ptr, c: Ctx, t: Tree, lo: int, hi: int, b: int, h': Heap)
    requires Short(h, root, c, t, lo, hi, b) && (IsRed(t) || c.Top?)
    requires t.Branch? ==> t.ptr in h && h' == h[t.ptr := h[t.ptr].(red := false)]
    requires t.Leaf? ==> h' == h
    ensures exists b' :: Zip(h', root, c, Blacken(t), lo, hi, b')
    ensures Fits(c, Blacken(t)) && Nodes(Blacken(t)) == Nodes(t)
  {
    var b' := if IsRed(t) then b + 1 else b;
    if t.Branch? {
      BlackenedOk(t, Lo(c, lo), Hi(c, hi), b');
      RepBlackened(h, h', t, Lo(c, lo), Hi(c, hi), b');
      CtxSpared(h, h', root, c, t.ptr, lo, hi, b', {t.key});
    }
    assert Zip(h', root, c, Blacken(t), lo, hi, b');
  }

  lemma BlackenedOk(t: Tree, lo: int, hi: int, b: int)
    requires t.Branch? && (if IsRed(t) then Ok(Blacken(t), lo, hi, b) else Ok(t, lo, hi, b))
    ensures Ok(Blacken(t), lo, hi, b) && lo < t.key < hi
  {
    assert !t.red ==> Blacken(t) == t;
  }

  lemma RepBlackened(h: Heap, h': Heap, t: Tree, lo: int, hi: int, b: int)
    requires t.Branch? && Rep(h, t) && Ok(Blacken(t), lo, hi, b)
    requires t.ptr in h && h' == h[t.ptr := h[t.ptr].(red := false)]
    ensures Rep(h', Blacken(t))
  {
    RepSpared(h, h', t.left, lo, t.key, b - 1, {t.key});
    RepSpared(h, h', t.right, t.key, hi, b - 1, {t.key});
  }

  /** Sibling Q is black.  With black nephews the deficit is passed up (and P is
      the new short subtree); with a red one a rotation repairs the tree. */
  method RepairAt(s: Memory, l: bool, p: Ptr, q: Ptr, pp: Link,
                  ghost c: Ctx, ghost t: Tree, ghost lo: int, ghost hi: int, ghost b: int)
    returns (passedUp: bool, ghost t': Tree, ghost b': int)
    requires Short(s.heap, s.root, c, t, lo, hi, b) && c.Down? && c.other.Branch? && !IsRed(c.other) && !IsRed(t)
    requires l == c.isLeft && p == c.ptr && q == c.other.ptr && pp == CellOf(c.up)
    modifies s`heap, s`root
    ensures CtxNodes(c.up) + Nodes(t') == CtxNodes(c) + Nodes(t)
    ensures passedUp ==> Short(s.heap, s.root, c.up, t', lo, hi, b')
    ensures passedUp ==> t'.Branch? && t'.ptr == p && t'.red == c.red && NodeAt(s.heap, t')
    ensures !passedUp ==> Zip(s.heap, s.root, c.up, t', lo, hi, b') && Fits(c.up, t')
  {
    hide Ok, OkCtx, Rep, RepCtx, Deficit, Nodes, CtxNodes, CellOf, NearNephewUp, SiblingUp, PassedUp;
    SideOf(s.heap, s.root, c, t, lo, hi, b);
    var near, far := s.Succ(q, l), s.Succ(q, !l);
    if (near == NULL || !s.heap[near].red) && (far == NULL || !s.heap[far].red) {
      PassedUpOk(c, t, lo, hi, b);
      ColourSibling(s, q, c, t, lo, hi, b);
      PassedUpRoot(c, t);
      t', b' := PassedUp(c, t), if c.red then b else b + 1;
      SamePtr(s.heap, t');
      passedUp := true;
    } else {
      b' := if c.red then b + 1 else b + 2;
      passedUp := false;
      if far == NULL || !s.heap[far].red {
        NearNephewNodes(c, t);
        t' := NearNephewUp(c, t);
        LiftNearNephew(s, l, p, q, pp, c, t, lo, hi, b);
      } else {
        SiblingUpOk(c, t, lo, hi, b);
        t' := SiblingUp(c, t);
        LiftSibling(s, l, p, q, pp, c, t, lo, hi, b);
      }
    }
  }

  /** Sibling Q is red: rotate, and push the link that now leads to P. */
  method MakeSiblingBlack(s: Memory, nodestack: array<Link>, sp: nat, l: bool, p: Ptr, q: Ptr,
                          ghost c: Ctx, ghost t: Tree, ghost lo: int, ghost hi: int, ghost b: int)
    returns (q': Ptr)
    requires Short(s.heap, s.root, c, t, lo, hi, b) && c.Down? && IsRed(c.other) && !IsRed(t)
    requires l == c.isLeft && p == c.ptr && q == c.other.ptr
    requires 0 < sp < nodestack.Length && StackFor(nodestack[..sp], c)
    modifies s`heap, s`root, nodestack
    ensures var c1 := RedSiblingCtx(c);
      && Short(s.heap, s.root, c1, t, lo, hi, b) && c1.other.Branch? && !IsRed(c1.other)
      && q' == c1.other.ptr && CtxNodes(c1) == CtxNodes(c)
    ensures var c1 := RedSiblingCtx(c);
      && c1.ptr == p && c1.isLeft == l && nodestack[sp] == CellOf(c1.up) && StackFor(nodestack[..sp], c1.up)
  {
    hide Ok, OkCtx, Rep, RepCtx, Deficit, Nodes, CtxNodes, CellOf;
    RedSiblingOk(c, t, lo, hi, b);
    SiblingThere(c, t, lo, hi, b);
    RotateRedSibling(s, l, p, q, nodestack[sp - 1], c, t, lo, hi, b);
    RedSiblingCell(c);
    ghost var below := nodestack[..sp];
    nodestack[sp] := if l then LeftCell(q) else RightCell(q);
    assert nodestack[..sp] == below;
    SideOf(s.heap, s.root, RedSiblingCtx(c), t, lo, hi, b);
    q' := s.Succ(p, !l);
  }

  /** At the end: if (r != NULL) r->red = 0. */
  method BlackenLast(s: Memory, r: Ptr, ghost done: bool,
                     ghost c: Ctx, ghost t: Tree, ghost lo: int, ghost hi: int, ghost b: int)
    returns (ghost tree: Tree)
    requires done ==> r == NULL && Zip(s.heap, s.root, c, t, lo, hi, b) && Fits(c, t)
    requires !done ==> Short(s.heap, s.root, c, t, lo, hi, b) && r == PtrOf(t) && NodeAt(s.heap, t)
    requires !done ==> (IsRed(t) || c.Top?) && (if r == NULL then t.Leaf? else t.Branch? && t.ptr == r)
    modifies s`heap
    ensures s.root == PtrOf(tree) && Rep(s.heap, tree) && ValidTree(tree)
    ensures Nodes(tree) == CtxNodes(c) + Nodes(t)
  {
    hide Short, Ok, OkCtx, Rep, RepCtx, Nodes, CtxNodes, ValidTree, Plug, Zip, Fits, Blacken;
    ghost var h, u, b' := s.heap, t, b;
    if r != NULL {
      s.SetRed(r, false);
    }
    if !done {
      BlackenFinal(h, s.root, c, t, lo, hi, b, s.heap);
      b' :| Zip(s.heap, s.root, c, Blacken(t), lo, hi, b');
      u := Blacken(t);
    }
    ZipIsValid(s.heap, s.root, c, u, lo, hi, b');
    tree := Plug(c, u);
  }

  /** The loop that moves a missing black edge towards the root. */
  method MoveDeficitUp(s: Memory, nodestack: array<Link>, sp0: nat, r0: Ptr,
                       ghost c0: Ctx, ghost t0: Tree, ghost lo: int, ghost hi: int, ghost b0: int)
    returns (ghost tree: Tree)
    requires Short(s.heap, s.root, c0, t0, lo, hi, b0) && r0 == PtrOf(t0)
    requires nodestack.Length == STACK_SIZE && sp0 <= 96 && StackFor(nodestack[..sp0], c0)
    modifies s`heap, s`root, nodestack
    ensures s.root == PtrOf(tree) && Rep(s.heap, tree) && ValidTree(tree)
    ensures Nodes(tree) == CtxNodes(c0) + Nodes(t0)
  {
    hide Ok, OkCtx, Rep, RepCtx, Deficit, Nodes, CtxNodes, ValidTree, Plug, CellOf, NearNephewUp, SiblingUp, PassedUp;
    var sp, r := sp0, r0;
    ghost var c, t, b := c0, t0, b0;
    ghost var done := false;
    SamePtr(s.heap, t);
    hide Short, NodeAt, StackFor, Zip, Fits, RedSiblingCtx, Blacken, CellHolds, MkNode, Near, Far, Lo, Hi;
    while sp > 0 && (r == NULL || !s.heap[r].red)
      invariant 0 <= sp <= 96
      invariant CtxNodes(c) + Nodes(t) == CtxNodes(c0) + Nodes(t0)
      invariant r != NULL ==> r in s.heap
      invariant !done ==> Short(s.heap, s.root, c, t, lo, hi, b) && r == PtrOf(t) && NodeAt(s.heap, t)
      invariant !done ==> StackFor(nodestack[..sp], c)
      invariant done ==> sp == 0 && r == NULL && Zip(s.heap, s.root, c, t, lo, hi, b) && Fits(c, t)
      decreases if sp == 0 || (r != NULL && s.heap[r].red) then 0 else sp
    {
      AtShort(s.heap, s.root, c, t, lo, hi, b, nodestack[..sp]);
      assert nodestack[..sp][sp - 1] == nodestack[sp - 1] && nodestack[..sp][..sp - 1] == nodestack[..sp - 1];
      var pp := nodestack[sp - 1];
      var p := s.Deref(pp);
      var l := r == s.heap[p].left;
      var q := s.Succ(p, !l);
      if s.heap[q].red {
        q := MakeSiblingBlack(s, nodestack, sp, l, p, q, c, t, lo, hi, b);
        c := RedSiblingCtx(c);
        sp := sp + 1;
        pp := nodestack[sp - 1];
      }
      ghost var t', b';
      var passedUp;
      passedUp, t', b' := RepairAt(s, l, p, q, pp, c, t, lo, hi, b);
      c, t, b := c.up, t', b';
      if passedUp {
        r := p;
      } else {
        sp := 1;
        r := NULL;
        done := true;
      }
      sp := sp - 1;
    }
    if !done {
      AtEnd(s.heap, c, t, nodestack[..sp]);
    }
    tree := BlackenLast(s, r, done, c, t, lo, hi, b);
  }

  lemma RedSiblingCell(c: Ctx)
    requires c.Down? && c.other.Branch?
    ensures var c1 := RedSiblingCtx(c);
      && CellOf(c1.up) == (if c.isLeft then LeftCell(c.other.ptr) else RightCell(c.other.ptr))
      && forall st: seq<Link> {:trigger StackFor(st, c)} :: StackFor(st, c) ==> StackFor(st, c1.up)
  {
  }

  /** What the loop body reads at a short black subtree below the root. */
  lemma AtShort(h: Heap, root: Ptr, c: Ctx, t: Tree, lo: int, hi: int, b: int, st: seq<Link>)
    requires Short(h, root, c, t, lo, hi, b) && NodeAt(h, t) && StackFor(st, c) && st != []
    requires PtrOf(t) == NULL || (PtrOf(t) in h && !h[PtrOf(t)].red)
    ensures c.Down? && !IsRed(t) && st[|st| - 1] == CellOf(c.up) && StackFor(st[..|st| - 1], c.up)
    ensures CellHolds(h, root, CellOf(c.up), c.ptr) && c.ptr in h && (PtrOf(t) == h[c.ptr].left <==> c.isLeft)
    ensures (if c.isLeft then h[c.ptr].right else h[c.ptr].left) == PtrOf(c.other)
    ensures c.other.Branch? && PtrOf(c.other) in h && h[PtrOf(c.other)].red == IsRed(c.other)
    ensures PtrOf(c.other) == c.other.ptr
  {
    hide Short;
    SideOf(h, root, c, t, lo, hi, b);
  }

  /** When the loop ends, r is a red node's subtree or the whole tree. */
  lemma AtEnd(h: Heap, c: Ctx, t: Tree, st: seq<Link>)
    requires NodeAt(h, t) && StackFor(st, c)
    requires st == [] || (PtrOf(t) != NULL && PtrOf(t) in h && h[PtrOf(t)].red)
    ensures IsRed(t) || c.Top?
    ensures if PtrOf(t) == NULL then t.Leaf? else t.Branch? && t.ptr == PtrOf(t)
  {
    assert t.Branch? ==> PtrOf(t) == t.ptr;
  }

  lemma PassedUpRoot(c: Ctx, t: Tree)
    requires c.Down? && c.other.Branch?
    ensures PassedUp(c, t).Branch? && PassedUp(c, t).ptr == c.ptr && PassedUp(c, t).red == c.red
  {
  }

  // ---------------------------------------------------------- finding places

  ghost predicate ParentOf(t: Tree, p: Ptr, key: int)
  {
    t.Branch? &&
    ( || (t.ptr == p && t.left.Branch? && t.left.key == key)
      || (t.ptr == p && t.right.Branch? && t.right.key == key)
      || ParentOf(t.left, p, key) || ParentOf(t.right, p, key))
  }

  lemma {:induction false} PlugParent(c: Ctx, t: Tree, p: Ptr, key: int)
    requires ParentOf(t, p, key) || (c.Down? && c.ptr == p && t.Branch? && t.key == key)
    ensures ParentOf(Plug(c, t), p, key)
  {
    if c.Down? {
      PlugParent(c.up, if c.isLeft then Branch(t, c.ptr, c.key, c.red, c.other)
                       else Branch(c.other, c.ptr, c.key, c.red, t), p, key);
    }
  }

  /** The node the search passed last, or the root's node if it passed none. */
  ghost predicate LastPassed(p: Ptr, c: Ctx, t: Tree)
  {
    if c.Top? then p == PtrOf(t) else p == c.ptr
  }

  /** Descend to the key, stacking the cells passed. */
  method FindKey(s: Memory, key: int, nodestack: array<Link>, ghost lo: int, ghost hi: int)
    returns (found: bool, sp: nat, rootp: Link, p: Ptr, ghost c: Ctx, ghost t: Tree, ghost b: int)
    requires s.Valid() && s.root != NULL && Height(s.tree) <= 96
    requires lo < key < hi && forall k :: k in Keys(s.tree) ==> lo < k < hi
    requires nodestack.Length == STACK_SIZE
    modifies nodestack
    ensures !found ==> key !in Keys(s.tree)
    ensures found ==> Zip(s.heap, s.root, c, t, lo, hi, b) && Fits(c, t) && Plug(c, t) == s.tree
    ensures found ==> t.Branch? && t.key == key && rootp == CellOf(c) && LastPassed(p, c, t)
    ensures found ==> sp <= nodestack.Length && StackFor(nodestack[..sp], c)
  {
    hide Zip, Fits, Plug, CellOf, CellHolds, LastPassed, StackFor, Lo, Hi, PathLength, Below, Child;
    hide Keys, Height, BlackHeight, Rep, ValidTree;
    c, t, b := Top, s.tree, BlackHeight(s.tree);
    rootp, sp, p := RootCell, 0, s.root;
    assert nodestack[..0] == [];
    StartFindKey(s, lo, hi, key);
    while true
      invariant Zip(s.heap, s.root, c, t, lo, hi, b) && Fits(c, t) && Plug(c, t) == s.tree
      invariant t.Branch? && rootp == CellOf(c) && LastPassed(p, c, t) && CellHolds(s.heap, s.root, rootp, t.ptr)
      invariant Lo(c, lo) < key < Hi(c, hi)
      invariant 0 <= sp <= 96 && StackFor(nodestack[..sp], c)
      decreases PathLength(t, key)
    {
      NodeReached(s, c, t, lo, hi, b, rootp);
      var node := s.Deref(rootp);
      if key == s.heap[node].key {
        found := true;
        return;
      }
      ghost var below := nodestack[..sp];
      FindStep(s.heap, s.root, c, t, lo, hi, b, key, below, s.tree);
      assert sp != STACK_SIZE;
      nodestack[sp] := rootp;
      assert nodestack[..sp + 1] == below + [rootp];
      sp := sp + 1;
      p := node;
      rootp := if key < s.heap[node].key then LeftCell(node) else RightCell(node);
      b := if t.red then b else b - 1;
      c, t := Below(c, t, key), Child(t, key);
      CellReached(s, rootp, t);
      if s.Deref(rootp) == NULL {
        found := false;
        return;
      }
    }
  }

  lemma StartFindKey(s: Memory, lo: int, hi: int, key: int)
    requires s.Valid() && s.root != NULL && lo < key < hi && forall k :: k in Keys(s.tree) ==> lo < k < hi
    ensures Zip(s.heap, s.root, Top, s.tree, lo, hi, BlackHeight(s.tree))
    ensures Fits(Top, s.tree) && Plug(Top, s.tree) == s.tree
    ensures s.tree.Branch? && CellOf(Top) == RootCell && LastPassed(s.root, Top, s.tree)
    ensures CellHolds(s.heap, s.root, RootCell, s.tree.ptr)
    ensures Lo(Top, lo) == lo && Hi(Top, hi) == hi && StackFor([], Top)
  {
    ValidIsOk(s.tree, lo, hi);
  }

  lemma NodeReached(s: Memory, c: Ctx, t: Tree, lo: int, hi: int, b: int, rootp: Link)
    requires Zip(s.heap, s.root, c, t, lo, hi, b) && t.Branch? && CellHolds(s.heap, s.root, rootp, t.ptr)
    ensures s.HasCell(rootp) && s.Deref(rootp) == t.ptr && t.ptr in s.heap && s.heap[t.ptr].key == t.key
  {
  }

  lemma CellReached(s: Memory, rootp: Link, t: Tree)
    requires CellHolds(s.heap, s.root, rootp, PtrOf(t))
    ensures s.HasCell(rootp) && s.Deref(rootp) == PtrOf(t) && (t.Branch? ==> PtrOf(t) == t.ptr)
  {
  }

  /** One step of the descent: the stack has room, and the step keeps what the
      search knows, or shows that the key is not in the tree. */
  lemma FindStep(h: Heap, root: Ptr, c: Ctx, t: Tree, lo: int, hi: int, b: int, key: int, st: seq<Link>, tree: Tree)
    requires Zip(h, root, c, t, lo, hi, b) && Fits(c, t) && t.Branch?
    requires Plug(c, t) == tree && Height(tree) <= 96 && StackFor(st, c)
    requires lo < hi && Lo(c, lo) < key < Hi(c, hi) && key != t.key
    ensures |st| <= 95
    ensures var c', t' := Below(c, t, key), Child(t, key);
      && Zip(h, root, c', t', lo, hi, if t.red then b else b - 1) && Fits(c', t') && Plug(c', t') == tree
      && CellOf(c') == (if key < t.key then LeftCell(t.ptr) else RightCell(t.ptr))
      && CellHolds(h, root, CellOf(c'), PtrOf(t')) && LastPassed(t.ptr, c', t')
      && Lo(c', lo) < key < Hi(c', hi) && StackFor(st + [CellOf(c)], c')
      && PathLength(t', key) < PathLength(t, key)
      && (PtrOf(t') == NULL <==> t'.Leaf?)
      && (t'.Leaf? ==> key !in Keys(tree))
  {
    hide Ok, OkCtx, Rep, RepCtx, Nodes, CtxNodes, Keys, Height, Depth, Plug, StackFor;
    ShallowStack(st, c, t);
    StackPush(st, c, CellOf(c));
    BelowPlug(c, t, key);
    CellFacts(h, root, c, t);
    StepDown(h, root, c, t, lo, hi, b, key);
    CellFacts(h, root, Below(c, t, key), Child(t, key));
    if Child(t, key).Leaf? {
      Absent(c, t, lo, hi, b, key, tree);
    }
  }

  lemma BelowPlug(c: Ctx, t: Tree, key: int)
    requires t.Branch?
    ensures Plug(Below(c, t, key), Child(t, key)) == Plug(c, t)
    ensures Below(c, t, key).up == c && Below(c, t, key).ptr == t.ptr && Below(c, t, key).Down?
    ensures CellOf(Below(c, t, key)) == if key < t.key then LeftCell(t.ptr) else RightCell(t.ptr)
    ensures PathLength(Child(t, key), key) < PathLength(t, key)
  {
  }

  /** Where the search falls off the tree, the key is not in it. */
  lemma Absent(c: Ctx, t: Tree, lo: int, hi: int, b: int, key: int, tree: Tree)
    requires OkCtx(c, lo, hi, b) && Ok(t, Lo(c, lo), Hi(c, hi), b) && lo < hi && t.Branch?
    requires Lo(c, lo) < key < Hi(c, hi) && key != t.key && Child(t, key).Leaf?
    requires Plug(c, t) == tree
    ensures key !in Keys(tree)
  {
    hide *;
    CtxKeysOutside(c, lo, hi, b, key);
    PlugNodes(c, t);
    NodesKeys(tree);
    NodesKeys(t);
    AbsentHere(t, Lo(c, lo), Hi(c, hi), b, key);
  }

  lemma AbsentHere(t: Tree, lo: int, hi: int, b: int, key: int)
    requires Ok(t, lo, hi, b) && t.Branch? && key != t.key && Child(t, key).Leaf?
    ensures key !in Keys(t)
  {
    var b1 := if t.red then b else b - 1;
    OkIsValid(t.left, lo, t.key, b1);
    OkIsValid(t.right, t.key, hi, b1);
  }

  /** cu is reached from t's right successor by left edges only. */
  ghost predicate Spine(cu: Ctx, c: Ctx, t: Tree)
    requires t.Branch?
  {
    cu.Down? && if cu.isLeft then Spine(cu.up, c, t) else cu == Down(c, false, t.ptr, t.key, t.red, t.left)
  }

  /** The in-order successor of a node with two successors, stacking cells. */
  method FindSuccessor(s: Memory, nodestack: array<Link>, sp0: nat, rootp: Link, root: Ptr,
                       ghost c: Ctx, ghost t: Tree, ghost lo: int, ghost hi: int, ghost b: int)
    returns (sp: nat, unchained: Ptr, ghost cu: Ctx, ghost u: Tree, ghost bu: int)
    requires Zip(s.heap, s.root, c, t, lo, hi, b) && Fits(c, t) && Plug(c, t) == s.tree && Height(s.tree) <= 96
    requires t.Branch? && t.left.Branch? && t.right.Branch? && rootp == CellOf(c) && root == t.ptr
    requires nodestack.Length == STACK_SIZE && sp0 <= STACK_SIZE && StackFor(nodestack[..sp0], c)
    modifies nodestack
    ensures Zip(s.heap, s.root, cu, u, lo, hi, bu) && Fits(cu, u) && Plug(cu, u) == s.tree && Spine(cu, c, t)
    ensures u.Branch? && u.left.Leaf? && u.ptr == unchained
    ensures sp <= STACK_SIZE && StackFor(nodestack[..sp], cu)
  {
    hide Zip, Fits, Plug, CellOf, CellHolds, Spine, StackFor, Below, Child, Height, Rep, ValidTree;
    RightStep(s.heap, s.root, c, t, lo, hi, b);
    cu, u, bu := Down(c, false, t.ptr, t.key, t.red, t.left), t.right, if t.red then b else b - 1;
    sp := sp0;
    var parent, up := rootp, RightCell(root);
    while true
      invariant Zip(s.heap, s.root, cu, u, lo, hi, bu) && Fits(cu, u) && Plug(cu, u) == s.tree && Spine(cu, c, t)
      invariant u.Branch? && cu.Down? && parent == CellOf(cu.up) && up == CellOf(cu)
      invariant CellHolds(s.heap, s.root, up, u.ptr)
      invariant sp <= STACK_SIZE && StackFor(nodestack[..sp], cu.up)
      decreases u
    {
      ghost var below := nodestack[..sp];
      LeftStep(s.heap, s.root, cu, u, lo, hi, bu, below, s.tree);
      assert sp != STACK_SIZE;
      nodestack[sp] := parent;
      assert nodestack[..sp + 1] == below + [parent];
      sp := sp + 1;
      parent := up;
      NodeReached(s, cu, u, lo, hi, bu, up);
      var node := s.Deref(up);
      if s.heap[node].left == NULL {
        unchained := node;
        return;
      }
      up := LeftCell(node);
      SpineLeft(cu, u, c, t);
      bu := if u.red then bu else bu - 1;
      cu, u := Down(cu, true, u.ptr, u.key, u.red, u.right), u.left;
    }
  }

  lemma RightStep(h: Heap, root: Ptr, c: Ctx, t: Tree, lo: int, hi: int, b: int)
    requires Zip(h, root, c, t, lo, hi, b) && Fits(c, t) && t.Branch? && t.right.Branch?
    ensures var cu, bu := Down(c, false, t.ptr, t.key, t.red, t.left), if t.red then b else b - 1;
      && Zip(h, root, cu, t.right, lo, hi, bu) && Fits(cu, t.right)
      && Plug(cu, t.right) == Plug(c, t) && Spine(cu, c, t)
      && CellOf(cu) == RightCell(t.ptr) && CellHolds(h, root, CellOf(cu), t.right.ptr)
  {
    hide Ok, OkCtx, Rep, RepCtx, Nodes, CtxNodes;
    CellFacts(h, root, c, t);
    StepDown(h, root, c, t, lo, hi, b, t.key);
    BelowPlug(c, t, t.key);
  }

  /** One step to the left: the stack has room for the parent's cell, and there is
      either a left successor to go on with or none. */
  lemma LeftStep(h: Heap, root: Ptr, cu: Ctx, u: Tree, lo: int, hi: int, b: int, st: seq<Link>, tree: Tree)
    requires Zip(h, root, cu, u, lo, hi, b) && Fits(cu, u) && u.Branch? && cu.Down?
    requires Plug(cu, u) == tree && Height(tree) <= 96 && StackFor(st, cu.up)
    ensures |st| <= 95 && StackFor(st + [CellOf(cu.up)], cu)
    ensures u.ptr in h && (h[u.ptr].left == NULL <==> u.left.Leaf?)
    ensures u.left.Branch? ==>
      var c', b' := Down(cu, true, u.ptr, u.key, u.red, u.right), if u.red then b else b - 1;
      && Zip(h, root, c', u.left, lo, hi, b') && Fits(c', u.left) && Plug(c', u.left) == tree
      && CellOf(c') == LeftCell(u.ptr) && CellHolds(h, root, CellOf(c'), u.left.ptr)
  {
    hide Ok, OkCtx, Rep, RepCtx, Nodes, CtxNodes, Height, Depth, Plug, StackFor;
    PlugHeight(cu, u);
    StackDepth(st, cu.up);
    DepthUp(cu);
    StackPush(st, cu.up, CellOf(cu.up));
    CellFacts(h, root, cu, u);
    StepDown(h, root, cu, u, lo, hi, b, u.key - 1);
    BelowPlug(cu, u, u.key - 1);
  }

  lemma SpineLeft(cu: Ctx, u: Tree, c: Ctx, t: Tree)
    requires t.Branch? && u.Branch? && Spine(cu, c, t)
    ensures Spine(Down(cu, true, u.ptr, u.key, u.red, u.right), c, t)
  {
  }

  lemma DepthUp(c: Ctx)
    requires c.Down?
    ensures Depth(c) == Depth(c.up) + 1
  {
  }

  // ------------------------------------------------------ unchaining a node

  /** The one successor, if any, of a node that lacks another. */
  ghost function OnlyChild(u: Tree): Tree
    requires u.Branch?
  {
    if u.left.Leaf? then u.right else u.left
  }

  lemma OnlyChildOk(u: Tree, lo: int, hi: int, b: int)
    requires u.Branch? && Ok(u, lo, hi, b) && (u.left.Leaf? || u.right.Leaf?)
    ensures Ok(OnlyChild(u), lo, hi, if u.red then b else b - 1)
    ensures u.red ==> OnlyChild(u) == Leaf
    ensures b >= 0 && (!u.red ==> b >= 1)
    ensures IsRed(OnlyChild(u)) ==> Ok(Blacken(OnlyChild(u)), lo, hi, b)
    ensures Nodes(u) == Nodes(OnlyChild(u)) + {(u.ptr, u.key)}
    ensures u.left.Leaf? ==> Ok(OnlyChild(u), u.key, hi, if u.red then b else b - 1)
    ensures u.left.Leaf? && IsRed(OnlyChild(u)) ==> Ok(Blacken(OnlyChild(u)), u.key, hi, b)
    ensures (u.ptr, u.key) !in Nodes(OnlyChild(u))
  {
    var b1 := if u.red then b else b - 1;
    OkNonNegative(u.left, lo, u.key, b1);
    OkIsValid(u.left, lo, u.key, b1);
    OkIsValid(u.right, u.key, hi, b1);
    NodesKeys(u.left);
    NodesKeys(u.right);
    OkWiden(u.left, lo, u.key, b1, lo, hi);
    OkWiden(u.right, u.key, hi, b1, lo, hi);
    if u.red {
      NonRedZero(u.left, lo, u.key, b1);
      NonRedZero(u.right, u.key, hi, b1);
    }
  }

  lemma NonRedZero(t: Tree, lo: int, hi: int, b: int)
    requires Ok(t, lo, hi, b) && !IsRed(t) && b <= 0
    ensures t.Leaf?
  {
    if t.Branch? {
      OkNonNegative(t.left, lo, t.key, b - 1);
    }
  }

  /** Chain R, the unchained node's only successor, into its parent. */
  method Unchain(s: Memory, nodestack: array<Link>, sp: nat, rootp: Link, unchained: Ptr,
                 ghost cu: Ctx, ghost u: Tree, ghost lo: int, ghost hi: int, ghost b: int)
    returns (r: Ptr)
    requires Zip(s.heap, s.root, cu, u, lo, hi, b) && u.Branch? && (u.left.Leaf? || u.right.Leaf?)
    requires unchained == u.ptr && sp <= nodestack.Length && StackFor(nodestack[..sp], cu)
    requires cu.Top? ==> rootp == RootCell
    modifies s`heap, s`root
    ensures r == PtrOf(OnlyChild(u))
    ensures Rep(s.heap, OnlyChild(u)) && RepCtx(s.heap, s.root, cu, r)
    ensures u.ptr in s.heap && s.heap[u.ptr].key == u.key && s.heap[u.ptr].red == u.red
    ensures s.heap.Keys == old(s.heap.Keys)
    ensures forall x :: x in s.heap ==> s.heap[x].key == old(s.heap)[x].key
  {
    hide Ok, OkCtx, Rep, RepCtx, Nodes, CtxNodes;
    ghost var h, root := s.heap, s.root;
    CellFacts(h, root, cu, u);
    r := s.heap[unchained].left;
    if r == NULL {
      r := s.heap[unchained].right;
    }
    UnchainCell(h, root, cu, u, lo, hi, b);
    if sp == 0 {
      StackDepth(nodestack[..sp], cu);
      assert cu.Top? by { DepthZero(cu); }
      s.Store(rootp, r);
    } else {
      assert cu.Down? by { assert nodestack[..sp] != []; }
      assert nodestack[sp - 1] == nodestack[..sp][sp - 1];
      var q := s.Deref(nodestack[sp - 1]);
      assert q == cu.ptr;
      if unchained == s.heap[q].right {
        s.SetRight(q, r);
      } else {
        s.SetLeft(q, r);
      }
    }
    Unchained(h, root, cu, u, lo, hi, b, r, s.heap, s.root);
  }

  lemma DepthZero(c: Ctx)
    requires Depth(c) == 0
    ensures c.Top?
  {
  }

  /** The parent and the side on which the unchained node hangs. */
  lemma UnchainCell(h: Heap, root: Ptr, cu: Ctx, u: Tree, lo: int, hi: int, b: int)
    requires Zip(h, root, cu, u, lo, hi, b) && u.Branch?
    ensures cu.Down? ==> cu.ptr in h && CellHolds(h, root, CellOf(cu.up), cu.ptr)
    ensures cu.Down? ==> (u.ptr == h[cu.ptr].right <==> !cu.isLeft) && h[cu.ptr].key == cu.key && cu.key != u.key
  {
    if cu.Down? {
      assert RepCtx(h, root, cu.up, cu.ptr);
      SamePtr(h, cu.other);
      if cu.isLeft && cu.other.Branch? {
        assert cu.other.key != u.key;
      }
    }
  }

  lemma Unchained(h: Heap, root: Ptr, cu: Ctx, u: Tree, lo: int, hi: int, b: int, r: Ptr, h': Heap, root': Ptr)
    requires Zip(h, root, cu, u, lo, hi, b) && u.Branch? && (u.left.Leaf? || u.right.Leaf?)
    requires r == PtrOf(OnlyChild(u))
    requires h' == StoreHeap(h, CellOf(cu), r) && root' == StoreRoot(root, CellOf(cu), r)
    ensures Rep(h', OnlyChild(u)) && RepCtx(h', root', cu, r)
  {
    StoreCell(h, root, cu, u.ptr, r, lo, hi, b, h', root', {});
    StoreSpares(h, cu, u.ptr, r, root);
    CellKeysOutside(cu, lo, hi, b);
    OnlyChildOk(u, Lo(cu, lo), Hi(cu, hi), b);
    RepSpared(h, h', OnlyChild(u), Lo(cu, lo), Hi(cu, hi), if u.red then b else b - 1, CellKeys(cu));
  }

  // -------------------------------------- overwriting the deleted node's key

  ghost function Rekey(cu: Ctx, k: int): Ctx
  {
    if cu.Top? then Top
    else if cu.isLeft then cu.(up := Rekey(cu.up, k)) else cu.(key := k)
  }

  lemma {:induction false} RekeyOk(cu: Ctx, c: Ctx, t: Tree, k: int, lo: int, hi: int, b: int)
    requires t.Branch? && Spine(cu, c, t) && OkCtx(cu, lo, hi, b)
    requires t.key < k < Hi(cu, hi)
    ensures OkCtx(Rekey(cu, k), lo, hi, b)
    ensures Lo(Rekey(cu, k), lo) == k && Hi(Rekey(cu, k), hi) == Hi(cu, hi) && Lo(cu, lo) == t.key
    ensures ParentRed(Rekey(cu, k)) == ParentRed(cu)
  {
    var b1 := if cu.red then b else b + 1;
    if cu.isLeft {
      RekeyOk(cu.up, c, t, k, lo, hi, b1);
    } else {
      OkWiden(cu.other, Lo(c, lo), t.key, b, Lo(c, lo), k);
    }
  }

  lemma {:induction false} RekeyStack(st: seq<Link>, cu: Ctx, c: Ctx, t: Tree, k: int)
    requires t.Branch? && Spine(cu, c, t) && StackFor(st, cu)
    ensures StackFor(st, Rekey(cu, k)) && CellOf(Rekey(cu, k)) == CellOf(cu)
  {
    if cu.isLeft {
      RekeyStack(st[..|st| - 1], cu.up, c, t, k);
    }
  }

  lemma {:induction false} RekeyRep(h: Heap, root: Ptr, cu: Ctx, c: Ctx, t: Tree, v: Ptr, k: int, h': Heap,
                                    lo: int, hi: int, b: int)
    requires t.Branch? && Spine(cu, c, t) && OkCtx(cu, lo, hi, b) && RepCtx(h, root, cu, v)
    requires t.ptr in h && h[t.ptr].key == t.key && h' == h[t.ptr := h[t.ptr].(key := k)]
    ensures RepCtx(h', root, Rekey(cu, k), v)
    ensures Lo(cu, lo) == t.key
  {
    var b1 := if cu.red then b else b + 1;
    if cu.isLeft {
      RekeyRep(h, root, cu.up, c, t, cu.ptr, k, h', lo, hi, b1);
      RepSpared(h, h', cu.other, cu.key, Hi(cu.up, hi), b, {t.key});
    } else {
      RepSpared(h, h', cu.other, Lo(cu.up, lo), cu.key, b, {t.key});
      CtxSpared(h, h', root, c, t.ptr, lo, hi, b1, {t.key});
    }
  }

  lemma {:induction false} RekeyNodes(cu: Ctx, c: Ctx, t: Tree, k: int, lo: int, hi: int, b: int)
    requires t.Branch? && Spine(cu, c, t) && OkCtx(cu, lo, hi, b) && lo < hi
    ensures (t.ptr, t.key) in CtxNodes(cu)
    ensures CtxNodes(Rekey(cu, k)) == CtxNodes(cu) - {(t.ptr, t.key)} + {(t.ptr, k)}
    ensures Lo(cu, lo) == t.key
  {
    var b1 := if cu.red then b else b + 1;
    if cu.isLeft {
      RekeyNodes(cu.up, c, t, k, lo, hi, b1);
      OkIsValid(cu.other, cu.key, Hi(cu.up, hi), b);
    } else {
      CtxKeysOutside(c, lo, hi, b1, t.key);
      OkIsValid(cu.other, Lo(cu.up, lo), cu.key, b);
    }
    NodesKeys(cu.other);
  }

  // ----------------------------------------------------------------- tdelete

  /** Deleting key: its node x disappears, or x takes over the next larger key and
      that key's node e disappears. */
  ghost predicate IsDeletion(before: set<(Ptr, int)>, after: set<(Ptr, int)>, key: int, x: Ptr, e: (Ptr, int))
  {
    && (x, key) in before && e in before
    && (if e == (x, key) then after == before - {(x, key)}
        else && e.1 > key && (forall f :: f in before && f.1 > key ==> f.1 >= e.1)
             && after == before - {(x, key), e} + {(x, e.1)})
  }

  /** After unchaining: restore the black heights if a black node went. */
  method FinishDelete(s: Memory, nodestack: array<Link>, sp: nat, r: Ptr, unchainedRed: bool,
                      ghost c: Ctx, ghost t: Tree, ghost lo: int, ghost hi: int, ghost b: int)
    returns (ghost tree: Tree)
    requires Rep(s.heap, t) && RepCtx(s.heap, s.root, c, r) && r == PtrOf(t) && OkCtx(c, lo, hi, b)
    requires unchainedRed ==> t == Leaf && Ok(t, Lo(c, lo), Hi(c, hi), b)
    requires !unchainedRed ==> b >= 1 && Ok(t, Lo(c, lo), Hi(c, hi), b - 1)
    requires !unchainedRed && IsRed(t) ==> Ok(Blacken(t), Lo(c, lo), Hi(c, hi), b)
    requires nodestack.Length == STACK_SIZE && sp <= 96 && StackFor(nodestack[..sp], c)
    modifies s`heap, s`root, nodestack
    ensures s.root == PtrOf(tree) && Rep(s.heap, tree) && ValidTree(tree)
    ensures Nodes(tree) == CtxNodes(c) + Nodes(t)
  {
    if !unchainedRed {
      tree := MoveDeficitUp(s, nodestack, sp, r, c, t, lo, hi, b - 1);
    } else {
      ZipIsValid(s.heap, s.root, c, t, lo, hi, b);
      tree := Plug(c, t);
    }
  }

  /** Remove a node that lacks a successor (the key's own node). */
  method DeleteNode(s: Memory, nodestack: array<Link>, sp: nat, rootp: Link, root: Ptr, key: int,
                    ghost c: Ctx, ghost t: Tree, ghost lo: int, ghost hi: int, ghost b: int)
    requires Zip(s.heap, s.root, c, t, lo, hi, b) && Fits(c, t) && lo < hi
    requires Plug(c, t) == s.tree && Height(s.tree) <= 96
    requires t.Branch? && t.key == key && (t.left.Leaf? || t.right.Leaf?) && root == t.ptr && rootp == CellOf(c)
    requires nodestack.Length == STACK_SIZE && sp <= STACK_SIZE && StackFor(nodestack[..sp], c)
    modifies s, nodestack
    ensures s.Valid()
    ensures IsDeletion(old(Nodes(s.tree)), Nodes(s.tree), key, root, (root, key))
  {
    hide Ok, OkCtx, Rep, RepCtx, ValidTree, Nodes, CtxNodes, Plug, Height, Depth;
    ShallowStack(nodestack[..sp], c, t);
    PlugNodes(c, t);
    OnlyChildOk(t, Lo(c, lo), Hi(c, hi), b);
    KeyInside(c, t, lo, hi, b);
    CtxKeysOutside(c, lo, hi, b, key);
    var r := Unchain(s, nodestack, sp, rootp, root, c, t, lo, hi, b);
    ghost var tree := FinishDelete(s, nodestack, sp, r, s.heap[root].red, c, OnlyChild(t), lo, hi, b);
    s.tree := tree;
  }

  /** Overwrite the key with its successor's and remove the successor's node. */
  method DeleteSuccessor(s: Memory, nodestack: array<Link>, sp: nat, rootp: Link, root: Ptr, unchained: Ptr, key: int,
                         ghost c: Ctx, ghost t: Tree, ghost cu: Ctx, ghost u: Tree,
                         ghost lo: int, ghost hi: int, ghost b: int)
    returns (ghost e: (Ptr, int))
    requires Zip(s.heap, s.root, cu, u, lo, hi, b) && Fits(cu, u) && lo < hi
    requires Plug(cu, u) == s.tree && Height(s.tree) <= 96
    requires t.Branch? && t.key == key && root == t.ptr && Spine(cu, c, t)
    requires t.ptr in s.heap && s.heap[t.ptr].key == t.key
    requires u.Branch? && u.left.Leaf? && u.ptr == unchained
    requires nodestack.Length == STACK_SIZE && sp <= STACK_SIZE && StackFor(nodestack[..sp], cu)
    modifies s, nodestack
    ensures s.Valid()
    ensures IsDeletion(old(Nodes(s.tree)), Nodes(s.tree), key, root, e)
  {
    hide Ok, OkCtx, Rep, RepCtx, ValidTree, Nodes, CtxNodes, Plug, Height, Depth;
    ShallowStack(nodestack[..sp], cu, u);
    hide IsDeletion, StackFor, Spine;
    OnlyChildOk(u, Lo(cu, lo), Hi(cu, hi), b);
    KeyInside(cu, u, lo, hi, b);
    e := (unchained, u.key);
    SuccessorDeletion(cu, c, t, u, lo, hi, b);
    ghost var b1 := if u.red then b else b - 1;
    var r := Unchain(s, nodestack, sp, rootp, unchained, cu, u, lo, hi, b);
    ghost var h := s.heap;
    s.heap := s.heap[root := s.heap[root].(key := s.heap[unchained].key)];
    RekeyOk(cu, c, t, u.key, lo, hi, b);
    RekeyRep(h, s.root, cu, c, t, r, u.key, s.heap, lo, hi, b);
    RekeyStack(nodestack[..sp], cu, c, t, u.key);
    RepSpared(h, s.heap, OnlyChild(u), u.key, Hi(cu, hi), b1, {t.key});
    assert s.heap[unchained].red == u.red;
    ghost var tree := FinishDelete(s, nodestack, sp, r, s.heap[unchained].red, Rekey(cu, u.key), OnlyChild(u),
                                   lo, hi, b);
    s.tree := tree;
  }

  /** Taking out the successor's node and giving its key to the deleted key's node
      deletes the key. */
  lemma SuccessorDeletion(cu: Ctx, c: Ctx, t: Tree, u: Tree, lo: int, hi: int, b: int)
    requires OkCtx(cu, lo, hi, b) && Ok(u, Lo(cu, lo), Hi(cu, hi), b) && lo < hi
    requires t.Branch? && Spine(cu, c, t) && u.Branch? && u.left.Leaf?
    ensures t.key < u.key
    ensures IsDeletion(Nodes(Plug(cu, u)), CtxNodes(Rekey(cu, u.key)) + Nodes(OnlyChild(u)),
                       t.key, t.ptr, (u.ptr, u.key))
  {
    hide Ok, OkCtx, Nodes, CtxNodes, Plug;
    PlugNodes(cu, u);
    OnlyChildOk(u, Lo(cu, lo), Hi(cu, hi), b);
    KeyInside(cu, u, lo, hi, b);
    CtxKeysOutside(cu, lo, hi, b, u.key);
    RekeyNodes(cu, c, t, u.key, lo, hi, b);
    NextLarger(cu, c, t, u, lo, hi, b);
    SubtreeKeys(u, Lo(cu, lo), Hi(cu, hi), b);
    assert (t.ptr, t.key) !in Nodes(u);
  }

  lemma ShallowStack(st: seq<Link>, c: Ctx, t: Tree)
    requires StackFor(st, c) && t.Branch? && Height(Plug(c, t)) <= 96
    ensures |st| <= 95
  {
    PlugHeight(c, t);
    StackDepth(st, c);
  }

  lemma KeyInside(c: Ctx, t: Tree, lo: int, hi: int, b: int)
    requires Ok(t, Lo(c, lo), Hi(c, hi), b) && t.Branch?
    ensures Lo(c, lo) < t.key < Hi(c, hi)
  {
  }

  lemma SubtreeKeys(t: Tree, lo: int, hi: int, b: int)
    requires Ok(t, lo, hi, b)
    ensures forall f :: f in Nodes(t) ==> lo < f.1 < hi
  {
    OkIsValid(t, lo, hi, b);
    NodesKeys(t);
  }

  /** The leftmost key right of t is the smallest key larger than t's. */
  lemma NextLarger(cu: Ctx, c: Ctx, t: Tree, u: Tree, lo: int, hi: int, b: int)
    requires t.Branch? && Spine(cu, c, t) && OkCtx(cu, lo, hi, b) && lo < hi
    requires Ok(u, Lo(cu, lo), Hi(cu, hi), b) && u.Branch? && u.left.Leaf?
    ensures forall f :: f in CtxNodes(cu) + Nodes(u) && f.1 > t.key ==> f.1 >= u.key
  {
    RekeyNodes(cu, c, t, u.key, lo, hi, b);
    LargerOutside(cu, lo, hi, b);
    BoundsNest(cu, lo, hi, b);
    OkIsValid(u.right, u.key, Hi(cu, hi), if u.red then b else b - 1);
    NodesKeys(u.right);
  }

  /** The path's keys are at or below its lower bound or at or above its upper. */
  lemma {:induction false} LargerOutside(c: Ctx, lo: int, hi: int, b: int)
    requires OkCtx(c, lo, hi, b) && lo < hi
    ensures forall f :: f in CtxNodes(c) ==> f.1 <= Lo(c, lo) || f.1 >= Hi(c, hi)
  {
    if c.Down? {
      var b1 := if c.red then b else b + 1;
      LargerOutside(c.up, lo, hi, b1);
      BoundsNest(c.up, lo, hi, b1);
      if c.isLeft {
        OkIsValid(c.other, c.key, Hi(c.up, hi), b);
      } else {
        OkIsValid(c.other, Lo(c.up, lo), c.key, b);
      }
      NodesKeys(c.other);
    }
  }

  /** Delete the node with the given key.  Returns null if there is none, and
      otherwise the node's parent (for the root, the root's own address).  Trees of
      fewer than 2^48 nodes never exhaust the stack of links. */
  method Tdelete(s: Memory, key: int) returns (retval: Ptr)
    requires s.Valid() && Size(s.tree) < TwoTo(48)
    modifies s
    ensures s.Valid()
    ensures key !in old(Keys(s.tree)) ==>
              retval == NULL && s.tree == old(s.tree) && s.heap == old(s.heap) && s.root == old(s.root)
    ensures key in old(Keys(s.tree)) ==>
              exists x, e :: IsDeletion(old(Nodes(s.tree)), Nodes(s.tree), key, x, e)
    ensures key in old(Keys(s.tree)) ==>
              retval != NULL &&
              (ParentOf(old(s.tree), retval, key) || (retval == old(s.root) && old(s.tree).key == key))
  {
    hide Ok, OkCtx, Rep, RepCtx, Nodes, CtxNodes, Height, StackFor, Zip, TwoTo;
    if s.root == NULL {
      EmptyTree(s.heap, s.tree);
      return NULL;
    }
    PathBelow97(s.tree);
    ghost var lo, hi := SomeBounds(s.tree, key);
    var nodestack := new Link[STACK_SIZE];
    var found, sp, rootp, p;
    ghost var c, t, b;
    found, sp, rootp, p, c, t, b := FindKey(s, key, nodestack, lo, hi);
    if !found {
      return NULL;
    }
    retval := p;
    FoundFacts(s.heap, s.root, c, t, lo, hi, b, p);
    var root := s.Deref(rootp);
    if s.heap[root].left == NULL || s.heap[root].right == NULL {
      DeleteNode(s, nodestack, sp, rootp, root, key, c, t, lo, hi, b);
      assert IsDeletion(old(Nodes(s.tree)), Nodes(s.tree), key, root, (root, key));
    } else {
      var sp', unchained;
      ghost var cu, u, bu;
      sp', unchained, cu, u, bu := FindSuccessor(s, nodestack, sp, rootp, root, c, t, lo, hi, b);
      ghost var e := DeleteSuccessor(s, nodestack, sp', rootp, root, unchained, key, c, t, cu, u, lo, hi, bu);
      assert IsDeletion(old(Nodes(s.tree)), Nodes(s.tree), key, root, e);
    }
  }

  lemma EmptyTree(h: Heap, t: Tree)
    requires Rep(h, t) && PtrOf(t) == NULL
    ensures t == Leaf
  {
  }

  lemma FoundFacts(h: Heap, root: Ptr, c: Ctx, t: Tree, lo: int, hi: int, b: int, p: Ptr)
    requires Zip(h, root, c, t, lo, hi, b) && t.Branch? && LastPassed(p, c, t)
    ensures CellHolds(h, root, CellOf(c), t.ptr) && NodeAt(h, t)
    ensures (PtrOf(t.left) == NULL <==> t.left.Leaf?) && (PtrOf(t.right) == NULL <==> t.right.Leaf?)
    ensures t.key in Keys(Plug(c, t)) && p != NULL
    ensures ParentOf(Plug(c, t), p, t.key) || (p == PtrOf(Plug(c, t)) && Plug(c, t).Branch? && Plug(c, t).key == t.key)
  {
    CellFacts(h, root, c, t);
    PlugNodes(c, t);
    NodesKeys(Plug(c, t));
    assert (t.ptr, t.key) in Nodes(Plug(c, t));
    if c.Down? {
      PlugParent(c, t, p, t.key);
    }
  }

  /** A deletion removes exactly the one key. */
  lemma DeletionKeys(before: Tree, after: Tree, key: int, x: Ptr, e: (Ptr, int))
    requires ValidTree(before) && IsDeletion(Nodes(before), Nodes(after), key, x, e)
    ensures Keys(after) == Keys(before) - {key}
  {
    assert SearchOrder(before);
    hide Nodes, Keys, ValidTree, SearchOrder, IsDeletion;
    NodesKeys(before);
    NodesKeys(after);
    UniqueNodes(before);
    forall k ensures k in Keys(after) <==> k in Keys(before) - {key} {
      DeletionKey(Nodes(before), Nodes(after), key, x, e, k);
    }
  }

  lemma DeletionKey(before: set<(Ptr, int)>, after: set<(Ptr, int)>, key: int, x: Ptr, e: (Ptr, int), k: int)
    requires IsDeletion(before, after, key, x, e)
    requires forall f, g :: f in before && g in before && f.1 == g.1 ==> f == g
    ensures (exists p :: (p, k) in after) <==> (exists p :: (p, k) in before) && k != key
  {
    if p :| (p, k) in after {
      assert (p, k) in before || (p, k) == (x, e.1);
      assert (e.0, e.1) == e;
    }
    if k != key && exists p :: (p, k) in before {
      var p :| (p, k) in before;
      assert (p, k) in after || (x, k) in after;
    }
  }

  /** A valid tree has one node for each of its keys. */
  lemma {:induction false} UniqueNodes(t: Tree)
    requires SearchOrder(t)
    ensures forall f, g :: f in Nodes(t) && g in Nodes(t) && f.1 == g.1 ==> f == g
  {
    if t.Branch? {
      UniqueNodes(t.left);
      UniqueNodes(t.right);
      NodesKeys(t.left);
      NodesKeys(t.right);
    }
  }

  // ------------------------------------------------------------------- tfind

  /** The node with the given key, or null. */
  method Tfind(s: Memory, key: int) returns (q: Ptr)
    requires s.Valid()
    ensures key in Keys(s.tree) ==> (q, key) in Nodes(s.tree)
    ensures key !in Keys(s.tree) ==> q == NULL
  {
    hide ValidTree, Rep, RepCtx, Ok, OkCtx, Nodes, Keys;
    ghost var lo, hi := SomeBounds(s.tree, key);
    ghost var c, t := Top, s.tree;
    var rootp := RootCell;
    ValidIsOk(s.tree, lo, hi);
    ghost var b: int := BlackHeight(s.tree);
    StartFind(s.heap, s.root, s.tree, lo, hi);
    while s.Deref(rootp) != NULL
      invariant Zip(s.heap, s.root, c, t, lo, hi, b) && Fits(c, t) && Plug(c, t) == s.tree
      invariant rootp == CellOf(c) && s.HasCell(rootp) && s.Deref(rootp) == PtrOf(t)
      invariant Lo(c, lo) < key < Hi(c, hi)
      decreases PathLength(t, key)
    {
      CellFacts(s.heap, s.root, c, t);
      var root := s.Deref(rootp);
      if key == s.heap[root].key {
        PlugNodes(c, t);
        NodesKeys(s.tree);
        return root;
      }
      rootp := if key < s.heap[root].key then LeftCell(root) else RightCell(root);
      StepDown(s.heap, s.root, c, t, lo, hi, b, key);
      BelowPlug(c, t, key);
      b := if t.red then b else b - 1;
      c, t := Below(c, t, key), Child(t, key);
      CellFacts(s.heap, s.root, c, t);
    }
    NullIsLeaf(s.heap, t);
    PlugNodes(c, t);
    CtxKeysOutside(c, lo, hi, b, key);
    NodesKeys(s.tree);
    NoNodes();
    return NULL;
  }

  lemma NullIsLeaf(h: Heap, t: Tree)
    requires Rep(h, t) && PtrOf(t) == NULL
    ensures t == Leaf
  {
  }

  lemma StartFind(h: Heap, root: Ptr, t: Tree, lo: int, hi: int)
    requires root == PtrOf(t) && Rep(h, t) && Ok(t, lo, hi, BlackHeight(t))
    ensures Zip(h, root, Top, t, lo, hi, BlackHeight(t))
  {
  }
}
