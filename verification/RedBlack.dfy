/**
 Red/black search trees (tsearch.c): what a valid tree is, and why no path in one
 is long.
 */
module RedBlack {
  import opened Powers

  /** Node addresses; 0 is the null pointer. */
  type Ptr = nat

  const NULL: Ptr := 0

  /** The tree a root pointer denotes, with the address of every node. */
  datatype Tree = Leaf | Branch(left: Tree, ptr: Ptr, key: int, red: bool, right: Tree)

  ghost predicate IsRed(t: Tree)
  {
    t.Branch? && t.red
  }

  ghost function PtrOf(t: Tree): Ptr
  {
    if t.Leaf? then NULL else t.ptr
  }

  ghost function Nodes(t: Tree): set<(Ptr, int)>
  {
    if t.Leaf? then {} else Nodes(t.left) + {(t.ptr, t.key)} + Nodes(t.right)
  }

  ghost function Keys(t: Tree): set<int>
  {
    if t.Leaf? then {} else Keys(t.left) + {t.key} + Keys(t.right)
  }

  // ------------------------------------------- the invariant of check_tree

  ghost predicate SearchOrder(t: Tree)
  {
    t.Branch? ==>
      && SearchOrder(t.left) && SearchOrder(t.right)
      && (forall k :: k in Keys(t.left) ==> k < t.key)
      && (forall k :: k in Keys(t.right) ==> t.key < k)
  }

  /** No two red edges are adjacent; the root's own colour does not matter. */
  ghost predicate NoRedRed(t: Tree)
  {
    t.Branch? ==>
      && NoRedRed(t.left) && NoRedRed(t.right)
      && (t.red ==> !IsRed(t.left) && !IsRed(t.right))
  }

  /** The number of black nodes on the leftmost path. */
  ghost function BlackHeight(t: Tree): nat
  {
    if t.Leaf? then 0 else BlackHeight(t.left) + if t.red then 0 else 1
  }

  /** Every path from the root has the same number of black nodes. */
  ghost predicate BlackBalanced(t: Tree)
  {
    t.Branch? ==>
      BlackBalanced(t.left) && BlackBalanced(t.right) && BlackHeight(t.left) == BlackHeight(t.right)
  }

  ghost predicate ValidTree(t: Tree)
  {
    SearchOrder(t) && NoRedRed(t) && BlackBalanced(t)
  }

  // ---------------------------------------------------- one-pass invariant

  /** All of the above at once, with bounds: keys strictly between lo and hi and
      b black nodes on every path. */
  ghost predicate Ok(t: Tree, lo: int, hi: int, b: int)
  {
    match t
    case Leaf => b == 0
    case Branch(l, _, k, red, r) =>
      && lo < k < hi
      && Ok(l, lo, k, if red then b else b - 1)
      && Ok(r, k, hi, if red then b else b - 1)
      && (red ==> !IsRed(l) && !IsRed(r))
  }

  lemma {:induction false} OkIsValid(t: Tree, lo: int, hi: int, b: int)
    requires Ok(t, lo, hi, b)
    ensures ValidTree(t) && b == BlackHeight(t)
    ensures forall k :: k in Keys(t) ==> lo < k < hi
  {
    if t.Branch? {
      OkIsValid(t.left, lo, t.key, if t.red then b else b - 1);
      OkIsValid(t.right, t.key, hi, if t.red then b else b - 1);
    }
  }

  lemma {:induction false} ValidIsOk(t: Tree, lo: int, hi: int)
    requires ValidTree(t) && forall k :: k in Keys(t) ==> lo < k < hi
    ensures Ok(t, lo, hi, BlackHeight(t))
  {
    if t.Branch? {
      assert t.key in Keys(t) && Keys(t.left) <= Keys(t) && Keys(t.right) <= Keys(t);
      ValidIsOk(t.left, lo, t.key);
      ValidIsOk(t.right, t.key, hi);
    }
  }

  /** Some bounds around all keys of a tree and one more key. */
  lemma {:induction false} SomeBounds(t: Tree, key: int) returns (lo: int, hi: int)
    ensures lo < key < hi && forall k :: k in Keys(t) ==> lo < k < hi
  {
    if t.Leaf? {
      lo, hi := key - 1, key + 1;
    } else {
      var lo1, hi1 := SomeBounds(t.left, key);
      var lo2, hi2 := SomeBounds(t.right, t.key);
      lo := if lo1 < lo2 then lo1 else lo2;
      hi := if hi1 > hi2 then hi1 else hi2;
    }
  }

  lemma {:induction false} OkWiden(t: Tree, lo: int, hi: int, b: int, lo': int, hi': int)
    requires Ok(t, lo, hi, b) && lo' <= lo && hi <= hi'
    ensures Ok(t, lo', hi', b)
  {
    if t.Branch? {
      OkWiden(t.left, lo, t.key, if t.red then b else b - 1, lo', t.key);
      OkWiden(t.right, t.key, hi, if t.red then b else b - 1, t.key, hi');
    }
  }

  lemma {:induction false} NodesKeys(t: Tree)
    ensures forall e :: e in Nodes(t) ==> e.1 in Keys(t)
    ensures forall k :: k in Keys(t) ==> exists p :: (p, k) in Nodes(t)
  {
    if t.Branch? {
      NodesKeys(t.left);
      NodesKeys(t.right);
      assert (t.ptr, t.key) in Nodes(t);
      forall k | k in Keys(t)
        ensures exists p :: (p, k) in Nodes(t)
      {
        if k in Keys(t.left) {
          var p :| (p, k) in Nodes(t.left);
          assert (p, k) in Nodes(t);
        } else if k in Keys(t.right) {
          var p :| (p, k) in Nodes(t.right);
          assert (p, k) in Nodes(t);
        }
      }
    }
  }

  // -------------------------------------------------------------- path length

  /** The number of nodes on the longest path. */
  ghost function Height(t: Tree): nat
  {
    if t.Leaf? then 0
    else 1 + if Height(t.left) > Height(t.right) then Height(t.left) else Height(t.right)
  }

  ghost function Size(t: Tree): nat
  {
    if t.Leaf? then 0 else Size(t.left) + 1 + Size(t.right)
  }

  /** A tree with b black nodes on every path has at least 2^b - 1 nodes (twice
      that with a red root), and at most 2b (2b + 1) nodes on a path. */
  lemma {:induction false} BlackHeightBounds(t: Tree)
    requires NoRedRed(t) && BlackBalanced(t)
    ensures Size(t) + 1 >= TwoTo(BlackHeight(t) + if IsRed(t) then 1 else 0)
    ensures Height(t) <= 2 * BlackHeight(t) + if IsRed(t) then 1 else 0
  {
    hide TwoTo;
    TwoToSucc(0);
    if t.Branch? {
      BlackHeightBounds(t.left);
      BlackHeightBounds(t.right);
      TwoToMonotone(BlackHeight(t.left), BlackHeight(t.left) + if IsRed(t.left) then 1 else 0);
      TwoToMonotone(BlackHeight(t.right), BlackHeight(t.right) + if IsRed(t.right) then 1 else 0);
      TwoToSucc(BlackHeight(t.left));
    }
  }

  /** No path has more than 2*log2(n+1) nodes in a tree of n nodes. */
  lemma PathBound(t: Tree)
    requires NoRedRed(t) && BlackBalanced(t)
    ensures TwoTo(Height(t)) <= (Size(t) + 1) * (Size(t) + 1)
  {
    BlackHeightBounds(t);
    var b := BlackHeight(t) + if IsRed(t) then 1 else 0;
    TwoToSum(b, b);
    TwoToMonotone(Height(t), b + b);
    Square(TwoTo(b), Size(t) + 1);
  }

  lemma Square(x: nat, y: nat)
    requires x <= y
    ensures x * x <= y * y
  {
    assert x * x <= x * y;
  }

  /** Trees of fewer than 2^48 nodes have at most 96 nodes on a path. */
  lemma PathBelow97(t: Tree)
    requires NoRedRed(t) && BlackBalanced(t) && Size(t) < TwoTo(48)
    ensures Height(t) <= 96
  {
    hide TwoTo;
    BlackHeightBounds(t);
    var b := BlackHeight(t) + if IsRed(t) then 1 else 0;
    TwoToSucc(48);
    if b >= 49 {
      TwoToMonotone(49, b);
    }
  }
}
