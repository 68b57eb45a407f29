/** Counting threads by program point. */
module Threads {

  ghost function Count<T>(s: seq<T>, x: T): nat
  {
    if s == [] then 0 else Count(s[..|s| - 1], x) + if s[|s| - 1] == x then 1 else 0
  }

  /** One thread moves from s[i] to y. */
  lemma {:induction false} CountUpdate<T>(s: seq<T>, i: nat, y: T, x: T)
    requires i < |s|
    ensures Count(s[i := y], x) == Count(s, x) - (if s[i] == x then 1 else 0) + (if y == x then 1 else 0)
  {
    var n := |s| - 1;
    if i == n {
      assert s[i := y][..n] == s[..n];
    } else {
      assert s[i := y][..n] == s[..n][i := y];
      CountUpdate(s[..n], i, y, x);
    }
  }

  lemma {:induction false} CountPositive<T>(s: seq<T>, i: nat, x: T)
    requires i < |s| && s[i] == x
    ensures Count(s, x) >= 1
  {
    if i < |s| - 1 {
      CountPositive(s[..|s| - 1], i, x);
    }
  }

  lemma {:induction false} CountTwo<T>(s: seq<T>, i: nat, j: nat, x: T)
    requires i < j < |s| && s[i] == x && s[j] == x
    ensures Count(s, x) >= 2
  {
    if j < |s| - 1 {
      CountTwo(s[..|s| - 1], i, j, x);
    } else {
      CountPositive(s[..|s| - 1], i, x);
    }
  }

  lemma {:induction false} CountWitness<T>(s: seq<T>, x: T) returns (i: nat)
    requires Count(s, x) >= 1
    ensures i < |s| && s[i] == x
  {
    var n := |s| - 1;
    if s[n] == x {
      i := n;
    } else {
      i := CountWitness(s[..n], x);
    }
  }

  lemma {:induction false} CountNone<T>(s: seq<T>, x: T)
    requires forall i :: 0 <= i < |s| ==> s[i] != x
    ensures Count(s, x) == 0
  {
    if s != [] {
      CountNone(s[..|s| - 1], x);
    }
  }

  /** Threads at two different points, together, are at most all threads. */
  lemma {:induction false} CountTogether<T>(s: seq<T>, x: T, y: T, z: T)
    requires x != y && y != z && x != z
    ensures Count(s, x) + Count(s, y) + Count(s, z) <= |s|
  {
    if s != [] {
      CountTogether(s[..|s| - 1], x, y, z);
    }
  }

  /** Two assignments of points that agree wherever either is x count x alike. */
  lemma {:induction false} CountSame<T>(s: seq<T>, s': seq<T>, x: T)
    requires |s| == |s'| && forall i :: 0 <= i < |s| ==> (s[i] == x <==> s'[i] == x)
    ensures Count(s, x) == Count(s', x)
  {
    if s != [] {
      CountSame(s[..|s| - 1], s'[..|s'| - 1], x);
    }
  }

  /** Threads that move from x to y, and no other move to or from x or y. */
  lemma {:induction false} CountMoved<T>(s: seq<T>, s': seq<T>, x: T, y: T)
    requires |s| == |s'| && x != y
    requires forall i :: 0 <= i < |s| ==> s'[i] == s[i] || (s[i] == x && s'[i] == y)
    ensures Count(s, x) + Count(s, y) == Count(s', x) + Count(s', y)
    ensures Count(s', x) <= Count(s, x)
  {
    if s != [] {
      CountMoved(s[..|s| - 1], s'[..|s'| - 1], x, y);
    }
  }
}
