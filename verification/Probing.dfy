/**
 The probe sequence of the catalogue's hash table (loadmsgcat.c, dcigettext.c):
 double hashing visits every slot exactly if the increment and the table size have no
 common divisor, as with a prime size.
 */
module Probing {
  import opened Divisibility

  /** The step of the probe for a hash value. */
  function Increment(h: nat, size: nat): (incr: nat)
    requires size > 2
    ensures 0 < incr < size
  {
    1 + h % (size - 2)
  }

  /** The next slot of the probe. */
  function NextSlot(idx: nat, incr: nat, size: nat): (next: nat)
    requires idx < size && 0 < incr < size
    ensures next < size
  {
    if idx >= size - incr then idx - (size - incr) else idx + incr
  }

  /** The slot that the probe for a hash value looks at after k steps. */
  function Slot(h: nat, size: nat, k: nat): (idx: nat)
    requires size > 2
    ensures idx < size
  {
    if k == 0 then h % size else NextSlot(Slot(h, size, k - 1), Increment(h, size), size)
  }

  lemma SlotStart(h: nat, size: nat)
    requires size > 2
    ensures Slot(h, size, 0) == h % size
  {
  }

  lemma SlotNext(h: nat, size: nat, k: nat)
    requires size > 2
    ensures Slot(h, size, k + 1) == NextSlot(Slot(h, size, k), Increment(h, size), size)
  {
  }

  // ------------------------------------------------------------------ coverage

  lemma {:induction false} SlotFormula(h: nat, size: nat, k: nat)
    requires size > 2
    ensures Slot(h, size, k) == (h + k * Increment(h, size)) % size
  {
    hide Increment;
    var incr := Increment(h, size);
    if k > 0 {
      SlotFormula(h, size, k - 1);
      var y := h + (k - 1) * incr;
      assert h + k * incr == y + incr;
      NextIsMod(y, incr, size);
    }
  }

  lemma NextIsMod(y: nat, incr: nat, size: nat)
    requires 0 < incr < size
    ensures NextSlot(y % size, incr, size) == (y + incr) % size
  {
    var r, q := y % size, y / size;
    DivMod(y, size);
    if r >= size - incr {
      Distribute(q, -1, size);
      ModUnique(size, y + incr, q + 1, r + incr - size);
    } else {
      ModUnique(size, y + incr, q, r + incr);
    }
  }

  /** The probe does not come back to a slot before it has taken size steps. */
  lemma SlotsDistinct(h: nat, size: nat, j: nat, k: nat)
    requires size > 2 && Coprime(Increment(h, size), size) && j <= k < size && Slot(h, size, j) == Slot(h, size, k)
    ensures j == k
  {
    hide Coprime, Increment;
    var incr := Increment(h, size);
    SlotFormula(h, size, j);
    SlotFormula(h, size, k);
    hide Slot;
    SameRemainder(size, h + k * incr, h + j * incr);
    assert (h + k * incr) - (h + j * incr) == incr * (k - j) by { Distribute(k, j, incr); }
    CoprimeDivides(size, incr, k - j);
    DivMod(k - j, size);
    SmallMultiple((k - j) / size, size);
  }

  ghost function Visited(h: nat, size: nat, n: nat): set<nat>
    requires size > 2
  {
    set k: nat | k < n :: Slot(h, size, k)
  }

  lemma {:induction false} VisitedCount(h: nat, size: nat, n: nat)
    requires size > 2 && Coprime(Increment(h, size), size) && n <= size
    ensures |Visited(h, size, n)| == n
  {
    hide Coprime, Increment, Slot;
    if n > 0 {
      VisitedCount(h, size, n - 1);
      forall j: nat | j < n - 1 ensures Slot(h, size, j) != Slot(h, size, n - 1) {
        if Slot(h, size, j) == Slot(h, size, n - 1) {
          SlotsDistinct(h, size, j, n - 1);
        }
      }
      assert Visited(h, size, n) == Visited(h, size, n - 1) + {Slot(h, size, n - 1)};
    } else {
      assert Visited(h, size, 0) == {};
    }
  }

  ghost function Below(n: nat): set<nat>
  {
    if n == 0 then {} else Below(n - 1) + {n - 1}
  }

  lemma {:induction false} BelowCount(n: nat)
    ensures |Below(n)| == n && forall k: nat :: k in Below(n) <==> k < n
  {
    hide Below;
    BelowStep(n);
    if n > 0 {
      BelowCount(n - 1);
    }
  }

  lemma BelowStep(n: nat)
    ensures Below(n) == if n == 0 then {} else Below(n - 1) + {n - 1}
  {
  }

  lemma SubsetAll(s: set<nat>, t: set<nat>)
    requires s <= t && |s| == |t|
    ensures s == t
  {
    if s != t {
      var x :| x in t && x !in s;
      assert s + {x} <= t;
      SubsetCount(s + {x}, t);
    }
  }

  lemma {:induction false} SubsetCount(s: set<nat>, t: set<nat>)
    requires s <= t
    ensures |s| <= |t|
    decreases s
  {
    if s != {} {
      var x :| x in s;
      SubsetCount(s - {x}, t - {x});
    }
  }

  /** Then the probe visits every slot within size steps. */
  lemma ProbeCovers(h: nat, size: nat, p: nat) returns (k: nat)
    requires size > 2 && Coprime(Increment(h, size), size) && p < size
    ensures k < size && Slot(h, size, k) == p
  {
    hide Coprime, Increment, Slot;
    VisitedCount(h, size, size);
    BelowCount(size);
    assert Visited(h, size, size) <= Below(size);
    SubsetAll(Visited(h, size, size), Below(size));
    assert p in Visited(h, size, size);
    k :| k < size && Slot(h, size, k) == p;
  }

  /** A common divisor keeps the probe in one remainder class. */
  lemma {:induction false} StuckProbe(h: nat, size: nat, d: nat, k: nat)
    requires size > 2 && 0 < d <= size && size % d == 0 && Increment(h, size) % d == 0
    ensures Slot(h, size, k) % d == (h % size) % d
  {
    hide Slot, Increment, NextSlot;
    if k > 0 {
      StuckProbe(h, size, d, k - 1);
      SlotNext(h, size, k - 1);
      StuckStep(Slot(h, size, k - 1), Increment(h, size), d, size);
    } else {
      SlotStart(h, size);
    }
  }

  lemma StuckStep(idx: nat, incr: nat, d: nat, size: nat)
    requires idx < size && 0 < incr < size && 0 < d <= size && size % d == 0 && incr % d == 0
    ensures NextSlot(idx, incr, size) % d == idx % d
  {
    DivMod(size, d);
    DivMod(incr, d);
    ModShift(d, idx, incr / d);
    if idx >= size - incr {
      Distribute(incr / d, size / d, d);
      ModShift(d, idx, incr / d - size / d);
    }
  }

  /** The probe for a hash value comes to a slot. */
  ghost predicate Visits(h: nat, size: nat, p: nat)
    requires size > 2
  {
    exists k: nat :: Slot(h, size, k) == p
  }

  /** The probe for a hash value visits every slot if and only if the increment and the
      size have no common divisor: with one, some slot is missed for ever, and a loop
      that looks for it would not end. */
  lemma CoversExactly(h: nat, size: nat)
    requires size > 2
    ensures Coprime(Increment(h, size), size) <==> forall p: nat :: p < size ==> Visits(h, size, p)
  {
    hide Slot, Visits, Increment;
    if Coprime(Increment(h, size), size) {
      forall p: nat | p < size ensures Visits(h, size, p) {
        var k := ProbeCovers(h, size, p);
        VisitsAt(h, size, p, k);
      }
    } else {
      var d :| 2 <= d <= size && size % d == 0 && Increment(h, size) % d == 0;
      var p := NeverVisited(h, size, d);
    }
  }

  lemma VisitsAt(h: nat, size: nat, p: nat, k: nat)
    requires size > 2 && Slot(h, size, k) == p
    ensures Visits(h, size, p)
  {
  }

  lemma NeverVisited(h: nat, size: nat, d: nat) returns (p: nat)
    requires size > 2 && 2 <= d <= size && size % d == 0 && Increment(h, size) % d == 0
    ensures p < size && !Visits(h, size, p)
  {
    hide Slot, Increment;
    p := if (h % size) % d == 0 then 1 else 0;
    ModUnique(d, p, 0, p);
    if Visits(h, size, p) {
      var k: nat :| Slot(h, size, k) == p;
      StuckProbe(h, size, d, k);
    }
  }

  /** The probe comes back to its start after size steps. */
  lemma SlotPeriod(h: nat, size: nat, k: nat)
    requires size > 2
    ensures Slot(h, size, k) == Slot(h, size, k % size)
  {
    hide Slot, Increment;
    var incr, q, r := Increment(h, size), k / size, k % size;
    SlotFormula(h, size, k);
    SlotFormula(h, size, r);
    DivMod(k, size);
    WholeTurns(h, q, size, r, incr);
    ModShift(size, h + r * incr, q * incr);
  }

  lemma WholeTurns(h: int, q: int, size: int, r: int, incr: int)
    ensures h + (q * size + r) * incr == (h + r * incr) + (q * incr) * size
  {
    assert (q * size + r) * incr == (q * incr) * size + r * incr;
  }

  /** The slots in closed form. */
  lemma SlotIs(h: nat, size: nat, k: nat)
    requires size > 2
    ensures Slot(h, size, k) == (h + k * (1 + h % (size - 2))) % size
  {
    SlotFormula(h, size, k);
  }
}
