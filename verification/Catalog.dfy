/**
 Message catalogue lookup: the hash table extended by system dependent strings
 (loadmsgcat.c), and the two ways to locate a message (dcigettext.c).
 */
module Catalog {
  import opened Options
  import opened CStrings
  import opened Divisibility
  import opened MsgHash
  import opened Probing

  // --------------------------------------------------------------- the tables

  /** An original string: the stored length, and the characters up to the first NUL
      (a plural entry goes on behind it). */
  datatype Desc = Desc(length: nat, str: Text)

  /** The catalogue's own strings come first, then the system dependent ones, whose
      stored length counts the terminating NUL. */
  ghost predicate GoodDescs(descs: seq<Desc>, nstrings: nat)
  {
    && nstrings <= |descs|
    && forall i :: 0 <= i < |descs| ==> |descs[i].str| + (if i < nstrings then 0 else 1) <= descs[i].length
  }

  /** A table of indices into the strings, plus 1; 0 marks a free slot. */
  ghost predicate Table(tab: seq<nat>, n: nat)
  {
    |tab| > 2 && forall p :: 0 <= p < |tab| ==> tab[p] <= n
  }

  ghost predicate Stored(tab: seq<nat>, i: nat)
  {
    i + 1 in tab
  }

  /** The probe for a hash value comes to a slot without meeting a free slot. */
  ghost predicate OnPath(tab: seq<nat>, h: nat, p: nat)
    requires |tab| > 2
  {
    exists k: nat :: k < |tab| && Slot(h, |tab|, k) == p && PathFull(tab, h, k)
  }

  ghost predicate PathFull(tab: seq<nat>, h: nat, k: nat)
    requires |tab| > 2
  {
    forall j: nat :: j < k ==> tab[Slot(h, |tab|, j)] != 0
  }

  /** Every string is stored where its own probe comes to it. */
  ghost predicate Placed(tab: seq<nat>, descs: seq<Desc>)
    requires Table(tab, |descs|)
  {
    forall p :: 0 <= p < |tab| && tab[p] != 0 ==> OnPath(tab, Hash(descs[tab[p] - 1].str), p)
  }

  /** What the probe for a message finds from step k on. */
  ghost function Find(tab: seq<nat>, descs: seq<Desc>, msgid: Text, k: nat): (r: Option<nat>)
    requires Table(tab, |descs|)
    ensures r.Some? ==> r.value < |descs| && descs[r.value].str == msgid && Stored(tab, r.value)
    decreases |tab| - k
  {
    if k >= |tab| then None
    else
      var e := tab[Slot(Hash(msgid), |tab|, k)];
      if e == 0 then None
      else if descs[e - 1].str == msgid then Some(e - 1)
      else Find(tab, descs, msgid, k + 1)
  }

  lemma {:induction false} FindHits(tab: seq<nat>, descs: seq<Desc>, msgid: Text, k: nat, hit: nat)
    requires Table(tab, |descs|) && k <= hit < |tab| && PathFull(tab, Hash(msgid), hit)
    requires var e := tab[Slot(Hash(msgid), |tab|, hit)]; e != 0 && descs[e - 1].str == msgid
    ensures Find(tab, descs, msgid, k).Some?
    decreases hit - k
  {
    hide Slot, Hash;
    if k < hit {
      FindHits(tab, descs, msgid, k + 1, hit);
    }
  }

  /** In a table where every string is placed, the probe finds a message exactly if
      some stored string is the message. */
  lemma FindsStored(tab: seq<nat>, descs: seq<Desc>, msgid: Text)
    requires Table(tab, |descs|) && Placed(tab, descs)
    ensures Find(tab, descs, msgid, 0).Some?
       <==> exists i: nat :: i < |descs| && Stored(tab, i) && descs[i].str == msgid
  {
    hide Slot, Hash;
    if i: nat :| i < |descs| && Stored(tab, i) && descs[i].str == msgid {
      var p :| 0 <= p < |tab| && tab[p] == i + 1;
      var k: nat :| k < |tab| && Slot(Hash(msgid), |tab|, k) == p && PathFull(tab, Hash(msgid), k);
      FindHits(tab, descs, msgid, 0, k);
    }
  }

  // ---------------------------------------------------------------- insertion

  ghost predicate Keeps(tab: seq<nat>, tab': seq<nat>)
  {
    |tab'| == |tab| && forall p :: 0 <= p < |tab| && tab[p] != 0 ==> tab'[p] == tab[p]
  }

  /** Filling free slots does not change what is found. */
  lemma {:induction false} FindKept(tab: seq<nat>, tab': seq<nat>, descs: seq<Desc>, msgid: Text, k: nat)
    requires Table(tab, |descs|) && Table(tab', |descs|) && Keeps(tab, tab')
    requires Find(tab, descs, msgid, k).Some?
    ensures Find(tab', descs, msgid, k) == Find(tab, descs, msgid, k)
    decreases |tab| - k
  {
    hide Slot, Hash;
    if descs[tab[Slot(Hash(msgid), |tab|, k)] - 1].str != msgid {
      FindKept(tab, tab', descs, msgid, k + 1);
    }
  }

  /** Entering a string at the first free slot of its probe. */
  ghost predicate Enters(tab: seq<nat>, descs: seq<Desc>, i: nat, k: nat, tab': seq<nat>)
  {
    && Table(tab, |descs|) && i < |descs| && k < |tab|
    && PathFull(tab, Hash(descs[i].str), k) && tab[Slot(Hash(descs[i].str), |tab|, k)] == 0
    && tab' == tab[Slot(Hash(descs[i].str), |tab|, k) := i + 1]
  }

  lemma EnterPlaced(tab: seq<nat>, descs: seq<Desc>, i: nat, k: nat, tab': seq<nat>)
    requires Enters(tab, descs, i, k, tab') && Placed(tab, descs)
    ensures Table(tab', |descs|) && Keeps(tab, tab') && Placed(tab', descs)
  {
    hide Slot, Hash;
    var z := Slot(Hash(descs[i].str), |tab|, k);
    forall p | 0 <= p < |tab'| && tab'[p] != 0 ensures OnPath(tab', Hash(descs[tab'[p] - 1].str), p) {
      var h := Hash(descs[tab'[p] - 1].str);
      var kp: nat;
      if p == z {
        kp := k;
      } else {
        assert tab[p] != 0;
        kp :| kp < |tab| && Slot(h, |tab|, kp) == p && PathFull(tab, h, kp);
      }
      assert PathFull(tab', h, kp);
    }
  }

  lemma EnterStored(tab: seq<nat>, descs: seq<Desc>, i: nat, k: nat, tab': seq<nat>)
    requires Enters(tab, descs, i, k, tab')
    ensures forall e: nat :: Stored(tab', e) <==> Stored(tab, e) || e == i
  {
    hide Slot, Hash;
    var z := Slot(Hash(descs[i].str), |tab|, k);
    forall e: nat ensures Stored(tab', e) <==> Stored(tab, e) || e == i {
      if Stored(tab, e) {
        var p :| 0 <= p < |tab| && tab[p] == e + 1;
        assert tab'[p] == e + 1;
      }
      assert tab'[z] == i + 1;
    }
  }

  /** After a string has been entered, it is found at its index unless the message
      was found before; all else is as before. */
  lemma EnterFinds(tab: seq<nat>, descs: seq<Desc>, i: nat, k: nat, tab': seq<nat>, msgid: Text)
    requires Enters(tab, descs, i, k, tab') && Placed(tab, descs)
    ensures Table(tab', |descs|)
    ensures Find(tab', descs, msgid, 0) ==
      if Find(tab, descs, msgid, 0).None? && descs[i].str == msgid then Some(i) else Find(tab, descs, msgid, 0)
  {
    EnterPlaced(tab, descs, i, k, tab');
    EnterStored(tab, descs, i, k, tab');
    hide Slot, Hash, Placed, Stored, Enters;
    FindsStored(tab, descs, msgid);
    FindsStored(tab', descs, msgid);
    if Find(tab, descs, msgid, 0).Some? {
      FindKept(tab, tab', descs, msgid, 0);
    }
  }

  // --------------------------------------------------------------- free slots

  ghost function Free(tab: seq<nat>): nat
  {
    if tab == [] then 0 else Free(tab[..|tab| - 1]) + (if tab[|tab| - 1] == 0 then 1 else 0)
  }

  lemma {:induction false} FreeSlot(tab: seq<nat>) returns (p: nat)
    requires Free(tab) > 0
    ensures p < |tab| && tab[p] == 0
  {
    p := |tab| - 1;
    if tab[p] != 0 {
      p := FreeSlot(tab[..p]);
    }
  }

  lemma {:induction false} FillSlot(tab: seq<nat>, p: nat, v: nat)
    requires p < |tab| && tab[p] == 0 && v != 0
    ensures Free(tab[p := v]) == Free(tab) - 1
  {
    var n := |tab| - 1;
    if p < n {
      assert tab[p := v][..n] == tab[..n][p := v];
      FillSlot(tab[..n], p, v);
    } else {
      assert tab[p := v][..n] == tab[..n];
    }
  }

  // ------------------------------------------------------- the augmented table

  /** The first string from index i on, before index end, that is the message. */
  ghost function FirstFrom(descs: seq<Desc>, i: nat, end: nat, msgid: Text): Option<nat>
    requires i <= end <= |descs|
    decreases end - i
  {
    if i == end then None else if descs[i].str == msgid then Some(i) else FirstFrom(descs, i + 1, end, msgid)
  }

  lemma {:induction false} FirstFromSnoc(descs: seq<Desc>, i: nat, end: nat, msgid: Text)
    requires i <= end < |descs|
    ensures FirstFrom(descs, i, end + 1, msgid) ==
      if FirstFrom(descs, i, end, msgid).None? && descs[end].str == msgid then Some(end)
      else FirstFrom(descs, i, end, msgid)
    decreases end - i
  {
    if i < end {
      FirstFromSnoc(descs, i + 1, end, msgid);
    }
  }

  /** A table that finds what another finds, and else the first of the strings from
      start to end. */
  ghost predicate Extends(oldTab: seq<nat>, tab: seq<nat>, descs: seq<Desc>, start: nat, end: nat)
    requires Table(oldTab, |descs|) && Table(tab, |descs|) && start <= end <= |descs|
  {
    forall msgid: Text :: Find(tab, descs, msgid, 0) ==
      var r := Find(oldTab, descs, msgid, 0); if r.Some? then r else FirstFrom(descs, start, end, msgid)
  }

  lemma ExtendsMore(oldTab: seq<nat>, tab: seq<nat>, descs: seq<Desc>, start: nat, i: nat, k: nat, tab': seq<nat>)
    requires Table(oldTab, |descs|) && start <= i < |descs|
    requires Enters(tab, descs, i, k, tab') && Placed(tab, descs) && Extends(oldTab, tab, descs, start, i)
    ensures Table(tab', |descs|) && Extends(oldTab, tab', descs, start, i + 1)
  {
    EnterPlaced(tab, descs, i, k, tab');
    hide Enters, Placed, Hash, Find, FirstFrom, Slot;
    forall msgid: Text
      ensures Find(tab', descs, msgid, 0) ==
        var r := Find(oldTab, descs, msgid, 0); if r.Some? then r else FirstFrom(descs, start, i + 1, msgid)
    {
      EnterFinds(tab, descs, i, k, tab', msgid);
      FirstFromSnoc(descs, start, i, msgid);
      assert Find(tab, descs, msgid, 0) ==
        var r := Find(oldTab, descs, msgid, 0); if r.Some? then r else FirstFrom(descs, start, i, msgid);
    }
  }

  // ------------------------------------------------------ where a probe ends

  /** The probe for a hash value meets a free slot. */
  ghost predicate MeetsFree(tab: seq<nat>, h: nat)
    requires |tab| > 2
  {
    exists k: nat :: tab[Slot(h, |tab|, k)] == 0
  }

  /** Then it does so within a turn, and the first time after none. */
  lemma FirstFree(tab: seq<nat>, h: nat) returns (k: nat)
    requires |tab| > 2 && MeetsFree(tab, h)
    ensures k < |tab| && tab[Slot(h, |tab|, k)] == 0 && PathFull(tab, h, k)
  {
    hide Slot;
    var z: nat :| tab[Slot(h, |tab|, z)] == 0;
    SlotPeriod(h, |tab|, z);
    k := 0;
    while tab[Slot(h, |tab|, k)] != 0
      invariant k <= z % |tab| && PathFull(tab, h, k)
      decreases z % |tab| - k
    {
      k := k + 1;
    }
  }

  lemma {:induction false} HasFree(tab: seq<nat>, p: nat)
    requires p < |tab| && tab[p] == 0
    ensures Free(tab) > 0
  {
    if p < |tab| - 1 {
      HasFree(tab[..|tab| - 1], p);
    }
  }

  /** A probe with a coprime increment meets every free slot. */
  lemma CoprimeMeets(tab: seq<nat>, h: nat)
    requires |tab| > 2 && Coprime(Increment(h, |tab|), |tab|) && Free(tab) > 0
    ensures MeetsFree(tab, h)
  {
    hide Coprime, Increment, Slot, Free;
    var z := FreeSlot(tab);
    var k := ProbeCovers(h, |tab|, z);
  }

  /** Whichever slots are free, as long as one is, the probe meets it. */
  ghost predicate EndsOnAll(h: nat, size: nat)
    requires size > 2
  {
    forall tab: seq<nat> :: |tab| == size && Free(tab) > 0 ==> MeetsFree(tab, h)
  }

  /** The loops end on every table with a free slot if and only if the increment is
      coprime to the table size. */
  lemma EndsExactly(h: nat, size: nat)
    requires size > 2
    ensures EndsOnAll(h, size) <==> Coprime(Increment(h, size), size)
  {
    hide Coprime, Increment, Free, MeetsFree, Visits;
    CoversExactly(h, size);
    if Coprime(Increment(h, size), size) {
      forall tab: seq<nat> | |tab| == size && Free(tab) > 0 ensures MeetsFree(tab, h) {
        CoprimeMeets(tab, h);
      }
    } else {
      var p: nat :| p < size && !Visits(h, size, p);
      StuckTable(h, size, p);
    }
  }

  /** A table that is full but for a slot that the probe never visits. */
  lemma StuckTable(h: nat, size: nat, p: nat)
    requires size > 2 && p < size && !Visits(h, size, p)
    ensures !EndsOnAll(h, size)
  {
    hide Slot;
    var tab: seq<nat> := seq(size, i => if i == p then 0 else 1);
    HasFree(tab, p);
    assert forall k: nat :: tab[Slot(h, size, k)] == 0 ==> Slot(h, size, k) == p;
    assert !MeetsFree(tab, h);
  }

  /** Four slots, one of them free, and the one-character message whose hash value is
      1: the loops go round slots 1 and 3 for ever. */
  lemma EndlessProbe()
    ensures Hash([1]) == 1 && !Coprime(Increment(1, 4), 4)
    ensures Free([0, 1, 1, 1]) == 1 && !MeetsFree([0, 1, 1, 1], 1)
  {
    HashOfOne();
    OneFree();
    hide Hash, Free, Slot;
    var tab: seq<nat> := [0, 1, 1, 1];
    assert Increment(1, 4) == 2 && 4 % 2 == 0 && 2 % 2 == 0;
    if k: nat :| tab[Slot(1, 4, k)] == 0 {
      StuckProbe(1, 4, 2, k);
    }
  }

  lemma OneFree()
    ensures Free([0, 1, 1, 1]) == 1
  {
    var tab: seq<nat> := [0, 1, 1, 1];
    assert tab[..3] == [0, 1, 1] && [0, 1, 1][..2] == [0, 1] && [0, 1][..1] == [0] && [0][..0] == [];
    assert Free([0]) == 1;
    assert Free([0, 1]) == 1;
    assert Free([0, 1, 1]) == 1;
  }

  /** The insertion loop for one string: ends at the first free slot of its probe, if
      there is one. */
  method Enter(tab: array<nat>, ghost descs: seq<Desc>, i: nat, msgid: Text) returns (ghost k: nat)
    requires Table(tab[..], |descs|) && i < |descs| && descs[i].str == msgid && MeetsFree(tab[..], Hash(msgid))
    modifies tab
    ensures Enters(old(tab[..]), descs, i, k, tab[..]) && Free(tab[..]) == Free(old(tab[..])) - 1
  {
    hide MeetsFree, Slot, Free, Hash;
    var hashSize := tab.Length;
    var hashVal := HashValue(msgid);
    var idx := hashVal % hashSize;
    var incr := 1 + hashVal % (hashSize - 2);
    ghost var kz := FirstFree(tab[..], hashVal);
    k := 0;
    SlotStart(hashVal, hashSize);
    while true
      invariant k <= kz && idx == Slot(hashVal, hashSize, k) && tab[..] == old(tab[..])
      invariant PathFull(tab[..], hashVal, k)
      decreases kz - k
    {
      if tab[idx] == 0 {
        FillSlot(tab[..], idx, 1 + i);
        tab[idx] := 1 + i;
        break;
      }
      SlotNext(hashVal, hashSize, k);
      if idx >= hashSize - incr {
        idx := idx - (hashSize - incr);
      } else {
        idx := idx + incr;
      }
      k := k + 1;
    }
  }

  method HashValue(msgid: Text) returns (hashVal: nat)
    ensures hashVal == Hash(msgid)
  {
    var hval := HashString(msgid, RANGE64);
    hashVal := hval % RANGE32;
  }

  /** The table after a string with the given hash value has been entered. */
  ghost function Entered(tab: seq<nat>, h: nat, v: nat): (tab': seq<nat>)
    requires |tab| > 2 && MeetsFree(tab, h)
    ensures |tab'| == |tab|
  {
    FirstFreeExists(tab, h);
    var k: nat :| k < |tab| && tab[Slot(h, |tab|, k)] == 0 && PathFull(tab, h, k);
    tab[Slot(h, |tab|, k) := v]
  }

  lemma FirstFreeExists(tab: seq<nat>, h: nat)
    requires |tab| > 2 && MeetsFree(tab, h)
    ensures exists k: nat :: k < |tab| && tab[Slot(h, |tab|, k)] == 0 && PathFull(tab, h, k)
  {
    hide Slot, MeetsFree;
    var k := FirstFree(tab, h);
  }

  lemma EnteredIs(tab: seq<nat>, descs: seq<Desc>, i: nat, k: nat, tab': seq<nat>)
    requires Enters(tab, descs, i, k, tab') && MeetsFree(tab, Hash(descs[i].str))
    ensures tab' == Entered(tab, Hash(descs[i].str), i + 1)
  {
    hide Slot, Hash, MeetsFree;
    var h := Hash(descs[i].str);
    FirstFreeExists(tab, h);
    var j: nat :| j < |tab| && tab[Slot(h, |tab|, j)] == 0 && PathFull(tab, h, j)
      && Entered(tab, h, i + 1) == tab[Slot(h, |tab|, j) := i + 1];
    assert j == k;
  }

  /** All strings from index i on can be entered: each one's probe meets a free slot when
      its turn comes. */
  ghost predicate AllEnter(tab: seq<nat>, descs: seq<Desc>, i: nat)
    requires |tab| > 2 && i <= |descs|
    decreases |descs| - i
  {
    i == |descs| ||
    (var h := Hash(descs[i].str); MeetsFree(tab, h) && AllEnter(Entered(tab, h, i + 1), descs, i + 1))
  }

  /** So it is whenever there are enough free slots and the strings' increments are
      coprime to the table size. */
  lemma {:induction false} CoprimeEnter(tab: seq<nat>, descs: seq<Desc>, i: nat)
    requires |tab| > 2 && i <= |descs| && Free(tab) >= |descs| - i
    requires forall j: nat :: i <= j < |descs| ==> Coprime(Increment(Hash(descs[j].str), |tab|), |tab|)
    ensures AllEnter(tab, descs, i)
    decreases |descs| - i
  {
    hide Slot, Hash, Free, MeetsFree, Increment, Coprime;
    if i < |descs| {
      var h := Hash(descs[i].str);
      CoprimeMeets(tab, h);
      EnteredFree(tab, h, i + 1);
      CoprimeEnter(Entered(tab, h, i + 1), descs, i + 1);
    }
  }

  lemma EnteredFree(tab: seq<nat>, h: nat, v: nat)
    requires |tab| > 2 && MeetsFree(tab, h) && v != 0
    ensures Free(Entered(tab, h, v)) == Free(tab) - 1
  {
    hide Slot, MeetsFree, Free;
    FirstFreeExists(tab, h);
    var k: nat :| k < |tab| && tab[Slot(h, |tab|, k)] == 0 && Entered(tab, h, v) == tab[Slot(h, |tab|, k) := v];
    FillSlot(tab, Slot(h, |tab|, k), v);
  }

  /** The augmented hash table of a catalogue: strings found before are found at the
      same index, and every other system dependent string at the first index where
      it stands. */
  method Augment(hashTab: seq<nat>, descs: seq<Desc>, nstrings: nat) returns (tab: array<nat>)
    requires nstrings <= |descs| && Table(hashTab, nstrings) && Placed(hashTab, descs)
    requires AllEnter(hashTab, descs, nstrings)
    ensures fresh(tab) && tab.Length == |hashTab| && Keeps(hashTab, tab[..])
    ensures Table(tab[..], |descs|) && Placed(tab[..], descs)
    ensures Free(tab[..]) == Free(hashTab) - (|descs| - nstrings)
    ensures Extends(hashTab, tab[..], descs, nstrings, |descs|)
  {
    hide MeetsFree, Entered, Placed, Free, Find, Hash, Extends, Enters, Table, Keeps;
    var hashSize := |hashTab|;
    assert hashSize > 2 by { TableSize(hashTab, nstrings); }
    tab := new nat[hashSize];
    var i := 0;
    while i < hashSize
      invariant 0 <= i <= hashSize && tab[..i] == hashTab[..i]
    {
      tab[i] := hashTab[i];
      i := i + 1;
    }
    assert tab[..] == tab[..i] == hashTab[..i] == hashTab;
    AugmentStarts(hashTab, descs, nstrings);
    i := 0;
    while i < |descs| - nstrings
      invariant 0 <= i <= |descs| - nstrings
      invariant Keeps(hashTab, tab[..]) && Table(tab[..], |descs|) && Placed(tab[..], descs)
      invariant Free(tab[..]) == Free(hashTab) - i
      invariant AllEnter(tab[..], descs, nstrings + i)
      invariant Extends(hashTab, tab[..], descs, nstrings, nstrings + i)
    {
      ghost var before := tab[..];
      ghost var k := Enter(tab, descs, nstrings + i, descs[nstrings + i].str);
      EnteredIs(before, descs, nstrings + i, k, tab[..]);
      EnterPlaced(before, descs, nstrings + i, k, tab[..]);
      ExtendsMore(hashTab, before, descs, nstrings, nstrings + i, k, tab[..]);
      KeepsTrans(hashTab, before, tab[..]);
      i := i + 1;
    }
  }

  lemma TableSize(tab: seq<nat>, n: nat)
    requires Table(tab, n)
    ensures |tab| > 2
  {
  }

  lemma AugmentStarts(tab: seq<nat>, descs: seq<Desc>, nstrings: nat)
    requires nstrings <= |descs| && Table(tab, nstrings)
    ensures Table(tab, |descs|) && Keeps(tab, tab) && Extends(tab, tab, descs, nstrings, nstrings)
  {
  }

  lemma KeepsTrans(a: seq<nat>, b: seq<nat>, c: seq<nat>)
    requires Keeps(a, b) && Keeps(b, c)
    ensures Keeps(a, c)
  {
  }

  // ------------------------------------------------------------------- lookup

  /** The probe of _nl_find_msg; it comes to an end because it meets a free slot or the
      message. */
  method Probe(tab: seq<nat>, descs: seq<Desc>, nstrings: nat, msgid: Text) returns (act: Option<nat>)
    requires GoodDescs(descs, nstrings) && Table(tab, |descs|)
    requires MeetsFree(tab, Hash(msgid)) || Find(tab, descs, msgid, 0).Some?
    ensures act == Find(tab, descs, msgid, 0)
  {
    hide MeetsFree, Slot, Free, Hash;
    var hashSize, len := |tab|, |msgid|;
    var hashVal := HashValue(msgid);
    var idx := hashVal % hashSize;
    var incr := 1 + hashVal % (hashSize - 2);
    ghost var kz := |tab|;
    if MeetsFree(tab, hashVal) {
      kz := FirstFree(tab, hashVal);
    }
    ghost var k := 0;
    SlotStart(hashVal, hashSize);
    while true
      invariant k <= kz && (k == |tab| ==> Find(tab, descs, msgid, 0).None?)
      invariant kz < |tab| || Find(tab, descs, msgid, 0).Some?
      invariant kz < |tab| ==> tab[Slot(hashVal, hashSize, kz)] == 0
      invariant idx == Slot(hashVal, hashSize, k)
      invariant Find(tab, descs, msgid, k) == Find(tab, descs, msgid, 0)
      decreases kz - k
    {
      var nstr := tab[idx];
      if nstr == 0 {
        return None;
      }
      nstr := nstr - 1;
      if if nstr < nstrings then descs[nstr].length >= len && msgid == descs[nstr].str
         else descs[nstr].length > len && msgid == descs[nstr].str {
        return Some(nstr);
      }
      SlotNext(hashVal, hashSize, k);
      if idx >= hashSize - incr {
        idx := idx - (hashSize - incr);
      } else {
        idx := idx + incr;
      }
      k := k + 1;
    }
  }

  /** The catalogue's own strings stand in strictly ascending order. */
  ghost predicate Sorted(descs: seq<Desc>, nstrings: nat)
    requires nstrings <= |descs|
  {
    forall i, j :: 0 <= i < j < nstrings ==> Less(descs[i].str, descs[j].str)
  }

  /** The bisection of _nl_find_msg, for a catalogue without a hash table. */
  method Bisect(descs: seq<Desc>, nstrings: nat, msgid: Text) returns (act: Option<nat>)
    requires nstrings <= |descs| && Sorted(descs, nstrings)
    ensures act.Some? ==> act.value < nstrings && descs[act.value].str == msgid
    ensures act.None? ==> forall i :: 0 <= i < nstrings ==> descs[i].str != msgid
  {
    hide Less, Compare;
    var bottom, top := 0, nstrings;
    while bottom < top
      invariant 0 <= bottom <= top <= nstrings
      invariant forall i :: 0 <= i < nstrings && !(bottom <= i < top) ==> descs[i].str != msgid
    {
      var mid := (bottom + top) / 2;
      var cmpVal := Compare(msgid, descs[mid].str);
      CompareLaws(msgid, descs[mid].str);
      if cmpVal < 0 {
        SortedAround(descs, nstrings, msgid, mid);
        top := mid;
      } else if cmpVal > 0 {
        SortedAround(descs, nstrings, msgid, mid);
        bottom := mid + 1;
      } else {
        return Some(mid);
      }
    }
    return None;
  }

  lemma SortedAround(descs: seq<Desc>, nstrings: nat, msgid: Text, mid: nat)
    requires nstrings <= |descs| && Sorted(descs, nstrings) && mid < nstrings
    ensures Compare(msgid, descs[mid].str) < 0 ==> forall i :: mid <= i < nstrings ==> descs[i].str != msgid
    ensures Compare(msgid, descs[mid].str) > 0 ==> forall i :: 0 <= i <= mid ==> descs[i].str != msgid
  {
    hide Compare;
    CompareLaws(msgid, descs[mid].str);
    forall i | 0 <= i < nstrings && descs[i].str == msgid
      ensures i < mid ==> Less(msgid, descs[mid].str)
      ensures i > mid ==> Less(descs[mid].str, msgid)
    {
    }
  }

  /** The two lookups agree: in a sorted catalogue whose hash table holds exactly its
      own strings, the probe finds a message at the index where it stands in the
      catalogue, and nothing if it stands nowhere. */
  lemma LookupsAgree(tab: seq<nat>, descs: seq<Desc>, msgid: Text, act: Option<nat>)
    requires Table(tab, |descs|) && Placed(tab, descs) && Sorted(descs, |descs|)
    requires forall i: nat :: i < |descs| ==> Stored(tab, i)
    requires act.Some? ==> act.value < |descs| && descs[act.value].str == msgid
    requires act.None? ==> forall i :: 0 <= i < |descs| ==> descs[i].str != msgid
    ensures Find(tab, descs, msgid, 0) == act
  {
    hide Placed, Compare, Find, Table;
    FindsStored(tab, descs, msgid);
    var r := Find(tab, descs, msgid, 0);
    if act.Some? {
      assert Stored(tab, act.value);
      CompareLaws(msgid, msgid);
    }
  }

  /** How _nl_find_msg locates a message. */
  method Locate(hashTab: Option<seq<nat>>, descs: seq<Desc>, nstrings: nat, msgid: Text) returns (act: Option<nat>)
    requires GoodDescs(descs, nstrings) && Sorted(descs, nstrings)
    requires hashTab.Some? ==>
      var tab := hashTab.value;
      && Table(tab, |descs|) && Placed(tab, descs)
      && (MeetsFree(tab, Hash(msgid)) || Find(tab, descs, msgid, 0).Some?)
      && forall i: nat :: i < |descs| ==> Stored(tab, i)
    requires hashTab.None? ==> |descs| == nstrings
    ensures act.Some? ==> act.value < |descs| && descs[act.value].str == msgid
    ensures act.None? ==> forall i :: 0 <= i < |descs| ==> descs[i].str != msgid
  {
    hide Placed, Compare, Find, MeetsFree;
    if hashTab.Some? {
      act := Probe(hashTab.value, descs, nstrings, msgid);
      FindsStored(hashTab.value, descs, msgid);
      if act.None? {
        forall i | 0 <= i < |descs| ensures descs[i].str != msgid {
          assert Stored(hashTab.value, i);
        }
      }
    } else {
      act := Bisect(descs, nstrings, msgid);
    }
  }
}
