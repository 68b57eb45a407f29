/**
 The memory of converted translations (dcigettext.c): strings are carved one after
 the other out of blocks, and never move or change once they are in the table.
 */
module Conversion {
  import opened Options
  import opened Powers

  const WORD := 8
  const INITIAL_BLOCK_SIZE := 4080
  const SIZE_RANGE: nat := 0x1_0000_0000_0000_0000

  /** What iconv makes of a text: all its bytes, or an error after some output. */
  datatype Result = Good(bytes: seq<int>) | Bad(before: seq<int>)

  /** A translation, by its index in the catalogue and the output encoding. */
  datatype Slot = Slot(encoding: nat, act: nat)

  /** A stretch of memory. */
  datatype Region = Region(base: nat, size: nat)

  predicate Disjoint(a: Region, b: Region)
  {
    a.base + a.size <= b.base || b.base + b.size <= a.base
  }

  predicate Inside(a: Region, b: Region)
  {
    b.base <= a.base && a.base + a.size <= b.base + b.size
  }

  type Memory = nat -> int

  function Read(mem: Memory, at: nat, n: nat): (s: seq<int>)
    ensures |s| == n && forall i :: 0 <= i < n ==> s[i] == mem(at + i)
  {
    seq(n, i requires 0 <= i < n => mem(at + i))
  }

  function Write(mem: Memory, at: nat, s: seq<int>): (r: Memory)
    ensures forall i :: 0 <= i < |s| ==> r(at + i) == s[i]
    ensures forall k: nat :: k < at || at + |s| <= k ==> r(k) == mem(k)
  {
    (k: nat) => if at <= k < at + |s| then s[k - at] else mem(k)
  }

  lemma ReadWritten(mem: Memory, at: nat, s: seq<int>)
    ensures Read(Write(mem, at, s), at, |s|) == s
  {
  }

  lemma ReadElsewhere(mem: Memory, at: nat, s: seq<int>, a: nat, n: nat)
    requires a + n <= at || at + |s| <= a
    ensures Read(Write(mem, at, s), a, n) == Read(mem, a, n)
  {
  }

  /** The bytes of a size_t. */
  function WordBytes(n: nat, width: nat): (s: seq<int>)
    ensures |s| == width
  {
    if width == 0 then [] else [n % 256] + WordBytes(n / 256, width - 1)
  }

  function WordValue(s: seq<int>): int
  {
    if s == [] then 0 else s[0] + 256 * WordValue(s[1..])
  }

  function Range(width: nat): (r: nat)
    ensures r > 0
  {
    Power(256, width)
  }

  lemma {:induction false} WordRoundTrip(n: nat, width: nat)
    requires n < Range(width)
    ensures WordValue(WordBytes(n, width)) == n
  {
    if width > 0 {
      WordRoundTrip(n / 256, width - 1);
      assert WordBytes(n, width)[1..] == WordBytes(n / 256, width - 1);
    }
  }

  lemma RangeOfWord()
    ensures Range(WORD) == SIZE_RANGE
  {
    assert Range(2) == 0x1_0000 && Range(4) == 0x1_0000_0000;
    assert Range(6) == 0x1_0000_0000_0000;
  }

  /** The region of a stored string: its length in a word, and its bytes. */
  function Stored(at: nat, bytes: seq<int>): Region
  {
    Region(at, WORD + |bytes|)
  }

  /** The memory holds a string. */
  predicate Holds(mem: Memory, at: nat, bytes: seq<int>)
  {
    Read(mem, at, WORD) == WordBytes(|bytes|, WORD) && Read(mem, at + WORD, |bytes|) == bytes
  }

  /** Writing outside its region leaves a string alone. */
  lemma HoldsStill(mem: Memory, mem': Memory, at: nat, bytes: seq<int>)
    requires Holds(mem, at, bytes)
    requires forall k: nat :: at <= k < at + WORD + |bytes| ==> mem'(k) == mem(k)
    ensures Holds(mem', at, bytes)
  {
    assert Read(mem', at, WORD) == Read(mem, at, WORD);
    assert Read(mem', at + WORD, |bytes|) == Read(mem, at + WORD, |bytes|);
  }

  /** The conversion of a slot, when it succeeds. */
  function Bytes(conv: Slot -> Result, s: Slot): seq<int>
  {
    if conv(s).Good? then conv(s).bytes else []
  }

  /** The table of converted strings: each is where the table says, on a word boundary
      and in memory that is not freed; no two overlap. */
  ghost predicate Tabled(mem: Memory, live: set<Region>, tab: map<Slot, nat>, conv: Slot -> Result)
  {
    && (forall s :: s in tab ==> conv(s).Good? && tab[s] % WORD == 0 && Holds(mem, tab[s], Bytes(conv, s)))
    && (forall s :: s in tab ==> exists b :: b in live && Inside(Stored(tab[s], Bytes(conv, s)), b))
    && (forall s, t :: s in tab && t in tab && s != t ==>
          Disjoint(Stored(tab[s], Bytes(conv, s)), Stored(tab[t], Bytes(conv, t))))
  }

  /** A region is free: no string of the table overlaps it. */
  ghost predicate Free(r: Region, tab: map<Slot, nat>, conv: Slot -> Result)
  {
    forall s :: s in tab ==> Disjoint(Stored(tab[s], Bytes(conv, s)), r)
  }

  ghost predicate Blocks(live: set<Region>)
  {
    && (forall b :: b in live ==> b.base % WORD == 0 && b.size % WORD == 0)
    && (forall a, b :: a in live && b in live && a != b ==> Disjoint(a, b))
  }

  /** The memory in some blocks is as it was. */
  ghost predicate Untouched(mem: Memory, mem': Memory, blocks: set<Region>)
  {
    forall b, k: nat :: b in blocks && b.base <= k < b.base + b.size ==> mem'(k) == mem(k)
  }

  lemma TabledWrite(mem: Memory, live: set<Region>, tab: map<Slot, nat>, conv: Slot -> Result, mem': Memory, r: Region)
    requires Tabled(mem, live, tab, conv) && Free(r, tab, conv)
    requires forall k: nat :: k < r.base || r.base + r.size <= k ==> mem'(k) == mem(k)
    ensures Tabled(mem', live, tab, conv)
  {
    hide Holds;
    forall s | s in tab ensures Holds(mem', tab[s], Bytes(conv, s)) {
      assert Disjoint(Stored(tab[s], Bytes(conv, s)), r);
      HoldsStill(mem, mem', tab[s], Bytes(conv, s));
    }
  }

  /** Whatever happens outside the blocks that hold strings leaves the table alone. */
  lemma TabledElsewhere(mem: Memory, live: set<Region>, tab: map<Slot, nat>, conv: Slot -> Result, mem': Memory)
    requires Tabled(mem, live, tab, conv) && Untouched(mem, mem', live)
    ensures Tabled(mem', live, tab, conv)
  {
    hide Holds, Bytes;
    forall s | s in tab ensures Holds(mem', tab[s], Bytes(conv, s)) {
      var b :| b in live && Inside(Stored(tab[s], Bytes(conv, s)), b);
      HoldsStill(mem, mem', tab[s], Bytes(conv, s));
    }
  }

  /** A string that has been stored in free memory joins the table. */
  lemma TabledMore(mem: Memory, live: set<Region>, tab: map<Slot, nat>, conv: Slot -> Result, s: Slot, at: nat)
    requires Tabled(mem, live, tab, conv) && s !in tab && conv(s).Good? && at % WORD == 0
    requires Holds(mem, at, conv(s).bytes) && Free(Stored(at, conv(s).bytes), tab, conv)
    requires exists b :: b in live && Inside(Stored(at, conv(s).bytes), b)
    ensures Tabled(mem, live, tab[s := at], conv)
  {
    hide Holds;
  }

  /** The state of the memory: the blocks that are not freed, up to top; the blocks that
      hold strings; and the free rest at the end of a block, on word boundaries. */
  ghost predicate Arena(mem: Memory, live: set<Region>, held: set<Region>, top: nat, tab: map<Slot, nat>,
    conv: Slot -> Result, rest: Region)
  {
    && Blocks(live) && held <= live && top % WORD == 0 && (forall b :: b in live ==> b.base + b.size <= top)
    && Tabled(mem, held, tab, conv)
    && rest.base % WORD == 0 && rest.size % WORD == 0 && Free(rest, tab, conv)
    && (rest.size > 0 ==> exists b :: b in live && Inside(rest, b) && rest.base + rest.size == b.base + b.size)
  }

  /** Strings in some blocks do not overlap another block. */
  lemma FreeBlock(mem: Memory, live: set<Region>, held: set<Region>, tab: map<Slot, nat>, conv: Slot -> Result,
    r: Region)
    requires Tabled(mem, held, tab, conv) && forall b :: b in held ==> Disjoint(b, r)
    ensures Free(r, tab, conv)
  {
    hide Holds, Bytes;
    forall s | s in tab ensures Disjoint(Stored(tab[s], Bytes(conv, s)), r) {
      var b :| b in held && Inside(Stored(tab[s], Bytes(conv, s)), b);
    }
  }

  /** A new block becomes the free rest. */
  lemma ArenaMalloc(mem: Memory, live: set<Region>, top: nat, tab: map<Slot, nat>, conv: Slot -> Result, rest: Region,
    mem': Memory, live': set<Region>, top': nat, r: Region)
    requires Arena(mem, live, live, top, tab, conv, rest) && Untouched(mem, mem', live)
    requires r.base % WORD == 0 && r.size % WORD == 0 && live' == live + {r} && top' % WORD == 0
    requires (forall b :: b in live ==> Disjoint(b, r) && b.base + b.size <= top') && r.base + r.size <= top'
    ensures Arena(mem', live', live, top', tab, conv, r)
  {
    hide Tabled, Free;
    FreeBlock(mem, live, live, tab, conv, r);
    TabledElsewhere(mem, live, tab, conv, mem');
    assert r in live' && Inside(r, r);
  }

  /** A larger block takes the place of one that holds no string, in the same place or
      in another. */
  lemma ArenaRealloc(mem: Memory, live: set<Region>, held: set<Region>, top: nat, tab: map<Slot, nat>,
    conv: Slot -> Result, rest: Region, mem': Memory, live': set<Region>, top': nat, r: Region)
    requires Arena(mem, live, held, top, tab, conv, rest) && rest in live && held == live - {rest}
    requires Untouched(mem, mem', held)
    requires r.base % WORD == 0 && r.size % WORD == 0 && live' == held + {r} && top' % WORD == 0
    requires (forall b :: b in held ==> Disjoint(b, r) && b.base + b.size <= top') && r.base + r.size <= top'
    ensures Arena(mem', live', held, top', tab, conv, r)
  {
    hide Tabled, Free;
    FreeBlock(mem, live, held, tab, conv, r);
    TabledElsewhere(mem, held, tab, conv, mem');
    assert r in live' && Inside(r, r);
  }

  /** Output that stays in the free rest disturbs nothing. */
  lemma ArenaWrite(mem: Memory, live: set<Region>, held: set<Region>, top: nat, tab: map<Slot, nat>,
    conv: Slot -> Result, rest: Region, mem': Memory)
    requires Arena(mem, live, held, top, tab, conv, rest)
    requires forall k: nat :: k < rest.base || rest.base + rest.size <= k ==> mem'(k) == mem(k)
    ensures Arena(mem', live, held, top, tab, conv, rest)
  {
    hide Tabled, Free;
    TabledWrite(mem, held, tab, conv, mem', rest);
  }

  lemma TabledWider(mem: Memory, held: set<Region>, live: set<Region>, tab: map<Slot, nat>, conv: Slot -> Result)
    requires Tabled(mem, held, tab, conv) && held <= live
    ensures Tabled(mem, live, tab, conv)
  {
    hide Holds, Bytes, Inside;
    forall s | s in tab ensures exists b :: b in live && Inside(Stored(tab[s], Bytes(conv, s)), b) {
      var b :| b in held && Inside(Stored(tab[s], Bytes(conv, s)), b);
    }
  }

  /** A string that has been converted at the head of the free rest is entered, and the
      rest shrinks to what is behind it from the next word boundary on; its end stays. */
  lemma ArenaCarve(mem: Memory, live: set<Region>, held: set<Region>, top: nat, tab: map<Slot, nat>,
    conv: Slot -> Result, rest: Region, s: Slot, rest': Region)
    requires Arena(mem, live, held, top, tab, conv, rest) && s !in tab && conv(s).Good?
    requires var used := WORD + |conv(s).bytes|;
      && used <= rest.size && Holds(mem, rest.base, conv(s).bytes)
      && rest'.size == rest.size - used - (rest.size - used) % WORD && rest'.base + rest'.size == rest.base + rest.size
    ensures Arena(mem, live, live, top, tab[s := rest.base], conv, rest')
  {
    hide Holds, Blocks, Tabled;
    var str := Stored(rest.base, conv(s).bytes);
    var b :| b in live && Inside(rest, b) && rest.base + rest.size == b.base + b.size;
    assert Inside(str, b);
    TabledWider(mem, held, live, tab, conv);
    TabledMore(mem, live, tab, conv, s, rest.base);
    assert Inside(rest', b);
    assert rest'.size % WORD == 0;
  }

  class Conversions {
    const conv: Slot -> Result
    var mem: Memory
    ghost var live: set<Region>
    var top: nat
    var freemem: nat
    var freememSize: nat
    var convTab: map<Slot, nat>

    ghost predicate Valid()
      reads this
    {
      Arena(mem, live, live, top, convTab, conv, Region(freemem, freememSize))
    }

    constructor (conv: Slot -> Result)
      ensures Valid() && this.conv == conv && convTab == map[]
    {
      this.conv := conv;
      mem, live, top := (k: nat) => 0, {}, 0;
      freemem, freememSize, convTab := 0, 0, map[];
    }

    /** malloc, with success: some memory that overlaps no other block; what it does to
        memory outside the blocks is left open. */
    method Malloc(size: nat) returns (base: nat)
      requires size % WORD == 0 && top % WORD == 0 && forall b :: b in live ==> b.base + b.size <= top
      modifies this`live, this`top, this`mem
      ensures Untouched(old(mem), mem, old(live))
      ensures base % WORD == 0 && live == old(live) + {Region(base, size)} && top % WORD == 0
      ensures forall b :: b in old(live) ==> Disjoint(b, Region(base, size)) && b.base + b.size <= top
      ensures base + size <= top
    {
      base := top;
      top := top + size;
      live := live + {Region(base, size)};
    }

    /** realloc, with success: memory with the old block's contents that overlaps no other
        block. It may be the old block grown in place, or other memory, and then the old
        block is freed. */
    method Realloc(block: Region, size: nat) returns (base: nat)
      requires block in live && block.size <= size
      requires size % WORD == 0 && top % WORD == 0 && forall b :: b in live ==> b.base + b.size <= top
      modifies this`live, this`top, this`mem
      ensures base % WORD == 0 && live == old(live) - {block} + {Region(base, size)} && top % WORD == 0
      ensures forall b :: b in old(live) - {block} ==> Disjoint(b, Region(base, size)) && b.base + b.size <= top
      ensures base + size <= top
      ensures Untouched(old(mem), mem, old(live) - {block})
      ensures Read(mem, base, block.size) == Read(old(mem), block.base, block.size)
    {
      base := top;
      top := top + size;
      live := live - {block} + {Region(base, size)};
      ReadWritten(mem, base, Read(mem, block.base, block.size));
      mem := Write(mem, base, Read(mem, block.base, block.size));
    }

    /** iconv into room for some bytes: whether it is done, and the number of bytes;
        None if the room does not suffice. */
    method Iconv(s: Slot, at: nat, room: nat) returns (done: Option<nat>)
      modifies this`mem
      ensures forall k: nat :: k < at || at + room <= k ==> mem(k) == old(mem)(k)
      ensures done == match conv(s)
        case Good(bytes) => if |bytes| <= room then Some(|bytes|) else None
        case Bad(before) => if |before| <= room then Some(|before|) else None
      ensures done.Some? && conv(s).Good? ==> Read(mem, at, done.value) == conv(s).bytes
    {
      var bytes := match conv(s) case Good(b) => b case Bad(b) => b;
      if |bytes| <= room {
        mem := Write(mem, at, bytes);
        done := Some(|bytes|);
      } else {
        mem := Write(mem, at, bytes[..room]);
        done := None;
      }
    }

    /** The converted translation of a slot: the address of its bytes, which follow
        their number; None if it cannot be converted. No string that has been returned
        before moves or changes. */
    method Translate(s: Slot) returns (result: Option<nat>)
      requires Valid() && |Bytes(conv, s)| < SIZE_RANGE
      modifies this
      ensures Valid()
      ensures forall t :: t in old(convTab) ==> t in convTab && convTab[t] == old(convTab)[t]
      ensures forall t :: t in convTab ==> t in old(convTab) || t == s
      ensures result.Some? <==> conv(s).Good?
      ensures result.Some? ==>
        && s in convTab && result.value == convTab[s] + WORD && result.value % WORD == 0
        && Read(mem, result.value, |conv(s).bytes|) == conv(s).bytes
        && WordValue(Read(mem, convTab[s], WORD)) == |conv(s).bytes|
    {
      hide Arena, Tabled, Blocks;
      if s !in convTab {
        var ok := Convert(s);
        if !ok {
          return None;
        }
      }
      InTable(mem, live, top, convTab, conv, Region(freemem, freememSize), s);
      return Some(convTab[s] + WORD);
    }

    /** Conversion of a string that is not in the table yet. */
    method Convert(s: Slot) returns (ok: bool)
      requires Valid() && s !in convTab && |Bytes(conv, s)| < SIZE_RANGE
      modifies this
      ensures Valid() && ok == conv(s).Good?
      ensures if ok then s in convTab && convTab == old(convTab)[s := convTab[s]] else convTab == old(convTab)
    {
      hide Arena, Tabled, Blocks, Holds, Write, WordBytes;
      ghost var held := live;
      ghost var need := WORD + match conv(s) case Good(b) => |b| case Bad(b) => |b|;
      var mallocCount := 0;
      while true
        invariant Arena(mem, live, held, top, convTab, conv, Region(freemem, freememSize))
        invariant convTab == old(convTab)
        invariant if mallocCount == 0 then held == live else
          Region(freemem, freememSize) in live && held == live - {Region(freemem, freememSize)}
          && freememSize == mallocCount * INITIAL_BLOCK_SIZE && freememSize - INITIAL_BLOCK_SIZE < need
        decreases if mallocCount == 0 then 1 else 0, need + INITIAL_BLOCK_SIZE - freememSize
      {
        if freememSize >= WORD {
          ghost var before := mem;
          var done := Iconv(s, freemem + WORD, freememSize - WORD);
          ArenaWrite(before, live, held, top, convTab, conv, Region(freemem, freememSize), mem);
          if done.Some? {
            if conv(s).Bad? {
              Restored(mem, live, held, top, convTab, conv, Region(freemem, freememSize));
              return false;
            }
            Store(s, done.value, held);
            return true;
          }
        }
        Facts(mem, live, held, top, convTab, conv, Region(freemem, freememSize));
        ghost var mem0, live0, top0, rest0 := mem, live, top, Region(freemem, freememSize);
        if mallocCount > 0 {
          mallocCount := mallocCount + 1;
          freemem := Realloc(Region(freemem, freememSize), mallocCount * INITIAL_BLOCK_SIZE);
          freememSize := mallocCount * INITIAL_BLOCK_SIZE;
          ArenaRealloc(mem0, live0, held, top0, convTab, conv, rest0, mem, live, top, Region(freemem, freememSize));
        } else {
          mallocCount := 1;
          freemem := Malloc(INITIAL_BLOCK_SIZE);
          freememSize := INITIAL_BLOCK_SIZE;
          ArenaMalloc(mem0, live0, top0, convTab, conv, rest0, mem, live, top, Region(freemem, freememSize));
        }
      }
    }

    /** Enter the string that has been converted, and shrink the free rest. */
    method Store(s: Slot, length: nat, ghost held: set<Region>)
      requires Arena(mem, live, held, top, convTab, conv, Region(freemem, freememSize))
      requires s !in convTab && conv(s).Good? && length == |conv(s).bytes| < SIZE_RANGE
      requires WORD + length <= freememSize && Read(mem, freemem + WORD, length) == conv(s).bytes
      modifies this`mem, this`convTab, this`freemem, this`freememSize
      ensures Valid() && convTab == old(convTab)[s := old(freemem)]
      ensures freemem + freememSize == old(freemem + freememSize)
    {
      hide Arena, WordBytes;
      ghost var before, rest := mem, Region(freemem, freememSize);
      mem := Write(mem, freemem, WordBytes(length, WORD));
      ReadWritten(before, freemem, WordBytes(length, WORD));
      ReadElsewhere(before, freemem, WordBytes(length, WORD), freemem + WORD, length);
      ArenaWrite(before, live, held, top, convTab, conv, rest, mem);
      convTab := convTab[s := freemem];
      var outbuf := freemem + WORD + length;
      freememSize := freememSize - (outbuf - freemem);
      freemem := outbuf;
      freemem := freemem + freememSize % WORD;
      freememSize := freememSize - freememSize % WORD;
      ArenaCarve(mem, live, held, top, old(convTab), conv, rest, s, Region(freemem, freememSize));
    }
  }

  /** What the memory functions need to know. */
  lemma Facts(mem: Memory, live: set<Region>, held: set<Region>, top: nat, tab: map<Slot, nat>, conv: Slot -> Result,
    rest: Region)
    requires Arena(mem, live, held, top, tab, conv, rest)
    ensures top % WORD == 0 && forall b :: b in live ==> b.base + b.size <= top
  {
  }

  /** A new block that was not used yet may be used later. */
  lemma Restored(mem: Memory, live: set<Region>, held: set<Region>, top: nat, tab: map<Slot, nat>,
    conv: Slot -> Result, rest: Region)
    requires Arena(mem, live, held, top, tab, conv, rest)
    ensures Arena(mem, live, live, top, tab, conv, rest)
  {
    hide Tabled, Free, Blocks;
    TabledWider(mem, held, live, tab, conv);
  }

  lemma InTable(mem: Memory, live: set<Region>, top: nat, tab: map<Slot, nat>, conv: Slot -> Result, rest: Region,
    s: Slot)
    requires Arena(mem, live, live, top, tab, conv, rest) && s in tab && |Bytes(conv, s)| < SIZE_RANGE
    ensures conv(s).Good? && tab[s] % WORD == 0 && Read(mem, tab[s] + WORD, |conv(s).bytes|) == conv(s).bytes
    ensures WordValue(Read(mem, tab[s], WORD)) == |conv(s).bytes|
  {
    hide Blocks, Free, WordBytes, WordValue;
    assert Holds(mem, tab[s], Bytes(conv, s));
    RangeOfWord();
    WordRoundTrip(|conv(s).bytes|, WORD);
  }

  /** Distinct converted strings do not overlap, nor the free memory. */
  lemma StringsDisjoint(c: Conversions, s: Slot, t: Slot)
    requires c.Valid() && s in c.convTab && t in c.convTab && s != t
    ensures Disjoint(Stored(c.convTab[s], Bytes(c.conv, s)), Stored(c.convTab[t], Bytes(c.conv, t)))
    ensures Disjoint(Stored(c.convTab[s], Bytes(c.conv, s)), Region(c.freemem, c.freememSize))
  {
    hide Holds, Blocks;
  }
}
