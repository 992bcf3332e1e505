/**
 The boundary-tag allocator over one static pool.
 */
module Heap {
  import opened HeapLayout
  import opened HeapMemory

  /** HEAP_POOL_SIZE (512 KiB) in words. */
  const POOL_WORDS: nat := 131072

  const MIN_ALLOC: int := 8
  const MIN_FREE: int := 16

  /** The block size in bytes for a request, in 32-bit arithmetic. */
  function Need(size: Word): Word {
    var need := (size + 4) % 0x1_0000_0000;
    var least := if need < MIN_ALLOC then MIN_ALLOC else need;
    (least + 3) % 0x1_0000_0000 / 4 * 4
  }

  /** The block covers header and request exactly when the size does not wrap. */
  lemma NeedCovers(size: Word)
    ensures Need(size) >= size + 4 <==> size <= 0xFFFF_FFF8
    ensures size <= 0xFFFF_FFF8 ==> MIN_ALLOC <= Need(size) && Need(size) % 4 == 0 && Need(size) < size + 12
    ensures 8 < size <= 0xFFFF_FFF8 ==> MIN_FREE <= Need(size) < size + 8
    ensures size <= 0xFFFF_FFF8 ==> Need(size) == 8 || Need(size) < size + 8
  {
  }

  /** Word `w` with its lowest `r` bytes zeroed. */
  function ClearLow(w: Word, r: int): Word
    requires 0 <= r < 4
  {
    if r == 0 then w
    else if r == 1 then w / 0x100 * 0x100
    else if r == 2 then w / 0x1_0000 * 0x1_0000
    else w / 0x100_0000 * 0x100_0000
  }

  /** Word `k` after zeroing the `n` bytes from word `ptr` on. */
  function Cleared(m: Memory, ptr: nat, n: Word, k: nat): Word
    requires k < |m|
  {
    if ptr <= k < ptr + n / 4 then 0
    else if k == ptr + n / 4 then ClearLow(m[k], n % 4)
    else m[k]
  }

  /** Byte `i` of a word, the lowest first. */
  function ByteOf(w: Word, i: nat): int
    requires i < 4
  {
    w / (if i == 0 then 1 else if i == 1 then 0x100 else if i == 2 then 0x1_0000 else 0x100_0000) % 0x100
  }

  /** Byte `j` from word `ptr` on; 0 outside memory. */
  function ByteAt(m: Memory, ptr: nat, j: nat): int {
    if ptr + j / 4 < |m| then ByteOf(m[ptr + j / 4], j % 4) else 0
  }

  /** The `n` bytes from word `ptr` on are inside memory and zero. */
  predicate IsCleared(m: Memory, ptr: nat, n: Word) {
    ptr + (n + 3) / 4 <= |m| && forall j :: 0 <= j < n ==> ByteAt(m, ptr, j) == 0
  }

  lemma Quotient(v: nat, d: nat, q: nat, r: nat)
    requires (d == 0x100 || d == 0x1_0000 || d == 0x100_0000) && v == d * q + r && r < d
    ensures v / d == q && v % d == r
  {
  }

  /** The bytes of a word given by its bytes. */
  lemma BytesAre(w: Word, b0: nat, b1: nat, b2: nat, b3: nat)
    requires b0 < 0x100 && b1 < 0x100 && b2 < 0x100 && b3 < 0x100
    requires w == b0 + 0x100 * b1 + 0x1_0000 * b2 + 0x100_0000 * b3
    ensures ByteOf(w, 0) == b0 && ByteOf(w, 1) == b1 && ByteOf(w, 2) == b2 && ByteOf(w, 3) == b3
    ensures ClearLow(w, 1) == w - b0 && ClearLow(w, 2) == w - b0 - 0x100 * b1 && ClearLow(w, 3) == 0x100_0000 * b3
  {
    Quotient(w, 0x100, b1 + 0x100 * b2 + 0x1_0000 * b3, b0);
    Quotient(b1 + 0x100 * b2 + 0x1_0000 * b3, 0x100, b2 + 0x100 * b3, b1);
    Quotient(w, 0x1_0000, b2 + 0x100 * b3, b0 + 0x100 * b1);
    Quotient(b2 + 0x100 * b3, 0x100, b3, b2);
    Quotient(w, 0x100_0000, b3, b0 + 0x100 * b1 + 0x1_0000 * b2);
  }

  /** Clearing the low bytes of a word zeroes just those. */
  lemma ClearLowBytes(w: Word, r: int, i: nat)
    requires 0 <= r < 4 && i < 4
    ensures ByteOf(ClearLow(w, r), i) == if i < r then 0 else ByteOf(w, i)
  {
    var w1, w2, w3 := w / 0x100, w / 0x100 / 0x100, w / 0x100 / 0x100 / 0x100;
    var b0, b1, b2 := w % 0x100, w1 % 0x100, w2 % 0x100;
    assert w == b0 + 0x100 * b1 + 0x1_0000 * b2 + 0x100_0000 * w3;
    hide ByteOf;
    BytesAre(w, b0, b1, b2, w3);
    BytesAre(ClearLow(w, r), if r > 0 then 0 else b0, if r > 1 then 0 else b1, if r > 2 then 0 else b2, w3);
  }

  /** Clearing `n` bytes zeroes just those. */
  lemma ClearedBytes(m: Memory, m': Memory, ptr: nat, n: Word)
    requires ptr + (n + 3) / 4 <= |m| == |m'| && forall k :: 0 <= k < |m| ==> m'[k] == Cleared(m, ptr, n, k)
    ensures IsCleared(m', ptr, n)
    ensures forall j :: n <= j ==> ByteAt(m', ptr, j) == ByteAt(m, ptr, j)
  {
    hide ByteOf, ClearLow;
    forall j: nat
      ensures ByteAt(m', ptr, j) == if j < n then 0 else ByteAt(m, ptr, j)
    {
      if ptr + j / 4 < |m| {
        ZeroByte(j % 4);
        ClearLowBytes(m[ptr + j / 4], n % 4, j % 4);
      }
    }
  }

  lemma ZeroByte(i: nat)
    requires i < 4
    ensures ByteOf(0, i) == 0
  {
  }

  lemma NoFactorZero(a: nat, b: nat)
    ensures a * b == 0 <==> a == 0 || b == 0
    ensures 0 <= a * b
  {
  }

  /** No free block has `need` bytes. */
  ghost predicate NoRoom(L: Layout, need: Word) {
    forall s :: s in L && L[s].free ==> 4 * L[s].len < need
  }

  lemma ClearedFlag(w: Word, r: int)
    requires 0 <= r < 4
    ensures BlkInUse(ClearLow(w, r)) <==> BlkInUse(w)
  {
  }

  /** Clearing a request that fills its block to the last byte also clears the in-use footer. */
  lemma ClearedStored(m: Memory, m': Memory, head: nat, L: Layout, fl: seq<nat>, lo: nat, hi: nat, s: nat, n: Word)
    requires Stored(m, head, L, fl, lo, hi) && s in Live(L) && 0 < n && n + 4 <= 4 * L[s].len
    requires |m'| == |m| && forall k :: 0 <= k < |m| ==> m'[k] == Cleared(m, s + 1, n, k)
    ensures IsCleared(m', s + 1, n)
    ensures Stored(m', head, L, fl, lo, hi) <==> n + 4 < 4 * L[s].len
    ensures Keeps(Live(L) - {s}, L, m, L, m')
  {
    assert TagOk(m, L, s);
    assert PayloadWrite(m, m', L, s);
    PayloadWriteStored(m, m', head, L, fl, lo, hi, s);
    var last := End(L, s) - 1;
    ClearedFlag(m[last], n % 4);
    ClearedBytes(m, m', s + 1, n);
  }

  lemma KeepsSubset(keep: set<nat>, some: set<nat>, L: Layout, m: Memory, m': Memory)
    requires Keeps(keep, L, m, L, m') && some <= keep
    ensures Keeps(some, L, m, L, m')
  {
  }

  /** The block that first fit picks for `n` bytes would have no byte to spare. */
  ghost predicate FillsBlock(L: Layout, fl: seq<nat>, n: Word) {
    var i := FirstFit(L, fl, Need(n) / 4, 0);
    && i < |fl| && fl[i] in L
    && n % 4 == 0 && n >= 4
    && !(Need(n) < 4 * L[fl[i]].len < Need(n) + MIN_FREE)
  }

  lemma FillsExactly(L: Layout, fl: seq<nat>, n: Word)
    requires 0 < n <= 0xFFFF_FFF8 && FirstFit(L, fl, Need(n) / 4, 0) < |fl|
    requires var s := fl[FirstFit(L, fl, Need(n) / 4, 0)]; s in L && Need(n) <= 4 * L[s].len
    ensures var s := fl[FirstFit(L, fl, Need(n) / 4, 0)];
      s in Carve(L, s, Need(n) / 4) && (FillsBlock(L, fl, n) <==> 4 * Carve(L, s, Need(n) / 4)[s].len <= n + 4)
  {
    hide FirstFit;
    NeedCovers(n);
  }

  /** What the client stored in block `s`: everything behind its header. */
  ghost function Payload(L: Layout, m: Memory, s: nat): Memory {
    if s in L && 0 < L[s].len && End(L, s) <= |m| then m[s + 1..End(L, s)] else []
  }

  lemma KeptPayload(L: Layout, m: Memory, M: Layout, m': Memory, s: nat)
    requires KeepsBlock(L, m, M, m', s)
    ensures Payload(M, m', s) == Payload(L, m, s)
  {
    if 0 < L[s].len {
      assert m'[s + 1..End(L, s)] == m'[s..End(L, s)][1..];
      assert m[s + 1..End(L, s)] == m[s..End(L, s)][1..];
    }
  }

  /** Allocating `t`, copying `s` into it and freeing `s` moves the payload and keeps the other blocks. */
  lemma MoveKeeps(live: set<nat>, live1: set<nat>, s: nat, t: nat,
                  L0: Layout, m0: Memory, L1: Layout, m1: Memory, m2: Memory, L3: Layout, m3: Memory)
    requires s in live && t !in live && live1 == live + {t}
    requires Keeps(live, L0, m0, L1, m1) && Keeps(live1 - {t}, L1, m1, L1, m2) && Keeps(live1 - {s}, L1, m2, L3, m3)
    requires Payload(L1, m1, s) <= Payload(L1, m2, t)
    ensures Keeps(live - {s}, L0, m0, L3, m3)
    ensures t in L1 && t in L3 && L3[t] == L1[t] && Payload(L0, m0, s) <= Payload(L3, m3, t)
  {
    assert KeepsBlock(L0, m0, L1, m1, s) && KeepsBlock(L1, m2, L3, m3, t);
    KeptPayload(L0, m0, L1, m1, s);
    KeptPayload(L1, m2, L3, m3, t);
    forall u | u in live - {s}
      ensures KeepsBlock(L0, m0, L3, m3, u)
    {
      assert KeepsBlock(L0, m0, L1, m1, u) && KeepsBlock(L1, m1, L1, m2, u) && KeepsBlock(L1, m2, L3, m3, u);
    }
  }

  /** Copying a payload into a longer live block leaves that block's in-use footer alone. */
  lemma CopyStored(m: Memory, m': Memory, head: nat, L: Layout, fl: seq<nat>, lo: nat, hi: nat, s: nat, t: nat)
    requires Stored(m, head, L, fl, lo, hi) && s in Live(L) && t in Live(L) && L[s].len < L[t].len
    requires End(L, s) <= |m| == |m'| && t + L[s].len <= |m|
    requires 1 <= L[s].len && m'[t + 1..t + L[s].len] == m[s + 1..End(L, s)]
    requires forall k :: 0 <= k < |m| && !(t < k < t + L[s].len) ==> m'[k] == m[k]
    ensures Stored(m', head, L, fl, lo, hi)
    ensures Keeps(Live(L) - {t}, L, m, L, m')
    ensures Payload(L, m, s) <= Payload(L, m', t)
  {
    assert PayloadWrite(m, m', L, t);
    PayloadWriteStored(m, m', head, L, fl, lo, hi, t);
    assert TagOk(m, L, t);
    assert Payload(L, m', t)[..L[s].len - 1] == m'[t + 1..t + L[s].len];
  }

  class Heap {
    const mem: array<Word>
    const lo: nat
    const hi: nat
    var freeList: nat
    var initialized: bool
    ghost var L: Layout
    ghost var fl: seq<nat>

    ghost predicate Valid()
      reads this, mem
    {
      && 0 < lo && hi == lo + POOL_WORDS && hi <= mem.Length <= MAX_WORDS
      && (if initialized then Stored(mem[..], freeList, L, fl, lo, hi)
          else freeList == 0 && L == Whole(lo, hi) && fl == [lo])
    }

    constructor (memory: array<Word>, poolStart: nat)
      requires 0 < poolStart && poolStart + POOL_WORDS <= memory.Length <= MAX_WORDS
      ensures Valid() && mem == memory && lo == poolStart
      ensures L == Whole(lo, hi) && fl == [lo]
    {
      mem, lo, hi := memory, poolStart, poolStart + POOL_WORDS;
      freeList, initialized := 0, false;
      L, fl := Whole(poolStart, poolStart + POOL_WORDS), [poolStart];
    }

    method HeapInit()
      requires Valid()
      modifies this`initialized, this`freeList, mem
      ensures Valid() && initialized
      ensures Keeps(Live(L), L, old(mem[..]), L, mem[..])
      ensures mem[..lo] == old(mem[..lo]) && mem[hi..] == old(mem[hi..])
    {
      if initialized {
        KeepsAll(L, mem[..]);
        return;
      }
      mem[lo] := 4 * POOL_WORDS;
      mem[lo + 1] := 0;
      mem[lo + 2] := 0;
      mem[hi - 1] := 4 * POOL_WORDS;
      freeList := lo;
      initialized := true;
      assert LinkOk(mem[..], fl, 0);
    }

    method BlkRemoveFree(blk: nat)
      requires blk + 2 < mem.Length && mem[blk + 1] / 4 + 2 < mem.Length && mem[blk + 2] / 4 + 1 < mem.Length
      modifies this`freeList, mem
      ensures mem[..] == Unlink(old(mem[..]), blk)
      ensures freeList == if old(mem[blk + 2]) / 4 == 0 then old(mem[blk + 1]) / 4 else old(freeList)
    {
      var n := mem[blk + 1] / 4;
      var p := mem[blk + 2] / 4;
      if p != 0 {
        mem[p + 1] := 4 * n;
      } else {
        freeList := n;
      }
      if n != 0 {
        mem[n + 2] := 4 * p;
      }
    }

    method BlkInsertFree(blk: nat)
      requires blk + 2 < mem.Length <= MAX_WORDS && freeList + 2 < mem.Length
      modifies this`freeList, mem
      ensures mem[..] == PushFront(old(mem[..]), old(freeList), blk) && freeList == blk
    {
      mem[blk + 1] := 4 * freeList;
      mem[blk + 2] := 0;
      if freeList != 0 {
        mem[freeList + 2] := 4 * blk;
      }
      freeList := blk;
    }

    /** Splits `blk`: its first `need` bytes are handed out, the other `remain` take its place in the list. */
    method Split(blk: nat, need: Word, remain: Word)
      requires need % 4 == 0 && MIN_FREE <= need && remain % 4 == 0 && MIN_FREE <= remain
      requires need + remain < 4 * MAX_WORDS && blk + (need + remain) / 4 <= mem.Length <= MAX_WORDS
      requires mem[blk + 1] / 4 + 2 < mem.Length && mem[blk + 2] / 4 + 1 < mem.Length && mem[blk + 1] / 4 != blk
      modifies this`freeList, mem
      ensures mem[..] == SplitMem(old(mem[..]), blk, need / 4, (need + remain) / 4)
      ensures freeList == if old(mem[blk + 2]) / 4 == 0 then blk + need / 4 else old(freeList)
    {
      mem[blk] := need + IN_USE;
      mem[blk + need / 4 - 1] := need + IN_USE;
      var nxt := blk + need / 4;
      mem[nxt] := remain;
      mem[nxt + 1] := mem[blk + 1];
      mem[nxt + 2] := mem[blk + 2];
      mem[nxt + remain / 4 - 1] := remain;
      assert mem[..] == SplitTags(old(mem[..]), blk, need / 4, (need + remain) / 4);
      if mem[nxt + 1] / 4 != 0 {
        mem[mem[nxt + 1] / 4 + 2] := 4 * nxt;
      }
      if mem[blk + 2] / 4 != 0 {
        mem[mem[blk + 2] / 4 + 1] := 4 * nxt;
      } else {
        freeList := nxt;
      }
    }

    /** Hands out `need` bytes of the listed block `blk` and keeps the rest in the list. */
    method TakePart(blk: nat, need: Word, remain: Word, ghost i: nat)
      requires Valid() && initialized && i < |fl| && fl[i] == blk && need % 4 == 0
      requires MIN_FREE <= need && MIN_FREE <= remain && need + remain == 4 * L[blk].len
      modifies this`freeList, this`L, this`fl, mem
      ensures Valid() && L == Carve(old(L), blk, need / 4)
      ensures Keeps(Live(old(L)), old(L), old(mem[..]), L, mem[..])
      ensures mem[..lo] == old(mem[..lo]) && mem[hi..] == old(mem[hi..])
    {
      hide LayoutOk, Tagged, Linked, Keeps, Carve, SplitMem;
      ghost var m, w, bw := mem[..], need / 4, L[blk].len;
      SplitMemLinked(m, freeList, L, fl, lo, hi, i, w);
      SplitStored(m, freeList, L, fl, lo, hi, i, w);
      assert (need + remain) / 4 == bw;
      Split(blk, need, remain);
      L, fl := Carve(L, blk, w), fl[i := blk + w];
    }

    /** Hands out the listed block `blk` of `bsz` bytes. */
    method TakeWhole(blk: nat, bsz: Word, ghost i: nat)
      requires Valid() && initialized && i < |fl| && fl[i] == blk && bsz == 4 * L[blk].len
      modifies this`freeList, this`L, this`fl, mem
      ensures Valid() && L == old(L)[blk := Block(old(L)[blk].len, false)]
      ensures Keeps(Live(old(L)), old(L), old(mem[..]), L, mem[..])
      ensures mem[..lo] == old(mem[..lo]) && mem[hi..] == old(mem[hi..])
    {
      hide LayoutOk, Tagged, Linked, Keeps, Unlink;
      ghost var m, bw := mem[..], L[blk].len;
      WholeLinked(m, freeList, L, fl, lo, hi, i);
      WholeStored(m, freeList, L, fl, lo, hi, i);
      NeighboursInside(WholeMem(m, blk, bw), freeList, fl, i);
      ghost var head' := if i == 0 then Nth(fl, 1) else freeList;
      mem[blk] := bsz + IN_USE;
      mem[blk + bsz / 4 - 1] := bsz + IN_USE;
      assert mem[..] == WholeMem(m, blk, bw);
      BlkRemoveFree(blk);
      assert mem[..] == Unlink(WholeMem(m, blk, bw), blk) && freeList == head';
      L, fl := L[blk := Block(L[blk].len, false)], Without(fl, i);
    }

    /** Scans the free list for the first block of at least `need` bytes. */
    method FindFit(need: Word) returns (blk: nat, ghost i: nat)
      requires Valid() && initialized && need % 4 == 0
      ensures i == FirstFit(L, fl, need / 4, 0) <= |fl| && blk == Nth(fl, i)
      ensures blk == 0 <==> i == |fl|
      ensures blk != 0 ==> blk in L && blk < mem.Length && need <= BlkSize(mem[blk]) == 4 * L[blk].len
    {
      blk := freeList;
      i := 0;
      assert fl != [] ==> TagOk(mem[..], L, fl[0]) && LinkOk(mem[..], fl, 0);
      while blk != 0 && BlkSize(mem[blk]) < need
        invariant i <= |fl| && blk == Nth(fl, i) && (blk == 0 <==> i == |fl|)
        invariant i < |fl| ==> blk < mem.Length && BlkSize(mem[blk]) == 4 * L[blk].len
        invariant FirstFit(L, fl, need / 4, 0) == FirstFit(L, fl, need / 4, i)
        decreases |fl| - i
      {
        NeighboursInside(mem[..], freeList, fl, i);
        blk := mem[blk + 1] / 4;
        i := i + 1;
        assert i < |fl| ==> TagOk(mem[..], L, blk);
      }
    }

    method Malloc(size: Word) returns (ptr: nat)
      requires Valid()
      requires size <= 0xFFFF_FFF8
      requires 0 < size <= 8 ==> !FitSplits(L, fl, Need(size) / 4)
      modifies this`initialized, this`freeList, this`L, this`fl, mem
      ensures Valid()
      ensures ptr == 0 <==> size == 0 || NoRoom(old(L), Need(size))
      ensures ptr == 0 ==> L == old(L) && fl == old(fl)
      ensures ptr != 0 ==>
        && FirstFit(old(L), old(fl), Need(size) / 4, 0) < |old(fl)|
        && ptr - 1 == old(fl)[FirstFit(old(L), old(fl), Need(size) / 4, 0)]
        && ptr - 1 in old(L) && old(L)[ptr - 1].free && L == Carve(old(L), ptr - 1, Need(size) / 4)
        && 4 * L[ptr - 1].len >= size + 4 && Need(size) <= 4 * old(L)[ptr - 1].len
      ensures Live(L) == Live(old(L)) + if ptr == 0 then {} else {ptr - 1}
      ensures Keeps(Live(old(L)), old(L), old(mem[..]), L, mem[..])
      ensures mem[..lo] == old(mem[..lo]) && mem[hi..] == old(mem[hi..])
    {
      KeepsLive(mem[..]);
      if size == 0 {
        return 0;
      }
      HeapInit();
      ghost var m := mem[..];
      NeedCovers(size);
      var need := Need(size);
      ghost var w := need / 4;
      FirstFitFails(L, fl, w);
      var blk, i := FindFit(need);
      if blk == 0 {
        return 0;
      }
      CarveOk(L, lo, hi, blk, w);
      var bsz := BlkSize(mem[blk]);
      var remain := bsz - need;
      if remain >= MIN_FREE {
        TakePart(blk, need, remain, i);
      } else {
        TakeWhole(blk, bsz, i);
      }
      KeepsTrans(Live(old(L)), old(L), old(mem[..]), old(L), m, L, mem[..]);
      return blk + 1;
    }

    /** Merges the block behind `blk`, which is being freed, into it if that block is free. */
    method AbsorbNext(blk: nat, bsz: Word, ghost m0: Memory) returns (total: Word)
      requires 0 < lo <= hi <= |m0| == mem.Length <= MAX_WORDS && LayoutOk(L, lo, hi) && Tagged(m0, L)
      requires blk in Live(L) && bsz == 4 * L[blk].len && blk < mem.Length && mem[blk] == bsz
      requires Pending(m0, mem[..], freeList, L, fl, {}, blk, End(L, blk))
      modifies this`freeList, this`fl, mem
      ensures Pending(m0, mem[..], freeList, L, fl, NextAbsorbed(L, blk), blk, MergeEnd(L, blk))
      ensures blk < mem.Length && total == 4 * (MergeEnd(L, blk) - blk) == mem[blk]
    {
      hide Linked, Unlink;
      total := bsz;
      var nxt := blk + bsz / 4;
      MergeRange(L, lo, hi, blk);
      assert nxt in L ==> BlockOk(L, lo, hi, nxt);
      if nxt < hi {
        assert BlockOk(L, lo, hi, blk) && TagOk(m0, L, nxt);
        NotLinkWord(L, lo, hi, nxt, nxt);
        var nxtHdr := mem[nxt];
        if !BlkInUse(nxtHdr) {
          var nxtSz := BlkSize(nxtHdr);
          total := bsz + nxtSz;
          ghost var i := PendingAbsorb(
            m0, mem[..], freeList, L, lo, hi, fl, {}, blk, End(L, blk), nxt, blk, MergeEnd(L, blk), blk, total);
          BlkRemoveFree(nxt);
          fl := Without(fl, i);
          mem[blk] := total;
        }
      }
    }

    /** Merges `blk`, which is being freed, into the block before it if that block is free. */
    method AbsorbPrevious(blk: nat, bsz: Word, ghost m0: Memory) returns (start: nat, total: Word)
      requires 0 < lo <= hi <= |m0| == mem.Length <= MAX_WORDS && LayoutOk(L, lo, hi) && Tagged(m0, L)
      requires blk in Live(L) && bsz == 4 * (MergeEnd(L, blk) - blk) && blk < mem.Length && mem[blk] == bsz
      requires Pending(m0, mem[..], freeList, L, fl, NextAbsorbed(L, blk), blk, MergeEnd(L, blk))
      modifies this`freeList, this`fl, mem
      ensures Pending(m0, mem[..], freeList, L, fl, Absorbed(L, blk), MergeStart(L, blk), MergeEnd(L, blk))
      ensures start == MergeStart(L, blk) < mem.Length && total == 4 * (MergeEnd(L, blk) - start) == mem[start]
    {
      hide Linked, Unlink;
      start, total := blk, bsz;
      MergeRange(L, lo, hi, blk);
      AbsorbedIs(L, lo, hi, blk);
      assert BlockOk(L, lo, hi, blk);
      if blk > lo {
        ghost var p := Predecessor(L, lo, hi, blk);
        assert BlockOk(L, lo, hi, p) && TagOk(m0, L, p);
        NotLinkWord(L, lo, hi, p, blk - 1);
        var prevFooter := mem[blk - 1];
        assert L[p].free <==> !BlkInUse(prevFooter);
        if !BlkInUse(prevFooter) {
          assert FreePredecessor(L, blk, p);
          MergeStartUnique(L, lo, hi, blk, p);
          var prevSz := BlkSize(prevFooter);
          var prev := blk - prevSz / 4;
          ghost var gone := NextAbsorbed(L, blk);
          start, total := prev, bsz + prevSz;
          ghost var b := MergeEnd(L, blk);
          ghost var i := PendingAbsorb(m0, mem[..], freeList, L, lo, hi, fl, gone, blk, b, prev, prev, b, prev, total);
          BlkRemoveFree(prev);
          fl := Without(fl, i);
          mem[start] := total;
        } else {
          NoFreePredecessor(L, lo, hi, blk, p);
        }
      } else {
        FirstHasNoPredecessor(L, lo, hi);
      }
    }

    /** Merges `blk`, which is being freed, with its free neighbours and tags the result. */
    method Coalesce(blk: nat, bsz: Word, ghost m0: Memory) returns (start: nat, total: Word)
      requires 0 < lo <= hi <= |m0| == mem.Length <= MAX_WORDS && LayoutOk(L, lo, hi) && Tagged(m0, L)
      requires blk in Live(L) && bsz == 4 * L[blk].len && blk < mem.Length && mem[blk] == bsz
      requires Pending(m0, mem[..], freeList, L, fl, {}, blk, End(L, blk))
      modifies this`freeList, this`fl, mem
      ensures Pending(m0, mem[..], freeList, L, fl, Absorbed(L, blk), MergeStart(L, blk), MergeEnd(L, blk))
      ensures start == MergeStart(L, blk) && start + 4 <= MergeEnd(L, blk) <= mem.Length
      ensures total == 4 * (MergeEnd(L, blk) - start) == mem[start] == mem[MergeEnd(L, blk) - 1]
    {
      total := AbsorbNext(blk, bsz, m0);
      start, total := AbsorbPrevious(blk, total, m0);
      MergeRange(L, lo, hi, blk);
      MergeEndNotLink(L, lo, hi, blk);
      var footer := start + total / 4 - 1;
      PendingWrite(m0, mem[..], freeList, L, fl, Absorbed(L, blk), start, MergeEnd(L, blk), footer, total);
      mem[footer] := total;
    }

    method Free(ptr: nat)
      requires Valid() && (ptr == 0 || ptr - 1 in Live(L))
      modifies this`freeList, this`L, this`fl, mem
      ensures Valid() && initialized == old(initialized)
      ensures L == if ptr == 0 then old(L) else FreeBlock(old(L), ptr - 1)
      ensures Live(L) == Live(old(L)) - {ptr - 1}
      ensures Keeps(Live(old(L)) - {ptr - 1}, old(L), old(mem[..]), L, mem[..])
      ensures mem[..lo] == old(mem[..lo]) && mem[hi..] == old(mem[hi..])
    {
      KeepsLive(mem[..]);
      if ptr == 0 || !initialized {
        return;
      }
      FreeLive(ptr - 1);
    }

    /** Frees the live block `s`. */
    method FreeLive(s: nat)
      requires Valid() && initialized && s in Live(L)
      modifies this`freeList, this`L, this`fl, mem
      ensures Valid() && L == FreeBlock(old(L), s) && Live(L) == Live(old(L)) - {s}
      ensures Keeps(Live(old(L)) - {s}, old(L), old(mem[..]), L, mem[..])
      ensures mem[..lo] == old(mem[..lo]) && mem[hi..] == old(mem[hi..])
    {
      hide LayoutOk, ListsFree, Linked, Keeps, FreeBlock, PushFront, Pending;
      ghost var m0, head0, fl0 := mem[..], freeList, fl;
      var blk := s;
      assert TagOk(m0, L, blk);
      BeginFree(m0, freeList, L, lo, hi, fl, blk);
      var bsz := BlkSize(mem[blk]);
      mem[blk] := bsz;
      mem[blk + bsz / 4 - 1] := bsz;
      blk, bsz := Coalesce(blk, bsz, m0);
      FreeBlockOk(L, lo, hi, s);
      FreeStored(m0, head0, L, fl0, lo, hi, s, mem[..], freeList, fl);
      BlkInsertFree(blk);
      L, fl := FreeBlock(L, s), [blk] + fl;
    }

    /** The environment: a client stores `v` in word `k` of the payload at `ptr`. */
    method ClientStore(ptr: nat, k: nat, v: Word)
      requires Valid() && 0 < ptr && ptr - 1 in Live(L) && k + 1 < L[ptr - 1].len
      requires k + 2 == L[ptr - 1].len ==> BlkInUse(v)
      modifies mem
      ensures Valid() && ptr + k < mem.Length && mem[..] == old(mem[..])[ptr + k := v]
      ensures Keeps(Live(L) - {ptr - 1}, L, old(mem[..]), L, mem[..])
    {
      assert TagOk(mem[..], L, ptr - 1);
      ghost var m := mem[..];
      mem[ptr + k] := v;
      PayloadWriteStored(m, mem[..], freeList, L, fl, lo, hi, ptr - 1);
    }

    /** memset(ptr, 0, n). */
    method ClearBytes(ptr: nat, n: Word)
      requires ptr + (n + 3) / 4 <= mem.Length
      modifies mem
      ensures forall k :: 0 <= k < mem.Length ==> mem[k] == Cleared(old(mem[..]), ptr, n, k)
    {
      var i := 0;
      while i < n / 4
        invariant i <= n / 4
        invariant forall k :: 0 <= k < mem.Length ==> mem[k] == if ptr <= k < ptr + i then 0 else old(mem[k])
      {
        mem[ptr + i] := 0;
        i := i + 1;
      }
      if n % 4 != 0 {
        mem[ptr + i] := ClearLow(mem[ptr + i], n % 4);
      }
    }

    /** What calloc does once it has multiplied its arguments. */
    method MallocCleared(total: Word) returns (ptr: nat)
      requires Valid()
      requires total <= 0xFFFF_FFF8 && (0 < total <= 8 ==> !FitSplits(L, fl, Need(total) / 4))
      modifies this`initialized, this`freeList, this`L, this`fl, mem
      ensures ptr == 0 <==> total == 0 || NoRoom(old(L), Need(total))
      ensures ptr == 0 ==> Valid() && L == old(L)
      ensures ptr != 0 ==>
        && ptr - 1 in L && 4 * L[ptr - 1].len >= total + 4
        && ptr - 1 == Nth(old(fl), FirstFit(old(L), old(fl), Need(total) / 4, 0))
        && IsCleared(mem[..], ptr, total)
        && (Valid() <==> !FillsBlock(old(L), old(fl), total))
      ensures Live(L) == Live(old(L)) + if ptr == 0 then {} else {ptr - 1}
      ensures Keeps(Live(old(L)), old(L), old(mem[..]), L, mem[..])
    {
      hide LayoutOk, ListsFree, Linked, NoRoom, FreeBlock, Carve, FillsBlock, FirstFit;
      ptr := Malloc(total);
      if ptr != 0 {
        ghost var m, s := mem[..], ptr - 1;
        FillsExactly(old(L), old(fl), total);
        assert TagOk(m, L, s);
        ClearBytes(ptr, total);
        ClearedStored(m, mem[..], freeList, L, fl, lo, hi, s, total);
        KeepsSubset(Live(L) - {s}, Live(old(L)), L, m, mem[..]);
        KeepsTrans(Live(old(L)), old(L), old(mem[..]), L, m, L, mem[..]);
      }
    }

    /** The size is the product of the arguments in 32-bit arithmetic. */
    method Calloc(nmemb: Word, size: Word) returns (ptr: nat)
      requires Valid()
      requires var total := nmemb * size % 0x1_0000_0000;
        total <= 0xFFFF_FFF8 && (0 < total <= 8 ==> !FitSplits(L, fl, Need(total) / 4))
      modifies this`initialized, this`freeList, this`L, this`fl, mem
      ensures var total := nmemb * size % 0x1_0000_0000;
        && (ptr == 0 <==> total == 0 || NoRoom(old(L), Need(total)))
        && (ptr == 0 ==> Valid() && L == old(L))
        && (ptr != 0 ==>
              && ptr - 1 in L && 4 * L[ptr - 1].len >= total + 4
              && ptr - 1 == Nth(old(fl), FirstFit(old(L), old(fl), Need(total) / 4, 0))
              && IsCleared(mem[..], ptr, total)
              && (Valid() <==> !FillsBlock(old(L), old(fl), total)))
      // without overflow: room for all elements, every byte of them zero
      ensures nmemb * size < 0x1_0000_0000 ==>
        && (ptr == 0 <==> nmemb == 0 || size == 0 || NoRoom(old(L), Need(nmemb * size)))
        && (ptr != 0 ==>
              && 4 * L[ptr - 1].len >= nmemb * size + 4
              && forall j :: 0 <= j < nmemb * size ==> ByteAt(mem[..], ptr, j) == 0)
      ensures Live(L) == Live(old(L)) + if ptr == 0 then {} else {ptr - 1}
      ensures Keeps(Live(old(L)), old(L), old(mem[..]), L, mem[..])
    {
      hide NoRoom, FitSplits, FillsBlock, FirstFit, Need, Keeps;
      ghost var product := nmemb * size;
      NoFactorZero(nmemb, size);
      var total := nmemb * size % 0x1_0000_0000;
      ptr := MallocCleared(total);
      assert product < 0x1_0000_0000 ==> total == product;
    }

    /** memcpy of `n` words between blocks that do not overlap. */
    method CopyWords(dst: nat, src: nat, n: nat)
      requires dst + n <= mem.Length && src + n <= mem.Length && (dst + n <= src || src + n <= dst)
      modifies mem
      ensures mem[dst..dst + n] == old(mem[src..src + n])
      ensures forall k :: 0 <= k < mem.Length && !(dst <= k < dst + n) ==> mem[k] == old(mem[k])
    {
      var i := 0;
      while i < n
        invariant i <= n
        invariant forall k :: 0 <= k < mem.Length && !(dst <= k < dst + i) ==> mem[k] == old(mem[k])
        invariant mem[dst..dst + i] == old(mem[src..src + i])
      {
        mem[dst + i] := mem[src + i];
        i := i + 1;
      }
    }

    /** memcpy of the whole payload at `ptr` to the longer block at `newptr`. */
    method CopyPayload(newptr: nat, ptr: nat, n: nat)
      requires Valid() && 0 < ptr && 0 < newptr && ptr != newptr && ptr - 1 in Live(L) && newptr - 1 in Live(L)
      requires n + 1 == L[ptr - 1].len < L[newptr - 1].len
      modifies mem
      ensures Valid()
      ensures Keeps(Live(L) - {newptr - 1}, L, old(mem[..]), L, mem[..])
      ensures Payload(L, old(mem[..]), ptr - 1) <= Payload(L, mem[..], newptr - 1)
    {
      ghost var m, s, t := mem[..], ptr - 1, newptr - 1;
      assert TagOk(m, L, t) && TagOk(m, L, s) && Apart(L, s, t) && Apart(L, t, s);
      CopyWords(newptr, ptr, n);
      CopyStored(m, mem[..], freeList, L, fl, lo, hi, s, t);
    }

    /** The growing case of realloc: allocate, copy the old payload, free the old block. */
    method Move(ptr: nat, size: Word) returns (newptr: nat)
      requires Valid() && 0 < ptr && ptr - 1 in Live(L) && 4 * L[ptr - 1].len - 4 < size <= 0xFFFF_FFF8
      modifies this`initialized, this`freeList, this`L, this`fl, mem
      ensures Valid()
      ensures newptr == 0 <==> NoRoom(old(L), Need(size))
      ensures newptr == 0 ==> L == old(L) && Keeps(Live(old(L)), old(L), old(mem[..]), L, mem[..])
      ensures newptr != 0 ==>
        && newptr - 1 !in Live(old(L)) && Live(L) == Live(old(L)) - {ptr - 1} + {newptr - 1}
        && size + 4 <= 4 * L[newptr - 1].len
        && Keeps(Live(old(L)) - {ptr - 1}, old(L), old(mem[..]), L, mem[..])
        && Payload(old(L), old(mem[..]), ptr - 1) <= Payload(L, mem[..], newptr - 1)
    {
      hide LayoutOk, ListsFree, Linked, NoRoom, FreeBlock, Carve, Payload;
      ghost var L0, m0, s := L, mem[..], ptr - 1;
      assert TagOk(m0, L, s);
      var oldSize := BlkSize(mem[ptr - 1]) - 4;
      newptr := Malloc(size);
      if newptr != 0 {
        ghost var L1, m1, t := L, mem[..], newptr - 1;
        assert KeepsBlock(L0, m0, L1, m1, s);
        CopyPayload(newptr, ptr, oldSize / 4);
        ghost var m2 := mem[..];
        Free(ptr);
        MoveKeeps(Live(L0), Live(L1), s, t, L0, m0, L1, m1, m2, L, mem[..]);
      }
    }

    method Realloc(ptr: nat, size: Word) returns (newptr: nat)
      requires Valid() && (ptr == 0 || ptr - 1 in Live(L)) && size <= 0xFFFF_FFF8
      requires ptr == 0 && 0 < size <= 8 ==> !FitSplits(L, fl, Need(size) / 4)
      modifies this`initialized, this`freeList, this`L, this`fl, mem
      ensures Valid()
      ensures newptr != 0 ==> newptr - 1 in L && size + 4 <= 4 * L[newptr - 1].len
      // a failed call leaves the old block live and intact
      ensures newptr == 0 && size != 0 ==>
        L == old(L) && Keeps(Live(old(L)), old(L), old(mem[..]), L, mem[..])
      ensures newptr == 0 <==>
        || size == 0
        || ((ptr != 0 ==> 4 * old(L)[ptr - 1].len < size + 4) &&
            NoRoom(old(L), Need(size)))
      // a successful one carries the whole old payload over
      ensures newptr != 0 && ptr != 0 ==> Payload(old(L), old(mem[..]), ptr - 1) <= Payload(L, mem[..], newptr - 1)
      ensures size == 0 || newptr != 0 ==>
        && Live(L) == Live(old(L)) - {ptr - 1} + (if newptr == 0 then {} else {newptr - 1})
        && Keeps(Live(old(L)) - {ptr - 1}, old(L), old(mem[..]), L, mem[..])
    {
      hide LayoutOk, ListsFree, Linked, NoRoom, FreeBlock, Carve, Payload;
      KeepsLive(mem[..]);
      if ptr == 0 {
        newptr := Malloc(size);
        return;
      }
      if size == 0 {
        Free(ptr);
        return 0;
      }
      assert TagOk(mem[..], L, ptr - 1);
      var oldSize := BlkSize(mem[ptr - 1]) - 4;
      if size <= oldSize {
        return ptr;
      }
      newptr := Move(ptr, size);
    }

    lemma KeepsLive(m: Memory)
      requires Valid() && m == mem[..]
      ensures Keeps(Live(L), L, m, L, m)
    {
      if initialized {
        KeepsAll(L, m);
      }
    }
  }

  /** calloc(1, 12) on a fresh pool fills its block and leaves it without its in-use footer. */
  method CallocExample(memory: array<Word>, poolStart: nat) returns (heap: Heap, ptr: nat)
    requires 0 < poolStart && poolStart + POOL_WORDS <= memory.Length <= MAX_WORDS
    modifies memory
    ensures ptr == poolStart + 1 && !heap.Valid()
  {
    heap := new Heap(memory, poolStart);
    FreshFit(poolStart, 12);
    ptr := heap.Calloc(1, 12);
  }

  lemma FreshFit(lo: nat, n: Word)
    requires 0 < n <= 0x1000
    ensures var L := Whole(lo, lo + POOL_WORDS);
      && FirstFit(L, [lo], Need(n) / 4, 0) == 0 && FitSplits(L, [lo], Need(n) / 4) && !NoRoom(L, Need(n))
      && (FillsBlock(L, [lo], n) <==> n % 4 == 0)
  {
    NeedCovers(n);
    var L := Whole(lo, lo + POOL_WORDS);
    assert lo in L && L[lo].free;
  }

  /** On a fresh pool a request for one byte splits, and the split follows a link that is its own footer. */
  lemma OneByteExample(m: Memory, lo: nat)
    requires Stored(m, lo, Whole(lo, lo + POOL_WORDS), [lo], lo, lo + POOL_WORDS)
    ensures FitSplits(Whole(lo, lo + POOL_WORDS), [lo], Need(1) / 4)
    ensures var m1 := SplitTags(m, lo, Need(1) / 4, POOL_WORDS);
      m1[lo + Need(1) / 4 + 1] == Need(1) + IN_USE && Nth([lo], 1) == 0
  {
    FreshFit(lo, 1);
    assert Need(1) == 8;
  }
}
