/**
 How a layout is stored: boundary tags in the words of the pool, and a doubly
 linked list threaded through the free blocks.

 Memory is a sequence of 32-bit words and pointers are word addresses. A tag holds
 the block's size in bytes with bit 31 as the in-use flag; a link word holds the
 byte address of another block, or 0.
 */
module HeapMemory {
  import opened ByteTypes
  import opened HeapLayout

  type Word = UInt32

  type Memory = seq<Word>

  const IN_USE: int := 0x8000_0000

  /** All memory lies below 2 GiB. */
  const MAX_WORDS: nat := 0x2000_0000

  function BlkSize(hdr: Word): nat {
    hdr % IN_USE
  }

  predicate BlkInUse(hdr: Word) {
    hdr >= IN_USE
  }

  function Tag(b: Block): int {
    4 * b.len + if b.free then 0 else IN_USE
  }

  // ----- Boundary tags -----

  ghost predicate TagOk(m: Memory, L: Layout, s: nat)
    requires s in L
  {
    && MIN_WORDS <= L[s].len < MAX_WORDS
    && End(L, s) <= |m|
    && m[s] == Tag(L[s])
    && (if L[s].free then m[End(L, s) - 1] == Tag(L[s]) else BlkInUse(m[End(L, s) - 1]))
  }

  ghost predicate Tagged(m: Memory, L: Layout) {
    forall s {:trigger TagOk(m, L, s)} :: s in L ==> TagOk(m, L, s)
  }

  // ----- The free list -----

  function Nth(fl: seq<nat>, i: int): nat {
    if 0 <= i < |fl| then fl[i] else 0
  }

  ghost predicate LinkOk(m: Memory, fl: seq<nat>, i: nat)
    requires i < |fl|
  {
    && 0 < fl[i] < |m| - 2
    && m[fl[i] + 1] == 4 * Nth(fl, i + 1)
    && m[fl[i] + 2] == 4 * Nth(fl, i - 1)
  }

  /** The links spell out the blocks `fl`, in order, forwards and backwards. */
  ghost predicate Linked(m: Memory, head: nat, fl: seq<nat>) {
    && head == Nth(fl, 0)
    && (forall i {:trigger LinkOk(m, fl, i)} :: 0 <= i < |fl| ==> LinkOk(m, fl, i))
  }

  ghost predicate FarFrom(s: nat, t: nat) {
    s + 3 <= t || t + 3 <= s
  }

  ghost predicate Spread(fl: seq<nat>) {
    forall i, j {:trigger FarFrom(fl[i], fl[j])} :: 0 <= i < j < |fl| ==> FarFrom(fl[i], fl[j]) && FarFrom(fl[j], fl[i])
  }

  /** The list holds exactly the free blocks, each once. */
  ghost predicate ListsFree(L: Layout, fl: seq<nat>) {
    && (forall i :: 0 <= i < |fl| ==> fl[i] in L && L[fl[i]].free)
    && (forall s {:trigger Listed(L, fl, s)} :: Listed(L, fl, s))
    && Distinct(fl)
  }

  ghost predicate Listed(L: Layout, fl: seq<nat>, s: nat) {
    s in L && L[s].free ==> s in fl
  }

  /** The list holds exactly the free blocks not in `gone`, each once. */
  ghost predicate ListsBut(L: Layout, fl: seq<nat>, gone: set<nat>) {
    && (forall i :: 0 <= i < |fl| ==> fl[i] in L && L[fl[i]].free && fl[i] !in gone)
    && (forall s {:trigger Listed(L, fl, s)} :: s in gone || Listed(L, fl, s))
    && Distinct(fl)
  }

  ghost predicate Differ(s: nat, t: nat) {
    s != t
  }

  ghost predicate Distinct(fl: seq<nat>) {
    forall i, j {:trigger Differ(fl[i], fl[j])} :: 0 <= i < j < |fl| ==> Differ(fl[i], fl[j])
  }

  lemma ListSpread(L: Layout, lo: nat, hi: nat, fl: seq<nat>)
    requires Tiled(L, lo, hi) && Distinct(fl) && forall i :: 0 <= i < |fl| ==> fl[i] in L
    ensures Spread(fl)
  {
    forall i, j | 0 <= i < j < |fl|
      ensures FarFrom(fl[i], fl[j]) && FarFrom(fl[j], fl[i])
    {
      var s, t := fl[i], fl[j];
      assert Differ(s, t);
      assert BlockOk(L, lo, hi, s) && BlockOk(L, lo, hi, t) && Apart(L, s, t) && Apart(L, t, s);
    }
  }

  function Without(fl: seq<nat>, i: nat): seq<nat>
    requires i < |fl|
  {
    fl[..i] + fl[i + 1..]
  }

  /** The memory after taking `blk` out of the list. */
  ghost function Unlink(m: Memory, blk: nat): Memory
    requires blk + 2 < |m| && m[blk + 1] / 4 + 2 < |m| && m[blk + 2] / 4 + 1 < |m|
  {
    var n, p := m[blk + 1] / 4, m[blk + 2] / 4;
    var m1 := if p != 0 then m[p + 1 := 4 * n] else m;
    if n != 0 then m1[n + 2 := 4 * p] else m1
  }

  /** The memory after putting `blk` at the head of the list. */
  ghost function PushFront(m: Memory, head: nat, blk: nat): Memory
    requires blk + 2 < |m| <= MAX_WORDS && head + 2 < |m|
  {
    var m1 := m[blk + 1 := 4 * head][blk + 2 := 0];
    if head != 0 then m1[head + 2 := 4 * blk] else m1
  }

  lemma NeighboursInside(m: Memory, head: nat, fl: seq<nat>, i: nat)
    requires Linked(m, head, fl) && i < |fl|
    ensures fl[i] + 2 < |m| && Nth(fl, i + 1) + 2 < |m| && Nth(fl, i - 1) + 2 < |m|
    ensures m[fl[i] + 1] == 4 * Nth(fl, i + 1) && m[fl[i] + 2] == 4 * Nth(fl, i - 1)
    ensures (0 < i <==> Nth(fl, i - 1) != 0) && (i + 1 < |fl| <==> Nth(fl, i + 1) != 0)
  {
    assert LinkOk(m, fl, i);
    assert i + 1 < |fl| ==> LinkOk(m, fl, i + 1);
    assert 0 <= i - 1 ==> LinkOk(m, fl, i - 1);
  }

  /** Which link words unlinking position `i` changes, seen from position `k`. */
  lemma UnlinkAt(m: Memory, head: nat, fl: seq<nat>, i: nat, k: nat)
    requires Linked(m, head, fl) && Spread(fl) && i < |fl| && k < |fl| && k != i
    ensures fl[i] + 2 < |m| && m[fl[i] + 1] / 4 + 2 < |m| && m[fl[i] + 2] / 4 + 1 < |m|
    ensures 0 < fl[k] < |m| - 2
    ensures var m' := Unlink(m, fl[i]);
      && m'[fl[k] + 1] == 4 * (if k == i - 1 then Nth(fl, i + 1) else Nth(fl, k + 1))
      && m'[fl[k] + 2] == 4 * (if k == i + 1 then Nth(fl, i - 1) else Nth(fl, k - 1))
  {
    NeighboursInside(m, head, fl, i);
    assert LinkOk(m, fl, k);
    assert 0 < i && k < i - 1 ==> FarFrom(fl[k], fl[i - 1]);
    assert 0 < i < k ==> FarFrom(fl[i - 1], fl[k]);
    assert k < i < |fl| - 1 ==> FarFrom(fl[k], fl[i + 1]);
    assert i + 1 < k ==> FarFrom(fl[i + 1], fl[k]);
  }

  lemma UnlinkLinked(m: Memory, head: nat, fl: seq<nat>, i: nat)
    requires Linked(m, head, fl) && Spread(fl) && i < |fl|
    ensures fl[i] + 2 < |m| && m[fl[i] + 1] / 4 + 2 < |m| && m[fl[i] + 2] / 4 + 1 < |m|
    ensures Linked(Unlink(m, fl[i]), if i == 0 then Nth(fl, 1) else head, Without(fl, i))
  {
    NeighboursInside(m, head, fl, i);
    var m', gl := Unlink(m, fl[i]), Without(fl, i);
    forall j | 0 <= j < |gl|
      ensures LinkOk(m', gl, j)
    {
      var k := if j < i then j else j + 1;
      UnlinkAt(m, head, fl, i, k);
      assert gl[j] == fl[k];
      assert Nth(gl, j + 1) == if k == i - 1 then Nth(fl, i + 1) else Nth(fl, k + 1);
      assert Nth(gl, j - 1) == if k == i + 1 then Nth(fl, i - 1) else Nth(fl, k - 1);
    }
  }

  lemma PushFrontLinked(m: Memory, head: nat, fl: seq<nat>, blk: nat)
    requires Linked(m, head, fl) && Spread([blk] + fl) && 0 < blk && blk + 2 < |m| <= MAX_WORDS
    ensures head + 2 < |m|
    ensures Linked(PushFront(m, head, blk), blk, [blk] + fl)
  {
    assert fl != [] ==> LinkOk(m, fl, 0);
    var m', gl := PushFront(m, head, blk), [blk] + fl;
    forall j | 0 <= j < |gl|
      ensures LinkOk(m', gl, j)
    {
      if j > 0 {
        assert gl[j] == fl[j - 1] && LinkOk(m, fl, j - 1) && FarFrom(gl[0], gl[j]);
        assert j > 1 ==> FarFrom(gl[1], gl[j]);
      } else {
        assert fl != [] ==> FarFrom(gl[0], gl[1]);
      }
    }
  }

  lemma LinkedKept(m: Memory, m': Memory, head: nat, fl: seq<nat>)
    requires Linked(m, head, fl) && |m'| == |m|
    requires forall i :: 0 <= i < |fl| && fl[i] + 2 < |m| ==>
      m'[fl[i] + 1] == m[fl[i] + 1] && m'[fl[i] + 2] == m[fl[i] + 2]
    ensures Linked(m', head, fl)
  {
    forall i | 0 <= i < |fl|
      ensures LinkOk(m', fl, i)
    {
      assert LinkOk(m, fl, i);
    }
  }

  // ----- What an operation leaves alone -----

  /** Word `k` is a link of a free block. */
  ghost predicate LinkWord(L: Layout, k: nat) {
    (k >= 1 && k - 1 in L && L[k - 1].free) || (k >= 2 && k - 2 in L && L[k - 2].free)
  }

  /** Outside [a, b) only links of free blocks differ. */
  ghost predicate Frame(m: Memory, m': Memory, L: Layout, a: nat, b: nat) {
    |m'| == |m| && forall k {:trigger m'[k]} :: 0 <= k < |m| && !(a <= k < b) && !LinkWord(L, k) ==> m'[k] == m[k]
  }

  lemma NotLinkWord(L: Layout, lo: nat, hi: nat, t: nat, k: nat)
    requires Tiled(L, lo, hi) && t in L && t <= k < End(L, t)
    requires k == t || k == End(L, t) - 1 || !L[t].free
    ensures !LinkWord(L, k)
  {
    assert BlockOk(L, lo, hi, t);
    if k >= 1 && k - 1 in L {
      assert Apart(L, t, k - 1) && Apart(L, k - 1, t) && BlockOk(L, lo, hi, k - 1);
    }
    if k >= 2 && k - 2 in L {
      assert Apart(L, t, k - 2) && Apart(L, k - 2, t) && BlockOk(L, lo, hi, k - 2);
    }
  }

  /** A live block outside the changed region keeps every word. */
  lemma LiveKept(m: Memory, m': Memory, L: Layout, lo: nat, hi: nat, a: nat, b: nat, t: nat)
    requires Tiled(L, lo, hi) && hi <= |m| && Frame(m, m', L, a, b)
    requires t in Live(L) && (End(L, t) <= a || b <= t)
    ensures End(L, t) <= |m| && m'[t..End(L, t)] == m[t..End(L, t)]
  {
    assert BlockOk(L, lo, hi, t);
    forall k | t <= k < End(L, t)
      ensures m'[k] == m[k]
    {
      NotLinkWord(L, lo, hi, t, k);
    }
  }

  /** Blocks outside the changed region keep their tags. */
  lemma TagKept(m: Memory, m': Memory, L: Layout, lo: nat, hi: nat, a: nat, b: nat, t: nat)
    requires Tiled(L, lo, hi) && Frame(m, m', L, a, b)
    requires t in L && TagOk(m, L, t) && (End(L, t) <= a || b <= t)
    ensures TagOk(m', L, t)
  {
    assert BlockOk(L, lo, hi, t);
    NotLinkWord(L, lo, hi, t, t);
    NotLinkWord(L, lo, hi, t, End(L, t) - 1);
  }

  lemma UnlinkFrame(m: Memory, head: nat, L: Layout, fl: seq<nat>, i: nat, a: nat, b: nat)
    requires Linked(m, head, fl) && i < |fl|
    requires forall j :: 0 <= j < |fl| ==> fl[j] in L && L[fl[j]].free
    ensures fl[i] + 2 < |m| && m[fl[i] + 1] / 4 + 2 < |m| && m[fl[i] + 2] / 4 + 1 < |m|
    ensures Frame(m, Unlink(m, fl[i]), L, a, b)
  {
    NeighboursInside(m, head, fl, i);
    var n, p := Nth(fl, i + 1), Nth(fl, i - 1);
    assert p != 0 ==> LinkWord(L, p + 1);
    assert n != 0 ==> LinkWord(L, n + 2);
  }

  lemma FrameTrans(m: Memory, m': Memory, m'': Memory, L: Layout, a: nat, b: nat)
    requires Frame(m, m', L, a, b) && Frame(m', m'', L, a, b)
    ensures Frame(m, m'', L, a, b)
  {
    forall k | 0 <= k < |m| && !(a <= k < b) && !LinkWord(L, k)
      ensures m''[k] == m[k]
    {
      assert m'[k] == m[k];
    }
  }

  // ----- The whole heap invariant -----

  /** Tags, links and layout agree. */
  ghost predicate Stored(m: Memory, head: nat, L: Layout, fl: seq<nat>, lo: nat, hi: nat) {
    && 0 < lo <= hi <= |m| <= MAX_WORDS
    && LayoutOk(L, lo, hi)
    && Tagged(m, L)
    && ListsFree(L, fl)
    && Linked(m, head, fl)
  }

  /** Block `t` lies outside [a, b) and is the same in both layouts. */
  ghost predicate Untouched(L: Layout, M: Layout, a: nat, b: nat, t: nat) {
    t in L && t in M && M[t] == L[t] && (End(L, t) <= a || b <= t)
  }

  /** The blocks `keep` have the same extent and the same contents, tags included. */
  ghost predicate Keeps(keep: set<nat>, L: Layout, m: Memory, M: Layout, m': Memory) {
    forall t {:trigger KeepsBlock(L, m, M, m', t)} :: t in keep ==> KeepsBlock(L, m, M, m', t)
  }

  ghost predicate KeepsBlock(L: Layout, m: Memory, M: Layout, m': Memory, t: nat) {
    && t in L && t in M && M[t] == L[t]
    && End(L, t) <= |m| == |m'|
    && m'[t..End(L, t)] == m[t..End(L, t)]
  }

  lemma KeepsTrans(keep: set<nat>, L: Layout, m: Memory, M: Layout, m': Memory, N: Layout, m'': Memory)
    requires Keeps(keep, L, m, M, m') && Keeps(keep, M, m', N, m'')
    ensures Keeps(keep, L, m, N, m'')
  {
    forall t | t in keep
      ensures KeepsBlock(L, m, N, m'', t)
    {
      assert KeepsBlock(L, m, M, m', t) && KeepsBlock(M, m', N, m'', t);
    }
  }

  lemma KeepsAll(L: Layout, m: Memory)
    requires Tagged(m, L)
    ensures Keeps(Live(L), L, m, L, m)
  {
    assert forall t :: t in L ==> TagOk(m, L, t);
  }

  /** An operation that rewrites [a, b) and relinks the list re-establishes the invariant. */
  lemma StoredAfter(m: Memory, head: nat, L: Layout, fl: seq<nat>, m': Memory, head': nat, M: Layout, fl': seq<nat>,
                    lo: nat, hi: nat, a: nat, b: nat, keep: set<nat>)
    requires Stored(m, head, L, fl, lo, hi) && Frame(m, m', L, a, b) && lo <= a <= b <= hi
    requires LayoutOk(M, lo, hi) && ListsFree(M, fl') && Linked(m', head', fl')
    requires forall t {:trigger Untouched(L, M, a, b, t)} :: t in M ==> Untouched(L, M, a, b, t) || TagOk(m', M, t)
    requires keep <= Live(L) && forall t {:trigger Untouched(L, M, a, b, t)} :: t in keep ==> Untouched(L, M, a, b, t)
    ensures Stored(m', head', M, fl', lo, hi)
    ensures Keeps(keep, L, m, M, m')
    ensures m'[..lo] == m[..lo] && m'[hi..] == m[hi..]
  {
    forall t | t in M
      ensures TagOk(m', M, t)
    {
      if Untouched(L, M, a, b, t) {
        assert TagOk(m, L, t);
        TagKept(m, m', L, lo, hi, a, b, t);
      }
    }
    forall t | t in keep
      ensures KeepsBlock(L, m, M, m', t)
    {
      assert Untouched(L, M, a, b, t);
      LiveKept(m, m', L, lo, hi, a, b, t);
    }
    FrameOutside(m, m', L, lo, hi, a, b);
  }

  lemma FrameOutside(m: Memory, m': Memory, L: Layout, lo: nat, hi: nat, a: nat, b: nat)
    requires Tiled(L, lo, hi) && hi <= |m| && Frame(m, m', L, a, b) && lo <= a <= b <= hi
    ensures m'[..lo] == m[..lo] && m'[hi..] == m[hi..]
  {
    forall k | 0 <= k < lo || hi <= k < |m|
      ensures m'[k] == m[k]
    {
      assert k - 1 in L ==> BlockOk(L, lo, hi, k - 1);
      assert k - 2 in L ==> BlockOk(L, lo, hi, k - 2);
      assert !LinkWord(L, k);
    }
  }

  // ----- Splitting -----

  /** The memory after a split has written both blocks' tags and the remainder's links. */
  ghost function SplitTags(m: Memory, blk: nat, w: nat, bw: nat): Memory
    requires 2 <= w && w + MIN_WORDS <= bw < MAX_WORDS && blk + bw <= |m|
  {
    var m1 := m[blk := 4 * w + IN_USE][blk + w - 1 := 4 * w + IN_USE];
    var m2 := m1[blk + w := 4 * (bw - w)];
    var m3 := m2[blk + w + 1 := m2[blk + 1]];
    var m4 := m3[blk + w + 2 := m3[blk + 2]];
    m4[blk + bw - 1 := 4 * (bw - w)]
  }

  /** The memory after a split has also redirected the neighbours `n` and `p` to the remainder `nxt`. */
  ghost function Redirect(m: Memory, nxt: nat, n: nat, p: nat): Memory
    requires n + 2 < |m| && p + 1 < |m| && nxt < |m| <= MAX_WORDS
  {
    var m1 := if n != 0 then m[n + 2 := 4 * nxt] else m;
    if p != 0 then m1[p + 1 := 4 * nxt] else m1
  }

  /**
   The links a split follows are those of the block it splits exactly when the part
   handed out is at least 16 bytes; below that its in-use footer has overwritten one.
   */
  lemma SplitFollowsLinks(m: Memory, head: nat, fl: seq<nat>, i: nat, w: nat, bw: nat)
    requires Linked(m, head, fl) && i < |fl| && |m| <= MAX_WORDS
    requires 2 <= w && w + MIN_WORDS <= bw < MAX_WORDS && fl[i] + bw <= |m|
    ensures var m1 := SplitTags(m, fl[i], w, bw);
      m1[fl[i] + w + 1] / 4 == Nth(fl, i + 1) && m1[fl[i] + 2] / 4 == Nth(fl, i - 1) <==> MIN_WORDS <= w
  {
    NeighboursInside(m, head, fl, i);
  }

  lemma SplitLinked(m: Memory, head: nat, fl: seq<nat>, i: nat, w: nat, bw: nat)
    requires Linked(m, head, fl) && Spread(fl) && i < |fl| && |m| <= MAX_WORDS
    requires MIN_WORDS <= w && w + MIN_WORDS <= bw < MAX_WORDS && fl[i] + bw <= |m|
    requires forall j :: 0 <= j < |fl| && j != i ==> fl[j] + 3 <= fl[i] || fl[i] + bw <= fl[j]
    ensures Nth(fl, i + 1) + 2 < |m| && Nth(fl, i - 1) + 2 < |m|
    ensures Linked(
      Redirect(SplitTags(m, fl[i], w, bw), fl[i] + w, Nth(fl, i + 1), Nth(fl, i - 1)),
      if i == 0 then fl[0] + w else head,
      fl[i := fl[i] + w])
  {
    NeighboursInside(m, head, fl, i);
    var blk, nxt, gl := fl[i], fl[i] + w, fl[i := fl[i] + w];
    var m1 := SplitTags(m, blk, w, bw);
    var m' := Redirect(m1, nxt, Nth(fl, i + 1), Nth(fl, i - 1));
    var n, p := Nth(fl, i + 1), Nth(fl, i - 1);
    forall j | 0 <= j < |gl|
      ensures LinkOk(m', gl, j)
    {
      assert LinkOk(m, fl, j);
      if j == i {
        assert m'[nxt + 1] == m1[nxt + 1] == 4 * n && m'[nxt + 2] == m1[nxt + 2] == 4 * p;
      } else {
        assert m1[fl[j] + 1] == m[fl[j] + 1] && m1[fl[j] + 2] == m[fl[j] + 2];
        assert p != 0 && j < i - 1 ==> FarFrom(fl[j], fl[i - 1]);
        assert p != 0 && i < j ==> FarFrom(fl[i - 1], fl[j]);
        assert n != 0 && j < i ==> FarFrom(fl[j], fl[i + 1]);
        assert n != 0 && i + 1 < j ==> FarFrom(fl[i + 1], fl[j]);
      }
    }
  }

  lemma SplitFrame(m: Memory, head: nat, L: Layout, fl: seq<nat>, i: nat, w: nat, bw: nat)
    requires Linked(m, head, fl) && i < |fl| && |m| <= MAX_WORDS
    requires forall j :: 0 <= j < |fl| ==> fl[j] in L && L[fl[j]].free
    requires MIN_WORDS <= w && w + MIN_WORDS <= bw < MAX_WORDS && fl[i] + bw <= |m|
    ensures Nth(fl, i + 1) + 2 < |m| && Nth(fl, i - 1) + 2 < |m|
    ensures Frame(
      m, Redirect(SplitTags(m, fl[i], w, bw), fl[i] + w, Nth(fl, i + 1), Nth(fl, i - 1)), L, fl[i], fl[i] + bw)
  {
    NeighboursInside(m, head, fl, i);
    var n, p := Nth(fl, i + 1), Nth(fl, i - 1);
    assert n != 0 ==> LinkWord(L, n + 2);
    assert p != 0 ==> LinkWord(L, p + 1);
  }

  /** The blocks other than the one at position `i` lie outside it. */
  lemma OthersOutside(L: Layout, lo: nat, hi: nat, fl: seq<nat>, i: nat)
    requires Tiled(L, lo, hi) && ListsFree(L, fl) && i < |fl|
    ensures forall j :: 0 <= j < |fl| && j != i ==> fl[j] + 3 <= fl[i] || End(L, fl[i]) <= fl[j]
  {
    var s := fl[i];
    forall j | 0 <= j < |fl| && j != i
      ensures fl[j] + 3 <= s || End(L, s) <= fl[j]
    {
      var t := fl[j];
      assert Differ(fl[if i < j then i else j], fl[if i < j then j else i]);
      assert Apart(L, s, t) && Apart(L, t, s) && BlockOk(L, lo, hi, t);
    }
  }

  lemma OtherUntouched(L: Layout, lo: nat, hi: nat, M: Layout, s: nat, t: nat)
    requires Tiled(L, lo, hi) && s in L && t in L && t != s && t in M && M[t] == L[t]
    ensures Untouched(L, M, s, End(L, s), t)
  {
    assert Apart(L, s, t) && Apart(L, t, s);
  }

  lemma SplitListsFree(L: Layout, lo: nat, hi: nat, fl: seq<nat>, i: nat, w: nat)
    requires Tiled(L, lo, hi) && ListsFree(L, fl) && i < |fl| && MIN_WORDS <= w && Splits(L, fl[i], w)
    ensures ListsFree(Carve(L, fl[i], w), fl[i := fl[i] + w])
  {
    CarveTiled(L, lo, hi, fl[i], w);
    var M, gl := Carve(L, fl[i], w), fl[i := fl[i] + w];
    forall j | 0 <= j < |gl| && j != i
      ensures gl[j] in M && M[gl[j]].free
    {
      assert Differ(fl[if i < j then i else j], fl[if i < j then j else i]);
    }
    forall s: nat
      ensures Listed(M, gl, s)
    {
      if s in L && M[s].free && s in M {
        assert Listed(L, fl, s);
        var j :| 0 <= j < |fl| && fl[j] == s;
        assert gl[j] == s;
      } else if s in M && M[s].free {
        assert gl[i] == s;
      }
    }
    forall j, k | 0 <= j < k < |gl|
      ensures Differ(gl[j], gl[k])
    {
      assert Differ(fl[j], fl[k]);
    }
  }

  lemma WithoutElements(fl: seq<nat>, i: nat)
    requires i < |fl| && Distinct(fl)
    ensures forall s :: s in fl && s != fl[i] ==> s in Without(fl, i)
    ensures fl[i] !in Without(fl, i)
    ensures Distinct(Without(fl, i))
  {
    var gl := Without(fl, i);
    forall s | s in fl && s != fl[i]
      ensures s in gl
    {
      var j :| 0 <= j < |fl| && fl[j] == s;
      assert gl[if j < i then j else j - 1] == s;
    }
    forall j, k | 0 <= j < k < |gl|
      ensures Differ(gl[j], gl[k])
    {
      assert Differ(fl[if j < i then j else j + 1], fl[if k < i then k else k + 1]);
    }
    forall j | 0 <= j < |gl|
      ensures gl[j] != fl[i]
    {
      assert if j < i then Differ(fl[j], fl[i]) else Differ(fl[i], fl[j + 1]);
    }
  }

  /** The memory after splitting `w` words off the block `blk` of `bw` words. */
  ghost function SplitMem(m: Memory, blk: nat, w: nat, bw: nat): Memory
    requires 2 <= w && w + MIN_WORDS <= bw < MAX_WORDS && blk + bw <= |m| <= MAX_WORDS
    requires m[blk + 1] / 4 + 2 < |m| && m[blk + 2] / 4 + 1 < |m|
  {
    Redirect(SplitTags(m, blk, w, bw), blk + w, m[blk + 1] / 4, m[blk + 2] / 4)
  }

  lemma SplitMemLinked(m: Memory, head: nat, L: Layout, fl: seq<nat>, lo: nat, hi: nat, i: nat, w: nat)
    requires Stored(m, head, L, fl, lo, hi) && i < |fl| && MIN_WORDS <= w && Splits(L, fl[i], w)
    ensures End(L, fl[i]) <= |m| && L[fl[i]].len < MAX_WORDS
    ensures m[fl[i] + 1] / 4 + 2 < |m| && m[fl[i] + 2] / 4 + 1 < |m|
    ensures m[fl[i] + 2] / 4 == 0 <==> i == 0
    ensures m[fl[i] + 1] / 4 != fl[i]
    ensures var m' := SplitMem(m, fl[i], w, L[fl[i]].len);
      && Linked(m', if i == 0 then fl[0] + w else head, fl[i := fl[i] + w])
      && Frame(m, m', L, fl[i], End(L, fl[i]))
  {
    var s, bw := fl[i], L[fl[i]].len;
    assert TagOk(m, L, s) && BlockOk(L, lo, hi, s);
    assert i + 1 < |fl| ==> Differ(fl[i], fl[i + 1]);
    ListSpread(L, lo, hi, fl);
    OthersOutside(L, lo, hi, fl, i);
    NeighboursInside(m, head, fl, i);
    assert m[s + 1] / 4 == Nth(fl, i + 1) && m[s + 2] / 4 == Nth(fl, i - 1);
    SplitLinked(m, head, fl, i, w, bw);
    SplitFrame(m, head, L, fl, i, w, bw);
  }

  /** Splitting off at least 16 bytes re-establishes the invariant and disturbs no live block. */
  lemma SplitStored(m: Memory, head: nat, L: Layout, fl: seq<nat>, lo: nat, hi: nat, i: nat, w: nat)
    requires Stored(m, head, L, fl, lo, hi) && i < |fl| && MIN_WORDS <= w && Splits(L, fl[i], w)
    requires End(L, fl[i]) <= |m| && L[fl[i]].len < MAX_WORDS
    requires m[fl[i] + 1] / 4 + 2 < |m| && m[fl[i] + 2] / 4 + 1 < |m|
    ensures var m', M := SplitMem(m, fl[i], w, L[fl[i]].len), Carve(L, fl[i], w);
      && Stored(m', if i == 0 then fl[0] + w else head, M, fl[i := fl[i] + w], lo, hi)
      && Keeps(Live(L), L, m, M, m')
      && m'[..lo] == m[..lo] && m'[hi..] == m[hi..]
  {
    var s, bw := fl[i], L[fl[i]].len;
    var m', M, fl' := SplitMem(m, s, w, bw), Carve(L, s, w), fl[i := s + w];
    SplitMemLinked(m, head, L, fl, lo, hi, i, w);
    CarveOk(L, lo, hi, s, w);
    SplitListsFree(L, lo, hi, fl, i, w);
    SplitTagsOk(m, head, L, fl, lo, hi, i, w);
    forall t | t in L && t != s
      ensures Untouched(L, M, s, s + bw, t)
    {
      OtherUntouched(L, lo, hi, M, s, t);
    }
    assert BlockOk(L, lo, hi, s);
    StoredAfter(m, head, L, fl, m', if i == 0 then fl[0] + w else head, M, fl', lo, hi, s, s + bw, Live(L));
  }

  lemma SplitTagsOk(m: Memory, head: nat, L: Layout, fl: seq<nat>, lo: nat, hi: nat, i: nat, w: nat)
    requires Stored(m, head, L, fl, lo, hi) && i < |fl| && MIN_WORDS <= w && Splits(L, fl[i], w)
    requires End(L, fl[i]) <= |m| && L[fl[i]].len < MAX_WORDS
    requires m[fl[i] + 1] / 4 + 2 < |m| && m[fl[i] + 2] / 4 + 1 < |m|
    ensures var m', M := SplitMem(m, fl[i], w, L[fl[i]].len), Carve(L, fl[i], w);
      TagOk(m', M, fl[i]) && TagOk(m', M, fl[i] + w)
  {
    OthersOutside(L, lo, hi, fl, i);
    NeighboursInside(m, head, fl, i);
  }

  ghost function WholeMem(m: Memory, blk: nat, bw: nat): Memory
    requires 4 <= bw < MAX_WORDS && blk + bw <= |m|
  {
    m[blk := 4 * bw + IN_USE][blk + bw - 1 := 4 * bw + IN_USE]
  }

  lemma WholeLinked(m: Memory, head: nat, L: Layout, fl: seq<nat>, lo: nat, hi: nat, i: nat)
    requires Stored(m, head, L, fl, lo, hi) && i < |fl|
    ensures TagOk(m, L, fl[i]) && Spread(fl)
    ensures var m1 := WholeMem(m, fl[i], L[fl[i]].len);
      && Linked(m1, head, fl)
      && m1[fl[i] + 1] / 4 + 2 < |m| && m1[fl[i] + 2] / 4 + 1 < |m|
      && Linked(Unlink(m1, fl[i]), if i == 0 then Nth(fl, 1) else head, Without(fl, i))
      && Frame(m, Unlink(m1, fl[i]), L, fl[i], End(L, fl[i]))
  {
    var s, bw := fl[i], L[fl[i]].len;
    assert TagOk(m, L, s);
    var m1 := WholeMem(m, s, bw);
    ListSpread(L, lo, hi, fl);
    OthersOutside(L, lo, hi, fl, i);
    LinkedKept(m, m1, head, fl);
    UnlinkLinked(m1, head, fl, i);
    UnlinkFrame(m1, head, L, fl, i, s, s + bw);
    FrameTrans(m, m1, Unlink(m1, s), L, s, s + bw);
  }

  lemma WholeTagOk(m: Memory, head: nat, L: Layout, fl: seq<nat>, lo: nat, hi: nat, i: nat)
    requires Stored(m, head, L, fl, lo, hi) && i < |fl| && TagOk(m, L, fl[i])
    requires var m1 := WholeMem(m, fl[i], L[fl[i]].len);
      m1[fl[i] + 1] / 4 + 2 < |m| && m1[fl[i] + 2] / 4 + 1 < |m|
    ensures TagOk(Unlink(WholeMem(m, fl[i], L[fl[i]].len), fl[i]), Carve(L, fl[i], L[fl[i]].len), fl[i])
  {
    WholeLinked(m, head, L, fl, lo, hi, i);
    OthersOutside(L, lo, hi, fl, i);
    NeighboursInside(WholeMem(m, fl[i], L[fl[i]].len), head, fl, i);
  }

  lemma WholeListsFree(L: Layout, fl: seq<nat>, i: nat)
    requires ListsFree(L, fl) && i < |fl|
    ensures ListsFree(L[fl[i] := Block(L[fl[i]].len, false)], Without(fl, i))
  {
    WithoutElements(fl, i);
    var M, gl := L[fl[i] := Block(L[fl[i]].len, false)], Without(fl, i);
    forall j | 0 <= j < |gl|
      ensures gl[j] in M && M[gl[j]].free
    {
      assert gl[j] in gl && gl[j] == fl[if j < i then j else j + 1];
    }
    forall s: nat
      ensures Listed(M, gl, s)
    {
      assert Listed(L, fl, s);
    }
  }

  /** Handing out a whole block re-establishes the invariant and disturbs no live block. */
  lemma WholeStored(m: Memory, head: nat, L: Layout, fl: seq<nat>, lo: nat, hi: nat, i: nat)
    requires Stored(m, head, L, fl, lo, hi) && i < |fl| && TagOk(m, L, fl[i])
    requires var m1 := WholeMem(m, fl[i], L[fl[i]].len);
      m1[fl[i] + 1] / 4 + 2 < |m| && m1[fl[i] + 2] / 4 + 1 < |m|
    ensures
      var m', M := Unlink(WholeMem(m, fl[i], L[fl[i]].len), fl[i]), L[fl[i] := Block(L[fl[i]].len, false)];
      && Stored(m', if i == 0 then Nth(fl, 1) else head, M, Without(fl, i), lo, hi)
      && Keeps(Live(L), L, m, M, m')
      && m'[..lo] == m[..lo] && m'[hi..] == m[hi..]
  {
    var s, bw := fl[i], L[fl[i]].len;
    var m', M := Unlink(WholeMem(m, s, bw), s), Carve(L, s, bw);
    WholeLinked(m, head, L, fl, lo, hi, i);
    WholeTagOk(m, head, L, fl, lo, hi, i);
    WholeListsFree(L, fl, i);
    CarveOk(L, lo, hi, s, bw);
    forall t | t in L && t != s
      ensures Untouched(L, M, s, s + bw, t)
    {
      OtherUntouched(L, lo, hi, M, s, t);
    }
    assert BlockOk(L, lo, hi, s);
    StoredAfter(m, head, L, fl, m', if i == 0 then Nth(fl, 1) else head, M, Without(fl, i), lo, hi, s, s + bw, Live(L));
  }

  // ----- Freeing -----

  /**
   The state while a block is being freed: [a, b) is what has been merged so far and the
   free blocks in `gone` have been taken out of the list.
   */
  ghost predicate Pending(m0: Memory, m: Memory, head: nat, L: Layout, fl: seq<nat>, gone: set<nat>, a: nat, b: nat) {
    Frame(m0, m, L, a, b) && Linked(m, head, fl) && ListsBut(L, fl, gone)
  }

  lemma PendingWiden(m0: Memory, m: Memory, head: nat, L: Layout, fl: seq<nat>, gone: set<nat>,
                     a: nat, b: nat, a': nat, b': nat)
    requires Pending(m0, m, head, L, fl, gone, a, b) && a' <= a && b <= b'
    ensures Pending(m0, m, head, L, fl, gone, a', b')
  {
  }

  lemma PendingWrite(m0: Memory, m: Memory, head: nat, L: Layout, fl: seq<nat>, gone: set<nat>,
                     a: nat, b: nat, k: nat, v: Word)
    requires Pending(m0, m, head, L, fl, gone, a, b) && a <= k < b <= |m| && !LinkWord(L, k)
    ensures Pending(m0, m[k := v], head, L, fl, gone, a, b)
  {
    LinkedKept(m, m[k := v], head, fl);
  }

  lemma PendingUnlink(m0: Memory, m: Memory, head: nat, L: Layout, lo: nat, hi: nat, fl: seq<nat>, gone: set<nat>,
                      a: nat, b: nat, t: nat)
      returns (i: nat)
    requires Pending(m0, m, head, L, fl, gone, a, b) && Tiled(L, lo, hi) && t in L && L[t].free && t !in gone
    ensures i < |fl| && fl[i] == t
    ensures t + 2 < |m| && m[t + 1] / 4 + 2 < |m| && m[t + 2] / 4 + 1 < |m|
    ensures Pending(
      m0, Unlink(m, t), if m[t + 2] / 4 == 0 then m[t + 1] / 4 else head, L, Without(fl, i), gone + {t}, a, b)
  {
    assert Listed(L, fl, t);
    i :| 0 <= i < |fl| && fl[i] == t;
    ListSpread(L, lo, hi, fl);
    NeighboursInside(m, head, fl, i);
    UnlinkLinked(m, head, fl, i);
    UnlinkFrame(m, head, L, fl, i, a, b);
    FrameTrans(m0, m, Unlink(m, t), L, a, b);
    WithoutListsBut(L, fl, gone, i);
  }

  /** Taking the free neighbour `t` out of the list and retagging the merged run at `k`. */
  lemma PendingAbsorb(m0: Memory, m: Memory, head: nat, L: Layout, lo: nat, hi: nat, fl: seq<nat>, gone: set<nat>,
                      a: nat, b: nat, t: nat, a': nat, b': nat, k: nat, v: Word)
      returns (i: nat)
    requires Pending(m0, m, head, L, fl, gone, a, b) && Tiled(L, lo, hi) && t in L && L[t].free && t !in gone
    requires a' <= a && b <= b' <= |m| && a' <= k < b' && k in L
    ensures i < |fl| && fl[i] == t
    ensures t + 2 < |m| && m[t + 1] / 4 + 2 < |m| && m[t + 2] / 4 + 1 < |m|
    ensures Pending(
      m0, Unlink(m, t)[k := v], if m[t + 2] / 4 == 0 then m[t + 1] / 4 else head, L, Without(fl, i), gone + {t}, a', b')
  {
    i := PendingUnlink(m0, m, head, L, lo, hi, fl, gone, a, b, t);
    var m1, head1, fl1 := Unlink(m, t), if m[t + 2] / 4 == 0 then m[t + 1] / 4 else head, Without(fl, i);
    PendingWiden(m0, m1, head1, L, fl1, gone + {t}, a, b, a', b');
    assert BlockOk(L, lo, hi, k);
    NotLinkWord(L, lo, hi, k, k);
    PendingWrite(m0, m1, head1, L, fl1, gone + {t}, a', b', k, v);
  }

  lemma WithoutListsBut(L: Layout, fl: seq<nat>, gone: set<nat>, i: nat)
    requires ListsBut(L, fl, gone) && i < |fl|
    ensures ListsBut(L, Without(fl, i), gone + {fl[i]})
  {
    WithoutElements(fl, i);
    var gl := Without(fl, i);
    forall j | 0 <= j < |gl|
      ensures gl[j] in L && L[gl[j]].free && gl[j] !in gone + {fl[i]}
    {
      assert gl[j] in gl && gl[j] == fl[if j < i then j else j + 1];
    }
    forall s: nat
      ensures s in gone + {fl[i]} || Listed(L, gl, s)
    {
      assert s in gone || Listed(L, fl, s);
    }
  }

  /** Clearing the in-use flag in both tags starts the freeing of `s`. */
  lemma BeginFree(m: Memory, head: nat, L: Layout, lo: nat, hi: nat, fl: seq<nat>, s: nat)
    requires Stored(m, head, L, fl, lo, hi) && s in Live(L)
    ensures End(L, s) <= |m| && 0 < L[s].len < MAX_WORDS
    ensures Pending(m, m[s := 4 * L[s].len][End(L, s) - 1 := 4 * L[s].len], head, L, fl, {}, s, End(L, s))
  {
    assert TagOk(m, L, s) && BlockOk(L, lo, hi, s);
    NotLinkWord(L, lo, hi, s, s);
    NotLinkWord(L, lo, hi, s, End(L, s) - 1);
    PendingWrite(m, m, head, L, fl, {}, s, End(L, s), s, 4 * L[s].len);
    PendingWrite(m, m[s := 4 * L[s].len], head, L, fl, {}, s, End(L, s), End(L, s) - 1, 4 * L[s].len);
  }

  lemma MergeEndNotLink(L: Layout, lo: nat, hi: nat, s: nat)
    requires Tiled(L, lo, hi) && s in Live(L)
    ensures MergeEnd(L, s) > 0 && !LinkWord(L, MergeEnd(L, s) - 1)
  {
    MergeRange(L, lo, hi, s);
    var n := End(L, s);
    if n in L && L[n].free {
      assert BlockOk(L, lo, hi, n);
      NotLinkWord(L, lo, hi, n, End(L, n) - 1);
    } else {
      NotLinkWord(L, lo, hi, s, n - 1);
    }
  }

  /** The free blocks that freeing `s` merges into it. */
  ghost function Absorbed(L: Layout, s: nat): set<nat>
    requires s in L
  {
    set t | t in L && L[t].free && MergeStart(L, s) <= t < MergeEnd(L, s)
  }

  ghost function NextAbsorbed(L: Layout, s: nat): set<nat>
    requires s in L
  {
    var n := End(L, s);
    if n in L && L[n].free then {n} else {}
  }

  lemma AbsorbedIs(L: Layout, lo: nat, hi: nat, s: nat)
    requires Tiled(L, lo, hi) && s in Live(L)
    ensures Absorbed(L, s) == NextAbsorbed(L, s) + if MergeStart(L, s) == s then {} else {MergeStart(L, s)}
  {
    var a := MergeStart(L, s);
    MergeRange(L, lo, hi, s);
    assert a == s || FreePredecessor(L, s, a);
    forall t | t in L
      ensures t in Absorbed(L, s) ==> t == End(L, s) || t == a
    {
      MergeSeparates(L, lo, hi, s, t);
      assert BlockOk(L, lo, hi, t);
    }
    var n := End(L, s);
    assert n in L ==> BlockOk(L, lo, hi, n);
  }

  lemma PushListsFree(L: Layout, lo: nat, hi: nat, fl: seq<nat>, s: nat)
    requires LayoutOk(L, lo, hi) && s in Live(L) && ListsBut(L, fl, Absorbed(L, s))
    ensures ListsFree(FreeBlock(L, s), [MergeStart(L, s)] + fl)
  {
    FreeBlockOk(L, lo, hi, s);
    MergeRange(L, lo, hi, s);
    var a, M := MergeStart(L, s), FreeBlock(L, s);
    var gl := [a] + fl;
    forall j | 0 <= j < |gl|
      ensures gl[j] in M && M[gl[j]].free
      ensures j > 0 ==> gl[j] != a
    {
      assert j > 0 ==> gl[j] == fl[j - 1];
    }
    forall t: nat
      ensures Listed(M, gl, t)
    {
      if t in M && M[t].free && t != a {
        assert t in L && Listed(L, fl, t);
      } else {
        assert gl[0] == a;
      }
    }
    forall j, k | 0 <= j < k < |gl|
      ensures Differ(gl[j], gl[k])
    {
      assert j > 0 ==> Differ(fl[j - 1], fl[k - 1]);
    }
  }

  lemma PushFrame(m: Memory, head: nat, L: Layout, fl: seq<nat>, a: nat, b: nat)
    requires Linked(m, head, fl) && (forall i :: 0 <= i < |fl| ==> fl[i] in L && L[fl[i]].free)
    requires a + 3 <= b <= |m| <= MAX_WORDS && head + 2 < |m|
    ensures Frame(m, PushFront(m, head, a), L, a, b)
  {
    assert head != 0 ==> LinkWord(L, head + 2);
  }

  lemma PushTagOk(m: Memory, head: nat, L: Layout, lo: nat, hi: nat, fl: seq<nat>, s: nat)
    requires LayoutOk(L, lo, hi) && hi <= |m| <= MAX_WORDS && s in Live(L)
    requires ListsBut(L, fl, Absorbed(L, s)) && Linked(m, head, fl) && head + 2 < |m|
    requires MergeStart(L, s) + 4 <= MergeEnd(L, s) <= |m| && 0 < lo
    requires m[MergeStart(L, s)] == m[MergeEnd(L, s) - 1] == 4 * (MergeEnd(L, s) - MergeStart(L, s))
    ensures TagOk(PushFront(m, head, MergeStart(L, s)), FreeBlock(L, s), MergeStart(L, s))
  {
    var a, b := MergeStart(L, s), MergeEnd(L, s);
    MergeRange(L, lo, hi, s);
    if head != 0 {
      assert fl[0] == head && LinkOk(m, fl, 0) && BlockOk(L, lo, hi, head);
      MergeSeparates(L, lo, hi, s, head);
    }
  }

  lemma FreeUntouched(L: Layout, lo: nat, hi: nat, s: nat, t: nat)
    requires LayoutOk(L, lo, hi) && s in Live(L)
    requires t in L && (t in FreeBlock(L, s) || t in Live(L)) && t != MergeStart(L, s) && t != s
    ensures Untouched(L, FreeBlock(L, s), MergeStart(L, s), MergeEnd(L, s), t)
  {
    FreeBlockOk(L, lo, hi, s);
    MergeRange(L, lo, hi, s);
    MergeSeparates(L, lo, hi, s, t);
    assert BlockOk(L, lo, hi, t);
  }

  /** Writing the merged block's footer and listing it re-establishes the invariant. */
  lemma FreeStored(m0: Memory, head0: nat, L: Layout, fl0: seq<nat>, lo: nat, hi: nat, s: nat,
                   m: Memory, head: nat, fl: seq<nat>)
    requires Stored(m0, head0, L, fl0, lo, hi) && s in Live(L) && |m| == |m0|
    requires Pending(m0, m, head, L, fl, Absorbed(L, s), MergeStart(L, s), MergeEnd(L, s))
    requires MergeStart(L, s) + 4 <= MergeEnd(L, s) <= |m|
    requires m[MergeStart(L, s)] == m[MergeEnd(L, s) - 1] == 4 * (MergeEnd(L, s) - MergeStart(L, s))
    ensures head + 2 < |m|
    ensures var a, m', M := MergeStart(L, s), PushFront(m, head, MergeStart(L, s)), FreeBlock(L, s);
      && Stored(m', a, M, [a] + fl, lo, hi)
      && Keeps(Live(L) - {s}, L, m0, M, m')
      && m'[..lo] == m0[..lo] && m'[hi..] == m0[hi..]
  {
    var a, b, M := MergeStart(L, s), MergeEnd(L, s), FreeBlock(L, s);
    MergeRange(L, lo, hi, s);
    FreeBlockOk(L, lo, hi, s);
    PushListsFree(L, lo, hi, fl, s);
    ListSpread(M, lo, hi, [a] + fl);
    PushFrontLinked(m, head, fl, a);
    var m' := PushFront(m, head, a);
    PushFrame(m, head, L, fl, a, b);
    FrameTrans(m0, m, m', L, a, b);
    PushTagOk(m, head, L, lo, hi, fl, s);
    forall t | t in L && (t in M || t in Live(L)) && t != a && t != s
      ensures Untouched(L, M, a, b, t)
    {
      FreeUntouched(L, lo, hi, s, t);
    }
    assert a == s || FreePredecessor(L, s, a);
    assert s in M ==> a == s;
    StoredAfter(m0, head0, L, fl0, m', a, M, [a] + fl, lo, hi, a, b, Live(L) - {s});
  }

  // ----- Client writes -----

  /** `m'` differs from `m` only in the payload of block `s`. */
  ghost predicate PayloadWrite(m: Memory, m': Memory, L: Layout, s: nat)
    requires s in L
  {
    |m'| == |m| && forall k {:trigger m'[k]} :: 0 <= k < |m| && !(s < k < End(L, s)) ==> m'[k] == m[k]
  }

  /**
   Client writes to a live block's payload keep the invariant exactly when they leave bit 31 of
   the payload's last word set, and they never touch another live block.
   */
  lemma PayloadWriteStored(m: Memory, m': Memory, head: nat, L: Layout, fl: seq<nat>, lo: nat, hi: nat, s: nat)
    requires Stored(m, head, L, fl, lo, hi) && s in Live(L) && PayloadWrite(m, m', L, s)
    ensures End(L, s) <= |m|
    ensures L[s].len > 0 && (Stored(m', head, L, fl, lo, hi) <==> BlkInUse(m'[End(L, s) - 1]))
    ensures Keeps(Live(L) - {s}, L, m, L, m')
    ensures m'[..lo] == m[..lo] && m'[hi..] == m[hi..]
  {
    assert TagOk(m, L, s) && BlockOk(L, lo, hi, s);
    var last := End(L, s) - 1;
    if BlkInUse(m'[last]) {
      assert TagOk(m', L, s);
    } else {
      assert !TagOk(m', L, s);
    }
    forall i | 0 <= i < |fl|
      ensures fl[i] + 2 < |m| && m'[fl[i] + 1] == m[fl[i] + 1] && m'[fl[i] + 2] == m[fl[i] + 2]
    {
      assert LinkOk(m, fl, i) && TagOk(m, L, fl[i]);
      PayloadElsewhere(m, m', L, lo, hi, s, fl[i]);
    }
    LinkedKept(m, m', head, fl);
    forall t | t in L && t != s
      ensures TagOk(m', L, t) && KeepsBlock(L, m, L, m', t)
    {
      assert TagOk(m, L, t);
      PayloadElsewhere(m, m', L, lo, hi, s, t);
    }
  }

  lemma PayloadElsewhere(m: Memory, m': Memory, L: Layout, lo: nat, hi: nat, s: nat, t: nat)
    requires Tiled(L, lo, hi) && s in L && t in L && t != s && PayloadWrite(m, m', L, s) && End(L, t) <= |m|
    ensures forall k :: t <= k < End(L, t) ==> m'[k] == m[k]
    ensures m'[t..End(L, t)] == m[t..End(L, t)]
  {
    assert Apart(L, s, t) && Apart(L, t, s);
  }

  // ----- First fit -----

  /** The position of the first listed block of at least `w` words, from position `i` on. */
  ghost function FirstFit(L: Layout, fl: seq<nat>, w: nat, i: nat): nat
    requires i <= |fl|
    decreases |fl| - i
  {
    if i == |fl| || (fl[i] in L && L[fl[i]].len >= w) then i else FirstFit(L, fl, w, i + 1)
  }

  lemma {:induction false} FirstFitIsFirst(L: Layout, fl: seq<nat>, w: nat, i: nat)
    requires i <= |fl| && forall j :: 0 <= j < |fl| ==> fl[j] in L
    ensures i <= FirstFit(L, fl, w, i) <= |fl|
    ensures FirstFit(L, fl, w, i) < |fl| ==> L[fl[FirstFit(L, fl, w, i)]].len >= w
    ensures forall j :: i <= j < FirstFit(L, fl, w, i) ==> L[fl[j]].len < w
    decreases |fl| - i
  {
    if i < |fl| && L[fl[i]].len < w {
      FirstFitIsFirst(L, fl, w, i + 1);
    }
  }

  /** First fit fails exactly when no free block is large enough. */
  lemma FirstFitFails(L: Layout, fl: seq<nat>, w: nat)
    requires ListsFree(L, fl)
    ensures FirstFit(L, fl, w, 0) <= |fl|
    ensures FirstFit(L, fl, w, 0) == |fl| <==> forall s :: s in L && L[s].free ==> L[s].len < w
  {
    FirstFitIsFirst(L, fl, w, 0);
    if FirstFit(L, fl, w, 0) == |fl| {
      forall s | s in L && L[s].free
        ensures L[s].len < w
      {
        assert Listed(L, fl, s);
      }
    }
  }

  /** The block that first fit picks for `w` words would be split. */
  ghost predicate FitSplits(L: Layout, fl: seq<nat>, w: nat) {
    var i := FirstFit(L, fl, w, 0);
    i < |fl| && fl[i] in L && Splits(L, fl[i], w)
  }
}
