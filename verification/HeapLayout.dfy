/**
 The block structure of the heap pool, apart from how it is stored in memory.

 A layout maps the word address of each block's header to the block's length
 (in words, header included) and to whether the block is free.
 */
module HeapLayout {

  datatype Block = Block(len: nat, free: bool)

  type Layout = map<nat, Block>

  /** The smallest block that can hold a header, two links and a footer: 16 bytes. */
  const MIN_WORDS: nat := 4

  ghost function End(L: Layout, s: nat): nat
    requires s in L
  {
    s + L[s].len
  }

  ghost predicate BlockOk(L: Layout, lo: nat, hi: nat, s: nat)
    requires s in L
  {
    lo <= s && MIN_WORDS <= L[s].len && End(L, s) <= hi && (End(L, s) == hi || End(L, s) in L)
  }

  ghost predicate Apart(L: Layout, s: nat, t: nat)
    requires s in L && t in L
  {
    s < t ==> End(L, s) <= t
  }

  /** The blocks cover the pool [lo, hi) without gaps or overlaps. */
  ghost predicate Tiled(L: Layout, lo: nat, hi: nat) {
    && lo in L
    && (forall s {:trigger BlockOk(L, lo, hi, s)} :: s in L ==> BlockOk(L, lo, hi, s))
    && (forall s, t {:trigger Apart(L, s, t)} :: s in L && t in L ==> Apart(L, s, t))
  }

  ghost predicate NotBothFree(L: Layout, s: nat, t: nat)
    requires s in L && t in L
  {
    End(L, s) == t && L[s].free ==> !L[t].free
  }

  /** No two neighbouring blocks are both free. */
  ghost predicate Coalesced(L: Layout) {
    forall s, t {:trigger NotBothFree(L, s, t)} :: s in L && t in L ==> NotBothFree(L, s, t)
  }

  ghost predicate LayoutOk(L: Layout, lo: nat, hi: nat) {
    Tiled(L, lo, hi) && Coalesced(L)
  }

  /** The headers of the blocks handed out to clients. */
  ghost function Live(L: Layout): set<nat> {
    set s | s in L && !L[s].free
  }

  /** The pool as one free block. */
  function Whole(lo: nat, hi: nat): Layout
    requires lo <= hi
  {
    map[lo := Block(hi - lo, true)]
  }

  /** Every block but the first has a block that ends where it begins. */
  lemma Predecessor(L: Layout, lo: nat, hi: nat, t: nat) returns (p: nat)
    requires Tiled(L, lo, hi) && t in L && lo < t
    ensures p in L && End(L, p) == t
  {
    p := lo;
    while End(L, p) != t
      invariant p in L && p < t
      decreases t - p
    {
      assert BlockOk(L, lo, hi, p) && BlockOk(L, lo, hi, t) && Apart(L, p, t);
      p := End(L, p);
    }
  }

  // ----- Coalescing -----

  ghost predicate FreePredecessor(L: Layout, s: nat, p: nat) {
    p in L && L[p].free && End(L, p) == s
  }

  /** Where the free block that results from freeing `s` starts. */
  ghost function MergeStart(L: Layout, s: nat): nat {
    if exists p: nat :: FreePredecessor(L, s, p)
    then var p: nat :| FreePredecessor(L, s, p); p
    else s
  }

  /** Where the free block that results from freeing `s` ends. */
  ghost function MergeEnd(L: Layout, s: nat): nat
    requires s in L
  {
    var n := End(L, s);
    if n in L && L[n].free then End(L, n) else n
  }

  /** The layout with everything in [a, b) replaced by one free block. */
  ghost function Join(L: Layout, a: nat, b: nat): Layout
    requires a <= b
  {
    (map t | t in L && !(a <= t < b) :: L[t])[a := Block(b - a, true)]
  }

  /** What freeing the block `s` does to the layout. */
  ghost function FreeBlock(L: Layout, s: nat): Layout
    requires s in L
  {
    if MergeStart(L, s) <= MergeEnd(L, s) then Join(L, MergeStart(L, s), MergeEnd(L, s)) else L
  }

  lemma MergeStartUnique(L: Layout, lo: nat, hi: nat, s: nat, p: nat)
    requires Tiled(L, lo, hi) && FreePredecessor(L, s, p)
    ensures MergeStart(L, s) == p
  {
    var q := MergeStart(L, s);
    assert FreePredecessor(L, s, q);
    assert BlockOk(L, lo, hi, p) && BlockOk(L, lo, hi, q) && Apart(L, p, q) && Apart(L, q, p);
  }

  lemma NoFreePredecessor(L: Layout, lo: nat, hi: nat, s: nat, p: nat)
    requires Tiled(L, lo, hi) && p in L && End(L, p) == s && !L[p].free
    ensures MergeStart(L, s) == s
  {
    forall q: nat | q in L && End(L, q) == s
      ensures q == p
    {
      assert BlockOk(L, lo, hi, p) && BlockOk(L, lo, hi, q) && Apart(L, p, q) && Apart(L, q, p);
    }
  }

  lemma FirstHasNoPredecessor(L: Layout, lo: nat, hi: nat)
    requires Tiled(L, lo, hi)
    ensures MergeStart(L, lo) == lo
  {
    forall q: nat | q in L
      ensures End(L, q) != lo
    {
      assert BlockOk(L, lo, hi, q);
    }
  }

  lemma MergeRange(L: Layout, lo: nat, hi: nat, s: nat)
    requires Tiled(L, lo, hi) && s in L
    ensures MergeStart(L, s) in L && lo <= MergeStart(L, s) <= s < End(L, s) <= MergeEnd(L, s) <= hi
    ensures MergeEnd(L, s) == hi || MergeEnd(L, s) in L
    ensures MIN_WORDS <= MergeEnd(L, s) - MergeStart(L, s)
  {
    assert BlockOk(L, lo, hi, s);
    var n := End(L, s);
    if n in L {
      assert BlockOk(L, lo, hi, n);
    }
    var a := MergeStart(L, s);
    assert a == s || FreePredecessor(L, s, a);
    assert BlockOk(L, lo, hi, a);
  }

  /** A block is one of the (at most three) merged ones or lies wholly outside the merged run. */
  lemma MergeSeparates(L: Layout, lo: nat, hi: nat, s: nat, t: nat)
    requires Tiled(L, lo, hi) && s in L && t in L
    ensures var a, b := MergeStart(L, s), MergeEnd(L, s);
      || (a <= t && End(L, t) <= b && (t == s || ((t == a || t == End(L, s)) && L[t].free)))
      || End(L, t) <= a
      || b <= t
  {
    MergeRange(L, lo, hi, s);
    var a, b, n := MergeStart(L, s), MergeEnd(L, s), End(L, s);
    assert a == s || FreePredecessor(L, s, a);
    assert BlockOk(L, lo, hi, t) && BlockOk(L, lo, hi, a) && BlockOk(L, lo, hi, s);
    assert Apart(L, t, a) && Apart(L, a, t) && Apart(L, t, s) && Apart(L, s, t);
    if n in L {
      assert BlockOk(L, lo, hi, n) && Apart(L, n, t) && Apart(L, t, n);
    }
  }

  lemma FreeBlockTiled(L: Layout, lo: nat, hi: nat, s: nat)
    requires Tiled(L, lo, hi) && s in L
    ensures MergeStart(L, s) <= MergeEnd(L, s)
    ensures Tiled(FreeBlock(L, s), lo, hi)
  {
    MergeRange(L, lo, hi, s);
    var a, b := MergeStart(L, s), MergeEnd(L, s);
    var M := FreeBlock(L, s);
    assert BlockOk(L, lo, hi, a) && BlockOk(L, lo, hi, lo);
    MergeSeparates(L, lo, hi, s, lo);
    forall t | t in M
      ensures BlockOk(M, lo, hi, t)
    {
      MergeSeparates(L, lo, hi, s, t);
      assert BlockOk(L, lo, hi, t);
      if t == a && b != hi {
        assert b in M;
      } else if t != a && End(L, t) != hi {
        MergeSeparates(L, lo, hi, s, End(L, t));
      }
    }
    forall t, u | t in M && u in M
      ensures Apart(M, t, u)
    {
      MergeSeparates(L, lo, hi, s, t);
      MergeSeparates(L, lo, hi, s, u);
      assert Apart(L, t, u);
    }
  }

  lemma FreeBlockCoalesced(L: Layout, lo: nat, hi: nat, s: nat)
    requires LayoutOk(L, lo, hi) && s in L
    ensures Coalesced(FreeBlock(L, s))
  {
    MergeRange(L, lo, hi, s);
    var a, b, n := MergeStart(L, s), MergeEnd(L, s), End(L, s);
    var M := FreeBlock(L, s);
    assert a == s || FreePredecessor(L, s, a);
    forall t, u | t in M && u in M
      ensures NotBothFree(M, t, u)
    {
      if End(M, t) == u && M[t].free {
        MergeSeparates(L, lo, hi, s, t);
        MergeSeparates(L, lo, hi, s, u);
        assert NotBothFree(L, t, u);
        if t == a {
          assert u == b != a;
          if n in L && L[n].free {
            assert NotBothFree(L, n, u);
          }
        } else if u == a {
          if a == s {
            assert FreePredecessor(L, s, t);
            MergeStartUnique(L, lo, hi, s, t);
            assert false;
          }
        }
      }
    }
  }

  /** Freeing a live block keeps the tiling and the coalescing and takes just that block out of use. */
  lemma FreeBlockOk(L: Layout, lo: nat, hi: nat, s: nat)
    requires LayoutOk(L, lo, hi) && s in Live(L)
    ensures MergeStart(L, s) <= MergeEnd(L, s)
    ensures LayoutOk(FreeBlock(L, s), lo, hi)
    ensures Live(FreeBlock(L, s)) == Live(L) - {s}
    ensures forall t :: t in Live(L) - {s} ==> FreeBlock(L, s)[t] == L[t]
  {
    FreeBlockTiled(L, lo, hi, s);
    FreeBlockCoalesced(L, lo, hi, s);
    MergeRange(L, lo, hi, s);
    assert MergeStart(L, s) == s || FreePredecessor(L, s, MergeStart(L, s));
    var M := FreeBlock(L, s);
    forall t | t in Live(L) - {s}
      ensures t in Live(M) && M[t] == L[t]
    {
      MergeSeparates(L, lo, hi, s, t);
      assert BlockOk(L, lo, hi, t);
    }
    forall t | t in Live(M)
      ensures t in Live(L) - {s}
    {
      assert M[t] == L[t];
    }
  }

  // ----- Allocation -----

  ghost predicate Splits(L: Layout, s: nat, w: nat)
    requires s in L
  {
    w + MIN_WORDS <= L[s].len
  }

  /** What handing out `w` words of the free block `s` does to the layout. */
  ghost function Carve(L: Layout, s: nat, w: nat): Layout
    requires s in L
  {
    if Splits(L, s, w)
    then L[s := Block(w, false)][s + w := Block(L[s].len - w, true)]
    else L[s := Block(L[s].len, false)]
  }

  lemma CarveTiled(L: Layout, lo: nat, hi: nat, s: nat, w: nat)
    requires Tiled(L, lo, hi) && s in L
    requires Splits(L, s, w) ==> MIN_WORDS <= w
    ensures Tiled(Carve(L, s, w), lo, hi)
    ensures Splits(L, s, w) ==> s + w !in L
  {
    var M := Carve(L, s, w);
    assert BlockOk(L, lo, hi, s);
    assert s + w in L ==> Apart(L, s, s + w);
    forall t | t in M
      ensures BlockOk(M, lo, hi, t)
    {
      if t in L {
        assert BlockOk(L, lo, hi, t);
      }
    }
    forall t, u | t in M && u in M
      ensures Apart(M, t, u)
    {
      if t in L && u in L {
        assert Apart(L, t, u);
      } else if t in L {
        assert Apart(L, t, s) && Apart(L, s, t);
      } else if u in L {
        assert Apart(L, s, u);
      }
    }
  }

  /** Carving keeps the tiling and the coalescing and adds just the carved block to the live ones. */
  lemma CarveOk(L: Layout, lo: nat, hi: nat, s: nat, w: nat)
    requires LayoutOk(L, lo, hi) && s in L && L[s].free
    requires Splits(L, s, w) ==> MIN_WORDS <= w
    ensures LayoutOk(Carve(L, s, w), lo, hi)
    ensures Live(Carve(L, s, w)) == Live(L) + {s}
    ensures forall t :: t in Live(L) ==> Carve(L, s, w)[t] == L[t]
    ensures Splits(L, s, w) ==> s + w !in L
  {
    CarveTiled(L, lo, hi, s, w);
    var M := Carve(L, s, w);
    forall t, u | t in M && u in M
      ensures NotBothFree(M, t, u)
    {
      if t in L && u in L {
        assert NotBothFree(L, t, u);
      } else if u in L {
        assert NotBothFree(L, s, u);
      } else if t in L && t != s {
        assert Apart(L, t, s) && Apart(L, s, t) && BlockOk(L, lo, hi, t) && BlockOk(L, lo, hi, s);
      }
    }
  }

  // ----- Consequences for whole runs -----

  /** No word belongs to two blocks. */
  lemma Disjoint(L: Layout, lo: nat, hi: nat, s: nat, t: nat, k: nat)
    requires Tiled(L, lo, hi) && s in L && t in L && s <= k < End(L, s) && t <= k < End(L, t)
    ensures s == t
  {
    assert Apart(L, s, t) && Apart(L, t, s);
  }

  ghost function Sum(L: Layout, starts: seq<nat>): nat
    requires forall i :: 0 <= i < |starts| ==> starts[i] in L
  {
    if starts == [] then 0 else L[starts[0]].len + Sum(L, starts[1..])
  }

  /** The headers met when walking from `s` by block sizes. */
  ghost function Walk(L: Layout, lo: nat, hi: nat, s: nat): (w: seq<nat>)
    requires Tiled(L, lo, hi) && (s == hi || s in L)
    ensures forall i :: 0 <= i < |w| ==> w[i] in L && s <= w[i]
    decreases hi - s
  {
    if s == hi || !BlockOk(L, lo, hi, s) then [] else [s] + Walk(L, lo, hi, End(L, s))
  }

  /** The sizes of the blocks met add up to the rest of the pool. */
  lemma {:induction false} SizesSum(L: Layout, lo: nat, hi: nat, s: nat)
    requires Tiled(L, lo, hi) && (s == hi || s in L)
    ensures Sum(L, Walk(L, lo, hi, s)) == hi - s
    decreases hi - s
  {
    if s in L {
      assert BlockOk(L, lo, hi, s);
      SizesSum(L, lo, hi, End(L, s));
      assert Walk(L, lo, hi, s)[1..] == Walk(L, lo, hi, End(L, s));
    }
  }

  /** The walk meets every block, each once and in address order. */
  lemma {:induction false} WalkMeetsAll(L: Layout, lo: nat, hi: nat, s: nat, t: nat)
    requires Tiled(L, lo, hi) && (s == hi || s in L)
    ensures t in L && s <= t ==> t in Walk(L, lo, hi, s)
    ensures forall i, j :: 0 <= i < j < |Walk(L, lo, hi, s)| ==> Walk(L, lo, hi, s)[i] < Walk(L, lo, hi, s)[j]
    decreases hi - s
  {
    assert t in L ==> BlockOk(L, lo, hi, t);
    if s in L {
      var e := End(L, s);
      assert BlockOk(L, lo, hi, s) && (t in L ==> Apart(L, s, t));
      WalkMeetsAll(L, lo, hi, e, t);
      assert Walk(L, lo, hi, s) == [s] + Walk(L, lo, hi, e);
    }
  }

  /** Once nothing is live the pool is one free block. */
  lemma NothingLive(L: Layout, lo: nat, hi: nat)
    requires LayoutOk(L, lo, hi) && Live(L) == {}
    ensures lo <= hi && L == Whole(lo, hi)
  {
    assert BlockOk(L, lo, hi, lo);
    assert forall s :: s in L ==> s in Live(L) || L[s].free;
    var n := End(L, lo);
    assert n in L ==> NotBothFree(L, lo, n);
    forall s | s in L
      ensures s == lo
    {
      assert BlockOk(L, lo, hi, s) && Apart(L, lo, s);
    }
  }

  ghost function FreeMany(L: Layout, order: seq<nat>): Layout {
    if order == [] then L
    else if order[0] in L then FreeMany(FreeBlock(L, order[0]), order[1..])
    else L
  }

  /** Freeing all live blocks, in whatever order, restores one free block covering the pool. */
  lemma {:induction false} FreeAllRestores(L: Layout, lo: nat, hi: nat, order: seq<nat>)
    requires LayoutOk(L, lo, hi)
    requires forall i, j :: 0 <= i < j < |order| ==> order[i] != order[j]
    requires (set s | s in order) == Live(L)
    ensures lo <= hi && FreeMany(L, order) == Whole(lo, hi)
    decreases |order|
  {
    if order == [] {
      NothingLive(L, lo, hi);
    } else {
      var s := order[0];
      assert s in Live(L);
      FreeBlockOk(L, lo, hi, s);
      assert forall t :: t in order <==> t == s || t in order[1..];
      assert s !in order[1..];
      FreeAllRestores(FreeBlock(L, s), lo, hi, order[1..]);
    }
  }
}
