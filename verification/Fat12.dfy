/**
 The FAT12 table of the floppy image builder: 12-bit entries packed two to three bytes,
 and the cluster chains built in it.
 */
module Fat12 {
  import opened ByteTypes

  const SECTOR_SIZE: nat := 512
  const TABLE_SIZE: nat := 9 * SECTOR_SIZE

  /** How many 12-bit entries the table holds; scanning further is an index error. */
  const ENTRIES: nat := 3072

  const END_OF_CHAIN: nat := 0xFFF

  type Table = t: Bytes | |t| == TABLE_SIZE witness seq(TABLE_SIZE, i => 0)

  // ----- Packed entries -----

  function Offset(c: nat): nat {
    c + c / 2
  }

  function GetEntry(t: Table, c: nat): nat
    requires c < ENTRIES
  {
    var o := Offset(c);
    if c % 2 == 1 then t[o] / 0x10 + t[o + 1] as int * 0x10 else t[o] + t[o + 1] as int % 0x10 * 0x100
  }

  function SetEntry(t: Table, c: nat, value: nat): Table
    requires c < ENTRIES
  {
    var o := Offset(c);
    if c % 2 == 1
    then t[o := t[o] % 0x10 + value % 0x10 * 0x10][o + 1 := value / 0x10 % 0x100]
    else t[o := value % 0x100][o + 1 := t[o + 1] as int / 0x10 * 0x10 + value / 0x100 % 0x10]
  }

  /** Three bytes hold two entries, the lower one in the lower 12 bits. */
  lemma PairPacked(t: Table, p: nat)
    requires 2 * p + 1 < ENTRIES
    ensures GetEntry(t, 2 * p) < 0x1000 && GetEntry(t, 2 * p + 1) < 0x1000
    ensures GetEntry(t, 2 * p) + 0x1000 * GetEntry(t, 2 * p + 1)
            == t[3 * p] as int + 0x100 * (t[3 * p + 1] as int) + 0x1_0000 * (t[3 * p + 2] as int)
  {
    assert Offset(2 * p) == 3 * p && Offset(2 * p + 1) == 3 * p + 1;
    var b: int := t[3 * p + 1];
    assert b == b / 0x10 * 0x10 + b % 0x10;
  }

  lemma Nibbles(low: int, high: int)
    requires 0 <= low < 0x10 && 0 <= high < 0x10
    ensures (low + high * 0x10) % 0x10 == low && (low + high * 0x10) / 0x10 == high
  {
  }

  lemma DivMod(v: nat, d: nat, q: nat, r: nat)
    requires (d == 0x10 || d == 0x100 || d == 0x1000) && v == d * q + r && r < d
    ensures v / d == q && v % d == r
  {
  }

  lemma Digits(v: nat, q: nat, a: nat, b: nat, c: nat)
    requires v == 0x1000 * q + 0x100 * a + 0x10 * b + c && a < 0x10 && b < 0x10 && c < 0x10
    ensures v % 0x1000 == 0x100 * a + 0x10 * b + c
    ensures v % 0x10 == c && v / 0x10 % 0x100 == 0x10 * a + b
    ensures v % 0x100 == 0x10 * b + c && v / 0x100 % 0x10 == a
  {
    DivMod(v, 0x1000, q, 0x100 * a + 0x10 * b + c);
    DivMod(v, 0x10, 0x100 * q + 0x10 * a + b, c);
    DivMod(0x100 * q + 0x10 * a + b, 0x100, q, 0x10 * a + b);
    DivMod(v, 0x100, 0x10 * q + a, 0x10 * b + c);
    DivMod(0x10 * q + a, 0x10, q, a);
  }

  lemma TwelveBits(v: nat)
    ensures v % 0x10 + v / 0x10 % 0x100 * 0x10 == v % 0x1000
    ensures v % 0x100 + v / 0x100 % 0x10 * 0x100 == v % 0x1000
  {
    var v1, c := v / 0x10, v % 0x10;
    var v2, b := v1 / 0x10, v1 % 0x10;
    Digits(v, v2 / 0x10, v2 % 0x10, b, c);
  }

  /** Entries of different pairs share no byte. */
  lemma OtherPair(t: Table, c: nat, value: nat, e: nat)
    requires c < ENTRIES && e < ENTRIES && c / 2 != e / 2
    ensures GetEntry(SetEntry(t, c, value), e) == GetEntry(t, e)
  {
    var p, q := e / 2, c / 2;
    assert Offset(e) == 3 * p + e % 2 && Offset(c) == 3 * q + c % 2;
  }

  lemma SamePair(t: Table, c: nat, value: nat, e: nat)
    requires c < ENTRIES && e < ENTRIES && c / 2 == e / 2
    ensures GetEntry(SetEntry(t, c, value), e) == if e == c then value % 0x1000 else GetEntry(t, e)
  {
    var q := c / 2;
    assert Offset(e) == 3 * q + e % 2 && Offset(c) == 3 * q + c % 2;
    TwelveBits(value);
    var mid := t[3 * q + 1] as int;
    Nibbles(mid % 0x10, value % 0x10);
    Nibbles(value / 0x100 % 0x10, mid / 0x10);
  }

  /** An entry reads back as the 12 bits stored, and every other entry, even one sharing a byte, is unchanged. */
  lemma SetGet(t: Table, c: nat, value: nat, e: nat)
    requires c < ENTRIES && e < ENTRIES
    ensures GetEntry(SetEntry(t, c, value), e) == if e == c then value % 0x1000 else GetEntry(t, e)
  {
    hide GetEntry, SetEntry;
    if c / 2 == e / 2 {
      SamePair(t, c, value, e);
    } else {
      OtherPair(t, c, value, e);
    }
  }

  // ----- Allocation -----

  /** The entries from 2 up to `u` are in use and the rest are free. */
  ghost predicate Filled(t: Table, u: nat) {
    2 <= u <= ENTRIES && forall c :: 2 <= c < ENTRIES ==> (GetEntry(t, c) == 0 <==> u <= c)
  }

  datatype Allocation = Allocated(cluster: nat) | IndexError

  /** Scans for a free entry, links `prev` to it unless `prev` is 0, and leaves the entry itself free. */
  method AllocateCluster(fat: array<Byte>, prev: nat, ghost u: nat) returns (r: Allocation)
    requires fat.Length == TABLE_SIZE && prev < ENTRIES && Filled(fat[..], u)
    modifies fat
    ensures r == if u < ENTRIES then Allocated(u) else IndexError
    ensures fat[..] == if u < ENTRIES && prev > 0 then SetEntry(old(fat[..]), prev, u) else old(fat[..])
  {
    hide GetEntry, SetEntry;
    var cluster := 2;
    while cluster < 4084
      invariant 2 <= cluster <= u && fat[..] == old(fat[..])
    {
      if cluster >= ENTRIES {
        return IndexError;
      }
      if GetEntry(fat[..], cluster) == 0 {
        if prev > 0 {
          Store(fat, prev, cluster);
        }
        return Allocated(cluster);
      }
      cluster := cluster + 1;
    }
    r := IndexError;
  }

  method Store(fat: array<Byte>, c: nat, value: nat)
    requires fat.Length == TABLE_SIZE && c < ENTRIES
    modifies fat
    ensures fat[..] == SetEntry(old(fat[..]), c, value)
  {
    var o := c + c / 2;
    if c % 2 == 1 {
      fat[o] := fat[o] % 0x10 + value % 0x10 * 0x10;
      fat[o + 1] := value / 0x10 % 0x100;
    } else {
      fat[o] := value % 0x100;
      fat[o + 1] := fat[o + 1] as int / 0x10 * 0x10 + value / 0x100 % 0x10;
    }
  }

  // ----- Chains -----

  /** How many clusters a file of `size` bytes asks for; an empty file asks for one. */
  function ClustersNeeded(size: nat): nat {
    var n := (size + SECTOR_SIZE - 1) / SECTOR_SIZE;
    if n == 0 then 1 else n
  }

  /** Entries `u` up to `e` form one strictly increasing chain with an end mark. */
  ghost predicate ChainAt(t: Table, u: nat, e: nat)
    requires e <= ENTRIES
  {
    forall c :: u <= c < e ==> GetEntry(t, c) == if c + 1 < e then c + 1 else END_OF_CHAIN
  }

  /** The cluster that the `i`th allocation for a file returns: each is returned twice. */
  function Nth(u: nat, i: nat): nat {
    u + i / 2
  }

  /** Entry `e` after `i` allocations from a table filled up to `u`. */
  ghost function Midway(t0: Table, u: nat, i: nat, e: nat): nat
    requires 1 <= i && e < ENTRIES
  {
    var prev := Nth(u, i - 1);
    if u <= e < prev then e + 1
    else if e == prev then if i % 2 == 0 then prev else 0
    else GetEntry(t0, e)
  }

  ghost predicate Building(t0: Table, t: Table, u: nat, i: nat)
    requires 1 <= i
  {
    Nth(u, i - 1) < ENTRIES && forall e :: 0 <= e < ENTRIES ==> GetEntry(t, e) == Midway(t0, u, i, e)
  }

  lemma BuildingFilled(t0: Table, t: Table, u: nat, i: nat)
    requires 1 <= i && Filled(t0, u) && Building(t0, t, u, i)
    ensures Filled(t, Nth(u, i))
  {
    hide GetEntry, SetEntry;
  }

  lemma BuildingStep(t0: Table, t: Table, u: nat, i: nat)
    requires 1 <= i && Filled(t0, u) && Building(t0, t, u, i) && Nth(u, i) < ENTRIES
    ensures Building(t0, SetEntry(t, Nth(u, i - 1), Nth(u, i)), u, i + 1)
  {
    hide GetEntry, SetEntry;
    var t' := SetEntry(t, Nth(u, i - 1), Nth(u, i));
    forall e | 0 <= e < ENTRIES
      ensures GetEntry(t', e) == Midway(t0, u, i + 1, e)
    {
      SetGet(t, Nth(u, i - 1), Nth(u, i), e);
    }
  }

  lemma BuildingEnds(t0: Table, t: Table, u: nat, n: nat)
    requires 1 <= n && Filled(t0, u) && Building(t0, t, u, n)
    ensures var t', e := SetEntry(t, Nth(u, n - 1), END_OF_CHAIN), Nth(u, n - 1) + 1;
      && ChainAt(t', u, e) && Filled(t', e)
      && (forall c :: 0 <= c < u ==> GetEntry(t', c) == GetEntry(t0, c))
  {
    hide GetEntry, SetEntry;
    var t' := SetEntry(t, Nth(u, n - 1), END_OF_CHAIN);
    forall c | 0 <= c < ENTRIES
      ensures GetEntry(t', c) == if c == Nth(u, n - 1) then END_OF_CHAIN else Midway(t0, u, n, c)
    {
      SetGet(t, Nth(u, n - 1), END_OF_CHAIN, c);
    }
  }

  datatype Result = Chained(clusters: seq<nat>) | TableFull

  /** Allocates the chain of a file that needs `n` clusters in a table filled up to `u`. */
  method AddFile(fat: array<Byte>, n: nat, ghost u: nat) returns (r: Result)
    requires fat.Length == TABLE_SIZE && 1 <= n && Filled(fat[..], u)
    modifies fat
    ensures r.Chained? <==> u + (n + 1) / 2 <= ENTRIES
    ensures r.Chained? ==>
      && |r.clusters| == n && (forall i :: 0 <= i < n ==> r.clusters[i] == u + i / 2)
      && ChainAt(fat[..], u, u + (n + 1) / 2)
      && Filled(fat[..], u + (n + 1) / 2)
      && (forall c :: 0 <= c < u ==> GetEntry(fat[..], c) == GetEntry(old(fat[..]), c))
  {
    hide GetEntry, SetEntry;
    ghost var t0 := fat[..];
    var first := AllocateCluster(fat, 0, u);
    if first.IndexError? {
      return TableFull;
    }
    var prev, clusters, i := first.cluster, [first.cluster], 1;
    while i < n
      invariant 1 <= i <= n && |clusters| == i && prev == Nth(u, i - 1)
      invariant forall k :: 0 <= k < i ==> clusters[k] == Nth(u, k)
      invariant Building(t0, fat[..], u, i)
    {
      BuildingFilled(t0, fat[..], u, i);
      ghost var t := fat[..];
      var next := AllocateCluster(fat, prev, Nth(u, i));
      if next.IndexError? {
        return TableFull;
      }
      BuildingStep(t0, t, u, i);
      prev, clusters, i := next.cluster, clusters + [next.cluster], i + 1;
    }
    BuildingEnds(t0, fat[..], u, n);
    Store(fat, prev, END_OF_CHAIN);
    r := Chained(clusters);
  }

  // ----- Whole runs -----

  /** The first free cluster after files needing `ns` clusters, from a table filled up to `u`. */
  function Next(u: nat, ns: seq<nat>): nat {
    if ns == [] then u else Next(u, ns[..|ns| - 1]) + (ns[|ns| - 1] + 1) / 2
  }

  /** The `i`th file's chain is the run of entries behind the earlier files' chains. */
  ghost predicate FileChain(t: Table, ns: seq<nat>, i: nat)
    requires i < |ns|
  {
    var start, end := Next(2, ns[..i]), Next(2, ns[..i + 1]);
    start < end <= ENTRIES && ChainAt(t, start, end)
  }

  lemma NextStep(ns: seq<nat>, i: nat)
    requires i < |ns|
    ensures Next(2, ns[..i + 1]) == Next(2, ns[..i]) + (ns[i] + 1) / 2
  {
    assert ns[..i + 1][..i] == ns[..i];
  }

  lemma {:induction false} NextMono(ns: seq<nat>, i: nat)
    requires i <= |ns|
    ensures 2 <= Next(2, ns[..i]) <= Next(2, ns)
    decreases |ns| - i
  {
    if i < |ns| {
      NextStep(ns, i);
      NextMono(ns, i + 1);
      NextLeast(ns[..i]);
    } else {
      assert ns[..i] == ns;
      NextLeast(ns);
    }
  }

  lemma {:induction false} NextLeast(ns: seq<nat>)
    ensures 2 <= Next(2, ns)
  {
    if ns != [] {
      NextLeast(ns[..|ns| - 1]);
    }
  }

  /** Adding a chain at `u` leaves the chains below it alone. */
  lemma ChainKept(t: Table, t': Table, ns: seq<nat>, i: nat, u: nat)
    requires i < |ns| && u <= ENTRIES && FileChain(t, ns, i) && Next(2, ns[..i + 1]) <= u
    requires forall c :: 0 <= c < u ==> GetEntry(t', c) == GetEntry(t, c)
    ensures FileChain(t', ns, i)
  {
    hide GetEntry, Next;
  }

  /** Adds files in turn; their chains are consecutive runs, so disjoint, and no later file changes an earlier chain. */
  method AddFiles(fat: array<Byte>, ns: seq<nat>) returns (ok: bool)
    requires fat.Length == TABLE_SIZE && Filled(fat[..], 2) && forall i :: 0 <= i < |ns| ==> 1 <= ns[i]
    modifies fat
    ensures ok <==> Next(2, ns) <= ENTRIES
    ensures ok ==> Filled(fat[..], Next(2, ns)) && forall i :: 0 <= i < |ns| ==> FileChain(fat[..], ns, i)
  {
    hide GetEntry, Filled, ChainAt, FileChain;
    var i := 0;
    while i < |ns|
      invariant 0 <= i <= |ns| && 2 <= Next(2, ns[..i]) <= ENTRIES
      invariant Filled(fat[..], Next(2, ns[..i]))
      invariant forall k :: 0 <= k < i ==> FileChain(fat[..], ns, k)
    {
      ghost var t, u := fat[..], Next(2, ns[..i]);
      NextStep(ns, i);
      NextMono(ns, i + 1);
      var r := AddFile(fat, ns[i], u);
      if r.TableFull? {
        return false;
      }
      forall k | 0 <= k < i
        ensures FileChain(fat[..], ns, k)
      {
        NextMono(ns[..i], k + 1);
        assert ns[..i][..k + 1] == ns[..k + 1];
        ChainKept(t, fat[..], ns, k, u);
      }
      assert FileChain(fat[..], ns, i) by {
        NewChain(fat[..], ns, i);
      }
      i := i + 1;
    }
    assert ns[..i] == ns;
    ok := true;
  }

  lemma NewChain(t: Table, ns: seq<nat>, i: nat)
    requires i < |ns| && 1 <= ns[i] && Next(2, ns[..i]) + (ns[i] + 1) / 2 <= ENTRIES
    requires ChainAt(t, Next(2, ns[..i]), Next(2, ns[..i]) + (ns[i] + 1) / 2)
    ensures FileChain(t, ns, i)
  {
    NextStep(ns, i);
  }

  /** The table as it is created: the media descriptor, an end mark and free entries. */
  function FreshTable(): Table {
    [0xF0, 0xFF, 0xFF] + seq<Byte>(TABLE_SIZE - 3, i => 0)
  }

  lemma FreshFilled()
    ensures GetEntry(FreshTable(), 0) == 0xFF0 && GetEntry(FreshTable(), 1) == 0xFFF && Filled(FreshTable(), 2)
  {
    forall c | 2 <= c < ENTRIES
      ensures GetEntry(FreshTable(), c) == 0
    {
      assert Offset(c) >= 3;
    }
  }

  /** A chain holds the whole file exactly when the file fits one sector. */
  lemma ChainHoldsFile(size: nat)
    ensures SECTOR_SIZE * ((ClustersNeeded(size) + 1) / 2) >= size <==> size <= SECTOR_SIZE
  {
  }
}
