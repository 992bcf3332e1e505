/**
 The fixed-size hash table with linear probing, compared with a finite map. Keys that
 compare equal are one key of the model; the hash function is any function of the key.
 */
module HashTable {
  import opened ByteTypes
  import opened Options

  const SIZE: nat := 32

  datatype Entry<K, V> = Unused | Used(key: K, value: V)

  type Table<K, V> = s: seq<Entry<K, V>> | |s| == SIZE witness seq(SIZE, i => Unused)

  /** The slot tried at step `i`, in 32-bit arithmetic. */
  function Probe(h: UInt32, i: nat): (slot: nat)
    ensures slot < SIZE
  {
    (h + i) % 0x1_0000_0000 % SIZE
  }

  /** Wrapping the sum at 32 bits does no harm, because 32 divides 2^32. */
  lemma ProbeMod(h: UInt32, i: nat)
    ensures Probe(h, i) == (h + i) % SIZE
  {
  }

  lemma ProbeInjective(h: UInt32, i: nat, j: nat)
    requires i < SIZE && j < SIZE && Probe(h, i) == Probe(h, j)
    ensures i == j
  {
    ProbeMod(h, i);
    ProbeMod(h, j);
  }

  lemma ProbeCovers(h: UInt32, slot: nat) returns (i: nat)
    requires slot < SIZE
    ensures i < SIZE && Probe(h, i) == slot
  {
    var r := h % SIZE;
    i := if r <= slot then slot - r else slot + SIZE - r;
    ProbeMod(h, i);
  }

  // ----- What the probing loops compute -----

  /** The first step from `i` on whose slot is unused or holds `k`; `SIZE` if there is none. */
  function FindStep<K(==), V>(s: Table<K, V>, h: UInt32, k: K, i: nat): (r: nat)
    requires i <= SIZE
    ensures i <= r <= SIZE
    decreases SIZE - i
  {
    if i == SIZE || s[Probe(h, i)].Unused? || s[Probe(h, i)].key == k then i else FindStep(s, h, k, i + 1)
  }

  lemma {:induction false} FindStepFirst<K, V>(s: Table<K, V>, h: UInt32, k: K, i: nat)
    requires i <= SIZE
    ensures var r := FindStep(s, h, k, i);
      && (r < SIZE ==> s[Probe(h, r)].Unused? || s[Probe(h, r)].key == k)
      && (forall j :: i <= j < r ==> s[Probe(h, j)].Used? && s[Probe(h, j)].key != k)
    decreases SIZE - i
  {
    if i < SIZE && !s[Probe(h, i)].Unused? && s[Probe(h, i)].key != k {
      FindStepFirst(s, h, k, i + 1);
    }
  }

  function LookupIn<K(==), V>(s: Table<K, V>, h: UInt32, k: K): Option<V> {
    var i := FindStep(s, h, k, 0);
    if i < SIZE && s[Probe(h, i)].Used? then Some(s[Probe(h, i)].value) else None
  }

  function InsertIn<K(==), V>(s: Table<K, V>, h: UInt32, k: K, v: V): Table<K, V> {
    var i := FindStep(s, h, k, 0);
    if i == SIZE then s
    else if s[Probe(h, i)].Unused? then s[Probe(h, i) := Used(k, v)]
    else s[Probe(h, i) := Used(s[Probe(h, i)].key, v)]
  }

  function UsedCount<K, V>(s: seq<Entry<K, V>>): nat {
    if s == [] then 0 else UsedCount(s[..|s| - 1]) + if s[|s| - 1].Used? then 1 else 0
  }

  lemma {:induction false} UsedCountUpdate<K, V>(s: seq<Entry<K, V>>, i: nat, e: Entry<K, V>)
    requires i < |s|
    ensures UsedCount(s[i := e]) == UsedCount(s) + (if e.Used? then 1 else 0) - (if s[i].Used? then 1 else 0)
    decreases |s|
  {
    var n := |s| - 1;
    if i < n {
      UsedCountUpdate(s[..n], i, e);
      assert s[i := e][..n] == s[..n][i := e];
    } else {
      assert s[i := e][..n] == s[..n];
    }
  }

  lemma {:induction false} UsedCountFull<K, V>(s: seq<Entry<K, V>>)
    ensures UsedCount(s) <= |s|
    ensures UsedCount(s) == |s| <==> forall i :: 0 <= i < |s| ==> s[i].Used?
    ensures UsedCount(s) == 0 <==> forall i :: 0 <= i < |s| ==> s[i].Unused?
  {
    if s != [] {
      UsedCountFull(s[..|s| - 1]);
    }
  }

  // ----- The table as a map -----

  /** Key `k` stands at step `at` of its own probe sequence, behind used slots only. */
  ghost predicate Placed<K, V>(s: Table<K, V>, h: UInt32, k: K, v: V, at: nat) {
    && at < SIZE && s[Probe(h, at)] == Used(k, v)
    && forall j :: 0 <= j < at ==> s[Probe(h, j)].Used?
  }

  ghost predicate Represents<K(!new), V>(s: Table<K, V>, hash: K -> UInt32, m: map<K, V>, at: map<K, nat>) {
    && at.Keys == m.Keys
    && (forall k {:trigger k in m} :: k in m ==> Placed(s, hash(k), k, m[k], at[k]))
    && (forall i :: 0 <= i < SIZE && s[i].Used? ==> s[i].key in m && i == Probe(hash(s[i].key), at[s[i].key]))
  }

  /** Probing for `k` stops at the slot that holds it, or else finds that the map lacks it. */
  lemma FindStepDecides<K(!new), V>(s: Table<K, V>, hash: K -> UInt32, m: map<K, V>, at: map<K, nat>, k: K)
    requires Represents(s, hash, m, at)
    ensures var i := FindStep(s, hash(k), k, 0);
      && (k in m <==> i < SIZE && s[Probe(hash(k), i)].Used?)
      && (k in m ==> i == at[k] && s[Probe(hash(k), i)] == Used(k, m[k]))
      && (i == SIZE ==> forall j :: 0 <= j < SIZE ==> s[j].Used?)
  {
    var h := hash(k);
    var i := FindStep(s, h, k, 0);
    FindStepFirst(s, h, k, 0);
    if k in m {
      assert Placed(s, h, k, m[k], at[k]);
      if i < at[k] {
        assert s[Probe(h, i)].Used?;
        ProbeInjective(h, i, at[k]);
        assert false;
      }
    }
    if i == SIZE {
      forall j | 0 <= j < SIZE
        ensures s[j].Used?
      {
        var e := ProbeCovers(h, j);
      }
    }
  }

  /** Lookup returns the map's value. */
  lemma LookupRefines<K(!new), V>(s: Table<K, V>, hash: K -> UInt32, m: map<K, V>, at: map<K, nat>, k: K)
    requires Represents(s, hash, m, at)
    ensures LookupIn(s, hash(k), k) == if k in m then Some(m[k]) else None
  {
    FindStepDecides(s, hash, m, at, k);
  }

  /** Inserting updates the map, except that a new key is dropped exactly when every slot is used. */
  lemma InsertRefines<K(!new), V>(s: Table<K, V>, hash: K -> UInt32, m: map<K, V>, at: map<K, nat>, k: K, v: V)
    requires Represents(s, hash, m, at)
    ensures var i := FindStep(s, hash(k), k, 0);
      && (i < SIZE <==> k in m || UsedCount(s) < SIZE)
      && (i < SIZE ==> Represents(InsertIn(s, hash(k), k, v), hash, m[k := v], at[k := i]))
      && (i == SIZE ==> InsertIn(s, hash(k), k, v) == s)
      && UsedCount(InsertIn(s, hash(k), k, v)) == UsedCount(s) + if k !in m && UsedCount(s) < SIZE then 1 else 0
  {
    var h := hash(k);
    var i := FindStep(s, h, k, 0);
    FindStepDecides(s, hash, m, at, k);
    FindStepFirst(s, h, k, 0);
    UsedCountFull(s);
    if i < SIZE {
      var s' := InsertIn(s, h, k, v);
      UsedCountUpdate(s, Probe(h, i), Used(k, v));
      InsertPlaced(s, hash, m, at, k, v, i);
    }
  }

  lemma InsertPlaced<K(!new), V>(s: Table<K, V>, hash: K -> UInt32, m: map<K, V>, at: map<K, nat>, k: K, v: V, i: nat)
    requires Represents(s, hash, m, at) && i < SIZE
    requires forall j :: 0 <= j < i ==> s[Probe(hash(k), j)].Used?
    requires if k in m then i == at[k] else s[Probe(hash(k), i)].Unused?
    ensures Represents(s[Probe(hash(k), i) := Used(k, v)], hash, m[k := v], at[k := i])
  {
    hide Probe;
    var slot := Probe(hash(k), i);
    var s' := s[slot := Used(k, v)];
    var m', at' := m[k := v], at[k := i];
    forall q | q in m'
      ensures Placed(s', hash(q), q, m'[q], at'[q])
    {
      if q != k {
        assert Placed(s, hash(q), q, m[q], at[q]);
      }
    }
  }

  lemma CountPositive<K(!new), V>(s: Table<K, V>, hash: K -> UInt32, m: map<K, V>, at: map<K, nat>, k: K)
    requires Represents(s, hash, m, at)
    ensures k in m ==> UsedCount(s) > 0
  {
    UsedCountFull(s);
    if k in m {
      assert Placed(s, hash(k), k, m[k], at[k]);
    }
  }

  /** Emptying the slot of `k` and inserting `k` again fills the same slot, as inserting alone does. */
  lemma ReplaceInPlace<K(!new), V>(s: Table<K, V>, hash: K -> UInt32, m: map<K, V>, at: map<K, nat>, k: K, v: V)
    requires Represents(s, hash, m, at) && k in m
    ensures var s', filled := s[Probe(hash(k), at[k]) := Unused], s[Probe(hash(k), at[k]) := Used(k, v)];
      && InsertIn(s', hash(k), k, v) == filled == InsertIn(s, hash(k), k, v)
      && FindStep(s', hash(k), k, 0) == at[k] && UsedCount(s) >= 1
  {
    var h, i := hash(k), at[k];
    FindStepDecides(s, hash, m, at, k);
    FindStepFirst(s, h, k, 0);
    CountPositive(s, hash, m, at, k);
    var s' := s[Probe(h, i) := Unused];
    forall j | 0 <= j < i
      ensures s'[Probe(h, j)] == s[Probe(h, j)]
    {
      if Probe(h, j) == Probe(h, i) {
        ProbeInjective(h, i, j);
        assert false;
      }
    }
    SkipsTo(s', h, k, 0, i);
  }

  lemma {:induction false} SkipsTo<K, V>(s: Table<K, V>, h: UInt32, k: K, i: nat, r: nat)
    requires i <= r < SIZE && (forall j :: i <= j < r ==> s[Probe(h, j)].Used? && s[Probe(h, j)].key != k)
    requires s[Probe(h, r)].Unused? || s[Probe(h, r)].key == k
    ensures FindStep(s, h, k, i) == r
    decreases r - i
  {
    if i < r {
      SkipsTo(s, h, k, i + 1, r);
    }
  }

  // ----- Removal -----

  /** The probe path of `q` passes over `slot` before it reaches `q`. */
  ghost predicate Crosses<K(!new)>(hash: K -> UInt32, at: map<K, nat>, q: K, slot: nat)
    requires q in at
  {
    exists j :: 0 <= j < at[q] && Probe(hash(q), j) == slot
  }

  /**
   Removing `k` empties its slot without moving anything: another key is still found exactly
   when its probe path does not cross that slot.
   */
  lemma RemoveExact<K(!new), V>(s: Table<K, V>, hash: K -> UInt32, m: map<K, V>, at: map<K, nat>, k: K, q: K)
    requires Represents(s, hash, m, at) && k in m && q in m && q != k
    ensures var slot := Probe(hash(k), at[k]);
      LookupIn(s[slot := Unused], hash(q), q) == (if Crosses(hash, at, q, slot) then None else Some(m[q]))
  {
    hide Probe;
    var h, slot := hash(q), Probe(hash(k), at[k]);
    var s' := s[slot := Unused];
    assert Placed(s, h, q, m[q], at[q]) && Placed(s, hash(k), k, m[k], at[k]);
    FindStepDecides(s, hash, m, at, q);
    FindStepFirst(s, h, q, 0);
    if Crosses(hash, at, q, slot) {
      var j :| 0 <= j < at[q] && Probe(h, j) == slot;
      forall e | 0 <= e < j
        ensures s'[Probe(h, e)] == s[Probe(h, e)]
      {
        if Probe(h, e) == Probe(h, j) {
          ProbeInjective(h, e, j);
          assert false;
        }
      }
      SkipsTo(s', h, q, 0, j);
    } else {
      assert forall e :: 0 <= e < at[q] ==> Probe(h, e) != slot;
      SkipsTo(s', h, q, 0, at[q]);
    }
  }

  // ----- The code -----

  class Hashtable<K(==, !new), V(0)> {
    const hash: K -> UInt32
    const entries: array<Entry<K, V>>
    var count: nat
    ghost var contents: map<K, V>
    ghost var at: map<K, nat>

    ghost predicate Valid()
      reads this, entries
    {
      && entries.Length == SIZE
      && Represents(entries[..], hash, contents, at)
      && count == UsedCount(entries[..]) == |contents|
    }

    constructor (hash: K -> UInt32)
      ensures Valid() && fresh(entries) && this.hash == hash && contents == map[]
    {
      this.hash := hash;
      entries := new Entry<K, V>[SIZE](i => Unused);
      count, contents, at := 0, map[], map[];
      new;
      UsedCountFull(entries[..]);
    }

    /** The loop shared by insert and the second half of replace; it relies on no invariant. */
    method Put(key: K, value: V)
      requires entries.Length == SIZE
      modifies entries, this`count
      ensures entries[..] == InsertIn(old(entries[..]), hash(key), key, value)
      ensures var i := FindStep(old(entries[..]), hash(key), key, 0);
        count == old(count) + if i < SIZE && old(entries[..])[Probe(hash(key), i)].Unused? then 1 else 0
    {
      hide Probe;
      var h := hash(key);
      var i := 0;
      while i < SIZE
        invariant i <= SIZE && entries[..] == old(entries[..]) && count == old(count)
        invariant FindStep(entries[..], h, key, 0) == FindStep(entries[..], h, key, i)
      {
        var idx := Probe(h, i);
        if entries[idx].Unused? {
          entries[idx] := Used(key, value);
          count := count + 1;
          return;
        }
        if entries[idx].key == key {
          entries[idx] := Used(entries[idx].key, value);
          return;
        }
        i := i + 1;
      }
    }

    method Insert(key: K, value: V)
      requires Valid()
      modifies this, entries
      ensures Valid()
      ensures contents ==
        if key in old(contents) || old(count) < SIZE then old(contents)[key := value] else old(contents)
    {
      hide Represents, FindStep, Probe, InsertIn, UsedCount;
      ghost var s := entries[..];
      FindStepDecides(s, hash, contents, at, key);
      InsertRefines(s, hash, contents, at, key, value);
      ghost var i := FindStep(s, hash(key), key, 0);
      Put(key, value);
      if i < SIZE {
        contents, at := contents[key := value], at[key := i];
      }
    }

    method Lookup(key: K) returns (r: Option<V>)
      requires Valid()
      ensures r == if key in contents then Some(contents[key]) else None
    {
      hide Probe, UsedCount, Represents;
      LookupRefines(entries[..], hash, contents, at, key);
      if count == 0 {
        return None;
      }
      var h := hash(key);
      var i := 0;
      while i < SIZE
        invariant i <= SIZE && FindStep(entries[..], h, key, 0) == FindStep(entries[..], h, key, i)
      {
        var idx := Probe(h, i);
        if entries[idx].Unused? {
          return None;
        }
        if entries[idx].key == key {
          return Some(entries[idx].value);
        }
        i := i + 1;
      }
      r := None;
    }

    /** Finds the step at which a probing loop stops. */
    method Seek(key: K) returns (i: nat)
      requires entries.Length == SIZE
      ensures i == FindStep(entries[..], hash(key), key, 0)
    {
      hide Probe;
      var h := hash(key);
      i := 0;
      while i < SIZE && entries[Probe(h, i)].Used? && entries[Probe(h, i)].key != key
        invariant i <= SIZE && FindStep(entries[..], h, key, 0) == FindStep(entries[..], h, key, i)
      {
        i := i + 1;
      }
    }

    /** Empties the key's slot and nothing else; what that does to the other keys is said by RemoveExact. */
    method Remove(key: K) returns (removed: bool)
      requires Valid()
      modifies entries, this`count
      ensures removed <==> key in contents
      ensures entries[..] == if removed then old(entries[..])[Probe(hash(key), at[key]) := Unused] else old(entries[..])
      ensures count == old(count) - if removed then 1 else 0
    {
      hide Represents, FindStep, Probe, UsedCount;
      FindStepDecides(entries[..], hash, contents, at, key);
      CountPositive(entries[..], hash, contents, at, key);
      if count == 0 {
        return false;
      }
      var i := Seek(key);
      if i < SIZE && entries[Probe(hash(key), i)].Used? {
        entries[Probe(hash(key), i)] := Unused;
        count := count - 1;
        return true;
      }
      removed := false;
    }

    /** Empties the old key's slot, then inserts: the result is the same as for insert. */
    method Replace(key: K, value: V)
      requires Valid()
      modifies this, entries
      ensures Valid()
      ensures contents ==
        if key in old(contents) || old(count) < SIZE then old(contents)[key := value] else old(contents)
    {
      hide Represents, FindStep, Probe, InsertIn, UsedCount;
      ghost var s := entries[..];
      FindStepDecides(s, hash, contents, at, key);
      InsertRefines(s, hash, contents, at, key, value);
      var i := Seek(key);
      if i < SIZE && entries[Probe(hash(key), i)].Used? {
        ReplaceInPlace(s, hash, contents, at, key, value);
        entries[Probe(hash(key), i)] := Unused;
        count := count - 1;
      }
      Put(key, value);
      if i < SIZE {
        contents, at := contents[key := value], at[key := i];
      }
    }
  }

  /** Two keys with the same hash: removing the first hides the second. */
  lemma RemoveLosesKey(s: Table<nat, nat>)
    requires s[0] == Used(5, 50) && s[1] == Used(6, 60)
    ensures LookupIn(s, 0, 6) == Some(60) && LookupIn(s[0 := Unused], 0, 6) == None
  {
    assert Probe(0, 0) == 0 && Probe(0, 1) == 1;
    SkipsTo(s, 0, 6, 0, 1);
  }
}
