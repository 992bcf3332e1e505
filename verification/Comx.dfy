/**
 Executable files in the .comx format: the packer, the checksum as the packer and as the kernel
 compute it, and the kernel's decision to load a file and the memory that results.
 */
module Comx {
  import opened ByteTypes
  import opened Options
  import opened Numbers

  const MAGIC: UInt32 := 0x4350_5800
  const VERSION: Byte := 1
  const HEADER_SIZE: nat := 32
  /** The most code the kernel loads. */
  const MAX_CODE: nat := 0x8000
  /** The most code the packer takes. */
  const MAX_PACKED: nat := 0x4_0000
  const USER_START: nat := 0x5_0000
  const USER_END: nat := 0x8_2000

  // ----- The checksum -----

  /** The `n` low binary digits of `v`, least significant first. */
  function Binary(v: nat, n: nat): (d: seq<bool>)
    ensures |d| == n
  {
    if n == 0 then [] else [v % 2 == 1] + Binary(v / 2, n - 1)
  }

  function Weigh(on: bool, word: bv32): bv32 {
    if on then word else 0
  }

  function Word(d: seq<bool>): bv32
    requires |d| == 8
  {
    Weigh(d[0], 1) | Weigh(d[1], 2) | Weigh(d[2], 4) | Weigh(d[3], 8) |
    Weigh(d[4], 16) | Weigh(d[5], 32) | Weigh(d[6], 64) | Weigh(d[7], 128)
  }

  /** A byte as a machine word. */
  function Bits(b: Byte): bv32 {
    Word(Binary(b, 8))
  }

  /** One step: rotate left by three, then exclusive-or the byte. */
  function Mix(sum: bv32, b: Byte): bv32 {
    sum.RotateLeft(3) ^ Bits(b)
  }

  function Checksum(data: Bytes): bv32 {
    if data == [] then 0 else Mix(Checksum(data[..|data| - 1]), data[|data| - 1])
  }

  /** The kernel's 32-bit step. */
  function KernelStep(sum: bv32, b: Byte): bv32 {
    (sum << 3) ^ (sum >> 29) ^ Bits(b)
  }

  /** The packer's step, on integers of more than 32 bits that are cut at the end of the step. */
  function PackerStep(checksum: bv64, b: Byte): bv64 {
    (((checksum << 3) | (checksum >> 29)) ^ (Bits(b) as bv64)) & 0xFFFF_FFFF
  }

  lemma StepsAgree(sum: bv32, b: Byte)
    ensures KernelStep(sum, b) == Mix(sum, b)
    ensures PackerStep(sum as bv64, b) == Mix(sum, b) as bv64
  {
    hide Binary;
  }

  method LoaderChecksum(data: Bytes) returns (sum: bv32)
    ensures sum == Checksum(data)
  {
    sum := 0;
    for i := 0 to |data|
      invariant sum == Checksum(data[..i])
    {
      assert data[..i + 1][..i] == data[..i];
      StepsAgree(sum, data[i]);
      sum := KernelStep(sum, data[i]);
    }
    assert data[..|data|] == data;
  }

  method ComputeChecksum(data: Bytes) returns (checksum: bv64)
    ensures checksum == Checksum(data) as bv64
  {
    checksum := 0;
    hide Mix, PackerStep, Bits, KernelStep;
    for i := 0 to |data|
      invariant checksum == Checksum(data[..i]) as bv64
    {
      assert data[..i + 1][..i] == data[..i];
      StepsAgree(Checksum(data[..i]), data[i]);
      checksum := PackerStep(checksum, data[i]);
    }
    assert data[..|data|] == data;
  }

  lemma {:induction false} BinaryInjective(a: nat, b: nat, n: nat)
    requires a < Power2(n) && b < Power2(n) && Binary(a, n) == Binary(b, n)
    ensures a == b
  {
    if n > 0 {
      assert Binary(a, n)[0] == Binary(b, n)[0];
      assert Binary(a, n)[1..] == Binary(b, n)[1..];
      BinaryInjective(a / 2, b / 2, n - 1);
    }
  }

  lemma WordInjective(c: seq<bool>, d: seq<bool>)
    requires |c| == |d| == 8 && Word(c) == Word(d)
    ensures c == d
  {
    assert c[0] == d[0] && c[1] == d[1] && c[2] == d[2] && c[3] == d[3];
    assert c[4] == d[4] && c[5] == d[5] && c[6] == d[6] && c[7] == d[7];
  }

  lemma BitsInjective(a: Byte, b: Byte)
    requires Bits(a) == Bits(b)
    ensures a == b
  {
    hide Binary, Word;
    WordInjective(Binary(a, 8), Binary(b, 8));
    assert Power2(8) == 0x100;
    BinaryInjective(a, b, 8);
  }

  lemma MixInjective(s: bv32, t: bv32, a: Byte, b: Byte)
    ensures s != t ==> Mix(s, a) != Mix(t, a)
    ensures a != b ==> Mix(s, a) != Mix(s, b)
  {
    hide Bits;
    if Bits(a) == Bits(b) {
      BitsInjective(a, b);
    }
  }

  /** The number a word stands for. */
  function Number(word: bv32): UInt32 {
    word as int
  }

  lemma NumberInjective(s: bv32, t: bv32)
    requires s != t
    ensures Number(s) != Number(t)
  {
    assert Number(s) as bv32 == s && Number(t) as bv32 == t;
  }

  lemma Narrow(s: bv32)
    ensures s as bv64 <= 0xFFFF_FFFF && (s as bv64) as bv32 == s
  {
  }

  /** Two inputs of the same length that differ in one byte have different checksums. */
  lemma {:induction false} OneByteShows(data: Bytes, k: nat, b: Byte)
    requires k < |data| && data[k] != b
    ensures Checksum(data[k := b]) != Checksum(data)
    decreases |data|
  {
    var n := |data| - 1;
    var other := data[k := b];
    if k == n {
      assert other[..n] == data[..n];
      MixInjective(Checksum(data[..n]), Checksum(data[..n]), data[n], b);
    } else {
      assert other[..n] == data[..n][k := b];
      OneByteShows(data[..n], k, b);
      MixInjective(Checksum(data[..n]), Checksum(other[..n]), data[n], data[n]);
    }
  }

  // ----- The file -----

  /** The header in the order of its fields, then the code; none if the packer refuses the code. */
  function Pack(code: Bytes, flags: Byte, entry: UInt32, bss: UInt32, load: UInt32): Option<Bytes> {
    if code == [] || |code| > MAX_PACKED then None
    else Some(HeaderBytes(flags, entry, |code|, bss, load, Number(Checksum(code))) + code)
  }

  function HeaderBytes(flags: Byte, entry: UInt32, size: UInt32, bss: UInt32, load: UInt32, checksum: UInt32)
    : (h: Bytes)
    ensures |h| == HEADER_SIZE
  {
    LittleEndian(MAGIC, 4) + [VERSION, flags] + LittleEndian(0, 2) + LittleEndian(entry, 4) + LittleEndian(size, 4)
    + LittleEndian(bss, 4) + LittleEndian(load, 4) + LittleEndian(checksum, 4) + LittleEndian(0, 4)
  }

  method CreateComx(code: Bytes, flags: Byte, entry: UInt32, bss: UInt32, load: UInt32) returns (file: Option<Bytes>)
    ensures file == Pack(code, flags, entry, bss, load)
  {
    hide Checksum, HeaderBytes, Number;
    if code == [] || |code| > MAX_PACKED {
      return None;
    }
    var checksum := ComputeChecksum(code);
    Narrow(Checksum(code));
    file := Some(HeaderBytes(flags, entry, |code|, bss, load, Number(checksum as bv32)) + code);
  }

  function Field(file: Bytes, at: nat): UInt32
    requires at + 4 <= |file|
  {
    var b0: int, b1: int, b2: int, b3: int := file[at], file[at + 1], file[at + 2], file[at + 3];
    b0 + 0x100 * b1 + 0x1_0000 * b2 + 0x100_0000 * b3
  }

  lemma FieldOf(v: UInt32, file: Bytes, at: nat)
    requires at + 4 <= |file| && file[at..at + 4] == LittleEndian(v, 4)
    ensures Field(file, at) == v
  {
    var b := file[at..at + 4];
    Power256Of4();
    LittleEndianRoundTrip(v, 4);
    var b1, b2, b3 := b[1..], b[1..][1..], b[1..][1..][1..];
    assert b3[1..] == [] && FromLittleEndian(b3) == b[3];
    assert FromLittleEndian(b2) == b[2] + 0x100 * FromLittleEndian(b3);
    assert FromLittleEndian(b1) == b[1] + 0x100 * FromLittleEndian(b2);
    assert FromLittleEndian(b) == b[0] + 0x100 * FromLittleEndian(b1);
  }

  /** Every field of a packed header can be read back at its offset. */
  lemma HeaderFields(flags: Byte, entry: UInt32, size: UInt32, bss: UInt32, load: UInt32, checksum: UInt32, code: Bytes)
    ensures var file := HeaderBytes(flags, entry, size, bss, load, checksum) + code;
      && Field(file, 0) == MAGIC && file[4] == VERSION && file[5] == flags
      && Field(file, 8) == entry && Field(file, 12) == size && Field(file, 16) == bss
      && Field(file, 20) == load && Field(file, 24) == checksum && file[HEADER_SIZE..] == code
  {
    hide LittleEndian, Field;
    var file := HeaderBytes(flags, entry, size, bss, load, checksum) + code;
    FieldOf(MAGIC, file, 0);
    FieldOf(entry, file, 8);
    FieldOf(size, file, 12);
    FieldOf(bss, file, 16);
    FieldOf(load, file, 20);
    FieldOf(checksum, file, 24);
  }

  // ----- The loader -----

  datatype Feature = SSE | SSE2 | MMX

  datatype Verdict =
    | NotComx
    | BadVersion
    | BadSize
    | Truncated
    | Missing(feature: Feature)
    | BadChecksum
    | BadAddress
    | Accepted(entry: UInt32)

  function Wrap(n: nat): UInt32 {
    n % 0x1_0000_0000
  }

  /** The 32-bit test that a range lies in user space. */
  predicate UserPtrValid(addr: UInt32, size: UInt32) {
    var end := Wrap(addr + size + 0xFFFF_FFFF);
    !(Wrap(addr + size) < addr) && !(addr < USER_START) && !(end > USER_END - 1)
  }

  /** The test accepts exactly the ranges inside user space. */
  lemma UserRange(addr: UInt32, size: UInt32)
    ensures UserPtrValid(addr, size) <==> USER_START <= addr && addr + size <= USER_END
  {
  }

  function MissingFeature(flags: Byte, features: set<Feature>): Option<Feature> {
    if flags % 2 == 1 && SSE !in features then Some(SSE)
    else if flags / 2 % 2 == 1 && SSE2 !in features then Some(SSE2)
    else if flags / 4 % 2 == 1 && MMX !in features then Some(MMX)
    else None
  }

  function Judge(file: Bytes, features: set<Feature>): Verdict {
    if |file| < HEADER_SIZE || Field(file, 0) != MAGIC then NotComx
    else if file[4] != VERSION then BadVersion
    else
      var size := Field(file, 12);
      if size == 0 || size > MAX_CODE then BadSize
      else if HEADER_SIZE + size > |file| then Truncated
      else
        var missing := MissingFeature(file[5], features);
        if missing.Some? then Missing(missing.value)
        else if Number(Checksum(file[HEADER_SIZE..HEADER_SIZE + size])) != Field(file, 24) then BadChecksum
        else if !UserPtrValid(Field(file, 20), Wrap(size + Field(file, 16))) then BadAddress
        else Accepted(Wrap(Field(file, 20) + Field(file, 8)))
  }

  /**
   What the kernel makes of a packed file: the packer's own limit is higher than the kernel's,
   and magic, version, length and checksum never stand in the way.
   */
  lemma PackedJudged(code: Bytes, flags: Byte, entry: UInt32, bss: UInt32, load: UInt32, features: set<Feature>)
    requires Pack(code, flags, entry, bss, load).Some?
    ensures Judge(Pack(code, flags, entry, bss, load).value, features) ==
            if |code| > MAX_CODE then BadSize
            else if MissingFeature(flags, features).Some? then Missing(MissingFeature(flags, features).value)
            else if !UserPtrValid(load, Wrap(|code| + bss)) then BadAddress
            else Accepted(Wrap(load + entry))
  {
    hide Number, Checksum, UserPtrValid, MissingFeature, Wrap, Field, HeaderBytes;
    HeaderFields(flags, entry, |code|, bss, load, Number(Checksum(code)), code);
    var file := Pack(code, flags, entry, bss, load).value;
    if |code| <= MAX_CODE {
      assert file[HEADER_SIZE..HEADER_SIZE + |code|] == code;
    }
  }

  /**
   Flag bit 0 asks for SSE, bit 1 for SSE2 and bit 2 for MMX, in this order; the other bits ask for
   nothing.
   */
  lemma FeaturesAsked(flags: Byte, features: set<Feature>)
    ensures var missing := MissingFeature(flags, features);
      && (missing == Some(SSE) <==> flags % 2 == 1 && SSE !in features)
      && (missing == Some(SSE2) <==> (flags % 2 == 1 ==> SSE in features) && flags / 2 % 2 == 1 && SSE2 !in features)
      && (missing == Some(MMX) <==>
            && (flags % 2 == 1 ==> SSE in features) && (flags / 2 % 2 == 1 ==> SSE2 in features)
            && flags / 4 % 2 == 1 && MMX !in features)
      && (missing == None <==>
            && (flags % 2 == 1 ==> SSE in features) && (flags / 2 % 2 == 1 ==> SSE2 in features)
            && (flags / 4 % 2 == 1 ==> MMX in features))
  {
  }

  /** A packed file is accepted exactly when it is small enough, the features are there and its memory is the user's. */
  lemma PackedAccepted(code: Bytes, flags: Byte, entry: UInt32, bss: UInt32, load: UInt32, features: set<Feature>)
    requires Pack(code, flags, entry, bss, load).Some? && |code| + bss < 0x1_0000_0000
    ensures var verdict := Judge(Pack(code, flags, entry, bss, load).value, features);
      && (verdict.Accepted? <==>
            && |code| <= 32768
            && (flags % 2 == 1 ==> SSE in features)
            && (flags / 2 % 2 == 1 ==> SSE2 in features)
            && (flags / 4 % 2 == 1 ==> MMX in features)
            && 0x5_0000 <= load && load + |code| + bss <= 0x8_2000)
      && (verdict.Accepted? && load + entry < 0x1_0000_0000 ==> verdict.entry == load + entry)
  {
    hide Judge, Pack, UserPtrValid, MissingFeature;
    PackedJudged(code, flags, entry, bss, load, features);
    FeaturesAsked(flags, features);
    UserRange(load, |code| + bss);
  }

  /** Changing one code byte of an accepted file makes the checksum test fail. */
  lemma TamperingShows(file: Bytes, features: set<Feature>, k: nat, b: Byte)
    requires Judge(file, features).Accepted? && k < Field(file, 12) && file[HEADER_SIZE + k] != b
    ensures Judge(file[HEADER_SIZE + k := b], features) == BadChecksum
  {
    hide Number, Checksum, UserPtrValid, MissingFeature, Wrap;
    var size := Field(file, 12);
    var other := file[HEADER_SIZE + k := b];
    var code := file[HEADER_SIZE..HEADER_SIZE + size];
    assert other[HEADER_SIZE..HEADER_SIZE + size] == code[k := b];
    OneByteShows(code, k, b);
    NumberInjective(Checksum(code), Checksum(code[k := b]));
  }

  /** An accepted file is placed inside user space exactly when its two sizes together do not wrap. */
  lemma AcceptedFits(file: Bytes, features: set<Feature>)
    requires Judge(file, features).Accepted?
    ensures var size, bss, load := Field(file, 12), Field(file, 16), Field(file, 20);
      USER_START <= load && (load + size + bss <= USER_END <==> size + bss < 0x1_0000_0000)
  {
    hide Number, Checksum, MissingFeature, Field;
    UserRange(Field(file, 20), Wrap(Field(file, 12) + Field(file, 16)));
  }

  /** A packed file whose sizes wrap is accepted, although its memory does not fit. */
  lemma WrappingAccepted(features: set<Feature>)
    ensures var file := Pack([0], 0, 0, 0xFFFF_FFFF, USER_START);
      && file.Some?
      && Judge(file.value, features) == Accepted(USER_START)
      && Field(file.value, 20) + Field(file.value, 12) + Field(file.value, 16) > USER_END
  {
    hide Number, Checksum, Field, HeaderBytes;
    PackedJudged([0], 0, 0, 0xFFFF_FFFF, USER_START, features);
    HeaderFields(0, 0, 1, 0xFFFF_FFFF, USER_START, Number(Checksum([0])), [0]);
    UserRange(USER_START, 0);
  }

  /** Memory with the code at `load` and `bss` zero bytes after it. */
  function Loaded(mem: Bytes, load: nat, code: Bytes, bss: nat): (r: Bytes)
    requires load + |code| + bss <= |mem|
    ensures |r| == |mem|
  {
    mem[..load] + code + seq(bss, i => 0) + mem[load + |code| + bss..]
  }

  /** Applies the tests in order, then copies the code and clears the space after it. */
  method LoaderRun(file: Bytes, features: set<Feature>, mem: array<Byte>) returns (v: Verdict)
    requires USER_END <= mem.Length
    requires Judge(file, features).Accepted? ==> Field(file, 12) + Field(file, 16) < 0x1_0000_0000
    modifies mem
    ensures v == Judge(file, features)
    ensures !v.Accepted? ==> mem[..] == old(mem[..])
    ensures v.Accepted? ==>
      var size, bss, load := Field(file, 12), Field(file, 16), Field(file, 20);
      && load + size + bss <= USER_END
      && mem[..] == Loaded(old(mem[..]), load, file[HEADER_SIZE..HEADER_SIZE + size], bss)
  {
    hide Number, Checksum, MissingFeature, UserPtrValid, Field;
    if |file| < HEADER_SIZE || Field(file, 0) != MAGIC {
      return NotComx;
    }
    if file[4] != VERSION {
      return BadVersion;
    }
    var size, bss, load := Field(file, 12), Field(file, 16), Field(file, 20);
    if size == 0 || size > MAX_CODE {
      return BadSize;
    }
    if HEADER_SIZE + size > |file| {
      return Truncated;
    }
    var missing := MissingFeature(file[5], features);
    if missing.Some? {
      return Missing(missing.value);
    }
    var code := file[HEADER_SIZE..HEADER_SIZE + size];
    var sum := LoaderChecksum(code);
    if Number(sum) != Field(file, 24) {
      return BadChecksum;
    }
    if !UserPtrValid(load, Wrap(size + bss)) {
      return BadAddress;
    }
    v := Accepted(Wrap(load + Field(file, 8)));
    AcceptedFits(file, features);
    Place(mem, load, code, bss);
  }

  method Place(mem: array<Byte>, load: nat, code: Bytes, bss: nat)
    requires load + |code| + bss <= mem.Length
    modifies mem
    ensures mem[..] == Loaded(old(mem[..]), load, code, bss)
  {
    for i := 0 to |code|
      invariant forall k :: load <= k < load + i ==> mem[k] == code[k - load]
      invariant forall k :: 0 <= k < mem.Length && !(load <= k < load + i) ==> mem[k] == old(mem[k])
    {
      mem[load + i] := code[i];
    }
    var start := load + |code|;
    for i := 0 to bss
      invariant forall k :: load <= k < start ==> mem[k] == code[k - load]
      invariant forall k :: start <= k < start + i ==> mem[k] == 0
      invariant forall k :: 0 <= k < mem.Length && !(load <= k < start + i) ==> mem[k] == old(mem[k])
    {
      mem[start + i] := 0;
    }
  }
}
