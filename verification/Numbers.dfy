/**
 Numbers as text: the printers utoa and itoa, the parsers strtoul and strtol, for
 32-bit int and long. A string in a buffer ends at a null character.
 */
module Numbers {
  import opened ByteTypes

  const INT_MIN: int := -0x8000_0000
  const INT_MAX: int := 0x7FFF_FFFF

  type Int32 = x: int | INT_MIN <= x <= INT_MAX

  /** The buffer size the printers ask for: 32 binary digits and the terminator. */
  const BUFFER_SIZE: nat := 33

  // ----- Digits -----

  function DigitChar(d: nat): char
    requires d < 36
  {
    if d < 10 then '0' + d as char else 'a' + (d - 10) as char
  }

  /** The value of a digit or letter; 36 for any other character. */
  function DigitValue(c: char): (d: nat)
    ensures d <= 36
  {
    if '0' <= c <= '9' then (c - '0') as int
    else if 'A' <= c <= 'Z' then (c - 'A') as int + 10
    else if 'a' <= c <= 'z' then (c - 'a') as int + 10
    else 36
  }

  lemma DigitRoundTrip(d: nat)
    requires d < 36
    ensures DigitValue(DigitChar(d)) == d
    ensures !IsSpace(DigitChar(d)) && DigitChar(d) != '+' && DigitChar(d) != '-' && DigitChar(d) != '\0'
  {
  }

  predicate IsSpace(c: char) {
    c == ' ' || c == '\t' || c == '\n' || c == '\r' || c == '\U{0C}' || c == '\U{0B}'
  }

  /** The digits of `v`, most significant first. */
  function ToDigits(v: nat, base: nat): (s: string)
    requires 2 <= base <= 36
    ensures s != []
    decreases v
  {
    if v < base then [DigitChar(v)] else ToDigits(v / base, base) + [DigitChar(v % base)]
  }

  /** The digits of `v`, least significant first; none for 0. */
  function Reversed(v: nat, base: nat): string
    requires 2 <= base <= 36
    decreases v
  {
    if v == 0 then [] else [DigitChar(v % base)] + Reversed(v / base, base)
  }

  function Reverse(s: string): (r: string)
    ensures |r| == |s| && forall i :: 0 <= i < |s| ==> r[i] == s[|s| - 1 - i]
  {
    if s == [] then [] else Reverse(s[1..]) + [s[0]]
  }

  /** What dividing by the base does. */
  lemma DivBase(v: nat, base: nat)
    requires 2 <= base
    ensures v == v / base * base + v % base && 0 <= v % base < base
    ensures v < base ==> v / base == 0 && v % base == v
    ensures v >= base ==> 1 <= v / base < v
    ensures v > 0 ==> v / base < v
    ensures v / base <= v / 2
  {
    var q := v / base;
    assert v == q * base + v % base;
    assert q * 2 <= q * base;
  }

  lemma ToDigitsStep(v: nat, base: nat)
    requires 2 <= base <= 36
    ensures v < base ==> ToDigits(v, base) == [DigitChar(v)]
    ensures v >= base ==> v % base < 36 && ToDigits(v, base) == ToDigits(v / base, base) + [DigitChar(v % base)]
  {
  }

  lemma ReversedStep(v: nat, base: nat)
    requires 2 <= base <= 36 && 0 < v
    ensures v % base < 36 && Reversed(v, base) == [DigitChar(v % base)] + Reversed(v / base, base)
    ensures Reversed(0, base) == []
  {
  }

  lemma ReverseStep(c: char, s: string)
    ensures Reverse([c] + s) == Reverse(s) + [c]
  {
    assert ([c] + s)[1..] == s;
  }

  lemma {:induction false} ReversedIsReverse(v: nat, base: nat)
    requires 2 <= base <= 36 && 0 < v
    ensures Reverse(Reversed(v, base)) == ToDigits(v, base)
    decreases v
  {
    hide Reversed, ToDigits, Reverse, DigitChar;
    DivBase(v, base);
    ReversedStep(v, base);
    ToDigitsStep(v, base);
    ReverseStep(DigitChar(v % base), Reversed(v / base, base));
    if v >= base {
      ReversedIsReverse(v / base, base);
    }
  }

  function Power2(n: nat): (p: nat)
    ensures 1 <= p
  {
    if n == 0 then 1 else 2 * Power2(n - 1)
  }

  lemma {:induction false} DigitCount(v: nat, base: nat, n: nat)
    requires 2 <= base <= 36 && v < Power2(n)
    ensures |Reversed(v, base)| <= n
    decreases n
  {
    hide Reversed, DigitChar;
    if v > 0 {
      DivBase(v, base);
      ReversedStep(v, base);
      DigitCount(v / base, base, n - 1);
    } else {
      ReversedStep(1, base);
    }
  }

  lemma ThirtyTwoDigits(v: UInt32, base: nat)
    requires 2 <= base <= 36
    ensures |Reversed(v, base)| <= 32
  {
    assert Power2(8) == 0x100;
    assert Power2(16) == 0x1_0000;
    assert Power2(24) == 0x100_0000;
    assert Power2(32) == 0x1_0000_0000;
    DigitCount(v, base, 32);
  }

  // ----- Parsing -----

  /** Reads digits from `i` on: the value accumulated, and where the first character stands that is no digit. */
  function ParseDigits(s: string, i: nat, base: nat, acc: nat): (nat, nat)
    requires i <= |s|
    decreases |s| - i
  {
    if i < |s| && s[i] != '\0' && DigitValue(s[i]) < base && DigitValue(s[i]) < 36
    then ParseDigits(s, i + 1, base, acc * base + DigitValue(s[i]))
    else (acc, i)
  }

  function SkipSpaces(s: string, i: nat): (j: nat)
    requires i <= |s|
    ensures i <= j <= |s|
    decreases |s| - i
  {
    if i < |s| && IsSpace(s[i]) then SkipSpaces(s, i + 1) else i
  }

  predicate HexPrefix(s: string, i: nat) {
    i + 1 < |s| && s[i] == '0' && (s[i + 1] == 'x' || s[i + 1] == 'X')
  }

  /** The base in effect and where the digits start, given the base asked for; no digit is below a negative base. */
  function ChooseBase(s: string, i: nat, base: int): (r: (nat, nat))
    requires i <= |s|
    ensures i <= r.1 <= |s|
  {
    if base == 0 then
      if HexPrefix(s, i) then (16, i + 2)
      else if i < |s| && s[i] == '0' then (8, i + 1)
      else (10, i)
    else if base == 16 && HexPrefix(s, i) then (16, i + 2)
    else (if base < 0 then 0 else base, i)
  }

  /** strtoul before the value is cut to 32 bits. */
  function ParseUnsigned(s: string, base: int): (nat, nat) {
    var i := SkipSpaces(s, 0);
    var j := if i < |s| && s[i] == '+' then i + 1 else i;
    var (b, k) := ChooseBase(s, j, base);
    ParseDigits(s, k, b, 0)
  }

  /** strtol before the limits of long: sign, magnitude and end. */
  function ParseSigned(s: string, base: int): (bool, nat, nat) {
    var i := SkipSpaces(s, 0);
    var negative := i < |s| && s[i] == '-';
    var j := if negative || (i < |s| && s[i] == '+') then i + 1 else i;
    var (b, k) := ChooseBase(s, j, base);
    var (m, end) := ParseDigits(s, k, b, 0);
    (negative, m, end)
  }

  // ----- Round trips -----

  predicate AllDigits(s: string, base: nat) {
    forall i :: 0 <= i < |s| ==> DigitValue(s[i]) < base && s[i] != '\0'
  }

  lemma {:induction false} ParseAppend(s: string, i: nat, base: nat, acc: nat, c: char)
    requires i <= |s| && 2 <= base <= 36 && AllDigits(s, base)
    requires DigitValue(c) < base && c != '\0'
    ensures ParseDigits(s, i, base, acc).1 == |s|
    ensures ParseDigits(s + [c], i, base, acc) == (ParseDigits(s, i, base, acc).0 * base + DigitValue(c), |s| + 1)
    decreases |s| - i
  {
    if i < |s| {
      ParseAppend(s, i + 1, base, acc * base + DigitValue(s[i]), c);
    }
  }

  lemma {:induction false} DigitsParse(v: nat, base: nat)
    requires 2 <= base <= 36
    ensures AllDigits(ToDigits(v, base), base)
    ensures ParseDigits(ToDigits(v, base), 0, base, 0) == (v, |ToDigits(v, base)|)
    decreases v
  {
    hide ToDigits, DigitChar, DigitValue, ParseDigits;
    DivBase(v, base);
    ToDigitsStep(v, base);
    DigitRoundTrip(v % base);
    if v >= base {
      DigitsParse(v / base, base);
      ParseAppend(ToDigits(v / base, base), 0, base, 0, DigitChar(v % base));
    } else {
      ParseOne(DigitChar(v), base);
    }
  }

  lemma ParseOne(c: char, base: nat)
    requires DigitValue(c) < base <= 36 && c != '\0'
    ensures ParseDigits([c], 0, base, 0) == (DigitValue(c), 1)
  {
  }

  lemma NoPrefix(s: string, base: nat)
    requires 2 <= base <= 36 && s != [] && AllDigits(s, base)
    ensures SkipSpaces(s, 0) == 0 && s[0] != '+' && s[0] != '-' && ChooseBase(s, 0, base) == (base, 0)
  {
    assert DigitValue(s[0]) < base;
    assert |s| > 1 ==> DigitValue(s[1]) < base;
  }

  /** Parsing what utoa prints gives the number back and stops at the terminator. */
  lemma UnsignedRoundTrip(v: UInt32, base: nat)
    requires 2 <= base <= 36
    ensures ParseUnsigned(ToDigits(v, base), base) == (v, |ToDigits(v, base)|)
  {
    DigitsParse(v, base);
    NoPrefix(ToDigits(v, base), base);
  }

  function SignedText(v: int): string {
    if v < 0 then "-" + ToDigits(-v, 10) else ToDigits(v, 10)
  }

  lemma {:induction false} ParseShift(c: char, s: string, i: nat, base: nat, acc: nat)
    requires i <= |s|
    ensures var r := ParseDigits(s, i, base, acc);
      ParseDigits([c] + s, i + 1, base, acc) == (r.0, r.1 + 1)
    decreases |s| - i
  {
    if i < |s| {
      ParseShift(c, s, i + 1, base, acc * base + DigitValue(s[i]));
    }
  }

  lemma SignedRoundTrip(v: int)
    ensures ParseSigned(SignedText(v), 10) == (v < 0, if v < 0 then -v else v, |SignedText(v)|)
  {
    if v < 0 {
      var d := ToDigits(-v, 10);
      DigitsParse(-v, 10);
      ParseShift('-', d, 0, 10, 0);
      assert SkipSpaces("-" + d, 0) == 0;
    } else {
      DigitsParse(v, 10);
      NoPrefix(ToDigits(v, 10), 10);
    }
  }

  lemma {:induction false} ParseAfter(p: string, s: string, i: nat, base: nat, acc: nat)
    requires i <= |s|
    ensures var r := ParseDigits(s, i, base, acc);
      ParseDigits(p + s, |p| + i, base, acc) == (r.0, |p| + r.1)
    decreases |s| - i
  {
    if i < |s| {
      assert (p + s)[|p| + i] == s[i];
      ParseAfter(p, s, i + 1, base, acc * base + DigitValue(s[i]));
    }
  }

  lemma {:induction false} NoLeadingZero(v: nat)
    requires v > 0
    ensures ToDigits(v, 10)[0] != '0'
    decreases v
  {
    hide ToDigits;
    ToDigitsStep(v, 10);
    if v >= 10 {
      NoLeadingZero(v / 10);
    }
  }

  /** Digits are printed from this table. */
  lemma DigitTable(d: nat)
    requires d < 36
    ensures DigitChar(d) == "0123456789abcdefghijklmnopqrstuvwxyz"[d]
  {
  }

  /** Capital letters are read as the small ones are. */
  lemma CapitalDigits(d: nat)
    requires 10 <= d < 36
    ensures DigitValue('A' + (d - 10) as char) == d == DigitValue(DigitChar(d))
  {
  }

  /** What strtoul and strtol read behind blanks and signs, once the prefix `p` has fixed the base. */
  lemma PrefixRead(head: string, p: string, v: nat, b: nat, base: int)
    requires 2 <= b <= 36 && ChooseBase(head + (p + ToDigits(v, b)), |head|, base) == (b, |head| + |p|)
    ensures var s := head + (p + ToDigits(v, b));
      ParseDigits(s, |head| + |p|, b, 0) == (v, |s|)
  {
    hide ToDigits, ParseDigits, ChooseBase;
    var d := ToDigits(v, b);
    DigitsParse(v, b);
    ParseAfter(head + p, d, 0, b, 0);
    assert head + (p + d) == head + p + d;
  }

  /** The ways to write `v` when the base is to be detected. */
  predicate WrittenAs(v: nat, p: string, b: nat) {
    || (b == 16 && (p == "0x" || p == "0X"))
    || (b == 8 && p == "0")
    || (b == 10 && p == "" && v > 0)
  }

  lemma BaseDetected(head: string, v: nat, p: string, b: nat)
    requires WrittenAs(v, p, b)
    ensures ChooseBase(head + (p + ToDigits(v, b)), |head|, 0) == (b, |head| + |p|)
  {
    hide ToDigits;
    var d := ToDigits(v, b);
    var s := head + (p + d);
    DigitsParse(v, b);
    assert s[|head|..] == p + d;
    assert s[|head|] == (p + d)[0] && (|p + d| > 1 ==> s[|head| + 1] == (p + d)[1]);
    assert DigitValue(d[0]) < b;
    if b == 10 {
      NoLeadingZero(v);
    }
  }

  /** With base 0, "0x" and "0X" announce hexadecimal, "0" octal, and anything else is decimal. */
  lemma BaseZero(v: nat, p: string, b: nat)
    requires WrittenAs(v, p, b)
    ensures var t := p + ToDigits(v, b);
      && ParseUnsigned(t, 0) == (v, |t|) && ParseUnsigned("+" + t, 0) == (v, |t| + 1)
      && ParseSigned(t, 0) == (false, v, |t|) && ParseSigned("-" + t, 0) == (true, v, |t| + 1)
  {
    hide ToDigits, ParseDigits, ChooseBase;
    var t := p + ToDigits(v, b);
    TextStart(v, p, b);
    BaseDetected("", v, p, b);
    PrefixRead("", p, v, b, 0);
    assert "" + t == t;
    BaseDetected("+", v, p, b);
    PrefixRead("+", p, v, b, 0);
    BaseDetected("-", v, p, b);
    PrefixRead("-", p, v, b, 0);
    assert SkipSpaces("+" + t, 0) == 0 && SkipSpaces("-" + t, 0) == 0;
  }

  lemma TextStart(v: nat, p: string, b: nat)
    requires WrittenAs(v, p, b)
    ensures var t := p + ToDigits(v, b);
      t != "" && SkipSpaces(t, 0) == 0 && t[0] != '+' && t[0] != '-'
  {
    hide ToDigits;
    DigitsParse(v, b);
    assert p == "" ==> p + ToDigits(v, b) == ToDigits(v, b);
    assert DigitValue(ToDigits(v, b)[0]) < b;
  }

  // ----- The printers -----

  /** The buffer holds the string `s`. */
  predicate Holds(b: string, s: string) {
    |s| < |b| && b[..|s|] == s && b[|s|] == '\0'
  }

  lemma {:induction false} HeldDigits(b: string, s: string, i: nat, base: nat, acc: nat)
    requires Holds(b, s) && i <= |s|
    ensures ParseDigits(b, i, base, acc) == ParseDigits(s, i, base, acc)
    decreases |s| - i
  {
    if i < |s| {
      assert b[i] == b[..|s|][i];
      HeldDigits(b, s, i + 1, base, acc * base + DigitValue(s[i]));
    }
  }

  lemma {:induction false} HeldSpaces(b: string, s: string, i: nat)
    requires Holds(b, s) && i <= |s|
    ensures SkipSpaces(b, i) == SkipSpaces(s, i) <= |s|
    decreases |s| - i
  {
    if i < |s| {
      assert b[i] == b[..|s|][i];
      HeldSpaces(b, s, i + 1);
    }
  }

  lemma HeldBase(b: string, s: string, i: nat, base: int)
    requires Holds(b, s) && i <= |s|
    ensures ChooseBase(b, i, base) == ChooseBase(s, i, base)
  {
    assert i < |s| ==> b[i] == b[..|s|][i];
    assert i + 1 < |s| ==> b[i + 1] == b[..|s|][i + 1];
  }

  /** The parsers see nothing behind the terminator. */
  lemma TerminatorStops(b: string, s: string, base: int)
    requires Holds(b, s)
    ensures ParseUnsigned(b, base) == ParseUnsigned(s, base) && ParseSigned(b, base) == ParseSigned(s, base)
  {
    HeldSpaces(b, s, 0);
    var i := SkipSpaces(s, 0);
    assert i < |s| ==> b[i] == b[..|s|][i];
    for j := i to |s| + 1
      invariant forall k :: i <= k < j ==> ChooseBase(b, k, base) == ChooseBase(s, k, base)
    {
      HeldBase(b, s, j, base);
    }
    forall k, c | 0 <= k <= |s| ensures ParseDigits(b, k, c, 0) == ParseDigits(s, k, c, 0) {
      HeldDigits(b, s, k, c, 0);
    }
  }

  /** Parsing the buffer that utoa filled gives the number back; so does itoa's, for base 10. */
  lemma BufferRoundTrip(b: string, c: string, u: UInt32, v: int, base: nat)
    requires 2 <= base <= 36 && Holds(b, ToDigits(u, base)) && Holds(c, SignedText(v))
    ensures ParseUnsigned(b, base) == (u, |ToDigits(u, base)|) && b[|ToDigits(u, base)|] == '\0'
    ensures ParseSigned(c, 10) == (v < 0, if v < 0 then -v else v, |SignedText(v)|) && c[|SignedText(v)|] == '\0'
  {
    hide ParseUnsigned, ParseSigned;
    TerminatorStops(b, ToDigits(u, base), base);
    TerminatorStops(c, SignedText(v), 10);
    UnsignedRoundTrip(u, base);
    SignedRoundTrip(v);
  }

  /** Writes the digits of `v`, last digit first, from the start of the buffer. */
  method WriteDigits(buf: array<char>, v: UInt32, base: nat) returns (p: nat)
    requires 2 <= base <= 36 && 32 <= buf.Length
    modifies buf
    ensures p == |Reversed(v, base)| <= 32 && buf[..p] == Reversed(v, base)
    ensures forall k :: p <= k < buf.Length ==> buf[k] == old(buf[k])
  {
    hide Reversed, DigitChar;
    ThirtyTwoDigits(v, base);
    p := 0;
    var u := v;
    ReversedStep(1, base);
    assert buf[..0] + Reversed(u, base) == Reversed(v, base);
    while u > 0
      invariant 0 <= p <= 32 && 0 <= u < 0x1_0000_0000
      invariant buf[..p] + Reversed(u, base) == Reversed(v, base)
      invariant forall k :: p <= k < buf.Length ==> buf[k] == old(buf[k])
      decreases u
    {
      DivBase(u, base);
      ReversedStep(u, base);
      assert |buf[..p] + Reversed(u, base)| <= 32;
      ghost var before := buf[..p];
      var digit := u % base;
      buf[p] := DigitChar(digit);
      assert buf[..p + 1] == before + [DigitChar(digit)];
      assert before + ([DigitChar(digit)] + Reversed(u / base, base)) == buf[..p + 1] + Reversed(u / base, base);
      p := p + 1;
      u := u / base;
    }
    assert buf[..p] + Reversed(0, base) == buf[..p];
  }

  /** Reverses the first `n` characters in place. */
  method ReverseInPlace(buf: array<char>, n: nat)
    requires n <= buf.Length
    modifies buf
    ensures buf[..n] == Reverse(old(buf[..n]))
    ensures forall k :: n <= k < buf.Length ==> buf[k] == old(buf[k])
  {
    hide Reverse;
    var i, j := 0, n - 1;
    while i < j
      invariant 0 <= i && j == n - 1 - i && i <= j + 1
      invariant forall k :: 0 <= k < buf.Length && (i <= k <= j || n <= k) ==> buf[k] == old(buf[k])
      invariant forall k :: 0 <= k < i ==> buf[k] == old(buf[n - 1 - k]) && buf[n - 1 - k] == old(buf[k])
    {
      buf[i], buf[j] := buf[j], buf[i];
      i, j := i + 1, j - 1;
    }
    ghost var r := Reverse(old(buf[..n]));
    assert forall k :: 0 <= k < n ==> buf[k] == r[k];
  }

  /** Digits, then a minus sign if asked for, then the terminator, then reversed. */
  method Print(buf: array<char>, v: UInt32, base: nat, negative: bool)
    requires 2 <= base <= 36 && BUFFER_SIZE <= buf.Length && 0 < v && (negative ==> base == 10)
    modifies buf
    ensures Holds(buf[..], (if negative then "-" else "") + ToDigits(v, base))
    ensures forall k :: BUFFER_SIZE <= k < buf.Length ==> buf[k] == old(buf[k])
  {
    hide Reversed, ToDigits, DigitChar, Reverse;
    var p := WriteDigits(buf, v, base);
    ReversedIsReverse(v, base);
    if negative {
      TenDigits(v);
      buf[p] := '-';
      assert buf[..p + 1] == Reversed(v, base) + "-";
      ReverseLast(Reversed(v, base), '-');
      p := p + 1;
    }
    buf[p] := '\0';
    ghost var text := buf[..p];
    ReverseInPlace(buf, p);
    assert buf[..][..p] == buf[..p];
    assert !negative ==> "" + ToDigits(v, base) == ToDigits(v, base);
  }

  lemma ReverseLast(s: string, c: char)
    ensures Reverse(s + [c]) == [c] + Reverse(s)
  {
    hide Reverse;
    var r, t := Reverse(s + [c]), [c] + Reverse(s);
    assert forall i :: 0 <= i < |r| ==> r[i] == t[i];
  }

  lemma TenDigits(v: UInt32)
    ensures |Reversed(v, 10)| <= 31
  {
    hide Reversed, DigitChar;
    if v > 0 {
      DivBase(v, 10);
      ReversedStep(v, 10);
      var w := v / 10;
      if w > 0 {
        DivBase(w, 10);
        ReversedStep(w, 10);
        assert Power2(8) == 0x100;
        assert Power2(16) == 0x1_0000;
        assert Power2(29) == 0x2000_0000;
        DigitCount(w / 10, 10, 29);
      } else {
        ReversedStep(1, 10);
      }
    } else {
      ReversedStep(1, 10);
    }
  }

  method Utoa(value: UInt32, buf: array<char>, base: int)
    requires BUFFER_SIZE <= buf.Length
    modifies buf
    ensures Holds(buf[..], if 2 <= base <= 36 then ToDigits(value, base) else "")
    ensures forall k :: BUFFER_SIZE <= k < buf.Length ==> buf[k] == old(buf[k])
  {
    hide ToDigits, DigitChar;
    if base < 2 || base > 36 {
      buf[0] := '\0';
      return;
    }
    ToDigitsStep(0, base);
    if value == 0 {
      buf[0] := '0';
      buf[1] := '\0';
      ZeroDigit();
      return;
    }
    Print(buf, value, base, false);
    assert "" + ToDigits(value, base) == ToDigits(value, base);
  }

  lemma ZeroDigit()
    ensures DigitChar(0) == '0'
  {
  }

  /** What itoa prints: a sign only in base 10, otherwise the two's complement bits. */
  function ItoaText(value: Int32, base: nat): string
    requires 2 <= base <= 36
  {
    if base == 10 then SignedText(value)
    else ToDigits(if value < 0 then value + 0x1_0000_0000 else value, base)
  }

  method Itoa(value: Int32, buf: array<char>, base: int)
    requires BUFFER_SIZE <= buf.Length
    modifies buf
    ensures Holds(buf[..], if 2 <= base <= 36 then ItoaText(value, base) else "")
    ensures forall k :: BUFFER_SIZE <= k < buf.Length ==> buf[k] == old(buf[k])
  {
    hide ToDigits, DigitChar;
    if base < 2 || base > 36 {
      buf[0] := '\0';
      return;
    }
    ToDigitsStep(0, base);
    var negative := value < 0 && base == 10;
    var u: UInt32 := if negative then -(value + 1) + 1 else if value < 0 then value + 0x1_0000_0000 else value;
    if u == 0 {
      buf[0] := '0';
      buf[1] := '\0';
      ZeroDigit();
      return;
    }
    Print(buf, u, base, negative);
    assert "" + ToDigits(u, base) == ToDigits(u, base);
  }

  // ----- The parsers -----

  lemma ModStep(acc: nat, base: nat, d: nat)
    ensures (acc % 0x1_0000_0000 * base + d) % 0x1_0000_0000 == (acc * base + d) % 0x1_0000_0000
  {
    var q, r := acc / 0x1_0000_0000, acc % 0x1_0000_0000;
    assert acc * base + d == 0x1_0000_0000 * (q * base) + (r * base + d) by {
      assert acc == 0x1_0000_0000 * q + r;
      Distribute(0x1_0000_0000 * q, r, base);
      Associate(0x1_0000_0000, q, base);
    }
    ModMultiple(q * base, r * base + d);
  }

  lemma Distribute(a: nat, b: nat, c: nat)
    ensures (a + b) * c == a * c + b * c
  {
  }

  lemma Associate(a: nat, b: nat, c: nat)
    ensures a * b * c == a * (b * c)
  {
  }

  lemma ModMultiple(k: nat, x: nat)
    ensures (0x1_0000_0000 * k + x) % 0x1_0000_0000 == x % 0x1_0000_0000
  {
  }

  method Strtoul(s: string, base: int) returns (value: UInt32, end: nat)
    ensures value == ParseUnsigned(s, base).0 % 0x1_0000_0000 && end == ParseUnsigned(s, base).1
  {
    hide DigitValue;
    var i := SkipBlanks(s);
    if i < |s| && s[i] == '+' {
      i := i + 1;
    }
    var (b, k) := ChooseBase(s, i, base);
    value, end := 0, k;
    ghost var acc := 0;
    while end < |s| && s[end] != '\0' && DigitValue(s[end]) < b && DigitValue(s[end]) < 36
      invariant k <= end <= |s| && 0 <= acc && value == acc % 0x1_0000_0000
      invariant ParseDigits(s, end, b, acc) == ParseUnsigned(s, base)
    {
      ModStep(acc, b, DigitValue(s[end]));
      value := (value * b + DigitValue(s[end])) % 0x1_0000_0000;
      acc := acc * b + DigitValue(s[end]);
      end := end + 1;
    }
  }

  method SkipBlanks(s: string) returns (i: nat)
    ensures i == SkipSpaces(s, 0)
  {
    i := 0;
    while i < |s| && IsSpace(s[i])
      invariant i <= |s| && SkipSpaces(s, 0) == SkipSpaces(s, i)
    {
      i := i + 1;
    }
  }

  /** `defined` is false when the accumulation leaves the range of long, which C leaves undefined. */
  method Strtol(s: string, base: int) returns (value: Int32, end: nat, defined: bool)
    ensures var (negative, magnitude, stop) := ParseSigned(s, base);
      && end == stop && (defined <==> magnitude <= INT_MAX)
      && (defined ==> value == if negative then 0 - magnitude else magnitude)
  {
    hide DigitValue;
    var i := SkipBlanks(s);
    var negative := i < |s| && s[i] == '-';
    if negative {
      i := i + 1;
    } else if i < |s| && s[i] == '+' {
      i := i + 1;
    }
    var (b, k) := ChooseBase(s, i, base);
    var result := 0;
    end, defined := k, true;
    ghost var acc := 0;
    while end < |s| && s[end] != '\0' && DigitValue(s[end]) < b && DigitValue(s[end]) < 36
      invariant k <= end <= |s| && 0 <= result <= INT_MAX && 0 <= acc
      invariant (defined <==> acc <= INT_MAX) && (defined ==> result == acc)
      invariant ParseDigits(s, end, b, acc) == (ParseSigned(s, base).1, ParseSigned(s, base).2)
    {
      var d := DigitValue(s[end]);
      Grows(acc, b, d);
      if defined && result * b + d <= INT_MAX {
        result := result * b + d;
      } else {
        defined := false;
      }
      acc := acc * b + d;
      end := end + 1;
    }
    value := if negative then -result else result;
  }

  lemma Grows(acc: nat, base: nat, d: nat)
    requires d < base
    ensures acc <= acc * base + d
  {
    assert acc * 1 <= acc * base;
  }

  /** Printing and parsing a long in base 10 is the identity exactly above INT_MIN, whose magnitude long cannot hold. */
  lemma SignedDefined(v: Int32)
    ensures var (negative, magnitude, end) := ParseSigned(SignedText(v), 10);
      && end == |SignedText(v)| && (magnitude <= INT_MAX <==> v != INT_MIN)
      && (if negative then 0 - magnitude else magnitude) == v
  {
    SignedRoundTrip(v);
  }
}
