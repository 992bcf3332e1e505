/**
 The bounded formatter vsnprintf. int and long are both 32 bits wide. An argument is a machine
 word that a conversion takes as a number or as a string; arguments beyond the last are zero.
 */
module Printf {
  import opened ByteTypes
  import opened Options
  import opened Numbers

  datatype Arg = Arg(bits: UInt32, text: Option<string>)

  function ArgAt(args: seq<Arg>, a: nat): Arg {
    if a < |args| then args[a] else Arg(0, None)
  }

  function Signed(bits: UInt32): Int32 {
    if bits > INT_MAX then bits - 0x1_0000_0000 else bits
  }

  // ----- The unbounded rendering -----

  function Cased(c: char, upper: bool): char {
    if upper && 'a' <= c <= 'z' then 'A' + (c - 'a') else c
  }

  function CasedAll(s: string, upper: bool): (t: string)
    ensures |t| == |s| && forall i :: 0 <= i < |s| ==> t[i] == Cased(s[i], upper)
  {
    seq(|s|, i requires 0 <= i < |s| => Cased(s[i], upper))
  }

  function Repeat(c: char, n: nat): (s: string)
    ensures |s| == n && forall i :: 0 <= i < n ==> s[i] == c
  {
    seq(n, i => c)
  }

  /** What format_number is to print: padding, sign, digits. */
  datatype Number = Number(magnitude: UInt32, base: nat, width: nat, padZero: bool, upper: bool, negative: bool) {
    predicate Ok() {
      2 <= base <= 36
    }

    function Digits(): string
      requires Ok()
    {
      CasedAll(ToDigits(magnitude, base), upper)
    }

    function Padding(): string
      requires Ok()
    {
      var total := |Digits()| + if negative then 1 else 0;
      Repeat(if padZero then '0' else ' ', if width > total then width - total else 0)
    }

    function Text(): string
      requires Ok()
    {
      Padding() + (if negative then "-" else "") + Digits()
    }
  }

  /** The number for a signed conversion: the caller passes 0 as the magnitude, which only a negative value replaces. */
  function SignedNumber(v: Int32, width: nat, padZero: bool): Number {
    Number(if v < 0 then 0 - v else 0, 10, width, padZero, false, v < 0)
  }

  datatype Spec = Spec(padZero: bool, width: nat, conv: Option<char>, next: nat)

  function ParseWidth(f: string, i: nat, w: nat): (r: (nat, nat))
    requires i <= |f|
    ensures i <= r.1 <= |f|
    decreases |f| - i
  {
    if i < |f| && '0' <= f[i] <= '9' then ParseWidth(f, i + 1, w * 10 + (f[i] - '0') as int) else (w, i)
  }

  /** The conversion specification whose percent sign stands before `i`. */
  function ParseSpec(f: string, i: nat): (s: Spec)
    requires i <= |f|
    ensures i <= s.next <= |f|
  {
    var padZero := i < |f| && f[i] == '0';
    var (width, j) := ParseWidth(f, if padZero then i + 1 else i, 0);
    var k := if j < |f| && f[j] == 'l' then j + 1 else j;
    if k < |f| then Spec(padZero, width, Some(f[k]), k + 1) else Spec(padZero, width, None, k)
  }

  /** The number a conversion prints, if it prints one. */
  function NumberOf(spec: Spec, arg: Arg): (n: Option<Number>)
    ensures n.Some? ==> n.value.Ok()
  {
    match spec.conv
    case None => None
    case Some(c) =>
      if c == 'd' || c == 'i' then Some(SignedNumber(Signed(arg.bits), spec.width, spec.padZero))
      else if c == 'u' then Some(Number(arg.bits, 10, spec.width, spec.padZero, false, false))
      else if c == 'x' then Some(Number(arg.bits, 16, spec.width, spec.padZero, false, false))
      else if c == 'X' then Some(Number(arg.bits, 16, spec.width, spec.padZero, true, false))
      else if c == 'o' then Some(Number(arg.bits, 8, spec.width, spec.padZero, false, false))
      else if c == 'p' then Some(Number(arg.bits, 16, 8, true, false, false))
      else None
  }

  function StringText(spec: Spec, arg: Arg): string {
    var s := if arg.text.Some? then arg.text.value else "(null)";
    Repeat(' ', if spec.width > |s| then spec.width - |s| else 0) + s
  }

  function Convert(spec: Spec, arg: Arg): string {
    match NumberOf(spec, arg)
    case Some(n) => (if spec.conv == Some('p') then "0x" else "") + n.Text()
    case None =>
      if spec.conv == Some('c') then [(arg.bits % 0x100) as char]
      else if spec.conv == Some('s') then StringText(spec, arg)
      else if spec.conv == Some('%') then "%"
      else ['%', if spec.conv.Some? then spec.conv.value else '\0']
  }

  predicate TakesArg(spec: Spec) {
    NumberOf(spec, Arg(0, None)).Some? || spec.conv == Some('c') || spec.conv == Some('s')
  }

  /**
   A stretch of output. The code counts the characters of a `counted` one whether or not they
   fit, and stops counting the others at the end of the buffer.
   */
  datatype Piece = Piece(text: string, counted: bool)

  function PieceOf(spec: Spec, arg: Arg): Piece {
    Piece(Convert(spec, arg), NumberOf(spec, arg).None? && spec.conv != Some('s'))
  }

  /** The output for the format from `i` on with the arguments from `a` on. */
  function Pieces(f: string, i: nat, args: seq<Arg>, a: nat): seq<Piece>
    requires i <= |f|
    decreases |f| - i
  {
    if i == |f| then []
    else if f[i] != '%' then [Piece([f[i]], true)] + Pieces(f, i + 1, args, a)
    else
      var spec := ParseSpec(f, i + 1);
      [PieceOf(spec, ArgAt(args, a))] + Pieces(f, spec.next, args, if TakesArg(spec) then a + 1 else a)
  }

  /** The whole text, with no bound on the room. */
  function Text(ps: seq<Piece>): string {
    if ps == [] then "" else ps[0].text + Text(ps[1..])
  }

  function Render(f: string, args: seq<Arg>): string {
    Text(Pieces(f, 0, args, 0))
  }

  lemma {:induction false} ParseCased(s: string, upper: bool, i: nat, base: nat, acc: nat)
    requires i <= |s|
    ensures ParseDigits(CasedAll(s, upper), i, base, acc) == ParseDigits(s, i, base, acc)
    decreases |s| - i
  {
    if i < |s| {
      assert DigitValue(Cased(s[i], upper)) == DigitValue(s[i]);
      ParseCased(s, upper, i + 1, base, acc * base + DigitValue(s[i]));
    }
  }

  lemma {:induction false} ParseZeros(p: string, s: string, i: nat, base: nat)
    requires i <= |p| && 2 <= base && forall k :: 0 <= k < |p| ==> p[k] == '0'
    ensures ParseDigits(p + s, i, base, 0) == ParseDigits(p + s, |p|, base, 0)
    decreases |p| - i
  {
    if i < |p| {
      assert (p + s)[i] == '0' && 0 * base + DigitValue('0') == 0;
      ParseZeros(p, s, i + 1, base);
    }
  }

  lemma {:induction false} SkipPadding(p: string, s: string, i: nat)
    requires i <= |p| && (forall k :: 0 <= k < |p| ==> p[k] == ' ') && s != [] && !IsSpace(s[0])
    ensures SkipSpaces(p + s, i) == |p|
    decreases |p| - i
  {
    if i < |p| {
      SkipPadding(p, s, i + 1);
    }
  }

  lemma CasedDigits(n: Number)
    requires n.Ok()
    ensures n.Digits() != [] && AllDigits(n.Digits(), n.base)
    ensures ParseDigits(n.Digits(), 0, n.base, 0) == (n.magnitude, |n.Digits()|)
  {
    var d := ToDigits(n.magnitude, n.base);
    DigitsParse(n.magnitude, n.base);
    ParseCased(d, n.upper, 0, n.base, 0);
    forall i | 0 <= i < |d| ensures DigitValue(n.Digits()[i]) < n.base && n.Digits()[i] != '\0' {
      assert DigitValue(Cased(d[i], n.upper)) == DigitValue(d[i]);
    }
  }

  lemma ZeroPaddedParses(n: Number)
    requires n.Ok() && !n.negative && n.padZero
    ensures AllDigits(n.Text(), n.base) && ParseDigits(n.Text(), 0, n.base, 0) == (n.magnitude, |n.Text()|)
  {
    var p, d := n.Padding(), n.Digits();
    assert n.Text() == p + d;
    CasedDigits(n);
    ParseAfter(p, d, 0, n.base, 0);
    ParseZeros(p, d, 0, n.base);
  }

  /** Parsing an unsigned conversion's text gives the number back, whatever the width, padding and case. */
  lemma UnsignedParses(n: Number)
    requires n.Ok() && !n.negative
    ensures ParseUnsigned(n.Text(), n.base) == (n.magnitude, |n.Text()|)
  {
    var p, d := n.Padding(), n.Digits();
    assert n.Text() == p + d;
    CasedDigits(n);
    if n.padZero {
      ZeroPaddedParses(n);
      NoPrefix(p + d, n.base);
    } else {
      NoPrefix(d, n.base);
      ParseAfter(p, d, 0, n.base, 0);
      SkipPadding(p, d, 0);
      NoHexAfter(p, d, n.base);
    }
  }

  /** The base in which an unsigned conversion prints its argument; strtoul reads all of them back. */
  function UnsignedBase(conv: Option<char>): Option<nat> {
    if conv == Some('u') then Some(10)
    else if conv == Some('x') || conv == Some('X') || conv == Some('p') then Some(16)
    else if conv == Some('o') then Some(8)
    else None
  }

  lemma UnsignedConversions(spec: Spec, arg: Arg)
    requires UnsignedBase(spec.conv).Some?
    ensures ParseUnsigned(Convert(spec, arg), UnsignedBase(spec.conv).value) == (arg.bits, |Convert(spec, arg)|)
  {
    hide ParseUnsigned;
    var n := NumberOf(spec, arg).value;
    if spec.conv == Some('p') {
      PointerParses(n);
    } else {
      UnsignedParses(n);
      assert "" + n.Text() == n.Text();
    }
  }

  /** A pointer's prefix is the one strtoul skips in base 16. */
  lemma PointerParses(n: Number)
    requires n.base == 16 && !n.negative && n.padZero
    ensures ParseUnsigned("0x" + n.Text(), 16) == (n.magnitude, |"0x" + n.Text()|)
  {
    var s := "0x" + n.Text();
    ZeroPaddedParses(n);
    ParseAfter("0x", n.Text(), 0, 16, 0);
    assert s[0] == '0' && s[1] == 'x' && SkipSpaces(s, 0) == 0;
  }

  /** A signed conversion prints the value asked for exactly when that is not positive, at any width. */
  lemma SignedValuePrinted(v: Int32, width: nat, padZero: bool)
    ensures var asked := Number(if v < 0 then 0 - v else v, 10, width, padZero, false, v < 0);
      SignedNumber(v, width, padZero).Text() == asked.Text() <==> v <= 0
  {
    if v > 0 {
      UnsignedParses(SignedNumber(v, width, padZero));
      UnsignedParses(Number(v, 10, width, padZero, false, false));
    }
  }

  lemma NoHexAfter(p: string, d: string, base: nat)
    requires 2 <= base <= 36 && d != [] && AllDigits(d, base)
    ensures (p + d)[|p|] != '+' && ChooseBase(p + d, |p|, base) == (base, |p|)
  {
    assert DigitValue(d[0]) < base && (|d| > 1 ==> DigitValue(d[1]) < base);
    assert |d| > 1 ==> (p + d)[|p| + 1] == d[1];
  }

  // ----- The returned count -----

  /** Where the count stands after a piece of `n` characters. */
  function Step(pos: nat, n: nat, counted: bool, max: nat): nat {
    if counted || pos + n <= max then pos + n else if pos <= max then max else pos
  }

  function Position(ps: seq<Piece>, pos: nat, max: nat): nat {
    if ps == [] then pos else Position(ps[1..], Step(pos, |ps[0].text|, ps[0].counted, max), max)
  }

  /** Where the last non-empty uncounted piece ends in the whole text; 0 if there is none. */
  function LastUncounted(ps: seq<Piece>, pos: nat): nat {
    if ps == [] then 0
    else
      var end := pos + |ps[0].text|;
      var later := LastUncounted(ps[1..], end);
      if later == 0 && !ps[0].counted && ps[0].text != "" then end else later
  }

  lemma {:induction false} PositionBound(ps: seq<Piece>, pos: nat, max: nat)
    ensures Position(ps, pos, max) <= pos + |Text(ps)|
    decreases |ps|
  {
    if ps != [] {
      PositionBound(ps[1..], Step(pos, |ps[0].text|, ps[0].counted, max), max);
    }
  }

  lemma {:induction false} LastUncountedBeyond(ps: seq<Piece>, pos: nat)
    ensures LastUncounted(ps, pos) == 0 || pos < LastUncounted(ps, pos)
    decreases |ps|
  {
    if ps != [] {
      LastUncountedBeyond(ps[1..], pos + |ps[0].text|);
    }
  }

  /**
   The returned count is the length of the whole text, which is what the function's description
   promises, exactly when the last number or string ends inside the buffer.
   */
  lemma {:induction false} CountIsLength(ps: seq<Piece>, pos: nat, max: nat)
    ensures Position(ps, pos, max) == pos + |Text(ps)| <==> LastUncounted(ps, pos) <= max
    decreases |ps|
  {
    if ps != [] {
      var p := ps[0];
      var end := pos + |p.text|;
      LastUncountedBeyond(ps[1..], end);
      if Step(pos, |p.text|, p.counted, max) == end {
        CountIsLength(ps[1..], end, max);
      } else {
        PositionBound(ps[1..], Step(pos, |p.text|, p.counted, max), max);
      }
    }
  }

  // ----- The bounded buffer -----

  function Min(a: nat, b: nat): nat {
    if a <= b then a else b
  }

  /**
   The buffer after `done` characters of text: it holds as many of them as fit below `max`, and
   the count is exact while they fit and at least `max` afterwards.
   */
  predicate Sync(b: string, pos: nat, max: nat, done: string) {
    && max <= |b|
    && (if |done| <= max then pos == |done| else max <= pos)
    && b[..Min(pos, max)] == done[..Min(|done|, max)]
  }

  /** Nothing from the current position on, or from the end of the room on, has been written. */
  twostate predicate RestKept(buf: array<char>, pos: nat, max: nat)
    reads buf
  {
    forall k :: Min(pos, max) <= k < buf.Length ==> buf[k] == old(buf[k])
  }

  /** Stores a character if there is room, and counts it in any case. */
  method PutCounted(buf: array<char>, pos: nat, max: nat, c: char, ghost done: string) returns (pos': nat)
    requires max <= buf.Length && Sync(buf[..], pos, max, done)
    modifies buf
    ensures Sync(buf[..], pos', max, done + [c]) && RestKept(buf, pos', max) && pos' == Step(pos, 1, true, max)
  {
    if pos < max {
      buf[pos] := c;
      assert buf[..][..pos + 1] == old(buf[..pos]) + [c];
    }
    pos' := pos + 1;
  }

  /** Stores characters while there is room, and counts only those. */
  method PutClipped(buf: array<char>, pos: nat, max: nat, text: string, ghost done: string) returns (pos': nat)
    requires max <= buf.Length && Sync(buf[..], pos, max, done)
    modifies buf
    ensures Sync(buf[..], pos', max, done + text) && RestKept(buf, pos', max)
    ensures pos' == Step(pos, |text|, false, max)
  {
    pos' := pos;
    var i := 0;
    assert done + text[..0] == done;
    while i < |text| && pos' < max
      invariant i <= |text| && Sync(buf[..], pos', max, done + text[..i])
      invariant RestKept(buf, pos', max) && pos' == pos + i && (i == 0 || pos' <= max)
    {
      ghost var before := done + text[..i];
      assert text[..i + 1] == text[..i] + [text[i]];
      assert done + text[..i + 1] == before + [text[i]];
      ghost var b := buf[..];
      buf[pos'] := text[i];
      assert buf[..][..pos' + 1] == b[..pos'] + [text[i]];
      i, pos' := i + 1, pos' + 1;
    }
    ClippedRest(buf[..], pos', max, done, text, i);
  }

  lemma ClippedRest(b: string, pos: nat, max: nat, done: string, text: string, i: nat)
    requires i <= |text| && Sync(b, pos, max, done + text[..i]) && (i == |text| || max <= pos)
    ensures Sync(b, pos, max, done + text)
  {
    if i == |text| {
      assert text[..i] == text;
    } else {
      var d, e := done + text[..i], done + text;
      assert d == e[..|d|];
      assert |d| >= max;
      assert e[..max] == d[..max];
    }
  }

  /** Two clipped stretches count as one. */
  method PutBoth(buf: array<char>, pos: nat, max: nat, s: string, t: string, ghost done: string) returns (pos': nat)
    requires max <= buf.Length && Sync(buf[..], pos, max, done)
    modifies buf
    ensures Sync(buf[..], pos', max, done + (s + t)) && RestKept(buf, pos', max)
    ensures pos' == Step(pos, |s + t|, false, max)
  {
    hide Sync;
    pos' := PutClipped(buf, pos, max, s, done);
    pos' := PutClipped(buf, pos', max, t, done + s);
    assert done + s + t == done + (s + t);
  }

  /** Gathers the digits in a local buffer, last first, and emits padding, sign and the digits reversed. */
  method FormatNumber(buf: array<char>, pos: nat, max: nat, prefix: string, n: Number, ghost done: string)
    returns (pos': nat)
    requires n.Ok() && max <= buf.Length && Sync(buf[..], pos, max, done)
    modifies buf
    ensures Sync(buf[..], pos', max, done + (prefix + n.Text())) && RestKept(buf, pos', max)
    ensures pos' == Step(pos, |prefix + n.Text()|, false, max)
  {
    hide Sync, ToDigits, Reversed, DigitChar, Cased;
    var digits := GatherDigits(n);
    var sign := if n.negative then "-" else "";
    var total := |digits| + |sign|;
    var padding := Repeat(if n.padZero then '0' else ' ', if n.width > total then n.width - total else 0);
    pos' := PutBoth(buf, pos, max, prefix, padding, done);
    pos' := PutBoth(buf, pos', max, sign, digits, done + (prefix + padding));
    assert padding == n.Padding();
    assert prefix + padding + (sign + digits) == prefix + n.Text();
    assert done + (prefix + padding) + (sign + digits) == done + (prefix + padding + (sign + digits));
  }

  /** The digit loop of format_number: its local buffer of 32 characters is large enough. */
  method GatherDigits(n: Number) returns (digits: string)
    requires n.Ok()
    ensures digits == n.Digits()
  {
    hide Reversed, ToDigits, DigitChar, Reverse, Cased;
    ToDigitsStep(0, n.base);
    ZeroCased(n.upper);
    if n.magnitude == 0 {
      return "0";
    }
    var tmp := new char[32];
    var len := WriteDigits(tmp, n.magnitude, n.base);
    ReversedIsReverse(n.magnitude, n.base);
    digits := "";
    var i := len;
    ghost var r := n.Digits();
    while i > 0
      invariant 0 <= i <= len && digits == r[..len - i]
    {
      i := i - 1;
      assert r[..len - i] == r[..len - i - 1] + [r[len - i - 1]];
      assert tmp[..len][i] == tmp[i];
      digits := digits + [Cased(tmp[i], n.upper)];
    }
    assert r[..len] == r;
  }

  lemma ZeroCased(upper: bool)
    ensures DigitChar(0) == '0' && CasedAll("0", upper) == "0"
  {
  }

  /** Reads flag, width and length modifier up to and including the conversion character. */
  method ReadSpec(f: string, start: nat) returns (spec: Spec)
    requires start <= |f|
    ensures spec == ParseSpec(f, start)
  {
    var i: nat, width: nat := start, 0;
    var padZero := false;
    if i < |f| && f[i] == '0' {
      padZero := true;
      i := i + 1;
    }
    ghost var from := i;
    while i < |f| && '0' <= f[i] <= '9'
      invariant from <= i <= |f| && ParseWidth(f, i, width) == ParseWidth(f, from, 0)
    {
      width := width * 10 + (f[i] - '0') as int;
      i := i + 1;
    }
    if i < |f| && f[i] == 'l' {
      i := i + 1;
    }
    spec := if i < |f| then Spec(padZero, width, Some(f[i]), i + 1) else Spec(padZero, width, None, i);
  }

  /** The switch over the conversion character. */
  method Emit(buf: array<char>, pos: nat, max: nat, spec: Spec, arg: Arg, ghost done: string) returns (pos': nat)
    requires max <= buf.Length && Sync(buf[..], pos, max, done)
    modifies buf
    ensures var p := PieceOf(spec, arg);
      Sync(buf[..], pos', max, done + p.text) && RestKept(buf, pos', max) && pos' == Step(pos, |p.text|, p.counted, max)
  {
    hide Sync, RestKept;
    var number := NumberOf(spec, arg);
    if number.Some? {
      var prefix := if spec.conv == Some('p') then "0x" else "";
      pos' := FormatNumber(buf, pos, max, prefix, number.value, done);
    } else if spec.conv == Some('s') {
      var s := if arg.text.Some? then arg.text.value else "(null)";
      var spaces := Repeat(' ', if spec.width > |s| then spec.width - |s| else 0);
      pos' := PutBoth(buf, pos, max, spaces, s, done);
    } else {
      pos' := EmitPlain(buf, pos, max, spec, arg, done);
    }
  }

  /** The cases that count every character: a character, a percent sign, and an unknown conversion. */
  method EmitPlain(buf: array<char>, pos: nat, max: nat, spec: Spec, arg: Arg, ghost done: string) returns (pos': nat)
    requires max <= buf.Length && Sync(buf[..], pos, max, done)
    requires NumberOf(spec, arg).None? && spec.conv != Some('s')
    modifies buf
    ensures Sync(buf[..], pos', max, done + Convert(spec, arg)) && RestKept(buf, pos', max)
    ensures pos' == Step(pos, |Convert(spec, arg)|, true, max)
  {
    hide Sync, NumberOf;
    if spec.conv == Some('c') {
      pos' := PutCounted(buf, pos, max, (arg.bits % 0x100) as char, done);
    } else {
      pos' := PutCounted(buf, pos, max, '%', done);
      if spec.conv != Some('%') {
        var c := if spec.conv.Some? then spec.conv.value else '\0';
        pos' := PutCounted(buf, pos', max, c, done + ['%']);
        assert done + ['%'] + [c] == done + ['%', c];
      }
    }
  }

  /** One turn of the loop over the format: a literal character or a conversion. */
  method EmitPiece(buf: array<char>, pos: nat, max: nat, f: string, i: nat, args: seq<Arg>, a: nat, ghost done: string)
    returns (pos': nat, i': nat, a': nat)
    requires i < |f| && max <= buf.Length && Sync(buf[..], pos, max, done)
    modifies buf
    ensures i < i' <= |f| && pos <= pos' && RestKept(buf, pos', max)
    ensures var ps := Pieces(f, i, args, a);
      && ps != []
      && ps[1..] == Pieces(f, i', args, a')
      && Sync(buf[..], pos', max, done + ps[0].text)
      && pos' == Step(pos, |ps[0].text|, ps[0].counted, max)
  {
    hide Sync, PieceOf, TakesArg, ArgAt, ParseSpec;
    if f[i] != '%' {
      pos' := PutCounted(buf, pos, max, f[i], done);
      i', a' := i + 1, a;
    } else {
      var spec := ReadSpec(f, i + 1);
      pos' := Emit(buf, pos, max, spec, ArgAt(args, a), done);
      i', a' := spec.next, if TakesArg(spec) then a + 1 else a;
    }
  }

  /** The loop over the format. */
  method Fill(buf: array<char>, max: nat, f: string, args: seq<Arg>) returns (pos: nat)
    requires max <= buf.Length
    modifies buf
    ensures Sync(buf[..], pos, max, Render(f, args)) && RestKept(buf, pos, max)
    ensures pos == Position(Pieces(f, 0, args, 0), 0, max)
  {
    hide Pieces;
    pos := 0;
    var i, a := 0, 0;
    ghost var done, ps := "", Pieces(f, 0, args, 0);
    while i < |f|
      invariant i <= |f| && ps == Pieces(f, i, args, a)
      invariant Sync(buf[..], pos, max, done) && RestKept(buf, pos, max)
      invariant done + Text(ps) == Render(f, args)
      invariant Position(ps, pos, max) == Position(Pieces(f, 0, args, 0), 0, max)
      decreases |f| - i
    {
      pos, i, a := EmitPiece(buf, pos, max, f, i, args, a, done);
      ghost var text := ps[0].text;
      assert done + text + Text(ps[1..]) == done + (text + Text(ps[1..]));
      done, ps := done + text, ps[1..];
    }
    NoPieces(f, args, a);
    assert done == Render(f, args);
  }

  /**
   The buffer ends up holding as much of the whole text as fits before the terminator, nothing
   after the terminator is written, and the count is exact if the text fits.
   */
  method Vsnprintf(buf: array<char>, size: nat, f: string, args: seq<Arg>) returns (pos: nat)
    requires size <= buf.Length
    modifies buf
    ensures size == 0 ==> buf[..] == old(buf[..])
    ensures var text := Render(f, args);
      var n := if |text| < size then |text| else size - 1;
      size > 0 ==> buf[..] == text[..n] + ['\0'] + old(buf[n + 1..])
    ensures var text := Render(f, args);
      if |text| < size then pos == |text| else pos + 1 >= size
    ensures pos == Position(Pieces(f, 0, args, 0), 0, if size == 0 then 0 else size - 1)
  {
    hide Position, Pieces, Render;
    var max := if size == 0 then 0 else size - 1;
    pos := Fill(buf, max, f, args);
    assert max == 0 ==> buf[..] == old(buf[..]);
    if size > 0 {
      ghost var b := buf[..];
      var n := if pos < max then pos else max;
      assert b[n + 1..] == old(buf[n + 1..]);
      buf[n] := '\0';
      assert buf[..] == b[..n] + ['\0'] + b[n + 1..];
    }
  }

  lemma NoPieces(f: string, args: seq<Arg>, a: nat)
    ensures Pieces(f, |f|, args, a) == []
  {
  }
}
