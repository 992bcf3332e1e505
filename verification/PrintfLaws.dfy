/**
 What vsnprintf's rendering means, conversion by conversion and for whole formats, said without
 the functions that compute it.
 */
module PrintfLaws {
  import opened ByteTypes
  import opened Options
  import opened Numbers
  import opened Printf

  /** `t` is `core` at the right of `width` columns, or alone if it is wider. */
  predicate RightAligned(t: string, width: nat, pad: char, core: string) {
    && |t| == (if width > |core| then width else |core|)
    && t[|t| - |core|..] == core
    && forall i :: 0 <= i < |t| - |core| ==> t[i] == pad
  }

  lemma NumberAligned(n: Number)
    requires n.Ok()
    ensures var core := (if n.negative then "-" else "") + n.Digits();
      RightAligned(n.Text(), n.width, if n.padZero then '0' else ' ', core)
  {
    var core := (if n.negative then "-" else "") + n.Digits();
    assert n.Text() == n.Padding() + core;
  }

  lemma NoCase(s: string)
    ensures CasedAll(s, false) == s
  {
  }

  /** Upper-case digits are those of the table. */
  predicate UpperDigits(s: string, v: nat) {
    var d := ToDigits(v, 16);
    |s| == |d| && forall i :: 0 <= i < |d| ==> DigitValue(d[i]) < 16 && s[i] == "0123456789ABCDEF"[DigitValue(d[i])]
  }

  lemma UpperTable(c: char)
    requires DigitValue(c) < 16 && !('A' <= c <= 'Z')
    ensures Cased(c, true) == "0123456789ABCDEF"[DigitValue(c)]
  {
  }

  lemma {:induction false} NoUpperIn(v: nat, i: nat)
    requires i < |ToDigits(v, 16)|
    ensures !('A' <= ToDigits(v, 16)[i] <= 'Z')
    decreases v
  {
    hide ToDigits;
    ToDigitsStep(v, 16);
    if v >= 16 && i < |ToDigits(v / 16, 16)| {
      NoUpperIn(v / 16, i);
    }
  }

  lemma UpperHolds(v: UInt32)
    ensures UpperDigits(CasedAll(ToDigits(v, 16), true), v)
  {
    hide ToDigits, DigitValue, Cased;
    DigitsParse(v, 16);
    var d := ToDigits(v, 16);
    forall i | 0 <= i < |d|
      ensures Cased(d[i], true) == "0123456789ABCDEF"[DigitValue(d[i])]
    {
      NoUpperIn(v, i);
      UpperTable(d[i]);
    }
  }

  // ----- One conversion -----

  lemma SignedAligned(v: Int32, width: nat, padZero: bool)
    ensures RightAligned(
      SignedNumber(v, width, padZero).Text(), width, if padZero then '0' else ' ', SignedText(if v <= 0 then v else 0))
  {
    hide ToDigits, RightAligned;
    var n := SignedNumber(v, width, padZero);
    NumberAligned(n);
    NoCase(ToDigits(n.magnitude, 10));
    assert "" + ToDigits(n.magnitude, 10) == ToDigits(n.magnitude, 10);
  }

  lemma SignedConvert(spec: Spec, arg: Arg)
    requires spec.conv == Some('d') || spec.conv == Some('i')
    ensures Convert(spec, arg) == SignedNumber(Signed(arg.bits), spec.width, spec.padZero).Text()
  {
    hide Number.Text;
    var t := SignedNumber(Signed(arg.bits), spec.width, spec.padZero).Text();
    assert "" + t == t;
  }

  /** %d and %i: the value if it is not positive, and otherwise 0, aligned; a sign stands behind padding zeros. */
  lemma SignedText10(spec: Spec, arg: Arg)
    requires spec.conv == Some('d') || spec.conv == Some('i')
    ensures var v := if arg.bits >= 0x8000_0000 then arg.bits - 0x1_0000_0000 else arg.bits;
      var printed := if v <= 0 then v else 0;
      RightAligned(Convert(spec, arg), spec.width, if spec.padZero then '0' else ' ', SignedText(printed))
  {
    hide Convert, RightAligned, SignedText, SignedNumber, Number.Text;
    SignedConvert(spec, arg);
    SignedAligned(Signed(arg.bits), spec.width, spec.padZero);
  }

  /** %u, %o, %x and %X: the digits of the word in their base, aligned. */
  lemma UnsignedText(spec: Spec, arg: Arg)
    requires spec.conv.Some? && spec.conv.value in {'u', 'o', 'x', 'X'}
    ensures var pad := if spec.padZero then '0' else ' ';
      && (spec.conv == Some('u') ==> RightAligned(Convert(spec, arg), spec.width, pad, ToDigits(arg.bits, 10)))
      && (spec.conv == Some('o') ==> RightAligned(Convert(spec, arg), spec.width, pad, ToDigits(arg.bits, 8)))
      && (spec.conv == Some('x') ==> RightAligned(Convert(spec, arg), spec.width, pad, ToDigits(arg.bits, 16)))
      && (spec.conv == Some('X') ==>
            exists d :: UpperDigits(d, arg.bits) && RightAligned(Convert(spec, arg), spec.width, pad, d))
  {
    hide ToDigits, RightAligned, UpperDigits;
    var n := NumberOf(spec, arg).value;
    NumberAligned(n);
    assert Convert(spec, arg) == "" + n.Text() == n.Text();
    assert "" + n.Digits() == n.Digits();
    NoCase(ToDigits(n.magnitude, n.base));
    if spec.conv == Some('X') {
      UpperHolds(arg.bits);
      assert UpperDigits(n.Digits(), arg.bits);
    }
  }

  /** %p: a prefix and at least eight digits, whatever the width. */
  lemma PointerText(spec: Spec, arg: Arg)
    requires spec.conv == Some('p')
    ensures |Convert(spec, arg)| >= 2 && Convert(spec, arg)[..2] == "0x"
    ensures RightAligned(Convert(spec, arg)[2..], 8, '0', ToDigits(arg.bits, 16))
  {
    hide ToDigits;
    var n := NumberOf(spec, arg).value;
    NumberAligned(n);
    NoCase(ToDigits(arg.bits, 16));
    assert "" + n.Digits() == n.Digits();
    assert Convert(spec, arg) == "0x" + n.Text();
  }

  /** %s aligns its string with blanks; %c gives one character; %% gives a percent sign; others give themselves. */
  lemma OtherText(spec: Spec, arg: Arg)
    ensures spec.conv == Some('s') ==>
      RightAligned(Convert(spec, arg), spec.width, ' ', if arg.text.Some? then arg.text.value else "(null)")
    ensures spec.conv == Some('c') ==> Convert(spec, arg) == [(arg.bits % 0x100) as char]
    ensures spec.conv == Some('%') ==> Convert(spec, arg) == "%"
    ensures spec.conv == None ==> Convert(spec, arg) == "%\0"
    ensures spec.conv.Some? && spec.conv.value !in "diuxXopcs%" ==> Convert(spec, arg) == "%" + [spec.conv.value]
  {
  }

  /** Every conversion but %% and the unknown ones takes one argument. */
  lemma ArgumentsTaken(spec: Spec)
    ensures TakesArg(spec) <==> spec.conv.Some? && spec.conv.value in "diuxXopcs"
  {
  }

  lemma Pad(t: string, width: nat, core: string) returns (pad: string)
    requires RightAligned(t, width, ' ', core)
    ensures t == pad + core && forall k :: 0 <= k < |pad| ==> pad[k] == ' '
  {
    pad := t[..|t| - |core|];
  }

  /** strtol reads a blank-padded %d back as the value printed. */
  lemma SignedReadsBack(spec: Spec, arg: Arg)
    requires (spec.conv == Some('d') || spec.conv == Some('i')) && !spec.padZero
    ensures var v := if arg.bits >= 0x8000_0000 then arg.bits - 0x1_0000_0000 else arg.bits;
      ParseSigned(Convert(spec, arg), 10) == (v < 0, if v < 0 then 0 - v else 0, |Convert(spec, arg)|)
  {
    hide Convert, RightAligned, ParseSigned, SignedText, SkipSpaces, IsSpace;
    var v: int := if arg.bits >= 0x8000_0000 then arg.bits - 0x1_0000_0000 else arg.bits;
    var printed := if v <= 0 then v else 0;
    SignedText10(spec, arg);
    var pad := Pad(Convert(spec, arg), spec.width, SignedText(printed));
    SignedRoundTrip(printed);
    SignedStart(printed);
    SkipPadding(pad, SignedText(printed), 0);
    AfterPadding(pad, SignedText(printed));
  }

  lemma SignedStart(v: int)
    ensures SignedText(v) != [] && !IsSpace(SignedText(v)[0])
    ensures SkipSpaces(SignedText(v), 0) == 0
  {
    if v >= 0 {
      DigitsParse(v, 10);
      NoPrefix(ToDigits(v, 10), 10);
    }
  }

  lemma AfterPadding(pad: string, s: string)
    requires s != [] && SkipSpaces(s, 0) == 0 && SkipSpaces(pad + s, 0) == |pad|
    ensures var (negative, m, end) := ParseSigned(s, 10);
      ParseSigned(pad + s, 10) == (negative, m, |pad| + end)
  {
    var j := if s[0] == '-' || s[0] == '+' then 1 else 0;
    assert (pad + s)[|pad|] == s[0];
    ParseAfter(pad, s, j, 10, 0);
  }

  // ----- Whole formats -----

  /** A format without directives renders as itself. */
  lemma {:induction false} PlainFormat(f: string, i: nat, args: seq<Arg>, a: nat)
    requires i <= |f| && '%' !in f
    ensures Printf.Text(Pieces(f, i, args, a)) == f[i..]
    decreases |f| - i
  {
    if i < |f| {
      assert f[i] in f;
      PlainFormat(f, i + 1, args, a);
      var ps := Pieces(f, i, args, a);
      assert ps[1..] == Pieces(f, i + 1, args, a);
      assert f[i..] == [f[i]] + f[i + 1..];
    }
  }

  lemma {:induction false} WidthAfter(x: string, y: string, i: nat, w: nat)
    requires i <= |y|
    ensures var r := ParseWidth(y, i, w);
      ParseWidth(x + y, |x| + i, w) == (r.0, |x| + r.1)
    decreases |y| - i
  {
    if i < |y| {
      assert (x + y)[|x| + i] == y[i];
      if '0' <= y[i] <= '9' {
        WidthAfter(x, y, i + 1, w * 10 + (y[i] - '0') as int);
      }
    }
  }

  lemma SpecAfter(x: string, y: string, i: nat)
    requires i <= |y|
    ensures var s := ParseSpec(y, i);
      ParseSpec(x + y, |x| + i) == Spec(s.padZero, s.width, s.conv, |x| + s.next)
  {
    assert forall k :: 0 <= k < |y| ==> (x + y)[|x| + k] == y[k];
    WidthAfter(x, y, if i < |y| && y[i] == '0' then i + 1 else i, 0);
  }

  lemma PiecesStep(f: string, i: nat, args: seq<Arg>, a: nat)
    requires i < |f|
    ensures f[i] != '%' ==> Pieces(f, i, args, a) == [Piece([f[i]], true)] + Pieces(f, i + 1, args, a)
    ensures f[i] == '%' ==>
      var spec := ParseSpec(f, i + 1);
      Pieces(f, i, args, a)
      == [PieceOf(spec, ArgAt(args, a))] + Pieces(f, spec.next, args, if TakesArg(spec) then a + 1 else a)
  {
  }

  /** Where a specification ends does not matter for what it says. */
  lemma SameText(s: Spec, t: Spec, arg: Arg)
    requires s.padZero == t.padZero && s.width == t.width && s.conv == t.conv
    ensures PieceOf(s, arg) == PieceOf(t, arg) && PieceOf(s, arg).text == Convert(t, arg)
    ensures TakesArg(s) == TakesArg(t)
  {
  }

  lemma NoPiecesLeft(f: string, args: seq<Arg>, a: nat)
    ensures Pieces(f, |f|, args, a) == []
  {
  }

  /** One directive, given what the rest of the format gives. */
  lemma PiecesAt(f: string, i: nat, args: seq<Arg>, a: nat, spec: Spec, rest: seq<Piece>)
    requires i < |f| && f[i] == '%' && spec == ParseSpec(f, i + 1)
    requires rest == Pieces(f, spec.next, args, if TakesArg(spec) then a + 1 else a)
    ensures Pieces(f, i, args, a) == [PieceOf(spec, ArgAt(args, a))] + rest
  {
  }

  /** What stands before a position does not matter. */
  lemma {:induction false} PiecesAfter(x: string, y: string, i: nat, args: seq<Arg>, a: nat)
    requires i <= |y|
    ensures Pieces(x + y, |x| + i, args, a) == Pieces(y, i, args, a)
    decreases |y| - i
  {
    hide *;
    var f, k := x + y, |x| + i;
    if i == |y| {
      NoPiecesLeft(f, args, a);
      NoPiecesLeft(y, args, a);
    } else {
      assert f[k] == y[i];
      if y[i] != '%' {
        PiecesStep(y, i, args, a);
        PiecesStep(f, k, args, a);
        PiecesAfter(x, y, i + 1, args, a);
        assert |x| + (i + 1) == k + 1;
      } else {
        PiecesAfterDirective(x, y, i, args, a);
      }
    }
  }

  lemma {:induction false} PiecesAfterDirective(x: string, y: string, i: nat, args: seq<Arg>, a: nat)
    requires i < |y| && y[i] == '%'
    ensures Pieces(x + y, |x| + i, args, a) == Pieces(y, i, args, a)
    decreases |y| - i, 0
  {
    hide *;
    var spec, spec' := ParseSpec(y, i + 1), ParseSpec(x + y, |x| + i + 1);
    SpecAfter(x, y, i + 1);
    assert |x| + (i + 1) == |x| + i + 1;
    SameText(spec, spec', ArgAt(args, a));
    var b := if TakesArg(spec) then a + 1 else a;
    PiecesAfter(x, y, spec.next, args, b);
    var rest := Pieces(y, spec.next, args, b);
    PiecesAt(y, i, args, a, spec, rest);
    PiecesAt(x + y, |x| + i, args, a, spec', rest);
  }

  function Rest(args: seq<Arg>): seq<Arg> {
    if args == [] then [] else args[1..]
  }

  /** Arguments already taken do not matter. */
  lemma {:induction false} PiecesRest(f: string, i: nat, args: seq<Arg>, a: nat)
    requires i <= |f|
    ensures Pieces(f, i, args, a + 1) == Pieces(f, i, Rest(args), a)
    decreases |f| - i
  {
    assert i == |f| ==> Pieces(f, i, args, a + 1) == [] == Pieces(f, i, Rest(args), a);
    assert ArgAt(args, a + 1) == ArgAt(Rest(args), a);
    hide Pieces, PieceOf, TakesArg, ParseSpec, ArgAt, Rest;
    if i < |f| {
      PiecesStep(f, i, args, a + 1);
      PiecesStep(f, i, Rest(args), a);
      if f[i] != '%' {
        PiecesRest(f, i + 1, args, a);
      } else {
        var spec := ParseSpec(f, i + 1);
        PiecesRest(f, spec.next, args, if TakesArg(spec) then a + 1 else a);
      }
    }
  }

  lemma FirstText(p: Piece, rest: seq<Piece>)
    ensures Printf.Text([p] + rest) == p.text + Printf.Text(rest)
  {
    assert ([p] + rest)[1..] == rest;
  }

  lemma RenderIs(f: string, args: seq<Arg>)
    ensures Render(f, args) == Printf.Text(Pieces(f, 0, args, 0))
  {
  }

  lemma LiteralFirst(c: char, f: string, args: seq<Arg>)
    requires c != '%'
    ensures Render([c] + f, args) == [c] + Render(f, args)
  {
    hide *;
    var g := [c] + f;
    PiecesStep(g, 0, args, 0);
    PiecesAfter([c], f, 0, args, 0);
    FirstText(Piece([c], true), Pieces(f, 0, args, 0));
    RenderIs(g, args);
    RenderIs(f, args);
  }

  /** Characters before the first directive are copied. */
  lemma {:induction false} LiteralPrefix(pre: string, f: string, args: seq<Arg>)
    requires '%' !in pre
    ensures Render(pre + f, args) == pre + Render(f, args)
    decreases |pre|
  {
    hide *;
    if pre == "" {
      assert pre + f == f;
    } else {
      assert pre + f == [pre[0]] + (pre[1..] + f) && pre[0] in pre;
      LiteralFirst(pre[0], pre[1..] + f, args);
      LiteralPrefix(pre[1..], f, args);
    }
  }

  /** A directive as it is written: zero flag, width, length modifier, conversion. */
  function Directive(zero: bool, width: nat, long: bool, c: char): string {
    "%" + (if zero then "0" else "") + (if width > 0 then ToDigits(width, 10) else "")
    + (if long then "l" else "") + [c]
  }

  lemma {:induction false} WidthIsNumber(f: string, i: nat, w: nat)
    requires i <= |f|
    ensures ParseWidth(f, i, w) == ParseDigits(f, i, 10, w)
    decreases |f| - i
  {
    if i < |f| {
      if '0' <= f[i] <= '9' {
        WidthIsNumber(f, i + 1, w * 10 + (f[i] - '0') as int);
      }
    }
  }

  /** Digits end where something else begins. */
  lemma {:induction false} DigitsEnd(s: string, rest: string, i: nat, acc: nat)
    requires i <= |s| && rest != "" && !('0' <= rest[0] <= '9')
    ensures ParseDigits(s + rest, i, 10, acc) == ParseDigits(s, i, 10, acc)
    decreases |s| - i
  {
    if i < |s| {
      DigitsEnd(s, rest, i + 1, acc * 10 + DigitValue(s[i]));
    }
  }

  lemma WidthParsed(width: nat, rest: string)
    requires rest != "" && !('0' <= rest[0] <= '9')
    ensures var w := if width > 0 then ToDigits(width, 10) else "";
      ParseWidth(w + rest, 0, 0) == (width, |w|)
  {
    var w := if width > 0 then ToDigits(width, 10) else "";
    WidthIsNumber(w + rest, 0, 0);
    DigitsEnd(w, rest, 0, 0);
    DigitsParse(width, 10);
  }

  lemma SpecFrom(f: string, i: nat, zero: bool, width: nat, j: nat, long: bool, c: char)
    requires i < |f| && (zero <==> f[i] == '0') && ParseWidth(f, if zero then i + 1 else i, 0) == (width, j)
    requires j < |f| && (long <==> f[j] == 'l')
    requires var k := if long then j + 1 else j; k < |f| && f[k] == c
    ensures ParseSpec(f, i) == Spec(zero, width, Some(c), if long then j + 2 else j + 1)
  {
  }

  /** A directive is read as it was written. */
  lemma DirectiveParsed(zero: bool, width: nat, long: bool, c: char, post: string)
    requires !('0' <= c <= '9') && (c == 'l' ==> long)
    ensures var d := Directive(zero, width, long, c);
      ParseSpec(d + post, 1) == Spec(zero, width, Some(c), |d|)
  {
    hide ToDigits, ParseWidth, ParseSpec;
    var d := Directive(zero, width, long, c);
    var head, w := "%" + (if zero then "0" else ""), if width > 0 then ToDigits(width, 10) else "";
    var tail := (if long then "l" else "") + [c] + post;
    var f := d + post;
    assert f == head + (w + tail);
    WidthParsed(width, tail);
    WidthAfter(head, w + tail, 0, 0);
    assert (w + tail)[0] != '0' by {
      if width > 0 {
        NoLeadingZero(width);
      }
    }
    SpecFrom(f, 1, zero, width, |head| + |w|, long, c);
  }

  lemma DirectiveStarts(zero: bool, width: nat, long: bool, c: char, post: string)
    ensures |Directive(zero, width, long, c)| > 0 && (Directive(zero, width, long, c) + post)[0] == '%'
  {
  }

  lemma DirectiveFirst(zero: bool, width: nat, long: bool, c: char, post: string, args: seq<Arg>)
    requires !('0' <= c <= '9') && (c == 'l' ==> long)
    ensures var text := Convert(Spec(zero, width, Some(c), 0), ArgAt(args, 0));
      Render(Directive(zero, width, long, c) + post, args)
      == text + Render(post, if c in "diuxXopcs" then Rest(args) else args)
  {
    hide *;
    var d := Directive(zero, width, long, c);
    var f, spec, arg := d + post, Spec(zero, width, Some(c), |d|), ArgAt(args, 0);
    DirectiveStarts(zero, width, long, c, post);
    DirectiveParsed(zero, width, long, c, post);
    ArgumentsTaken(spec);
    SameText(spec, Spec(zero, width, Some(c), 0), arg);
    var a := if TakesArg(spec) then 1 else 0;
    PiecesAfter(d, post, 0, args, a);
    PiecesRest(post, 0, args, 0);
    var rest := Pieces(post, 0, args, a);
    PiecesAt(f, 0, args, 0, spec, rest);
    FirstText(PieceOf(spec, arg), rest);
    RenderIs(f, args);
    RenderIs(post, args);
    RenderIs(post, Rest(args));
  }

  /**
   A format is rendered directive by directive: what comes before is copied, the directive is
   replaced by its text, and the rest is rendered with the arguments that are left.
   */
  lemma DirectiveRendered(
    pre: string, zero: bool, width: nat, long: bool, c: char, post: string, args: seq<Arg>)
    requires '%' !in pre && !('0' <= c <= '9') && (c == 'l' ==> long)
    ensures var text := Convert(Spec(zero, width, Some(c), 0), ArgAt(args, 0));
      Render(pre + (Directive(zero, width, long, c) + post), args)
      == pre + (text + Render(post, if c in "diuxXopcs" then Rest(args) else args))
  {
    hide *;
    LiteralPrefix(pre, Directive(zero, width, long, c) + post, args);
    DirectiveFirst(zero, width, long, c, post, args);
  }
}
