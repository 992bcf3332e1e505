/**
 Splitting a string at a delimiter into at most a given number of tokens, and joining
 tokens with a separator.
 */
module SplitJoin {
  import opened Options

  // ----- Meaning -----

  predicate DelimAt(s: string, d: string, i: nat) {
    i + |d| <= |s| && s[i..i + |d|] == d
  }

  /** The first position from `p` on where `d` stands, or the end of `s`. */
  function Find(s: string, d: string, p: nat): (e: nat)
    requires p <= |s|
    ensures p <= e <= |s|
    decreases |s| - p
  {
    if p == |s| || DelimAt(s, d, p) then p else Find(s, d, p + 1)
  }

  /** The tokens of `s` from `p` on, at most `max` of them. */
  function SplitFrom(s: string, d: string, p: nat, max: nat): (r: seq<string>)
    requires d != [] && p <= |s|
    ensures r != []
    decreases |s| - p
  {
    var e := Find(s, d, p);
    if max <= 1 || !DelimAt(s, d, e) then [s[p..]]
    else [s[p..e]] + SplitFrom(s, d, e + |d|, max - 1)
  }

  function Join(sep: string, parts: seq<string>): string {
    if parts == [] then ""
    else if |parts| == 1 then parts[0]
    else parts[0] + sep + Join(sep, parts[1..])
  }

  predicate Contains(s: string, d: string) {
    exists i :: 0 <= i <= |s| && DelimAt(s, d, i)
  }

  // ----- Laws -----

  lemma {:induction false} FindFirst(s: string, d: string, p: nat)
    requires p <= |s| && d != []
    ensures Find(s, d, p) == |s| || DelimAt(s, d, Find(s, d, p))
    ensures DelimAt(s, d, Find(s, d, p)) ==> Find(s, d, p) < |s|
    ensures forall i :: p <= i < Find(s, d, p) ==> !DelimAt(s, d, i)
    decreases |s| - p
  {
    if p < |s| && !DelimAt(s, d, p) {
      FindFirst(s, d, p + 1);
    }
  }

  /** Joining the tokens with the delimiter gives the string back. */
  lemma {:induction false} JoinSplit(s: string, d: string, p: nat, max: nat)
    requires d != [] && p <= |s|
    ensures Join(d, SplitFrom(s, d, p, max)) == s[p..]
    decreases |s| - p
  {
    var e := Find(s, d, p);
    if max > 1 && DelimAt(s, d, e) {
      JoinSplit(s, d, e + |d|, max - 1);
      var r := SplitFrom(s, d, p, max);
      assert r[1..] == SplitFrom(s, d, e + |d|, max - 1);
      assert s[p..e] + s[e..e + |d|] + s[e + |d|..] == s[p..];
    }
  }

  /**
   There are at most `max` tokens (one if `max` is 0), none but the last contains the delimiter,
   and the last does only when the limit was reached.
   */
  lemma {:induction false} SplitTokens(s: string, d: string, p: nat, max: nat)
    requires d != [] && p <= |s|
    ensures var r := SplitFrom(s, d, p, max);
      && |r| <= (if max == 0 then 1 else max)
      && (forall i :: 0 <= i < |r| - 1 ==> !Contains(r[i], d))
      && (|r| < max ==> !Contains(r[|r| - 1], d))
    decreases |s| - p
  {
    hide Contains, DelimAt, Find;
    var e := Find(s, d, p);
    FindFirst(s, d, p);
    DelimRoom(s, d, e);
    if max > 1 && DelimAt(s, d, e) {
      SplitTokens(s, d, e + |d|, max - 1);
      NoneInside(s, d, p, e);
      var r := SplitFrom(s, d, p, max);
      assert r[1..] == SplitFrom(s, d, e + |d|, max - 1);
      assert forall i :: 1 <= i < |r| ==> r[i] == r[1..][i - 1];
    } else if max > 1 {
      NoneInside(s, d, p, |s|);
      assert s[p..|s|] == s[p..];
    }
  }

  lemma NoneInside(s: string, d: string, p: nat, e: nat)
    requires d != [] && p <= e <= |s| && forall i :: p <= i < e ==> !DelimAt(s, d, i)
    ensures !Contains(s[p..e], d)
  {
    var t := s[p..e];
    forall i | 0 <= i <= |t|
      ensures !DelimAt(t, d, i)
    {
      if DelimAt(t, d, i) {
        var u := s[p + i..p + i + |d|];
        assert forall k :: 0 <= k < |d| ==> u[k] == t[i + k] == t[i..i + |d|][k];
        assert DelimAt(s, d, p + i);
        assert false;
      }
    }
  }

  // ----- The code -----

  lemma FindStep(s: string, d: string, p: nat, max: nat)
    requires d != [] && p < |s|
    ensures !DelimAt(s, d, p) ==> |SplitFrom(s, d, p, max)| == |SplitFrom(s, d, p + 1, max)|
    ensures max <= 1 ==> |SplitFrom(s, d, p, max)| == 1 == |SplitFrom(s, d, p + 1, max)|
    ensures DelimAt(s, d, p) && max > 1 ==> |SplitFrom(s, d, p, max)| == 1 + |SplitFrom(s, d, p + |d|, max - 1)|
  {
  }

  /** The first pass: how many tokens there will be. */
  method CountTokens(str: string, delimiter: string, max: nat) returns (tokens: nat)
    requires delimiter != [] && max >= 1
    ensures tokens == |SplitFrom(str, delimiter, 0, max)|
  {
    hide SplitFrom, DelimAt;
    tokens := 1;
    var p := 0;
    while p < |str|
      invariant p <= |str| && 1 <= tokens <= max
      invariant tokens - 1 + |SplitFrom(str, delimiter, p, max - tokens + 1)| == |SplitFrom(str, delimiter, 0, max)|
    {
      FindStep(str, delimiter, p, max - tokens + 1);
      DelimRoom(str, delimiter, p);
      if DelimAt(str, delimiter, p) && tokens < max {
        tokens := tokens + 1;
        p := p + |delimiter|;
      } else {
        p := p + 1;
      }
    }
    AtEnd(str, delimiter, max - tokens + 1);
  }

  lemma DelimRoom(s: string, d: string, p: nat)
    ensures DelimAt(s, d, p) ==> p + |d| <= |s|
  {
  }

  lemma AtEnd(s: string, d: string, max: nat)
    requires d != []
    ensures SplitFrom(s, d, |s|, max) == [""]
  {
    assert s[|s|..] == "";
  }

  lemma SplitCases(s: string, d: string, p: nat, max: nat)
    requires d != [] && p <= |s|
    ensures var r, e := SplitFrom(s, d, p, max), Find(s, d, p);
      && (|r| == 1 ==> r == [s[p..]])
      && (|r| > 1 ==> max > 1 && e + |d| <= |s| && e < |s| && r == [s[p..e]] + SplitFrom(s, d, e + |d|, max - 1))
  {
  }

  /** The position of the next delimiter, or the end. */
  method ScanToken(str: string, delimiter: string, p: nat) returns (end: nat)
    requires delimiter != [] && p <= |str|
    ensures end == Find(str, delimiter, p)
  {
    end := p;
    while end < |str| && !DelimAt(str, delimiter, end)
      invariant p <= end <= |str| && Find(str, delimiter, p) == Find(str, delimiter, end)
    {
      end := end + 1;
    }
  }

  method StrSplit(str: Option<string>, delimiter: Option<string>, maxTokens: int) returns (r: Option<seq<string>>)
    ensures r == None <==> str == None || delimiter == None || maxTokens < 1 || delimiter.value == []
    ensures r.Some? ==> r.value == SplitFrom(str.value, delimiter.value, 0, maxTokens)
  {
    hide SplitFrom, DelimAt;
    if str == None || delimiter == None || maxTokens < 1 {
      return None;
    }
    var s, d := str.value, delimiter.value;
    if |d| == 0 {
      return None;
    }
    var tokens := CountTokens(s, d, maxTokens);
    ghost var all := SplitFrom(s, d, 0, maxTokens);
    var result: seq<string>, p := [], 0;
    assert result + SplitFrom(s, d, 0, maxTokens) == all;
    while p < |s| && |result| < tokens - 1
      invariant 0 <= p <= |s| && |result| <= tokens - 1 && |result| < maxTokens
      invariant result + SplitFrom(s, d, p, maxTokens - |result|) == all
      decreases tokens - |result|
    {
      ghost var rest := SplitFrom(s, d, p, maxTokens - |result|);
      assert |result + rest| == |all|;
      SplitCases(s, d, p, maxTokens - |result|);
      var end := ScanToken(s, d, p);
      assert result + rest == (result + [s[p..end]]) + SplitFrom(s, d, end + |d|, maxTokens - |result| - 1);
      result := result + [s[p..end]];
      p := end + |d|;
    }
    ghost var rest := SplitFrom(s, d, p, maxTokens - |result|);
    assert |result + rest| == |all|;
    if p == |s| {
      AtEnd(s, d, maxTokens - |result|);
      assert s[p..] == "";
    } else {
      SplitCases(s, d, p, maxTokens - |result|);
    }
    r := Some(result + [s[p..]]);
  }

  // ----- Joining -----

  function TotalWithSeparators(sep: string, parts: seq<string>): nat {
    if parts == [] then 0 else |parts[0]| + |sep| + TotalWithSeparators(sep, parts[1..])
  }

  lemma {:induction false} JoinLength(sep: string, parts: seq<string>)
    ensures parts != [] ==> TotalWithSeparators(sep, parts) == |Join(sep, parts)| + |sep|
  {
    if |parts| > 1 {
      JoinLength(sep, parts[1..]);
    } else if |parts| == 1 {
      assert parts[1..] == [];
    }
  }

  /** Copies `text` to `buf` from `pos` on. */
  method Append(buf: array<char>, pos: nat, text: string) returns (end: nat)
    requires pos + |text| <= buf.Length
    modifies buf
    ensures end == pos + |text| && buf[..end] == old(buf[..pos]) + text
  {
    end := pos;
    var i := 0;
    while i < |text|
      invariant i <= |text| && end == pos + i
      invariant buf[..end] == old(buf[..pos]) + text[..i]
    {
      buf[end] := text[i];
      i, end := i + 1, end + 1;
    }
  }

  lemma {:induction false} JoinStep(sep: string, parts: seq<string>, i: nat)
    requires i < |parts|
    ensures Join(sep, parts[..i + 1]) == if i == 0 then parts[0] else Join(sep, parts[..i]) + sep + parts[i]
    decreases |parts|
  {
    if i > 0 {
      var rest := parts[1..];
      JoinStep(sep, rest, i - 1);
      assert parts[..i + 1][1..] == rest[..i];
      assert parts[..i][1..] == rest[..i - 1];
      if i == 1 {
        assert rest[..1] == [parts[1]];
      }
    }
  }

  lemma {:induction false} JoinPrefix(sep: string, parts: seq<string>, i: nat)
    requires i <= |parts|
    ensures |Join(sep, parts[..i])| <= |Join(sep, parts)|
    decreases |parts| - i
  {
    if i < |parts| {
      JoinPrefix(sep, parts, i + 1);
      JoinStep(sep, parts, i);
    } else {
      assert parts[..i] == parts;
    }
  }

  /**
   Computes the length first, then fills a buffer of just that length: every write is inside it,
   and together they fill it exactly. A null separator joins with nothing in between.
   */
  method StrJoinv(separator: Option<string>, strArray: Option<seq<string>>)
    returns (r: Option<string>, ghost total: nat)
    ensures r == None <==> strArray == None
    ensures r.Some? ==> r.value == Join(if separator.Some? then separator.value else "", strArray.value)
    ensures r.Some? ==> total == |r.value|
  {
    hide Join, TotalWithSeparators;
    total := 0;
    if strArray == None {
      return None, 0;
    }
    var sep, parts := if separator.Some? then separator.value else "", strArray.value;
    var n := ComputedLength(sep, parts);
    var result := new char[n + 1];
    var pos, i := 0, 0;
    assert Join(sep, parts[..0]) == "" by {
      NothingJoined(sep, parts);
    }
    while i < |parts|
      invariant 0 <= i <= |parts| && 0 <= pos <= n && result[..pos] == Join(sep, parts[..i])
    {
      JoinStep(sep, parts, i);
      JoinPrefix(sep, parts, i + 1);
      if separator.Some? && i != 0 {
        pos := Append(result, pos, sep);
      }
      pos := Append(result, pos, parts[i]);
      i := i + 1;
    }
    assert parts[..i] == parts;
    result[pos] := '\0';
    r, total := Some(result[..pos]), n;
  }

  lemma NothingJoined(sep: string, parts: seq<string>)
    ensures Join(sep, parts[..0]) == ""
  {
  }

  method ComputedLength(sep: string, parts: seq<string>) returns (total: nat)
    ensures total == |Join(sep, parts)|
  {
    var sum, i := 0, 0;
    while i < |parts|
      invariant 0 <= i <= |parts| && sum + TotalWithSeparators(sep, parts[i..]) == TotalWithSeparators(sep, parts)
    {
      assert parts[i..][1..] == parts[i + 1..];
      sum := sum + |parts[i]| + |sep|;
      i := i + 1;
    }
    JoinLength(sep, parts);
    if sum > 0 {
      sum := sum - |sep|;
    }
    total := sum;
  }
}
