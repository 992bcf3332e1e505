/**
 The glob matcher that selects configuration sections for a seat: '*' stands for any
 characters, '?' for one.
 */
module Glob {
  import opened Options

  /** What a pattern means. */
  ghost predicate Matches(pat: string, str: string)
    decreases |pat|
  {
    if pat == [] then str == []
    else if pat[0] == '*' then exists k :: 0 <= k <= |str| && Matches(pat[1..], str[k..])
    else str != [] && (pat[0] == '?' || pat[0] == str[0]) && Matches(pat[1..], str[1..])
  }

  /** `pat` from `p` on matches `str` from `s` on. */
  ghost predicate MatchesAt(pat: string, str: string, p: nat, s: nat) {
    p <= |pat| && s <= |str| && Matches(pat[p..], str[s..])
  }

  lemma AtEnd(pat: string, str: string, s: nat)
    requires s <= |str|
    ensures MatchesAt(pat, str, |pat|, s) <==> s == |str|
  {
  }

  /** Some suffix of `str`, from `s` on, is matched by `pat` from `p` on. */
  ghost predicate MatchesFrom(pat: string, str: string, p: nat, s: nat) {
    exists k :: s <= k <= |str| && MatchesAt(pat, str, p, k)
  }

  lemma AtStar(pat: string, str: string, p: nat, s: nat)
    requires p < |pat| && s <= |str| && pat[p] == '*'
    ensures MatchesAt(pat, str, p, s) <==> MatchesFrom(pat, str, p + 1, s)
  {
    var q, t, p' := pat[p..], str[s..], p + 1;
    assert q[1..] == pat[p'..];
    if Matches(q, t) {
      var k :| 0 <= k <= |t| && Matches(q[1..], t[k..]);
      assert t[k..] == str[s + k..];
      assert MatchesAt(pat, str, p', s + k);
    }
    if k :| s <= k <= |str| && MatchesAt(pat, str, p', k) {
      assert t[k - s..] == str[k..];
    }
  }

  lemma AtOther(pat: string, str: string, p: nat, s: nat)
    requires p < |pat| && s <= |str| && pat[p] != '*'
    ensures MatchesAt(pat, str, p, s) <==>
      s < |str| && (pat[p] == '?' || pat[p] == str[s]) && MatchesAt(pat, str, p + 1, s + 1)
  {
    var q, t := pat[p..], str[s..];
    assert q[1..] == pat[p + 1..];
    assert s < |str| ==> t[1..] == str[s + 1..];
  }

  predicate StarFree(pat: string, from: nat, to: nat) {
    forall i :: from <= i < to && i < |pat| ==> pat[i] != '*'
  }

  /** A stretch without stars takes one character for each of its own. */
  lemma {:induction false} StretchTakes(pat: string, str: string, from: nat, to: nat, s: nat)
    requires from <= to <= |pat| && s <= |str| && StarFree(pat, from, to) && MatchesAt(pat, str, from, s)
    ensures s + (to - from) <= |str| && MatchesAt(pat, str, to, s + (to - from))
    decreases |pat| - from
  {
    hide MatchesAt;
    if from < to {
      AtOther(pat, str, from, s);
      StretchTakes(pat, str, from + 1, to, s + 1);
    }
  }

  /** Some restart of the last star, later than `ss`, leads to a match. */
  ghost predicate Restart(pat: string, str: string, sp: nat, ss: nat) {
    exists k :: ss < k <= |str| && MatchesAt(pat, str, sp, k)
  }

  /** What the search still has to decide. */
  ghost predicate Open(pat: string, str: string, p: nat, s: nat, star: bool, sp: nat, ss: nat) {
    MatchesAt(pat, str, p, s) || (star && Restart(pat, str, sp, ss))
  }

  /** At a new star the earlier star need not be kept: whatever it could still reach, the new one reaches. */
  lemma NewStar(pat: string, str: string, p: nat, s: nat, star: bool, sp: nat, ss: nat)
    requires p < |pat| && s <= |str| && pat[p] == '*'
    requires star ==> sp <= p && ss <= s && s - ss == p - sp && StarFree(pat, sp, p)
    ensures Open(pat, str, p, s, star, sp, ss) <==> Open(pat, str, p + 1, s, true, p + 1, s)
  {
    hide MatchesAt;
    AtStar(pat, str, p, s);
    if star && Restart(pat, str, sp, ss) {
      var k :| ss < k <= |str| && MatchesAt(pat, str, sp, k);
      StretchTakes(pat, str, sp, p, k);
      var j := k + (p - sp);
      AtStar(pat, str, p, j);
      assert MatchesFrom(pat, str, p + 1, s);
    }
  }

  lemma NoMatchHere(pat: string, str: string, p: nat, s: nat)
    requires p <= |pat| && s < |str|
    requires p == |pat| || (pat[p] != '*' && pat[p] != '?' && pat[p] != str[s])
    ensures !MatchesAt(pat, str, p, s)
  {
    hide MatchesAt;
    if p < |pat| {
      AtOther(pat, str, p, s);
    } else {
      AtEnd(pat, str, s);
    }
  }

  lemma Advance(pat: string, str: string, sp: nat, ss: nat)
    requires ss < |str|
    ensures Restart(pat, str, sp, ss) <==> MatchesAt(pat, str, sp, ss + 1) || Restart(pat, str, sp, ss + 1)
  {
    hide MatchesAt;
  }

  /** Once the string is used up, only trailing stars may be left, and no restart can help. */
  lemma AtStringEnd(pat: string, str: string, p: nat, star: bool, sp: nat, ss: nat)
    requires p <= |pat|
    requires star ==> sp <= p && ss <= |str| && |str| - ss == p - sp && StarFree(pat, sp, p)
    ensures Open(pat, str, p, |str|, star, sp, ss) <==> MatchesAt(pat, str, p, |str|)
  {
    hide MatchesAt;
    if star && Restart(pat, str, sp, ss) {
      var k :| ss < k <= |str| && MatchesAt(pat, str, sp, k);
      StretchTakes(pat, str, sp, p, k);
      assert false;
    }
  }

  lemma SkipStar(pat: string, str: string, p: nat)
    requires p < |pat| && pat[p] == '*'
    ensures MatchesAt(pat, str, p, |str|) <==> MatchesAt(pat, str, p + 1, |str|)
  {
    hide MatchesAt;
    AtStar(pat, str, p, |str|);
  }

  /** The matcher, which backtracks only to the last star; null pointers never match. */
  method PatternMatchSimple(pattern: Option<string>, subject: Option<string>) returns (r: bool)
    ensures r <==> pattern.Some? && subject.Some? && Matches(pattern.value, subject.value)
  {
    if pattern == None || subject == None {
      return false;
    }
    var pat, str := pattern.value, subject.value;
    hide Matches, MatchesAt;
    assert MatchesAt(pat, str, 0, 0) <==> Matches(pat, str) by {
      Whole(pat, str);
    }
    var p, s := 0, 0;
    var star, sp, ss := false, 0, 0;
    while s < |str|
      invariant p <= |pat| && s <= |str|
      invariant star ==> sp <= p && ss <= s && s - ss == p - sp && StarFree(pat, sp, p)
      invariant Matches(pat, str) <==> Open(pat, str, p, s, star, sp, ss)
      decreases if star then |str| - ss else |str| + 1, |pat| - p
    {
      if p < |pat| && pat[p] == '*' {
        NewStar(pat, str, p, s, star, sp, ss);
        p := p + 1;
        star, sp, ss := true, p, s;
      } else if p < |pat| && (pat[p] == '?' || pat[p] == str[s]) {
        AtOther(pat, str, p, s);
        p, s := p + 1, s + 1;
      } else {
        NoMatchHere(pat, str, p, s);
        if star {
          Advance(pat, str, sp, ss);
          p := sp;
          ss := ss + 1;
          s := ss;
        } else {
          return false;
        }
      }
    }
    AtStringEnd(pat, str, p, star, sp, ss);
    while p < |pat| && pat[p] == '*'
      invariant p <= |pat|
      invariant Matches(pat, str) <==> MatchesAt(pat, str, p, |str|)
    {
      SkipStar(pat, str, p);
      p := p + 1;
    }
    if p == |pat| {
      AtEnd(pat, str, |str|);
    } else {
      AtOther(pat, str, p, |str|);
    }
    r := p == |pat|;
  }

  lemma Whole(pat: string, str: string)
    ensures MatchesAt(pat, str, 0, 0) <==> Matches(pat, str)
  {
    assert pat[0..] == pat && str[0..] == str;
  }
}
