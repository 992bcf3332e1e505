/**
 The fallback chain of seat types: when a seat is removed, the next type of its list that can be
 created takes its place, with the rest of the list as its own.
 */
module SeatFallback {
  import opened Options
  import SplitJoin

  /** What a GString of 512 bytes holds besides its terminator. */
  const ROOM: nat := 511

  function Cut(s: string): (t: string)
    ensures t <= s && |t| == if |s| <= 511 then |s| else 511
  {
    if |s| <= ROOM then s else s[..ROOM]
  }

  /** g_string_append and g_string_append_c keep what fits; so does g_string_assign on an empty string. */
  function Append(s: string, t: string): (r: string)
    requires |s| <= ROOM
    ensures |r| <= ROOM
  {
    if |s| + |t| <= ROOM then s + t else s + t[..ROOM - |s|]
  }

  lemma AppendCut(s: string, t: string)
    ensures Append(Cut(s), t) == Cut(s + t)
  {
  }

  /** The index of the first type behind the current one for which a seat can be created, or the length. */
  function FirstCreatable(types: seq<string>, creates: string -> bool, i: nat): (k: nat)
    requires i <= |types|
    ensures i <= k <= |types|
    decreases |types| - i
  {
    if i == |types| || creates(ModuleName(types[i])) then i else FirstCreatable(types, creates, i + 1)
  }

  lemma {:induction false} NoneBefore(types: seq<string>, creates: string -> bool, i: nat)
    requires i <= |types|
    ensures forall j :: i <= j < FirstCreatable(types, creates, i) ==> !Creatable(creates, types[j])
    decreases |types| - i
  {
    if i < |types| {
      NoneBefore(types, creates, i + 1);
    }
  }

  /** create_seat maps the deprecated name. */
  function ModuleName(name: string): string {
    if name == "xlocal" then "local" else name
  }

  /**
   The loop of display_manager_seat_removed_cb: which type is tried next, and the type property
   the next seat gets. `creates` says for which modules a seat can be made.
   */
  method ScanTypes(types: Option<seq<string>>, creates: string -> bool)
    returns (next: Option<string>, nextTypes: string)
    ensures next == None <==>
      types == None || FirstCreatable(types.value, creates, MinIndex(types.value)) == |types.value|
    ensures next.Some? ==>
      var k := FirstCreatable(types.value, creates, MinIndex(types.value));
      && 1 <= k < |types.value| && next.value == types.value[k] && creates(ModuleName(next.value))
      && nextTypes == Cut(SplitJoin.Join(";", types.value[k..]))
  {
    next, nextTypes := None, "";
    if types == None {
      return;
    }
    hide SplitJoin.Join, ModuleName, Cut, Append;
    var ts := types.value;
    ghost var k := FirstCreatable(ts, creates, MinIndex(ts));
    var i := 0;
    while i < |ts|
      invariant 0 <= i <= |ts| && |nextTypes| <= ROOM
      invariant next == None ==> i <= 1 || FirstCreatable(ts, creates, i) == k
      invariant next.Some? ==> 1 <= k < i && next.value == ts[k] && creates(ModuleName(ts[k]))
      invariant next.Some? ==> nextTypes == Cut(SplitJoin.Join(";", ts[k..i]))
    {
      if i > 0 {
        if next == None {
          if creates(ModuleName(ts[i])) {
            next := Some(ts[i]);
            assert ts[i..i + 1] == [ts[i]];
            FirstType(ts[i]);
          }
          nextTypes := Append("", ts[i]);
        } else {
          NextType(ts, k, i);
          nextTypes := Append(Append(nextTypes, ";"), ts[i]);
        }
      }
      i := i + 1;
    }
    assert next.Some? ==> ts[k..|ts|] == ts[k..];
  }

  /** A seat of this type can be made; "xlocal" is the deprecated name of "local". */
  predicate Creatable(creates: string -> bool, t: string) {
    if t == "xlocal" then creates("local") else creates(t)
  }

  /** The next seat is of the first type behind the current one that can be made, if there is one. */
  method NextSeat(types: Option<seq<string>>, creates: string -> bool)
    returns (next: Option<string>, nextTypes: string)
    ensures next == None <==>
      types == None || forall j :: 1 <= j < |types.value| ==> !Creatable(creates, types.value[j])
    ensures next.Some? ==> exists k :: 1 <= k < |types.value| && IsNext(types.value, creates, k, next.value, nextTypes)
  {
    hide FirstCreatable, Cut, SplitJoin.Join;
    next, nextTypes := ScanTypes(types, creates);
    if types.Some? {
      ghost var ts := types.value;
      NoneBefore(ts, creates, MinIndex(ts));
      assert next.Some? ==>
        IsNext(ts, creates, FirstCreatable(ts, creates, MinIndex(ts)), next.value, nextTypes);
    }
  }

  /** Type `k` is the first that can be made, and the list is it and all behind it. */
  ghost predicate IsNext(types: seq<string>, creates: string -> bool, k: int, next: string, nextTypes: string) {
    && 1 <= k < |types| && next == types[k] && Creatable(creates, next)
    && (forall j :: 1 <= j < k ==> !Creatable(creates, types[j]))
    && nextTypes == Cut(SplitJoin.Join(";", types[k..]))
  }

  lemma JoinOneMore(ts: seq<string>, k: nat, i: nat)
    requires k < i < |ts|
    ensures SplitJoin.Join(";", ts[k..i + 1]) == SplitJoin.Join(";", ts[k..i]) + ";" + ts[i]
  {
    assert ts[k..][..i - k] == ts[k..i] && ts[k..][..i - k + 1] == ts[k..i + 1];
    SplitJoin.JoinStep(";", ts[k..], i - k);
  }

  lemma FirstType(t: string)
    ensures Append("", t) == Cut(SplitJoin.Join(";", [t]))
  {
    JoinCases([t]);
    AppendCut("", t);
    assert "" + t == t;
  }

  lemma NextType(ts: seq<string>, k: nat, i: nat)
    requires k < i < |ts|
    ensures Append(Append(Cut(SplitJoin.Join(";", ts[k..i])), ";"), ts[i]) == Cut(SplitJoin.Join(";", ts[k..i + 1]))
  {
    hide SplitJoin.Join, Cut, Append;
    JoinOneMore(ts, k, i);
    AppendCut(SplitJoin.Join(";", ts[k..i]), ";");
    AppendCut(SplitJoin.Join(";", ts[k..i]) + ";", ts[i]);
  }

  function MinIndex(types: seq<string>): nat {
    if |types| == 0 then 0 else 1
  }

  /** A string without the delimiter. */
  predicate Plain(s: string) {
    ';' !in s
  }

  lemma SplitAt(s: string, p: nat, e: nat, max: nat)
    requires p <= e < |s| && SplitJoin.Find(s, ";", p) == e && s[e] == ';' && max > 1
    ensures SplitJoin.SplitFrom(s, ";", p, max) == [s[p..e]] + SplitJoin.SplitFrom(s, ";", e + 1, max - 1)
  {
    assert s[e..e + 1] == ";";
  }

  lemma SplitNowhere(s: string, p: nat, max: nat)
    requires p <= |s| && SplitJoin.Find(s, ";", p) == |s|
    ensures SplitJoin.SplitFrom(s, ";", p, max) == [s[p..]]
  {
  }

  lemma JoinCases(ts: seq<string>)
    requires ts != []
    ensures SplitJoin.Join(";", ts) == if |ts| == 1 then ts[0] else ts[0] + ";" + SplitJoin.Join(";", ts[1..])
  {
  }

  /** The type property written for a seat splits back into the list it was made from. */
  lemma {:induction false} TypesSplitBack(pre: string, ts: seq<string>, max: nat)
    requires ts != [] && (forall i :: 0 <= i < |ts| ==> Plain(ts[i])) && |ts| <= max
    ensures SplitJoin.SplitFrom(pre + SplitJoin.Join(";", ts), ";", |pre|, max) == ts
    decreases |ts|
  {
    hide SplitJoin.SplitFrom, SplitJoin.Find, SplitJoin.Join;
    JoinCases(ts);
    var s, e := pre + SplitJoin.Join(";", ts), |pre| + |ts[0]|;
    assert s[|pre|..e] == ts[0];
    if |ts| == 1 {
      FindFrom(pre, ts[0], "");
      assert pre + ts[0] + "" == s;
      SplitNowhere(s, |pre|, max);
    } else {
      var rest := SplitJoin.Join(";", ts[1..]);
      FindFrom(pre, ts[0], ";" + rest);
      assert s == pre + ts[0] + (";" + rest);
      SplitAt(s, |pre|, e, max);
      var pre' := pre + ts[0] + ";";
      assert s == pre' + rest;
      TypesSplitBack(pre', ts[1..], max - 1);
    }
  }

  /** How often the delimiter occurs. */
  function Semis(s: string): nat {
    multiset(s)[';']
  }

  lemma SemisConcat(s: string, t: string)
    ensures Semis(s + t) == Semis(s) + Semis(t)
  {
    assert multiset(s + t) == multiset(s) + multiset(t);
  }

  /** Splitting gives at most one token more than there are delimiters. */
  lemma {:induction false} SplitCount(s: string, p: nat, max: nat)
    requires p <= |s|
    ensures |SplitJoin.SplitFrom(s, ";", p, max)| <= 1 + Semis(s[p..])
    decreases |s| - p
  {
    hide SplitJoin.SplitFrom, SplitJoin.Find, Semis;
    SplitJoin.SplitCases(s, ";", p, max);
    var r, e := SplitJoin.SplitFrom(s, ";", p, max), SplitJoin.Find(s, ";", p);
    if |r| > 1 {
      DelimiterFound(s, p);
      assert s[p..] == s[p..e] + ";" + s[e + 1..];
      SemisConcat(s[p..e] + ";", s[e + 1..]);
      SemisConcat(s[p..e], ";");
      OneSemi();
      SplitCount(s, e + 1, max - 1);
    }
  }

  lemma OneSemi()
    ensures Semis(";") == 1 && Semis("") == 0
  {
  }

  lemma DelimiterFound(s: string, p: nat)
    requires p <= |s| && SplitJoin.Find(s, ";", p) < |s|
    ensures p <= SplitJoin.Find(s, ";", p) && s[SplitJoin.Find(s, ";", p)] == ';'
  {
    SplitJoin.FindFirst(s, ";", p);
  }

  lemma {:induction false} JoinSemis(ts: seq<string>)
    requires ts != [] && forall i :: 0 <= i < |ts| ==> Plain(ts[i])
    ensures Semis(SplitJoin.Join(";", ts)) == |ts| - 1
    decreases |ts|
  {
    JoinCases(ts);
    assert Plain(ts[0]);
    if |ts| > 1 {
      JoinSemis(ts[1..]);
      SemisConcat(ts[0] + ";", SplitJoin.Join(";", ts[1..]));
      SemisConcat(ts[0], ";");
    }
  }

  /**
   Each fallback leaves a strictly shorter list of types to try, at any limit of tokens and even if
   the property was cut; it is the rest of the list exactly when neither limit was reached.
   */
  lemma FallbackShrinks(types: seq<string>, k: nat, max: nat)
    requires 1 <= k < |types| && 1 <= max && forall i :: 0 <= i < |types| ==> Plain(types[i])
    ensures var all := SplitJoin.Join(";", types[k..]);
      var next := SplitJoin.SplitFrom(Cut(all), ";", 0, max);
      && |next| <= |types| - k < |types|
      && (next == types[k..] <==> |all| <= ROOM && |types| - k <= max)
  {
    hide SplitJoin.SplitFrom, SplitJoin.Join, Semis;
    var all := SplitJoin.Join(";", types[k..]);
    var cut := Cut(all);
    JoinSemis(types[k..]);
    SplitCount(cut, 0, max);
    assert all == cut + all[|cut|..] && cut[0..] == cut;
    SemisConcat(cut, all[|cut|..]);
    SplitJoin.JoinSplit(cut, ";", 0, max);
    SplitJoin.SplitTokens(cut, ";", 0, max);
    if |all| <= ROOM && |types| - k <= max {
      TypesSplitBack("", types[k..], max);
      assert "" + all == all;
    }
  }

  lemma {:induction false} FindFrom(pre: string, s: string, t: string)
    requires Plain(s) && (t == "" || t[0] == ';')
    ensures SplitJoin.Find(pre + s + t, ";", |pre|) == |pre| + |s|
    decreases |s|
  {
    var u := pre + s + t;
    if s == "" {
      if t != "" {
        assert u[|pre|..|pre| + 1] == ";";
      }
    } else {
      assert u[|pre|..|pre| + 1][0] == s[0] != ';';
      assert u == (pre + s[..1]) + s[1..] + t;
      FindFrom(pre + s[..1], s[1..], t);
    }
  }

  /** The type list of a seat, as seat_get_string_list_property asks for it: with a limit of 0 tokens. */
  method SeatTypes(property: Option<string>) returns (types: Option<seq<string>>)
    ensures types == None
  {
    types := SplitJoin.StrSplit(property, Some(";"), 0);
  }
}
