/**
 What the display manager announces about its seats, compared with the seats it lists.
 */
module SeatLedger {
  import opened DisplayManager

  function AddedIn(log: seq<Event>): multiset<Seat> {
    if log == [] then multiset{}
    else AddedIn(log[..|log| - 1]) + if log[|log| - 1].SeatAdded? then multiset{log[|log| - 1].seat} else multiset{}
  }

  function RemovedIn(log: seq<Event>): multiset<Seat> {
    if log == [] then multiset{}
    else RemovedIn(log[..|log| - 1]) + if log[|log| - 1].SeatRemoved? then multiset{log[|log| - 1].seat} else multiset{}
  }

  predicate HasBegun(log: seq<Event>) {
    exists i :: 0 <= i < |log| && log[i].Began?
  }

  /**
   Every listed seat was announced as added; until stopping the seats are those added and not
   removed, and no removal is announced after that.
   */
  ghost predicate Ledger(s: State) {
    && multiset(s.seats) + RemovedIn(s.log) <= AddedIn(s.log)
    && (!s.stopping ==> multiset(s.seats) + RemovedIn(s.log) == AddedIn(s.log))
    && (HasBegun(s.log) <==> s.stopping)
    && (forall i :: 0 <= i < |s.log| && s.log[i].SeatRemoved? ==> !HasBegun(s.log[..i]))
  }

  lemma LedgerAppend(log: seq<Event>, e: Event)
    requires forall i :: 0 <= i < |log| && log[i].SeatRemoved? ==> !HasBegun(log[..i])
    requires e.SeatRemoved? ==> !HasBegun(log)
    ensures AddedIn(log + [e]) == AddedIn(log) + if e.SeatAdded? then multiset{e.seat} else multiset{}
    ensures RemovedIn(log + [e]) == RemovedIn(log) + if e.SeatRemoved? then multiset{e.seat} else multiset{}
    ensures HasBegun(log + [e]) <==> HasBegun(log) || e.Began?
    ensures forall i :: 0 <= i < |log + [e]| && (log + [e])[i].SeatRemoved? ==> !HasBegun((log + [e])[..i])
  {
    var l := log + [e];
    assert l[..|log|] == log && l[|log|] == e;
    assert forall i :: 0 <= i < |log| ==> l[i] == log[i] && l[..i] == log[..i];
  }

  /** One more event, with the seats changed as it says. */
  lemma LedgerStep(s: State, t: State, e: Event)
    requires Ledger(s) && t.log == s.log + [e] && t.stopping == (s.stopping || e.Began?)
    requires e.SeatRemoved? ==> !s.stopping
    requires multiset(t.seats) + (if e.SeatRemoved? then multiset{e.seat} else multiset{})
             == multiset(s.seats) + (if e.SeatAdded? then multiset{e.seat} else multiset{})
    ensures Ledger(t)
  {
    hide AddedIn, RemovedIn, HasBegun;
    LedgerAppend(s.log, e);
    var removed := if e.SeatRemoved? then multiset{e.seat} else multiset{};
    var added := if e.SeatAdded? then multiset{e.seat} else multiset{};
    Balance(multiset(s.seats), multiset(t.seats), RemovedIn(s.log), AddedIn(s.log), removed, added);
  }

  lemma Balance(before: multiset<Seat>, after: multiset<Seat>, out: multiset<Seat>, all: multiset<Seat>,
                removed: multiset<Seat>, added: multiset<Seat>)
    requires after + removed == before + added
    ensures before + out <= all ==> after + (out + removed) <= all + added
    ensures before + out == all ==> after + (out + removed) == all + added
  {
    assert forall x :: after[x] + removed[x] == (after + removed)[x] == before[x] + added[x];
  }

  /** Without an event, seats may only leave, and only once stopping. */
  lemma LedgerQuiet(s: State, t: State)
    requires Ledger(s) && t.log == s.log && t.stopping == s.stopping
    requires multiset(t.seats) <= multiset(s.seats) && (!s.stopping ==> t.seats == s.seats)
    ensures Ledger(t)
  {
    hide AddedIn, RemovedIn, HasBegun;
  }

  lemma CheckLedger(s: State)
    requires Ledger(s)
    ensures Ledger(Check(s))
  {
    hide Ledger;
    if Check(s) != s {
      LedgerStep(s, Check(s), Stopped(true, 0));
    }
  }

  lemma ResumedLedger(s: State, started: bool)
    requires Ledger(s) && s.calls != []
    ensures Ledger(Resumed(s, started))
  {
    hide Ledger, Check;
    var front, last := s.calls[..|s.calls| - 1], s.calls[|s.calls| - 1];
    if last.Stopping? && last.rest != [] {
      LedgerStep(s, Resumed(s, started), Asked(last.rest[0]));
    } else if last.Adding? && started {
      LedgerStep(s, Resumed(s, started), SeatAdded(last.seat));
    } else {
      LedgerQuiet(s, s.(calls := front));
      CheckLedger(s.(calls := front));
    }
  }

  lemma AfterLedger(s: State, step: Step)
    requires Ledger(s)
    ensures Ledger(After(s, step))
  {
    hide Ledger, Check, Resumed, RemoveFirst;
    match step {
      case Stop =>
        if !s.stopping {
          LedgerStep(s, After(s, step), Began(s.seats));
        }
      case SeatStopped(seat) =>
        if seat in s.seats {
          RemoveFirstCounts(s.seats, seat);
          if s.stopping {
            LedgerQuiet(s, s.(seats := RemoveFirst(s.seats, seat)));
            CheckLedger(s.(seats := RemoveFirst(s.seats, seat)));
          } else {
            LedgerStep(s, After(s, step), SeatRemoved(seat));
          }
        }
      case AddSeat(_) => LedgerQuiet(s, After(s, step));
      case Resume(started) =>
        if s.calls != [] {
          ResumedLedger(s, started);
        }
    }
  }

  lemma {:induction false} LedgerKept(s: State, steps: seq<Step>)
    requires Ledger(s)
    ensures Ledger(Run(s, steps))
    decreases |steps|
  {
    hide Ledger, After;
    if steps != [] {
      AfterLedger(s, steps[0]);
      LedgerKept(After(s, steps[0]), steps[1..]);
    }
  }

  /**
   In every run until stopping, the seats are those announced as added and not as removed;
   afterwards they are some of these.
   */
  lemma RunLedger(steps: seq<Step>)
    ensures var s := Run(INITIAL, steps);
      && multiset(s.seats) + RemovedIn(s.log) <= AddedIn(s.log)
      && (!s.stopping ==> multiset(s.seats) + RemovedIn(s.log) == AddedIn(s.log))
  {
    hide Run;
    LedgerKept(INITIAL, steps);
  }

  /** In every run no removal is announced once the manager has begun to stop. */
  lemma NoRemovalAfterStop(steps: seq<Step>, i: nat, j: nat)
    requires i < j < |Run(INITIAL, steps).log| && Run(INITIAL, steps).log[i].Began?
    ensures !Run(INITIAL, steps).log[j].SeatRemoved?
  {
    hide Run;
    LedgerKept(INITIAL, steps);
    assert Run(INITIAL, steps).log[..j][i].Began?;
  }
}
