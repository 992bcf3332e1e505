/**
 Shutting the display manager down. Stopping a seat, starting a seat and emitting a signal
 hand control to code that may call back at once, so the manager's unfinished calls are kept
 as an explicit stack: whoever has control may start a new call or let the innermost one go on.
 A run is any sequence of such steps.
 */
module DisplayManager {

  type Seat = nat

  /** A call of the manager that is waiting for foreign code to return. */
  datatype Call =
    | Stopping(rest: seq<Seat>)   // display_manager_stop, with the seats it still has to stop
    | Removing                    // seat_stopped_cb, while SEAT_REMOVED is emitted
    | Adding(seat: Seat)          // display_manager_add_seat, while the seat starts

  datatype Event =
    | SeatAdded(seat: Seat)
    | SeatRemoved(seat: Seat)
    | Began(seats: seq<Seat>)     // the manager began to stop, with these seats listed
    | Asked(seat: Seat)           // seat_stop was called
    | Stopped(stopping: bool, seatsLeft: nat)

  /** `late`: a seat finished starting after the manager began to stop. */
  datatype State = State(
    seats: seq<Seat>, stopping: bool, stopped: bool, log: seq<Event>, calls: seq<Call>, late: bool)

  /** What whoever has control may do next. */
  datatype Step =
    | Stop
    | SeatStopped(seat: Seat)
    | AddSeat(seat: Seat)
    | Resume(started: bool)       // the innermost call goes on; `started` is what seat_start returned

  // ----- One step -----

  function RemoveFirst(seats: seq<Seat>, seat: Seat): seq<Seat>
    requires seat in seats
  {
    if seats[0] == seat then seats[1..] else [seats[0]] + RemoveFirst(seats[1..], seat)
  }

  function Check(s: State): State {
    if s.stopping && !s.stopped && s.seats == [] then s.(stopped := true, log := s.log + [Stopped(true, 0)]) else s
  }

  /** The innermost call goes on. */
  function Resumed(s: State, started: bool): State
    requires s.calls != []
  {
    var (front, last) := (s.calls[..|s.calls| - 1], s.calls[|s.calls| - 1]);
    match last
    case Stopping(rest) =>
      if rest == [] then Check(s.(calls := front))
      else s.(calls := front + [Stopping(rest[1..])], log := s.log + [Asked(rest[0])])
    case Removing => Check(s.(calls := front))
    case Adding(seat) =>
      if started
      then s.(seats := s.seats + [seat], calls := front, log := s.log + [SeatAdded(seat)], late := s.late || s.stopping)
      else s.(calls := front)
  }

  /** A step that does not apply changes nothing. */
  function After(s: State, step: Step): State {
    match step
    case Stop =>
      if s.stopping then s
      else s.(stopping := true, log := s.log + [Began(s.seats)], calls := s.calls + [Stopping(s.seats)])
    case SeatStopped(seat) =>
      if seat !in s.seats then s
      else
        var t := s.(seats := RemoveFirst(s.seats, seat));
        if s.stopping then Check(t) else t.(log := s.log + [SeatRemoved(seat)], calls := s.calls + [Removing])
    case AddSeat(seat) => if s.stopping then s else s.(calls := s.calls + [Adding(seat)])
    case Resume(started) => if s.calls == [] then s else Resumed(s, started)
  }

  function Run(s: State, steps: seq<Step>): State
    decreases |steps|
  {
    if steps == [] then s else Run(After(s, steps[0]), steps[1..])
  }

  const INITIAL: State := State([], false, false, [], [], false)

  lemma RemoveFirstCounts(seats: seq<Seat>, seat: Seat)
    requires seat in seats
    ensures multiset(RemoveFirst(seats, seat)) == multiset(seats) - multiset{seat}
    ensures |RemoveFirst(seats, seat)| == |seats| - 1
  {
    assert seats == [seats[0]] + seats[1..];
  }

  lemma {:induction false} RemoveFirstAt(seats: seq<Seat>, seat: Seat, i: nat)
    requires i < |seats| && seats[i] == seat && seat !in seats[..i]
    ensures RemoveFirst(seats, seat) == seats[..i] + seats[i + 1..]
  {
    if i > 0 {
      assert seats[0] == seats[..i][0];
      assert seats[1..][..i - 1] == seats[..i][1..];
      RemoveFirstAt(seats[1..], seat, i - 1);
    }
  }

  // ----- What every run keeps -----

  function CountStopped(log: seq<Event>): nat {
    if log == [] then 0 else CountStopped(log[..|log| - 1]) + if log[|log| - 1].Stopped? then 1 else 0
  }

  /** The seats asked to stop, in order. */
  function AskedIn(log: seq<Event>): seq<Seat> {
    if log == [] then []
    else AskedIn(log[..|log| - 1]) + if log[|log| - 1].Asked? then [log[|log| - 1].seat] else []
  }

  /** The seats listed when stopping began. */
  function BeganIn(log: seq<Event>): seq<Seat> {
    if log == [] then []
    else BeganIn(log[..|log| - 1]) + if log[|log| - 1].Began? then log[|log| - 1].seats else []
  }

  lemma LogAppend(log: seq<Event>, e: Event)
    ensures CountStopped(log + [e]) == CountStopped(log) + if e.Stopped? then 1 else 0
    ensures AskedIn(log + [e]) == AskedIn(log) + if e.Asked? then [e.seat] else []
    ensures BeganIn(log + [e]) == BeganIn(log) + if e.Began? then e.seats else []
  {
    assert (log + [e])[..|log|] == log;
  }

  /** Some unfinished call will still look whether the manager has stopped. */
  ghost predicate WillCheck(calls: seq<Call>) {
    exists i :: 0 <= i < |calls| && !calls[i].Adding?
  }

  /** Some seat is being started. */
  ghost predicate SeatStarting(calls: seq<Call>) {
    exists i :: 0 <= i < |calls| && calls[i].Adding?
  }

  /** How many unfinished calls of display_manager_stop there are. */
  function Stops(calls: seq<Call>): nat {
    if calls == [] then 0 else Stops(calls[..|calls| - 1]) + if calls[|calls| - 1].Stopping? then 1 else 0
  }

  /** The seats that unfinished calls still have to ask. */
  function Rests(calls: seq<Call>): seq<Seat> {
    if calls == [] then []
    else Rests(calls[..|calls| - 1]) + if calls[|calls| - 1].Stopping? then calls[|calls| - 1].rest else []
  }

  /** How often the unfinished calls can go on, counting two for a seat that may join and then stop. */
  function Work(calls: seq<Call>): nat {
    if calls == [] then 0
    else Work(calls[..|calls| - 1]) + CallWork(calls[|calls| - 1])
  }

  function CallWork(c: Call): nat {
    match c
    case Stopping(rest) => 1 + |rest|
    case Removing => 1
    case Adding(_) => 2
  }

  lemma CallsAppend(calls: seq<Call>, c: Call)
    ensures SeatStarting(calls + [c]) <==> SeatStarting(calls) || c.Adding?
    ensures WillCheck(calls + [c]) <==> WillCheck(calls) || !c.Adding?
    ensures Stops(calls + [c]) == Stops(calls) + if c.Stopping? then 1 else 0
    ensures Rests(calls + [c]) == Rests(calls) + if c.Stopping? then c.rest else []
    ensures Work(calls + [c]) == Work(calls) + CallWork(c)
  {
    var all := calls + [c];
    assert all[..|calls|] == calls && all[|calls|] == c;
    assert forall i :: 0 <= i < |calls| ==> all[i] == calls[i];
  }

  lemma {:induction false} NoStopsNoRests(calls: seq<Call>)
    ensures Stops(calls) == 0 ==> Rests(calls) == []
    decreases |calls|
  {
    if calls != [] {
      NoStopsNoRests(calls[..|calls| - 1]);
    }
  }

  /** Everything Ok says but the promise that a check is still to come. */
  ghost predicate AlmostOk(s: State) {
    && (s.stopped ==> s.stopping && (s.seats == [] || s.late))
    && CountStopped(s.log) == (if s.stopped then 1 else 0)
    && (forall i :: 0 <= i < |s.log| && s.log[i].Stopped? ==> s.log[i].stopping && s.log[i].seatsLeft == 0)
    && Stops(s.calls) <= (if s.stopping then 1 else 0)
    && (!s.stopping ==> BeganIn(s.log) == [])
    && AskedIn(s.log) + Rests(s.calls) == BeganIn(s.log)
  }

  ghost predicate Ok(s: State) {
    AlmostOk(s) && (s.stopping && s.seats == [] && !s.stopped ==> WillCheck(s.calls))
  }

  lemma CheckOk(s: State)
    requires AlmostOk(s)
    ensures Ok(Check(s))
  {
    hide AskedIn, BeganIn, CountStopped, Stops, Rests;
    LogAppend(s.log, Stopped(true, 0));
  }

  lemma StoppingResumedOk(s: State, front: seq<Call>, rest: seq<Seat>)
    requires Ok(s) && s.calls == front + [Stopping(rest)] && rest != []
    ensures Ok(s.(calls := front + [Stopping(rest[1..])], log := s.log + [Asked(rest[0])]))
  {
    hide AskedIn, BeganIn, CountStopped, Stops, Rests, WillCheck, Work, SeatStarting;
    CallsAppend(front, Stopping(rest));
    NoStopsNoRests(front);
    CallsAppend(front, Stopping(rest[1..]));
    LogAppend(s.log, Asked(rest[0]));
    assert rest == [rest[0]] + rest[1..];
  }

  lemma ResumedOk(s: State, started: bool)
    requires Ok(s) && s.calls != []
    ensures Ok(Resumed(s, started))
  {
    hide AskedIn, BeganIn, CountStopped, Stops, Rests, WillCheck, Check, Work, SeatStarting;
    var front, last := s.calls[..|s.calls| - 1], s.calls[|s.calls| - 1];
    assert s.calls == front + [last];
    CallsAppend(front, last);
    if last.Stopping? && last.rest != [] {
      StoppingResumedOk(s, front, last.rest);
    } else if last.Adding? {
      LogAppend(s.log, SeatAdded(last.seat));
    } else {
      CheckOk(s.(calls := front));
    }
  }

  /** Every step keeps the invariant. */
  lemma AfterOk(s: State, step: Step)
    requires Ok(s)
    ensures Ok(After(s, step))
  {
    hide AskedIn, BeganIn, CountStopped, Stops, Rests, WillCheck, Check, Work, SeatStarting, Resumed;
    match step {
      case Stop =>
        NoStopsNoRests(s.calls);
        LogAppend(s.log, Began(s.seats));
        CallsAppend(s.calls, Stopping(s.seats));
      case SeatStopped(seat) =>
        if seat in s.seats {
          RemoveFirstCounts(s.seats, seat);
          if s.stopping {
            CheckOk(s.(seats := RemoveFirst(s.seats, seat)));
          } else {
            LogAppend(s.log, SeatRemoved(seat));
            CallsAppend(s.calls, Removing);
          }
        }
      case AddSeat(seat) => CallsAppend(s.calls, Adding(seat));
      case Resume(started) =>
        if s.calls != [] {
          ResumedOk(s, started);
        }
    }
  }

  lemma {:induction false} RunOk(s: State, steps: seq<Step>)
    requires Ok(s)
    ensures Ok(Run(s, steps))
    decreases |steps|
  {
    if steps != [] {
      AfterOk(s, steps[0]);
      RunOk(After(s, steps[0]), steps[1..]);
    }
  }

  // ----- STOPPED -----

  lemma {:induction false} CountPrefix(log: seq<Event>, n: nat)
    requires n <= |log|
    ensures CountStopped(log[..n]) <= CountStopped(log)
    decreases |log| - n
  {
    if n < |log| {
      CountPrefix(log, n + 1);
      assert log[..n + 1][..n] == log[..n];
    } else {
      assert log[..n] == log;
    }
  }

  lemma CountTwo(log: seq<Event>, i: nat, j: nat)
    requires i < j < |log| && log[i].Stopped? && log[j].Stopped?
    ensures CountStopped(log) >= 2
  {
    CountPrefix(log, j + 1);
    CountPrefix(log[..j], i + 1);
    assert log[..j + 1][..j] == log[..j];
    assert log[..j][..i + 1][..i] == log[..i];
    assert log[..j][..i + 1] == log[..i + 1];
  }

  /** In every run STOPPED is emitted at most once. */
  lemma StoppedOnce(steps: seq<Step>, i: nat, j: nat)
    requires i < j < |Run(INITIAL, steps).log| && Run(INITIAL, steps).log[i].Stopped?
    ensures !Run(INITIAL, steps).log[j].Stopped?
  {
    hide Run;
    RunOk(INITIAL, steps);
    if Run(INITIAL, steps).log[j].Stopped? {
      CountTwo(Run(INITIAL, steps).log, i, j);
    }
  }

  /** In every run STOPPED is emitted only while stopping with no seat left. */
  lemma StoppedWhenEmpty(steps: seq<Step>, i: nat)
    requires i < |Run(INITIAL, steps).log| && Run(INITIAL, steps).log[i].Stopped?
    ensures Run(INITIAL, steps).log[i].stopping && Run(INITIAL, steps).log[i].seatsLeft == 0
  {
    hide Run;
    RunOk(INITIAL, steps);
  }

  /**
   Once every call has returned, each seat listed when stopping began has been asked to stop, in
   order, and if no seat is left STOPPED has been emitted.
   */
  lemma AtRest(steps: seq<Step>)
    ensures var s := Run(INITIAL, steps);
      s.calls == [] ==> AskedIn(s.log) == BeganIn(s.log) && (s.stopping && s.seats == [] ==> s.stopped)
  {
    hide Run;
    RunOk(INITIAL, steps);
  }

  // ----- Shutdown ends -----

  function Measure(s: State): nat {
    Work(s.calls) + |s.seats|
  }

  /** The number of steps of a run that have an effect. */
  function Effective(s: State, steps: seq<Step>): nat
    decreases |steps|
  {
    if steps == [] then 0
    else (if After(s, steps[0]) != s then 1 else 0) + Effective(After(s, steps[0]), steps[1..])
  }

  /** Once stopping, every step that has an effect brings the end nearer. */
  lemma StepNearer(s: State, step: Step)
    requires s.stopping
    ensures After(s, step).stopping && (After(s, step) != s ==> Measure(After(s, step)) < Measure(s))
  {
    hide Work, CallWork;
    match step {
      case Stop =>
      case SeatStopped(seat) =>
        if seat in s.seats {
          RemoveFirstCounts(s.seats, seat);
        }
      case AddSeat(_) =>
      case Resume(started) =>
        if s.calls != [] {
          ResumedNearer(s, started);
        }
    }
  }

  lemma ResumedNearer(s: State, started: bool)
    requires s.calls != []
    ensures Resumed(s, started).stopping == s.stopping && Measure(Resumed(s, started)) < Measure(s)
  {
    hide Work;
    var front, last := s.calls[..|s.calls| - 1], s.calls[|s.calls| - 1];
    assert s.calls == front + [last];
    CallsAppend(front, last);
    if last.Stopping? && last.rest != [] {
      CallsAppend(front, Stopping(last.rest[1..]));
    }
  }

  /** Whoever calls back, and whenever: a shutdown takes at most as many steps as its measure. */
  lemma {:induction false} ShutdownBounded(s: State, steps: seq<Step>)
    requires s.stopping
    ensures Effective(s, steps) + Measure(Run(s, steps)) <= Measure(s)
    decreases |steps|
  {
    hide Measure, After;
    if steps != [] {
      StepNearer(s, steps[0]);
      ShutdownBounded(After(s, steps[0]), steps[1..]);
    }
  }

  /** As long as a call is pending or a seat is left, some step has an effect. */
  lemma CanGoOn(s: State) returns (step: Step)
    requires s.calls != [] || s.seats != []
    ensures After(s, step) != s
  {
    hide Work;
    if s.calls != [] {
      step := Resume(true);
      ResumedNearer(s, true);
    } else {
      step := SeatStopped(s.seats[0]);
      RemoveFirstCounts(s.seats, s.seats[0]);
    }
  }

  /** A shutdown that cannot go on has no call pending and no seat left, and has emitted STOPPED. */
  lemma ShutdownComplete(s: State)
    requires Ok(s) && s.stopping && forall step :: After(s, step) == s
    ensures s.calls == [] && s.seats == [] && s.stopped && AskedIn(s.log) == BeganIn(s.log)
  {
    hide After;
    if s.calls != [] || s.seats != [] {
      var step := CanGoOn(s);
    }
  }

  // ----- When the seat list can only shrink -----

  /** Stopping with no seat under way. */
  ghost predicate Closed(s: State) {
    s.stopping && !SeatStarting(s.calls)
  }

  ghost predicate OnlyShrinks(s: State, t: State) {
    multiset(t.seats) <= multiset(s.seats)
  }

  lemma ClosedStep(s: State, step: Step)
    requires Closed(s)
    ensures Closed(After(s, step)) && OnlyShrinks(s, After(s, step))
  {
    hide SeatStarting;
    if step.SeatStopped? && step.seat in s.seats {
      RemoveFirstCounts(s.seats, step.seat);
    } else if step.Resume? && s.calls != [] {
      var front, last := s.calls[..|s.calls| - 1], s.calls[|s.calls| - 1];
      assert s.calls == front + [last];
      CallsAppend(front, last);
      if last.Stopping? && last.rest != [] {
        CallsAppend(front, Stopping(last.rest[1..]));
      }
    }
  }

  lemma {:induction false} ClosedRun(s: State, steps: seq<Step>)
    requires Closed(s)
    ensures Closed(Run(s, steps)) && OnlyShrinks(s, Run(s, steps))
    decreases |steps|
  {
    hide Closed, After;
    if steps != [] {
      ClosedStep(s, steps[0]);
      ClosedRun(After(s, steps[0]), steps[1..]);
    }
  }

  /** While a seat is starting, some continuation lists it. */
  lemma {:induction false} StartingGrows(s: State) returns (steps: seq<Step>)
    requires SeatStarting(s.calls)
    ensures !OnlyShrinks(s, Run(s, steps))
    decreases Work(s.calls)
  {
    hide Work;
    var front, last := s.calls[..|s.calls| - 1], s.calls[|s.calls| - 1];
    assert s.calls == front + [last];
    CallsAppend(front, last);
    var t := After(s, Resume(true));
    if last.Adding? {
      steps := [Resume(true)];
      assert Run(t, steps[1..]) == t;
      assert multiset(t.seats)[last.seat] == multiset(s.seats)[last.seat] + 1;
    } else {
      if last.Stopping? && last.rest != [] {
        CallsAppend(front, Stopping(last.rest[1..]));
      }
      var rest := StartingGrows(t);
      steps := [Resume(true)] + rest;
      assert steps[1..] == rest;
    }
  }

  /** Before stopping, some continuation lists another seat. */
  lemma OpenGrows(s: State) returns (steps: seq<Step>)
    requires !s.stopping
    ensures !OnlyShrinks(s, Run(s, steps))
  {
    var t := After(s, AddSeat(0));
    assert t.calls[|s.calls|].Adding?;
    var rest := StartingGrows(t);
    steps := [AddSeat(0)] + rest;
    assert steps[1..] == rest;
  }

  /** Every continuation leaves the seat list no larger exactly when stopping has begun with no seat under way. */
  lemma ShrinksExactly(s: State)
    ensures Closed(s) <==> forall steps :: OnlyShrinks(s, Run(s, steps))
  {
    if Closed(s) {
      forall steps ensures OnlyShrinks(s, Run(s, steps)) {
        ClosedRun(s, steps);
      }
    } else if s.stopping {
      var steps := StartingGrows(s);
    } else {
      var steps := OpenGrows(s);
    }
  }

  /** A seat whose start was under way when the manager stopped joins a manager that has already reported STOPPED. */
  lemma LateSeatExample()
    ensures var s := Run(INITIAL, [AddSeat(7), Stop, Resume(true), Resume(true)]);
      s.stopped && s.seats == [7] && s.late
  {
    var s1 := After(INITIAL, AddSeat(7));
    var s2 := After(s1, Stop);
    assert s1.calls == [Adding(7)] && s2.calls == [Adding(7), Stopping([])];
    var s3 := After(s2, Resume(true));
    assert s3.calls == [Adding(7)] && s3.stopped;
    var s4 := After(s3, Resume(true));
    assert s4.seats == [7];
    RunFour(INITIAL, AddSeat(7), Stop, Resume(true), Resume(true));
  }

  lemma RunStep(s: State, step: Step, rest: seq<Step>)
    ensures Run(s, [step] + rest) == Run(After(s, step), rest)
  {
    assert ([step] + rest)[1..] == rest;
  }

  lemma RunFour(s: State, a: Step, b: Step, c: Step, d: Step)
    ensures Run(s, [a, b, c, d]) == After(After(After(After(s, a), b), c), d)
  {
    var s1 := After(s, a);
    var s2 := After(s1, b);
    var s3 := After(s2, c);
    assert Run(After(s3, d), []) == After(s3, d);
    hide Run, After;
    assert [a, b, c, d] == [a] + [b, c, d] && [b, c, d] == [b] + [c, d] && [c, d] == [c] + [d] && [d] == [d] + [];
    RunStep(s, a, [b, c, d]);
    RunStep(s1, b, [c, d]);
    RunStep(s2, c, [d]);
    RunStep(s3, d, []);
  }

  // ----- The code -----

  class Manager {
    var seats: seq<Seat>
    var stopping: bool
    var stopped: bool
    var log: seq<Event>
    var calls: seq<Call>
    ghost var late: bool

    ghost function Now(): State
      reads this
    {
      State(seats, stopping, stopped, log, calls, late)
    }

    ghost predicate Valid()
      reads this
    {
      Ok(Now())
    }

    constructor ()
      ensures Valid() && Now() == INITIAL
    {
      seats, stopping, stopped, log, calls := [], false, false, [], [];
      late := false;
    }

    method CheckStopped()
      modifies this`stopped, this`log
      ensures Now() == Check(old(Now()))
    {
      if stopping && !stopped && |seats| == 0 {
        stopped := true;
        log := log + [Event.Stopped(stopping, |seats|)];
      }
    }

    /** display_manager_stop, up to its loop; calling it again while stopping does nothing. */
    method BeginStop()
      requires Valid()
      modifies this`stopping, this`calls, this`log
      ensures Valid() && Now() == After(old(Now()), Stop)
    {
      AfterOk(Now(), Stop);
      if stopping {
        return;
      }
      stopping := true;
      log := log + [Began(seats)];
      calls := calls + [Stopping(seats)];
    }

    /** g_list_remove: the first link that holds the seat. */
    method Remove(seat: Seat)
      requires seat in seats
      modifies this`seats
      ensures seats == RemoveFirst(old(seats), seat)
    {
      var i := 0;
      while seats[i] != seat
        invariant 0 <= i < |seats| && seat !in seats[..i]
        decreases |seats| - i
      {
        i := i + 1;
      }
      RemoveFirstAt(seats, seat, i);
      seats := seats[..i] + seats[i + 1..];
    }

    /** seat_stopped_cb, up to the emission of SEAT_REMOVED. */
    method OnSeatStopped(seat: Seat)
      requires Valid() && seat in seats
      modifies this`seats, this`log, this`calls, this`stopped
      ensures Valid() && Now() == After(old(Now()), SeatStopped(seat))
    {
      AfterOk(Now(), SeatStopped(seat));
      Remove(seat);
      if !stopping {
        log := log + [SeatRemoved(seat)];
        calls := calls + [Removing];
        return;
      }
      CheckStopped();
    }

    /** display_manager_add_seat, up to the start of the seat; refused once stopping. */
    method BeginAdd(seat: Seat) returns (accepted: bool)
      requires Valid()
      modifies this`calls
      ensures Valid() && Now() == After(old(Now()), AddSeat(seat)) && accepted == !stopping
    {
      AfterOk(Now(), AddSeat(seat));
      if stopping {
        return false;
      }
      calls := calls + [Adding(seat)];
      accepted := true;
    }

    /** Control returns to display_manager_stop: it stops its next seat, or looks whether all have stopped. */
    method ContinueStop()
      requires Valid() && calls != [] && calls[|calls| - 1].Stopping?
      modifies this`calls, this`stopped, this`log
      ensures Valid() && forall started :: Now() == After(old(Now()), Resume(started))
    {
      AfterOk(Now(), Resume(true));
      var n := |calls| - 1;
      var rest := calls[n].rest;
      calls := calls[..n];
      if rest == [] {
        CheckStopped();
      } else {
        calls := calls + [Stopping(rest[1..])];
        log := log + [Asked(rest[0])];
      }
    }

    /** Control returns to seat_stopped_cb after SEAT_REMOVED. */
    method ContinueRemoved()
      requires Valid() && calls != [] && calls[|calls| - 1].Removing?
      modifies this`calls, this`stopped, this`log
      ensures Valid() && forall started :: Now() == After(old(Now()), Resume(started))
    {
      AfterOk(Now(), Resume(true));
      calls := calls[..|calls| - 1];
      CheckStopped();
    }

    /** seat_start returns to display_manager_add_seat, which does not look at the stopping flag again. */
    method FinishAdd(started: bool)
      requires Valid() && calls != [] && calls[|calls| - 1].Adding?
      modifies this
      ensures Valid() && Now() == After(old(Now()), Resume(started))
    {
      AfterOk(Now(), Resume(started));
      var seat := calls[|calls| - 1].seat;
      calls := calls[..|calls| - 1];
      if started {
        seats := seats + [seat];
        late := late || stopping;
        log := log + [SeatAdded(seat)];
      }
    }

    /** One step of a run, carried out by the method it stands for. */
    method Perform(step: Step)
      requires Valid()
      modifies this
      ensures Valid() && Now() == After(old(Now()), step)
    {
      match step {
        case Stop => BeginStop();
        case SeatStopped(seat) =>
          if seat in seats {
            OnSeatStopped(seat);
          }
        case AddSeat(seat) =>
          var _ := BeginAdd(seat);
        case Resume(started) =>
          if calls != [] {
            match calls[|calls| - 1] {
              case Stopping(_) => ContinueStop();
              case Removing => ContinueRemoved();
              case Adding(_) => FinishAdd(started);
            }
          }
      }
    }

    method PerformAll(steps: seq<Step>)
      requires Valid()
      modifies this
      ensures Valid() && Now() == Run(old(Now()), steps)
    {
      var i := 0;
      assert steps[0..] == steps;
      while i < |steps|
        invariant i <= |steps| && Valid() && Run(Now(), steps[i..]) == Run(old(Now()), steps)
      {
        assert steps[i..][1..] == steps[i + 1..];
        Perform(steps[i]);
        i := i + 1;
      }
    }
  }
}
