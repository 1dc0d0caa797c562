/** The countdown timer tab (TimerFrame in timer.py). Each tick is one run of
    the countdown callback, one second after the previous one; the alert
    (message box and bell) is counted rather than shown. */
module Countdown {

  import opened Opt
  import opened Fields
  import opened Display
  import opened Scheduler

  datatype State = State(
    total: int,               // total_seconds: what the next tick will show
    running: bool,
    shown: nat,               // the seconds the time label shows, as HH:MM:SS
    timerJob: Option<nat>,    // handle of the last scheduled tick, if not cleared
    jobs: Jobs,
    alerts: nat               // how many times "Time's up!" was raised
  )

  /** Why a press of Start did or did not start the countdown. */
  datatype StartOutcome = AlreadyRunning | InvalidInput | InvalidTime | Started

  /** The text of the time label. */
  function Label(s: State): (t: string)
  {
    HmsText(s.shown)
  }

  /** What holds of every state the timer can reach. While running, the
      label shows one second more than total, because each tick shows the
      remaining time before taking the second off. */
  predicate Inv(s: State)
  {
    && Valid(s.jobs)
    && (s.running ==> s.total >= 0 && s.timerJob.Some? && s.jobs.pending == {s.timerJob.value}
                      && s.shown == s.total + 1)
    && (!s.running ==> s.jobs.pending == {})
  }

  function Init(): (s: State)
    ensures Inv(s) && !s.running && s.total == 0 && s.alerts == 0
  {
    State(0, false, 0, None, NoJobs, 0)
  }

  /** The countdown callback. While running with a non-negative total it shows
      the total; at zero it stops and raises the alert, without scheduling
      again; otherwise it takes exactly one second off and schedules the next
      tick. */
  function Countdown(s: State): (r: State)
    ensures !(s.running && s.total >= 0) ==> r == s
    ensures s.running && s.total == 0 ==>
              r == s.(running := false, shown := 0, alerts := s.alerts + 1)
    ensures s.running && s.total > 0 ==>
              && r.running && r.total == s.total - 1 && r.shown == s.total && r.alerts == s.alerts
              && r.timerJob == Some(s.jobs.next) && r.jobs.pending == s.jobs.pending + {s.jobs.next}
    ensures r.total >= 0 || r == s
  {
    if s.running && s.total >= 0 then
      var showing := s.(shown := s.total);
      if s.total == 0 then
        showing.(running := false, alerts := s.alerts + 1)
      else
        var (jobs, id) := After(s.jobs);
        showing.(total := s.total - 1, timerJob := Some(id), jobs := jobs)
    else
      s
  }

  /** The scheduler runs the callback behind handle id, if it is still
      pending. */
  function Fire(s: State, id: nat): (r: State)
    ensures id !in s.jobs.pending ==> r == s
    ensures id in s.jobs.pending && !(s.running && s.total >= 0) ==> r == s.(jobs := Remove(s.jobs, id))
    ensures id in s.jobs.pending && s.running && s.total == 0 ==>
              && !r.running && r.total == 0 && r.shown == 0 && r.alerts == s.alerts + 1
              && r.jobs.pending == s.jobs.pending - {id} && r.timerJob == s.timerJob
    ensures id in s.jobs.pending && s.running && s.total > 0 ==>
              && r.running && r.total == s.total - 1 && r.shown == s.total && r.alerts == s.alerts
              && r.timerJob == Some(s.jobs.next) && r.jobs.pending == s.jobs.pending - {id} + {s.jobs.next}
    ensures r.alerts == s.alerts + 1 <==> id in s.jobs.pending && s.running && s.total == 0
    ensures r.alerts == s.alerts || r.alerts == s.alerts + 1
  {
    if id in s.jobs.pending then Countdown(s.(jobs := Remove(s.jobs, id))) else s
  }

  /** Start: ignored while running. Otherwise the three entries are read
      again; an unreadable entry leaves everything as it was; a total of zero
      or less is refused, but only after total has been overwritten with it;
      a positive total starts the countdown with an immediate first tick. */
  function Start(s: State, hours: Field, minutes: Field, seconds: Field): (r: (State, StartOutcome))
    ensures s.running <==> r.1 == AlreadyRunning
    ensures s.running ==> r.0 == s
    ensures r.1 == InvalidInput <==> !s.running && (hours.Bad? || minutes.Bad? || seconds.Bad?)
    ensures r.1 == InvalidInput ==> r.0 == s
    ensures !s.running && ReadThree(hours, minutes, seconds).Some? ==>
              var (h, m, x) := ReadThree(hours, minutes, seconds).value;
              var d := Seconds(h, m, x);
              && (d <= 0 ==> r == (s.(total := d), InvalidTime))
              && (d > 0 ==> r.1 == Started && r.0.running && r.0.total == d - 1 && r.0.shown == d
                            && r.0.alerts == s.alerts && r.0.timerJob == Some(s.jobs.next)
                            && r.0.jobs.pending == s.jobs.pending + {s.jobs.next})
  {
    if s.running then
      (s, AlreadyRunning)
    else
      match ReadThree(hours, minutes, seconds)
      case None => (s, InvalidInput)
      case Some((h, m, x)) =>
        var withTotal := s.(total := Seconds(h, m, x));
        if withTotal.total <= 0 then (withTotal, InvalidTime)
        else (Countdown(withTotal.(running := true)), Started)
  }

  /** Pause: ignored while stopped; otherwise the countdown stops and its
      pending tick is cancelled. total keeps the value the next tick would
      have shown. */
  function Pause(s: State): (r: State)
    ensures !s.running ==> r == s
    ensures s.running ==> !r.running && r.timerJob.None? && r.total == s.total && r.shown == s.shown
    ensures s.running && s.timerJob.Some? ==> r.jobs == Remove(s.jobs, s.timerJob.value)
    ensures r.alerts == s.alerts
  {
    if s.running then
      var stopped := s.(running := false);
      if stopped.timerJob.Some? then stopped.(jobs := Remove(s.jobs, s.timerJob.value), timerJob := None)
      else stopped
    else
      s
  }

  /** Reset: a pause, then zero on the clock and on the label. */
  function Reset(s: State): (r: State)
    ensures !r.running && r.total == 0 && r.shown == 0 && r.alerts == s.alerts
    ensures !s.running ==> r.jobs == s.jobs && r.timerJob == s.timerJob
    ensures s.running ==> r.timerJob.None?
    ensures s.running && s.timerJob.Some? ==> r.jobs.pending == s.jobs.pending - {s.timerJob.value}
  {
    Pause(s).(total := 0, shown := 0)
  }

  /** The label reads 00:00:00 whenever it shows zero seconds: when the
      window opens, after Reset from any state, and once a countdown has run
      out. */
  lemma ZeroLabel(s: State)
    ensures s.shown == 0 ==> Label(s) == "00:00:00"
    ensures Label(Init()) == "00:00:00" && Label(Reset(s)) == "00:00:00"
  {
    ZeroHmsText();
  }

  // ----- The timer as a state machine -----

  datatype Event = StartPressed(hours: Field, minutes: Field, seconds: Field) | PausePressed | ResetPressed | Tick(id: nat)

  function Step(s: State, e: Event): (r: State)
  {
    match e
    case StartPressed(h, m, x) => Start(s, h, m, x).0
    case PausePressed => Pause(s)
    case ResetPressed => Reset(s)
    case Tick(id) => Fire(s, id)
  }

  lemma StepKeepsInv(s: State, e: Event)
    requires Inv(s)
    ensures Inv(Step(s, e))
  {
    match e
    case StartPressed(h, m, x) => StartKeepsInv(s, h, m, x);
    case PausePressed =>
    case ResetPressed =>
    case Tick(id) => FireKeepsInv(s, id);
  }

  lemma StartKeepsInv(s: State, h: Field, m: Field, x: Field)
    requires Inv(s)
    ensures Inv(Start(s, h, m, x).0)
  {
    if !s.running {
      match ReadThree(h, m, x)
      case None =>
      case Some((a, b, c)) =>
        var w := s.(total := Seconds(a, b, c));
        if w.total > 0 {
          var r := Countdown(w.(running := true));
          assert Start(s, h, m, x).0 == r;
          assert r.total + 1 == w.total && r.shown == w.total;
        }
    }
  }

  lemma FireKeepsInv(s: State, id: nat)
    requires Inv(s)
    ensures Inv(Fire(s, id))
  {
    if id in s.jobs.pending {
      var s1 := s.(jobs := Remove(s.jobs, id));
      assert s.running && s.timerJob == Some(id) && s1.jobs.pending == {};
      var r := Countdown(s1);
      if s1.total == 0 {
        assert !r.running && r.jobs == s1.jobs;
      } else {
        assert r.total + 1 == s1.total;
        assert r.jobs.pending == {s1.jobs.next};
      }
    }
  }

  /** Every sequence of button presses and ticks, from any reachable state,
      keeps the invariant; in particular total never goes below zero while
      the timer runs. */
  function Run(s: State, es: seq<Event>): (r: State)
    requires Inv(s)
    ensures Inv(r)
    ensures r.alerts >= s.alerts
    decreases |es|
  {
    if es == [] then s
    else
      StepKeepsInv(s, es[0]);
      Run(Step(s, es[0]), es[1..])
  }

  /** The scheduler runs the pending tick, if any. */
  function NextTick(s: State): (r: State)
  {
    if s.timerJob.Some? then Fire(s, s.timerJob.value) else s
  }

  function Ticks(s: State, n: nat): (r: State)
    decreases n
  {
    if n == 0 then s else Ticks(NextTick(s), n - 1)
  }

  /** Each tick while running takes exactly one second off: after n ticks
      (no more than total) the timer still runs with n seconds less, and no
      alert has been raised. */
  lemma {:induction false} TicksCountDown(s: State, n: nat)
    requires Inv(s) && s.running && n <= s.total
    ensures Inv(Ticks(s, n)) && Ticks(s, n).running
    ensures Ticks(s, n).total == s.total - n && Ticks(s, n).alerts == s.alerts
    decreases n
  {
    if n > 0 {
      var s1 := NextTick(s);
      FireKeepsInv(s, s.timerJob.value);
      assert s1.running && s1.total == s.total - 1 && s1.alerts == s.alerts;
      TicksCountDown(s1, n - 1);
      assert Ticks(s, n) == Ticks(s1, n - 1);
    }
  }

  /** A stopped timer is terminal for ticks: nothing is pending, so no tick
      changes anything. */
  lemma StoppedIgnoresTicks(s: State, n: nat)
    requires Inv(s) && !s.running
    ensures Ticks(s, n) == s
    decreases n
  {
    if n > 0 {
      StoppedIgnoresTicks(NextTick(s), n - 1);
    }
  }

  /** The tick after the last counted second shows zero, stops the timer and
      raises the alert exactly once; later ticks do nothing. */
  lemma TicksReachZero(s: State, k: nat)
    requires Inv(s) && s.running
    ensures var r := Ticks(s, s.total + 1 + k);
            && !r.running && r.total == 0 && r.alerts == s.alerts + 1
            && r.shown == 0 && r.jobs.pending == {}
  {
    TicksCountDown(s, s.total);
    var z := Ticks(s, s.total);
    var last := NextTick(z);
    FireKeepsInv(z, z.timerJob.value);
    assert z.running && z.total == 0 && z.timerJob.value in z.jobs.pending;
    assert last == Countdown(z.(jobs := Remove(z.jobs, z.timerJob.value)));
    assert !last.running && last.total == 0 && last.alerts == s.alerts + 1 && last.shown == 0;
    assert Ticks(z, 1) == last by {
      assert Ticks(z, 1) == Ticks(last, 0);
    }
    TicksAppend(s, s.total, 1);
    TicksAppend(s, s.total + 1, k);
    StoppedIgnoresTicks(last, k);
  }

  lemma {:induction false} TicksAppend(s: State, a: nat, b: nat)
    ensures Ticks(s, a + b) == Ticks(Ticks(s, a), b)
    decreases a
  {
    if a > 0 {
      TicksAppend(NextTick(s), a - 1, b);
    }
  }

  /** A timer set to 0 h, 0 min, 3 s from any stopped state raises its alert
      on the third tick after Start, stopped at zero. */
  lemma ThreeSeconds(s: State)
    requires Inv(s) && !s.running
    ensures var (s1, o) := Start(s, Num(0), Num(0), Num(3));
            && o == Started
            && Ticks(s1, 2).running
            && var r := Ticks(s1, 3); !r.running && r.total == 0 && r.alerts == s.alerts + 1
  {
    var s1 := Start(s, Num(0), Num(0), Num(3)).0;
    StartKeepsInv(s, Num(0), Num(0), Num(3));
    assert s1.running && s1.total == 2;
    TicksCountDown(s1, 2);
    TicksReachZero(s1, 0);
  }

  /** Entries "", "0", "5" start a five-second countdown; an unreadable hours
      entry is refused with nothing changed; all entries empty is refused as
      a zero duration. */
  lemma StartExamples(s: State)
    requires !s.running
    ensures Start(s, Empty, Num(0), Num(5)).1 == Started
    ensures Start(s, Empty, Num(0), Num(5)).0.shown == 5
    ensures Start(s, Bad, Num(0), Num(5)) == (s, InvalidInput)
    ensures Start(s, Empty, Empty, Empty) == (s.(total := 0), InvalidTime)
  {
  }

  /** Start after Pause does not resume: it reads the entries again, so the
      countdown restarts from what they say, whatever was left. */
  lemma StartAfterPauseRereadsEntries(s: State, h: int, m: int, x: int)
    requires Inv(s) && s.running && Seconds(h, m, x) > 0
    ensures Start(Pause(s), Num(h), Num(m), Num(x)).0.total == Seconds(h, m, x) - 1
  {
  }

}
