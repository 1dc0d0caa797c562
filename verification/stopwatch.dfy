/** The stopwatch tab (StopwatchFrame in timer.py). The clock is an integer
    count of centiseconds handed to every operation that reads it; the
    pending update callback is a handle in the component's own scheduler. */
module Stopwatch {

  import opened Opt
  import opened Display
  import opened Scheduler

  datatype State = State(
    running: bool,
    startTime: Option<int>,   // clock reading that corresponds to an elapsed time of zero
    elapsed: int,             // centiseconds, as of the last update
    laps: seq<string>,        // the recorded lap texts
    listbox: seq<string>,     // the lines of the lap list widget
    display: string,          // the text of the time label
    updateJob: Option<nat>,   // handle of the last scheduled update, if not cleared
    jobs: Jobs
  )

  const ZeroText: string := "00:00.00"

  /** The line the lap list shows for the k-th lap (counting from 1). */
  function LapLine(k: nat, lap: string): (line: string)
  {
    "Lap " + Decimal(k) + ": " + lap
  }

  /** What holds of every state the stopwatch can reach. */
  predicate Inv(s: State)
  {
    && Valid(s.jobs)
    && (s.running ==> s.startTime.Some? && s.updateJob.Some? && s.jobs.pending == {s.updateJob.value})
    && (!s.running ==> s.updateJob.None? && s.jobs.pending == {})
    && s.display == CentisText(s.elapsed)
    && |s.listbox| == |s.laps|
    && (forall k :: 0 <= k < |s.laps| ==> s.listbox[k] == LapLine(k + 1, s.laps[k]))
  }

  /** The stopwatch as the window creates it: stopped at zero, no laps. */
  function Init(): (s: State)
    ensures Inv(s) && !s.running && s.elapsed == 0 && s.laps == []
  {
    ZeroCentisText();
    State(false, None, 0, [], [], ZeroText, None, NoJobs)
  }

  /** The update callback: while running, the elapsed time is recomputed from
      the clock, shown, and the next update is scheduled. */
  function Update(s: State, now: int): (r: State)
    requires s.running ==> s.startTime.Some?
    ensures !s.running ==> r == s
    ensures s.running ==> r.elapsed + s.startTime.value == now && r.display == CentisText(r.elapsed)
    ensures s.running ==> r.updateJob == Some(s.jobs.next) && r.jobs.pending == s.jobs.pending + {s.jobs.next}
    ensures r.running == s.running && r.startTime == s.startTime && r.laps == s.laps && r.listbox == s.listbox
  {
    if s.running then
      var e := now - s.startTime.value;
      var (jobs, id) := After(s.jobs);
      s.(elapsed := e, display := CentisText(e), updateJob := Some(id), jobs := jobs)
    else
      s
  }

  /** The scheduler runs the callback behind handle id, if it is still
      pending. */
  function Fire(s: State, id: nat, now: int): (r: State)
    requires s.running ==> s.startTime.Some?
    ensures id !in s.jobs.pending ==> r == s
    ensures id in s.jobs.pending && !s.running ==> r == s.(jobs := Remove(s.jobs, id))
    ensures id in s.jobs.pending && s.running ==>
              && r.running && r.elapsed == now - s.startTime.value && r.display == CentisText(r.elapsed)
              && r.updateJob == Some(s.jobs.next) && r.jobs.pending == s.jobs.pending - {id} + {s.jobs.next}
              && r.startTime == s.startTime && r.laps == s.laps && r.listbox == s.listbox
  {
    if id in s.jobs.pending then Update(s.(jobs := Remove(s.jobs, id)), now) else s
  }

  /** Start: ignored while running; otherwise the start reference is set so
      that the elapsed time continues from where it stopped, and the first
      update runs at once. */
  function Start(s: State, now: int): (r: State)
    ensures s.running ==> r == s
    ensures !s.running ==> r.running && r.startTime == Some(now - s.elapsed) && r.elapsed == s.elapsed
    ensures !s.running ==> r.display == CentisText(s.elapsed) && r.laps == s.laps && r.listbox == s.listbox
    ensures !s.running ==> r.updateJob == Some(s.jobs.next) && r.jobs.pending == s.jobs.pending + {s.jobs.next}
  {
    if s.running then s
    else Update(s.(running := true, startTime := Some(now - s.elapsed)), now)
  }

  /** Cancels the pending update, if a handle is held, and forgets it. */
  function CancelUpdate(s: State): (r: State)
    ensures r.updateJob.None?
    ensures s.updateJob.Some? ==> r.jobs == Remove(s.jobs, s.updateJob.value)
    ensures s.updateJob.None? ==> r.jobs == s.jobs
    ensures r.(updateJob := s.updateJob, jobs := s.jobs) == s
  {
    if s.updateJob.Some? then s.(jobs := Remove(s.jobs, s.updateJob.value), updateJob := None) else s
  }

  /** Stop: ignored while stopped; otherwise the stopwatch stops and its
      pending update is cancelled. The clock is not read again: the elapsed
      time stays as the last update left it. */
  function Stop(s: State): (r: State)
    ensures !s.running ==> r == s
    ensures s.running ==>
              && !r.running && r.updateJob.None? && r.elapsed == s.elapsed && r.display == s.display
              && r.laps == s.laps && r.listbox == s.listbox && r.startTime == s.startTime
    ensures s.running && s.updateJob.Some? ==> r.jobs.pending == s.jobs.pending - {s.updateJob.value}
    ensures s.running && s.updateJob.None? ==> r.jobs == s.jobs
  {
    if s.running then CancelUpdate(s.(running := false)) else s
  }

  /** Lap: ignored while stopped; otherwise the text on display is recorded
      and listed under the next lap number. */
  function Lap(s: State): (r: State)
    ensures !s.running ==> r == s
    ensures s.running ==> r.laps == s.laps + [s.display] && r.listbox == s.listbox + [LapLine(|r.laps|, s.display)]
    ensures r.(laps := s.laps, listbox := s.listbox) == s
  {
    if s.running then
      s.(laps := s.laps + [s.display], listbox := s.listbox + [LapLine(|s.laps| + 1, s.display)])
    else
      s
  }

  /** Reset, from any state: stopped, nothing pending, zero on display, no
      laps. The start reference is left as it was. */
  function Reset(s: State): (r: State)
    ensures !r.running && r.updateJob.None? && r.elapsed == 0 && r.laps == [] && r.listbox == []
    ensures r.display == ZeroText && r.startTime == s.startTime
    ensures s.updateJob.Some? ==> r.jobs.pending == s.jobs.pending - {s.updateJob.value}
    ensures s.updateJob.None? ==> r.jobs == s.jobs
    ensures Inv(s) ==> r.jobs.pending == {}
  {
    CancelUpdate(s.(running := false)).(elapsed := 0, display := ZeroText, listbox := [], laps := [])
  }

  // ----- The stopwatch as a state machine -----

  datatype Event = StartAt(now: int) | StopPressed | LapPressed | ResetPressed | Tick(id: nat, now: int)

  function Step(s: State, e: Event): (r: State)
    requires s.running ==> s.startTime.Some?
  {
    match e
    case StartAt(now) => Start(s, now)
    case StopPressed => Stop(s)
    case LapPressed => Lap(s)
    case ResetPressed => Reset(s)
    case Tick(id, now) => Fire(s, id, now)
  }

  lemma StepKeepsInv(s: State, e: Event)
    requires Inv(s)
    ensures Inv(Step(s, e))
  {
    match e
    case ResetPressed => ZeroCentisText();
    case LapPressed => LapKeepsInv(s);
    case StartAt(now) =>
    case StopPressed =>
    case Tick(id, now) =>
  }

  lemma LapKeepsInv(s: State)
    requires Inv(s)
    ensures Inv(Lap(s))
  {
    var r := Lap(s);
    if s.running {
      forall k | 0 <= k < |r.laps|
        ensures r.listbox[k] == LapLine(k + 1, r.laps[k])
      {
        if k < |s.laps| {
          assert r.listbox[k] == s.listbox[k];
        }
      }
    }
  }

  /** Every sequence of button presses and scheduler callbacks, from any
      reachable state, keeps the invariant. */
  function Run(s: State, es: seq<Event>): (r: State)
    requires Inv(s)
    ensures Inv(r)
    decreases |es|
  {
    if es == [] then s
    else
      StepKeepsInv(s, es[0]);
      Run(Step(s, es[0]), es[1..])
  }

  /** The scheduler runs the one pending update. */
  function NextTick(s: State, now: int): (r: State)
    requires s.running ==> s.startTime.Some?
  {
    if s.updateJob.Some? then Fire(s, s.updateJob.value, now) else s
  }

  /** Resuming does not lose accumulated time: started again at t0, the
      stopwatch shows at a later update t the old elapsed time plus t - t0. */
  lemma ResumeAccumulates(s: State, t0: int, t: int)
    requires Inv(s) && !s.running
    ensures NextTick(Start(s, t0), t).elapsed == s.elapsed + (t - t0)
    ensures NextTick(Start(s, t0), t).running
  {
  }

  /** Only the latest update counts: two updates in a row leave what the
      second alone would. */
  lemma UpdatesDoNotAccumulate(s: State, a: int, b: int)
    requires Inv(s) && s.running
    ensures NextTick(NextTick(s, a), b).elapsed == NextTick(s, b).elapsed
    ensures NextTick(NextTick(s, a), b).display == NextTick(s, b).display
  {
  }

  /** One run of the stopwatch: started at start, last updated at lastTick,
      then stopped. */
  datatype Session = Session(start: int, lastTick: int)

  function Measured(ss: seq<Session>): (total: int)
  {
    if ss == [] then 0 else (ss[0].lastTick - ss[0].start) + Measured(ss[1..])
  }

  /** Replays start, update, stop for each session in turn. The elapsed time
      afterwards is the sum of what the sessions measured: resuming never
      starts from zero. */
  function Replay(s: State, ss: seq<Session>): (r: State)
    requires Inv(s) && !s.running
    ensures Inv(r) && !r.running
    ensures r.elapsed == s.elapsed + Measured(ss)
    ensures r.laps == s.laps
    decreases |ss|
  {
    if ss == [] then s
    else
      var s1 := Stop(NextTick(Start(s, ss[0].start), ss[0].lastTick));
      StepKeepsInv(s, StartAt(ss[0].start));
      StepKeepsInv(Start(s, ss[0].start), Tick(Start(s, ss[0].start).updateJob.value, ss[0].lastTick));
      StepKeepsInv(NextTick(Start(s, ss[0].start), ss[0].lastTick), StopPressed);
      Replay(s1, ss[1..])
  }

  /** The k-th recorded lap (from 1) is listed as "Lap k". */
  lemma LapsNumbered(s: State, k: nat)
    requires Inv(s) && 1 <= k <= |s.laps|
    ensures s.listbox[k - 1] == "Lap " + Decimal(k) + ": " + s.laps[k - 1]
  {
  }

  /** Started at any clock reading t0 and stopped after an update 1.5
      seconds later, the stopwatch shows 00:01.50. */
  lemma OneAndAHalfSeconds(t0: int)
    ensures Stop(NextTick(Start(Init(), t0), t0 + 150)).display == "00:01.50"
  {
    var s1 := Start(Init(), t0);
    assert s1.running && s1.updateJob == Some(0) && s1.startTime == Some(t0);
    var s2 := NextTick(s1, t0 + 150);
    assert s2.elapsed == 150 && s2.display == CentisText(s2.elapsed);
    CentisTextOf150(s2.elapsed);
    assert s2.display == "00:01.50";
    assert Stop(s2).display == s2.display;
  }

  /** 1.5 seconds are shown as 00:01.50. The count is a parameter pinned by
      the requires, so that the verifier does not unfold the text functions
      on a literal. */
  lemma CentisTextOf150(c: int)
    requires c == 150
    ensures CentisText(c) == "00:01.50"
  {
    assert SplitCentis(c) == (0, 1, 50);
    assert Pad2(0) == "00" && Pad2(1) == "01";
    assert Pad2(50) == "50" by {
      assert Decimal(5) == "5";
      assert Decimal(50) == Decimal(5) + ['0'];
    }
  }

}
