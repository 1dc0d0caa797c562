/** The alarm tab (AlarmFrame in timer.py). The wall clock is an integer
    count of seconds handed to every operation that reads it, with days of
    exactly 86400 seconds starting at multiples of 86400; the alert (message
    box and bell) is counted rather than shown. */
module Alarm {

  import opened Opt
  import opened Fields
  import opened Display
  import opened Scheduler

  const Day: int := 86400

  /** What the alarm label says: no alarm, or the time of day it is set for
      (seconds since midnight). */
  datatype Banner = NoAlarm | SetFor(clock: nat)

  /** The label's text. The time it shows has the canonical `HH:MM:SS`
      layout and reads back as the clock it was set for, which by
      HmsTextExactly fixes it. */
  function BannerText(b: Banner): (t: string)
    ensures t == "No alarm set" <==> b.NoAlarm?
    ensures b.SetFor? ==> |t| > 14 && t[..14] == "Alarm set for " && ReadHms(t[14..]) == Some(b.clock)
    ensures b.SetFor? ==> Canonical(t[14..], ':', 60)
  {
    match b
    case NoAlarm => "No alarm set"
    case SetFor(c) =>
      var t := "Alarm set for " + HmsText(c);
      assert t[0] != "No alarm set"[0];
      assert t[14..] == HmsText(c);
      t
  }

  datatype State = State(
    armed: bool,              // alarm_set
    target: Option<int>,      // alarm_time
    banner: Banner,
    checkJob: Option<nat>,    // handle of the last scheduled check, if not cleared
    jobs: Jobs,
    alerts: nat               // how many times "Wake up!" was raised
  )

  /** Why a press of Set Alarm did or did not arm the alarm. OutOfRange is the
      error the source does not catch: nothing changes, but the handler ends
      with an exception instead of a message box. */
  datatype SetOutcome = InvalidInput | OutOfRange | Armed

  /** The hour, minute and second a wall-clock time of day can have: exactly
      the fields of some second of one day, written the way SplitHms writes it. */
  predicate InRange(h: int, m: int, s: int)
    ensures InRange(h, m, s) <==> 0 <= Seconds(h, m, s) < Day && SplitHms(Seconds(h, m, s)) == (h, m, s)
  {
    if 0 <= h < 24 && 0 <= m < 60 && 0 <= s < 60 then
      SplitHmsUnique(Seconds(h, m, s), h, m, s);
      true
    else
      false
  }

  /** The moment the alarm is set for: today at the given time of day, or
      tomorrow when that is not later than now. It is always strictly in the
      future and at most one day ahead. */
  function Target(now: int, clock: int): (t: int)
    requires 0 <= clock < Day
    ensures now < t <= now + Day
    ensures t % Day == clock
    ensures t / Day == now / Day <==> clock > now % Day
    ensures t / Day == now / Day || t / Day == now / Day + 1
  {
    var today := now - now % Day + clock;
    if today <= now then today + Day else today
  }

  /** The alarm check: while armed, an alert is raised once the target is
      reached, the alarm disarms and no further check is scheduled; before
      the target, the next check is scheduled. */
  function CheckAlarm(s: State, now: int): (r: State)
    requires s.armed ==> s.target.Some?
    ensures !s.armed ==> r == s
    ensures s.armed && now >= s.target.value ==>
              r == s.(armed := false, banner := NoAlarm, alerts := s.alerts + 1)
    ensures s.armed && now < s.target.value ==>
              r == s.(checkJob := Some(s.jobs.next), jobs := After(s.jobs).0)
  {
    if s.armed then
      if now >= s.target.value then
        s.(alerts := s.alerts + 1, armed := false, banner := NoAlarm)
      else
        var (jobs, id) := After(s.jobs);
        s.(checkJob := Some(id), jobs := jobs)
    else
      s
  }

  /** The scheduler runs the check behind handle id, if it is still pending. */
  function Fire(s: State, id: nat, now: int): (r: State)
    requires s.armed ==> s.target.Some?
    ensures id !in s.jobs.pending ==> r == s
    ensures r.armed ==> r.target.Some?
    ensures r.alerts == s.alerts + 1 <==> id in s.jobs.pending && s.armed && now >= s.target.value
    ensures r.alerts == s.alerts || r.alerts == s.alerts + 1
  {
    if id in s.jobs.pending then CheckAlarm(s.(jobs := Remove(s.jobs, id)), now) else s
  }

  /** Set Alarm: the entries are read (empty counts as 0); an unreadable entry
      changes nothing; a time of day out of range also changes nothing; a
      valid one arms the alarm for its next occurrence and runs the first
      check at once. An earlier check loop is not cancelled. */
  function SetAlarm(s: State, hour: Field, minute: Field, second: Field, now: int): (r: (State, SetOutcome))
    ensures r.1 == InvalidInput <==> (hour.Bad? || minute.Bad? || second.Bad?)
    ensures r.1 != Armed ==> r.0 == s
    ensures ReadThree(hour, minute, second).Some? ==>
              var (h, m, x) := ReadThree(hour, minute, second).value;
              && (!InRange(h, m, x) ==> r.1 == OutOfRange)
              && (InRange(h, m, x) ==>
                    var t := Target(now, Seconds(h, m, x));
                    && r.1 == Armed && r.0.armed && r.0.target == Some(t)
                    && r.0.banner == SetFor(Seconds(h, m, x)) && r.0.alerts == s.alerts
                    && r.0.checkJob == Some(s.jobs.next) && r.0.jobs.pending == s.jobs.pending + {s.jobs.next})
  {
    match ReadThree(hour, minute, second)
    case None => (s, InvalidInput)
    case Some((h, m, x)) =>
      if !InRange(h, m, x) then
        (s, OutOfRange)
      else
        var t := Target(now, Seconds(h, m, x));
        (CheckAlarm(s.(target := Some(t), armed := true, banner := SetFor(t % Day)), now), Armed)
  }

  /** Cancel Alarm, in any state: disarmed, label cleared, and the last
      scheduled check cancelled if its handle is held. */
  function Cancel(s: State): (r: State)
    ensures !r.armed && r.banner == NoAlarm && r.checkJob.None?
    ensures r.target == s.target && r.alerts == s.alerts
    ensures s.checkJob.Some? ==> r.jobs == Remove(s.jobs, s.checkJob.value)
    ensures s.checkJob.None? ==> r.jobs == s.jobs
  {
    var off := s.(armed := false, banner := NoAlarm);
    if off.checkJob.Some? then off.(jobs := Remove(off.jobs, off.checkJob.value), checkJob := None) else off
  }

  // ----- The alarm as a state machine -----

  /** What holds of every state the alarm can reach. An armed alarm has a
      target, shows its time of day, and has a check pending. */
  predicate Inv(s: State)
  {
    && Valid(s.jobs)
    && (s.armed ==> s.target.Some? && s.checkJob.Some? && s.checkJob.value in s.jobs.pending
                    && s.banner == SetFor(s.target.value % Day))
    && (!s.armed ==> s.banner == NoAlarm)
  }

  function Init(): (s: State)
    ensures Inv(s) && !s.armed && s.alerts == 0
  {
    State(false, None, NoAlarm, None, NoJobs, 0)
  }

  datatype Event = SetPressed(hour: Field, minute: Field, second: Field, now: int) | CancelPressed | Check(id: nat, now: int)

  function Step(s: State, e: Event): (r: State)
    requires s.armed ==> s.target.Some?
  {
    match e
    case SetPressed(h, m, x, now) => SetAlarm(s, h, m, x, now).0
    case CancelPressed => Cancel(s)
    case Check(id, now) => Fire(s, id, now)
  }

  lemma StepKeepsInv(s: State, e: Event)
    requires Inv(s)
    ensures Inv(Step(s, e))
  {
    match e
    case SetPressed(h, m, x, now) =>
      match ReadThree(h, m, x) {
        case None =>
        case Some((a, b, c)) =>
          if InRange(a, b, c) {
            var t := Target(now, Seconds(a, b, c));
            assert t % Day == Seconds(a, b, c);
          }
      }
    case CancelPressed =>
    case Check(id, now) =>
  }

  /** Every sequence of presses and checks, from any reachable state, keeps
      the invariant, and alerts are never taken back. */
  function Run(s: State, es: seq<Event>): (r: State)
    requires Inv(s)
    ensures Inv(r)
    ensures r.alerts >= s.alerts
    decreases |es|
  {
    if es == [] then s
    else
      StepKeepsInv(s, es[0]);
      Run(Step(s, es[0]), es[1..])
  }

  /** Runs the pending checks given by (handle, clock reading) pairs, in
      order. */
  function Checks(s: State, cs: seq<(nat, int)>): (r: State)
    requires s.armed ==> s.target.Some?
    ensures r.armed ==> r.target.Some?
    decreases |cs|
  {
    if cs == [] then s else Checks(Fire(s, cs[0].0, cs[0].1), cs[1..])
  }

  function Handles(cs: seq<(nat, int)>): (hs: set<nat>)
  {
    set i | 0 <= i < |cs| :: cs[i].0
  }

  /** A disarmed alarm stays silent: whatever leftover checks run, no alert is
      raised, the alarm stays disarmed, and each check that runs is used up
      without scheduling another. */
  lemma {:induction false} DisarmedIsSilent(s: State, cs: seq<(nat, int)>)
    requires !s.armed
    ensures Checks(s, cs).alerts == s.alerts && !Checks(s, cs).armed
    ensures Checks(s, cs).jobs.pending == s.jobs.pending - Handles(cs)
    decreases |cs|
  {
    if cs != [] {
      var s1 := Fire(s, cs[0].0, cs[0].1);
      assert s1.jobs.pending == s.jobs.pending - {cs[0].0} && !s1.armed && s1.alerts == s.alerts;
      DisarmedIsSilent(s1, cs[1..]);
      assert Handles(cs) == {cs[0].0} + Handles(cs[1..]) by {
        forall i | 0 <= i < |cs[1..]|
          ensures cs[1..][i].0 in Handles(cs)
        {
          assert cs[1..][i] == cs[i + 1];
        }
      }
    }
  }

  /** After Cancel Alarm no alert fires, even from a check loop that the
      cancellation did not reach. */
  lemma CancelSilences(s: State, cs: seq<(nat, int)>)
    ensures Checks(Cancel(s), cs).alerts == s.alerts
  {
    DisarmedIsSilent(Cancel(s), cs);
  }

  /** Once the target is reached, the next check raises the alert exactly
      once and disarms; no later check raises it again. */
  lemma FiresOnce(s: State, id: nat, now: int, later: seq<(nat, int)>)
    requires Inv(s) && s.armed && id in s.jobs.pending && now >= s.target.value
    ensures Fire(s, id, now).alerts == s.alerts + 1 && !Fire(s, id, now).armed
    ensures Checks(Fire(s, id, now), later).alerts == s.alerts + 1
  {
    DisarmedIsSilent(Fire(s, id, now), later);
  }

  /** Before the target, a check changes nothing but its own handle: it
      schedules the next check and stays armed. */
  lemma CheckBeforeTarget(s: State, id: nat, now: int)
    requires Inv(s) && s.armed && id in s.jobs.pending && now < s.target.value
    ensures var r := Fire(s, id, now);
            && r.armed && r.alerts == s.alerts && r.target == s.target
            && r.jobs.pending == s.jobs.pending - {id} + {s.jobs.next}
  {
  }

  /** Setting a valid time: the target is strictly after now and at most a
      day later; it falls today exactly when the time of day is later than
      now's, and tomorrow otherwise; the label shows the entered time. */
  lemma SetAlarmTarget(s: State, h: int, m: int, x: int, now: int)
    requires InRange(h, m, x)
    ensures var (r, o) := SetAlarm(s, Num(h), Num(m), Num(x), now);
            && o == Armed && r.armed && r.alerts == s.alerts
            && now < r.target.value <= now + Day
            && (r.target.value / Day == now / Day <==> Seconds(h, m, x) > now % Day)
            && (r.target.value / Day != now / Day ==> r.target.value / Day == now / Day + 1)
            && BannerText(r.banner) == "Alarm set for " + Pad2(h) + ":" + Pad2(m) + ":" + Pad2(x)
  {
    var r := SetAlarm(s, Num(h), Num(m), Num(x), now).0;
    assert r.banner == SetFor(Seconds(h, m, x));
    BannerOfFields(h, m, x);
  }

  lemma BannerOfFields(h: int, m: int, x: int)
    requires InRange(h, m, x)
    ensures BannerText(SetFor(Seconds(h, m, x))) == "Alarm set for " + Pad2(h) + ":" + Pad2(m) + ":" + Pad2(x)
  {
    var k := Seconds(h, m, x);
    var c := HmsText(k);
    assert c == Pad2(h) + ":" + Pad2(m) + ":" + Pad2(x) by {
      SplitHmsUnique(k, h, m, x);
    }
    assert BannerText(SetFor(k)) == "Alarm set for " + c;
    Prefixed("Alarm set for ", c, Pad2(h), Pad2(m), Pad2(x));
  }

  lemma Prefixed(p: string, c: string, a: string, b: string, d: string)
    requires c == a + ":" + b + ":" + d
    ensures p + c == p + a + ":" + b + ":" + d
  {
  }

  /** Setting the alarm again while it is armed starts a second check loop:
      the earlier check stays pending next to the new one. */
  lemma SetWhileArmedAddsLoop(s: State, h: int, m: int, x: int, now: int)
    requires Inv(s) && s.armed && InRange(h, m, x)
    ensures var r := SetAlarm(s, Num(h), Num(m), Num(x), now).0;
            && s.checkJob.value in r.jobs.pending && r.checkJob.value != s.checkJob.value
            && |r.jobs.pending| == |s.jobs.pending| + 1
  {
  }

}
