/** What Wait promises at shutdown (internal/scan/scheduler.go:181-186): a wait
    group at zero, and what can still follow it. */
module ScanShutdown {
  import opened Options
  import opened ScanScheduler

  /** Any continuation of a state. */
  ghost predicate Path(states: seq<Sched>, events: seq<Event>) {
    |states| == |events| + 1 && forall n :: 0 <= n < |events| ==> Follows(states, events, n)
  }

  /** No continuation ever puts a scan inside run. */
  ghost predicate NeverScans(s: Sched) {
    forall states, events :: Path(states, events) && states[0] == s ==> NoneInside(states)
  }

  ghost predicate NoneInside(states: seq<Sched>) {
    forall n, g :: 0 <= n < |states| ==> !At(states[n], g, Inside)
  }

  predicate HasPeriodic(subnets: seq<Subnet>) {
    exists n :: 0 <= n < |subnets| && IsPeriodic(subnets[n])
  }

  /** With no scan left, the loop may still launch one: what it has in hand is
      let through, or it can read subnets to scan. */
  predicate MayStillScan(s: Sched) {
    match s.loop
    case Stopped => false
    case Launching(_, _, _) => true
    case Added(_, _, _) => true
    case Starting(sn, manual, rest) => ShouldRunScan(sn, manual) || HasPeriodic(rest) || CanRead(s)
    case Ticking(rest) => HasPeriodic(rest) || CanRead(s)
    case _ => CanRead(s)
  }

  lemma NoneLeft(s: Sched)
    requires Inv(s) && s.wg == 0
    ensures s.scans == map[] && s.sem == {} && !s.loop.Added?
    ensures s.running == {} <==> !s.loop.Launching?
  {
    assert s.scans == map[];
    if s.loop.Launching? {
      assert IsLaunching(s, s.loop.sn.id);
    } else {
      assert forall id :: !HasLive(s, id) && !IsLaunching(s, id);
      assert forall id :: id !in s.running;
    }
  }

  /** A zero wait group leaves no scan, though one may be about to start. */
  lemma WaitMeansQuiet(states: seq<Sched>, events: seq<Event>, n: nat)
    requires Run(states, events) && n <= |events| && states[n].wg == 0
    ensures states[n].scans == map[]
    ensures states[n].running == {} <==> !states[n].loop.Launching?
  {
    RunKeepsInv(states, events, n);
    NoneLeft(states[n]);
  }

  // ---- Quiet for good

  ghost predicate Hushed(s: Sched) {
    Inv(s) && s.wg == 0 && !MayStillScan(s)
  }

  lemma NoPeriodicLater(subnets: seq<Subnet>)
    requires subnets != [] && !HasPeriodic(subnets)
    ensures !IsPeriodic(subnets[0]) && !HasPeriodic(subnets[1..])
  {
  }

  lemma NextStaysHushed(s: Sched, e: Event)
    requires Hushed(s) && Enabled(s, e)
    ensures Hushed(Next(s, e))
  {
    NextKeepsInv(s, e);
    NoneLeft(s);
    if s.loop.Ticking? && s.loop.rest != [] {
      NoPeriodicLater(s.loop.rest);
    }
  }

  lemma {:induction false} HushedLasts(states: seq<Sched>, events: seq<Event>, n: nat)
    requires Path(states, events) && Hushed(states[0]) && n <= |events|
    ensures Hushed(states[n])
  {
    if n > 0 {
      HushedLasts(states, events, n - 1);
      assert Follows(states, events, n - 1);
      NextStaysHushed(states[n - 1], events[n - 1]);
    }
  }

  /** Once the loop has stopped with a zero wait group, nothing is or ever will be under way. */
  lemma StoppedAndDoneIsQuiet(states: seq<Sched>, events: seq<Event>, n: nat, m: nat)
    requires Run(states, events) && n <= m <= |events| && states[n].loop.Stopped? && states[n].wg == 0
    ensures states[m].loop.Stopped? && states[m].scans == map[] && states[m].running == {}
  {
    RunKeepsInv(states, events, m);
    StoppedLasts(states, events, n, m);
    NoneLeft(states[m]);
  }

  lemma {:induction false} StoppedLasts(states: seq<Sched>, events: seq<Event>, n: nat, m: nat)
    requires Run(states, events) && n <= m <= |events| && states[n].loop.Stopped? && states[n].wg == 0
    ensures states[m].loop.Stopped? && states[m].wg == 0
    decreases m
  {
    if n < m {
      StoppedLasts(states, events, n, m - 1);
      RunKeepsInv(states, events, m - 1);
      assert Follows(states, events, m - 1);
      NoneLeft(states[m - 1]);
    }
  }

  lemma HushedNeverScans(s: Sched)
    requires Hushed(s)
    ensures NeverScans(s)
  {
    forall states, events | Path(states, events) && states[0] == s
      ensures NoneInside(states)
    {
      forall n, g | 0 <= n < |states|
        ensures !At(states[n], g, Inside)
      {
        HushedLasts(states, events, n);
        NoneLeft(states[n]);
      }
    }
  }

  // ---- Otherwise a scan can follow

  lemma Before(s: Sched, e: Event, states: seq<Sched>, events: seq<Event>)
      returns (more: seq<Sched>, longer: seq<Event>)
    requires Enabled(s, e) && Path(states, events) && states[0] == Next(s, e)
    ensures Path(more, longer) && more == [s] + states && longer == [e] + events
  {
    more, longer := [s] + states, [e] + events;
    forall n | 0 <= n < |longer|
      ensures Follows(more, longer, n)
    {
      if n > 0 {
        assert Follows(states, events, n - 1);
        assert more[n] == states[n - 1] && more[n + 1] == states[n] && longer[n] == events[n - 1];
      }
    }
  }

  /** From the end of start's critical section to inside run. */
  lemma LaunchedGoesInside(s: Sched) returns (states: seq<Sched>, events: seq<Event>)
    requires Inv(s) && s.wg == 0 && s.loop.Launching?
    ensures Path(states, events) && states[0] == s && At(states[|events|], s.nextScan, Inside)
  {
    NoneLeft(s);
    var s1 := Next(s, Add);
    var s2 := Next(s1, Spawn);
    var s3 := Next(s2, Acquire(s.nextScan));
    states, events := Before(s2, Acquire(s.nextScan), [s3], []);
    states, events := Before(s1, Spawn, states, events);
    states, events := Before(s, Add, states, events);
  }

  /** How far the loop is from launching a scan. */
  function Distance(l: Loop): (nat, nat) {
    match l
    case Starting(sn, manual, rest) =>
      if ShouldRunScan(sn, manual) then (1, 0) else (if HasPeriodic(rest) then 2 else 6, 2 * |rest| + 1)
    case Ticking(rest) => (if HasPeriodic(rest) then 2 else 6, 2 * |rest|)
    case Idle => (3, 0)
    case Cleared(_) => (4, 0)
    case InHand(_) => (5, 0)
    case _ => (0, 0)
  }

  /** The loop's step towards a scan. */
  function Onward(s: Sched): Event {
    match s.loop
    case InHand(_) => Clear
    case Cleared(_) => Lookup(None)
    case Idle => Tick([Subnet(0, false, true)])
    case Ticking(rest) => Consider(true)
    case _ => Admit
  }

  lemma OnwardIsCloser(s: Sched)
    requires Inv(s) && s.wg == 0 && s.sending.None? && MayStillScan(s) && !s.loop.Launching?
    ensures Enabled(s, Onward(s))
    ensures var u, d, e := Next(s, Onward(s)), Distance(Next(s, Onward(s)).loop), Distance(s.loop);
            MayStillScan(u) && u.wg == 0 && u.sending.None? && (d.0 < e.0 || (d.0 == e.0 && d.1 < e.1))
  {
    NoneLeft(s);
    if s.loop.Idle? {
      assert IsPeriodic([Subnet(0, false, true)][0]);
    } else if s.loop.Ticking? && s.loop.rest != [] {
      LaterPeriodic(s.loop.rest);
    }
  }

  lemma LaterPeriodic(subnets: seq<Subnet>)
    requires subnets != []
    ensures HasPeriodic(subnets) <==> IsPeriodic(subnets[0]) || HasPeriodic(subnets[1..])
  {
    if n :| 0 <= n < |subnets| && IsPeriodic(subnets[n]) {
      assert n > 0 ==> subnets[1..][n - 1] == subnets[n];
    }
    if n :| 0 <= n < |subnets| - 1 && IsPeriodic(subnets[1..][n]) {
      assert subnets[n + 1] == subnets[1..][n];
    }
  }

  lemma {:induction false} ScanFollows(s: Sched) returns (states: seq<Sched>, events: seq<Event>, g: nat)
    requires Inv(s) && s.wg == 0 && MayStillScan(s)
    ensures Path(states, events) && states[0] == s && At(states[|events|], g, Inside)
    decreases if s.sending.Some? then 1 else 0, Distance(s.loop).0, Distance(s.loop).1
  {
    if s.sending.Some? {
      NextKeepsInv(s, Mark);
      states, events, g := ScanFollows(Next(s, Mark));
      states, events := Before(s, Mark, states, events);
    } else if s.loop.Launching? {
      states, events := LaunchedGoesInside(s);
      g := s.nextScan;
    } else {
      OnwardIsCloser(s);
      NextKeepsInv(s, Onward(s));
      states, events, g := ScanFollows(Next(s, Onward(s)));
      states, events := Before(s, Onward(s), states, events);
    }
  }

  /** When Wait returns, no scan will run again exactly when the loop has nothing
      in hand to launch and cannot read anything to scan. */
  lemma WaitIsFinal(states: seq<Sched>, events: seq<Event>, n: nat)
    requires Run(states, events) && n <= |events| && states[n].wg == 0
    ensures NeverScans(states[n]) <==> !MayStillScan(states[n])
  {
    RunKeepsInv(states, events, n);
    if MayStillScan(states[n]) {
      var later, es, g := ScanFollows(states[n]);
      assert !NoneInside(later);
    } else {
      HushedNeverScans(states[n]);
    }
  }

  /** While the database answers, that is exactly when the loop has stopped. */
  lemma WaitIsFinalWhenStopped(states: seq<Sched>, events: seq<Event>, n: nat)
    requires Run(states, events) && n <= |events| && states[n].wg == 0
    ensures states[n].loop.Stopped? ==> NeverScans(states[n])
    ensures CanRead(states[n]) ==> (NeverScans(states[n]) <==> states[n].loop.Stopped?)
  {
    RunKeepsInv(states, events, n);
    NoneLeft(states[n]);
    WaitIsFinal(states, events, n);
  }

  // ---- Two runs in which Wait returns too early

  lemma Goes(states: seq<Sched>, events: seq<Event>, e: Event) returns (more: seq<Sched>, longer: seq<Event>)
    requires Run(states, events) && Enabled(states[|events|], e)
    ensures Run(more, longer) && longer == events + [e] && more == states + [Next(states[|events|], e)]
  {
    more, longer := states + [Next(states[|events|], e)], events + [e];
    forall n | 0 <= n < |longer|
      ensures Follows(more, longer, n)
    {
      if n < |events| {
        assert Follows(states, events, n);
      }
    }
  }

  lemma CancelledStarting(readsOn: bool) returns (states: seq<Sched>, events: seq<Event>)
    ensures Run(states, events) && |events| == 3 && states[0] == Init(readsOn)
    ensures states[3] == Init(readsOn).(cancelled := true, loop := Starting(Subnet(7, false, true), false, []))
  {
    states, events := Goes([Init(readsOn)], [], Tick([Subnet(7, false, true)]));
    states, events := Goes(states, events, Consider(true));
    assert [Subnet(7, false, true)][1..] == [];
    states, events := Goes(states, events, Cancel);
  }

  /** The context is cancelled and the wait group at zero while start is before
      or after its critical section; nothing in start looks at the context. */
  lemma WaitCanReturnEarly(readsOn: bool) returns (states: seq<Sched>, events: seq<Event>)
    ensures Run(states, events) && |events| == 4 && states[0] == Init(readsOn)
    ensures states[3].cancelled && states[3].wg == 0 && states[3].loop.Starting? && states[3].running == {}
    ensures !NeverScans(states[3])
    ensures states[4].wg == 0 && states[4].loop.Launching? && !NeverScans(states[4])
  {
    states, events := CancelledStarting(readsOn);
    states, events := Goes(states, events, Event.Admit);
    WaitIsFinal(states, events, 3);
    WaitIsFinal(states, events, 4);
  }
}
