/** Which subnets get scanned: every wish to scan goes through start's guard
    (internal/scan/scheduler.go:94-160). */
module ScanLaunches {
  import opened Options
  import opened ScanScheduler

  /** Something scans the subnet, or is about to. */
  ghost predicate IsBusy(s: Sched, id: int) {
    IsLaunching(s, id) || HasLive(s, id)
  }

  /** start launches exactly what may be scanned and nobody is scanning: any subnet
      but WireGuard's when asked by hand, and by itself only those enabled. */
  lemma StartLaunches(states: seq<Sched>, events: seq<Event>, n: nat)
    requires Run(states, events) && n < |events| && events[n] == Event.Admit && states[n].loop.Starting?
    ensures var sn, manual := states[n].loop.sn, states[n].loop.manual;
            var goes := !sn.wireguard && (manual || sn.enabled) && !IsBusy(states[n], sn.id);
            && (goes ==> states[n + 1].loop == Launching(sn, manual, states[n].loop.rest))
            && (!goes ==> states[n + 1] == states[n].(loop := Ticking(states[n].loop.rest)))
  {
    RunKeepsInv(states, events, n);
    assert Follows(states, events, n);
  }

  /** A tick passes on exactly the subnets that are enabled, not WireGuard's and due. */
  lemma TickStarts(states: seq<Sched>, events: seq<Event>, n: nat)
    requires Run(states, events) && n < |events| && events[n].Consider?
    requires states[n].loop.Ticking? && states[n].loop.rest != []
    ensures var sn, rest := states[n].loop.rest[0], states[n].loop.rest[1..];
            states[n + 1].loop ==
              if sn.enabled && !sn.wireguard && events[n].due then Starting(sn, false, rest) else Ticking(rest)
  {
    assert Follows(states, events, n);
  }

  /** Scan g was spawned for this subnet by step k. */
  ghost predicate SpawnedAt(states: seq<Sched>, events: seq<Event>, k: nat, sn: Subnet, manual: bool) {
    && k < |events| && k < |states| && events[k] == Spawn && states[k].loop.Added?
    && states[k].loop.sn == sn && states[k].loop.manual == manual
  }

  /** The loop works for a trigger, or for a tick on a subnet that is enabled. */
  predicate IsWanted(events: seq<Event>, loop: Loop) {
    match loop
    case Starting(sn, manual, _) => if manual then Lookup(Some(sn)) in events else sn.enabled && !sn.wireguard
    case Launching(sn, manual, _) => !sn.wireguard && if manual then Lookup(Some(sn)) in events else sn.enabled
    case Added(sn, manual, _) => !sn.wireguard && if manual then Lookup(Some(sn)) in events else sn.enabled
    case _ => true
  }

  lemma WantedStep(before: seq<Event>, s: Sched, e: Event)
    requires Enabled(s, e) && IsWanted(before, s.loop)
    ensures IsWanted(before + [e], Next(s, e).loop)
  {
    assert forall x :: x in before + [e] <==> x in before || x == e;
  }

  lemma {:induction false} LoopIsWanted(states: seq<Sched>, events: seq<Event>, n: nat)
    requires Run(states, events) && n <= |events|
    ensures IsWanted(events[..n], states[n].loop)
  {
    if n > 0 {
      LoopIsWanted(states, events, n - 1);
      assert Follows(states, events, n - 1);
      assert events[..n] == events[..n - 1] + [events[n - 1]];
      WantedStep(events[..n - 1], states[n - 1], events[n - 1]);
    }
  }

  /** Over any run, no scan of a WireGuard subnet is ever spawned, and one of a
      subnet that is not enabled only after somebody triggered it. */
  lemma ScansAreWanted(states: seq<Sched>, events: seq<Event>, k: nat, sn: Subnet, manual: bool)
    requires Run(states, events) && SpawnedAt(states, events, k, sn, manual)
    ensures !sn.wireguard && (sn.enabled || Lookup(Some(sn)) in events[..k])
  {
    LoopIsWanted(states, events, k);
  }

  // ---- Requests

  /** With the mutex free, a request is accepted exactly if its subnet neither
      waits nor is being scanned and the queue has one of its 256 places left. */
  lemma RequestsAreAccepted(states: seq<Sched>, events: seq<Event>, n: nat, id: int)
    requires Run(states, events) && n <= |events| && states[n].sending.None?
    ensures MayTrigger(states[n], id) <==>
              id !in states[n].channel && !Holds(states[n], id) && !IsBusy(states[n], id) && |states[n].channel| < 256
  {
    RunKeepsInv(states, events, n);
  }

  /** The requests accepted so far, in their order. */
  function Sent(events: seq<Event>): seq<int> {
    if events == [] then []
    else
      var last := events[|events| - 1];
      Sent(events[..|events| - 1]) + if last.Send? then [last.id] else []
  }

  function Received(events: seq<Event>): nat {
    if events == [] then 0
    else Received(events[..|events| - 1]) + if events[|events| - 1].Receive? then 1 else 0
  }

  /** Requests are served first come, first served. */
  lemma {:induction false} QueueIsInOrder(states: seq<Sched>, events: seq<Event>, n: nat)
    requires Run(states, events) && n <= |events|
    ensures Received(events[..n]) <= |Sent(events[..n])|
    ensures states[n].channel == Sent(events[..n])[Received(events[..n])..]
  {
    if n > 0 {
      QueueIsInOrder(states, events, n - 1);
      assert Follows(states, events, n - 1);
      assert events[..n][..n - 1] == events[..n - 1];
      var sent, k := Sent(events[..n - 1]), Received(events[..n - 1]);
      var e := events[n - 1];
      if e.Send? {
        assert (sent + [e.id])[k..] == sent[k..] + [e.id];
      } else if e.Receive? {
        assert sent[k..][1..] == sent[k + 1..];
      } else {
        ChannelStays(states[n - 1], e);
      }
    }
  }

  lemma ChannelStays(s: Sched, e: Event)
    requires Enabled(s, e) && !e.Send? && !e.Receive?
    ensures Next(s, e).channel == s.channel
  {
  }

  // ---- Stopping

  lemma {:induction false} CancelledBy(states: seq<Sched>, events: seq<Event>, n: nat)
    requires Run(states, events) && n <= |events|
    ensures states[n].cancelled <==> Cancel in events[..n]
  {
    if n > 0 {
      CancelledBy(states, events, n - 1);
      assert Follows(states, events, n - 1);
      assert events[..n] == events[..n - 1] + [events[n - 1]];
      CancelledNext(states[n - 1], events[n - 1]);
    }
  }

  lemma CancelledNext(s: Sched, e: Event)
    requires Enabled(s, e)
    ensures Next(s, e).cancelled <==> s.cancelled || e == Cancel
  {
  }

  /** Only after the context was cancelled does the loop stop or a scan give up its place. */
  lemma StopsFollowCancel(states: seq<Sched>, events: seq<Event>, n: nat)
    requires Run(states, events) && n < |events| && (events[n].Stop? || events[n].GiveUp?)
    ensures Cancel in events[..n]
  {
    assert Follows(states, events, n);
    CancelledBy(states, events, n);
  }
}
