/** The scan scheduler as a concurrent step system (internal/scan/scheduler.go).
    A step is what one goroutine does between two points where another may run:
    a critical section of the mutex, a channel operation, or a counter update.
    Trigger's critical section is two steps, since receiving from the channel
    needs no mutex and may fall between its send and its note in queued. */
module ScanScheduler {
  import opened Options

  const MAX_PARALLEL_SCANS := 4
  const QUEUE_CAPACITY := 256

  datatype Subnet = Subnet(id: int, wireguard: bool, enabled: bool)

  /** Where Start's loop is. `rest` are the subnets a periodic tick has yet to look at. */
  datatype Loop =
    | Idle
    | InHand(id: int)
    | Cleared(id: int)
    | Ticking(rest: seq<Subnet>)
    | Starting(sn: Subnet, manual: bool, rest: seq<Subnet>)
    | Launching(sn: Subnet, manual: bool, rest: seq<Subnet>)
    | Added(sn: Subnet, manual: bool, rest: seq<Subnet>)
    | Stopped

  /** Where a scan's goroutine is: its deferred calls run in this order. */
  datatype Phase = Waiting | Inside | Recorded | Released(ran: bool) | Removed

  datatype Scan = Scan(id: int, phase: Phase)

  /** `sem` is the semaphore's tokens, each with the scan that holds it, and
      `readsOn` whether the database goes on answering once the context is cancelled. */
  datatype Sched = Sched(
    channel: seq<int>, queued: set<int>, running: set<int>, sending: Option<int>,
    sem: set<nat>, wg: nat, loop: Loop, scans: map<nat, Scan>, nextScan: nat,
    done: map<int, nat>, cancelled: bool, readsOn: bool)

  datatype Event =
    | Send(id: int) | Mark                                  // Trigger
    | Receive | Clear | Lookup(found: Option<Subnet>)       // Start, a trigger
    | Tick(subnets: seq<Subnet>) | Consider(due: bool)      // Start, a tick
    | Admit | Add | Spawn                                   // start
    | Acquire(g: nat) | GiveUp(g: nat) | Record(g: nat)     // the scan
    | Release(g: nat) | Remove(g: nat) | Finish(g: nat)
    | Cancel | Stop

  predicate ShouldRunScan(sn: Subnet, manual: bool) {
    !sn.wireguard && (manual || sn.enabled)
  }

  predicate IsPeriodic(sn: Subnet) {
    sn.enabled && !sn.wireguard
  }

  predicate At(s: Sched, g: nat, phase: Phase) {
    g in s.scans && s.scans[g].phase == phase
  }

  function Moved(s: Sched, g: nat, phase: Phase): Sched
    requires g in s.scans
  {
    s.(scans := s.scans[g := s.scans[g].(phase := phase)])
  }

  predicate MayTrigger(s: Sched, id: int) {
    s.sending.None? && id !in s.queued && id !in s.running && |s.channel| < QUEUE_CAPACITY
  }

  predicate CanRead(s: Sched) {
    !s.cancelled || s.readsOn
  }

  predicate Enabled(s: Sched, e: Event) {
    match e
    case Send(id) => MayTrigger(s, id)
    case Mark => s.sending.Some?
    case Receive => s.loop.Idle? && s.channel != []
    case Clear => s.loop.InHand? && s.sending.None?
    case Lookup(found) => s.loop.Cleared? && (found.Some? ==> found.value.id == s.loop.id && CanRead(s))
    case Tick(_) => s.loop.Idle? && CanRead(s)
    case Consider(_) => s.loop.Ticking? && (s.loop.rest != [] && IsPeriodic(s.loop.rest[0]) ==> s.sending.None?)
    case Admit => s.loop.Starting? && (ShouldRunScan(s.loop.sn, s.loop.manual) ==> s.sending.None?)
    case Add => s.loop.Launching?
    case Spawn => s.loop.Added?
    case Acquire(g) => At(s, g, Waiting) && |s.sem| < MAX_PARALLEL_SCANS
    case GiveUp(g) => At(s, g, Waiting) && s.cancelled
    case Record(g) => At(s, g, Inside) && s.sending.None?
    case Release(g) => At(s, g, Recorded)
    case Remove(g) => g in s.scans && s.scans[g].phase.Released? && s.sending.None?
    case Finish(g) => At(s, g, Removed) && s.wg > 0
    case Cancel => true
    case Stop => s.loop.Idle? && s.cancelled
  }

  /** What start does once its guard or the running set lets the scan through. */
  function AfterAdmit(s: Sched, sn: Subnet, manual: bool, rest: seq<Subnet>): Sched {
    if !ShouldRunScan(sn, manual) || sn.id in s.running then s.(loop := Ticking(rest))
    else s.(running := s.running + {sn.id}, loop := Launching(sn, manual, rest))
  }

  function AfterConsider(s: Sched, due: bool): Sched
    requires s.loop.Ticking?
  {
    if s.loop.rest == [] then s.(loop := Idle)
    else
      var sn, rest := s.loop.rest[0], s.loop.rest[1..];
      if IsPeriodic(sn) && due then s.(loop := Starting(sn, false, rest)) else s.(loop := Ticking(rest))
  }

  function Next(s: Sched, e: Event): Sched
    requires Enabled(s, e)
  {
    match e
    case Send(id) => s.(channel := s.channel + [id], sending := Some(id))
    case Mark => s.(queued := s.queued + {s.sending.value}, sending := None)
    case Receive => s.(channel := s.channel[1..], loop := InHand(s.channel[0]))
    case Clear => s.(queued := s.queued - {s.loop.id}, loop := Cleared(s.loop.id))
    case Lookup(found) => if found.None? then s.(loop := Idle) else s.(loop := Starting(found.value, true, []))
    case Tick(subnets) => s.(loop := Ticking(subnets))
    case Consider(due) => AfterConsider(s, due)
    case Admit => AfterAdmit(s, s.loop.sn, s.loop.manual, s.loop.rest)
    case Add => s.(wg := s.wg + 1, loop := Added(s.loop.sn, s.loop.manual, s.loop.rest))
    case Spawn => s.(scans := s.scans[s.nextScan := Scan(s.loop.sn.id, Waiting)], nextScan := s.nextScan + 1,
                     loop := Ticking(s.loop.rest))
    case Acquire(g) => Moved(s, g, Inside).(sem := s.sem + {g})
    case GiveUp(g) => Moved(s, g, Released(false))
    case Record(g) => Moved(s, g, Recorded).(done := s.done[s.scans[g].id := g])
    case Release(g) => Moved(s, g, Released(true)).(sem := s.sem - {g})
    case Remove(g) => Moved(s, g, Removed).(running := s.running - {s.scans[g].id})
    case Finish(g) => s.(wg := s.wg - 1, scans := s.scans - {g})
    case Cancel => s.(cancelled := true)
    case Stop => s.(loop := Stopped)
  }

  function Init(readsOn: bool): Sched {
    Sched([], {}, {}, None, {}, 0, Idle, map[], 0, map[], false, readsOn)
  }

  ghost predicate Run(states: seq<Sched>, events: seq<Event>) {
    && |states| == |events| + 1 && states[0] == Init(states[0].readsOn)
    && forall n :: 0 <= n < |events| ==> Follows(states, events, n)
  }

  ghost predicate Follows(states: seq<Sched>, events: seq<Event>, n: int)
    requires |states| == |events| + 1 && 0 <= n < |events|
  {
    Enabled(states[n], events[n]) && states[n + 1] == Next(states[n], events[n])
  }

  // ---- The queue

  predicate Holds(s: Sched, id: int) {
    s.loop.InHand? && s.loop.id == id
  }

  /** Outside Trigger's critical section queued is the channel and the id in
      hand; inside it, it lacks exactly the id being sent. No id waits twice. */
  ghost predicate QueueInv(s: Sched) {
    && |s.channel| <= QUEUE_CAPACITY
    && (forall i, j :: 0 <= i < j < |s.channel| ==> s.channel[i] != s.channel[j])
    && (s.loop.InHand? ==> s.loop.id !in s.channel)
    && (forall id :: id in s.queued <==> (id in s.channel || Holds(s, id)) && s.sending != Some(id))
    && (s.sending.Some? ==> s.sending.value in s.channel || Holds(s, s.sending.value))
  }

  predicate IsQueueStep(e: Event) {
    e.Send? || e.Mark? || e.Receive? || e.Clear?
  }

  lemma OthersKeepQueue(s: Sched, e: Event)
    requires QueueInv(s) && Enabled(s, e) && !IsQueueStep(e)
    ensures QueueInv(Next(s, e))
  {
    assert Next(s, e).channel == s.channel && Next(s, e).queued == s.queued && Next(s, e).sending == s.sending;
  }

  lemma NextKeepsQueue(s: Sched, e: Event)
    requires QueueInv(s) && Enabled(s, e)
    ensures QueueInv(Next(s, e))
  {
    if e.Receive? {
      assert s.channel == [s.channel[0]] + s.channel[1..];
    } else if !IsQueueStep(e) {
      OthersKeepQueue(s, e);
    }
  }

  // ---- The scans

  /** Scan g of the subnet is under way: not yet taken out of running. */
  predicate Live(s: Sched, g: nat, id: int) {
    g in s.scans && s.scans[g].id == id && !s.scans[g].phase.Removed?
  }

  ghost predicate HasLive(s: Sched, id: int) {
    exists g :: Live(s, g, id)
  }

  predicate IsLaunching(s: Sched, id: int) {
    (s.loop.Launching? || s.loop.Added?) && s.loop.sn.id == id
  }

  ghost predicate OneLive(s: Sched) {
    forall g, h, id :: Live(s, g, id) && Live(s, h, id) ==> g == h
  }

  /** running is the subnets with a live scan or one being launched, and no
      subnet has two of either. */
  ghost predicate RunningInv(s: Sched) {
    && (forall g :: g in s.scans ==> g < s.nextScan)
    && (forall id :: id in s.running <==> IsLaunching(s, id) || HasLive(s, id))
    && (forall id :: IsLaunching(s, id) ==> !HasLive(s, id))
    && OneLive(s)
  }

  predicate IsLoopStep(e: Event) {
    e.Send? || e.Mark? || e.Receive? || e.Clear? || e.Lookup? || e.Tick? || e.Consider? || e.Admit? || e.Add?
        || e.Cancel? || e.Stop?
  }

  lemma LoopStepKeepsRunning(s: Sched, e: Event)
    requires RunningInv(s) && Enabled(s, e) && IsLoopStep(e)
    ensures RunningInv(Next(s, e))
  {
    LivesSame(s, Next(s, e));
  }

  lemma NextKeepsRunning(s: Sched, e: Event)
    requires RunningInv(s) && Enabled(s, e)
    ensures RunningInv(Next(s, e))
  {
    if IsLoopStep(e) {
      LoopStepKeepsRunning(s, e);
    } else if e.Spawn? {
      SpawnKeepsRunning(s);
    } else if e.Remove? {
      RemoveKeepsRunning(s, e.g);
    } else {
      LivesUnchanged(s, Next(s, e));
    }
  }

  lemma LivesSame(s: Sched, u: Sched)
    requires u.scans == s.scans
    ensures forall g, id :: Live(s, g, id) <==> Live(u, g, id)
    ensures forall id :: HasLive(s, id) <==> HasLive(u, id)
  {
    assert forall g, id :: Live(s, g, id) <==> Live(u, g, id);
  }

  lemma LivesUnchanged(s: Sched, u: Sched)
    requires RunningInv(s) && u.running == s.running && u.loop == s.loop && u.nextScan == s.nextScan
    requires u.scans.Keys <= s.scans.Keys
    requires forall g, id :: Live(s, g, id) <==> Live(u, g, id)
    ensures RunningInv(u)
  {
    assert forall id :: HasLive(s, id) <==> HasLive(u, id);
    assert forall g :: g in u.scans ==> g in s.scans;
  }

  lemma SpawnKeepsRunning(s: Sched)
    requires RunningInv(s) && s.loop.Added?
    ensures RunningInv(Next(s, Spawn))
  {
    var u, id := Next(s, Spawn), s.loop.sn.id;
    assert IsLaunching(s, id) && Live(u, s.nextScan, id);
    assert forall g, i :: Live(u, g, i) <==> Live(s, g, i) || (g == s.nextScan && i == id);
    forall i
      ensures HasLive(u, i) <==> HasLive(s, i) || i == id
    {
      if HasLive(s, i) {
        var g :| Live(s, g, i);
        assert Live(u, g, i);
      }
    }
  }

  lemma RemoveKeepsRunning(s: Sched, g: nat)
    requires RunningInv(s) && Enabled(s, Remove(g))
    ensures RunningInv(Next(s, Remove(g)))
  {
    var u, id := Next(s, Remove(g)), s.scans[g].id;
    assert Live(s, g, id);
    assert forall h, i :: Live(u, h, i) <==> Live(s, h, i) && h != g;
    forall i
      ensures HasLive(u, i) <==> HasLive(s, i) && i != id
    {
      if HasLive(s, i) && i != id {
        var h :| Live(s, h, i);
        assert Live(u, h, i);
      }
      if HasLive(u, i) {
        var h :| Live(u, h, i);
        assert Live(s, h, i) && i != id;
      }
    }
    assert HasLive(s, id) && !IsLaunching(s, id);
    assert forall i :: IsLaunching(u, i) <==> IsLaunching(s, i);
  }

  // ---- The semaphore and the wait group

  predicate HoldsToken(phase: Phase) {
    phase.Inside? || phase.Recorded?
  }

  /** The tokens are held by exactly the scans inside run. */
  ghost predicate TokenInv(s: Sched) {
    |s.sem| <= MAX_PARALLEL_SCANS && forall g :: g in s.sem <==> g in s.scans && HoldsToken(s.scans[g].phase)
  }

  /** The wait group counts the scans not yet over and the one about to start. */
  ghost predicate GroupInv(s: Sched) {
    s.wg == |s.scans| + (if s.loop.Added? then 1 else 0) && forall g :: g in s.scans ==> g < s.nextScan
  }

  lemma MovedKeepsTokens(s: Sched, g: nat, phase: Phase, sem: set<nat>)
    requires TokenInv(s) && g in s.scans && |sem| <= MAX_PARALLEL_SCANS
    requires sem == if HoldsToken(phase) then s.sem + {g} else s.sem - {g}
    ensures TokenInv(Moved(s, g, phase).(sem := sem))
  {
  }

  /** Until it leaves running, a scan that ran is the last one recorded for its subnet. */
  ghost predicate DoneInv(s: Sched) {
    forall g :: g in s.scans && (s.scans[g].phase.Recorded? || s.scans[g].phase == Released(true)) ==>
      s.scans[g].id in s.done && s.done[s.scans[g].id] == g
  }

  /** The steps of the loop and of Trigger leave the scans alone. */
  lemma LoopStepFrame(s: Sched, e: Event)
    requires Enabled(s, e) && IsLoopStep(e)
    ensures var u := Next(s, e); u.scans == s.scans && u.sem == s.sem && u.done == s.done && u.nextScan == s.nextScan
  {
  }

  lemma FrameKeeps(s: Sched, u: Sched)
    requires u.scans == s.scans && u.sem == s.sem && u.done == s.done
    ensures TokenInv(s) ==> TokenInv(u)
    ensures DoneInv(s) ==> DoneInv(u)
  {
  }

  lemma SpawnKeeps(s: Sched)
    requires GroupInv(s) && Enabled(s, Spawn)
    ensures TokenInv(s) ==> TokenInv(Next(s, Spawn))
    ensures DoneInv(s) ==> DoneInv(Next(s, Spawn))
  {
  }

  lemma FinishKeeps(s: Sched, g: nat)
    requires Enabled(s, Finish(g))
    ensures TokenInv(s) ==> TokenInv(Next(s, Finish(g)))
    ensures DoneInv(s) ==> DoneInv(Next(s, Finish(g)))
  {
  }

  lemma ScanKeepsTokens(s: Sched, e: Event)
    requires TokenInv(s) && Enabled(s, e) && (e.GiveUp? || e.Record? || e.Remove?)
    ensures TokenInv(Next(s, e))
  {
    assert s.sem == if e.Record? then s.sem + {e.g} else s.sem - {e.g};
    MovedKeepsTokens(s, e.g, Next(s, e).scans[e.g].phase, s.sem);
  }

  lemma NextKeepsTokens(s: Sched, e: Event)
    requires TokenInv(s) && GroupInv(s) && Enabled(s, e)
    ensures TokenInv(Next(s, e))
  {
    if e.Acquire? {
      MovedKeepsTokens(s, e.g, Inside, s.sem + {e.g});
    } else if e.Release? {
      assert e.g in s.sem;
      MovedKeepsTokens(s, e.g, Released(true), s.sem - {e.g});
    } else if e.GiveUp? || e.Record? || e.Remove? {
      ScanKeepsTokens(s, e);
    } else if e.Spawn? {
      SpawnKeeps(s);
    } else if e.Finish? {
      FinishKeeps(s, e.g);
    } else {
      LoopStepFrame(s, e);
      FrameKeeps(s, Next(s, e));
    }
  }

  lemma MovedKeepsGroup(s: Sched, g: nat, phase: Phase)
    requires GroupInv(s) && g in s.scans
    ensures GroupInv(Moved(s, g, phase))
  {
    assert Moved(s, g, phase).scans.Keys == s.scans.Keys;
    assert |Moved(s, g, phase).scans.Keys| == |Moved(s, g, phase).scans| && |s.scans.Keys| == |s.scans|;
  }

  lemma FinishKeepsGroup(s: Sched, g: nat)
    requires GroupInv(s) && Enabled(s, Finish(g))
    ensures GroupInv(Next(s, Finish(g)))
  {
    OneFewer(s.scans, g);
  }

  lemma OneFewer(scans: map<nat, Scan>, g: nat)
    requires g in scans
    ensures |scans - {g}| == |scans| - 1
  {
    var rest := scans - {g};
    assert rest.Keys == scans.Keys - {g};
    assert |rest.Keys| == |rest| && |scans.Keys| == |scans|;
  }

  lemma SpawnKeepsGroup(s: Sched)
    requires GroupInv(s) && Enabled(s, Spawn)
    ensures GroupInv(Next(s, Spawn))
  {
  }

  lemma LoopStepKeepsGroup(s: Sched, e: Event)
    requires GroupInv(s) && Enabled(s, e) && IsLoopStep(e)
    ensures GroupInv(Next(s, e))
  {
    assert Next(s, e).scans == s.scans;
  }

  lemma NextKeepsGroup(s: Sched, e: Event)
    requires GroupInv(s) && Enabled(s, e)
    ensures GroupInv(Next(s, e))
  {
    if IsLoopStep(e) {
      LoopStepKeepsGroup(s, e);
    } else if e.Spawn? {
      SpawnKeepsGroup(s);
    } else if e.Finish? {
      FinishKeepsGroup(s, e.g);
    } else {
      MovedKeepsGroup(s, e.g, Next(s, e).scans[e.g].phase);
    }
  }

  // ---- Results

  lemma RecordKeepsDone(s: Sched, g: nat)
    requires DoneInv(s) && OneLive(s) && Enabled(s, Record(g))
    ensures DoneInv(Next(s, Record(g)))
  {
    var u := Next(s, Record(g));
    forall h | h in u.scans && h != g && (u.scans[h].phase.Recorded? || u.scans[h].phase == Released(true))
      ensures u.scans[h].id in u.done && u.done[u.scans[h].id] == h
    {
      assert Live(s, h, s.scans[h].id) && Live(s, g, s.scans[g].id);
    }
  }

  lemma MovedKeepsDone(s: Sched, g: nat, phase: Phase)
    requires DoneInv(s) && g in s.scans && !phase.Recorded?
    requires phase == Released(true) ==> s.scans[g].phase.Recorded?
    ensures DoneInv(Moved(s, g, phase))
  {
  }

  lemma NextKeepsDone(s: Sched, e: Event)
    requires DoneInv(s) && OneLive(s) && GroupInv(s) && Enabled(s, e)
    ensures DoneInv(Next(s, e))
  {
    match e {
      case Record(g) => RecordKeepsDone(s, g);
      case Acquire(g) => MovedKeepsDone(s, g, Inside);
      case GiveUp(g) => MovedKeepsDone(s, g, Released(false));
      case Release(g) => MovedKeepsDone(s, g, Released(true));
      case Remove(g) => MovedKeepsDone(s, g, Removed);
      case Spawn => SpawnKeeps(s);
      case Finish(g) => FinishKeeps(s, g);
      case _ =>
        LoopStepFrame(s, e);
        FrameKeeps(s, Next(s, e));
    }
  }

  // ---- Every run

  ghost predicate Inv(s: Sched) {
    QueueInv(s) && RunningInv(s) && TokenInv(s) && GroupInv(s) && DoneInv(s)
  }

  lemma NextKeepsInv(s: Sched, e: Event)
    requires Inv(s) && Enabled(s, e)
    ensures Inv(Next(s, e))
  {
    NextKeepsQueue(s, e);
    NextKeepsRunning(s, e);
    NextKeepsTokens(s, e);
    NextKeepsGroup(s, e);
    NextKeepsDone(s, e);
  }

  lemma {:induction false} RunKeepsInv(states: seq<Sched>, events: seq<Event>, n: nat)
    requires Run(states, events) && n <= |events|
    ensures Inv(states[n])
  {
    if n == 0 {
      assert |states[0].scans| == 0;
    } else {
      RunKeepsInv(states, events, n - 1);
      assert Follows(states, events, n - 1);
      NextKeepsInv(states[n - 1], events[n - 1]);
    }
  }

  /** At no time are more than four scans inside run, those that have recorded
      their result but not returned included. */
  lemma ScansAreBounded(states: seq<Sched>, events: seq<Event>, n: nat, inside: set<nat>)
    requires Run(states, events) && n <= |events|
    requires forall g :: g in inside ==> g in states[n].scans && HoldsToken(states[n].scans[g].phase)
    ensures |inside| <= 4
  {
    RunKeepsInv(states, events, n);
    SubsetIsSmaller(inside, states[n].sem);
  }

  lemma {:induction false} SubsetIsSmaller<T>(a: set<T>, b: set<T>)
    requires a <= b
    ensures |a| <= |b|
  {
    if a != {} {
      var x :| x in a;
      SubsetIsSmaller(a - {x}, b - {x});
    }
  }

  /** Two scans of one subnet never overlap, nor does a launch overlap a scan,
      and running tells exactly which subnets have one. */
  lemma ScansNeverOverlap(states: seq<Sched>, events: seq<Event>, n: nat, id: int)
    requires Run(states, events) && n <= |events|
    ensures forall g, h :: Live(states[n], g, id) && Live(states[n], h, id) ==> g == h
    ensures !(IsLaunching(states[n], id) && HasLive(states[n], id))
    ensures id in states[n].running <==> IsLaunching(states[n], id) || HasLive(states[n], id)
  {
    RunKeepsInv(states, events, n);
  }

  /** No subnet waits twice, and whenever the mutex is free the queued set
      accounts for the channel's ids and the one just received. */
  lemma QueueIsExact(states: seq<Sched>, events: seq<Event>, n: nat)
    requires Run(states, events) && n <= |events|
    ensures forall i, j :: 0 <= i < j < |states[n].channel| ==> states[n].channel[i] != states[n].channel[j]
    ensures states[n].sending.None? ==> forall id :: id in states[n].queued <==>
        id in states[n].channel || Holds(states[n], id)
  {
    RunKeepsInv(states, events, n);
  }

  lemma {:induction false} DistinctFit(s: seq<int>, t: set<int>)
    requires (forall i, j :: 0 <= i < j < |s| ==> s[i] != s[j]) && forall x :: x in s ==> x in t
    ensures |s| <= |t|
  {
    if s != [] {
      var last := s[|s| - 1];
      assert forall x :: x in s[..|s| - 1] ==> x in s && x != last;
      DistinctFit(s[..|s| - 1], t - {last});
    }
  }

  /** While fewer subnets wait than the queue has places, a request is refused
      only for a subnet that is waiting, being scanned or about to be. */
  lemma RefusalHasACause(states: seq<Sched>, events: seq<Event>, n: nat, id: int)
    requires Run(states, events) && n <= |events| && states[n].sending.None?
    requires !MayTrigger(states[n], id) && |states[n].queued| < 256
    ensures id in states[n].channel || Holds(states[n], id) || IsLaunching(states[n], id) || HasLive(states[n], id)
  {
    RunKeepsInv(states, events, n);
    DistinctFit(states[n].channel, states[n].queued);
  }

  /** When a scan that ran stops counting as running, its result is the one on record. */
  lemma ResultIsOnRecord(states: seq<Sched>, events: seq<Event>, n: nat)
    requires Run(states, events) && n < |events| && events[n].Remove?
    requires events[n].g in states[n].scans && states[n].scans[events[n].g].phase == Released(true)
    ensures var id := states[n].scans[events[n].g].id;
            id in states[n + 1].done && states[n + 1].done[id] == events[n].g && id !in states[n + 1].running
  {
    RunKeepsInv(states, events, n);
    assert Follows(states, events, n);
  }

  // ---- The methods

  /** The shared fields, and the methods' critical sections run undisturbed. */
  class Scheduler {
    var channel: seq<int>
    var queued: set<int>
    var running: set<int>
    var done: map<int, nat>

    constructor ()
      ensures forall readsOn :: Shows(Init(readsOn))
    {
      channel, queued, running, done := [], {}, {}, map[];
    }

    ghost predicate Shows(s: Sched)
      reads this
    {
      channel == s.channel && queued == s.queued && running == s.running && done == s.done
    }

    method Trigger(id: int, ghost s: Sched) returns (accepted: bool)
      requires Shows(s) && s.sending.None?
      modifies this
      ensures accepted <==> MayTrigger(s, id)
      ensures Shows(if accepted then Next(Next(s, Send(id)), Mark) else s)
    {
      if id in queued || id in running {
        return false;
      }
      if |channel| == QUEUE_CAPACITY || |channel| > QUEUE_CAPACITY {
        return false;
      }
      channel := channel + [id];
      queued := queued + {id};
      return true;
    }

    /** Start's receive and the critical section after it. */
    method TakeNext(ghost s: Sched) returns (id: int)
      requires Shows(s) && s.sending.None? && s.loop.Idle? && channel != []
      modifies this
      ensures Shows(Next(Next(s, Receive), Clear)) && Next(Next(s, Receive), Clear).loop == Cleared(id)
    {
      id := channel[0];
      channel := channel[1..];
      queued := queued - {id};
    }

    /** start up to the point where it launches the scan or returns. */
    method Admit(sn: Subnet, manual: bool, ghost s: Sched) returns (launch: bool)
      requires Shows(s) && s.sending.None? && s.loop.Starting? && s.loop.sn == sn && s.loop.manual == manual
      modifies this
      ensures Shows(Next(s, Event.Admit)) && (launch <==> Next(s, Event.Admit).loop.Launching?)
    {
      if !ShouldRunScan(sn, manual) {
        return false;
      }
      if sn.id in running {
        return false;
      }
      running := running + {sn.id};
      return true;
    }

    /** Whether the subnet waits and whether it is being swept. */
    method Status(id: int, ghost s: Sched) returns (waits: bool, runs: bool)
      requires Shows(s) && s.sending.None? && Inv(s)
      ensures waits <==> id in s.channel || Holds(s, id)
      ensures runs <==> IsLaunching(s, id) || HasLive(s, id)
    {
      waits, runs := id in queued, id in running;
    }
  }
}
