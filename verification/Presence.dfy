/** Whether an interface is online, kept by calls that several sweeps may make
    at once. Each call is a sequence of single conditional statements, and a
    call learns from the number of rows it changed whether the change was its
    own (internal/store/status.go). */
module Presence {
  import opened Options

  /** A row of iface_status. */
  datatype Row = Row(online: bool, firstSeen: Option<string>, lastSeen: string, rtt: real, missed: int)

  // ---- The statements, on one interface's row: the new row and the rows affected

  /** INSERT ... ON CONFLICT DO NOTHING. */
  function InsertSeen(row: Option<Row>, ts: string, rtt: real): (Option<Row>, nat) {
    if row.None? then (Some(Row(true, Some(ts), ts, rtt, 0)), 1) else (row, 0)
  }

  /** UPDATE ... SET online=TRUE ... WHERE online=FALSE. */
  function FlipOnline(row: Option<Row>, ts: string, rtt: real): (Option<Row>, nat) {
    if row.Some? && !row.value.online then
      var r := row.value;
      (Some(Row(true, if r.firstSeen.Some? then r.firstSeen else Some(ts), ts, rtt, 0)), 1)
    else (row, 0)
  }

  /** The third statement: it does not set online. */
  function RefreshSeen(row: Option<Row>, ts: string, rtt: real): Option<Row> {
    if row.Some? then Some(row.value.(lastSeen := ts, rtt := rtt, missed := 0)) else row
  }

  function CountMiss(row: Option<Row>): (Option<Row>, nat) {
    if row.Some? then (Some(row.value.(missed := row.value.missed + 1)), 1) else (row, 0)
  }

  function FlipOffline(row: Option<Row>, offlineAfter: int): (Option<Row>, nat) {
    if row.Some? && row.value.online && row.value.missed >= offlineAfter
    then (Some(row.value.(online := false)), 1) else (row, 0)
  }

  /** The table, and the two calls with nobody in between. */
  class StatusTable {
    var rows: map<int, Row>

    constructor ()
      ensures rows == map[]
    {
      rows := map[];
    }

    function RowOf(iface: int): Option<Row>
      reads this
    {
      if iface in rows then Some(rows[iface]) else None
    }

    method Put(iface: int, row: Option<Row>)
      requires row.None? ==> iface !in rows
      modifies this
      ensures RowOf(iface) == row
      ensures rows - {iface} == old(rows) - {iface}
    {
      if row.Some? {
        rows := rows[iface := row.value];
      }
    }

    /** Records a successful ping; reports whether this took it online. */
    method MarkSeen(iface: int, rtt: real, ts: string) returns (cameOnline: bool)
      modifies this
      ensures rows - {iface} == old(rows) - {iface}
      ensures cameOnline <==> !(old(RowOf(iface)).Some? && old(RowOf(iface)).value.online)
      ensures var before := old(RowOf(iface));
              var unseen := before.None? || (!before.value.online && before.value.firstSeen.None?);
              RowOf(iface) == Some(Row(true, if unseen then Some(ts) else before.value.firstSeen, ts, rtt, 0))
    {
      var (row, n) := InsertSeen(RowOf(iface), ts, rtt);
      Put(iface, row);
      if n == 1 {
        return true;
      }
      var (flipped, m) := FlipOnline(RowOf(iface), ts, rtt);
      Put(iface, flipped);
      if m == 1 {
        return true;
      }
      Put(iface, RefreshSeen(RowOf(iface), ts, rtt));
      return false;
    }

    /** Counts a sweep that missed it; reports whether this took it offline. */
    method MarkMissed(iface: int, offlineAfter: int) returns (wentOffline: bool)
      modifies this
      ensures rows - {iface} == old(rows) - {iface}
      ensures old(RowOf(iface)).None? ==> !wentOffline && RowOf(iface).None?
      ensures old(RowOf(iface)).Some? ==>
                var before := old(RowOf(iface)).value;
                && (wentOffline <==> before.online && before.missed + 1 >= offlineAfter)
                && RowOf(iface) == Some(before.(missed := before.missed + 1, online := before.online && !wentOffline))
    {
      var (row, n) := CountMiss(RowOf(iface));
      Put(iface, row);
      if n == 0 {
        return false;
      }
      var (flipped, m) := FlipOffline(RowOf(iface), offlineAfter);
      Put(iface, flipped);
      return m == 1;
    }
  }

  // ---- Any number of calls on one interface, statement by statement

  /** The statement a call runs next. */
  datatype Call =
    | SeenInsert(ts: string, rtt: real)
    | SeenFlip(ts: string, rtt: real)
    | SeenRefresh(ts: string, rtt: real)
    | MissCount(offlineAfter: int)
    | MissFlip(offlineAfter: int)

  /** What a statement did to the row. */
  datatype Event = Saw(reported: bool) | Missed | WentOffline(offlineAfter: int)

  datatype State = State(row: Option<Row>, calls: map<int, Call>, log: seq<Event>)

  datatype Step = Begin(id: int, call: Call) | Run(id: int)

  /** Runs one statement of a call: the row, what it goes on to, what happened. */
  function Execute(row: Option<Row>, call: Call): (Option<Row>, Option<Call>, seq<Event>) {
    match call
    case SeenInsert(ts, rtt) =>
      var (r, n) := InsertSeen(row, ts, rtt);
      if n == 1 then (r, None, [Saw(true)]) else (r, Some(SeenFlip(ts, rtt)), [])
    case SeenFlip(ts, rtt) =>
      var (r, n) := FlipOnline(row, ts, rtt);
      if n == 1 then (r, None, [Saw(true)]) else (r, Some(SeenRefresh(ts, rtt)), [])
    case SeenRefresh(ts, rtt) =>
      (RefreshSeen(row, ts, rtt), None, if row.Some? then [Saw(false)] else [])
    case MissCount(offlineAfter) =>
      var (r, n) := CountMiss(row);
      if n == 0 then (r, None, []) else (r, Some(MissFlip(offlineAfter)), [Missed])
    case MissFlip(offlineAfter) =>
      var (r, n) := FlipOffline(row, offlineAfter);
      (r, None, if n == 1 then [WentOffline(offlineAfter)] else [])
  }

  ghost predicate Next(s: State, step: Step, t: State) {
    match step
    case Begin(id, call) =>
      id !in s.calls && (call.SeenInsert? || call.MissCount?) && t == s.(calls := s.calls[id := call])
    case Run(id) =>
      && id in s.calls
      && var (row, next, events) := Execute(s.row, s.calls[id]);
         t == State(row, if next.Some? then s.calls[id := next.value] else s.calls - {id}, s.log + events)
  }

  ghost predicate Trace(ss: seq<State>, steps: seq<Step>) {
    && |ss| == |steps| + 1 && ss[0] == State(None, map[], [])
    && forall i :: 0 <= i < |steps| ==> Next(ss[i], steps[i], ss[i + 1])
  }

  // ---- Reports

  predicate IsReport(e: Event) {
    e == Saw(true) || e.WentOffline?
  }

  /** The events callers report, in order. */
  function Reports(log: seq<Event>): seq<Event> {
    if log == [] then []
    else
      var rest, e := Reports(log[..|log| - 1]), log[|log| - 1];
      if IsReport(e) then rest + [e] else rest
  }

  predicate Alternates(reports: seq<Event>) {
    forall i :: 0 <= i < |reports| ==> (reports[i] == Saw(true) <==> i % 2 == 0) && IsReport(reports[i])
  }

  /** How many misses were counted since the interface was last seen. */
  function MissesSinceSeen(log: seq<Event>): nat {
    if log == [] then 0
    else
      var e := log[|log| - 1];
      if e.Saw? then 0
      else MissesSinceSeen(log[..|log| - 1]) + if e.Missed? then 1 else 0
  }

  predicate Online(row: Option<Row>) {
    row.Some? && row.value.online
  }

  /** Every offline report follows that many misses in a row. */
  ghost predicate OfflineEarned(log: seq<Event>) {
    forall i :: 0 <= i < |log| && log[i].WentOffline? ==> MissesSinceSeen(log[..i]) >= log[i].offlineAfter
  }

  /** What the row says about the log of everything that happened to it. */
  ghost predicate Tells(row: Option<Row>, log: seq<Event>) {
    && Alternates(Reports(log))
    && (|Reports(log)| % 2 == 1 <==> Online(row))
    && (row.Some? ==> row.value.missed == MissesSinceSeen(log))
    && (row.None? ==> log == [])
    && OfflineEarned(log)
  }

  lemma OneMoreEvent(log: seq<Event>, e: Event)
    ensures Reports(log + [e]) == if IsReport(e) then Reports(log) + [e] else Reports(log)
    ensures MissesSinceSeen(log + [e]) == if e.Saw? then 0 else MissesSinceSeen(log) + if e.Missed? then 1 else 0
    ensures OfflineEarned(log) && (e.WentOffline? ==> MissesSinceSeen(log) >= e.offlineAfter) ==>
        OfflineEarned(log + [e])
  {
    var l := log + [e];
    assert l[..|log|] == log;
    if OfflineEarned(log) && (e.WentOffline? ==> MissesSinceSeen(log) >= e.offlineAfter) {
      forall i | 0 <= i < |l| && l[i].WentOffline? ensures MissesSinceSeen(l[..i]) >= l[i].offlineAfter {
        if i < |log| {
          assert l[..i] == log[..i];
        }
      }
    }
  }

  lemma AlternatesOn(reports: seq<Event>, e: Event)
    requires Alternates(reports) && IsReport(e) && (e == Saw(true) <==> |reports| % 2 == 0)
    ensures Alternates(reports + [e])
  {
  }

  /** How an event moves the row. */
  ghost predicate Moves(row: Option<Row>, e: Event, after: Option<Row>) {
    && after.Some?
    && match e
       case Saw(reported) =>
         && after.value.missed == 0
         && (if reported then !Online(row) && Online(after) else row.Some? && Online(after) == Online(row))
       case Missed => row.Some? && Online(after) == Online(row) && after.value.missed == row.value.missed + 1
       case WentOffline(n) =>
         Online(row) && !Online(after) && after.value.missed == row.value.missed && row.value.missed >= n
  }

  lemma EventKeeps(row: Option<Row>, log: seq<Event>, e: Event, after: Option<Row>)
    requires Tells(row, log) && Moves(row, e, after)
    ensures Tells(after, log + [e])
  {
    OneMoreEvent(log, e);
    if IsReport(e) {
      AlternatesOn(Reports(log), e);
    }
  }

  lemma ExecuteMoves(row: Option<Row>, call: Call)
    ensures var (after, next, events) := Execute(row, call);
            if events == [] then after == row else |events| == 1 && Moves(row, events[0], after)
  {
  }

  lemma NextKeepsTelling(s: State, step: Step, t: State)
    requires Tells(s.row, s.log) && Next(s, step, t)
    ensures Tells(t.row, t.log)
  {
    if step.Run? {
      var (after, next, events) := Execute(s.row, s.calls[step.id]);
      ExecuteMoves(s.row, s.calls[step.id]);
      if events == [] {
        assert t.log == s.log;
      } else {
        assert events == [events[0]];
        EventKeeps(s.row, s.log, events[0], after);
      }
    }
  }

  lemma {:induction false} TraceTells(ss: seq<State>, steps: seq<Step>, i: nat)
    requires Trace(ss, steps) && i < |ss|
    ensures Tells(ss[i].row, ss[i].log)
  {
    if i > 0 {
      TraceTells(ss, steps, i - 1);
      assert Next(ss[i - 1], steps[i - 1], ss[i - 1 + 1]);
      NextKeepsTelling(ss[i - 1], steps[i - 1], ss[i]);
    }
  }

  /** Over every interleaving the reports strictly alternate, starting with
      online, and the last of them says what the row says. */
  lemma ReportsAlternate(ss: seq<State>, steps: seq<Step>, i: nat)
    requires Trace(ss, steps) && i < |ss|
    ensures Alternates(Reports(ss[i].log))
    ensures |Reports(ss[i].log)| % 2 == (if Online(ss[i].row) then 1 else 0)
  {
    TraceTells(ss, steps, i);
  }

  /** No interleaving loses a miss or reports an interface offline early: an
      offline report has its threshold of misses since the last sighting. */
  lemma OfflineIsEarned(ss: seq<State>, steps: seq<Step>, i: nat)
    requires Trace(ss, steps) && i < |ss|
    ensures OfflineEarned(ss[i].log)
    ensures ss[i].row.Some? ==> ss[i].row.value.missed == MissesSinceSeen(ss[i].log)
  {
    TraceTells(ss, steps, i);
  }

  // ---- When a call that saw the interface leaves it offline

  lemma {:induction false} ReportsJoin(a: seq<Event>, b: seq<Event>)
    ensures Reports(a + b) == Reports(a) + Reports(b)
  {
    if b == [] {
      assert a + b == a;
    } else {
      var init := b[..|b| - 1];
      assert (a + b)[..|a + b| - 1] == a + init;
      ReportsJoin(a, init);
    }
  }

  lemma {:induction false} LogGrows(ss: seq<State>, steps: seq<Step>, i: nat, j: nat)
    requires Trace(ss, steps) && i <= j < |ss|
    ensures ss[i].log <= ss[j].log
    decreases j
  {
    if i < j {
      LogGrows(ss, steps, i, j - 1);
      assert Next(ss[j - 1], steps[j - 1], ss[j - 1 + 1]);
    }
  }

  /** What callers reported between two states. */
  ghost function ReportsSince(s: State, t: State): seq<Event>
    requires s.log <= t.log
  {
    Reports(t.log[|s.log|..])
  }

  lemma LastParity(before: seq<Event>, since: seq<Event>)
    requires Alternates(before + since) && |before| % 2 == 1
    ensures |before + since| % 2 == 1 <==> since == [] || since[|since| - 1] == Saw(true)
  {
    var all := before + since;
    if since != [] {
      assert all[|all| - 1] == since[|since| - 1];
    }
  }

  /** An interface that was online still is if and only if nothing was reported
      since, or the last report since was that it came online. */
  lemma LastReportTells(ss: seq<State>, steps: seq<Step>, i: nat, j: nat)
    requires Trace(ss, steps) && i <= j < |ss| && Online(ss[i].row)
    ensures ss[i].log <= ss[j].log
    ensures var since := ReportsSince(ss[i], ss[j]);
            Online(ss[j].row) <==> since == [] || since[|since| - 1] == Saw(true)
  {
    LogGrows(ss, steps, i, j);
    ReportsAlternate(ss, steps, i);
    ReportsAlternate(ss, steps, j);
    var since := ReportsSince(ss[i], ss[j]);
    ReportsJoin(ss[i].log, ss[j].log[|ss[i].log|..]);
    assert ss[j].log == ss[i].log + ss[j].log[|ss[i].log|..];
    LastParity(Reports(ss[i].log), since);
  }

  /** Call id found the row online at step k, and refreshes it at step l. */
  ghost predicate Refreshes(ss: seq<State>, steps: seq<Step>, id: int, k: nat, l: nat) {
    && Trace(ss, steps) && k < l < |steps| && steps[k] == Run(id) && steps[l] == Run(id)
    && id in ss[k].calls && ss[k].calls[id].SeenFlip? && Online(ss[k].row)
    && id in ss[l].calls && ss[l].calls[id].SeenRefresh?
  }

  lemma RefreshKeepsOnline(ss: seq<State>, steps: seq<Step>, id: int, k: nat, l: nat)
    requires Refreshes(ss, steps, id, k, l)
    ensures Online(ss[k + 1].row) && (Online(ss[l + 1].row) <==> Online(ss[l].row))
  {
    assert Next(ss[k], steps[k], ss[k + 1]) && Next(ss[l], steps[l], ss[l + 1]);
  }

  /** A MarkSeen that ends with its third statement leaves the interface online
      exactly when no report came between its last two statements, or the last
      of them was that it came online. */
  lemma SeenEndsOnline(ss: seq<State>, steps: seq<Step>, id: int, k: nat, l: nat)
    requires Refreshes(ss, steps, id, k, l)
    ensures ss[k + 1].log <= ss[l].log
    ensures var since := ReportsSince(ss[k + 1], ss[l]);
            Online(ss[l + 1].row) <==> since == [] || since[|since| - 1] == Saw(true)
  {
    RefreshKeepsOnline(ss, steps, id, k, l);
    LastReportTells(ss, steps, k + 1, l);
  }

  /** A MarkSeen that ends with one of its first two leaves it online. */
  lemma ReportedSeenEndsOnline(s: State, id: int, t: State)
    requires Next(s, Run(id), t) && (s.calls[id].SeenInsert? || s.calls[id].SeenFlip?) && id !in t.calls
    ensures Online(t.row)
  {
  }

  ghost predicate NoMissInFlight(s: State) {
    forall id :: id in s.calls ==> !s.calls[id].MissCount? && !s.calls[id].MissFlip?
  }

  /** So it is enough that no MarkMissed of the interface is in flight meanwhile. */
  lemma SeenUndisturbedEndsOnline(ss: seq<State>, steps: seq<Step>, id: int, k: nat, l: nat)
    requires Refreshes(ss, steps, id, k, l) && forall j :: k < j < l ==> NoMissInFlight(ss[j])
    ensures Online(ss[l + 1].row)
  {
    RefreshKeepsOnline(ss, steps, id, k, l);
    StaysOnline(ss, steps, k + 1, l);
  }

  lemma {:induction false} StaysOnline(ss: seq<State>, steps: seq<Step>, i: nat, j: nat)
    requires Trace(ss, steps) && i <= j < |ss| && Online(ss[i].row) && forall n :: i <= n < j ==> NoMissInFlight(ss[n])
    ensures Online(ss[j].row)
    decreases j
  {
    if i < j {
      StaysOnline(ss, steps, i, j - 1);
      assert NoMissInFlight(ss[j - 1]) && Next(ss[j - 1], steps[j - 1], ss[j - 1 + 1]);
    }
  }

  lemma Goes(ss: seq<State>, steps: seq<Step>, step: Step, t: State) returns (more: seq<State>, longer: seq<Step>)
    requires Trace(ss, steps) && Next(ss[|steps|], step, t)
    ensures Trace(more, longer) && more == ss + [t] && longer == steps + [step]
  {
    more, longer := ss + [t], steps + [step];
  }

  /** A trace in which a MarkSeen ends with the interface offline and no misses:
      call 2 takes it offline between the last two statements of call 1. */
  lemma SeenYetOffline(ts: string, rtt: real) returns (ss: seq<State>, steps: seq<Step>)
    ensures |steps| == 9 && Refreshes(ss, steps, 1, 4, 8)
    ensures !Online(ss[9].row) && ss[9].row.Some? && ss[9].row.value.missed == 0
  {
    ss, steps := FirstSighting(ts, rtt);
    var on, seen, flip, refresh := ss[2].row, SeenInsert(ts, rtt), SeenFlip(ts, rtt), SeenRefresh(ts, rtt);
    var log := ss[2].log;
    ss, steps := Goes(ss, steps, Begin(1, seen), State(on, map[1 := seen], log));
    ss, steps := Goes(ss, steps, Run(1), State(on, map[1 := flip], log));
    ss, steps := Goes(ss, steps, Run(1), State(on, map[1 := refresh], log));
    ss, steps := MissBetween(ss, steps, ts, rtt, on.value, log);
    var off := ss[8].row;
    ss, steps := Goes(ss, steps, Run(1), State(RefreshSeen(off, ts, rtt), map[], ss[8].log + [Saw(false)]));
  }

  lemma FirstSighting(ts: string, rtt: real) returns (ss: seq<State>, steps: seq<Step>)
    ensures Trace(ss, steps) && |steps| == 2
        && ss[2] == State(Some(Row(true, Some(ts), ts, rtt, 0)), map[], [Saw(true)])
  {
    var seen := SeenInsert(ts, rtt);
    ss, steps := Goes([State(None, map[], [])], [], Begin(0, seen), State(None, map[0 := seen], []));
    ss, steps := Goes(ss, steps, Run(0), State(Some(Row(true, Some(ts), ts, rtt, 0)), map[], [Saw(true)]));
  }

  lemma MissBetween(ss: seq<State>, steps: seq<Step>, ts: string, rtt: real, r: Row, log: seq<Event>)
    returns (more: seq<State>, longer: seq<Step>)
    requires Trace(ss, steps) && |steps| == 5 && r.online && r.missed == 0
    requires ss[5] == State(Some(r), map[1 := SeenRefresh(ts, rtt)], log)
    ensures Trace(more, longer) && |longer| == 8 && more[..6] == ss && longer[..5] == steps
    ensures more[8] == State(Some(r.(missed := 1, online := false)), map[1 := SeenRefresh(ts, rtt)],
                             log + [Missed] + [WentOffline(1)])
  {
    var call, miss := SeenRefresh(ts, rtt), r.(missed := 1);
    more, longer := Goes(ss, steps, Begin(2, MissCount(1)), State(Some(r), map[1 := call, 2 := MissCount(1)], log));
    more, longer := Goes(more, longer, Run(2), State(Some(miss), map[1 := call, 2 := MissFlip(1)], log + [Missed]));
    more, longer := Goes(more, longer, Run(2),
                         State(Some(miss.(online := false)), map[1 := call], log + [Missed] + [WentOffline(1)]));
  }
}
