/** The address grid of a subnet (internal/web/grid.go) and the dashboard's
    summary of it (internal/web/dashboard.go, freeSummary). */
module Grid {
  import opened Options
  import opened Bits
  import opened Addresses

  datatype State = Edge | Conflict | Reserved | Online | Offline | InPool | Free

  datatype Lease = Unheld | Static | Dhcp | OtherKind

  /** Who holds an address: how many interfaces claim it, and how the host was last seen. */
  datatype Occupant = Occupant(count: int, everSeen: bool, online: bool, kind: Lease)

  datatype Cell = Cell(ip: Addr, state: State, kind: Lease)

  datatype Stats = Stats(online: nat, offline: nat, unseen: nat, conflict: nat, free: nat, pool: nat, fixed: nat,
                         dhcp: nat)

  datatype FreeRange = FreeRange(start: Addr, end: Addr, n: nat)

  /** The state of an address that is not an edge. */
  function StateOf(a: Addr, occ: map<Addr, Occupant>, inPool: Addr -> bool): State {
    if a in occ then
      if occ[a].count > 1 then Conflict
      else if !occ[a].everSeen then Reserved
      else if occ[a].online then Online
      else Offline
    else if inPool(a) then InPool else Free
  }

  function CellAt(all: seq<Addr>, i: nat, edges: bool, occ: map<Addr, Occupant>, inPool: Addr -> bool): Cell
    requires i < |all|
  {
    if edges && (i == 0 || i == |all| - 1) then Cell(all[i], Edge, Unheld)
    else Cell(all[i], StateOf(all[i], occ, inPool), if all[i] in occ then occ[all[i]].kind else Unheld)
  }

  function Cells(p: Prefix, all: seq<Addr>, occ: map<Addr, Occupant>, inPool: Addr -> bool): (cells: seq<Cell>)
    ensures |cells| == |all| && forall i :: 0 <= i < |all| ==> cells[i] == CellAt(all, i, HasEdges(p), occ, inPool)
  {
    seq(|all|, i requires 0 <= i < |all| => CellAt(all, i, HasEdges(p), occ, inPool))
  }

  method GridCells(p: Prefix, all: seq<Addr>, occ: map<Addr, Occupant>, inPool: Addr -> bool) returns (cells: seq<Cell>)
    ensures cells == Cells(p, all, occ, inPool)
  {
    var prefix := Masked(p);
    var hasEdges := prefix.addr.is4 && prefix.bits < 31;
    ghost var wanted := Cells(p, all, occ, inPool);
    cells := [];
    for i := 0 to |all|
      invariant cells == wanted[..i]
    {
      var ip := all[i];
      assert wanted[..i + 1] == wanted[..i] + [wanted[i]];
      assert wanted[i] == CellAt(all, i, hasEdges, occ, inPool);
      if hasEdges && (i == 0 || i == |all| - 1) {
        cells := cells + [Cell(ip, Edge, Unheld)];
        continue;
      }
      var state, kind := Free, Unheld;
      if ip in occ {
        var o := occ[ip];
        kind := o.kind;
        state := if o.count > 1 then Conflict else if !o.everSeen then Reserved
                 else if o.online then Online else Offline;
      } else if inPool(ip) {
        state := InPool;
      }
      cells := cells + [Cell(ip, state, kind)];
    }
  }

  /** What a cell's state tells of its address. */
  lemma CellsTell(p: Prefix, all: seq<Addr>, occ: map<Addr, Occupant>, inPool: Addr -> bool, i: nat)
    requires i < |all|
    ensures var c, a := Cells(p, all, occ, inPool)[i], all[i];
            var edge := p.addr.is4 && p.bits < 31 && (i == 0 || i == |all| - 1);
            var held := !edge && a in occ;
            && c.ip == a
            && (c.state == Edge <==> edge)
            && (c.state == Conflict <==> held && occ[a].count > 1)
            && (c.state == Reserved <==> held && occ[a].count <= 1 && !occ[a].everSeen)
            && (c.state == Online <==> held && occ[a].count <= 1 && occ[a].everSeen && occ[a].online)
            && (c.state == Offline <==> held && occ[a].count <= 1 && occ[a].everSeen && !occ[a].online)
            && (c.state == InPool <==> !edge && a !in occ && inPool(a))
            && (c.state == Free <==> !edge && a !in occ && !inPool(a))
            && c.kind == (if held then occ[a].kind else Unheld)
  {
  }

  // ---- Counting

  function Count(cells: seq<Cell>, s: State): nat {
    if cells == [] then 0 else Count(cells[..|cells| - 1], s) + if cells[|cells| - 1].state == s then 1 else 0
  }

  function CountKind(cells: seq<Cell>, k: Lease): nat {
    if cells == [] then 0 else CountKind(cells[..|cells| - 1], k) + if cells[|cells| - 1].kind == k then 1 else 0
  }

  function Counts(cells: seq<Cell>): Stats {
    Stats(Count(cells, Online), Count(cells, Offline), Count(cells, Reserved), Count(cells, Conflict),
          Count(cells, Free), Count(cells, InPool), CountKind(cells, Static), CountKind(cells, Dhcp))
  }

  method GridStats(cells: seq<Cell>) returns (st: Stats)
    ensures st == Counts(cells)
  {
    st := Stats(0, 0, 0, 0, 0, 0, 0, 0);
    for n := 0 to |cells|
      invariant st == Counts(cells[..n])
    {
      assert cells[..n + 1][..n] == cells[..n];
      var c := cells[n];
      match c.state {
        case Online => st := st.(online := st.online + 1);
        case Offline => st := st.(offline := st.offline + 1);
        case Reserved => st := st.(unseen := st.unseen + 1);
        case Conflict => st := st.(conflict := st.conflict + 1);
        case Free => st := st.(free := st.free + 1);
        case InPool => st := st.(pool := st.pool + 1);
        case Edge =>
      }
      match c.kind {
        case Static => st := st.(fixed := st.fixed + 1);
        case Dhcp => st := st.(dhcp := st.dhcp + 1);
        case Unheld =>
        case OtherKind =>
      }
    }
    assert cells[..|cells|] == cells;
  }

  function InState(cells: seq<Cell>, s: State): set<int> {
    set i | 0 <= i < |cells| && cells[i].state == s
  }

  function OfKind(cells: seq<Cell>, k: Lease): set<int> {
    set i | 0 <= i < |cells| && cells[i].kind == k
  }

  lemma OneMoreCell(init: seq<Cell>, c: Cell, s: State, k: Lease)
    ensures InState(init + [c], s) == InState(init, s) + if c.state == s then {|init|} else {}
    ensures OfKind(init + [c], k) == OfKind(init, k) + if c.kind == k then {|init|} else {}
    ensures |init| !in InState(init, s) && |init| !in OfKind(init, k)
  {
    var all := init + [c];
    assert all[|init|] == c && forall i :: 0 <= i < |init| ==> all[i] == init[i];
  }

  lemma {:induction false} CountIs(cells: seq<Cell>, s: State, k: Lease)
    ensures Count(cells, s) == |InState(cells, s)| && CountKind(cells, k) == |OfKind(cells, k)|
  {
    if cells == [] {
      assert InState(cells, s) == {} && OfKind(cells, k) == {};
    } else {
      var init, c := cells[..|cells| - 1], cells[|cells| - 1];
      CountIs(init, s, k);
      CountsOneMore(cells, init, c, s, k);
    }
  }

  lemma CountsOneMore(cells: seq<Cell>, init: seq<Cell>, c: Cell, s: State, k: Lease)
    requires cells == init + [c]
    ensures |InState(cells, s)| == |InState(init, s)| + if c.state == s then 1 else 0
    ensures |OfKind(cells, k)| == |OfKind(init, k)| + if c.kind == k then 1 else 0
  {
    OneMoreCell(init, c, s, k);
  }

  /** Each counter is the number of cells of its state or kind. */
  lemma CountersTell(cells: seq<Cell>)
    ensures var st := Counts(cells);
            && st.online == |InState(cells, Online)| && st.offline == |InState(cells, Offline)|
            && st.unseen == |InState(cells, Reserved)| && st.conflict == |InState(cells, Conflict)|
            && st.free == |InState(cells, Free)| && st.pool == |InState(cells, InPool)|
            && st.fixed == |OfKind(cells, Static)| && st.dhcp == |OfKind(cells, Dhcp)|
  {
    CountIs(cells, Online, Static);
    CountIs(cells, Offline, Dhcp);
    CountIs(cells, Reserved, Static);
    CountIs(cells, Conflict, Static);
    CountIs(cells, Free, Static);
    CountIs(cells, InPool, Static);
  }

  /** Every cell is counted once: the counts and the edges add up to the grid. */
  lemma {:induction false} CountsAddUp(cells: seq<Cell>)
    ensures var st := Counts(cells);
            st.online + st.offline + st.unseen + st.conflict + st.free + st.pool + Count(cells, Edge) == |cells|
  {
    if cells != [] {
      CountsAddUp(cells[..|cells| - 1]);
    }
  }

  lemma {:induction false} CountSplits(a: seq<Cell>, b: seq<Cell>, s: State)
    ensures Count(a + b, s) == Count(a, s) + Count(b, s)
  {
    if b == [] {
      assert a + b == a;
    } else {
      assert (a + b)[..|a + b| - 1] == a + b[..|b| - 1];
      CountSplits(a, b[..|b| - 1], s);
    }
  }

  // ---- Free addresses

  predicate IsFree(cells: seq<Cell>, i: int) {
    0 <= i < |cells| && cells[i].state == Free
  }

  ghost predicate IsNextFree(cells: seq<Cell>, r: Option<Addr>) {
    if r.None? then forall i :: !IsFree(cells, i)
    else exists i :: IsFree(cells, i) && cells[i].ip == r.value && forall j :: j < i ==> !IsFree(cells, j)
  }

  method NextFree(cells: seq<Cell>) returns (r: Option<Addr>)
    ensures IsNextFree(cells, r)
  {
    for n := 0 to |cells|
      invariant forall j :: 0 <= j < n ==> !IsFree(cells, j)
    {
      if cells[n].state == Free {
        assert IsFree(cells, n);
        return Some(cells[n].ip);
      }
    }
    return None;
  }

  /** Cells i to j are free and their neighbours are not. */
  ghost predicate IsRun(cells: seq<Cell>, i: int, j: int) {
    0 <= i <= j < |cells| && (forall k :: i <= k <= j ==> IsFree(cells, k)) && !IsFree(cells, i - 1)
        && !IsFree(cells, j + 1)
  }

  function RangeOf(cells: seq<Cell>, run: (int, int)): FreeRange
    requires 0 <= run.0 <= run.1 < |cells|
  {
    FreeRange(cells[run.0].ip, cells[run.1].ip, run.1 - run.0 + 1)
  }

  /** The ranges are the maximal runs of free cells, all of them, in order. */
  ghost predicate AreRuns(cells: seq<Cell>, out: seq<FreeRange>, runs: seq<(int, int)>, upTo: int) {
    && |out| == |runs|
    && (forall k :: 0 <= k < |runs| ==> 
          IsRun(cells, runs[k].0, runs[k].1)
          && out[k].start == cells[runs[k].0].ip && out[k].end == cells[runs[k].1].ip
          && out[k].n == runs[k].1 - runs[k].0 + 1)
    && (forall k, l :: 0 <= k < l < |runs| ==> runs[k].1 < runs[l].0)
    && (forall i :: 0 <= i < upTo && IsFree(cells, i) ==> InRun(runs, i))
    && (forall k :: 0 <= k < |runs| ==> runs[k].1 < upTo)
  }

  ghost predicate InRun(runs: seq<(int, int)>, i: int) {
    exists k :: 0 <= k < |runs| && runs[k].0 <= i <= runs[k].1
  }

  function Total(out: seq<FreeRange>): nat {
    if out == [] then 0 else Total(out[..|out| - 1]) + out[|out| - 1].n
  }

  method EndOfRun(cells: seq<Cell>, i: nat) returns (j: nat)
    requires IsFree(cells, i)
    ensures i <= j < |cells| && (forall k :: i <= k <= j ==> IsFree(cells, k)) && !IsFree(cells, j + 1)
    ensures Count(cells[..j + 1], Free) == Count(cells[..i], Free) + j - i + 1
  {
    j := i;
    assert cells[..i + 1][..i] == cells[..i];
    while j + 1 < |cells| && cells[j + 1].state == Free
      invariant i <= j < |cells| && forall k :: i <= k <= j ==> IsFree(cells, k)
      invariant Count(cells[..j + 1], Free) == Count(cells[..i], Free) + j - i + 1
    {
      assert cells[..j + 2][..j + 1] == cells[..j + 1];
      j := j + 1;
    }
  }

  /** The loop is between runs, and has found those behind it. */
  ghost predicate FoundUpTo(cells: seq<Cell>, out: seq<FreeRange>, runs: seq<(int, int)>, i: int) {
    && 0 <= i <= |cells| && AreRuns(cells, out, runs, i) && !(IsFree(cells, i - 1) && IsFree(cells, i))
    && Total(out) == Count(cells[..i], Free)
  }

  method FreeRanges(cells: seq<Cell>) returns (out: seq<FreeRange>, ghost runs: seq<(int, int)>)
    ensures AreRuns(cells, out, runs, |cells|)
    ensures Total(out) == Count(cells, Free)
  {
    out, runs := [], [];
    var i := 0;
    while i < |cells|
      invariant FoundUpTo(cells, out, runs, i)
    {
      if cells[i].state != Free {
        SkipCell(cells, out, runs, i);
        i := i + 1;
        continue;
      }
      var j := EndOfRun(cells, i);
      FoundRun(cells, out, runs, i, j);
      out, runs := out + [RangeOf(cells, (i, j))], runs + [(i, j)];
      i := j + 1;
    }
    assert cells[..|cells|] == cells;
  }

  lemma SkipCell(cells: seq<Cell>, out: seq<FreeRange>, runs: seq<(int, int)>, i: int)
    requires FoundUpTo(cells, out, runs, i) && i < |cells| && !IsFree(cells, i)
    ensures FoundUpTo(cells, out, runs, i + 1)
  {
    assert cells[..i + 1][..i] == cells[..i];
  }

  /** The run from i to j is the next one. */
  lemma FoundRun(cells: seq<Cell>, out: seq<FreeRange>, runs: seq<(int, int)>, i: int, j: int)
    requires FoundUpTo(cells, out, runs, i) && i <= j < |cells|
    requires (forall k :: i <= k <= j ==> IsFree(cells, k)) && !IsFree(cells, j + 1)
    requires Count(cells[..j + 1], Free) == Count(cells[..i], Free) + j - i + 1
    ensures FoundUpTo(cells, out + [RangeOf(cells, (i, j))], runs + [(i, j)], j + 1)
  {
    assert IsFree(cells, i);
    AddRun(cells, out, runs, i, j);
  }

  lemma AddRun(cells: seq<Cell>, out: seq<FreeRange>, runs: seq<(int, int)>, i: int, j: int)
    requires AreRuns(cells, out, runs, i) && IsRun(cells, i, j)
    ensures AreRuns(cells, out + [RangeOf(cells, (i, j))], runs + [(i, j)], j + 1)
    ensures Total(out + [RangeOf(cells, (i, j))]) == Total(out) + j - i + 1
  {
    var all := runs + [(i, j)];
    var ranges := out + [RangeOf(cells, (i, j))];
    assert ranges[..|out|] == out && all[|runs|] == (i, j);
    forall n | 0 <= n < j + 1 && IsFree(cells, n)
      ensures InRun(all, n)
    {
      if n < i {
        var k :| 0 <= k < |runs| && runs[k].0 <= n <= runs[k].1;
        assert all[k] == runs[k];
      } else {
        assert all[|runs|].0 <= n <= all[|runs|].1;
      }
    }
  }

  lemma NothingBeforeFirst(cells: seq<Cell>, out: seq<FreeRange>, runs: seq<(int, int)>, j: int)
    requires AreRuns(cells, out, runs, |cells|) && runs != [] && j < runs[0].0
    ensures !IsFree(cells, j)
  {
    forall k | 0 <= k < |runs|
      ensures j < runs[k].0
    {
      assert IsRun(cells, runs[0].0, runs[0].1);
    }
    assert !InRun(runs, j);
  }

  /** The first range starts at the next free address, and there is none
      exactly when there is no free address. */
  lemma RangesStartAtNextFree(cells: seq<Cell>, out: seq<FreeRange>, runs: seq<(int, int)>, r: Option<Addr>)
    requires AreRuns(cells, out, runs, |cells|) && IsNextFree(cells, r)
    ensures out == [] <==> r == None
    ensures out != [] ==> r == Some(out[0].start)
  {
    if out != [] {
      var first := runs[0].0;
      assert IsRun(cells, runs[0].0, runs[0].1) && IsFree(cells, first);
      if r.Some? {
        var i :| IsFree(cells, i) && cells[i].ip == r.value && forall j :: j < i ==> !IsFree(cells, j);
        if i < first {
          NothingBeforeFirst(cells, out, runs, i);
        }
        assert i == first;
      }
    } else {
      assert forall i :: !InRun(runs, i);
    }
  }

  // ---- The dashboard's summary

  /** The cells the hosts would have. */
  function HostCells(hosts: seq<Addr>, occ: map<Addr, Occupant>, inPool: Addr -> bool): (cells: seq<Cell>)
    ensures |cells| == |hosts|
    ensures forall i :: 0 <= i < |hosts| ==>
      cells[i] == Cell(hosts[i], StateOf(hosts[i], occ, inPool), if hosts[i] in occ then occ[hosts[i]].kind else Unheld)
  {
    seq(|hosts|, i requires 0 <= i < |hosts| =>
      Cell(hosts[i], StateOf(hosts[i], occ, inPool), if hosts[i] in occ then occ[hosts[i]].kind else Unheld))
  }

  method FreeSummary(hosts: seq<Addr>, occ: map<Addr, Occupant>, inPool: Addr -> bool)
    returns (next: Option<Addr>, free: nat, pool: nat)
    ensures IsNextFree(HostCells(hosts, occ, inPool), next)
    ensures free == Count(HostCells(hosts, occ, inPool), Free) && pool == Count(HostCells(hosts, occ, inPool), InPool)
  {
    ghost var cells := HostCells(hosts, occ, inPool);
    next, free, pool := None, 0, 0;
    for n := 0 to |hosts|
      invariant free == Count(cells[..n], Free) && pool == Count(cells[..n], InPool)
      invariant IsNextFree(cells[..n], next)
    {
      assert cells[..n + 1][..n] == cells[..n];
      var ip := hosts[n];
      ghost var was := next;
      if ip in occ {
      } else if inPool(ip) {
        pool := pool + 1;
      } else {
        if next.None? {
          next := Some(ip);
        }
        free := free + 1;
      }
      NextFreeGrows(cells[..n], cells[n], was, next);
      assert cells[..n + 1] == cells[..n] + [cells[n]];
    }
    assert cells[..|hosts|] == cells;
  }

  lemma NextFreeGrows(cells: seq<Cell>, c: Cell, was: Option<Addr>, now: Option<Addr>)
    requires IsNextFree(cells, was)
    requires now == if was.None? && c.state == Free then Some(c.ip) else was
    ensures IsNextFree(cells + [c], now)
  {
    var all := cells + [c];
    assert forall i :: 0 <= i < |cells| ==> (IsFree(all, i) <==> IsFree(cells, i));
    if was.Some? {
      var i :| IsFree(cells, i) && cells[i].ip == was.value && forall j :: j < i ==> !IsFree(cells, j);
      assert IsFree(all, i) && forall j :: j < i ==> !IsFree(all, j);
    } else {
      assert c.state == Free ==> IsFree(all, |cells|);
      assert forall i :: !IsFree(cells, i);
    }
  }

  /** The grid is its hosts' cells, between the two edges if it has them. */
  lemma GridIsHosts(p: Prefix, all: seq<Addr>, occ: map<Addr, Occupant>, inPool: Addr -> bool)
    requires HasEdges(p) ==> |all| >= 2
    ensures var cells, hosts := Cells(p, all, occ, inPool), HostCells(Hosts(p, all), occ, inPool);
            if HasEdges(p) then cells == [Cell(all[0], Edge, Unheld)] + hosts + [Cell(all[|all| - 1], Edge, Unheld)]
            else cells == hosts
  {
  }

  lemma EdgesDoNotCount(a: Cell, cells: seq<Cell>, b: Cell, s: State, r: Option<Addr>)
    requires a.state == Edge && b.state == Edge
    ensures s != Edge ==> Count([a] + cells + [b], s) == Count(cells, s)
    ensures IsNextFree([a] + cells + [b], r) <==> IsNextFree(cells, r)
  {
    var all := [a] + cells + [b];
    CountSplits([a] + cells, [b], s);
    CountSplits([a], cells, s);
    assert [a][..0] == [] && [b][..0] == [];
    assert forall i :: 0 <= i < |cells| ==> all[i + 1] == cells[i];
    ShiftedNextFree(all, cells, r);
  }

  lemma ShiftedNextFree(all: seq<Cell>, cells: seq<Cell>, r: Option<Addr>)
    requires |all| == |cells| + 2 && all[0].state == Edge && all[|all| - 1].state == Edge
    requires forall i :: 0 <= i < |cells| ==> all[i + 1] == cells[i]
    ensures IsNextFree(all, r) <==> IsNextFree(cells, r)
  {
    assert forall i :: IsFree(all, i) ==> IsFree(cells, i - 1);
    forall i | IsFree(cells, i)
      ensures IsFree(all, i + 1)
    {
      assert all[i + 1] == cells[i];
    }
    if r.Some? && IsNextFree(all, r) {
      var i :| IsFree(all, i) && all[i].ip == r.value && forall j :: j < i ==> !IsFree(all, j);
      assert IsFree(cells, i - 1) && cells[i - 1].ip == r.value;
    }
    if r.Some? && IsNextFree(cells, r) {
      var i :| IsFree(cells, i) && cells[i].ip == r.value && forall j :: j < i ==> !IsFree(cells, j);
      assert IsFree(all, i + 1) && all[i + 1].ip == r.value;
    }
  }

  /** For every subnet, pool and occupancy, the summary over the hosts agrees
      with the grid: the same next address, and as many free and pooled ones. */
  lemma SummaryAgreesWithGrid(p: Prefix, occ: map<Addr, Occupant>, inPool: Addr -> bool, r: Option<Addr>)
    ensures var all := Range(p, Pow2(HostBits(p)));
            var cells, hosts := Cells(p, all, occ, inPool), HostCells(Hosts(p, all), occ, inPool);
            && (IsNextFree(cells, r) <==> IsNextFree(hosts, r))
            && Counts(cells).free == Count(hosts, Free)
            && Counts(cells).pool == Count(hosts, InPool)
  {
    var all := Range(p, Pow2(HostBits(p)));
    if HasEdges(p) {
      Pow2Grows(1, HostBits(p));
      var hosts := HostCells(Hosts(p, all), occ, inPool);
      GridIsHosts(p, all, occ, inPool);
      EdgesDoNotCount(Cell(all[0], Edge, Unheld), hosts, Cell(all[|all| - 1], Edge, Unheld), Free, r);
      EdgesDoNotCount(Cell(all[0], Edge, Unheld), hosts, Cell(all[|all| - 1], Edge, Unheld), InPool, r);
    } else {
      GridIsHosts(p, all, occ, inPool);
    }
  }
}
