/** How often a sweep counts a miss for an interface. The closing loop goes over
    the rows the sweep first read, not over interfaces (internal/scan/engine.go:160-169). */
module SweepMisses {
  import opened Options
  import opened TextOrder
  import opened Inventory
  import opened Sweep

  ghost predicate HasFailed(results: seq<Result>, ip: string) {
    exists r :: r in results && r.failed && r.ip == ip
  }

  /** Some answer carries the interface's MAC. */
  ghost predicate Answered(t: Tables, arp: map<string, string>, results: seq<Result>, i: int)
    requires i in t.ifaces
  {
    exists r :: r in results && Answers(r) && t.ifaces[i].mac == Some(MacAt(arp, r.ip))
  }

  /** The interface's rows in the subnet. */
  function RowsOf(t: Tables, i: int, subnet: int): set<Assignment> {
    set r | r in t.rows && r.iface == i && r.subnet == subnet
  }

  /** Those whose address was probed without an error, or not at all. */
  ghost function RowsToMiss(t: Tables, i: int, subnet: int, results: seq<Result>): set<Assignment> {
    set r | r in RowsOf(t, i, subnet) && !HasFailed(results, r.ip)
  }

  // ---- Who is seen

  lemma {:induction false} AddressesSorted(a0: Acc, f: Frame, results: seq<Result>, ip: string)
    requires a0.alive == {} && a0.unknown == {}
    ensures ip in SweepAll(a0, f, results).unknown <==> HasFailed(results, ip)
    ensures ip in SweepAll(a0, f, results).alive <==> exists r :: r in results && Answers(r) && r.ip == ip
  {
    if results != [] {
      var done, last := results[..|results| - 1], results[|results| - 1];
      assert results == done + [last];
      assert forall q :: q in results <==> q in done || q == last;
      AddressesSorted(a0, f, done, ip);
    }
  }

  /** After any part of the answers: of the interfaces there were, those seen are
      exactly those whose MAC has answered, and the others' rows are as they were. */
  ghost predicate SeenInv(t0: Tables, a: Acc, f: Frame, done: seq<Result>) {
    && WellFormed(a.t) && t0.nextId <= a.t.nextId
    && (forall j :: j in t0.ifaces ==> j in a.t.ifaces && a.t.ifaces[j].mac == t0.ifaces[j].mac)
    && (forall j :: j in t0.ifaces ==> (j in a.seen <==> Answered(t0, f.arp, done, j)))
    && (forall q: Assignment :: q.iface in t0.ifaces && q.iface !in a.seen ==> (q in t0.rows <==> q in a.t.rows))
  }

  /** From t to u interfaces keep their MACs and only i's rows may change. */
  ghost predicate OnlyRowsOf(t: Tables, u: Tables, i: int) {
    && t.nextId <= u.nextId
    && (forall j :: j in t.ifaces ==> j in u.ifaces && u.ifaces[j].mac == t.ifaces[j].mac)
    && (forall q: Assignment :: q.iface != i ==> (q in t.rows <==> q in u.rows))
  }

  lemma MovedChanges(t: Tables, i: int, subnet: int, ip: string, name: string)
    ensures OnlyRowsOf(t, Filled(t, i, name), i)
    ensures OnlyRowsOf(t, Filled(Moved(t, i, subnet, ip), i, name), i)
  {
  }

  lemma CreatedChanges(t: Tables, f: Frame, mac: string, ip: string)
    requires WellFormed(t)
    ensures OnlyRowsOf(t, Created(t, f, mac, ip), t.nextId + 1)
  {
  }

  /** Of the starting table's interfaces, i is the one with the MAC, or there is none with it. */
  ghost predicate IsTheOne(t0: Tables, i: int, mac: string) {
    forall j :: j in t0.ifaces ==> (j == i <==> t0.ifaces[j].mac == Some(mac))
  }

  lemma KnownIsTheOne(t0: Tables, f: Frame, ip: string, mac: string)
    requires WellFormed(t0) && Named(t0, f.subnet) && Indexes(f, t0) && IsCanonical(Some(mac))
    requires ip in f.byIp && !MacConflict(f.byIp[ip].mac, mac)
    ensures IsTheOne(t0, f.byIp[ip].iface, mac)
  {
    var i := f.byIp[ip].iface;
    assert IsAssigned(t0, i, f.subnet, ip);
    assert t0.ifaces[i].mac == Some(mac);
  }

  lemma OwnerIsTheOne(t0: Tables, t: Tables, mac: string)
    requires WellFormed(t0) && WellFormed(t) && t0.nextId <= t.nextId
    requires forall j :: j in t0.ifaces ==> j in t.ifaces && t.ifaces[j].mac == t0.ifaces[j].mac
    ensures IsTheOne(t0, if OwnerOf(t, mac).Some? then OwnerOf(t, mac).value else t.nextId + 1, mac)
  {
    forall j | j in t0.ifaces
      ensures t0.ifaces[j].mac == Some(mac) <==> OwnerOf(t, mac) == Some(j)
    {
      assert t0.ifaces[j].mac == Some(mac) <==> Owns(t, j, mac);
      if Owns(t, j, mac) {
        OwnerIs(t, j, mac);
      }
    }
  }

  /** Whichever branch an answer takes, the one interface of the starting table
      it can credit is the one with its MAC, and it credits that one if there is one. */
  lemma AnswerCredits(t0: Tables, a: Acc, f: Frame, done: seq<Result>, r: Result) returns (i: int)
    requires WellFormed(t0) && Named(t0, f.subnet) && Indexes(f, t0) && SeenInv(t0, a, f, done)
    requires Answers(r) && IsCanonical(Some(MacAt(f.arp, r.ip)))
    ensures IsTheOne(t0, i, MacAt(f.arp, r.ip))
    ensures SweepOne(a, f, r).seen == a.seen + {i} && OnlyRowsOf(a.t, SweepOne(a, f, r).t, i)
  {
    var mac, name := MacAt(f.arp, r.ip), NameAt(f.names, r.ip);
    if r.ip in f.byIp && !MacConflict(f.byIp[r.ip].mac, mac) {
      i := f.byIp[r.ip].iface;
      KnownIsTheOne(t0, f, r.ip, mac);
      MovedChanges(a.t, i, f.subnet, r.ip, name);
    } else {
      i := if OwnerOf(a.t, mac).Some? then OwnerOf(a.t, mac).value else a.t.nextId + 1;
      OwnerIsTheOne(t0, a.t, mac);
      MovedChanges(a.t, i, f.subnet, r.ip, name);
      CreatedChanges(a.t, f, mac, r.ip);
    }
  }

  lemma AnsweredMore(t0: Tables, arp: map<string, string>, done: seq<Result>, r: Result, j: int)
    requires j in t0.ifaces
    ensures Answered(t0, arp, done + [r], j) <==>
              Answered(t0, arp, done, j) || (Answers(r) && t0.ifaces[j].mac == Some(MacAt(arp, r.ip)))
  {
    assert forall q :: q in done + [r] <==> q in done || q == r;
  }

  lemma SeenStep(t0: Tables, a: Acc, f: Frame, done: seq<Result>, r: Result)
    requires WellFormed(t0) && Named(t0, f.subnet) && Indexes(f, t0) && SeenInv(t0, a, f, done)
    requires Resolved(f.arp, done + [r])
    ensures SeenInv(t0, SweepOne(a, f, r), f, done + [r])
  {
    forall j | j in t0.ifaces {
      AnsweredMore(t0, f.arp, done, r, j);
    }
    StepKeepsWellFormed(a, f, r);
    if Answers(r) {
      assert r in done + [r];
      var i := AnswerCredits(t0, a, f, done, r);
    }
  }

  lemma {:induction false} SweepSees(t0: Tables, f: Frame, results: seq<Result>)
    requires WellFormed(t0) && Named(t0, f.subnet) && Indexes(f, t0) && Resolved(f.arp, results)
    ensures SeenInv(t0, SweepAll(Acc(t0, {}, {}, {}), f, results), f, results)
  {
    if results != [] {
      var done, last := results[..|results| - 1], results[|results| - 1];
      assert results == done + [last];
      SweepSees(t0, f, done);
      SeenStep(t0, SweepAll(Acc(t0, {}, {}, {}), f, done), f, done, last);
    }
  }

  // ---- Who is missed, and how often

  function KnownOf(t: Tables, r: Assignment): Known
    requires r.iface in t.ifaces
  {
    Known(r.iface, r.ip, t.ifaces[r.iface].mac)
  }

  /** A row counts exactly when its interface's MAC is silent and its probe could be run. */
  lemma RowIsMissed(t: Tables, f: Frame, a: Acc, results: seq<Result>, row: Assignment)
    requires WellFormed(t) && Named(t, f.subnet) && Resolved(f.arp, results) && SeenInv(t, a, f, results)
    requires row in t.rows && row.subnet == f.subnet
    requires row.ip in a.unknown <==> HasFailed(results, row.ip)
    requires row.ip in a.alive <==> exists r :: r in results && Answers(r) && r.ip == row.ip
    ensures IsMissed(a, f, KnownOf(t, row)) <==> !HasFailed(results, row.ip) && !Answered(t, f.arp, results, row.iface)
  {
    if row.ip in a.alive {
      var r :| r in results && Answers(r) && r.ip == row.ip;
      assert IsCanonical(Some(MacAt(f.arp, row.ip)));
    }
  }

  ghost predicate IsListing(t: Tables, listing: seq<Assignment>) {
    && (forall r :: r in listing ==> r.iface in t.ifaces)
    && (forall m, n :: 0 <= m < n < |listing| ==> listing[m] != listing[n])
  }

  /** The interface's rows of a listing that the closing loop counts. */
  function CountedRows(t: Tables, listing: seq<Assignment>, a: Acc, f: Frame, i: int): set<Assignment>
    requires forall r :: r in listing ==> r.iface in t.ifaces
  {
    set r | r in listing && r.iface == i && IsMissed(a, f, KnownOf(t, r))
  }

  lemma OneMoreRow(t: Tables, init: seq<Assignment>, last: Assignment, a: Acc, f: Frame, i: int)
    requires IsListing(t, init + [last])
    ensures IsListing(t, init)
    ensures |CountedRows(t, init + [last], a, f, i)|
            == |CountedRows(t, init, a, f, i)| + if last.iface == i && IsMissed(a, f, KnownOf(t, last)) then 1 else 0
  {
    var listing := init + [last];
    assert listing[|init|] == last && forall n :: 0 <= n < |init| ==> listing[n] == init[n];
    var now := if last.iface == i && IsMissed(a, f, KnownOf(t, last)) then {last} else {};
    assert CountedRows(t, listing, a, f, i) == CountedRows(t, init, a, f, i) + now;
    assert last !in CountedRows(t, init, a, f, i);
  }

  /** The closing loop counts every row of the listing that is missed, once. */
  lemma {:induction false} MissesAreRows(t: Tables, listing: seq<Assignment>, a: Acc, f: Frame, i: int)
    requires IsListing(t, listing)
    ensures multiset(MissedRows(a, f, Join(t, listing)))[i] == |CountedRows(t, listing, a, f, i)|
  {
    if listing != [] {
      var init, last := listing[..|listing| - 1], listing[|listing| - 1];
      assert listing == init + [last];
      OneMoreRow(t, init, last, a, f, i);
      var known := Join(t, listing);
      assert known[..|known| - 1] == Join(t, init) && known[|known| - 1] == KnownOf(t, last);
      MissesAreRows(t, init, a, f, i);
    }
  }

  /** The first loop's result, and the listing the sweep went by. */
  ghost predicate SweptTo(t: Tables, f: Frame, results: seq<Result>, listing: seq<Assignment>, a: Acc)
    requires WellFormed(t)
  {
    && ListsSubnet(listing, t, f.subnet) && f.byIp == ByIp(Join(t, listing))
    && a == SweepAll(Acc(t, {}, {}, {}), f, results)
  }

  lemma RowsCounted(t: Tables, f: Frame, results: seq<Result>, listing: seq<Assignment>, a: Acc, i: int)
    requires WellFormed(t) && Named(t, f.subnet) && Resolved(f.arp, results) && i in t.ifaces
    requires SweptTo(t, f, results, listing, a) && SeenInv(t, a, f, results)
    ensures CountedRows(t, listing, a, f, i)
            == if Answered(t, f.arp, results, i) then {} else RowsToMiss(t, i, f.subnet, results)
  {
    forall r | r in listing
      ensures IsMissed(a, f, KnownOf(t, r)) <==> !HasFailed(results, r.ip) && !Answered(t, f.arp, results, r.iface)
    {
      AddressesSorted(Acc(t, {}, {}, {}), f, results, r.ip);
      RowIsMissed(t, f, a, results, r);
    }
  }

  /** For any sweep: an interface whose MAC answers anywhere is not missed, and
      one whose MAC does not is missed once for each of its rows in the subnet
      whose probe could be run. Its rows are then as they were. */
  lemma MissesCounted(t: Tables, subnet: int, arp: map<string, string>, names: map<string, string>,
                      results: seq<Result>, u: Tables, missed: seq<int>, i: int)
    requires WellFormed(t) && Named(t, subnet) && Resolved(arp, results)
    requires Swept(t, subnet, arp, names, results, u, missed) && i in t.ifaces
    ensures multiset(missed)[i] == if Answered(t, arp, results, i) then 0 else |RowsToMiss(t, i, subnet, results)|
    ensures i in missed ==> forall q: Assignment :: q.iface == i ==> (q in t.rows <==> q in u.rows)
  {
    var listing :| ListsSubnet(listing, t, subnet) && SweptVia(t, subnet, arp, names, results, listing, u, missed);
    var f := Frame(subnet, ByIp(Join(t, listing)), arp, names);
    var a := SweepAll(Acc(t, {}, {}, {}), f, results);
    ByIpIndexes(t, listing, f);
    SweepSees(t, f, results);
    MissesAreRows(t, listing, a, f, i);
    RowsCounted(t, f, results, listing, a, i);
    assert i in missed <==> i in multiset(missed);
  }

  /** So it is missed at all exactly when its MAC is silent and the probe of one
      of its addresses in the subnet could be run. */
  lemma MissedExactly(t: Tables, subnet: int, arp: map<string, string>, names: map<string, string>,
                      results: seq<Result>, u: Tables, missed: seq<int>, i: int)
    requires WellFormed(t) && Named(t, subnet) && Resolved(arp, results)
    requires Swept(t, subnet, arp, names, results, u, missed) && i in t.ifaces
    ensures i in missed <==>
              !Answered(t, arp, results, i) && exists r :: r in RowsOf(t, i, subnet) && !HasFailed(results, r.ip)
  {
    MissesCounted(t, subnet, arp, names, results, u, missed, i);
    var rows := RowsToMiss(t, i, subnet, results);
    assert i in missed <==> multiset(missed)[i] > 0;
    if r :| r in RowsOf(t, i, subnet) && !HasFailed(results, r.ip) {
      assert r in rows;
    } else {
      assert rows == {};
    }
  }

  // ---- Once per sweep

  /** No sweep of the subnet, whatever answers, counts more than one miss for the interface. */
  ghost predicate MissedOnceAtMost(t: Tables, subnet: int, i: int)
    requires WellFormed(t)
  {
    forall arp, names, results, u, missed ::
      Resolved(arp, results) && Swept(t, subnet, arp, names, results, u, missed) ==> multiset(missed)[i] <= 1
  }

  lemma FewerRows(t: Tables, i: int, subnet: int, results: seq<Result>)
    ensures |RowsToMiss(t, i, subnet, results)| <= |RowsOf(t, i, subnet)|
    ensures results == [] ==> RowsToMiss(t, i, subnet, results) == RowsOf(t, i, subnet)
  {
    SubsetIsSmaller(RowsToMiss(t, i, subnet, results), RowsOf(t, i, subnet));
  }

  lemma {:induction false} SubsetIsSmaller(a: set<Assignment>, b: set<Assignment>)
    requires a <= b
    ensures |a| <= |b|
  {
    if a != {} {
      var x :| x in a;
      SubsetIsSmaller(a - {x}, b - {x});
    }
  }

  lemma {:induction false} AnyListing(rows: set<Assignment>) returns (listing: seq<Assignment>)
    ensures forall r :: r in listing <==> r in rows
    ensures forall i, j :: 0 <= i < j < |listing| ==> listing[i] != listing[j]
  {
    if rows == {} {
      listing := [];
    } else {
      var r :| r in rows;
      var rest := AnyListing(rows - {r});
      listing := rest + [r];
    }
  }

  /** A sweep in which nothing answers and no probe fails. */
  lemma SilentSweep(t: Tables, subnet: int) returns (missed: seq<int>)
    requires WellFormed(t)
    ensures Swept(t, subnet, map[], map[], [], t, missed)
  {
    var listing := AnyListing(set r | r in t.rows && r.subnet == subnet);
    var f := Frame(subnet, ByIp(Join(t, listing)), map[], map[]);
    missed := MissedRows(Acc(t, {}, {}, {}), f, Join(t, listing));
    assert SweptVia(t, subnet, map[], map[], [], listing, t, missed);
  }

  /** Exactly the interfaces with at most one row in the subnet are sure to be
      counted at most once by a sweep that does not see them. */
  lemma OneMissNeedsOneRow(t: Tables, subnet: int, i: int)
    requires WellFormed(t) && Named(t, subnet) && i in t.ifaces
    ensures MissedOnceAtMost(t, subnet, i) <==> |RowsOf(t, i, subnet)| <= 1
  {
    if |RowsOf(t, i, subnet)| <= 1 {
      forall arp, names, results, u, missed | Resolved(arp, results) && Swept(t, subnet, arp, names, results, u, missed)
        ensures multiset(missed)[i] <= 1
      {
        MissesCounted(t, subnet, arp, names, results, u, missed, i);
        FewerRows(t, i, subnet, results);
      }
    } else {
      var missed := SilentSweep(t, subnet);
      MissesCounted(t, subnet, map[], map[], [], t, missed, i);
      FewerRows(t, i, subnet, []);
      assert Resolved(map[], []);
    }
  }

  function TwoRows(): (t: Tables)
    ensures WellFormed(t) && Named(t, 7) && RowsOf(t, 1, 7) == t.rows && |t.rows| == 2
  {
    var x, y := Assignment(2, 1, 7, "10.0.0.2", Static, ""), Assignment(3, 1, 7, "10.0.0.3", Dhcp, "");
    var t := Tables(map[0 := DeviceRow("nas", "scan")], map[1 := Iface(0, Some("aa"), None)], {x, y}, 4);
    assert RowsOf(t, 1, 7) == {x, y};
    t
  }

  /** A table and a sweep of it that counts two misses for one interface. */
  lemma MissedTwice() returns (t: Tables, missed: seq<int>)
    ensures WellFormed(t) && Named(t, 7) && 1 in t.ifaces && |RowsOf(t, 1, 7)| == 2
    ensures Swept(t, 7, map[], map[], [], t, missed) && missed == [1, 1]
  {
    t := TwoRows();
    var x, y := Assignment(2, 1, 7, "10.0.0.2", Static, ""), Assignment(3, 1, 7, "10.0.0.3", Dhcp, "");
    var known := Join(t, [x, y]);
    var a, f := Acc(t, {}, {}, {}), Frame(7, ByIp(known), map[], map[]);
    assert known[..1][..0] == [] && |known[..1]| == 1;
    assert MissedRows(a, f, known[..1]) == [1];
    missed := MissedRows(a, f, known);
    assert SweptVia(t, 7, map[], map[], [], [x, y], t, missed);
  }
}
