/** What a sweep leaves in the inventory, told from its answers and the tables
    before: rows, newcomers and hostnames (internal/scan/engine.go:113-158, 205-251). */
module SweepOutcome {
  import opened Options
  import opened TextOrder
  import opened Inventory
  import opened Sweep
  import opened SweepMisses

  /** The tables after the first n answers. */
  ghost function AfterFirst(t: Tables, f: Frame, results: seq<Result>, n: nat): Acc
    requires n <= |results|
  {
    SweepAll(Acc(t, {}, {}, {}), f, results[..n])
  }

  lemma OneMoreAnswer(t: Tables, f: Frame, results: seq<Result>, n: nat)
    requires n < |results|
    ensures AfterFirst(t, f, results, n + 1) == SweepOne(AfterFirst(t, f, results, n), f, results[n])
    ensures AfterFirst(t, f, results, 0) == Acc(t, {}, {}, {})
    ensures AfterFirst(t, f, results, |results|) == SweepAll(Acc(t, {}, {}, {}), f, results)
  {
    assert results[..n + 1][..n] == results[..n] && results[..|results|] == results;
  }

  /** The MAC column for what ARP says of an address. */
  function MacColumn(arpMac: string): Option<string> {
    if arpMac == "" then None else Some(arpMac)
  }

  // ---- Rows

  /** A row as an answer adds it. */
  ghost predicate FromAnswer(t: Tables, f: Frame, done: seq<Result>, u: Tables, r: Assignment) {
    && r.kind == Dhcp && r.source == "" && r.subnet == f.subnet && r.id >= t.nextId && r.iface in u.ifaces
    && exists q :: q in done && q.alive && !q.failed && q.ip == r.ip
                   && u.ifaces[r.iface].mac == MacColumn(MacAt(f.arp, q.ip))
  }

  /** A row that a move takes away: the MAC answered elsewhere. */
  ghost predicate LostByMove(t: Tables, f: Frame, done: seq<Result>, r: Assignment)
    requires r.iface in t.ifaces
  {
    && r.kind == Dhcp && r.subnet == f.subnet && t.ifaces[r.iface].mac.Some?
    && exists q :: q in done && q.alive && !q.failed && q.ip != r.ip
        && MacAt(f.arp, q.ip) == t.ifaces[r.iface].mac.value
  }

  ghost predicate RowsTraced(t: Tables, f: Frame, done: seq<Result>, u: Tables)
    requires WellFormed(t)
  {
    && WellFormed(u) && t.nextId <= u.nextId
    && (forall i :: i in t.ifaces ==> i in u.ifaces && u.ifaces[i].mac == t.ifaces[i].mac)
    && (forall r :: r in u.rows && r !in t.rows ==> FromAnswer(t, f, done, u, r))
    && (forall r :: r in t.rows && r !in u.rows ==> LostByMove(t, f, done, r))
  }

  /** What one answer adds and takes away. */
  ghost predicate RowsChange(t: Tables, u: Tables, f: Frame, ip: string, mac: string) {
    && t.nextId <= u.nextId
    && (forall i :: i in t.ifaces ==> i in u.ifaces && u.ifaces[i].mac == t.ifaces[i].mac)
    && (forall r :: r in u.rows && r !in t.rows ==>
          r.kind == Dhcp && r.source == "" && r.subnet == f.subnet && r.id >= t.nextId && r.ip == ip
          && r.iface in u.ifaces && u.ifaces[r.iface].mac == MacColumn(mac))
    && (forall r :: r in t.rows && r !in u.rows ==>
          r.kind == Dhcp && r.subnet == f.subnet && r.ip != ip && r.iface in t.ifaces
          && mac != "" && t.ifaces[r.iface].mac == Some(mac))
  }

  lemma MovedRows(t: Tables, f: Frame, i: int, ip: string, mac: string, name: string)
    requires WellFormed(t) && Owns(t, i, mac) && mac != ""
    ensures RowsChange(t, Filled(Moved(t, i, f.subnet, ip), i, name), f, ip, mac)
  {
  }

  lemma CreatedRows(t: Tables, f: Frame, ip: string, mac: string)
    requires WellFormed(t)
    ensures RowsChange(t, Created(t, f, mac, ip), f, ip, mac)
  {
  }

  lemma AnswerRows(a: Acc, f: Frame, r: Result)
    requires WellFormed(a.t) && r.alive && !r.failed
    ensures RowsChange(a.t, SweepOne(a, f, r).t, f, r.ip, MacAt(f.arp, r.ip))
  {
    var mac := MacAt(f.arp, r.ip);
    if r.ip in f.byIp && !MacConflict(f.byIp[r.ip].mac, mac) {
      assert SweepOne(a, f, r).t.rows == a.t.rows;
    } else if mac != "" && OwnerOf(a.t, mac).Some? {
      MovedRows(a.t, f, OwnerOf(a.t, mac).value, r.ip, mac, NameAt(f.names, r.ip));
    } else {
      CreatedRows(a.t, f, r.ip, mac);
    }
  }

  lemma TracedStep(t: Tables, f: Frame, done: seq<Result>, v: Tables, r: Result, u: Tables)
    requires WellFormed(t) && RowsTraced(t, f, done, v) && WellFormed(u) && r.alive && !r.failed
    requires RowsChange(v, u, f, r.ip, MacAt(f.arp, r.ip))
    ensures RowsTraced(t, f, done + [r], u)
  {
    var all := done + [r];
    assert all[|done|] == r && forall q :: q in done ==> q in all;
    forall x | x in u.rows && x !in t.rows
      ensures FromAnswer(t, f, all, u, x)
    {
      if x in v.rows {
        var q :| q in done && q.alive && !q.failed && q.ip == x.ip
            && v.ifaces[x.iface].mac == MacColumn(MacAt(f.arp, q.ip));
        assert q in all;
      } else {
        assert r in all;
      }
    }
    forall x | x in t.rows && x !in u.rows
      ensures LostByMove(t, f, all, x)
    {
      if x in v.rows {
        assert r in all;
      } else {
        var q :| q in done && q.alive && !q.failed && q.ip != x.ip && MacAt(f.arp, q.ip) == t.ifaces[x.iface].mac.value;
        assert q in all;
      }
    }
  }

  lemma TracedIdle(t: Tables, f: Frame, done: seq<Result>, u: Tables, r: Result)
    requires WellFormed(t) && RowsTraced(t, f, done, u)
    ensures RowsTraced(t, f, done + [r], u)
  {
    var all := done + [r];
    assert forall q :: q in done ==> q in all;
    forall x | x in u.rows && x !in t.rows
      ensures FromAnswer(t, f, all, u, x)
    {
      var q :| q in done && q.alive && !q.failed && q.ip == x.ip
          && u.ifaces[x.iface].mac == MacColumn(MacAt(f.arp, q.ip));
      assert q in all;
    }
    forall x | x in t.rows && x !in u.rows
      ensures LostByMove(t, f, all, x)
    {
      var q :| q in done && q.alive && !q.failed && q.ip != x.ip && MacAt(f.arp, q.ip) == t.ifaces[x.iface].mac.value;
      assert q in all;
    }
  }

  lemma {:induction false} SweepTracesRows(t: Tables, f: Frame, results: seq<Result>)
    requires WellFormed(t)
    ensures RowsTraced(t, f, results, SweepAll(Acc(t, {}, {}, {}), f, results).t)
  {
    if results != [] {
      var done, last := results[..|results| - 1], results[|results| - 1];
      assert results == done + [last];
      SweepTracesRows(t, f, done);
      var a := SweepAll(Acc(t, {}, {}, {}), f, done);
      StepKeepsWellFormed(a, f, last);
      if Answers(last) {
        AnswerRows(a, f, last);
        TracedStep(t, f, done, a.t, last, SweepOne(a, f, last).t);
      } else {
        TracedIdle(t, f, done, a.t, last);
      }
    }
  }

  /** Every row a sweep adds is a DHCP row without a label, in its subnet, at an
      address that answered, of the interface with the MAC seen there; and every
      row it takes away is a DHCP row of an interface whose MAC answered elsewhere. */
  lemma SweptRows(t: Tables, subnet: int, arp: map<string, string>, names: map<string, string>,
                  results: seq<Result>, u: Tables, missed: seq<int>, r: Assignment)
    requires WellFormed(t) && Swept(t, subnet, arp, names, results, u, missed)
    ensures r in u.rows && r !in t.rows ==>
              && r.kind == Dhcp && r.source == "" && r.subnet == subnet && r.iface in u.ifaces
              && exists q :: q in results && q.alive && !q.failed && q.ip == r.ip
                             && u.ifaces[r.iface].mac == MacColumn(MacAt(arp, q.ip))
    ensures r in t.rows && r !in u.rows ==>
              && r.kind == Dhcp && r.subnet == subnet && t.ifaces[r.iface].mac.Some?
              && exists q :: q in results && q.alive && !q.failed && q.ip != r.ip
                             && MacAt(arp, q.ip) == t.ifaces[r.iface].mac.value
  {
    var listing :| ListsSubnet(listing, t, subnet) && SweptVia(t, subnet, arp, names, results, listing, u, missed);
    SweepTracesRows(t, Frame(subnet, ByIp(Join(t, listing)), arp, names), results);
  }

  // ---- Devices

  /** New devices and new interfaces come in pairs. */
  ghost predicate Paired(t: Tables, u: Tables) {
    && WellFormed(u) && t.nextId <= u.nextId
    && (forall i :: i in t.ifaces ==> i in u.ifaces && u.ifaces[i].device == t.ifaces[i].device)
    && (forall d :: d in t.devices ==> d in u.devices && u.devices[d] == t.devices[d])
    && (forall i :: i in u.ifaces && i !in t.ifaces ==>
        u.ifaces[i].device in u.devices && u.ifaces[i].device !in t.devices)
    && (forall i, j ::
          (i in u.ifaces && j in u.ifaces && i !in t.ifaces && j !in t.ifaces
              && u.ifaces[i].device == u.ifaces[j].device)
          ==> i == j)
    && (forall d :: d in u.devices && d !in t.devices ==>
          exists i :: i in u.ifaces && i !in t.ifaces && u.ifaces[i].device == d)
  }

  predicate MakesPair(v: Tables, u: Tables) {
    var i, d := v.nextId + 1, v.nextId;
    && u.ifaces.Keys == v.ifaces.Keys + {i} && d in u.devices && u.devices == v.devices[d := u.devices[d]]
    && i in u.ifaces && u.ifaces[i].device == d
  }

  /** One answer makes one such pair, or none. */
  lemma AnswerPairs(a: Acc, f: Frame, r: Result)
    requires WellFormed(a.t)
    ensures var u := SweepOne(a, f, r).t;
            && a.t.nextId <= u.nextId
            && (forall i :: i in a.t.ifaces ==> i in u.ifaces && u.ifaces[i].device == a.t.ifaces[i].device)
            && ((u.ifaces.Keys == a.t.ifaces.Keys && u.devices == a.t.devices)
                || MakesPair(a.t, u))
  {
    var mac := MacAt(f.arp, r.ip);
    var u := SweepOne(a, f, r).t;
    if r.alive && !r.failed && !(r.ip in f.byIp && !MacConflict(f.byIp[r.ip].mac, mac))
       && !(mac != "" && OwnerOf(a.t, mac).Some?)
    {
      assert u == Created(a.t, f, mac, r.ip);
      assert u.ifaces.Keys == a.t.ifaces.Keys + {a.t.nextId + 1};
      assert u.devices == a.t.devices[a.t.nextId := u.devices[a.t.nextId]];
    } else {
      assert u.ifaces.Keys == a.t.ifaces.Keys;
    }
  }

  lemma PairedStep(t: Tables, v: Tables, u: Tables, i: int, d: int, row: DeviceRow)
    requires Paired(t, v) && WellFormed(u) && v.nextId <= u.nextId
    requires forall j :: j in v.ifaces ==> j in u.ifaces && u.ifaces[j].device == v.ifaces[j].device
    requires i !in v.ifaces && d !in v.devices && u.ifaces.Keys == v.ifaces.Keys + {i}
    requires i in u.ifaces && u.ifaces[i].device == d && u.devices == v.devices[d := row]
    ensures Paired(t, u)
  {
    assert forall j :: j in u.ifaces <==> j in v.ifaces || j == i;
    forall e | e in u.devices && e !in t.devices
      ensures exists j :: j in u.ifaces && j !in t.ifaces && u.ifaces[j].device == e
    {
      if e == d {
        assert i !in t.ifaces;
      } else {
        var j :| j in v.ifaces && j !in t.ifaces && v.ifaces[j].device == e;
        assert j in u.ifaces;
      }
    }
  }

  lemma PairedIdle(t: Tables, v: Tables, u: Tables)
    requires Paired(t, v) && WellFormed(u) && v.nextId <= u.nextId && u.ifaces.Keys == v.ifaces.Keys
        && u.devices == v.devices
    requires forall j :: j in v.ifaces ==> j in u.ifaces && u.ifaces[j].device == v.ifaces[j].device
    ensures Paired(t, u)
  {
    assert forall j :: j in u.ifaces <==> j in v.ifaces;
    forall e | e in u.devices && e !in t.devices
      ensures exists j :: j in u.ifaces && j !in t.ifaces && u.ifaces[j].device == e
    {
      var j :| j in v.ifaces && j !in t.ifaces && v.ifaces[j].device == e;
      assert j in u.ifaces;
    }
  }

  lemma {:induction false} SweepPairs(t: Tables, f: Frame, results: seq<Result>)
    requires WellFormed(t)
    ensures Paired(t, SweepAll(Acc(t, {}, {}, {}), f, results).t)
  {
    if results != [] {
      var done, last := results[..|results| - 1], results[|results| - 1];
      SweepPairs(t, f, done);
      var a := SweepAll(Acc(t, {}, {}, {}), f, done);
      var u := SweepOne(a, f, last).t;
      StepKeepsWellFormed(a, f, last);
      AnswerPairs(a, f, last);
      if u.ifaces.Keys == a.t.ifaces.Keys && u.devices == a.t.devices {
        PairedIdle(t, a.t, u);
      } else {
        PairedStep(t, a.t, u, a.t.nextId + 1, a.t.nextId, u.devices[a.t.nextId]);
      }
    }
  }

  /** A sweep changes no device that was there, and each device it makes has
      exactly one interface, made with it. */
  lemma SweptDevices(t: Tables, subnet: int, arp: map<string, string>, names: map<string, string>,
                     results: seq<Result>, u: Tables, missed: seq<int>)
    requires WellFormed(t) && Swept(t, subnet, arp, names, results, u, missed)
    ensures Paired(t, u)
  {
    var listing :| ListsSubnet(listing, t, subnet) && SweptVia(t, subnet, arp, names, results, listing, u, missed);
    SweepPairs(t, Frame(subnet, ByIp(Join(t, listing)), arp, names), results);
  }

  // ---- Answers at a known address

  /** The MACs do not tell two machines apart: one is missing, or they differ in case only. */
  predicate MayBeSame(known: Option<string>, arpMac: string) {
    known.None? || known.value == "" || arpMac == "" || Lower(known.value) == Lower(arpMac)
  }

  lemma {:induction false} SeenStays(a: Acc, f: Frame, results: seq<Result>, k: nat)
    requires k < |results| && results[k].alive && !results[k].failed && results[k].ip in f.byIp
    requires MayBeSame(f.byIp[results[k].ip].mac, MacAt(f.arp, results[k].ip))
    ensures f.byIp[results[k].ip].iface in SweepAll(a, f, results).seen
  {
    if k < |results| - 1 {
      SeenStays(a, f, results[..|results| - 1], k);
    }
  }

  lemma {:induction false} ByIpOnly(known: seq<Known>, k: Known)
    requires k in known && forall q :: q in known && q.ip == k.ip ==> q == k
    ensures k.ip in ByIp(known) && ByIp(known)[k.ip] == k
  {
    var init, last := known[..|known| - 1], known[|known| - 1];
    assert known == init + [last];
    if last != k {
      ByIpOnly(init, k);
    }
  }

  /** An answer at an address that one interface has, with no ARP entry or one that
      agrees with its MAC but for case, is that interface's: it is not missed. */
  lemma KnownIsNotMissed(t: Tables, subnet: int, arp: map<string, string>, names: map<string, string>,
                         results: seq<Result>, u: Tables, missed: seq<int>, row: Assignment, k: nat)
    requires WellFormed(t) && Swept(t, subnet, arp, names, results, u, missed)
    requires row in t.rows && row.subnet == subnet
    requires forall r :: r in t.rows && r.subnet == subnet && r.ip == row.ip ==> r.iface == row.iface
    requires k < |results| && results[k].alive && !results[k].failed && results[k].ip == row.ip
    requires MayBeSame(t.ifaces[row.iface].mac, MacAt(arp, row.ip))
    ensures row.iface !in missed
  {
    var listing :| ListsSubnet(listing, t, subnet) && SweptVia(t, subnet, arp, names, results, listing, u, missed);
    var known := Join(t, listing);
    var f := Frame(subnet, ByIp(known), arp, names);
    var a := SweepAll(Acc(t, {}, {}, {}), f, results);
    RowIsIndexed(t, subnet, listing, row);
    SeenStays(Acc(t, {}, {}, {}), f, results, k);
    MissedAre(a, f, known, row.iface);
  }

  lemma RowIsIndexed(t: Tables, subnet: int, listing: seq<Assignment>, row: Assignment)
    requires WellFormed(t) && ListsSubnet(listing, t, subnet) && row in t.rows && row.subnet == subnet
    requires forall r :: r in t.rows && r.subnet == subnet && r.ip == row.ip ==> r.iface == row.iface
    ensures var byIp := ByIp(Join(t, listing));
            row.ip in byIp && byIp[row.ip] == Known(row.iface, row.ip, t.ifaces[row.iface].mac)
  {
    var known, k := Join(t, listing), Known(row.iface, row.ip, t.ifaces[row.iface].mac);
    var n :| 0 <= n < |listing| && listing[n] == row;
    assert known[n] == k && known[n] in known;
    forall q | q in known && q.ip == k.ip
      ensures q == k
    {
      var m :| 0 <= m < |known| && known[m] == q;
      assert listing[m] in listing;
    }
    ByIpOnly(known, k);
  }

  // ---- One MAC that answers at one place

  /** The MAC answers the k-th probe and no other. */
  ghost predicate AnswersOnce(arp: map<string, string>, results: seq<Result>, mac: string, k: nat) {
    && k < |results| && results[k].alive && !results[k].failed && MacAt(arp, results[k].ip) == mac
    && forall n :: 0 <= n < |results| && n != k && results[n].alive && !results[n].failed ==>
        MacAt(arp, results[n].ip) != mac
  }

  /** An answer credited by its address is one of that interface's MAC, which has a row there. */
  lemma KnownHasOwner(t0: Tables, f: Frame, ip: string, mac: string)
    requires WellFormed(t0) && Named(t0, f.subnet) && Indexes(f, t0) && IsCanonical(Some(mac))
    requires ip in f.byIp && !MacConflict(f.byIp[ip].mac, mac)
    ensures Owns(t0, f.byIp[ip].iface, mac) && IsAssigned(t0, f.byIp[ip].iface, f.subnet, ip)
    ensures OwnerOf(t0, mac) == Some(f.byIp[ip].iface)
  {
    assert IsAssigned(t0, f.byIp[ip].iface, f.subnet, ip);
    OwnerIs(t0, f.byIp[ip].iface, mac);
  }

  /** Interfaces keep their MACs, and a new one has the MAC seen. */
  lemma AnswerMacs(a: Acc, f: Frame, r: Result)
    ensures forall i :: i in SweepOne(a, f, r).t.ifaces ==>
              (i in a.t.ifaces && SweepOne(a, f, r).t.ifaces[i].mac == a.t.ifaces[i].mac)
              || (r.alive && !r.failed && SweepOne(a, f, r).t.ifaces[i].mac == MacColumn(MacAt(f.arp, r.ip)))
  {
  }

  /** From t to u only the MAC's owner changes: a row or a newcomer. */
  lemma AnswerTouchesOwner(t0: Tables, a: Acc, f: Frame, done: seq<Result>, r: Result, other: int, mac: string)
    requires WellFormed(t0) && Named(t0, f.subnet) && Indexes(f, t0) && SeenInv(t0, a, f, done)
    requires r.alive && !r.failed && IsCanonical(Some(MacAt(f.arp, r.ip))) && MacAt(f.arp, r.ip) != mac
    requires Owns(a.t, other, mac)
    ensures Owns(SweepOne(a, f, r).t, other, mac)
    ensures forall q: Assignment :: q.iface == other ==> (q in a.t.rows <==> q in SweepOne(a, f, r).t.rows)
  {
    var seen, name := MacAt(f.arp, r.ip), NameAt(f.names, r.ip);
    if r.ip in f.byIp && !MacConflict(f.byIp[r.ip].mac, seen) {
      KnownIsTheOne(t0, f, r.ip, seen);
      MovedChanges(a.t, f.byIp[r.ip].iface, f.subnet, r.ip, name);
    } else if OwnerOf(a.t, seen).Some? {
      MovedChanges(a.t, OwnerOf(a.t, seen).value, f.subnet, r.ip, name);
    } else {
      CreatedChanges(a.t, f, seen, r.ip);
    }
  }

  lemma ResolvedPrefix(arp: map<string, string>, results: seq<Result>, n: nat)
    requires Resolved(arp, results) && n <= |results|
    ensures Resolved(arp, results[..n])
    ensures n < |results| && results[n].alive && !results[n].failed ==> IsCanonical(Some(MacAt(arp, results[n].ip)))
  {
    assert n < |results| ==> results[n] in results;
  }

  /** While other MACs answer, nothing of this one's interface changes. */
  lemma RowsStayOnce(t: Tables, f: Frame, results: seq<Result>, mac: string, i: int, n: nat)
    requires WellFormed(t) && Named(t, f.subnet) && Indexes(f, t) && Resolved(f.arp, results) && n < |results|
    requires results[n].alive && !results[n].failed ==> MacAt(f.arp, results[n].ip) != mac
    requires Owns(AfterFirst(t, f, results, n).t, i, mac)
    ensures Owns(AfterFirst(t, f, results, n + 1).t, i, mac)
    ensures forall q: Assignment :: q.iface == i ==>
              (q in AfterFirst(t, f, results, n).t.rows <==> q in AfterFirst(t, f, results, n + 1).t.rows)
  {
    OneMoreAnswer(t, f, results, n);
    ResolvedPrefix(f.arp, results, n);
    SweepSees(t, f, results[..n]);
    if results[n].alive && !results[n].failed {
      AnswerTouchesOwner(t, AfterFirst(t, f, results, n), f, results[..n], results[n], i, mac);
    }
  }

  ghost predicate SameRowsOf(t: Tables, u: Tables, i: int) {
    forall q: Assignment :: q.iface == i ==> (q in t.rows <==> q in u.rows)
  }

  lemma {:induction false} RowsStayAfter(t: Tables, f: Frame, results: seq<Result>, mac: string, i: int, k: nat, n: nat)
    requires WellFormed(t) && Named(t, f.subnet) && Indexes(f, t) && Resolved(f.arp, results)
    requires AnswersOnce(f.arp, results, mac, k) && k < n <= |results|
        && Owns(AfterFirst(t, f, results, k + 1).t, i, mac)
    ensures Owns(AfterFirst(t, f, results, n).t, i, mac)
    ensures SameRowsOf(AfterFirst(t, f, results, k + 1).t, AfterFirst(t, f, results, n).t, i)
    decreases n
  {
    if n > k + 1 {
      RowsStayAfter(t, f, results, mac, i, k, n - 1);
      RowsStayOnce(t, f, results, mac, i, n - 1);
    }
  }

  lemma SilentBefore(t: Tables, f: Frame, results: seq<Result>, mac: string, k: nat)
    requires AnswersOnce(f.arp, results, mac, k)
    ensures forall r :: r in results[..k] && Answers(r) ==> MacAt(f.arp, r.ip) != mac
  {
  }

  /** The rows of a moved interface: the new one, and those it had that are static or elsewhere. */
  ghost predicate MovedTo(t: Tables, u: Tables, i: int, subnet: int, ip: string, r: Assignment) {
    && r.iface == i && r.subnet == subnet && r.ip == ip && r.kind == Dhcp && r.source == "" && r !in t.rows
    && r in u.rows
    && forall q: Assignment :: q in u.rows && q.iface == i && q != r <==>
         q in t.rows && q.iface == i && (q.kind == Static || q.subnet != subnet)
  }

  lemma MoveLeaves(t: Tables, i: int, subnet: int, ip: string, name: string)
    requires WellFormed(t) && !IsAssigned(t, i, subnet, ip)
    ensures MovedTo(t, Filled(Moved(t, i, subnet, ip), i, name), i, subnet, ip,
        Assignment(t.nextId, i, subnet, ip, Dhcp, ""))
  {
  }

  /** The sweep's k-th answer finds the MAC's owner elsewhere and moves it. */
  lemma AnswerMoves(t: Tables, f: Frame, results: seq<Result>, mac: string, i: int, k: nat) returns (r: Assignment)
    requires WellFormed(t) && Named(t, f.subnet) && Indexes(f, t) && Resolved(f.arp, results)
    requires AnswersOnce(f.arp, results, mac, k) && Owns(t, i, mac) && !IsAssigned(t, i, f.subnet, results[k].ip)
    ensures Owns(AfterFirst(t, f, results, k + 1).t, i, mac)
    ensures MovedTo(t, AfterFirst(t, f, results, k + 1).t, i, f.subnet, results[k].ip, r)
  {
    var a, ip := AfterFirst(t, f, results, k), results[k].ip;
    OneMoreAnswer(t, f, results, k);
    ResolvedPrefix(f.arp, results, k);
    SweepSees(t, f, results[..k]);
    SilentBefore(t, f, results, mac, k);
    assert i !in a.seen && Owns(a.t, i, mac);
    OwnerIs(a.t, i, mac);
    if ip in f.byIp && !MacConflict(f.byIp[ip].mac, mac) {
      KnownHasOwner(t, f, ip, mac);
      assert false;
    }
    MoveLeaves(a.t, i, f.subnet, ip, NameAt(f.names, ip));
    r := Assignment(a.t.nextId, i, f.subnet, ip, Dhcp, "");
  }

  /** A known machine that answers at an address it did not have keeps its static
      addresses, and its DHCP addresses in the subnet give way to the new one. */
  lemma MoverHolds(t: Tables, subnet: int, arp: map<string, string>, names: map<string, string>,
                   results: seq<Result>, u: Tables, missed: seq<int>, mac: string, i: int, k: nat)
    returns (r: Assignment)
    requires WellFormed(t) && Named(t, subnet) && Resolved(arp, results)
    requires Swept(t, subnet, arp, names, results, u, missed)
    requires AnswersOnce(arp, results, mac, k) && Owns(t, i, mac) && !IsAssigned(t, i, subnet, results[k].ip)
    ensures Owns(u, i, mac) && MovedTo(t, u, i, subnet, results[k].ip, r)
  {
    var listing :| ListsSubnet(listing, t, subnet) && SweptVia(t, subnet, arp, names, results, listing, u, missed);
    var f := Frame(subnet, ByIp(Join(t, listing)), arp, names);
    ByIpIndexes(t, listing, f);
    r := AnswerMoves(t, f, results, mac, i, k);
    RowsStayAfter(t, f, results, mac, i, k, |results|);
    OneMoreAnswer(t, f, results, k);
  }

  /** A newcomer: new device and interface, and one row, at the address that answered. */
  ghost predicate IsNewAt(t: Tables, u: Tables, i: int, subnet: int, mac: Option<string>, ip: string,
                          resolved: string) {
    && i !in t.ifaces && i in u.ifaces && u.ifaces[i].mac == mac
    && u.ifaces[i].hostname == (if resolved == "" then None else Some(resolved))
    && u.ifaces[i].device !in t.devices && u.ifaces[i].device in u.devices
    && u.devices[u.ifaces[i].device] == DeviceRow(
         if resolved != "" then resolved
         else if mac.None? then "unknown-" + ip
         else (if IsPrivate(mac.value) then "private-" else "unknown-") + mac.value, "scan")
    && (exists r :: r in u.rows && r.iface == i)
    && (forall r :: r in u.rows && r.iface == i ==>
        r.subnet == subnet && r.ip == ip && r.kind == Dhcp && r.source == "")
    && (forall q, r :: q in u.rows && r in u.rows && q.iface == i && r.iface == i ==> q == r)
  }

  lemma CreatedIsNew(t: Tables, f: Frame, mac: string, ip: string)
    requires WellFormed(t)
    ensures IsNewAt(t, Created(t, f, mac, ip), t.nextId + 1, f.subnet, MacColumn(mac), ip, NameAt(f.names, ip))
  {
    assert Assignment(t.nextId + 2, t.nextId + 1, f.subnet, ip, Dhcp, "") in Created(t, f, mac, ip).rows;
  }

  /** The rows of the MAC's new interface are one row, at the address. */
  ghost predicate HoldsJust(t: Tables, u: Tables, i: int, subnet: int, ip: string) {
    && i !in t.ifaces
    && (exists r :: r in u.rows && r.iface == i)
    && (forall r :: r in u.rows && r.iface == i ==>
        r.subnet == subnet && r.ip == ip && r.kind == Dhcp && r.source == "")
    && (forall q, r :: q in u.rows && r in u.rows && q.iface == i && r.iface == i ==> q == r)
  }

  lemma StillNobody(a: Acc, f: Frame, r: Result, mac: string)
    requires OwnerOf(a.t, mac).None? && (r.alive && !r.failed ==> MacAt(f.arp, r.ip) != mac)
    ensures OwnerOf(SweepOne(a, f, r).t, mac).None?
  {
    AnswerMacs(a, f, r);
    var u := SweepOne(a, f, r).t;
    forall i
      ensures !Owns(u, i, mac)
    {
      assert !Owns(a.t, i, mac);
    }
  }

  lemma {:induction false} NobodySoFar(t: Tables, f: Frame, results: seq<Result>, mac: string, n: nat)
    requires n <= |results| && OwnerOf(t, mac).None?
    requires forall m :: 0 <= m < n && results[m].alive && !results[m].failed ==> MacAt(f.arp, results[m].ip) != mac
    ensures OwnerOf(AfterFirst(t, f, results, n).t, mac).None?
  {
    if n > 0 {
      NobodySoFar(t, f, results, mac, n - 1);
      OneMoreAnswer(t, f, results, n - 1);
      StillNobody(AfterFirst(t, f, results, n - 1), f, results[n - 1], mac);
    } else {
      assert results[..0] == [];
    }
  }

  lemma {:induction false} DevicesStay(t: Tables, f: Frame, results: seq<Result>, n: nat, m: nat)
    requires WellFormed(t) && n <= m <= |results|
    ensures var before, u := AfterFirst(t, f, results, n).t, AfterFirst(t, f, results, m).t;
            WellFormed(u) && forall d :: d in before.devices ==> d in u.devices && u.devices[d] == before.devices[d]
    decreases m
  {
    if n < m {
      DevicesStay(t, f, results, n, m - 1);
      OneMoreAnswer(t, f, results, m - 1);
      StepKeepsWellFormed(AfterFirst(t, f, results, m - 1), f, results[m - 1]);
      AnswerKeepsDevices(AfterFirst(t, f, results, m - 1), f, results[m - 1]);
    } else {
      SweepTracesRows(t, f, results[..m]);
    }
  }

  lemma AnswerKeepsDevices(a: Acc, f: Frame, r: Result)
    requires WellFormed(a.t)
    ensures forall d :: d in a.t.devices ==> d in SweepOne(a, f, r).t.devices
                                             && SweepOne(a, f, r).t.devices[d] == a.t.devices[d]
  {
  }

  /** At its MAC's first answer a stranger is neither known by the address nor by the MAC. */
  lemma FirstIsStranger(t: Tables, f: Frame, results: seq<Result>, mac: string, k: nat)
    requires WellFormed(t) && Named(t, f.subnet) && Indexes(f, t) && Resolved(f.arp, results) && OwnerOf(t, mac).None?
    requires k < |results| && results[k].alive && !results[k].failed && MacAt(f.arp, results[k].ip) == mac
    requires forall n :: 0 <= n < k && results[n].alive && !results[n].failed ==> MacAt(f.arp, results[n].ip) != mac
    ensures var a, ip := AfterFirst(t, f, results, k), results[k].ip;
            && mac != "" && OwnerOf(a.t, mac).None? && !(ip in f.byIp && !MacConflict(f.byIp[ip].mac, mac))
            && WellFormed(a.t) && (forall j :: j in t.ifaces ==> j in a.t.ifaces)
            && (forall d :: d in t.devices ==> d in a.t.devices)
  {
    var ip := results[k].ip;
    ResolvedPrefix(f.arp, results, k);
    SweepSees(t, f, results[..k]);
    NobodySoFar(t, f, results, mac, k);
    DevicesStay(t, f, results, 0, k);
    assert results[..0] == [];
    if ip in f.byIp && !MacConflict(f.byIp[ip].mac, mac) {
      KnownHasOwner(t, f, ip, mac);
      assert false;
    }
  }

  lemma StrangerCreated(t: Tables, a: Acc, f: Frame, r: Result, mac: string)
    requires WellFormed(a.t) && OwnerOf(a.t, mac).None? && mac != ""
    requires (forall j :: j in t.ifaces ==> j in a.t.ifaces) && (forall d :: d in t.devices ==> d in a.t.devices)
    requires r.alive && !r.failed && MacAt(f.arp, r.ip) == mac
    requires !(r.ip in f.byIp && !MacConflict(f.byIp[r.ip].mac, mac))
    ensures IsNewAt(t, SweepOne(a, f, r).t, a.t.nextId + 1, f.subnet, Some(mac), r.ip, NameAt(f.names, r.ip))
  {
    CreatedIsNew(a.t, f, mac, r.ip);
    assert SweepOne(a, f, r).t == Created(a.t, f, mac, r.ip);
  }

  /** That answer makes its device, interface and row. */
  lemma FirstAnswerMakes(t: Tables, f: Frame, results: seq<Result>, mac: string, k: nat) returns (i: int)
    requires WellFormed(t) && Named(t, f.subnet) && Indexes(f, t) && Resolved(f.arp, results) && OwnerOf(t, mac).None?
    requires k < |results| && results[k].alive && !results[k].failed && MacAt(f.arp, results[k].ip) == mac
    requires forall n :: 0 <= n < k && results[n].alive && !results[n].failed ==> MacAt(f.arp, results[n].ip) != mac
    ensures IsNewAt(t, AfterFirst(t, f, results, k + 1).t, i, f.subnet, Some(mac), results[k].ip,
                    NameAt(f.names, results[k].ip))
  {
    FirstIsStranger(t, f, results, mac, k);
    OneMoreAnswer(t, f, results, k);
    StrangerCreated(t, AfterFirst(t, f, results, k), f, results[k], mac);
    i := AfterFirst(t, f, results, k).t.nextId + 1;
  }

  /** A machine nobody knew, answering at one address, ends with just that address. */
  lemma NewcomerHolds(t: Tables, subnet: int, arp: map<string, string>, names: map<string, string>,
                      results: seq<Result>, u: Tables, missed: seq<int>, mac: string, k: nat) returns (i: int)
    requires WellFormed(t) && Named(t, subnet) && Resolved(arp, results)
    requires Swept(t, subnet, arp, names, results, u, missed)
    requires AnswersOnce(arp, results, mac, k) && OwnerOf(t, mac).None?
    ensures WellFormed(u) && Owns(u, i, mac) && HoldsJust(t, u, i, subnet, results[k].ip)
  {
    var listing :| ListsSubnet(listing, t, subnet) && SweptVia(t, subnet, arp, names, results, listing, u, missed);
    var f := Frame(subnet, ByIp(Join(t, listing)), arp, names);
    ByIpIndexes(t, listing, f);
    i := FirstAnswerMakes(t, f, results, mac, k);
    RowsStayAfter(t, f, results, mac, i, k, |results|);
    OneMoreAnswer(t, f, results, k);
    SweepSees(t, f, results);
  }

  lemma StillNamed(t: Tables, subnet: int, arp: map<string, string>, names: map<string, string>,
                   results: seq<Result>, u: Tables, missed: seq<int>)
    requires WellFormed(t) && Named(t, subnet) && Resolved(arp, results)
    requires Swept(t, subnet, arp, names, results, u, missed)
    ensures WellFormed(u) && Named(u, subnet)
  {
    var listing :| ListsSubnet(listing, t, subnet) && SweptVia(t, subnet, arp, names, results, listing, u, missed);
    var f := Frame(subnet, ByIp(Join(t, listing)), arp, names);
    ByIpIndexes(t, listing, f);
    SweepSees(t, f, results);
    SweepTracesRows(t, f, results);
    forall r | r in u.rows && r.subnet == subnet
      ensures r.iface in u.ifaces && IsCanonical(u.ifaces[r.iface].mac)
    {
      if r !in t.rows {
        assert FromAnswer(t, f, results, u, r);
      }
    }
  }

  /** A newcomer that moved by the next sweep holds only its second address. */
  lemma NewcomerMoves(t: Tables, subnet: int, arp: map<string, string>, names: map<string, string>,
                      results: seq<Result>, u: Tables, missed: seq<int>,
                      arp2: map<string, string>, names2: map<string, string>,
                      results2: seq<Result>, v: Tables, missed2: seq<int>, mac: string, k: nat, l: nat) returns (i: int)
    requires WellFormed(t) && Named(t, subnet) && Resolved(arp, results) && OwnerOf(t, mac).None?
    requires Swept(t, subnet, arp, names, results, u, missed) && AnswersOnce(arp, results, mac, k)
    requires WellFormed(u) && Swept(u, subnet, arp2, names2, results2, v, missed2)
    requires Resolved(arp2, results2) && AnswersOnce(arp2, results2, mac, l) && results2[l].ip != results[k].ip
    ensures Owns(v, i, mac) && (exists r :: r in v.rows && r.iface == i)
    ensures forall r :: r in v.rows && r.iface == i ==> r.subnet == subnet && r.ip == results2[l].ip && r.kind == Dhcp
  {
    i := NewcomerHolds(t, subnet, arp, names, results, u, missed, mac, k);
    StillNamed(t, subnet, arp, names, results, u, missed);
    var r := MoverHolds(u, subnet, arp2, names2, results2, v, missed2, mac, i, l);
  }
}
