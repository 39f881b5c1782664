/** Who a sweep's newcomers are, and the hostnames its resolved names leave
    (internal/scan/engine.go:113-158, 205-251). */
module SweepNames {
  import opened Options
  import opened Inventory
  import opened Sweep
  import opened SweepMisses
  import opened SweepOutcome

  // ---- Hostnames

  /** The first name resolved for an address where the MAC answered, "" if none was. */
  function FirstResolved(arp: map<string, string>, names: map<string, string>, results: seq<Result>,
                         mac: string): string {
    if results == [] then ""
    else
      var before, r := FirstResolved(arp, names, results[..|results| - 1], mac), results[|results| - 1];
      if before != "" then before
      else if r.alive && !r.failed && MacAt(arp, r.ip) == mac then NameAt(names, r.ip) else ""
  }

  /** One answer offers its resolved name to the interface of its MAC. */
  lemma AnswerNames(t0: Tables, a: Acc, f: Frame, done: seq<Result>, r: Result, i: int, mac: string)
    requires WellFormed(t0) && Named(t0, f.subnet) && Indexes(f, t0) && SeenInv(t0, a, f, done)
    requires r.alive && !r.failed && IsCanonical(Some(MacAt(f.arp, r.ip))) && Owns(a.t, i, mac)
    ensures var u, seen := SweepOne(a, f, r).t, MacAt(f.arp, r.ip);
            && Owns(u, i, mac) && u.ifaces[i].device == a.t.ifaces[i].device
            && u.ifaces[i].hostname
                 == Offered(a.t.ifaces[i].hostname, if seen == mac then NameAt(f.names, r.ip) else "")
  {
    var seen := MacAt(f.arp, r.ip);
    if r.ip in f.byIp && !MacConflict(f.byIp[r.ip].mac, seen) {
      KnownHasOwner(t0, f, r.ip, seen);
      FilledOffers(a.t, a.t, f.byIp[r.ip].iface, seen, NameAt(f.names, r.ip), i, mac);
    } else if OwnerOf(a.t, seen).Some? {
      var j := OwnerOf(a.t, seen).value;
      FilledOffers(a.t, Moved(a.t, j, f.subnet, r.ip), j, seen, NameAt(f.names, r.ip), i, mac);
    }
  }

  lemma FilledOffers(t: Tables, v: Tables, j: int, seen: string, name: string, i: int, mac: string)
    requires MacsUnique(t) && v.ifaces == t.ifaces && Owns(t, j, seen) && Owns(t, i, mac)
    ensures var u := Filled(v, j, name);
            && Owns(u, i, mac) && u.ifaces[i].device == t.ifaces[i].device
            && u.ifaces[i].hostname == Offered(t.ifaces[i].hostname, if seen == mac then name else "")
  {
    assert i == j <==> seen == mac;
  }

  /** What the answers from the n-th to the m-th make of the MAC's interface. */
  ghost predicate NamedBy(before: Tables, u: Tables, i: int, mac: string, name: string)
    requires i in before.ifaces
  {
    && Owns(u, i, mac) && u.ifaces[i].device == before.ifaces[i].device
    && u.ifaces[i].hostname == Offered(before.ifaces[i].hostname, name)
  }

  lemma FirstResolvedMore(arp: map<string, string>, names: map<string, string>, results: seq<Result>,
                          mac: string, n: nat, m: nat)
    requires n < m <= |results|
    ensures FirstResolved(arp, names, results[n..m], mac) ==
              var before, r := FirstResolved(arp, names, results[n..m - 1], mac), results[m - 1];
              if before != "" then before
              else if r.alive && !r.failed && MacAt(arp, r.ip) == mac then NameAt(names, r.ip) else ""
  {
    assert results[n..m][..m - n - 1] == results[n..m - 1] && results[n..m][m - n - 1] == results[m - 1];
  }

  lemma NamesStep(t: Tables, f: Frame, results: seq<Result>, i: int, mac: string, m: nat)
    requires WellFormed(t) && Named(t, f.subnet) && Indexes(f, t) && Resolved(f.arp, results) && m < |results|
    requires Owns(AfterFirst(t, f, results, m).t, i, mac)
    ensures var r := results[m];
            NamedBy(AfterFirst(t, f, results, m).t, AfterFirst(t, f, results, m + 1).t, i, mac,
                    if r.alive && !r.failed && MacAt(f.arp, r.ip) == mac then NameAt(f.names, r.ip) else "")
  {
    OneMoreAnswer(t, f, results, m);
    ResolvedPrefix(f.arp, results, m);
    SweepSees(t, f, results[..m]);
    if results[m].alive && !results[m].failed {
      AnswerNames(t, AfterFirst(t, f, results, m), f, results[..m], results[m], i, mac);
    }
  }

  lemma {:induction false} NamesFrom(t: Tables, f: Frame, results: seq<Result>, i: int, mac: string, n: nat, m: nat)
    requires WellFormed(t) && Named(t, f.subnet) && Indexes(f, t) && Resolved(f.arp, results) && n <= m <= |results|
    requires Owns(AfterFirst(t, f, results, n).t, i, mac)
    ensures NamedBy(AfterFirst(t, f, results, n).t, AfterFirst(t, f, results, m).t, i, mac,
                    FirstResolved(f.arp, f.names, results[n..m], mac))
    decreases m
  {
    if n < m {
      NamesFrom(t, f, results, i, mac, n, m - 1);
      NamesStep(t, f, results, i, mac, m - 1);
      FirstResolvedMore(f.arp, f.names, results, mac, n, m);
    }
  }

  /** A known machine keeps a hostname of its own, and otherwise gets the first
      name resolved where its MAC answered. */
  lemma KnownGetsName(t: Tables, subnet: int, arp: map<string, string>, names: map<string, string>,
                      results: seq<Result>, u: Tables, missed: seq<int>, mac: string, i: int)
    requires WellFormed(t) && Named(t, subnet) && Resolved(arp, results)
    requires Swept(t, subnet, arp, names, results, u, missed) && Owns(t, i, mac)
    ensures Owns(u, i, mac)
        && u.ifaces[i].hostname == Offered(t.ifaces[i].hostname, FirstResolved(arp, names, results, mac))
  {
    var listing :| ListsSubnet(listing, t, subnet) && SweptVia(t, subnet, arp, names, results, listing, u, missed);
    var f := Frame(subnet, ByIp(Join(t, listing)), arp, names);
    ByIpIndexes(t, listing, f);
    assert results[..0] == [] && results[..|results|] == results && results[0..|results|] == results;
    NamesFrom(t, f, results, i, mac, 0, |results|);
  }

  /** The newcomer's device and hostname after all answers. */
  ghost predicate NewcomerIs(t: Tables, u: Tables, i: int, mac: string, resolved: string, name: string) {
    && i !in t.ifaces && Owns(u, i, mac) && u.ifaces[i].device !in t.devices && u.ifaces[i].device in u.devices
    && u.ifaces[i].hostname == Offered(None, name)
    && u.devices[u.ifaces[i].device] == DeviceRow(
         if resolved != "" then resolved else (if IsPrivate(mac) then "private-" else "unknown-") + mac, "scan")
  }

  lemma NewcomerStays(t: Tables, v: Tables, u: Tables, i: int, subnet: int, mac: string, ip: string, resolved: string,
                      later: string, name: string)
    requires IsNewAt(t, v, i, subnet, Some(mac), ip, resolved) && NamedBy(v, u, i, mac, later)
    requires name == if resolved != "" then resolved else later
    requires forall d :: d in v.devices ==> d in u.devices && u.devices[d] == v.devices[d]
    ensures NewcomerIs(t, u, i, mac, resolved, name)
  {
  }

  lemma NewcomerAfterAll(t: Tables, f: Frame, results: seq<Result>, mac: string, k: nat) returns (i: int)
    requires WellFormed(t) && Named(t, f.subnet) && Indexes(f, t) && Resolved(f.arp, results) && OwnerOf(t, mac).None?
    requires k < |results| && results[k].alive && !results[k].failed && MacAt(f.arp, results[k].ip) == mac
    requires forall n :: 0 <= n < k && results[n].alive && !results[n].failed ==> MacAt(f.arp, results[n].ip) != mac
    ensures NewcomerIs(t, AfterFirst(t, f, results, |results|).t, i, mac, NameAt(f.names, results[k].ip),
                       FirstResolved(f.arp, f.names, results[k..], mac))
  {
    i := FirstAnswerMakes(t, f, results, mac, k);
    NewcomerLater(t, f, results, mac, k, i);
    FirstResolvedFrom(f.arp, f.names, results, mac, k);
    NewcomerStays(t, AfterFirst(t, f, results, k + 1).t, AfterFirst(t, f, results, |results|).t, i, f.subnet, mac,
                  results[k].ip, NameAt(f.names, results[k].ip),
                  FirstResolved(f.arp, f.names, results[k + 1..|results|], mac),
                  FirstResolved(f.arp, f.names, results[k..], mac));
  }

  lemma NewcomerLater(t: Tables, f: Frame, results: seq<Result>, mac: string, k: nat, i: int)
    requires WellFormed(t) && Named(t, f.subnet) && Indexes(f, t) && Resolved(f.arp, results) && k < |results|
    requires Owns(AfterFirst(t, f, results, k + 1).t, i, mac)
    ensures var v, u := AfterFirst(t, f, results, k + 1).t, AfterFirst(t, f, results, |results|).t;
            && NamedBy(v, u, i, mac, FirstResolved(f.arp, f.names, results[k + 1..|results|], mac))
            && forall d :: d in v.devices ==> d in u.devices && u.devices[d] == v.devices[d]
  {
    NamesFrom(t, f, results, i, mac, k + 1, |results|);
    DevicesStay(t, f, results, k + 1, |results|);
  }

  lemma FirstResolvedFrom(arp: map<string, string>, names: map<string, string>, results: seq<Result>, mac: string,
                          k: nat)
    requires k < |results| && results[k].alive && !results[k].failed && MacAt(arp, results[k].ip) == mac
    ensures FirstResolved(arp, names, results[k..], mac) ==
              var resolved := NameAt(names, results[k].ip);
              if resolved != "" then resolved else FirstResolved(arp, names, results[k + 1..|results|], mac)
  {
    FirstResolvedSplits(arp, names, results[k], results[k + 1..], mac);
    assert results[k..] == [results[k]] + results[k + 1..] && results[k + 1..|results|] == results[k + 1..];
  }

  /** A machine nobody knew gets its device from its MAC's first answer, and the
      first name resolved where the MAC answered. */
  lemma NewcomerGetsName(t: Tables, subnet: int, arp: map<string, string>, names: map<string, string>,
                         results: seq<Result>, u: Tables, missed: seq<int>, mac: string, k: nat) returns (i: int)
    requires WellFormed(t) && Named(t, subnet) && Resolved(arp, results)
    requires Swept(t, subnet, arp, names, results, u, missed) && OwnerOf(t, mac).None?
    requires k < |results| && results[k].alive && !results[k].failed && MacAt(arp, results[k].ip) == mac
    requires forall n :: 0 <= n < k && results[n].alive && !results[n].failed ==> MacAt(arp, results[n].ip) != mac
    ensures NewcomerIs(t, u, i, mac, NameAt(names, results[k].ip), FirstResolved(arp, names, results[k..], mac))
  {
    var listing :| ListsSubnet(listing, t, subnet) && SweptVia(t, subnet, arp, names, results, listing, u, missed);
    var f := Frame(subnet, ByIp(Join(t, listing)), arp, names);
    ByIpIndexes(t, listing, f);
    i := NewcomerAfterAll(t, f, results, mac, k);
    assert results[..|results|] == results;
  }

  lemma {:induction false} FirstResolvedSplits(arp: map<string, string>, names: map<string, string>, r: Result,
                                               rest: seq<Result>, mac: string)
    requires r.alive && !r.failed && MacAt(arp, r.ip) == mac
    ensures FirstResolved(arp, names, [r] + rest, mac) ==
              if NameAt(names, r.ip) != "" then NameAt(names, r.ip) else FirstResolved(arp, names, rest, mac)
  {
    if rest == [] {
      assert [r] + rest == [r] && [r][..0] == [];
    } else {
      var init := rest[..|rest| - 1];
      assert ([r] + rest)[..|rest|] == [r] + init;
      FirstResolvedSplits(arp, names, r, init, mac);
    }
  }

  // ---- Newcomers without a MAC

  /** An answer from an address with neither ARP entry nor row. */
  predicate IsUnnamed(f: Frame, r: Result) {
    r.alive && !r.failed && MacAt(f.arp, r.ip) == "" && r.ip !in f.byIp
  }

  ghost predicate IsTally(f: Frame, done: seq<Result>, m: map<nat, int>) {
    forall k: nat :: k in m <==> k < |done| && IsUnnamed(f, done[k])
  }

  lemma TallyMore(f: Frame, done: seq<Result>, r: Result, m: map<nat, int>, i: int)
    requires IsTally(f, done, m)
    ensures IsTally(f, done + [r], if IsUnnamed(f, r) then m[|done| := i] else m)
    ensures |done| !in m
  {
    assert forall k: nat :: k < |done| ==> (done + [r])[k] == done[k];
  }

  ghost predicate AreNew(t: Tables, u: Tables, f: Frame, done: seq<Result>, m: map<nat, int>) {
    forall k :: k in m ==>
      k < |done| && IsNewAt(t, u, m[k], f.subnet, None, done[k].ip, NameAt(f.names, done[k].ip))
  }

  ghost predicate Covers(t: Tables, u: Tables, m: map<nat, int>) {
    && (forall k, l :: k in m && l in m && m[k] == m[l] ==> k == l)
    && (forall i :: i in u.ifaces && i !in t.ifaces && u.ifaces[i].mac.None? ==> exists k :: k in m && m[k] == i)
  }

  lemma CoversMore(t: Tables, v: Tables, u: Tables, m: map<nat, int>, n: nat, i: int)
    requires Covers(t, v, m) && n !in m && i !in v.ifaces && forall k :: k in m ==> m[k] in v.ifaces
    requires forall j :: j in u.ifaces && j != i ==> j in v.ifaces && u.ifaces[j] == v.ifaces[j]
    ensures Covers(t, u, m[n := i])
  {
    var more := m[n := i];
    forall j | j in u.ifaces && j !in t.ifaces && u.ifaces[j].mac.None?
      ensures exists k :: k in more && more[k] == j
    {
      if j != i {
        var k :| k in m && m[k] == j;
        assert more[k] == j;
      } else {
        assert more[n] == j;
      }
    }
  }

  /** The newcomers so far: one for each such answer, and no other interface without a MAC. */
  ghost predicate UnnamedInv(t: Tables, u: Tables, f: Frame, done: seq<Result>, m: map<nat, int>) {
    && WellFormed(u) && t.nextId <= u.nextId && (forall i :: i in t.ifaces ==> i in u.ifaces)
    && (forall d :: d in t.devices ==> d in u.devices)
    && IsTally(f, done, m) && AreNew(t, u, f, done, m) && Covers(t, u, m)
  }

  /** What an answer leaves of interfaces it does not credit. */
  ghost predicate LeftAlone(v: Tables, u: Tables, i: int) {
    && i in v.ifaces && i in u.ifaces && u.ifaces[i] == v.ifaces[i]
    && (forall d :: d in v.devices ==> d in u.devices && u.devices[d] == v.devices[d])
    && (forall q: Assignment :: q.iface == i ==> (q in v.rows <==> q in u.rows))
  }

  lemma AnswerLeavesUnnamed(t: Tables, a: Acc, f: Frame, r: Result, i: int)
    requires WellFormed(a.t) && Indexes(f, t) && i in a.t.ifaces && i !in t.ifaces && a.t.ifaces[i].mac.None?
    ensures LeftAlone(a.t, SweepOne(a, f, r).t, i)
  {
    if r.alive && !r.failed {
      var mac, name := MacAt(f.arp, r.ip), NameAt(f.names, r.ip);
      if r.ip in f.byIp && !MacConflict(f.byIp[r.ip].mac, mac) {
        FilledLeaves(a.t, f.byIp[r.ip].iface, f.subnet, r.ip, name, i);
      } else if mac != "" && OwnerOf(a.t, mac).Some? {
        FilledLeaves(a.t, OwnerOf(a.t, mac).value, f.subnet, r.ip, name, i);
      } else {
        CreatedLeaves(a.t, f, mac, r.ip, i);
      }
    }
  }

  lemma FilledLeaves(t: Tables, j: int, subnet: int, ip: string, name: string, i: int)
    requires i in t.ifaces && i != j
    ensures LeftAlone(t, Filled(t, j, name), i) && LeftAlone(t, Filled(Moved(t, j, subnet, ip), j, name), i)
  {
  }

  lemma CreatedLeaves(t: Tables, f: Frame, mac: string, ip: string, i: int)
    requires WellFormed(t) && i in t.ifaces
    ensures LeftAlone(t, Created(t, f, mac, ip), i)
  {
  }

  lemma StaysNew(t: Tables, v: Tables, u: Tables, i: int, subnet: int, ip: string, resolved: string)
    requires IsNewAt(t, v, i, subnet, None, ip, resolved) && LeftAlone(v, u, i)
    ensures IsNewAt(t, u, i, subnet, None, ip, resolved)
  {
    var r :| r in v.rows && r.iface == i;
    assert r in u.rows;
  }

  lemma NewStayNew(t: Tables, a: Acc, f: Frame, done: seq<Result>, r: Result, m: map<nat, int>)
    requires WellFormed(a.t) && Indexes(f, t) && AreNew(t, a.t, f, done, m)
    ensures AreNew(t, SweepOne(a, f, r).t, f, done + [r], m)
  {
    forall k | k in m
      ensures IsNewAt(t, SweepOne(a, f, r).t, m[k], f.subnet, None, done[k].ip, NameAt(f.names, done[k].ip))
    {
      AnswerLeavesUnnamed(t, a, f, r, m[k]);
      StaysNew(t, a.t, SweepOne(a, f, r).t, m[k], f.subnet, done[k].ip, NameAt(f.names, done[k].ip));
    }
  }

  lemma UnnamedIdle(t: Tables, a: Acc, f: Frame, done: seq<Result>, r: Result, m: map<nat, int>)
    requires Indexes(f, t) && UnnamedInv(t, a.t, f, done, m) && !IsUnnamed(f, r)
    ensures UnnamedInv(t, SweepOne(a, f, r).t, f, done + [r], m)
  {
    StepKeepsWellFormed(a, f, r);
    IdleKeeps(a, f, r);
    NewStayNew(t, a, f, done, r, m);
    TallyMore(f, done, r, m, 0);
  }

  /** An answer with an ARP entry or a row makes no interface without a MAC. */
  lemma IdleKeeps(a: Acc, f: Frame, r: Result)
    requires WellFormed(a.t)
    ensures var u := SweepOne(a, f, r).t;
            && a.t.nextId <= u.nextId
            && (forall i :: i in a.t.ifaces ==> i in u.ifaces && u.ifaces[i].mac == a.t.ifaces[i].mac)
            && (forall d :: d in a.t.devices ==> d in u.devices)
            && (!IsUnnamed(f, r) ==> forall i :: i in u.ifaces && u.ifaces[i].mac.None? ==> i in a.t.ifaces)
  {
    if r.alive && !r.failed {
      var mac := MacAt(f.arp, r.ip);
      if r.ip in f.byIp && !MacConflict(f.byIp[r.ip].mac, mac) {
        assert SweepOne(a, f, r).t.ifaces.Keys == a.t.ifaces.Keys;
      }
    }
  }

  lemma UnnamedMade(t: Tables, a: Acc, f: Frame, r: Result)
    requires WellFormed(a.t) && IsUnnamed(f, r)
    requires (forall i :: i in t.ifaces ==> i in a.t.ifaces) && (forall d :: d in t.devices ==> d in a.t.devices)
    ensures var u, i := SweepOne(a, f, r).t, a.t.nextId + 1;
            && i !in a.t.ifaces && IsNewAt(t, u, i, f.subnet, None, r.ip, NameAt(f.names, r.ip))
            && forall j :: j in u.ifaces && j != i ==> j in a.t.ifaces && u.ifaces[j] == a.t.ifaces[j]
  {
    CreatedIsNew(a.t, f, "", r.ip);
    assert SweepOne(a, f, r).t == Created(a.t, f, "", r.ip);
  }

  lemma AreNewMore(t: Tables, u: Tables, f: Frame, done: seq<Result>, m: map<nat, int>, n: nat, i: int)
    requires AreNew(t, u, f, done, m) && n < |done|
    requires IsNewAt(t, u, i, f.subnet, None, done[n].ip, NameAt(f.names, done[n].ip))
    ensures AreNew(t, u, f, done, m[n := i])
  {
  }

  lemma OneMoreUnnamed(t: Tables, v: Tables, u: Tables, f: Frame, done: seq<Result>, r: Result, m: map<nat, int>,
                       i: int)
    requires UnnamedInv(t, v, f, done, m) && IsUnnamed(f, r) && WellFormed(u) && v.nextId <= u.nextId
    requires (forall j :: j in v.ifaces ==> j in u.ifaces) && (forall d :: d in v.devices ==> d in u.devices)
    requires AreNew(t, u, f, done + [r], m) && IsNewAt(t, u, i, f.subnet, None, r.ip, NameAt(f.names, r.ip))
    requires i !in v.ifaces && forall j :: j in u.ifaces && j != i ==> j in v.ifaces && u.ifaces[j] == v.ifaces[j]
    ensures UnnamedInv(t, u, f, done + [r], m[|done| := i])
  {
    TallyMore(f, done, r, m, i);
    assert forall k :: k in m ==> m[k] in v.ifaces;
    CoversMore(t, v, u, m, |done|, i);
    AreNewMore(t, u, f, done + [r], m, |done|, i);
  }

  lemma UnnamedMore(t: Tables, a: Acc, f: Frame, done: seq<Result>, r: Result, m: map<nat, int>)
    requires Indexes(f, t) && UnnamedInv(t, a.t, f, done, m) && IsUnnamed(f, r)
    ensures UnnamedInv(t, SweepOne(a, f, r).t, f, done + [r], m[|done| := a.t.nextId + 1])
  {
    StepKeepsWellFormed(a, f, r);
    IdleKeeps(a, f, r);
    NewStayNew(t, a, f, done, r, m);
    UnnamedMade(t, a, f, r);
    OneMoreUnnamed(t, a.t, SweepOne(a, f, r).t, f, done, r, m, a.t.nextId + 1);
  }

  lemma {:induction false} UnnamedAll(t: Tables, f: Frame, results: seq<Result>) returns (m: map<nat, int>)
    requires WellFormed(t) && Indexes(f, t)
    ensures UnnamedInv(t, SweepAll(Acc(t, {}, {}, {}), f, results).t, f, results, m)
  {
    m := map[];
    if results != [] {
      var done, last := results[..|results| - 1], results[|results| - 1];
      assert results == done + [last];
      m := UnnamedAll(t, f, done);
      var a := SweepAll(Acc(t, {}, {}, {}), f, done);
      if IsUnnamed(f, last) {
        UnnamedMore(t, a, f, done, last, m);
        m := m[|done| := a.t.nextId + 1];
      } else {
        UnnamedIdle(t, a, f, done, last, m);
      }
    }
  }

  lemma {:induction false} ByIpCovers(known: seq<Known>, ip: string)
    ensures ip in ByIp(known) <==> exists k :: k in known && k.ip == ip
  {
    if known != [] {
      var init, last := known[..|known| - 1], known[|known| - 1];
      assert known == init + [last];
      assert forall k :: k in known <==> k in init || k == last;
      ByIpCovers(init, ip);
    }
  }

  lemma IndexCovers(t: Tables, listing: seq<Assignment>, subnet: int, ip: string)
    requires WellFormed(t) && ListsSubnet(listing, t, subnet)
    ensures ip in ByIp(Join(t, listing)) <==> exists r :: r in t.rows && r.subnet == subnet && r.ip == ip
  {
    var known := Join(t, listing);
    ByIpCovers(known, ip);
    if r :| r in t.rows && r.subnet == subnet && r.ip == ip {
      var n :| 0 <= n < |listing| && listing[n] == r;
      assert known[n] in known;
    }
    if k :| k in known && k.ip == ip {
      var n :| 0 <= n < |known| && known[n] == k;
      assert listing[n] in listing;
    }
  }

  /** Each answer from an address with neither ARP entry nor row makes one device,
      with one interface without a MAC and one row at the address; and a sweep
      makes no other interface without a MAC. */
  lemma UnnamedNewcomers(t: Tables, subnet: int, arp: map<string, string>, names: map<string, string>,
                         results: seq<Result>, u: Tables, missed: seq<int>) returns (m: map<nat, int>)
    requires WellFormed(t) && Swept(t, subnet, arp, names, results, u, missed)
    ensures forall k: nat :: k in m <==>
              (k < |results| && results[k].alive && !results[k].failed && MacAt(arp, results[k].ip) == ""
               && forall r :: r in t.rows && r.subnet == subnet ==> r.ip != results[k].ip)
    ensures forall k :: k in m ==> IsNewAt(t, u, m[k], subnet, None, results[k].ip, NameAt(names, results[k].ip))
    ensures forall k, l :: k in m && l in m && m[k] == m[l] ==> k == l
    ensures forall i :: i in u.ifaces && i !in t.ifaces && u.ifaces[i].mac.None? ==> exists k :: k in m && m[k] == i
  {
    var listing :| ListsSubnet(listing, t, subnet) && SweptVia(t, subnet, arp, names, results, listing, u, missed);
    var f := Frame(subnet, ByIp(Join(t, listing)), arp, names);
    ByIpIndexes(t, listing, f);
    m := UnnamedAll(t, f, results);
    forall ip
      ensures ip in f.byIp <==> exists r :: r in t.rows && r.subnet == subnet && r.ip == ip
    {
      IndexCovers(t, listing, subnet, ip);
    }
  }
}
