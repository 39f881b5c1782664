/** One sweep of a subnet: answers are matched to interfaces by address and MAC
    while the assignment table changes under a snapshot of it
    (internal/scan/engine.go, RunSubnet). */
module Sweep {
  import opened Options
  import opened TextOrder
  import opened Inventory

  /** A probe's outcome; `failed` when it could not be run at all. */
  datatype Result = Result(ip: string, alive: bool, failed: bool)

  /** A row of the subnet as the sweep first read it, with its interface's MAC. */
  datatype Known = Known(iface: int, ip: string, mac: Option<string>)

  function MacAt(arp: map<string, string>, ip: string): string {
    if ip in arp then arp[ip] else ""
  }

  /** Both MACs are there and they differ. */
  predicate MacConflict(known: Option<string>, arpMac: string) {
    known.Some? && known.value != "" && arpMac != "" && Lower(known.value) != Lower(arpMac)
  }

  function NameAt(names: map<string, string>, ip: string): string {
    if ip in names then names[ip] else ""
  }

  function WithColons(s: string): string {
    if s == [] then [] else [if s[0] == '-' then ':' else s[0]] + WithColons(s[1..])
  }

  /** Locally administered, not multicast, and not one of the prefixes that
      virtualization stacks hand out (internal/macaddr/macaddr.go, IsPrivate). */
  predicate IsPrivate(mac: string) {
    var m := Lower(WithColons(mac));
    && |m| >= 2 && m[0] in "0123456789abcdef" && m[1] in "26ae"
    && !("52:54:00" <= m) && !("02:42:" <= m)
  }

  /** The name a new device gets. */
  function NewName(mac: string, resolved: string, ip: string): string {
    if resolved != "" then resolved
    else if mac != "" then (if IsPrivate(mac) then "private-" else "unknown-") + mac
    else "unknown-" + ip
  }

  /** Everything the first loop keeps. */
  datatype Acc = Acc(t: Tables, alive: set<string>, seen: set<int>, unknown: set<string>)

  /** What does not change during the loop. */
  datatype Frame = Frame(subnet: int, byIp: map<string, Known>, arp: map<string, string>, names: map<string, string>)

  function Moved(t: Tables, i: int, subnet: int, ip: string): Tables {
    RemovedOthers(Inserted(t, i, subnet, ip, Dhcp, ""), i, subnet, ip)
  }

  function Created(t: Tables, f: Frame, mac: string, ip: string): Tables {
    var resolved := NameAt(f.names, ip);
    Discovered(t, DeviceRow(NewName(mac, resolved, ip), "scan"), if mac == "" then None else Some(mac),
               if resolved == "" then None else Some(resolved), f.subnet, ip, Dhcp)
  }

  /** One turn of the first loop. */
  ghost function SweepOne(a: Acc, f: Frame, r: Result): Acc {
    if r.failed then a.(unknown := a.unknown + {r.ip})
    else if !r.alive then a
    else
      var mac, name := MacAt(f.arp, r.ip), NameAt(f.names, r.ip);
      var b := a.(alive := a.alive + {r.ip});
      if r.ip in f.byIp && !MacConflict(f.byIp[r.ip].mac, mac) then
        var i := f.byIp[r.ip].iface;
        b.(t := Filled(b.t, i, name), seen := b.seen + {i})
      else if mac != "" && OwnerOf(b.t, mac).Some? then
        var i := OwnerOf(b.t, mac).value;
        b.(t := Filled(Moved(b.t, i, f.subnet, r.ip), i, name), seen := b.seen + {i})
      else b.(t := Created(b.t, f, mac, r.ip), seen := b.seen + {b.t.nextId + 1})
  }

  ghost function SweepAll(a: Acc, f: Frame, results: seq<Result>): Acc {
    if results == [] then a
    else SweepOne(SweepAll(a, f, results[..|results| - 1]), f, results[|results| - 1])
  }

  /** Whether the closing loop counts a miss for a known row. */
  predicate IsMissed(a: Acc, f: Frame, k: Known) {
    !(k.iface in a.seen || k.ip in a.unknown || (k.ip in a.alive && !MacConflict(k.mac, MacAt(f.arp, k.ip))))
  }

  function MissedRows(a: Acc, f: Frame, known: seq<Known>): seq<int> {
    if known == [] then []
    else
      var k := known[|known| - 1];
      MissedRows(a, f, known[..|known| - 1]) + if IsMissed(a, f, k) then [k.iface] else []
  }

  function ByIp(known: seq<Known>): map<string, Known> {
    if known == [] then map[]
    else var k := known[|known| - 1]; ByIp(known[..|known| - 1])[k.ip := k]
  }

  function Join(t: Tables, listing: seq<Assignment>): (known: seq<Known>)
    requires forall r :: r in listing ==> r.iface in t.ifaces
    ensures |known| == |listing|
    ensures forall i :: 0 <= i < |known| ==>
        known[i] == Known(listing[i].iface, listing[i].ip, t.ifaces[listing[i].iface].mac)
  {
    seq(|listing|,
        i requires 0 <= i < |listing| => Known(listing[i].iface, listing[i].ip, t.ifaces[listing[i].iface].mac))
  }

  /** The subnet's rows, each once, in any order. */
  ghost predicate ListsSubnet(listing: seq<Assignment>, t: Tables, subnet: int) {
    && (forall r :: r in listing <==> r in t.rows && r.subnet == subnet)
    && (forall i, j :: 0 <= i < j < |listing| ==> listing[i] != listing[j])
  }

  ghost predicate Swept(t: Tables, subnet: int, arp: map<string, string>, names: map<string, string>,
                        results: seq<Result>, u: Tables, missed: seq<int>)
    requires WellFormed(t)
  {
    exists listing :: ListsSubnet(listing, t, subnet) && SweptVia(t, subnet, arp, names, results, listing, u, missed)
  }

  ghost predicate SweptVia(t: Tables, subnet: int, arp: map<string, string>, names: map<string, string>,
                           results: seq<Result>, listing: seq<Assignment>, u: Tables, missed: seq<int>)
    requires WellFormed(t) && ListsSubnet(listing, t, subnet)
  {
    var known := Join(t, listing);
    var f := Frame(subnet, ByIp(known), arp, names);
    var a := SweepAll(Acc(t, {}, {}, {}), f, results);
    u == a.t && missed == MissedRows(a, f, known)
  }

  /** The sweep itself: the tables it leaves, and the interfaces it calls
      MarkMissed for, once per known row. */
  class Engine {
    const store: Store

    constructor (store: Store)
      ensures this.store == store
    {
      this.store := store;
    }

    method ListSubnetIfaceIPs(subnet: int) returns (known: seq<Known>, ghost listing: seq<Assignment>)
      requires WellFormed(store.tables)
      ensures ListsSubnet(listing, store.tables, subnet)
      ensures known == Join(store.tables, listing)
    {
      var rest := set r | r in store.tables.rows && r.subnet == subnet;
      var rows: seq<Assignment> := [];
      while rest != {}
        invariant rest <= store.tables.rows && forall r :: r in rest ==> r.subnet == subnet
        invariant forall r :: r in rows <==> r in store.tables.rows && r.subnet == subnet && r !in rest
        invariant forall i, j :: 0 <= i < j < |rows| ==> rows[i] != rows[j]
      {
        var r :| r in rest;
        rows, rest := rows + [r], rest - {r};
      }
      listing := rows;
      known := Join(store.tables, rows);
    }

    method FillHostname(i: int, name: string)
      modifies store
      ensures store.tables == Filled(old(store.tables), i, name)
    {
      if name == "" {
        return;
      }
      store.SetIfaceHostnameIfEmpty(i, name);
    }

    method CreateUnknown(f: Frame, mac: string, ip: string) returns (iface: int)
      modifies store
      ensures store.tables == Created(old(store.tables), f, mac, ip)
      ensures iface == old(store.tables).nextId + 1
    {
      var resolved := NameAt(f.names, ip);
      var _, made := store.CreateDiscoveredDevice(
        DeviceRow(NewName(mac, resolved, ip), "scan"), if mac == "" then None else Some(mac),
        if resolved == "" then None else Some(resolved), f.subnet, ip, Dhcp);
      iface := made;
    }

    method Answer(f: Frame, r: Result, ghost a: Acc) returns (seen: int)
      requires !r.failed && r.alive && MacsUnique(store.tables) && a.t == store.tables
      modifies store
      ensures var b := SweepOne(a, f, r);
              store.tables == b.t && b.seen == a.seen + {seen} && b.alive == a.alive + {r.ip} && b.unknown == a.unknown
    {
      var mac := MacAt(f.arp, r.ip);
      if r.ip in f.byIp && !MacConflict(f.byIp[r.ip].mac, mac) {
        seen := f.byIp[r.ip].iface;
        FillHostname(seen, NameAt(f.names, r.ip));
        return;
      }
      if mac != "" {
        var owner := store.FindIfaceByMAC(mac);
        if owner.Some? {
          seen := owner.value;
          store.AssignIP(seen, f.subnet, r.ip, Dhcp, "");
          store.RemoveIfaceIPsInSubnetExcept(seen, f.subnet, r.ip);
          FillHostname(seen, NameAt(f.names, r.ip));
          return;
        }
      }
      seen := CreateUnknown(f, mac, r.ip);
    }

    method IndexByIp(known: seq<Known>) returns (byIp: map<string, Known>)
      ensures byIp == ByIp(known)
    {
      byIp := map[];
      for n := 0 to |known|
        invariant byIp == ByIp(known[..n])
      {
        assert known[..n + 1][..n] == known[..n];
        byIp := byIp[known[n].ip := known[n]];
      }
      assert known[..|known|] == known;
    }

    /** The first loop. */
    method TakeAnswers(f: Frame, results: seq<Result>, ghost a0: Acc)
        returns (alive: set<string>, seen: set<int>, unknown: set<string>)
      requires WellFormed(store.tables) && a0 == Acc(store.tables, {}, {}, {})
      modifies store
      ensures SweepAll(a0, f, results) == Acc(store.tables, alive, seen, unknown)
    {
      alive, seen, unknown := {}, {}, {};
      for n := 0 to |results|
        invariant SweepAll(a0, f, results[..n]) == Acc(store.tables, alive, seen, unknown)
        invariant WellFormed(store.tables)
      {
        assert results[..n + 1][..n] == results[..n];
        var r := results[n];
        ghost var a := SweepAll(a0, f, results[..n]);
        StepKeepsWellFormed(a, f, r);
        if r.failed {
          unknown := unknown + {r.ip};
          continue;
        }
        if !r.alive {
          continue;
        }
        alive := alive + {r.ip};
        var i := Answer(f, r, a);
        seen := seen + {i};
      }
      assert results[..|results|] == results;
    }

    /** The closing loop. */
    method CountMisses(f: Frame, a: Acc, known: seq<Known>) returns (missed: seq<int>)
      ensures missed == MissedRows(a, f, known)
    {
      missed := [];
      for n := 0 to |known|
        invariant missed == MissedRows(a, f, known[..n])
      {
        assert known[..n + 1][..n] == known[..n];
        var k := known[n];
        if k.iface in a.seen || k.ip in a.unknown || (k.ip in a.alive && !MacConflict(k.mac, MacAt(f.arp, k.ip))) {
          continue;
        }
        missed := missed + [k.iface];
      }
      assert known[..|known|] == known;
    }

    method RunSubnet(subnet: int, results: seq<Result>, arp: map<string, string>, names: map<string, string>)
      returns (missed: seq<int>)
      requires WellFormed(store.tables)
      modifies store
      ensures Swept(old(store.tables), subnet, arp, names, results, store.tables, missed)
    {
      ghost var start := store.tables;
      var known, listing := ListSubnetIfaceIPs(subnet);
      var byIp := IndexByIp(known);
      var f := Frame(subnet, byIp, arp, names);
      var alive, seen, unknown := TakeAnswers(f, results, Acc(start, {}, {}, {}));
      missed := CountMisses(f, Acc(store.tables, alive, seen, unknown), known);
      assert SweptVia(start, subnet, arp, names, results, listing, store.tables, missed);
    }
  }

  // ---- What one answer changes

  lemma StepKeepsWellFormed(a: Acc, f: Frame, r: Result)
    requires WellFormed(a.t)
    ensures WellFormed(SweepOne(a, f, r).t)
  {
    var mac := MacAt(f.arp, r.ip);
    if !r.failed && r.alive && !(r.ip in f.byIp && !MacConflict(f.byIp[r.ip].mac, mac)) {
      if mac == "" || OwnerOf(a.t, mac).None? {
        CreatedIsWellFormed(a.t, f, mac, r.ip);
      }
    }
  }

  lemma CreatedIsWellFormed(t: Tables, f: Frame, mac: string, ip: string)
    requires WellFormed(t) && (mac == "" || OwnerOf(t, mac).None?)
    ensures WellFormed(Created(t, f, mac, ip))
  {
    var u := Created(t, f, mac, ip);
    forall i, j | i in u.ifaces && j in u.ifaces && u.ifaces[i].mac.Some? && u.ifaces[i].mac == u.ifaces[j].mac
      ensures i == j
    {
      assert mac != "" ==> !Owns(t, i, mac) && !Owns(t, j, mac);
    }
  }

  /** The interface has the address and no other DHCP one in the subnet. */
  ghost predicate Holds(t: Tables, i: int, subnet: int, ip: string) {
    && IsAssigned(t, i, subnet, ip)
    && forall r :: r in t.rows && r.iface == i && r.subnet == subnet && r.kind == Dhcp ==> r.ip == ip
  }

  /** From t to u only the owner of one MAC changes, being created if need be. */
  ghost predicate Turn(t: Tables, u: Tables, i: int, mac: string) {
    && WellFormed(u) && Owns(u, i, mac)
    && (forall j :: j in t.ifaces ==> j in u.ifaces && u.ifaces[j].mac == t.ifaces[j].mac)
    && (forall j :: j in u.ifaces && j != i ==> j in t.ifaces)
    && (forall r: Assignment :: r.iface != i ==> (r in t.rows <==> r in u.rows))
  }

  lemma MovedTurn(t: Tables, f: Frame, i: int, mac: string, ip: string, name: string)
    requires WellFormed(t) && Owns(t, i, mac)
    ensures var u := Filled(Moved(t, i, f.subnet, ip), i, name); Turn(t, u, i, mac) && Holds(u, i, f.subnet, ip)
  {
    var u := Moved(t, i, f.subnet, ip);
    assert Assignment(t.nextId, i, f.subnet, ip, Dhcp, "") in u.rows;
  }

  lemma CreatedTurn(t: Tables, f: Frame, mac: string, ip: string)
    requires WellFormed(t) && OwnerOf(t, mac).None? && mac != ""
    ensures Turn(t, Created(t, f, mac, ip), t.nextId + 1, mac)
    ensures Holds(Created(t, f, mac, ip), t.nextId + 1, f.subnet, ip)
  {
    CreatedIsWellFormed(t, f, mac, ip);
    assert Assignment(t.nextId + 2, t.nextId + 1, f.subnet, ip, Dhcp, "") in Created(t, f, mac, ip).rows;
  }

  // ---- The whole sweep

  predicate Answers(r: Result) {
    r.alive && !r.failed
  }

  ghost predicate HasAnswered(f: Frame, results: seq<Result>, mac: string) {
    exists r :: r in results && Answers(r) && MacAt(f.arp, r.ip) == mac
  }

  /** Every answering address has an ARP entry in canonical form. */
  ghost predicate Resolved(arp: map<string, string>, results: seq<Result>) {
    forall r :: r in results && Answers(r) ==> IsCanonical(Some(MacAt(arp, r.ip)))
  }

  /** So has every answering address, and no MAC answers at two places. */
  ghost predicate Distinct(arp: map<string, string>, results: seq<Result>) {
    && Resolved(arp, results)
    && (forall i, j :: 0 <= i < j < |results| && Answers(results[i]) && Answers(results[j]) ==>
          MacAt(arp, results[i].ip) != MacAt(arp, results[j].ip))
  }

  /** Interfaces with an address in the subnet have a canonical MAC. */
  ghost predicate Named(t: Tables, subnet: int) {
    forall r :: r in t.rows && r.subnet == subnet ==> r.iface in t.ifaces && IsCanonical(t.ifaces[r.iface].mac)
  }

  /** They have one, and just one address there. */
  ghost predicate Identified(t: Tables, subnet: int) {
    && Named(t, subnet)
    && (forall r, s :: r in t.rows && s in t.rows && r.subnet == subnet && s.subnet == subnet && r.iface == s.iface ==>
          r.ip == s.ip)
  }

  predicate IsCanonical(mac: Option<string>) {
    mac.Some? && mac.value != "" && Lower(mac.value) == mac.value
  }

  /** The by-address index holds rows of the table the sweep started from. */
  ghost predicate Indexes(f: Frame, t: Tables) {
    forall ip :: ip in f.byIp ==>
      IsAssigned(t, f.byIp[ip].iface, f.subnet, ip) && f.byIp[ip].iface in t.ifaces
      && f.byIp[ip].mac == t.ifaces[f.byIp[ip].iface].mac
  }

  lemma {:induction false} ByIpHasRows(known: seq<Known>, ip: string)
    requires ip in ByIp(known)
    ensures ByIp(known)[ip] in known && ByIp(known)[ip].ip == ip
  {
    var k := known[|known| - 1];
    if k.ip != ip {
      ByIpHasRows(known[..|known| - 1], ip);
    }
  }

  lemma ByIpIndexes(t: Tables, listing: seq<Assignment>, f: Frame)
    requires WellFormed(t) && ListsSubnet(listing, t, f.subnet)
    requires f.byIp == ByIp(Join(t, listing))
    ensures Indexes(f, t)
  {
    var known := Join(t, listing);
    forall ip | ip in f.byIp
      ensures IsAssigned(t, f.byIp[ip].iface, f.subnet, ip) && f.byIp[ip].iface in t.ifaces
      ensures f.byIp[ip].iface in t.ifaces ==> f.byIp[ip].mac == t.ifaces[f.byIp[ip].iface].mac
    {
      ByIpHasRows(known, ip);
      var n :| 0 <= n < |known| && known[n] == f.byIp[ip];
      assert listing[n] in listing;
    }
  }

  /** The owner of the MAC holds the address and counts as seen. */
  ghost predicate Credited(a: Acc, subnet: int, mac: string, ip: string) {
    OwnerOf(a.t, mac).Some? && Holds(a.t, OwnerOf(a.t, mac).value, subnet, ip) && OwnerOf(a.t, mac).value in a.seen
  }

  /** What holds after any part of the answers: those are credited, and all
      other interfaces are as they were and unseen. */
  ghost predicate Inv(t0: Tables, a: Acc, f: Frame, results: seq<Result>) {
    && WellFormed(a.t)
    && (forall r :: r in results && Answers(r) ==> Credited(a, f.subnet, MacAt(f.arp, r.ip), r.ip))
    && (forall j :: j in t0.ifaces ==> j in a.t.ifaces && a.t.ifaces[j].mac == t0.ifaces[j].mac)
    && (forall j :: j in a.t.ifaces && !IsAnswering(a.t, f, results, j) ==> j in t0.ifaces && j !in a.seen)
    && (forall r: Assignment :: r.iface in t0.ifaces && !IsAnswering(t0, f, results, r.iface) ==>
        (r in t0.rows <==> r in a.t.rows))
  }

  ghost predicate IsAnswering(t: Tables, f: Frame, results: seq<Result>, i: int) {
    i in t.ifaces && t.ifaces[i].mac.Some? && HasAnswered(f, results, t.ifaces[i].mac.value)
  }

  /** Whichever branch an answer takes, it is a turn of its MAC's owner. */
  lemma AnswerIsTurn(t0: Tables, a: Acc, f: Frame, done: seq<Result>, r: Result, mac: string) returns (i: int)
    requires WellFormed(t0) && Identified(t0, f.subnet) && Indexes(f, t0) && Inv(t0, a, f, done)
    requires Answers(r) && mac == MacAt(f.arp, r.ip) && mac != "" && Lower(mac) == mac
    requires !HasAnswered(f, done, mac)
    ensures Turn(a.t, SweepOne(a, f, r).t, i, mac) && Holds(SweepOne(a, f, r).t, i, f.subnet, r.ip)
    ensures SweepOne(a, f, r).seen == a.seen + {i}
  {
    if r.ip in f.byIp && !MacConflict(f.byIp[r.ip].mac, mac) {
      i := f.byIp[r.ip].iface;
      KnownHolds(t0, a, f, done, r.ip, mac);
      NamedTurn(a.t, f, i, mac, r.ip, NameAt(f.names, r.ip));
    } else {
      i := StrangerTurn(a, f, r, mac);
    }
  }

  lemma NamedTurn(t: Tables, f: Frame, i: int, mac: string, ip: string, name: string)
    requires WellFormed(t) && Owns(t, i, mac) && Holds(t, i, f.subnet, ip)
    ensures Turn(t, Filled(t, i, name), i, mac) && Holds(Filled(t, i, name), i, f.subnet, ip)
  {
  }

  lemma StrangerTurn(a: Acc, f: Frame, r: Result, mac: string) returns (i: int)
    requires WellFormed(a.t) && Answers(r) && mac == MacAt(f.arp, r.ip) && mac != ""
    requires !(r.ip in f.byIp && !MacConflict(f.byIp[r.ip].mac, mac))
    ensures Turn(a.t, SweepOne(a, f, r).t, i, mac) && Holds(SweepOne(a, f, r).t, i, f.subnet, r.ip)
    ensures SweepOne(a, f, r).seen == a.seen + {i}
  {
    if OwnerOf(a.t, mac).Some? {
      i := OwnerOf(a.t, mac).value;
      MovedTurn(a.t, f, i, mac, r.ip, NameAt(f.names, r.ip));
    } else {
      i := a.t.nextId + 1;
      CreatedTurn(a.t, f, mac, r.ip);
    }
  }

  lemma KnownHolds(t0: Tables, a: Acc, f: Frame, done: seq<Result>, ip: string, mac: string)
    requires WellFormed(t0) && Identified(t0, f.subnet) && Indexes(f, t0) && Inv(t0, a, f, done)
    requires ip in f.byIp && !MacConflict(f.byIp[ip].mac, mac)
    requires mac != "" && Lower(mac) == mac && !HasAnswered(f, done, mac)
    ensures Owns(a.t, f.byIp[ip].iface, mac) && Holds(a.t, f.byIp[ip].iface, f.subnet, ip)
  {
    var i := f.byIp[ip].iface;
    assert IsAssigned(t0, i, f.subnet, ip);
    assert t0.ifaces[i].mac == Some(mac);
    assert !IsAnswering(t0, f, done, i);
    assert forall r: Assignment :: r.iface == i ==> (r in t0.rows <==> r in a.t.rows);
    var r :| r in t0.rows && r.iface == i && r.subnet == f.subnet && r.ip == ip;
    assert r in a.t.rows;
  }

  lemma TurnKeepsCredit(a: Acc, b: Acc, subnet: int, i: int, mac: string, other: string, ip: string)
    requires WellFormed(a.t) && Turn(a.t, b.t, i, mac) && b.seen == a.seen + {i}
    requires Credited(a, subnet, other, ip) && other != mac
    ensures Credited(b, subnet, other, ip)
  {
    var j := OwnerOf(a.t, other).value;
    assert Owns(a.t, j, other) && Owns(b.t, j, other) && j != i;
    OwnerIs(b.t, j, other);
    var r :| r in a.t.rows && r.iface == j && r.subnet == subnet && r.ip == ip;
    assert r in b.t.rows;
  }

  lemma AnsweredNow(f: Frame, done: seq<Result>, r: Result, mac: string)
    ensures HasAnswered(f, done + [r], mac) <==> HasAnswered(f, done, mac) || (Answers(r) && MacAt(f.arp, r.ip) == mac)
  {
    assert forall q :: q in done + [r] <==> q in done || q == r;
  }

  lemma InvStep(t0: Tables, a: Acc, f: Frame, done: seq<Result>, r: Result)
    requires WellFormed(t0) && Identified(t0, f.subnet) && Indexes(f, t0) && Inv(t0, a, f, done)
    requires Distinct(f.arp, done + [r])
    ensures Inv(t0, SweepOne(a, f, r), f, done + [r])
  {
    forall mac {
      AnsweredNow(f, done, r, mac);
    }
    assert forall q :: q in done + [r] <==> q in done || q == r;
    if Answers(r) {
      InvAnswered(t0, a, f, done, r, MacAt(f.arp, r.ip));
    }
  }

  lemma InvAnswered(t0: Tables, a: Acc, f: Frame, done: seq<Result>, r: Result, mac: string)
    requires WellFormed(t0) && Identified(t0, f.subnet) && Indexes(f, t0) && Inv(t0, a, f, done)
    requires Distinct(f.arp, done + [r]) && Answers(r) && mac == MacAt(f.arp, r.ip)
    ensures Inv(t0, SweepOne(a, f, r), f, done + [r])
  {
    NotYetAnswered(f, done, r);
    assert r in done + [r];
    var i := AnswerIsTurn(t0, a, f, done, r, mac);
    var b := SweepOne(a, f, r);
    forall m {
      AnsweredNow(f, done, r, m);
    }
    forall q | q in done + [r] && Answers(q)
      ensures Credited(b, f.subnet, MacAt(f.arp, q.ip), q.ip)
    {
      if q in done {
        assert HasAnswered(f, done, MacAt(f.arp, q.ip));
        TurnKeepsCredit(a, b, f.subnet, i, mac, MacAt(f.arp, q.ip), q.ip);
      } else {
        OwnerIs(b.t, i, mac);
      }
    }
    TurnKeepsOthers(t0, a, b, f, done, r, i, mac);
  }

  lemma NotYetAnswered(f: Frame, done: seq<Result>, r: Result)
    requires Distinct(f.arp, done + [r]) && Answers(r)
    ensures !HasAnswered(f, done, MacAt(f.arp, r.ip))
  {
    var all := done + [r];
    forall q | q in done && Answers(q)
      ensures MacAt(f.arp, q.ip) != MacAt(f.arp, r.ip)
    {
      var n :| 0 <= n < |done| && done[n] == q;
      assert all[n] == q && all[|done|] == r;
    }
  }

  lemma TurnKeepsOthers(t0: Tables, a: Acc, b: Acc, f: Frame, done: seq<Result>, r: Result, i: int, mac: string)
    requires WellFormed(t0) && Inv(t0, a, f, done) && Turn(a.t, b.t, i, mac) && b.seen == a.seen + {i}
    requires Answers(r) && mac == MacAt(f.arp, r.ip)
    requires forall m :: HasAnswered(f, done + [r], m) <==> HasAnswered(f, done, m) || m == mac
    ensures forall j :: j in t0.ifaces ==> j in b.t.ifaces && b.t.ifaces[j].mac == t0.ifaces[j].mac
    ensures forall j :: j in b.t.ifaces && !IsAnswering(b.t, f, done + [r], j) ==> j in t0.ifaces && j !in b.seen
    ensures forall q: Assignment :: q.iface in t0.ifaces && !IsAnswering(t0, f, done + [r], q.iface) ==>
              (q in t0.rows <==> q in b.t.rows)
  {
    forall j | j in b.t.ifaces && !IsAnswering(b.t, f, done + [r], j)
      ensures j in t0.ifaces && j !in b.seen
    {
      assert j != i && j in a.t.ifaces && !IsAnswering(a.t, f, done, j);
    }
    forall q: Assignment | q.iface in t0.ifaces && !IsAnswering(t0, f, done + [r], q.iface)
      ensures q in t0.rows <==> q in b.t.rows
    {
      assert !IsAnswering(t0, f, done, q.iface) && q.iface != i;
    }
  }

  lemma {:induction false} SweepKeepsInv(t0: Tables, f: Frame, results: seq<Result>)
    requires WellFormed(t0) && Identified(t0, f.subnet) && Indexes(f, t0) && Distinct(f.arp, results)
    ensures Inv(t0, SweepAll(Acc(t0, {}, {}, {}), f, results), f, results)
  {
    if results != [] {
      var done := results[..|results| - 1];
      assert results == done + [results[|results| - 1]];
      SweepKeepsInv(t0, f, done);
      InvStep(t0, SweepAll(Acc(t0, {}, {}, {}), f, done), f, done, results[|results| - 1]);
    }
  }

  lemma {:induction false} MissedAre(a: Acc, f: Frame, known: seq<Known>, i: int)
    ensures i in MissedRows(a, f, known) <==> exists k :: k in known && k.iface == i && IsMissed(a, f, k)
  {
    if known != [] {
      var done, last := known[..|known| - 1], known[|known| - 1];
      assert known == done + [last];
      assert forall q :: q in known <==> q in done || q == last;
      MissedAre(a, f, done, i);
    }
  }

  /** Every answering MAC ends with one interface, which holds the address it
      answered at and no other DHCP address in the subnet, and which is not missed. */
  lemma AnsweringMacsHold(t: Tables, subnet: int, arp: map<string, string>, names: map<string, string>,
                          results: seq<Result>, u: Tables, missed: seq<int>, r: Result) returns (i: int)
    requires WellFormed(t) && Identified(t, subnet) && Distinct(arp, results)
    requires Swept(t, subnet, arp, names, results, u, missed)
    requires r in results && Answers(r)
    ensures Owns(u, i, MacAt(arp, r.ip)) && forall j :: Owns(u, j, MacAt(arp, r.ip)) ==> j == i
    ensures Holds(u, i, subnet, r.ip)
    ensures i !in missed
  {
    var listing :| ListsSubnet(listing, t, subnet) && SweptVia(t, subnet, arp, names, results, listing, u, missed);
    var f := Frame(subnet, ByIp(Join(t, listing)), arp, names);
    var a := SweepAll(Acc(t, {}, {}, {}), f, results);
    ByIpIndexes(t, listing, f);
    SweepKeepsInv(t, f, results);
    assert Credited(a, subnet, MacAt(arp, r.ip), r.ip);
    i := OwnerOf(u, MacAt(arp, r.ip)).value;
    MissedAre(a, f, Join(t, listing), i);
  }
}
