/** What merging reservations and leases leaves in the inventory, told from the
    entries and the tables before (internal/leases/leases.go, Apply). */
module LeaseOutcome {
  import opened Options
  import opened Inventory
  import opened Leases

  // ---- Hostnames

  predicate Carries(op: Op, mac: string) {
    (op.Assign? || op.Enrich?) && op.entry.mac == mac
  }

  function NameIn(op: Op, mac: string): string {
    if Carries(op, mac) then op.entry.hostname else ""
  }

  /** The first name the operations give the MAC, "" if none does. */
  function FirstName(ops: seq<Op>, mac: string): string {
    if ops == [] then ""
    else
      var before := FirstName(ops[..|ops| - 1], mac);
      if before != "" then before else NameIn(ops[|ops| - 1], mac)
  }

  lemma StepNames(t: Tables, op: Op, source: string, u: Tables, i: int, mac: string)
    requires WellFormed(t) && Step(t, op, source, u) && Owns(t, i, mac)
    ensures Owns(u, i, mac) && u.ifaces[i].hostname == Offered(t.ifaces[i].hostname, NameIn(op, mac))
  {
    OwnerIs(t, i, mac);
    if op.Assign? {
      MergedNames(t, op.subnet, op.entry, op.kind, source, u, i, mac);
    }
  }

  lemma FilledNames(t: Tables, v: Tables, j: int, e: Entry, i: int, mac: string)
    requires v.ifaces == t.ifaces && MacsUnique(t) && Owns(t, j, e.mac) && Owns(t, i, mac)
    ensures var u := Filled(v, j, e.hostname);
            Owns(u, i, mac)
            && u.ifaces[i].hostname == Offered(t.ifaces[i].hostname, if e.mac == mac then e.hostname else "")
  {
    assert i == j <==> e.mac == mac;
  }

  lemma NewIfaceNames(t: Tables, d: DeviceRow, e: Entry, i: int, mac: string)
    requires WellFormed(t) && OwnerOf(t, e.mac).None? && Owns(t, i, mac)
    ensures var v := WithIface(t, d, Some(e.mac), Present(e.hostname));
            Owns(v, i, mac) && v.ifaces[i] == t.ifaces[i] && e.mac != mac
  {
  }

  lemma MergedNames(t: Tables, subnet: int, e: Entry, kind: Kind, source: string, u: Tables, i: int, mac: string)
    requires WellFormed(t) && Merged(t, subnet, e, kind, source, u) && Owns(t, i, mac)
    ensures Owns(u, i, mac)
    ensures u.ifaces[i].hostname == Offered(t.ifaces[i].hostname, if e.mac == mac then e.hostname else "")
  {
    if OwnerOf(t, e.mac).Some? {
      var j := OwnerOf(t, e.mac).value;
      var v :| Assigned(t, j, subnet, e.ip, kind, source, v) && u == Filled(v, j, e.hostname);
      AssignedKeepsIfaces(t, j, subnet, e.ip, kind, source, v);
      FilledNames(t, v, j, e, i, mac);
    } else {
      var v := WithIface(t, NewDevice(e, source), Some(e.mac), Present(e.hostname));
      NewIfaceNames(t, NewDevice(e, source), e, i, mac);
      AssignedKeepsIfaces(v, t.nextId + 1, subnet, e.ip, kind, source, u);
    }
  }

  lemma AssignedKeepsIfaces(t: Tables, i: int, subnet: int, ip: string, kind: Kind, source: string, u: Tables)
    requires Assigned(t, i, subnet, ip, kind, source, u)
    ensures u.ifaces == t.ifaces
  {
  }

  lemma {:induction false} RunNames(states: seq<Tables>, ops: seq<Op>, source: string, n: nat, m: nat,
                                    i: int, mac: string)
    requires Run(states, ops, source) && WellFormed(states[0]) && n <= m <= |ops| && Owns(states[n], i, mac)
    ensures Owns(states[m], i, mac)
    ensures states[m].ifaces[i].hostname == Offered(states[n].ifaces[i].hostname, FirstName(ops[n..m], mac))
    decreases m
  {
    if n < m {
      RunNames(states, ops, source, n, m - 1, i, mac);
      RunKeepsWellFormed(states, ops, source, m - 1);
      assert Follows(states, ops, source, m - 1);
      StepNames(states[m - 1], ops[m - 1], source, states[m], i, mac);
      assert ops[n..m][..m - n - 1] == ops[n..m - 1];
    }
  }

  /** The device a new MAC gets: named by the entry or after source and MAC. */
  predicate IsNewcomer(t: Tables, u: Tables, i: int, e: Entry, source: string) {
    && i !in t.ifaces && i in u.ifaces && u.ifaces[i].mac == Some(e.mac)
    && u.ifaces[i].hostname == Offered(None, e.hostname)
    && u.ifaces[i].device !in t.devices && u.ifaces[i].device in u.devices
    && u.devices[u.ifaces[i].device]
         == DeviceRow(if e.hostname != "" then e.hostname else source + "-" + e.mac, source)
  }

  lemma StepCreates(t: Tables, op: Op, source: string, u: Tables) returns (i: int)
    requires WellFormed(t) && Step(t, op, source, u) && op.Assign? && !Knows(t, op.entry.mac)
    ensures IsNewcomer(t, u, i, op.entry, source)
  {
    var e := op.entry;
    i := t.nextId + 1;
    var v := WithIface(t, NewDevice(e, source), Some(e.mac), Present(e.hostname));
    WithIfaceIsWellFormed(t, NewDevice(e, source), e.mac, Present(e.hostname));
    AssignedRows(v, i, op.subnet, e.ip, op.kind, source, u);
  }

  lemma StepKeepsDevices(t: Tables, op: Op, source: string, u: Tables)
    requires WellFormed(t) && Step(t, op, source, u)
    ensures forall d :: d in t.devices ==> d in u.devices && u.devices[d] == t.devices[d]
  {
    if op.Assign? {
      var e := op.entry;
      if OwnerOf(t, e.mac).Some? {
        var j := OwnerOf(t, e.mac).value;
        var v :| Assigned(t, j, op.subnet, e.ip, op.kind, source, v) && u == Filled(v, j, e.hostname);
        AssignedKeepsDevices(t, j, op.subnet, e.ip, op.kind, source, v);
      } else {
        var v := WithIface(t, NewDevice(e, source), Some(e.mac), Present(e.hostname));
        AssignedKeepsDevices(v, t.nextId + 1, op.subnet, e.ip, op.kind, source, u);
      }
    }
  }

  lemma {:induction false} RunKeepsDevices(states: seq<Tables>, ops: seq<Op>, source: string, n: nat, m: nat)
    requires Run(states, ops, source) && WellFormed(states[0]) && n <= m <= |ops|
    ensures forall d :: d in states[n].devices ==>
        d in states[m].devices && states[m].devices[d] == states[n].devices[d]
    decreases m
  {
    if n < m {
      RunKeepsDevices(states, ops, source, n, m - 1);
      RunKeepsWellFormed(states, ops, source, m - 1);
      assert Follows(states, ops, source, m - 1);
      StepKeepsDevices(states[m - 1], ops[m - 1], source, states[m]);
    }
  }

  // ---- The entries of a run

  /** Entry n of the reservations and leases together assigns its address: it has
      a subnet, and is not a lease of an address that is reserved. */
  predicate Assigns(fixed: seq<Entry>, dynamic: seq<Entry>, place: string -> Option<int>, n: nat)
    requires n < |fixed| + |dynamic|
  {
    && place((fixed + dynamic)[n].ip).Some?
    && (n >= |fixed| ==> forall k :: 0 <= k < |fixed| ==> fixed[k].ip != dynamic[n - |fixed|].ip)
  }

  /** The first name that the entries inside a subnet give the MAC. */
  function FirstGiven(entries: seq<Entry>, place: string -> Option<int>, mac: string): string {
    if entries == [] then ""
    else
      var before, e := FirstGiven(entries[..|entries| - 1], place, mac), entries[|entries| - 1];
      if before != "" then before else if e.mac == mac && place(e.ip).Some? then e.hostname else ""
  }

  lemma ReservedPairs(fixed: seq<Entry>, place: string -> Option<int>, s: int, ip: string)
    requires place(ip) == Some(s)
    ensures (s, ip) in ClaimedBy(ReservationOps(fixed, place)) <==> exists k :: 0 <= k < |fixed| && fixed[k].ip == ip
  {
    var ops := ReservationOps(fixed, place);
    if k :| 0 <= k < |fixed| && fixed[k].ip == ip {
      assert ops[k].Assign? && (ops[k].subnet, ops[k].entry.ip) == (s, ip);
    }
  }

  /** What the code makes of each entry. */
  lemma OpOf(fixed: seq<Entry>, dynamic: seq<Entry>, place: string -> Option<int>, n: nat)
    requires n < |fixed| + |dynamic|
    ensures |Plan(fixed, dynamic, place)| == |fixed| + |dynamic|
    ensures var op, e := Plan(fixed, dynamic, place)[n], (fixed + dynamic)[n];
            && (op.Assign? <==> Assigns(fixed, dynamic, place, n))
            && (op.Assign? ==> Some(op.subnet) == place(e.ip) && op.kind == if n < |fixed| then Static else Dhcp)
            && (op.Assign? || op.Enrich? <==> place(e.ip).Some?)
            && (op.Assign? || op.Enrich? ==> op.entry == e)
  {
    if n >= |fixed| {
      var e := dynamic[n - |fixed|];
      if place(e.ip).Some? {
        ReservedPairs(fixed, place, place(e.ip).value, e.ip);
      }
    }
  }

  lemma {:induction false} NamesOfEntries(fixed: seq<Entry>, dynamic: seq<Entry>, place: string -> Option<int>,
                                          n: nat, m: nat, mac: string)
    requires n <= m <= |fixed| + |dynamic|
    ensures |Plan(fixed, dynamic, place)| == |fixed| + |dynamic|
    ensures FirstName(Plan(fixed, dynamic, place)[n..m], mac) == FirstGiven((fixed + dynamic)[n..m], place, mac)
    decreases m
  {
    var ops, entries := Plan(fixed, dynamic, place), fixed + dynamic;
    if n < m {
      NamesOfEntries(fixed, dynamic, place, n, m - 1, mac);
      OpOf(fixed, dynamic, place, m - 1);
      assert ops[n..m][..m - n - 1] == ops[n..m - 1] && entries[n..m][..m - n - 1] == entries[n..m - 1];
    }
  }

  /** A run of Apply from t to u. */
  ghost predicate Applied(fixed: seq<Entry>, dynamic: seq<Entry>, place: string -> Option<int>, source: string,
                          states: seq<Tables>, t: Tables, u: Tables) {
    WellFormed(t) && Ran(states, Plan(fixed, dynamic, place), source, t, u)
  }

  /** An interface the run found keeps a hostname of its own, and otherwise gets
      the first one that a reservation or lease of its MAC gives. */
  lemma KnownHostname(fixed: seq<Entry>, dynamic: seq<Entry>, place: string -> Option<int>, source: string,
                      states: seq<Tables>, t: Tables, u: Tables, i: int, mac: string)
    requires Applied(fixed, dynamic, place, source, states, t, u) && Owns(t, i, mac)
    ensures Owns(u, i, mac)
    ensures u.ifaces[i].hostname == Offered(t.ifaces[i].hostname, FirstGiven(fixed + dynamic, place, mac))
  {
    var ops, n := Plan(fixed, dynamic, place), |fixed| + |dynamic|;
    NamesOfEntries(fixed, dynamic, place, 0, n, mac);
    assert ops[0..n] == ops && (fixed + dynamic)[0..n] == fixed + dynamic;
    RunNames(states, ops, source, 0, n, i, mac);
  }

  /** An interface whose MAC was not known comes from the first entry that assigns
      it an address, and has the first hostname given from there on. */
  lemma NewHostname(fixed: seq<Entry>, dynamic: seq<Entry>, place: string -> Option<int>, source: string,
                    states: seq<Tables>, t: Tables, u: Tables, n: nat) returns (i: int)
    requires Applied(fixed, dynamic, place, source, states, t, u)
    requires n < |fixed| + |dynamic| && Assigns(fixed, dynamic, place, n) && !Knows(t, (fixed + dynamic)[n].mac)
    requires forall k: nat :: k < n && Assigns(fixed, dynamic, place, k) ==>
               (fixed + dynamic)[k].mac != (fixed + dynamic)[n].mac
    ensures var e := (fixed + dynamic)[n];
            && i !in t.ifaces && Owns(u, i, e.mac)
            && u.ifaces[i].hostname == Offered(None, FirstGiven((fixed + dynamic)[n..], place, e.mac))
            && u.ifaces[i].device !in t.devices && u.ifaces[i].device in u.devices
            && u.devices[u.ifaces[i].device]
                 == DeviceRow(if e.hostname != "" then e.hostname else source + "-" + e.mac, source)
  {
    var ops, all, e := Plan(fixed, dynamic, place), fixed + dynamic, (fixed + dynamic)[n];
    OpOf(fixed, dynamic, place, n);
    FirstTime(fixed, dynamic, place, source, states, t, n);
    i := EntryCreates(states, ops, source, n);
    NewcomerLasts(states, ops, source, n, i, e);
    NamesOfEntries(fixed, dynamic, place, n, |all|, e.mac);
    assert ops[n..|all|] == ops[n..] && all[n..|all|] == all[n..];
  }

  /** An entry for a MAC not known so far makes a device and interface that the run did not start with. */
  lemma EntryCreates(states: seq<Tables>, ops: seq<Op>, source: string, n: nat) returns (i: int)
    requires Run(states, ops, source) && WellFormed(states[0]) && n < |ops| && ops[n].Assign?
    requires !Knows(states[n], ops[n].entry.mac)
    ensures IsNewcomer(states[n], states[n + 1], i, ops[n].entry, source)
    ensures i !in states[0].ifaces && states[n + 1].ifaces[i].device !in states[0].devices
  {
    assert Follows(states, ops, source, n);
    RunKeepsWellFormed(states, ops, source, n);
    i := StepCreates(states[n], ops[n], source, states[n + 1]);
    RunRespectsTables(states, ops, source, 0, n);
    RunKeepsDevices(states, ops, source, 0, n);
  }

  lemma FirstTime(fixed: seq<Entry>, dynamic: seq<Entry>, place: string -> Option<int>, source: string,
                  states: seq<Tables>, t: Tables, n: nat)
    requires WellFormed(t) && Run(states, Plan(fixed, dynamic, place), source) && states[0] == t
    requires n < |fixed| + |dynamic| && |Plan(fixed, dynamic, place)| == |fixed| + |dynamic|
    requires !Knows(t, (fixed + dynamic)[n].mac)
    requires forall k: nat :: k < n && Assigns(fixed, dynamic, place, k) ==>
               (fixed + dynamic)[k].mac != (fixed + dynamic)[n].mac
    ensures !Knows(states[n], (fixed + dynamic)[n].mac)
  {
    var ops, mac := Plan(fixed, dynamic, place), (fixed + dynamic)[n].mac;
    RunLearns(states, ops, source, n, mac);
    forall k | 0 <= k < n && ops[k].Assign?
      ensures ops[k].entry.mac != mac
    {
      OpOf(fixed, dynamic, place, k);
    }
  }

  /** What a step created is still there at the end, with the first name given since. */
  lemma NewcomerLasts(states: seq<Tables>, ops: seq<Op>, source: string, n: nat, i: int, e: Entry)
    requires Run(states, ops, source) && WellFormed(states[0]) && n < |ops|
    requires ops[n].Assign? && ops[n].entry == e && IsNewcomer(states[n], states[n + 1], i, e, source)
    ensures var u := states[|ops|];
            && Owns(u, i, e.mac) && u.ifaces[i].hostname == Offered(None, FirstName(ops[n..], e.mac))
            && u.ifaces[i].device == states[n + 1].ifaces[i].device && u.ifaces[i].device in u.devices
            && u.devices[u.ifaces[i].device] == states[n + 1].devices[states[n + 1].ifaces[i].device]
  {
    RunNames(states, ops, source, n + 1, |ops|, i, e.mac);
    RunRespectsTables(states, ops, source, n + 1, |ops|);
    RunKeepsDevices(states, ops, source, n + 1, |ops|);
    FirstNameSplits(ops[n], ops[n + 1..], e.mac);
    assert ops[n..] == [ops[n]] + ops[n + 1..] && ops[n + 1..|ops|] == ops[n + 1..];
  }

  lemma {:induction false} FirstNameSplits(op: Op, rest: seq<Op>, mac: string)
    ensures FirstName([op] + rest, mac) == if NameIn(op, mac) != "" then NameIn(op, mac) else FirstName(rest, mac)
  {
    if rest == [] {
      assert [op] + rest == [op] && [op][..0] == [];
    } else {
      var init := rest[..|rest| - 1];
      assert ([op] + rest)[..|rest|] == [op] + init;
      FirstNameSplits(op, init, mac);
    }
  }

  // ---- Addresses

  /** Every reservation inside a subnet is held static by its MAC at the end. */
  lemma ReservationsAreHeld(fixed: seq<Entry>, dynamic: seq<Entry>, place: string -> Option<int>, source: string,
                            states: seq<Tables>, t: Tables, u: Tables, n: nat) returns (r: Assignment)
    requires Applied(fixed, dynamic, place, source, states, t, u) && n < |fixed| && place(fixed[n].ip).Some?
    ensures r in u.rows && r.kind == Static && r.subnet == place(fixed[n].ip).value && r.ip == fixed[n].ip
    ensures Owns(u, r.iface, fixed[n].mac)
  {
    OpOf(fixed, dynamic, place, n);
    r := ReservationHolds(states, Plan(fixed, dynamic, place), source, n);
  }

  /** A lease inside a subnet, of an address that is not reserved, is matched at the
      end, and still assigned unless a later lease moves its MAC or its address. */
  lemma LeasesAreHeld(fixed: seq<Entry>, dynamic: seq<Entry>, place: string -> Option<int>, source: string,
                      states: seq<Tables>, t: Tables, u: Tables, n: nat) returns (i: int)
    requires Applied(fixed, dynamic, place, source, states, t, u) && n < |dynamic| && place(dynamic[n].ip).Some?
    requires forall k :: 0 <= k < |fixed| ==> fixed[k].ip != dynamic[n].ip
    ensures Owns(u, i, dynamic[n].mac)
    ensures OneHolder(u, place(dynamic[n].ip).value, dynamic[n].ip) && OneAddress(u, i, place(dynamic[n].ip).value)
    ensures (forall k :: n < k < |dynamic| && place(dynamic[k].ip) == place(dynamic[n].ip) ==>
               (dynamic[k].mac == dynamic[n].mac <==> dynamic[k].ip == dynamic[n].ip))
            ==> IsAssigned(u, i, place(dynamic[n].ip).value, dynamic[n].ip)
  {
    var ops, m := Plan(fixed, dynamic, place), |fixed| + n;
    OpOf(fixed, dynamic, place, m);
    LeasesMatch(states, ops, source, m);
    i := OwnerOf(u, dynamic[n].mac).value;
    if forall k :: n < k < |dynamic| && place(dynamic[k].ip) == place(dynamic[n].ip) ==>
         (dynamic[k].mac == dynamic[n].mac <==> dynamic[k].ip == dynamic[n].ip)
    {
      forall k | m < k < |ops|
        ensures !Displaces(ops[k], dynamic[n].mac, ops[m].subnet, dynamic[n].ip)
      {
        OpOf(fixed, dynamic, place, k);
        assert (fixed + dynamic)[k] == dynamic[k - |fixed|];
      }
      LastEntryHolds(states, ops, source, m);
    }
  }

  /** The operation made this row: a new one with the run's label, or one that was there as DHCP. */
  predicate Made(t: Tables, op: Op, source: string, u: Tables, r: Assignment) {
    && op.Assign? && op.subnet == r.subnet && op.entry.ip == r.ip && op.kind == r.kind && Owns(u, r.iface, op.entry.mac)
    && (r.(kind := Dhcp) in t.rows || (r.id >= t.nextId && r.source == source))
  }

  lemma StepMakes(t: Tables, v: Tables, op: Op, source: string, u: Tables, r: Assignment)
    requires WellFormed(v) && Step(v, op, source, u) && t.nextId <= v.nextId && r in u.rows && r !in v.rows
    requires r.(kind := Dhcp) in v.rows && r.(kind := Dhcp) !in t.rows ==> r.id >= t.nextId && r.source == source
    ensures Made(t, op, source, u, r)
  {
    if op.Assign? {
      var i := MergedEffect(v, op.subnet, op.entry, op.kind, source, u);
    }
  }

  ghost predicate RowsMade(t: Tables, ops: seq<Op>, source: string, u: Tables) {
    forall r :: r in u.rows && r !in t.rows ==> exists k :: 0 <= k < |ops| && Made(t, ops[k], source, u, r)
  }

  lemma RowsMadeStep(t: Tables, ops: seq<Op>, source: string, v: Tables, op: Op, u: Tables)
    requires WellFormed(v) && Step(v, op, source, u) && t.nextId <= v.nextId && RowsMade(t, ops, source, v)
    ensures RowsMade(t, ops + [op], source, u)
  {
    StepRespects(v, op, source, u);
    var all := ops + [op];
    forall r | r in u.rows && r !in t.rows
      ensures exists k :: 0 <= k < |all| && Made(t, all[k], source, u, r)
    {
      if r in v.rows {
        var k :| 0 <= k < |ops| && Made(t, ops[k], source, v, r);
        assert Made(t, all[k], source, u, r);
      } else {
        StepMakes(t, v, op, source, u, r);
        assert Made(t, all[|ops|], source, u, r);
      }
    }
  }

  lemma {:induction false} RunMakes(states: seq<Tables>, ops: seq<Op>, source: string, n: nat)
    requires Run(states, ops, source) && WellFormed(states[0]) && n <= |ops|
    ensures RowsMade(states[0], ops[..n], source, states[n])
  {
    if n > 0 {
      RunMakes(states, ops, source, n - 1);
      RunKeepsWellFormed(states, ops, source, n - 1);
      RunRespectsTables(states, ops, source, 0, n - 1);
      assert Follows(states, ops, source, n - 1);
      RowsMadeStep(states[0], ops[..n - 1], source, states[n - 1], ops[n - 1], states[n]);
      assert ops[..n] == ops[..n - 1] + [ops[n - 1]];
    }
  }

  /** Every row the run added or turned static is an entry's: a reservation's if
      static, else a lease's of an address that is not reserved. */
  lemma RowsAreEntries(fixed: seq<Entry>, dynamic: seq<Entry>, place: string -> Option<int>, source: string,
                       states: seq<Tables>, t: Tables, u: Tables, r: Assignment) returns (n: nat)
    requires Applied(fixed, dynamic, place, source, states, t, u) && r in u.rows && r !in t.rows
    ensures n < |fixed| + |dynamic| && Assigns(fixed, dynamic, place, n) && (r.kind == Static <==> n < |fixed|)
    ensures var e := (fixed + dynamic)[n];
            Owns(u, r.iface, e.mac) && r.ip == e.ip && place(e.ip) == Some(r.subnet)
    ensures r.(kind := Dhcp) in t.rows || (r.id >= t.nextId && r.source == source)
  {
    var ops := Plan(fixed, dynamic, place);
    RunMakes(states, ops, source, |ops|);
    assert ops[..|ops|] == ops;
    var k :| 0 <= k < |ops| && Made(t, ops[k], source, u, r);
    n := k;
    OpOf(fixed, dynamic, place, n);
  }

  /** The operation takes the row away: a lease of the row's MAC elsewhere, or of its address to another MAC. */
  predicate Ends(op: Op, u: Tables, r: Assignment) {
    && op.Assign? && op.kind == Dhcp && op.subnet == r.subnet && r.iface in u.ifaces
    && (Owns(u, r.iface, op.entry.mac) <==> op.entry.ip != r.ip)
  }

  lemma AssignedDrops(t: Tables, i: int, subnet: int, ip: string, kind: Kind, source: string, u: Tables, r: Assignment)
    requires WellFormed(t) && i in t.ifaces && Assigned(t, i, subnet, ip, kind, source, u)
    requires r in t.rows && r !in u.rows && r.(kind := Static) !in u.rows
    ensures r.kind == Dhcp && kind == Dhcp && r.subnet == subnet && (r.iface == i <==> ip != r.ip)
  {
    var v :| Upserted(t, i, subnet, ip, kind, source, v) && u == if kind == Dhcp then Claimed(v, i, subnet, ip) else v;
    UpsertedRows(t, i, subnet, ip, kind, source, v);
  }

  lemma StepDrops(t: Tables, op: Op, source: string, u: Tables, r: Assignment)
    requires WellFormed(t) && Step(t, op, source, u) && r in t.rows && r !in u.rows && r.(kind := Static) !in u.rows
    ensures r.kind == Dhcp && Ends(op, u, r)
  {
    if op.Assign? {
      var e := op.entry;
      var _ := MergedEffect(t, op.subnet, e, op.kind, source, u);
      if OwnerOf(t, e.mac).Some? {
        var j := OwnerOf(t, e.mac).value;
        var v :| Assigned(t, j, op.subnet, e.ip, op.kind, source, v) && u == Filled(v, j, e.hostname);
        AssignedDrops(t, j, op.subnet, e.ip, op.kind, source, v, r);
        assert Owns(u, j, e.mac);
      } else {
        var v := WithIface(t, NewDevice(e, source), Some(e.mac), Present(e.hostname));
        WithIfaceIsWellFormed(t, NewDevice(e, source), e.mac, Present(e.hostname));
        AssignedDrops(v, t.nextId + 1, op.subnet, e.ip, op.kind, source, u, r);
        AssignedKeepsIfaces(v, t.nextId + 1, op.subnet, e.ip, op.kind, source, u);
        assert Owns(u, t.nextId + 1, e.mac);
      }
    }
  }

  lemma {:induction false} RunDrops(states: seq<Tables>, ops: seq<Op>, source: string, n: nat, r: Assignment)
    requires Run(states, ops, source) && WellFormed(states[0]) && n <= |ops| && r in states[0].rows
    requires r !in states[n].rows && r.(kind := Static) !in states[n].rows
    ensures r.kind == Dhcp && exists k :: 0 <= k < n && Ends(ops[k], states[n], r)
  {
    RunKeepsWellFormed(states, ops, source, n - 1);
    RunRespectsTables(states, ops, source, 0, n - 1);
    assert Follows(states, ops, source, n - 1);
    var v, u := states[n - 1], states[n];
    StepRespects(v, ops[n - 1], source, u);
    if r in v.rows {
      StepDrops(v, ops[n - 1], source, u, r);
    } else {
      RunDrops(states, ops, source, n - 1, r);
      var k :| 0 <= k < n - 1 && Ends(ops[k], v, r);
      assert Ends(ops[k], u, r);
    }
  }

  /** A row that a run takes away, rather than turn static, is a DHCP row that gave
      way to a lease: its MAC has another address there, or its address another MAC. */
  lemma RowsGiveWay(fixed: seq<Entry>, dynamic: seq<Entry>, place: string -> Option<int>, source: string,
                    states: seq<Tables>, t: Tables, u: Tables, r: Assignment) returns (n: nat)
    requires Applied(fixed, dynamic, place, source, states, t, u) && r in t.rows
    requires r !in u.rows && r.(kind := Static) !in u.rows
    ensures r.kind == Dhcp && n < |dynamic| && Assigns(fixed, dynamic, place, |fixed| + n)
    ensures place(dynamic[n].ip) == Some(r.subnet)
    ensures Owns(u, r.iface, dynamic[n].mac) <==> dynamic[n].ip != r.ip
  {
    var ops := Plan(fixed, dynamic, place);
    RunDrops(states, ops, source, |ops|, r);
    var k :| 0 <= k < |ops| && Ends(ops[k], states[|ops|], r);
    OpOf(fixed, dynamic, place, k);
    n := k - |fixed|;
    assert (fixed + dynamic)[k] == dynamic[n];
  }
}
