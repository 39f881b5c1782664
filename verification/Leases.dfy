/** Merging a DHCP server's reservations and leases into the inventory
    (internal/leases/leases.go). */
module Leases {
  import opened Options
  import opened Inventory

  datatype Entry = Entry(mac: string, ip: string, hostname: string)

  datatype Subnet = Subnet(id: int, cidr: string)

  /** What one entry amounts to once its subnet is known. */
  datatype Op = Skip | Enrich(entry: Entry) | Assign(subnet: int, entry: Entry, kind: Kind)

  /** Whether the address parses, the CIDR parses, and the prefix contains the address. */
  type Containment = (string, string) -> bool

  /** The first subnet that contains the address. */
  ghost predicate IsPlace(subnets: seq<Subnet>, contains: Containment, ip: string, place: Option<int>) {
    match place
    case None => forall n :: 0 <= n < |subnets| ==> !contains(subnets[n].cidr, ip)
    case Some(id) =>
      exists n :: 0 <= n < |subnets| && contains(subnets[n].cidr, ip) && subnets[n].id == id
                  && forall m :: 0 <= m < n ==> !contains(subnets[m].cidr, ip)
  }

  method SubnetFor(subnets: seq<Subnet>, contains: Containment, ip: string) returns (place: Option<int>)
    ensures IsPlace(subnets, contains, ip, place)
    ensures place == PlaceOf(subnets, contains, ip)
  {
    for n := 0 to |subnets|
      invariant forall m :: 0 <= m < n ==> !contains(subnets[m].cidr, ip)
      invariant PlaceOf(subnets, contains, ip) == PlaceOf(subnets[n..], contains, ip)
    {
      if contains(subnets[n].cidr, ip) {
        return Some(subnets[n].id);
      }
      assert subnets[n..][1..] == subnets[n + 1..];
    }
    return None;
  }

  function PlaceOf(subnets: seq<Subnet>, contains: Containment, ip: string): Option<int> {
    if subnets == [] then None
    else if contains(subnets[0].cidr, ip) then Some(subnets[0].id)
    else PlaceOf(subnets[1..], contains, ip)
  }

  /** Reservations come first and are always assigned. */
  function ReservationOps(entries: seq<Entry>, place: string -> Option<int>): (ops: seq<Op>)
    ensures |ops| == |entries|
    ensures forall n :: 0 <= n < |ops| ==>
      ops[n] == match place(entries[n].ip) { case None => Skip case Some(s) => Assign(s, entries[n], Static) }
  {
    seq(|entries|, n requires 0 <= n < |entries| =>
      match place(entries[n].ip) { case None => Skip case Some(s) => Assign(s, entries[n], Static) })
  }

  /** The (subnet, address) pairs a reservation assigned. */
  function ClaimedBy(ops: seq<Op>): (c: set<(int, string)>)
    ensures forall s, ip :: (s, ip) in c <==>
        exists n :: 0 <= n < |ops| && ops[n].Assign? && (ops[n].subnet, ops[n].entry.ip) == (s, ip)
  {
    set n | 0 <= n < |ops| && ops[n].Assign? :: (ops[n].subnet, ops[n].entry.ip)
  }

  function LeaseOp(e: Entry, place: string -> Option<int>, claimed: set<(int, string)>): Op {
    match place(e.ip)
    case None => Skip
    case Some(s) => if (s, e.ip) in claimed then Enrich(e) else Assign(s, e, Dhcp)
  }

  function LeaseOps(entries: seq<Entry>, place: string -> Option<int>, claimed: set<(int, string)>): (ops: seq<Op>)
    ensures |ops| == |entries|
    ensures forall n :: 0 <= n < |ops| ==> ops[n] == LeaseOp(entries[n], place, claimed)
  {
    seq(|entries|, n requires 0 <= n < |entries| => LeaseOp(entries[n], place, claimed))
  }

  function Plan(fixed: seq<Entry>, dynamic: seq<Entry>, place: string -> Option<int>): seq<Op> {
    var reserved := ReservationOps(fixed, place);
    reserved + LeaseOps(dynamic, place, ClaimedBy(reserved))
  }

  // ---- One entry

  ghost predicate Assigned(t: Tables, i: int, subnet: int, ip: string, kind: Kind, source: string, u: Tables) {
    exists v :: Upserted(t, i, subnet, ip, kind, source, v)
        && u == if kind == Dhcp then Claimed(v, i, subnet, ip) else v
  }

  function NewDevice(e: Entry, source: string): DeviceRow {
    DeviceRow(if e.hostname == "" then source + "-" + e.mac else e.hostname, source)
  }

  function Present(hostname: string): Option<string> {
    if hostname == "" then None else Some(hostname)
  }

  /** upsertByMAC. */
  ghost predicate Merged(t: Tables, subnet: int, e: Entry, kind: Kind, source: string, u: Tables) {
    if OwnerOf(t, e.mac).Some? then
      exists v :: Assigned(t, OwnerOf(t, e.mac).value, subnet, e.ip, kind, source, v)
                  && u == Filled(v, OwnerOf(t, e.mac).value, e.hostname)
    else
      Assigned(WithIface(t, NewDevice(e, source), Some(e.mac), Present(e.hostname)), t.nextId + 1, subnet, e.ip,
          kind, source, u)
  }

  ghost predicate Step(t: Tables, op: Op, source: string, u: Tables) {
    match op
    case Skip => u == t
    case Enrich(e) => u == if OwnerOf(t, e.mac).Some? then Filled(t, OwnerOf(t, e.mac).value, e.hostname) else t
    case Assign(s, e, kind) => Merged(t, s, e, kind, source, u)
  }

  /** The tables before the first entry and after each one. */
  ghost predicate Run(states: seq<Tables>, ops: seq<Op>, source: string) {
    && |states| == |ops| + 1
    && forall n :: 0 <= n < |ops| ==> Follows(states, ops, source, n)
  }

  ghost predicate Follows(states: seq<Tables>, ops: seq<Op>, source: string, n: int)
    requires |states| == |ops| + 1 && 0 <= n < |ops|
  {
    Step(states[n], ops[n], source, states[n + 1])
  }

  class Syncer {
    const store: Store
    const source: string

    constructor (store: Store, source: string)
      ensures this.store == store && this.source == source
    {
      this.store, this.source := store, source;
    }

    method Record(i: int, subnet: int, ip: string, kind: Kind)
      modifies store
      ensures Assigned(old(store.tables), i, subnet, ip, kind, source, store.tables)
    {
      store.UpsertIPAssignmentFrom(i, subnet, ip, kind, source);
      ghost var v := store.tables;
      if kind == Dhcp {
        store.ClaimDHCPLease(i, subnet, ip);
      }
      assert Upserted(old(store.tables), i, subnet, ip, kind, source, v);
    }

    method FillHostname(i: int, hostname: string)
      modifies store
      ensures store.tables == Filled(old(store.tables), i, hostname)
    {
      if hostname != "" {
        store.SetIfaceHostnameIfEmpty(i, hostname);
      }
    }

    method UpsertByMAC(e: Entry, subnet: int, kind: Kind) returns (created: bool)
      requires MacsUnique(store.tables)
      modifies store
      ensures Merged(old(store.tables), subnet, e, kind, source, store.tables)
      ensures created <==> OwnerOf(old(store.tables), e.mac).None?
    {
      var owner := store.FindIfaceByMAC(e.mac);
      if owner.Some? {
        Record(owner.value, subnet, e.ip, kind);
        FillHostname(owner.value, e.hostname);
        return false;
      }
      var _, i := store.CreateDeviceAndIface(NewDevice(e, source), Some(e.mac), Present(e.hostname));
      Record(i, subnet, e.ip, kind);
      return true;
    }

    method EnrichOnly(e: Entry)
      requires MacsUnique(store.tables)
      modifies store
      ensures Step(old(store.tables), Enrich(e), source, store.tables)
    {
      if e.hostname != "" {
        var owner := store.FindIfaceByMAC(e.mac);
        if owner.Some? {
          FillHostname(owner.value, e.hostname);
        }
      }
    }

    method Perform(op: Op) returns (created: nat)
      requires WellFormed(store.tables)
      modifies store
      ensures Step(old(store.tables), op, source, store.tables) && WellFormed(store.tables)
      ensures |store.tables.devices| == |old(store.tables).devices| + created
    {
      ghost var t := store.tables;
      created := 0;
      match op {
        case Skip =>
        case Enrich(e) => EnrichOnly(e);
        case Assign(s, e, kind) =>
          var c := UpsertByMAC(e, s, kind);
          created := if c then 1 else 0;
      }
      StepKeepsWellFormed(t, op, source, store.tables);
      StepCountsDevices(t, op, source, store.tables);
    }

    /** One turn of the first loop. */
    method Reserve(subnets: seq<Subnet>, contains: Containment, e: Entry) returns (op: Op, created: nat)
      requires WellFormed(store.tables)
      modifies store
      ensures op == match PlaceOf(subnets, contains, e.ip) { case None => Skip case Some(s) => Assign(s, e, Static) }
      ensures Step(old(store.tables), op, source, store.tables) && WellFormed(store.tables)
      ensures |store.tables.devices| == |old(store.tables).devices| + created
    {
      var s := SubnetFor(subnets, contains, e.ip);
      op := if s.None? then Skip else Assign(s.value, e, Static);
      created := Perform(op);
    }

    method ApplyReservations(subnets: seq<Subnet>, contains: Containment, fixed: seq<Entry>)
      returns (created: nat, claimed: set<(int, string)>, ghost states: seq<Tables>)
      requires WellFormed(store.tables)
      modifies store
      ensures Ran(states, ReservationOps(fixed, ip => PlaceOf(subnets, contains, ip)), source, old(store.tables),
          store.tables)
      ensures claimed == ClaimedBy(ReservationOps(fixed, ip => PlaceOf(subnets, contains, ip)))
      ensures WellFormed(store.tables) && |store.tables.devices| == |old(store.tables).devices| + created
    {
      ghost var ops := ReservationOps(fixed, ip => PlaceOf(subnets, contains, ip));
      created, claimed, states := 0, {}, [store.tables];
      for n := 0 to |fixed|
        invariant WellFormed(store.tables) && |store.tables.devices| == |old(store.tables).devices| + created
        invariant RanTo(states, ops, n, source, old(store.tables), store.tables) && claimed == ClaimedBy(ops[..n])
      {
        ghost var t := store.tables;
        var op, c := Reserve(subnets, contains, fixed[n]);
        RunGrows(states, ops, n, source, old(store.tables), t, store.tables);
        ClaimedGrows(ops, n);
        created, states := created + c, states + [store.tables];
        if op.Assign? {
          claimed := claimed + {(op.subnet, op.entry.ip)};
        }
      }
      assert ops[..|fixed|] == ops;
    }

    method ApplyLeases(subnets: seq<Subnet>, contains: Containment, dynamic: seq<Entry>, claimed: set<(int, string)>)
      returns (created: nat, ghost states: seq<Tables>)
      requires WellFormed(store.tables)
      modifies store
      ensures Ran(states, LeaseOps(dynamic, ip => PlaceOf(subnets, contains, ip), claimed), source,
          old(store.tables), store.tables)
      ensures |store.tables.devices| == |old(store.tables).devices| + created
    {
      ghost var ops := LeaseOps(dynamic, ip => PlaceOf(subnets, contains, ip), claimed);
      created, states := 0, [store.tables];
      for n := 0 to |dynamic|
        invariant WellFormed(store.tables) && |store.tables.devices| == |old(store.tables).devices| + created
        invariant RanTo(states, ops, n, source, old(store.tables), store.tables)
      {
        ghost var t := store.tables;
        var e := dynamic[n];
        var s := SubnetFor(subnets, contains, e.ip);
        var op := if s.None? then Skip else if (s.value, e.ip) in claimed then Enrich(e) else Assign(s.value, e, Dhcp);
        var c := Perform(op);
        RunGrows(states, ops, n, source, old(store.tables), t, store.tables);
        created, states := created + c, states + [store.tables];
      }
      assert ops[..|dynamic|] == ops;
    }

    method Apply(subnets: seq<Subnet>, contains: Containment, fixed: seq<Entry>, dynamic: seq<Entry>)
      returns (created: nat, ghost states: seq<Tables>)
      requires WellFormed(store.tables)
      modifies store
      ensures Ran(states, Plan(fixed, dynamic, ip => PlaceOf(subnets, contains, ip)), source, old(store.tables),
          store.tables)
      ensures |store.tables.devices| == |old(store.tables).devices| + created
    {
      ghost var place := ip => PlaceOf(subnets, contains, ip);
      var fromFixed, claimed, first := ApplyReservations(subnets, contains, fixed);
      var fromDynamic, second := ApplyLeases(subnets, contains, dynamic, claimed);
      RunsJoin(first, ReservationOps(fixed, place), second, LeaseOps(dynamic, place, claimed), source);
      created, states := fromFixed + fromDynamic, first + second[1..];
    }
  }

  /** A run from t to u. */
  ghost predicate Ran(states: seq<Tables>, ops: seq<Op>, source: string, t: Tables, u: Tables) {
    Run(states, ops, source) && states[0] == t && states[|states| - 1] == u
  }

  lemma RunsJoin(first: seq<Tables>, before: seq<Op>, second: seq<Tables>, after: seq<Op>, source: string)
    requires Run(first, before, source) && Run(second, after, source) && first[|first| - 1] == second[0]
    ensures Ran(first + second[1..], before + after, source, first[0], second[|second| - 1])
  {
    var all, ops := first + second[1..], before + after;
    forall n | 0 <= n < |ops|
      ensures Follows(all, ops, source, n)
    {
      if n >= |before| {
        var k := n - |before|;
        assert Follows(second, after, source, k);
        assert all[n] == second[k] && all[n + 1] == second[k + 1] && ops[n] == after[k];
      } else {
        assert Follows(first, before, source, n);
      }
    }
  }

  /** A run from t to u through the first n operations. */
  ghost predicate RanTo(states: seq<Tables>, ops: seq<Op>, n: nat, source: string, t: Tables, u: Tables) {
    n <= |ops| && Ran(states, ops[..n], source, t, u)
  }

  lemma RunGrows(states: seq<Tables>, ops: seq<Op>, n: nat, source: string, t: Tables, u: Tables, v: Tables)
    requires RanTo(states, ops, n, source, t, u) && n < |ops| && Step(u, ops[n], source, v)
    ensures RanTo(states + [v], ops, n + 1, source, t, v)
  {
    var all, done := states + [v], ops[..n + 1];
    forall m | 0 <= m < |done|
      ensures Follows(all, done, source, m)
    {
      if m < n {
        assert Follows(states, ops[..n], source, m);
      }
    }
  }

  lemma ClaimedGrows(ops: seq<Op>, n: nat)
    requires n < |ops|
    ensures ClaimedBy(ops[..n + 1]) == ClaimedBy(ops[..n])
            + if ops[n].Assign? then {(ops[n].subnet, ops[n].entry.ip)} else {}
  {
    var all, op := ops[..n + 1], ops[n];
    forall s, ip
      ensures (s, ip) in ClaimedBy(all) <==>
          (s, ip) in ClaimedBy(ops[..n]) || (op.Assign? && (op.subnet, op.entry.ip) == (s, ip))
    {
      assert all[n] == op && forall k :: 0 <= k < n ==> all[k] == ops[..n][k];
    }
  }

  lemma StepCountsDevices(t: Tables, op: Op, source: string, u: Tables)
    requires WellFormed(t) && Step(t, op, source, u)
    ensures |u.devices| == |t.devices| + if op.Assign? && OwnerOf(t, op.entry.mac).None? then 1 else 0
  {
    if op.Assign? {
      MergeCountsDevices(t, op.subnet, op.entry, op.kind, source, u);
    }
  }

  lemma MergeCountsDevices(t: Tables, subnet: int, e: Entry, kind: Kind, source: string, u: Tables)
    requires WellFormed(t) && Merged(t, subnet, e, kind, source, u)
    ensures |u.devices| == |t.devices| + if OwnerOf(t, e.mac).None? then 1 else 0
  {
    if OwnerOf(t, e.mac).Some? {
      var i := OwnerOf(t, e.mac).value;
      var v :| Assigned(t, i, subnet, e.ip, kind, source, v) && u == Filled(v, i, e.hostname);
      AssignedKeepsDevices(t, i, subnet, e.ip, kind, source, v);
    } else {
      var v := WithIface(t, NewDevice(e, source), Some(e.mac), Present(e.hostname));
      AssignedKeepsDevices(v, t.nextId + 1, subnet, e.ip, kind, source, u);
    }
  }

  lemma AssignedKeepsDevices(t: Tables, i: int, subnet: int, ip: string, kind: Kind, source: string, u: Tables)
    requires Assigned(t, i, subnet, ip, kind, source, u)
    ensures u.devices == t.devices
  {
  }

  // ---- What one entry changes

  /** The rows an assignment may drop, add, upgrade or keep. */
  ghost predicate RowsAssigned(t: Tables, u: Tables, i: int, subnet: int, ip: string, kind: Kind, source: string) {
    && (forall r :: r in t.rows && r.kind == Static ==> r in u.rows)
    && (forall r :: r in t.rows && !(r.subnet == subnet && (r.iface == i || r.ip == ip)) ==> r in u.rows)
    && (forall r :: r in u.rows ==> r in t.rows || (r.iface == i && r.subnet == subnet && r.ip == ip && r.kind == kind
                                                    && IsRowOf(t, r, source)))
    && (exists r :: r in u.rows && r.iface == i && r.subnet == subnet && r.ip == ip
                  && (kind == Static ==> r.kind == Static))
    && (kind == Static ==> forall r :: r in t.rows && r.kind == Dhcp ==> r in u.rows || r.(kind := Static) in u.rows)
    && (kind == Dhcp ==> forall r :: r in u.rows && r.subnet == subnet && r.kind == Dhcp ==>
        (r.iface == i <==> r.ip == ip))
  }

  /** A row that was there before as DHCP under the same id and label, or a new one with the run's label. */
  ghost predicate IsRowOf(t: Tables, r: Assignment, source: string) {
    r.(kind := Dhcp) in t.rows || (r.id >= t.nextId && r.source == source)
  }

  /** The rows an upsert may add, upgrade or keep. */
  ghost predicate RowsUpserted(t: Tables, v: Tables, i: int, subnet: int, ip: string, kind: Kind, source: string) {
    && (forall r :: r in t.rows && !(r.iface == i && r.subnet == subnet && r.ip == ip) ==> r in v.rows)
    && (forall r :: r in t.rows && r.kind == Static ==> r in v.rows)
    && (forall r :: r in t.rows ==> r in v.rows || (kind == Static && r.(kind := Static) in v.rows))
    && (forall r :: r in v.rows ==> r in t.rows || (r.iface == i && r.subnet == subnet && r.ip == ip && r.kind == kind
                                                    && IsRowOf(t, r, source)))
    && (exists r :: r in v.rows && r.iface == i && r.subnet == subnet && r.ip == ip
                  && (kind == Static ==> r.kind == Static))
  }

  lemma UpsertedRows(t: Tables, i: int, subnet: int, ip: string, kind: Kind, source: string, v: Tables)
    requires WellFormed(t) && i in t.ifaces && Upserted(t, i, subnet, ip, kind, source, v)
    ensures WellFormed(v) && v.ifaces == t.ifaces && v.devices == t.devices && t.nextId <= v.nextId
    ensures RowsUpserted(t, v, i, subnet, ip, kind, source)
  {
    if IsAssigned(t, i, subnet, ip) {
      var q :| q in t.rows && q.iface == i && q.subnet == subnet && q.ip == ip && v == Rekinded(t, q.id, kind);
      RekindedRows(t, q, kind, v);
      RekindedIsUpsert(t, q, kind, source, v);
    } else {
      InsertedIsUpsert(t, i, subnet, ip, kind, source);
    }
  }

  lemma InsertedIsUpsert(t: Tables, i: int, subnet: int, ip: string, kind: Kind, source: string)
    requires WellFormed(t) && i in t.ifaces
    ensures WellFormed(Inserted(t, i, subnet, ip, kind, source))
    ensures RowsUpserted(t, Inserted(t, i, subnet, ip, kind, source), i, subnet, ip, kind, source)
  {
    assert Assignment(t.nextId, i, subnet, ip, kind, source) in Inserted(t, i, subnet, ip, kind, source).rows;
  }

  lemma RekindedIsUpsert(t: Tables, q: Assignment, kind: Kind, source: string, v: Tables)
    requires q in t.rows
    requires forall r :: r in t.rows && r != q ==> r in v.rows
    requires (if q.kind == Static then q else q.(kind := kind)) in v.rows
    requires forall r :: r in v.rows ==>
        (r in t.rows && r != q) || r == if q.kind == Static then q else q.(kind := kind)
    ensures RowsUpserted(t, v, q.iface, q.subnet, q.ip, kind, source)
  {
    var r := if q.kind == Static then q else q.(kind := kind);
    assert r in t.rows || r.(kind := Dhcp) == q;
  }

  lemma RekindedRows(t: Tables, q: Assignment, kind: Kind, v: Tables)
    requires WellFormed(t) && q in t.rows && v == Rekinded(t, q.id, kind)
    ensures forall r :: r in t.rows && r != q ==> r in v.rows
    ensures (if q.kind == Static then q else q.(kind := kind)) in v.rows
    ensures forall r :: r in v.rows ==> (r in t.rows && r != q) || r == if q.kind == Static then q else q.(kind := kind)
    ensures WellFormed(v)
  {
    forall r | r in t.rows && r != q
      ensures r in v.rows
    {
      assert r.id != q.id;
    }
  }

  lemma ClaimedRows(v: Tables, i: int, subnet: int, ip: string, u: Tables)
    requires WellFormed(v) && u == Claimed(v, i, subnet, ip)
    ensures WellFormed(u) && u.ifaces == v.ifaces && u.devices == v.devices && u.nextId == v.nextId
    ensures forall r :: r in u.rows ==> r in v.rows
    ensures forall r :: r in v.rows && (r.kind == Static || r.subnet != subnet || (r.iface == i <==> r.ip == ip)) ==>
        r in u.rows
    ensures forall r :: r in u.rows && r.subnet == subnet && r.kind == Dhcp ==> (r.iface == i <==> r.ip == ip)
  {
  }

  lemma AssignedRows(t: Tables, i: int, subnet: int, ip: string, kind: Kind, source: string, u: Tables)
    requires WellFormed(t) && i in t.ifaces && Assigned(t, i, subnet, ip, kind, source, u)
    ensures WellFormed(u) && u.ifaces == t.ifaces && u.devices == t.devices && t.nextId <= u.nextId
    ensures RowsAssigned(t, u, i, subnet, ip, kind, source)
  {
    var v :| Upserted(t, i, subnet, ip, kind, source, v) && u == if kind == Dhcp then Claimed(v, i, subnet, ip) else v;
    UpsertedRows(t, i, subnet, ip, kind, source, v);
    if kind == Dhcp {
      ClaimedRows(v, i, subnet, ip, u);
    }
  }

  /** Interfaces keep their MACs and the hostnames they have. */
  ghost predicate IfacesKept(t: Tables, u: Tables) {
    forall j :: j in t.ifaces ==>
      j in u.ifaces && u.ifaces[j].mac == t.ifaces[j].mac && u.ifaces[j].device == t.ifaces[j].device
      && (t.ifaces[j].hostname.Some? && t.ifaces[j].hostname.value != "" ==>
          u.ifaces[j].hostname == t.ifaces[j].hostname)
  }

  /** The effect of an assignment on the tables: the MAC's owner i gets the address. */
  ghost predicate Effect(t: Tables, u: Tables, i: int, mac: string, subnet: int, ip: string, kind: Kind,
                         source: string) {
    && WellFormed(u) && t.nextId <= u.nextId && IfacesKept(t, u) && Owns(u, i, mac)
    && (forall j :: j in u.ifaces && j != i ==> j in t.ifaces)
    && RowsAssigned(t, u, i, subnet, ip, kind, source)
  }

  lemma WithIfaceIsWellFormed(t: Tables, d: DeviceRow, mac: string, hostname: Option<string>)
    requires WellFormed(t) && OwnerOf(t, mac).None?
    ensures WellFormed(WithIface(t, d, Some(mac), hostname))
  {
    var u := WithIface(t, d, Some(mac), hostname);
    forall i, j | i in u.ifaces && j in u.ifaces && u.ifaces[i].mac.Some? && u.ifaces[i].mac == u.ifaces[j].mac
      ensures i == j
    {
      assert !Owns(t, i, mac) && !Owns(t, j, mac);
    }
  }

  lemma MergedEffect(t: Tables, subnet: int, e: Entry, kind: Kind, source: string, u: Tables) returns (i: int)
    requires WellFormed(t) && Merged(t, subnet, e, kind, source, u)
    ensures Effect(t, u, i, e.mac, subnet, e.ip, kind, source)
  {
    if OwnerOf(t, e.mac).Some? {
      i := OwnerOf(t, e.mac).value;
      var v :| Assigned(t, i, subnet, e.ip, kind, source, v) && u == Filled(v, i, e.hostname);
      AssignedRows(t, i, subnet, e.ip, kind, source, v);
      FilledEffect(t, v, i, e, subnet, kind, source);
    } else {
      i := t.nextId + 1;
      var v := WithIface(t, NewDevice(e, source), Some(e.mac), Present(e.hostname));
      WithIfaceIsWellFormed(t, NewDevice(e, source), e.mac, Present(e.hostname));
      AssignedRows(v, i, subnet, e.ip, kind, source, u);
      NewIfaceEffect(t, u, NewDevice(e, source), e, subnet, kind, source);
    }
  }

  lemma FilledEffect(t: Tables, v: Tables, i: int, e: Entry, subnet: int, kind: Kind, source: string)
    requires Owns(t, i, e.mac) && WellFormed(v) && v.ifaces == t.ifaces && t.nextId <= v.nextId
    requires RowsAssigned(t, v, i, subnet, e.ip, kind, source)
    ensures Effect(t, Filled(v, i, e.hostname), i, e.mac, subnet, e.ip, kind, source)
  {
    var u := Filled(v, i, e.hostname);
    assert u.rows == v.rows && WellFormed(u) && IfacesKept(t, u);
    assert RowsAssigned(t, u, i, subnet, e.ip, kind, source);
  }

  lemma NewIfaceEffect(t: Tables, u: Tables, d: DeviceRow, e: Entry, subnet: int, kind: Kind, source: string)
    requires WellFormed(t) && WellFormed(u)
    requires var v := WithIface(t, d, Some(e.mac), Present(e.hostname));
             u.ifaces == v.ifaces && v.nextId <= u.nextId
             && RowsAssigned(v, u, t.nextId + 1, subnet, e.ip, kind, source)
    ensures Effect(t, u, t.nextId + 1, e.mac, subnet, e.ip, kind, source)
  {
    assert IfacesKept(t, u);
    assert RowsAssigned(t, u, t.nextId + 1, subnet, e.ip, kind, source);
  }

  lemma StepKeepsWellFormed(t: Tables, op: Op, source: string, u: Tables)
    requires WellFormed(t) && Step(t, op, source, u)
    ensures WellFormed(u)
  {
    if op.Assign? {
      var _ := MergedEffect(t, op.subnet, op.entry, op.kind, source, u);
    }
  }

  // ---- Whole runs

  lemma {:induction false} RunKeepsWellFormed(states: seq<Tables>, ops: seq<Op>, source: string, n: nat)
    requires Run(states, ops, source) && WellFormed(states[0]) && n <= |ops|
    ensures WellFormed(states[n])
  {
    if n > 0 {
      RunKeepsWellFormed(states, ops, source, n - 1);
      assert Follows(states, ops, source, n - 1);
      StepKeepsWellFormed(states[n - 1], ops[n - 1], source, states[n]);
    }
  }

  /** Nothing a person or an earlier run recorded is lost: static rows stay as
      they are, rows keep id, place and label and only ever turn static,
      non-empty hostnames stay, and only new rows carry the run's label. */
  ghost predicate Respects(t: Tables, u: Tables, source: string) {
    && t.nextId <= u.nextId && IfacesKept(t, u)
    && (forall r :: r in t.rows && r.kind == Static ==> r in u.rows)
    && (forall r :: r in u.rows ==> r in t.rows || IsRowOf(t, r, source))
  }

  lemma StepRespects(t: Tables, op: Op, source: string, u: Tables)
    requires WellFormed(t) && Step(t, op, source, u)
    ensures Respects(t, u, source)
  {
    if op.Assign? {
      var _ := MergedEffect(t, op.subnet, op.entry, op.kind, source, u);
    }
  }

  lemma RespectsChains(t: Tables, v: Tables, u: Tables, source: string)
    requires Respects(t, v, source) && Respects(v, u, source)
    ensures Respects(t, u, source)
  {
    forall r | r in u.rows
      ensures r in t.rows || IsRowOf(t, r, source)
    {
      if r !in v.rows && r.(kind := Dhcp) in v.rows && r.(kind := Dhcp) !in t.rows {
        assert IsRowOf(t, r.(kind := Dhcp), source);
      }
    }
  }

  lemma StepRespectsStill(t: Tables, v: Tables, op: Op, source: string, u: Tables)
    requires Respects(t, v, source) && WellFormed(v) && Step(v, op, source, u)
    ensures Respects(t, u, source)
  {
    StepRespects(v, op, source, u);
    RespectsChains(t, v, u, source);
  }

  lemma {:induction false} RunRespectsTables(states: seq<Tables>, ops: seq<Op>, source: string, n: nat, m: nat)
    requires Run(states, ops, source) && WellFormed(states[0]) && n <= m <= |ops|
    ensures Respects(states[n], states[m], source)
    decreases m
  {
    if n < m {
      RunRespectsTables(states, ops, source, n, m - 1);
      RunKeepsWellFormed(states, ops, source, m - 1);
      assert Follows(states, ops, source, m - 1);
      StepRespectsStill(states[n], states[m - 1], ops[m - 1], source, states[m]);
    }
  }

  predicate Leased(t: Tables, r: Assignment, subnet: int) {
    r in t.rows && r.subnet == subnet && r.kind == Dhcp
  }

  /** At most one interface claims the address by DHCP. */
  ghost predicate OneHolder(t: Tables, subnet: int, ip: string) {
    forall r, q :: Leased(t, r, subnet) && Leased(t, q, subnet) && r.ip == ip && q.ip == ip ==> r.iface == q.iface
  }

  /** All DHCP rows the interface has there are for one address. */
  ghost predicate OneAddress(t: Tables, i: int, subnet: int) {
    forall r, q :: Leased(t, r, subnet) && Leased(t, q, subnet) && r.iface == i && q.iface == i ==> r.ip == q.ip
  }

  lemma StepKeepsMatching(t: Tables, op: Op, source: string, u: Tables, subnet: int, ip: string, i: int)
    requires WellFormed(t) && Step(t, op, source, u) && i in t.ifaces
    ensures OneHolder(t, subnet, ip) ==> OneHolder(u, subnet, ip)
    ensures OneAddress(t, i, subnet) ==> OneAddress(u, i, subnet)
  {
    if op.Assign? {
      var _ := MergedEffect(t, op.subnet, op.entry, op.kind, source, u);
    }
  }

  /** A DHCP address and an interface that are at most each other's. */
  ghost predicate Matched(t: Tables, subnet: int, ip: string, i: int) {
    i in t.ifaces && OneHolder(t, subnet, ip) && OneAddress(t, i, subnet)
  }

  lemma StepKeepsMatched(t: Tables, op: Op, source: string, u: Tables, subnet: int, ip: string, i: int)
    requires WellFormed(t) && Step(t, op, source, u) && Matched(t, subnet, ip, i)
    ensures Matched(u, subnet, ip, i)
  {
    StepKeepsMatching(t, op, source, u, subnet, ip, i);
    StepRespects(t, op, source, u);
  }

  lemma {:induction false} MatchingLasts(states: seq<Tables>, ops: seq<Op>, source: string, n: nat, m: nat,
                                         subnet: int, ip: string, i: int)
    requires Run(states, ops, source) && WellFormed(states[0]) && n <= m <= |ops|
    requires Matched(states[n], subnet, ip, i)
    ensures Matched(states[m], subnet, ip, i)
    decreases m
  {
    if n < m {
      MatchingLasts(states, ops, source, n, m - 1, subnet, ip, i);
      RunKeepsWellFormed(states, ops, source, m - 1);
      assert Follows(states, ops, source, m - 1);
      StepKeepsMatched(states[m - 1], ops[m - 1], source, states[m], subnet, ip, i);
    }
  }

  /** After a run, the addresses its leases named are a partial matching: one
      DHCP holder for each, and one DHCP address in the subnet for each of their interfaces. */
  lemma LeasesMatch(states: seq<Tables>, ops: seq<Op>, source: string, n: nat)
    requires Run(states, ops, source) && WellFormed(states[0]) && n < |ops| && ops[n].Assign? && ops[n].kind == Dhcp
    ensures var u, op := states[|ops|], ops[n];
            && OneHolder(u, op.subnet, op.entry.ip)
            && OwnerOf(u, op.entry.mac).Some? && OneAddress(u, OwnerOf(u, op.entry.mac).value, op.subnet)
  {
    var op, u := ops[n], states[|ops|];
    RunKeepsWellFormed(states, ops, source, n);
    assert Follows(states, ops, source, n);
    var i := MergedEffect(states[n], op.subnet, op.entry, op.kind, source, states[n + 1]);
    MatchingLasts(states, ops, source, n + 1, |ops|, op.subnet, op.entry.ip, i);
    RunKeepsWellFormed(states, ops, source, |ops|);
    RunRespectsTables(states, ops, source, n + 1, |ops|);
    OwnerIs(u, i, op.entry.mac);
  }

  /** The operation is a lease that moves the MAC or hands on the address. */
  predicate Displaces(op: Op, mac: string, subnet: int, ip: string) {
    op.Assign? && op.kind == Dhcp && op.subnet == subnet && (op.entry.mac == mac) != (op.entry.ip == ip)
  }

  lemma StepKeepsAssignment(t: Tables, op: Op, source: string, u: Tables, i: int, mac: string, subnet: int, ip: string)
    requires WellFormed(t) && Step(t, op, source, u) && Owns(t, i, mac) && IsAssigned(t, i, subnet, ip)
    requires !Displaces(op, mac, subnet, ip)
    ensures IsAssigned(u, i, subnet, ip)
  {
    var r :| r in t.rows && r.iface == i && r.subnet == subnet && r.ip == ip;
    if op.Assign? {
      var j := MergedEffect(t, op.subnet, op.entry, op.kind, source, u);
      assert Owns(u, i, mac) && (j == i <==> op.entry.mac == mac);
      assert op.kind == Static ==> r in u.rows || r.(kind := Static) in u.rows;
    } else {
      assert r in u.rows;
    }
  }

  lemma {:induction false} AssignmentLasts(states: seq<Tables>, ops: seq<Op>, source: string, n: nat, m: nat,
                                           i: int, mac: string, subnet: int, ip: string)
    requires Run(states, ops, source) && WellFormed(states[0]) && n <= m <= |ops|
    requires Owns(states[n], i, mac) && IsAssigned(states[n], i, subnet, ip)
    requires forall k :: n <= k < m ==> !Displaces(ops[k], mac, subnet, ip)
    ensures Owns(states[m], i, mac) && IsAssigned(states[m], i, subnet, ip)
    decreases m
  {
    if n < m {
      AssignmentLasts(states, ops, source, n, m - 1, i, mac, subnet, ip);
      RunKeepsWellFormed(states, ops, source, m - 1);
      assert Follows(states, ops, source, m - 1);
      StepRespects(states[m - 1], ops[m - 1], source, states[m]);
      StepKeepsAssignment(states[m - 1], ops[m - 1], source, states[m], i, mac, subnet, ip);
    }
  }

  /** An entry that no later lease displaces, by moving its MAC or handing on
      its address, still has its assignment at the end. */
  lemma LastEntryHolds(states: seq<Tables>, ops: seq<Op>, source: string, n: nat)
    requires Run(states, ops, source) && WellFormed(states[0]) && n < |ops| && ops[n].Assign?
    requires forall k :: n < k < |ops| ==> !Displaces(ops[k], ops[n].entry.mac, ops[n].subnet, ops[n].entry.ip)
    ensures var u, op := states[|ops|], ops[n];
            OwnerOf(u, op.entry.mac).Some? && IsAssigned(u, OwnerOf(u, op.entry.mac).value, op.subnet, op.entry.ip)
  {
    var op, u := ops[n], states[|ops|];
    RunKeepsWellFormed(states, ops, source, n);
    assert Follows(states, ops, source, n);
    var i := MergedEffect(states[n], op.subnet, op.entry, op.kind, source, states[n + 1]);
    AssignmentLasts(states, ops, source, n + 1, |ops|, i, op.entry.mac, op.subnet, op.entry.ip);
    RunKeepsWellFormed(states, ops, source, |ops|);
    OwnerIs(u, i, op.entry.mac);
  }

  /** A reservation is static at the end, whatever leases follow it. */
  lemma ReservationHolds(states: seq<Tables>, ops: seq<Op>, source: string, n: nat) returns (r: Assignment)
    requires Run(states, ops, source) && WellFormed(states[0]) && n < |ops| && ops[n].Assign? && ops[n].kind == Static
    ensures r in states[|ops|].rows && r.kind == Static && r.subnet == ops[n].subnet && r.ip == ops[n].entry.ip
    ensures Owns(states[|ops|], r.iface, ops[n].entry.mac)
  {
    var op, u := ops[n], states[|ops|];
    RunKeepsWellFormed(states, ops, source, n);
    assert Follows(states, ops, source, n);
    var i := MergedEffect(states[n], op.subnet, op.entry, op.kind, source, states[n + 1]);
    r :| r in states[n + 1].rows && r.iface == i && r.subnet == op.subnet && r.ip == op.entry.ip && r.kind == Static;
    RunRespectsTables(states, ops, source, n + 1, |ops|);
  }

  /** A lease for an address reserved in the same run changes no row. */
  lemma ReservedAddressIsLeft(fixed: seq<Entry>, dynamic: seq<Entry>, place: string -> Option<int>, n: nat, m: nat,
                              t: Tables, source: string, u: Tables)
    requires n < |fixed| && m < |dynamic| && fixed[n].ip == dynamic[m].ip
    requires Step(t, Plan(fixed, dynamic, place)[|fixed| + m], source, u)
    ensures u.rows == t.rows && u.devices == t.devices
  {
    var reserved := ReservationOps(fixed, place);
    if place(fixed[n].ip).Some? {
      assert reserved[n].Assign?;
    }
    assert Plan(fixed, dynamic, place)[|fixed| + m] == LeaseOp(dynamic[m], place, ClaimedBy(reserved));
  }

  // ---- Devices created

  ghost function Knows(t: Tables, mac: string): (b: bool) {
    OwnerOf(t, mac).Some?
  }

  lemma StepLearns(t: Tables, op: Op, source: string, u: Tables, mac: string)
    requires WellFormed(t) && Step(t, op, source, u)
    ensures Knows(u, mac) <==> Knows(t, mac) || (op.Assign? && op.entry.mac == mac)
  {
    if op.Assign? {
      var i := MergedEffect(t, op.subnet, op.entry, op.kind, source, u);
      if Knows(u, mac) && mac != op.entry.mac {
        assert Owns(t, OwnerOf(u, mac).value, mac);
      }
      if Knows(t, mac) {
        assert Owns(u, OwnerOf(t, mac).value, mac);
      }
    } else {
      assert forall i :: Owns(t, i, mac) <==> Owns(u, i, mac);
    }
  }

  /** A run makes known exactly the MACs of the entries it assigned. */
  lemma {:induction false} RunLearns(states: seq<Tables>, ops: seq<Op>, source: string, n: nat, mac: string)
    requires Run(states, ops, source) && WellFormed(states[0]) && n <= |ops|
    ensures Knows(states[n], mac) <==>
              Knows(states[0], mac) || exists k :: 0 <= k < n && ops[k].Assign? && ops[k].entry.mac == mac
  {
    if n > 0 {
      RunLearns(states, ops, source, n - 1, mac);
      RunKeepsWellFormed(states, ops, source, n - 1);
      assert Follows(states, ops, source, n - 1);
      StepLearns(states[n - 1], ops[n - 1], source, states[n], mac);
    }
  }
}
