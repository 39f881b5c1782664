/** Devices, interfaces and address assignments, and the store's statements over
    them (internal/store/device.go). Each statement or transaction is one
    function on the tables and one method that updates them. */
module Inventory {
  import opened Options

  datatype Kind = Static | Dhcp

  datatype DeviceRow = DeviceRow(name: string, source: string)

  /** NULL is None. */
  datatype Iface = Iface(device: int, mac: Option<string>, hostname: Option<string>)

  datatype Assignment = Assignment(id: int, iface: int, subnet: int, ip: string, kind: Kind, source: string)

  datatype Tables = Tables(devices: map<int, DeviceRow>, ifaces: map<int, Iface>, rows: set<Assignment>, nextId: int)

  /** Ids are unique and given out in order, rows belong to interfaces, and the
      unique index on mac holds. */
  ghost predicate WellFormed(t: Tables) {
    && (forall d :: d in t.devices ==> d < t.nextId)
    && (forall i :: i in t.ifaces ==> i < t.nextId)
    && (forall r :: r in t.rows ==> r.id < t.nextId && r.iface in t.ifaces)
    && (forall r, s :: r in t.rows && s in t.rows && r.id == s.id ==> r == s)
    && MacsUnique(t)
  }

  ghost predicate MacsUnique(t: Tables) {
    forall i, j :: i in t.ifaces && j in t.ifaces && t.ifaces[i].mac.Some? && t.ifaces[i].mac == t.ifaces[j].mac ==>
        i == j
  }

  predicate Owns(t: Tables, i: int, mac: string) {
    i in t.ifaces && t.ifaces[i].mac == Some(mac)
  }

  /** FindIfaceByMAC. */
  ghost function OwnerOf(t: Tables, mac: string): (r: Option<int>)
    ensures r.Some? ==> Owns(t, r.value, mac)
    ensures r.None? ==> forall i :: !Owns(t, i, mac)
  {
    if exists i :: Owns(t, i, mac) then
      var i :| Owns(t, i, mac);
      Some(i)
    else None
  }

  lemma OwnerIs(t: Tables, i: int, mac: string)
    requires MacsUnique(t) && Owns(t, i, mac)
    ensures OwnerOf(t, mac) == Some(i)
  {
  }

  /** SetIfaceHostnameIfEmpty. */
  function FilledHostname(t: Tables, i: int, hostname: string): Tables {
    if i in t.ifaces && (t.ifaces[i].hostname.None? || t.ifaces[i].hostname.value == "")
    then t.(ifaces := t.ifaces[i := t.ifaces[i].(hostname := Some(hostname))])
    else t
  }

  /** Both callers leave the hostname alone when they have none to give. */
  function Filled(t: Tables, i: int, hostname: string): Tables {
    if hostname == "" then t else FilledHostname(t, i, hostname)
  }

  /** The hostname an interface has once it is offered a name: its own if it has one. */
  function Offered(hostname: Option<string>, name: string): Option<string> {
    if (hostname.Some? && hostname.value != "") || name == "" then hostname else Some(name)
  }

  /** AssignIP, and the insert of UpsertIPAssignmentFrom. */
  function Inserted(t: Tables, i: int, subnet: int, ip: string, kind: Kind, source: string): Tables {
    t.(rows := t.rows + {Assignment(t.nextId, i, subnet, ip, kind, source)}, nextId := t.nextId + 1)
  }

  /** RemoveIfaceIPsInSubnetExcept: only DHCP rows go. */
  function RemovedOthers(t: Tables, i: int, subnet: int, keep: string): Tables {
    t.(rows := set r | r in t.rows && !(r.iface == i && r.subnet == subnet && r.ip != keep && r.kind == Dhcp))
  }

  /** ClaimDHCPLease: also retires other interfaces' DHCP rows for the address. */
  function Claimed(t: Tables, i: int, subnet: int, ip: string): Tables {
    t.(rows := set r | r in t.rows
                 && !(r.iface == i && r.subnet == subnet && r.ip != ip && r.kind == Dhcp)
                 && !(r.iface != i && r.subnet == subnet && r.ip == ip && r.kind == Dhcp))
  }

  predicate IsAssigned(t: Tables, i: int, subnet: int, ip: string) {
    exists r :: r in t.rows && r.iface == i && r.subnet == subnet && r.ip == ip
  }

  /** The update of UpsertIPAssignmentFrom, on the row with this id: never from
      static to DHCP, and the label stays. */
  function Rekinded(t: Tables, id: int, kind: Kind): Tables {
    t.(rows := set r | r in t.rows :: if r.id == id && !(r.kind == Static && kind == Dhcp) then r.(kind := kind) else r)
  }

  /** CreateDiscoveredDevice: device, interface and first address as one unit. */
  function Discovered(t: Tables, d: DeviceRow, mac: Option<string>, hostname: Option<string>,
                      subnet: int, ip: string, kind: Kind): Tables
  {
    Inserted(WithIface(t, d, mac, hostname), t.nextId + 1, subnet, ip, kind, "")
  }

  /** CreateDevice and AddIface. */
  function WithIface(t: Tables, d: DeviceRow, mac: Option<string>, hostname: Option<string>): Tables {
    t.(devices := t.devices[t.nextId := d],
       ifaces := t.ifaces[t.nextId + 1 := Iface(t.nextId, mac, hostname)],
       nextId := t.nextId + 2)
  }

  class Store {
    var tables: Tables

    constructor (tables: Tables)
      ensures this.tables == tables
    {
      this.tables := tables;
    }

    method FindIfaceByMAC(mac: string) returns (owner: Option<int>)
      requires MacsUnique(tables)
      ensures owner == OwnerOf(tables, mac)
    {
      if i :| i in tables.ifaces && tables.ifaces[i].mac == Some(mac) {
        assert Owns(tables, i, mac);
        return Some(i);
      }
      return None;
    }

    method SetIfaceHostnameIfEmpty(i: int, hostname: string)
      modifies this
      ensures tables == FilledHostname(old(tables), i, hostname)
    {
      if i in tables.ifaces && (tables.ifaces[i].hostname.None? || tables.ifaces[i].hostname.value == "") {
        var filled := tables.ifaces[i].(hostname := Some(hostname));
        tables := tables.(ifaces := tables.ifaces[i := filled]);
      }
    }

    method AssignIP(i: int, subnet: int, ip: string, kind: Kind, source: string)
      modifies this
      ensures tables == Inserted(old(tables), i, subnet, ip, kind, source)
    {
      tables := Inserted(tables, i, subnet, ip, kind, source);
    }

    method RemoveIfaceIPsInSubnetExcept(i: int, subnet: int, keep: string)
      modifies this
      ensures tables == RemovedOthers(old(tables), i, subnet, keep)
    {
      tables := RemovedOthers(tables, i, subnet, keep);
    }

    method ClaimDHCPLease(i: int, subnet: int, ip: string)
      modifies this
      ensures tables == Claimed(old(tables), i, subnet, ip)
    {
      RemoveIfaceIPsInSubnetExcept(i, subnet, ip);
      tables := tables.(rows := set r | r in tables.rows
          && !(r.iface != i && r.subnet == subnet && r.ip == ip && r.kind == Dhcp));
    }

    method CreateDevice(d: DeviceRow) returns (device: int)
      modifies this
      ensures device == old(tables).nextId
      ensures tables == old(tables).(devices := old(tables).devices[device := d], nextId := device + 1)
    {
      device := tables.nextId;
      tables := tables.(devices := tables.devices[device := d], nextId := device + 1);
    }

    method AddIface(device: int, mac: Option<string>, hostname: Option<string>) returns (iface: int)
      modifies this
      ensures iface == old(tables).nextId
      ensures tables
          == old(tables).(ifaces := old(tables).ifaces[iface := Iface(device, mac, hostname)], nextId := iface + 1)
    {
      iface := tables.nextId;
      tables := tables.(ifaces := tables.ifaces[iface := Iface(device, mac, hostname)], nextId := iface + 1);
    }

    method CreateDeviceAndIface(d: DeviceRow, mac: Option<string>, hostname: Option<string>)
        returns (device: int, iface: int)
      modifies this
      ensures tables == WithIface(old(tables), d, mac, hostname)
      ensures device == old(tables).nextId && iface == device + 1
    {
      device := CreateDevice(d);
      iface := AddIface(device, mac, hostname);
    }

    method CreateDiscoveredDevice(d: DeviceRow, mac: Option<string>, hostname: Option<string>,
                                  subnet: int, ip: string, kind: Kind) returns (device: int, iface: int)
      modifies this
      ensures tables == Discovered(old(tables), d, mac, hostname, subnet, ip, kind)
      ensures device == old(tables).nextId && iface == device + 1
    {
      device, iface := CreateDeviceAndIface(d, mac, hostname);
      AssignIP(iface, subnet, ip, kind, "");
    }

    /** The insert, or the update of one of the rows the pair already has. */
    method UpsertIPAssignmentFrom(i: int, subnet: int, ip: string, kind: Kind, source: string)
      modifies this
      ensures Upserted(old(tables), i, subnet, ip, kind, source, tables)
    {
      var before := tables;
      if r :| r in tables.rows && r.iface == i && r.subnet == subnet && r.ip == ip {
        tables := Rekinded(tables, r.id, kind);
        assert tables == Rekinded(before, r.id, kind);
        return;
      }
      tables := Inserted(tables, i, subnet, ip, kind, source);
    }
  }

  /** What an upsert may do: SQL does not say which of several matching rows it updates. */
  ghost predicate Upserted(t: Tables, i: int, subnet: int, ip: string, kind: Kind, source: string, u: Tables) {
    if IsAssigned(t, i, subnet, ip)
    then exists r :: r in t.rows && r.iface == i && r.subnet == subnet && r.ip == ip && u == Rekinded(t, r.id, kind)
    else u == Inserted(t, i, subnet, ip, kind, source)
  }
}
