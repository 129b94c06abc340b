/** A node of the planned system: its interfaces, its ARP table and its
    routing table, all updated in place. */
module NetNode {
  import opened Base
  import opened Text
  import opened MacLib

  /** One interface record. `net` names the network the interface is
      attached to; `ip` is the address text once one is assigned. */
  datatype Interface = Interface(name: string, ip: Option<string>, mac: Option<MacAddress>, net: Option<string>)

  /** One routing-table entry: a cost, and whether the entry carries the
      `next step` key (whose value is then always empty). */
  datatype Route = Route(cost: nat, listsNextStep: bool)

  const MaxRoutingCost: nat := 15

  /** Indexing a Python list with a position before its start raises IndexError. */
  datatype NodeError = IndexOutOfRange

  /** Whether `pos` picks one of `n` list elements in Python: 0 to n-1 from
      the start, or -n to -1 from the end. */
  predicate InRange(n: nat, pos: int)
  {
    -(n as int) <= pos < n
  }

  /** The element a position in range picks, counted from the start. */
  function Slot(n: nat, pos: int): (k: nat)
    requires InRange(n, pos)
    ensures k < n
    ensures pos >= 0 ==> k == pos
    ensures pos < 0 ==> n - k == -pos
  {
    if pos >= 0 then pos else n + pos
  }

  /** A fresh interface at position `pos`: named `nic<pos>`, nothing set. */
  function BlankInterface(pos: nat): (i: Interface)
    ensures i.name == "nic" + DecimalString(pos) && i.ip.None? && i.mac.None? && i.net.None?
  {
    Interface("nic" + DecimalString(pos), None, None, None)
  }

  /** Whether some interface is attached to `net`. */
  predicate Attached(interfaces: seq<Interface>, net: string)
  {
    exists i :: 0 <= i < |interfaces| && interfaces[i].net == Some(net)
  }

  /** The routing table `create_ip_table` builds: one entry per listed net,
      cost 1 for a directly attached net and the maximum cost otherwise. */
  function RouteFor(interfaces: seq<Interface>, net: string): (r: Route)
    ensures r.cost == 1 <==> Attached(interfaces, net)
    ensures r.cost != 1 ==> r.cost == MaxRoutingCost && r.listsNextStep
    ensures r.cost == 1 ==> !r.listsNextStep
  {
    if Attached(interfaces, net) then Route(1, false) else Route(MaxRoutingCost, true)
  }

  class Node {
    const name: string
    var border: bool
    var interfaces: seq<Interface>
    var arpTable: map<string, MacAddress>
    var ipTable: map<string, Route>

    constructor(name: string)
      ensures this.name == name && !border
      ensures interfaces == [] && arpTable == map[] && ipTable == map[]
    {
      this.name := name;
      border := false;
      interfaces := [];
      arpTable := map[];
      ipTable := map[];
    }

    /** `set_as_border`. */
    method SetAsBorder()
      modifies this
      ensures border
      ensures interfaces == old(interfaces) && arpTable == old(arpTable) && ipTable == old(ipTable)
    {
      border := true;
    }

    /** `new_interface`: appends a blank interface and returns its position,
        the previous number of interfaces. */
    method NewInterface() returns (pos: nat)
      modifies this
      ensures pos == old(|interfaces|)
      ensures interfaces == old(interfaces) + [BlankInterface(pos)]
      ensures border == old(border) && arpTable == old(arpTable) && ipTable == old(ipTable)
    {
      pos := |interfaces|;
      interfaces := interfaces + [BlankInterface(pos)];
    }

    /** `remove_interface`: deletes interface `pos` if there is one; the ones
        after it move down by one. A negative `pos` counts from the end, and
        one below minus the number of interfaces raises IndexError. */
    method RemoveInterface(pos: int) returns (failure: Option<NodeError>)
      modifies this
      ensures failure.Some? <==> pos < -old(|interfaces|)
      ensures old(InRange(|interfaces|, pos)) ==>
                interfaces == old(interfaces[..Slot(|interfaces|, pos)] + interfaces[Slot(|interfaces|, pos) + 1..])
      ensures !old(InRange(|interfaces|, pos)) ==> interfaces == old(interfaces)
      ensures border == old(border) && arpTable == old(arpTable) && ipTable == old(ipTable)
    {
      failure := None;
      if |interfaces| > pos {
        if pos < -|interfaces| {
          return Some(IndexOutOfRange);
        }
        var k := Slot(|interfaces|, pos);
        interfaces := interfaces[..k] + interfaces[k + 1..];
      }
    }

    /** `get_interface`: nothing when `pos` is past the end, IndexError when
        it is before the start. */
    function GetInterface(pos: int): (r: Result<Option<Interface>, NodeError>)
      reads this
      ensures r.Err? <==> pos < -|interfaces|
      ensures r.Ok? ==> (r.value.Some? <==> InRange(|interfaces|, pos))
      ensures r.Ok? && r.value.Some? ==> r.value.value == interfaces[Slot(|interfaces|, pos)]
    {
      if |interfaces| > pos then
        if pos < -|interfaces| then Err(IndexOutOfRange) else Ok(Some(interfaces[Slot(|interfaces|, pos)]))
      else
        Ok(None)
    }

    /** Counting from the end reaches the same interface as counting from
        the start. */
    lemma FromEndSameInterface(pos: nat)
      requires pos < |interfaces|
      ensures GetInterface(pos - |interfaces|) == GetInterface(pos) == Ok(Some(interfaces[pos]))
    {
    }

    function NumberOfInterfaces(): (n: nat)
      reads this
      ensures n == |interfaces|
    {
      |interfaces|
    }

    /** `set_ip`: only interface `pos`, and only its address, changes. */
    method SetIp(pos: int, ip: string) returns (failure: Option<NodeError>)
      modifies this
      ensures failure.Some? <==> pos < -old(|interfaces|)
      ensures old(InRange(|interfaces|, pos)) ==>
                interfaces == old(interfaces[Slot(|interfaces|, pos) := interfaces[Slot(|interfaces|, pos)].(ip := Some(ip))])
      ensures !old(InRange(|interfaces|, pos)) ==> interfaces == old(interfaces)
      ensures border == old(border) && arpTable == old(arpTable) && ipTable == old(ipTable)
    {
      failure := None;
      if |interfaces| > pos {
        if pos < -|interfaces| {
          return Some(IndexOutOfRange);
        }
        var k := Slot(|interfaces|, pos);
        interfaces := interfaces[k := interfaces[k].(ip := Some(ip))];
      }
    }

    /** `set_mac`: only interface `pos`, and only its MAC address, changes. */
    method SetMac(pos: int, mac: MacAddress) returns (failure: Option<NodeError>)
      modifies this
      ensures failure.Some? <==> pos < -old(|interfaces|)
      ensures old(InRange(|interfaces|, pos)) ==>
                interfaces == old(interfaces[Slot(|interfaces|, pos) := interfaces[Slot(|interfaces|, pos)].(mac := Some(mac))])
      ensures !old(InRange(|interfaces|, pos)) ==> interfaces == old(interfaces)
      ensures border == old(border) && arpTable == old(arpTable) && ipTable == old(ipTable)
    {
      failure := None;
      if |interfaces| > pos {
        if pos < -|interfaces| {
          return Some(IndexOutOfRange);
        }
        var k := Slot(|interfaces|, pos);
        interfaces := interfaces[k := interfaces[k].(mac := Some(mac))];
      }
    }

    /** `set_net`: only interface `pos`, and only its network, changes. */
    method SetNet(pos: int, net: string) returns (failure: Option<NodeError>)
      modifies this
      ensures failure.Some? <==> pos < -old(|interfaces|)
      ensures old(InRange(|interfaces|, pos)) ==>
                interfaces == old(interfaces[Slot(|interfaces|, pos) := interfaces[Slot(|interfaces|, pos)].(net := Some(net))])
      ensures !old(InRange(|interfaces|, pos)) ==> interfaces == old(interfaces)
      ensures border == old(border) && arpTable == old(arpTable) && ipTable == old(ipTable)
    {
      failure := None;
      if |interfaces| > pos {
        if pos < -|interfaces| {
          return Some(IndexOutOfRange);
        }
        var k := Slot(|interfaces|, pos);
        interfaces := interfaces[k := interfaces[k].(net := Some(net))];
      }
    }

    /** `add_to_arp_table`: afterwards the query for `ip` answers `mac` and
        every other entry is as before. */
    method AddToArpTable(ip: string, mac: MacAddress)
      modifies this
      ensures arpTable == old(arpTable)[ip := mac]
      ensures QueryArpTable(ip) == Some(mac)
      ensures forall other :: other != ip ==> QueryArpTable(other) == old(QueryArpTable(other))
      ensures border == old(border) && interfaces == old(interfaces) && ipTable == old(ipTable)
    {
      arpTable := arpTable[ip := mac];
    }

    /** `query_arp_table`: the stored MAC address, or nothing for an unknown key. */
    function QueryArpTable(ip: string): (r: Option<MacAddress>)
      reads this
      ensures r.Some? <==> ip in arpTable
      ensures r.Some? ==> r.value == arpTable[ip]
    {
      if ip in arpTable then Some(arpTable[ip]) else None
    }

    /** `create_ip_table`: the table is rebuilt from scratch with exactly one
        entry per listed net. */
    method CreateIpTable(nets: seq<string>)
      modifies this
      ensures ipTable.Keys == set n | n in nets
      ensures forall n :: n in ipTable ==> ipTable[n] == RouteFor(interfaces, n)
      ensures border == old(border) && interfaces == old(interfaces) && arpTable == old(arpTable)
    {
      ipTable := map[];
      var i := 0;
      while i < |nets|
        invariant 0 <= i <= |nets|
        invariant ipTable.Keys == set n | n in nets[..i]
        invariant forall n :: n in ipTable ==> ipTable[n] == RouteFor(interfaces, n)
        invariant border == old(border) && interfaces == old(interfaces) && arpTable == old(arpTable)
      {
        var n := nets[i];
        ipTable := ipTable[n := Route(MaxRoutingCost, true)];
        if exists x :: 0 <= x < |interfaces| && interfaces[x].net == Some(n) {
          ipTable := ipTable[n := Route(1, false)];
        }
        assert nets[..i + 1] == nets[..i] + [n];
        i := i + 1;
      }
      assert nets[..i] == nets;
    }
  }
}
