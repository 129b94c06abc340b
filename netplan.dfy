/** The subnet planner of a network system, over an already-parsed
    configuration: address demand per network, power-of-two sizing,
    capacity checks and the VLSM, MinNets, MaxNets and Preconfigured
    allocations. */
module NetPlan {
  import opened Base
  import opened Arith
  import opened IpLib
  import opened NetLib

  /** One entry of the `networks` list of the configuration. `netid` and
      `netmask` are only read by the Preconfigured plan. */
  datatype NetSpec = NetSpec(name: string, hosts: int, netid: string, netmask: MaskArg)

  /** One entry of the `named nodes` list. */
  datatype NodeSpec = NodeSpec(name: string, networks: seq<string>, macs: seq<string>)

  /** A network while it is being planned: its demand in addresses and the
      names of the named nodes attached to it. */
  datatype NetEntry = NetEntry(spec: NetSpec, ipsNeeded: int, related: seq<string>)

  datatype PlanError =
    | NoConfiguration
    | InvalidSystemNet(reason: NetError)
    | InvalidPlanType
    | NoNetworks
    | RepeatedNetwork(net: string)
    | RepeatedNode(node: string, net: string)
    | UnknownNetwork(node: string, net: string)
    | NotEnoughAddresses(required: nat)
    | PlanDoesNotFit
    | BadPreconfigured(net: string)
    | InvalidMac(mac: string)
    | NoFreeMac

  // ---------------------------------------------------------------------
  // Power-of-two sizing

  /** `bits` is the least exponent of at least 1 whose power reaches `n`. */
  predicate IsMinBits(n: int, bits: nat)
  {
    bits >= 1 && Pow2(bits) >= n && (bits == 1 || Pow2(bits - 1) < n)
  }

  function MinBitsFrom(n: int, bits: nat): (r: nat)
    requires bits >= 1 && (bits == 1 || Pow2(bits - 1) < n)
    ensures IsMinBits(n, r)
    decreases n - Pow2(bits)
  {
    if Pow2(bits) >= n then bits else MinBitsFrom(n, bits + 1)
  }

  /** The size exponent of a network needing `n` addresses. */
  function MinBits(n: int): (r: nat)
    ensures IsMinBits(n, r)
  {
    MinBitsFrom(n, 1)
  }

  /** There is only one least exponent. */
  lemma MinBitsUnique(n: int, a: nat, b: nat)
    requires IsMinBits(n, a) && IsMinBits(n, b)
    ensures a == b
  {
    if a < b {
      Pow2Mono(a, b - 1);
    } else if b < a {
      Pow2Mono(b, a - 1);
    }
  }

  /** A larger demand never needs a smaller network. */
  lemma MinBitsMono(n: int, m: int)
    requires n <= m
    ensures MinBits(n) <= MinBits(m)
  {
    var a, b := MinBits(n), MinBits(m);
    if a > b {
      Pow2Mono(b, a - 1);
    }
  }

  /** `__min_power_of_2`. */
  method MinPowerOf2(n: int) returns (bits: nat)
    ensures IsMinBits(n, bits)
  {
    bits := 1;
    var pow := 2;
    while pow < n
      invariant bits >= 1 && pow == Pow2(bits)
      invariant bits == 1 || Pow2(bits - 1) < n
      decreases n - pow
    {
      bits := bits + 1;
      pow := pow * 2;
    }
  }

  // ---------------------------------------------------------------------
  // Reading the network list

  predicate DistinctNames(specs: seq<NetSpec>)
  {
    forall i, j :: 0 <= i < j < |specs| ==> specs[i].name != specs[j].name
  }

  /** A network as first read: hosts plus the network id and the broadcast. */
  function FreshEntry(s: NetSpec): (e: NetEntry)
    ensures e.spec == s && e.ipsNeeded == s.hosts + 2 && e.related == []
  {
    NetEntry(s, s.hosts + 2, [])
  }

  function Entries(specs: seq<NetSpec>): (r: seq<NetEntry>)
    ensures |r| == |specs| && forall i :: 0 <= i < |specs| ==> r[i] == FreshEntry(specs[i])
  {
    seq(|specs|, i requires 0 <= i < |specs| => FreshEntry(specs[i]))
  }

  /** The first name that repeats an earlier one. */
  function FirstRepeated(specs: seq<NetSpec>): string
    requires !DistinctNames(specs)
  {
    var p := specs[..|specs| - 1];
    if !DistinctNames(p) then FirstRepeated(p) else specs[|specs| - 1].name
  }

  /** The name at the first position where the names stop being distinct is
      the first repeated one. */
  lemma {:induction false} FirstRepeatedAt(specs: seq<NetSpec>, j: nat)
    requires j < |specs| && DistinctNames(specs[..j]) && !DistinctNames(specs[..j + 1])
    ensures !DistinctNames(specs) && FirstRepeated(specs) == specs[j].name
    decreases |specs|
  {
    var p := specs[..|specs| - 1];
    if j == |specs| - 1 {
      assert p == specs[..j] && specs[..j + 1] == specs;
    } else {
      assert p[..j] == specs[..j] && p[..j + 1] == specs[..j + 1];
      FirstRepeatedAt(p, j);
      var a, b :| 0 <= a < b < j + 1 && specs[..j + 1][a].name == specs[..j + 1][b].name;
      assert specs[a].name == specs[b].name;
    }
  }

  /** The loop over `networks`: rejects the first name already seen. */
  method CollectNetworks(specs: seq<NetSpec>) returns (r: Result<seq<NetEntry>, PlanError>)
    ensures r.Ok? <==> DistinctNames(specs)
    ensures r.Ok? ==> r.value == Entries(specs)
    ensures r.Err? ==> r.error == RepeatedNetwork(FirstRepeated(specs))
  {
    var entries: seq<NetEntry> := [];
    for j := 0 to |specs|
      invariant DistinctNames(specs[..j])
      invariant entries == Entries(specs[..j])
    {
      if exists i :: 0 <= i < |entries| && entries[i].spec.name == specs[j].name {
        var i :| 0 <= i < |entries| && entries[i].spec.name == specs[j].name;
        assert specs[..j + 1][i] == specs[i] && specs[..j + 1][j] == specs[j];
        FirstRepeatedAt(specs, j);
        return Err(RepeatedNetwork(specs[j].name));
      }
      entries := entries + [FreshEntry(specs[j])];
    }
    assert specs[..|specs|] == specs;
    return Ok(entries);
  }

  // ---------------------------------------------------------------------
  // Attaching the named nodes

  predicate UniqueNames(nets: seq<NetEntry>)
  {
    forall i, j :: 0 <= i < j < |nets| ==> nets[i].spec.name != nets[j].spec.name
  }

  predicate Known(nets: seq<NetEntry>, n: string)
  {
    exists i :: 0 <= i < |nets| && nets[i].spec.name == n
  }

  /** How often `n` occurs in `ns`. */
  function Count(ns: seq<string>, n: string): (c: nat)
    ensures c <= |ns|
  {
    if ns == [] then 0 else Count(ns[..|ns| - 1], n) + (if ns[|ns| - 1] == n then 1 else 0)
  }

  function Copies(x: string, c: nat): (r: seq<string>)
    ensures |r| == c && forall k :: 0 <= k < c ==> r[k] == x
  {
    seq(c, _ => x)
  }

  /** A network with more node names attached, one address each. */
  function WithNodes(e: NetEntry, added: seq<string>): NetEntry
  {
    e.(related := e.related + added, ipsNeeded := e.ipsNeeded + |added|)
  }

  /** The position of the first network called `name`. */
  function FindNet(nets: seq<NetEntry>, name: string): (r: Option<nat>)
    ensures r.Some? ==> r.value < |nets| && nets[r.value].spec.name == name
    ensures r.Some? ==> forall k :: 0 <= k < r.value ==> nets[k].spec.name != name
    ensures r.None? <==> !Known(nets, name)
  {
    if nets == [] then None
    else if nets[0].spec.name == name then Some(0)
    else
      match FindNet(nets[1..], name)
      case None =>
        assert forall k :: 1 <= k < |nets| ==> nets[k] == nets[1..][k - 1];
        None
      case Some(k) => Some(k + 1)
  }

  /** Attaching one node to one named network. */
  function AttachOne(nets: seq<NetEntry>, node: string, net: string): Result<seq<NetEntry>, PlanError>
  {
    match FindNet(nets, net)
    case None => Err(UnknownNetwork(node, net))
    case Some(i) =>
      if node in nets[i].related then Err(RepeatedNode(node, net))
      else Ok(nets[i := WithNodes(nets[i], [node])])
  }

  /** Attaching one node to each network of its list, in order. */
  function AttachList(nets: seq<NetEntry>, node: string, ns: seq<string>): Result<seq<NetEntry>, PlanError>
  {
    if ns == [] then Ok(nets)
    else
      match AttachList(nets, node, ns[..|ns| - 1])
      case Err(e) => Err(e)
      case Ok(m) => AttachOne(m, node, ns[|ns| - 1])
  }

  /** Attaching every named node, in order. */
  function AttachAll(nets: seq<NetEntry>, nodes: seq<NodeSpec>): Result<seq<NetEntry>, PlanError>
  {
    if nodes == [] then Ok(nets)
    else
      var h := nodes[|nodes| - 1];
      match AttachAll(nets, nodes[..|nodes| - 1])
      case Err(e) => Err(e)
      case Ok(m) => AttachList(m, h.name, h.networks)
  }

  /** The named nodes that end up in the system: those with at least one network. */
  function Kept(nodes: seq<NodeSpec>): (r: seq<NodeSpec>)
    ensures forall h :: h in r <==> h in nodes && |h.networks| > 0
  {
    if nodes == [] then []
    else
      var h := nodes[|nodes| - 1];
      Kept(nodes[..|nodes| - 1]) + (if |h.networks| > 0 then [h] else [])
  }

  /** The node names attached to network `n`, in the order of attachment. */
  function Attachments(nodes: seq<NodeSpec>, n: string): seq<string>
  {
    if nodes == [] then []
    else
      var h := nodes[|nodes| - 1];
      Attachments(nodes[..|nodes| - 1], n) + Copies(h.name, Count(h.networks, n))
  }

  /** A single node may be added `c` times to a network already holding `rel`. */
  predicate Fits(rel: seq<string>, node: string, c: nat)
  {
    c == 0 || (c == 1 && node !in rel)
  }

  /** Each name of `add` is new when it is appended after `base`. */
  predicate Appendable(base: seq<string>, add: seq<string>)
  {
    forall k :: 0 <= k < |add| ==> add[k] !in base + add[..k]
  }

  predicate AllKnown(nets: seq<NetEntry>, nodes: seq<NodeSpec>)
  {
    forall j, k :: 0 <= j < |nodes| && 0 <= k < |nodes[j].networks| ==> Known(nets, nodes[j].networks[k])
  }

  function Extend(nets: seq<NetEntry>, node: string, ns: seq<string>): (r: seq<NetEntry>)
    ensures |r| == |nets|
  {
    seq(|nets|, i requires 0 <= i < |nets| => WithNodes(nets[i], Copies(node, Count(ns, nets[i].spec.name))))
  }

  function ExtendAll(nets: seq<NetEntry>, nodes: seq<NodeSpec>): (r: seq<NetEntry>)
    ensures |r| == |nets|
  {
    seq(|nets|, i requires 0 <= i < |nets| => WithNodes(nets[i], Attachments(nodes, nets[i].spec.name)))
  }

  lemma CopiesSnoc(x: string, c: nat)
    ensures Copies(x, c) + [x] == Copies(x, c + 1)
  {
  }

  lemma InCopies(rel: seq<string>, x: string, c: nat)
    requires c > 0
    ensures x in rel + Copies(x, c)
  {
    assert (rel + Copies(x, c))[|rel|] == x;
  }

  lemma FitsGrow(rel: seq<string>, node: string, c: nat, d: nat)
    requires !Fits(rel, node, c) && c <= d
    ensures !Fits(rel, node, d)
  {
  }

  /** Every network of `ns` is known and none gets `node` twice. */
  predicate ListOk(nets: seq<NetEntry>, node: string, ns: seq<string>)
  {
    && (forall k :: 0 <= k < |ns| ==> Known(nets, ns[k]))
    && (forall i :: 0 <= i < |nets| ==> Fits(nets[i].related, node, Count(ns, nets[i].spec.name)))
  }

  /** The condition for one more network `last`. */
  predicate StepOk(nets: seq<NetEntry>, node: string, p: seq<string>, last: string)
  {
    Known(nets, last) &&
    forall i :: 0 <= i < |nets| && nets[i].spec.name == last ==> Count(p, last) == 0 && node !in nets[i].related
  }

  lemma ListOkSnoc(nets: seq<NetEntry>, node: string, ns: seq<string>)
    requires ns != []
    ensures ListOk(nets, node, ns) <==>
              ListOk(nets, node, ns[..|ns| - 1]) && StepOk(nets, node, ns[..|ns| - 1], ns[|ns| - 1])
  {
    var p, last := ns[..|ns| - 1], ns[|ns| - 1];
    assert forall k :: 0 <= k < |p| ==> p[k] == ns[k];
    if ListOk(nets, node, ns) {
      forall i | 0 <= i < |nets|
        ensures Fits(nets[i].related, node, Count(p, nets[i].spec.name))
      {
        if !Fits(nets[i].related, node, Count(p, nets[i].spec.name)) {
          FitsGrow(nets[i].related, node, Count(p, nets[i].spec.name), Count(ns, nets[i].spec.name));
        }
      }
    }
  }

  lemma AttachOneExtend(nets: seq<NetEntry>, node: string, ns: seq<string>)
    requires UniqueNames(nets) && ns != [] && ListOk(nets, node, ns[..|ns| - 1])
    ensures AttachOne(Extend(nets, node, ns[..|ns| - 1]), node, ns[|ns| - 1]).Ok? <==>
              StepOk(nets, node, ns[..|ns| - 1], ns[|ns| - 1])
    ensures AttachOne(Extend(nets, node, ns[..|ns| - 1]), node, ns[|ns| - 1]).Ok? ==>
              AttachOne(Extend(nets, node, ns[..|ns| - 1]), node, ns[|ns| - 1]).value == Extend(nets, node, ns)
  {
    var p, last := ns[..|ns| - 1], ns[|ns| - 1];
    var m := Extend(nets, node, p);
    assert forall i :: 0 <= i < |m| ==> m[i].spec == nets[i].spec;
    match FindNet(m, last)
    case None =>
      assert !Known(nets, last);
    case Some(i) =>
      var cp := Count(p, last);
      assert m[i].related == nets[i].related + Copies(node, cp);
      assert Fits(nets[i].related, node, cp);
      if node in m[i].related {
        assert !StepOk(nets, node, p, last) by {
          if cp == 0 {
            assert m[i].related == nets[i].related;
          }
        }
      } else {
        if cp > 0 {
          InCopies(nets[i].related, node, cp);
          assert false;
        }
        assert StepOk(nets, node, p, last);
        ExtendSnocAt(nets, node, ns, i);
      }
  }

  /** Adding `node` to the network `last` names extends the attachment of
      `ns` without its last entry to that of `ns`. */
  lemma ExtendSnocAt(nets: seq<NetEntry>, node: string, ns: seq<string>, i: nat)
    requires UniqueNames(nets) && ns != [] && i < |nets| && nets[i].spec.name == ns[|ns| - 1]
    ensures var m := Extend(nets, node, ns[..|ns| - 1]);
              m[i := WithNodes(m[i], [node])] == Extend(nets, node, ns)
  {
    var p, last := ns[..|ns| - 1], ns[|ns| - 1];
    var m := Extend(nets, node, p);
    var r := m[i := WithNodes(m[i], [node])];
    forall q | 0 <= q < |nets|
      ensures r[q] == Extend(nets, node, ns)[q]
    {
      assert ns == p + [last];
      assert Count(ns, nets[q].spec.name) == Count(p, nets[q].spec.name) + (if last == nets[q].spec.name then 1 else 0);
      if q == i {
        CopiesSnoc(node, Count(p, last));
        assert m[i].related + [node] == nets[i].related + Copies(node, Count(p, last) + 1);
      } else {
        assert nets[q].spec.name != last;
      }
    }
  }

  /** Attaching one node to a list of networks succeeds iff every network is
      known and no network gets the node twice; it then adds the node once
      per occurrence. */
  lemma {:induction false} AttachListSpec(nets: seq<NetEntry>, node: string, ns: seq<string>)
    requires UniqueNames(nets)
    ensures AttachList(nets, node, ns).Ok? <==> ListOk(nets, node, ns)
    ensures AttachList(nets, node, ns).Ok? ==> AttachList(nets, node, ns).value == Extend(nets, node, ns)
    decreases |ns|
  {
    if ns == [] {
      forall i | 0 <= i < |nets|
        ensures Extend(nets, node, ns)[i] == nets[i]
      {
        assert nets[i].related + [] == nets[i].related;
      }
      assert Extend(nets, node, ns) == nets;
    } else {
      var p := ns[..|ns| - 1];
      AttachListSpec(nets, node, p);
      ListOkSnoc(nets, node, ns);
      if AttachList(nets, node, p).Ok? {
        AttachOneExtend(nets, node, ns);
      }
    }
  }

  lemma NotAppendableTwice(base: seq<string>, a: seq<string>, x: string, c: nat)
    requires c >= 2
    ensures !Appendable(base, a + Copies(x, c))
  {
    var add := a + Copies(x, c);
    assert add[|a| + 1] == x && add[..|a| + 1][|a|] == x;
    assert x in base + add[..|a| + 1];
  }

  lemma AppendableSnoc(base: seq<string>, a: seq<string>, x: string, c: nat)
    ensures Appendable(base, a + Copies(x, c)) <==> Appendable(base, a) && Fits(base + a, x, c)
  {
    var add := a + Copies(x, c);
    assert forall k :: 0 <= k <= |a| ==> add[..k] == a[..k];
    assert forall k :: 0 <= k < |a| ==> add[k] == a[k];
    if Appendable(base, add) {
      if c >= 2 {
        NotAppendableTwice(base, a, x, c);
        assert false;
      }
      if c == 1 {
        assert add[|a|] == x;
      }
    }
    if Appendable(base, a) && Fits(base + a, x, c) {
      if c == 0 {
        assert add == a;
      } else {
        forall k | 0 <= k < |add|
          ensures add[k] !in base + add[..k]
        {
          if k == |a| {
            assert add[k] == x;
          }
        }
      }
    }
  }

  lemma WithNodesTwice(e: NetEntry, a: seq<string>, b: seq<string>)
    ensures WithNodes(WithNodes(e, a), b) == WithNodes(e, a + b)
  {
    assert e.related + a + b == e.related + (a + b);
  }

  /** The condition under which every named node can be attached. */
  predicate AllOk(nets: seq<NetEntry>, nodes: seq<NodeSpec>)
  {
    AllKnown(nets, nodes) &&
    forall i :: 0 <= i < |nets| ==> Appendable(nets[i].related, Attachments(nodes, nets[i].spec.name))
  }

  lemma KnownExtendAll(nets: seq<NetEntry>, nodes: seq<NodeSpec>)
    ensures forall x :: Known(ExtendAll(nets, nodes), x) <==> Known(nets, x)
  {
    var m := ExtendAll(nets, nodes);
    assert forall i :: 0 <= i < |m| ==> m[i].spec == nets[i].spec;
  }

  lemma AllKnownSnoc(nets: seq<NetEntry>, p: seq<NodeSpec>, h: NodeSpec)
    ensures AllKnown(nets, p + [h]) <==>
              AllKnown(nets, p) && forall k :: 0 <= k < |h.networks| ==> Known(nets, h.networks[k])
  {
    var nodes := p + [h];
    assert forall j :: 0 <= j < |p| ==> p[j] == nodes[j];
    assert nodes[|p|] == h;
  }

  lemma AllOkSnoc(nets: seq<NetEntry>, nodes: seq<NodeSpec>)
    requires nodes != []
    ensures AllOk(nets, nodes) <==>
              AllOk(nets, nodes[..|nodes| - 1]) &&
              ListOk(ExtendAll(nets, nodes[..|nodes| - 1]), nodes[|nodes| - 1].name, nodes[|nodes| - 1].networks)
  {
    var p, h := nodes[..|nodes| - 1], nodes[|nodes| - 1];
    var m := ExtendAll(nets, p);
    KnownExtendAll(nets, p);
    assert nodes == p + [h];
    AllKnownSnoc(nets, p, h);
    forall i | 0 <= i < |nets|
      ensures Appendable(nets[i].related, Attachments(nodes, nets[i].spec.name)) <==>
                Appendable(nets[i].related, Attachments(p, nets[i].spec.name)) &&
                Fits(m[i].related, h.name, Count(h.networks, m[i].spec.name))
    {
      AppendableSnoc(nets[i].related, Attachments(p, nets[i].spec.name), h.name, Count(h.networks, nets[i].spec.name));
    }
  }

  /** Attaching all named nodes succeeds iff every network they name is known
      and no name is added twice to one network; each network then gains its
      attached node names in order, and one address per name. */
  lemma {:induction false} AttachAllSpec(nets: seq<NetEntry>, nodes: seq<NodeSpec>)
    requires UniqueNames(nets)
    ensures AttachAll(nets, nodes).Ok? <==> AllOk(nets, nodes)
    ensures AttachAll(nets, nodes).Ok? ==> AttachAll(nets, nodes).value == ExtendAll(nets, nodes)
    decreases |nodes|
  {
    if nodes == [] {
      forall i | 0 <= i < |nets|
        ensures ExtendAll(nets, nodes)[i] == nets[i]
      {
        assert nets[i].related + [] == nets[i].related;
      }
      assert ExtendAll(nets, nodes) == nets;
    } else {
      var p, h := nodes[..|nodes| - 1], nodes[|nodes| - 1];
      AttachAllSpec(nets, p);
      AllOkSnoc(nets, nodes);
      if AttachAll(nets, p).Ok? {
        var m := ExtendAll(nets, p);
        assert UniqueNames(m) by {
          assert forall i :: 0 <= i < |m| ==> m[i].spec == nets[i].spec;
        }
        AttachListSpec(m, h.name, h.networks);
        if AttachList(m, h.name, h.networks).Ok? {
          forall i | 0 <= i < |nets|
            ensures Extend(m, h.name, h.networks)[i] == ExtendAll(nets, nodes)[i]
          {
            WithNodesTwice(nets[i], Attachments(p, nets[i].spec.name), Copies(h.name, Count(h.networks, nets[i].spec.name)));
          }
        }
      }
    }
  }

  lemma {:induction false} ListErrPropagates(nets: seq<NetEntry>, node: string, ns: seq<string>, k: nat, e: PlanError)
    requires k <= |ns| && AttachList(nets, node, ns[..k]) == Err(e)
    ensures AttachList(nets, node, ns) == Err(e)
    decreases |ns| - k
  {
    if k < |ns| {
      assert ns[..k + 1][..k] == ns[..k];
      ListErrPropagates(nets, node, ns, k + 1, e);
    } else {
      assert ns[..k] == ns;
    }
  }

  lemma {:induction false} AllErrPropagates(nets: seq<NetEntry>, nodes: seq<NodeSpec>, j: nat, e: PlanError)
    requires j <= |nodes| && AttachAll(nets, nodes[..j]) == Err(e)
    ensures AttachAll(nets, nodes) == Err(e)
    decreases |nodes| - j
  {
    if j < |nodes| {
      assert nodes[..j + 1][..j] == nodes[..j];
      AllErrPropagates(nets, nodes, j + 1, e);
    } else {
      assert nodes[..j] == nodes;
    }
  }

  /** The search `for n1 in networks: if n == n1['name']`. */
  method LocateNet(nets: seq<NetEntry>, n: string) returns (idx: nat)
    ensures idx <= |nets|
    ensures idx == |nets| <==> FindNet(nets, n).None?
    ensures idx < |nets| ==> FindNet(nets, n) == Some(idx)
  {
    idx := 0;
    while idx < |nets| && nets[idx].spec.name != n
      invariant 0 <= idx <= |nets|
      invariant forall q :: 0 <= q < idx ==> nets[q].spec.name != n
    {
      idx := idx + 1;
    }
  }

  lemma AttachListNext(nets: seq<NetEntry>, node: string, ns: seq<string>, k: nat, cur: seq<NetEntry>)
    requires k < |ns| && AttachList(nets, node, ns[..k]) == Ok(cur)
    ensures AttachList(nets, node, ns[..k + 1]) == AttachOne(cur, node, ns[k])
  {
    assert ns[..k + 1][..k] == ns[..k] && ns[..k + 1][k] == ns[k];
  }

  /** One named node: attached to each network it lists, in order. */
  method AttachNode(nets: seq<NetEntry>, h: NodeSpec) returns (r: Result<seq<NetEntry>, PlanError>)
    ensures r == AttachList(nets, h.name, h.networks)
  {
    var cur := nets;
    for k := 0 to |h.networks|
      invariant AttachList(nets, h.name, h.networks[..k]) == Ok(cur)
    {
      var n := h.networks[k];
      AttachListNext(nets, h.name, h.networks, k, cur);
      var idx := LocateNet(cur, n);
      if idx == |cur| {
        ListErrPropagates(nets, h.name, h.networks, k + 1, UnknownNetwork(h.name, n));
        return Err(UnknownNetwork(h.name, n));
      }
      if h.name in cur[idx].related {
        ListErrPropagates(nets, h.name, h.networks, k + 1, RepeatedNode(h.name, n));
        return Err(RepeatedNode(h.name, n));
      }
      cur := cur[idx := WithNodes(cur[idx], [h.name])];
    }
    assert h.networks[..|h.networks|] == h.networks;
    return Ok(cur);
  }

  /** The loop over `named nodes`; a node is kept once its first network is
      attached, so a node listing no network is dropped. */
  method AttachNodes(nets: seq<NetEntry>, nodes: seq<NodeSpec>) returns (r: Result<(seq<NetEntry>, seq<NodeSpec>), PlanError>)
    ensures AttachAll(nets, nodes).Ok? ==> r == Ok((AttachAll(nets, nodes).value, Kept(nodes)))
    ensures AttachAll(nets, nodes).Err? ==> r == Err(AttachAll(nets, nodes).error)
  {
    var cur := nets;
    var kept: seq<NodeSpec> := [];
    for j := 0 to |nodes|
      invariant AttachAll(nets, nodes[..j]) == Ok(cur)
      invariant kept == Kept(nodes[..j])
    {
      var h := nodes[j];
      assert nodes[..j + 1][..j] == nodes[..j] && nodes[..j + 1][j] == h;
      var step := AttachNode(cur, h);
      if step.Err? {
        AllErrPropagates(nets, nodes, j + 1, step.error);
        return Err(step.error);
      }
      cur := step.value;
      if |h.networks| > 0 {
        kept := kept + [h];
      }
    }
    assert nodes[..|nodes|] == nodes;
    return Ok((cur, kept));
  }

  /** A network's demand is its hosts, its id, its broadcast and one address
      per attached named node; the attachment fails exactly on an unknown
      network name or a node added twice to one network. */
  lemma Demand(specs: seq<NetSpec>, nodes: seq<NodeSpec>)
    requires DistinctNames(specs)
    ensures AttachAll(Entries(specs), nodes).Ok? <==>
              AllKnown(Entries(specs), nodes) &&
              forall i :: 0 <= i < |specs| ==> Appendable([], Attachments(nodes, specs[i].name))
    ensures AttachAll(Entries(specs), nodes).Ok? ==>
              var r := AttachAll(Entries(specs), nodes).value;
              |r| == |specs| &&
              forall i :: 0 <= i < |specs| ==>
                r[i].spec == specs[i] && r[i].related == Attachments(nodes, specs[i].name) &&
                r[i].ipsNeeded == specs[i].hosts + 2 + |Attachments(nodes, specs[i].name)|
  {
    var nets := Entries(specs);
    AttachAllSpec(nets, nodes);
    assert forall i :: 0 <= i < |nets| ==> nets[i].related == [] && [] + Attachments(nodes, specs[i].name) == Attachments(nodes, specs[i].name);
  }

  /** A node naming the same network twice is rejected. */
  lemma CountTwiceNotAppendable(nodes: seq<NodeSpec>, j: nat, n: string)
    requires j < |nodes| && Count(nodes[j].networks, n) >= 2
    ensures forall base :: !Appendable(base, Attachments(nodes, n))
    decreases |nodes|
  {
    var p, h := nodes[..|nodes| - 1], nodes[|nodes| - 1];
    forall base | true
      ensures !Appendable(base, Attachments(nodes, n))
    {
      if j == |nodes| - 1 {
        NotAppendableTwice(base, Attachments(p, n), h.name, Count(h.networks, n));
      } else {
        assert p[j] == nodes[j];
        CountTwiceNotAppendable(p, j, n);
        AppendableSnoc(base, Attachments(p, n), h.name, Count(h.networks, n));
      }
    }
  }

  // ---------------------------------------------------------------------
  // Ordering by demand

  predicate SortedByNeed(s: seq<NetEntry>)
  {
    forall i, j :: 0 <= i < j < |s| ==> s[i].ipsNeeded >= s[j].ipsNeeded
  }

  /** Inserting `x` after every entry needing at least as much keeps the order. */
  lemma InsertSorted(s: seq<NetEntry>, p: nat, x: NetEntry)
    requires SortedByNeed(s) && p <= |s|
    requires forall q :: 0 <= q < p ==> s[q].ipsNeeded >= x.ipsNeeded
    requires p < |s| ==> s[p].ipsNeeded < x.ipsNeeded
    ensures SortedByNeed(s[..p] + [x] + s[p..])
  {
    var r := s[..p] + [x] + s[p..];
    forall i, j | 0 <= i < j < |r|
      ensures r[i].ipsNeeded >= r[j].ipsNeeded
    {
      if j > p && i != p {
        assert r[j] == s[j - 1];
        assert r[i] == s[if i < p then i else i - 1];
      } else if j > p {
        assert r[j] == s[j - 1];
      }
    }
  }

  /** Insertion after every entry needing at least as much: equal demands
      keep their input order, as Python's stable `sorted` does. */
  function Insert(s: seq<NetEntry>, x: NetEntry): seq<NetEntry>
  {
    if s == [] || s[0].ipsNeeded < x.ipsNeeded then [x] + s
    else [s[0]] + Insert(s[1..], x)
  }

  /** The networks in the order `sorted(..., reverse=True)` leaves them. */
  function SortedNets(nets: seq<NetEntry>): seq<NetEntry>
  {
    if nets == [] then []
    else Insert(SortedNets(nets[..|nets| - 1]), nets[|nets| - 1])
  }

  /** Insertion adds exactly the new entry. */
  lemma {:induction false} InsertPermutes(s: seq<NetEntry>, x: NetEntry)
    ensures multiset(Insert(s, x)) == multiset(s) + multiset{x}
  {
    if s != [] && s[0].ipsNeeded >= x.ipsNeeded {
      var rest := s[1..];
      assert multiset(Insert(rest, x)) == multiset(rest) + multiset{x} by {
        InsertPermutes(rest, x);
      }
      assert Insert(s, x) == [s[0]] + Insert(rest, x);
      assert multiset(s) == multiset{s[0]} + multiset(rest) by {
        assert s == [s[0]] + rest;
      }
    }
  }

  /** Sorting neither loses nor invents a network. */
  lemma {:induction false} SortedNetsPermutes(nets: seq<NetEntry>)
    ensures multiset(SortedNets(nets)) == multiset(nets)
  {
    if nets != [] {
      var init, last := nets[..|nets| - 1], nets[|nets| - 1];
      var sortedInit := SortedNets(init);
      assert multiset(sortedInit) == multiset(init) by {
        SortedNetsPermutes(init);
      }
      assert multiset(Insert(sortedInit, last)) == multiset(sortedInit) + multiset{last} by {
        InsertPermutes(sortedInit, last);
      }
      assert SortedNets(nets) == Insert(sortedInit, last);
      assert multiset(nets) == multiset(init) + multiset{last} by {
        assert nets == init + [last];
      }
    }
  }

  /** Insertion at the first position whose entry needs less. */
  lemma {:induction false} InsertAt(s: seq<NetEntry>, p: nat, x: NetEntry)
    requires p <= |s|
    requires forall q :: 0 <= q < p ==> s[q].ipsNeeded >= x.ipsNeeded
    requires p < |s| ==> s[p].ipsNeeded < x.ipsNeeded
    ensures Insert(s, x) == s[..p] + [x] + s[p..]
    decreases p
  {
    if p > 0 {
      var t := s[1..];
      assert s[0].ipsNeeded >= x.ipsNeeded;
      assert forall q :: 0 <= q < p - 1 ==> t[q] == s[q + 1];
      InsertAt(t, p - 1, x);
      assert Insert(s, x) == [s[0]] + Insert(t, x);
      ConsSplit(s, p, x);
    } else {
      assert Insert(s, x) == [x] + s;
      assert s[..0] == [] && s[0..] == s;
    }
  }

  lemma ConsSplit(s: seq<NetEntry>, p: nat, x: NetEntry)
    requires 0 < p <= |s|
    ensures [s[0]] + (s[1..][..p - 1] + [x] + s[1..][p - 1..]) == s[..p] + [x] + s[p..]
  {
    var t := s[1..];
    assert [s[0]] + t[..p - 1] == s[..p];
    assert t[p - 1..] == s[p..];
    var a, b := t[..p - 1], t[p - 1..];
    assert [s[0]] + (a + [x] + b) == ([s[0]] + a) + [x] + b;
  }

  /** Inserting into a sorted list keeps it sorted. */
  lemma InsertKeepsSorted(s: seq<NetEntry>, x: NetEntry)
    requires SortedByNeed(s)
    ensures SortedByNeed(Insert(s, x))
  {
    var p := 0;
    while p < |s| && s[p].ipsNeeded >= x.ipsNeeded
      invariant 0 <= p <= |s|
      invariant forall q :: 0 <= q < p ==> s[q].ipsNeeded >= x.ipsNeeded
    {
      p := p + 1;
    }
    InsertAt(s, p, x);
    InsertSorted(s, p, x);
  }

  /** The order is by decreasing demand. */
  lemma {:induction false} SortedNetsSorted(nets: seq<NetEntry>)
    ensures SortedByNeed(SortedNets(nets))
  {
    if nets != [] {
      SortedNetsSorted(nets[..|nets| - 1]);
      InsertKeepsSorted(SortedNets(nets[..|nets| - 1]), nets[|nets| - 1]);
    }
  }

  /** One insertion step of the sort. */
  method InsertByNeed(sorted: seq<NetEntry>, x: NetEntry) returns (r: seq<NetEntry>)
    ensures r == Insert(sorted, x)
  {
    var p := 0;
    while p < |sorted| && sorted[p].ipsNeeded >= x.ipsNeeded
      invariant 0 <= p <= |sorted|
      invariant forall q :: 0 <= q < p ==> sorted[q].ipsNeeded >= x.ipsNeeded
    {
      p := p + 1;
    }
    InsertAt(sorted, p, x);
    r := sorted[..p] + [x] + sorted[p..];
  }

  /** `sorted(networks, key=ips needed, reverse=True)`, as an insertion sort
      that puts each network after every network needing at least as much. */
  method SortByNeed(nets: seq<NetEntry>) returns (sorted: seq<NetEntry>)
    ensures sorted == SortedNets(nets)
    ensures SortedByNeed(sorted) && multiset(sorted) == multiset(nets)
  {
    sorted := [];
    for i := 0 to |nets|
      invariant sorted == SortedNets(nets[..i])
    {
      assert nets[..i + 1][..i] == nets[..i];
      sorted := InsertByNeed(sorted, nets[i]);
    }
    assert nets[..|nets|] == nets;
    SortedNetsSorted(nets);
    SortedNetsPermutes(nets);
  }

  // ---------------------------------------------------------------------
  // Sizing

  /** The size exponent of every network. */
  function BitsOf(nets: seq<NetEntry>): (bits: seq<nat>)
    ensures |bits| == |nets| && forall i :: 0 <= i < |nets| ==> bits[i] == MinBits(nets[i].ipsNeeded)
  {
    seq(|nets|, i requires 0 <= i < |nets| => MinBits(nets[i].ipsNeeded))
  }

  /** The number of addresses the blocks take together. */
  function SumPow2(bits: seq<nat>): nat
  {
    if bits == [] then 0 else Pow2(bits[0]) + SumPow2(bits[1..])
  }

  /** The largest exponent, 0 for none. */
  function MaxOf(bits: seq<nat>): nat
  {
    if bits == [] then 0
    else
      var m := MaxOf(bits[..|bits| - 1]);
      if bits[|bits| - 1] > m then bits[|bits| - 1] else m
  }

  /** `MaxOf` bounds every exponent and is one of them (or 0 for none). */
  lemma {:induction false} MaxOfBounds(bits: seq<nat>)
    ensures forall i :: 0 <= i < |bits| ==> bits[i] <= MaxOf(bits)
    ensures MaxOf(bits) == 0 || exists i :: 0 <= i < |bits| && bits[i] == MaxOf(bits)
  {
    if bits != [] {
      var init := bits[..|bits| - 1];
      MaxOfBounds(init);
      assert forall i :: 0 <= i < |init| ==> init[i] == bits[i];
    }
  }

  lemma {:induction false} SumPow2Snoc(bits: seq<nat>, b: nat)
    ensures SumPow2(bits + [b]) == SumPow2(bits) + Pow2(b)
  {
    if bits != [] {
      assert (bits + [b])[1..] == bits[1..] + [b];
      SumPow2Snoc(bits[1..], b);
    } else {
      assert [b][1..] == [];
    }
  }

  /** One more network in the sizing loop: its exponent joins the list, the
      total and the maximum. */
  lemma SizeStep(nets: seq<NetEntry>, i: nat, bits: seq<nat>, b: nat)
    requires i < |nets| && bits == BitsOf(nets[..i]) && b == MinBits(nets[i].ipsNeeded)
    ensures bits + [b] == BitsOf(nets[..i + 1])
    ensures SumPow2(bits + [b]) == SumPow2(bits) + Pow2(b)
    ensures MaxOf(bits + [b]) == if b > MaxOf(bits) then b else MaxOf(bits)
  {
    SumPow2Snoc(bits, b);
    assert (bits + [b])[..|bits|] == bits;
  }

  /** The sizing loop: every network's exponent, the total block size and the
      largest exponent. */
  method SizeNets(nets: seq<NetEntry>) returns (bits: seq<nat>, total: nat, maxBits: nat)
    ensures bits == BitsOf(nets)
    ensures total == SumPow2(bits)
    ensures maxBits == MaxOf(bits)
  {
    bits, total, maxBits := [], 0, 0;
    for i := 0 to |nets|
      invariant bits == BitsOf(nets[..i])
      invariant total == SumPow2(bits)
      invariant maxBits == MaxOf(bits)
    {
      var b := MinPowerOf2(nets[i].ipsNeeded);
      MinBitsUnique(nets[i].ipsNeeded, b, MinBits(nets[i].ipsNeeded));
      SizeStep(nets, i, bits, b);
      bits := bits + [b];
      total := total + Pow2(b);
      if b > maxBits {
        maxBits := b;
      }
    }
    assert nets[..|nets|] == nets;
  }

  /** Sorting by demand makes the exponents non-increasing. */
  lemma SortedBits(nets: seq<NetEntry>)
    requires SortedByNeed(nets)
    ensures forall i, j :: 0 <= i < j < |nets| ==> BitsOf(nets)[j] <= BitsOf(nets)[i]
  {
    forall i, j | 0 <= i < j < |nets|
      ensures BitsOf(nets)[j] <= BitsOf(nets)[i]
    {
      MinBitsMono(nets[j].ipsNeeded, nets[i].ipsNeeded);
    }
  }

  // ---------------------------------------------------------------------
  // Allocation

  predicate Nonincreasing(sizes: seq<nat>)
  {
    forall i, j :: 0 <= i < j < |sizes| ==> sizes[j] <= sizes[i]
  }

  predicate AtMost32(sizes: seq<nat>)
  {
    forall i :: 0 <= i < |sizes| ==> sizes[i] <= 32
  }

  /** The networks `Network(free_ip, 32 - size)` the allocation loops build,
      each starting from the address after the previous broadcast. */
  function Blocks(start: nat, sizes: seq<nat>): (r: seq<Network>)
    requires start < 4294967296 && AtMost32(sizes)
    ensures |r| == |sizes|
    decreases |sizes|
  {
    if sizes == [] then []
    else
      var n := BlockOf(start, 32 - sizes[0]);
      [n] + Blocks(NextFree(n), sizes[1..])
  }

  /** `Network(free_ip, 32 - size)` on the text of a free address number. */
  lemma NewNetworkIsBlock(free: nat, size: nat)
    requires free < 4294967296 && size <= 32
    ensures NewNetwork(FormatIp(free), PrefixArg(32 - size)) == Ok(BlockOf(free, 32 - size))
  {
    NumberText(free);
    NewNetworkSpec(FormatIp(free), PrefixArg(32 - size));
  }

  /** The address after the broadcast: the broadcast text read back as a
      number (`GetBroadcast` reads back as `BroadcastNumber`), plus one,
      wrapping modulo 2^32 as `from_number` does. */
  function NextFree(n: Network): nat
    requires WellFormed(n)
  {
    (BroadcastNumber(n) + 1) % 4294967296
  }

  /** Every block is a well-formed network of the requested size. */
  lemma {:induction false} BlocksShape(start: nat, sizes: seq<nat>)
    requires start < 4294967296 && AtMost32(sizes)
    ensures forall i :: 0 <= i < |sizes| ==> WellFormed(Blocks(start, sizes)[i]) && Blocks(start, sizes)[i].wildcard == sizes[i]
    decreases |sizes|
  {
    if sizes != [] {
      var n := BlockOf(start, 32 - sizes[0]);
      BlocksShape(NextFree(n), sizes[1..]);
    }
  }

  /** `netlib.Network(free_ip, 32 - size)` for the text of a free address. */
  function NetworkAt(free: nat, size: nat): (n: Network)
    requires free < 4294967296 && size <= 32
    ensures n == BlockOf(free, 32 - size)
  {
    NewNetworkIsBlock(free, size);
    NewNetwork(FormatIp(free), PrefixArg(32 - size)).value
  }

  /** One turn of the allocation loop keeps the blocks still to build. */
  lemma AllocateStep(start: nat, sizes: seq<nat>, i: nat, free: nat, nets: seq<Network>, n: Network)
    requires start < 4294967296 && AtMost32(sizes) && i < |sizes| && free < 4294967296
    requires nets + Blocks(free, sizes[i..]) == Blocks(start, sizes)
    requires n == BlockOf(free, 32 - sizes[i])
    ensures (nets + [n]) + Blocks(NextFree(n), sizes[i + 1..]) == Blocks(start, sizes)
  {
    var t := sizes[i..];
    assert t[1..] == sizes[i + 1..];
    BlocksFirst(free, t, n);
    AppendAssoc(nets, [n], Blocks(NextFree(n), t[1..]));
  }

  lemma BlocksFirst(free: nat, sizes: seq<nat>, n: Network)
    requires free < 4294967296 && AtMost32(sizes) && sizes != []
    requires n == BlockOf(free, 32 - sizes[0])
    ensures Blocks(free, sizes) == [n] + Blocks(NextFree(n), sizes[1..])
  {
  }

  lemma AppendAssoc(a: seq<Network>, b: seq<Network>, c: seq<Network>)
    ensures a + (b + c) == (a + b) + c
  {
  }

  /** The allocation loop shared by VLSM, MinNets and MaxNets. */
  method Allocate(start: nat, sizes: seq<nat>) returns (nets: seq<Network>)
    requires start < 4294967296 && AtMost32(sizes)
    ensures nets == Blocks(start, sizes)
  {
    nets := [];
    var free := start;
    for i := 0 to |sizes|
      invariant free < 4294967296
      invariant nets + Blocks(free, sizes[i..]) == Blocks(start, sizes)
    {
      var n := NetworkAt(free, sizes[i]);
      AllocateStep(start, sizes, i, free, nets, n);
      nets := nets + [n];
      free := NextFree(n);
    }
  }

  /** An aligned block that fits below 2^32 starts at `start` and is followed
      by the address `start + 2^size`. */
  lemma AlignedBlock(start: nat, size: nat)
    requires size <= 32 && start % Pow2(size) == 0 && start + Pow2(size) <= 4294967296
    ensures BlockOf(start, 32 - size).netid == start
    ensures BroadcastNumber(BlockOf(start, 32 - size)) + 1 == start + Pow2(size)
  {
    assert 32 - (32 - size) == size;
  }

  lemma SumPow2Prefix(sizes: seq<nat>, i: nat)
    requires 0 < i <= |sizes|
    ensures SumPow2(sizes[..i]) == Pow2(sizes[0]) + SumPow2(sizes[1..][..i - 1])
  {
    assert sizes[..i][1..] == sizes[1..][..i - 1];
  }

  /** The first block of an aligned layout, and what the rest starts from. */
  lemma LayoutHead(start: nat, sizes: seq<nat>)
    requires start < 4294967296 && AtMost32(sizes) && sizes != []
    requires start % Pow2(sizes[0]) == 0
    requires start + Pow2(sizes[0]) <= 4294967296
    ensures Blocks(start, sizes)[0].netid == start
    ensures start + Pow2(sizes[0]) < 4294967296 ==>
              Blocks(start, sizes)[1..] == Blocks(start + Pow2(sizes[0]), sizes[1..])
  {
    var n := BlockOf(start, 32 - sizes[0]);
    AlignedBlock(start, sizes[0]);
    BlocksFirst(start, sizes, n);
    if start + Pow2(sizes[0]) < 4294967296 {
      SmallMod(start + Pow2(sizes[0]), 4294967296);
      assert NextFree(n) == start + Pow2(sizes[0]);
    }
  }

  lemma LayoutRest(start: nat, sizes: seq<nat>)
    requires Nonincreasing(sizes) && |sizes| > 1
    requires start % Pow2(sizes[0]) == 0
    requires start + SumPow2(sizes) <= 4294967296
    ensures start + Pow2(sizes[0]) < 4294967296
    ensures (start + Pow2(sizes[0])) % Pow2(sizes[1]) == 0
    ensures start + Pow2(sizes[0]) + SumPow2(sizes[1..]) <= 4294967296
  {
    var s0, rest := sizes[0], sizes[1..];
    assert SumPow2(sizes) == Pow2(s0) + SumPow2(rest);
    assert SumPow2(rest) >= Pow2(rest[0]);
    assert sizes[1] <= s0;
    AlignCoarser(start, sizes[1], s0);
  }

  /** Under the conditions the planner establishes (sizes non-increasing, the
      start aligned to the first block, everything below 2^32), no block is
      rounded down: block i starts exactly at start plus the sizes before it. */
  lemma {:induction false} BlocksLayout(start: nat, sizes: seq<nat>)
    requires start < 4294967296 && AtMost32(sizes) && Nonincreasing(sizes)
    requires |sizes| > 0 ==> start % Pow2(sizes[0]) == 0
    requires start + SumPow2(sizes) <= 4294967296
    ensures forall i :: 0 <= i < |sizes| ==> Blocks(start, sizes)[i].netid == start + SumPow2(sizes[..i])
    decreases |sizes|
  {
    if sizes != [] {
      assert SumPow2(sizes) >= Pow2(sizes[0]);
      LayoutHead(start, sizes);
      if |sizes| > 1 {
        LayoutRest(start, sizes);
      }
      var b := Blocks(start, sizes);
      assert sizes[..0] == [];
      if |sizes| > 1 {
        var rest := sizes[1..];
        var next := start + Pow2(sizes[0]);
        assert Nonincreasing(rest) && AtMost32(rest);
        BlocksLayout(next, rest);
        var tail := Blocks(next, rest);
        assert b[1..] == tail;
        forall i | 1 <= i < |sizes|
          ensures b[i].netid == start + SumPow2(sizes[..i])
        {
          assert b[i] == tail[i - 1];
          assert tail[i - 1].netid == next + SumPow2(rest[..i - 1]);
          SumPow2Prefix(sizes, i);
        }
      }
    }
  }

  lemma {:induction false} SumPow2Split(sizes: seq<nat>, i: nat)
    requires i <= |sizes|
    ensures SumPow2(sizes) == SumPow2(sizes[..i]) + SumPow2(sizes[i..])
    decreases i
  {
    if i > 0 {
      SumPow2Split(sizes[1..], i - 1);
      SumPow2Prefix(sizes, i);
      assert sizes[1..][i - 1..] == sizes[i..];
    } else {
      assert sizes[..0] == [] && sizes[0..] == sizes;
    }
  }

  /** Block j starts after block i ends. */
  lemma BlocksApart(start: nat, sizes: seq<nat>, i: nat, j: nat)
    requires start < 4294967296 && AtMost32(sizes) && Nonincreasing(sizes)
    requires |sizes| > 0 ==> start % Pow2(sizes[0]) == 0
    requires start + SumPow2(sizes) <= 4294967296
    requires i < j < |sizes|
    ensures Blocks(start, sizes)[i].netid + Pow2(sizes[i]) <= Blocks(start, sizes)[j].netid
  {
    BlocksLayout(start, sizes);
    SumPow2Split(sizes[..j], i);
    assert sizes[..j][..i] == sizes[..i];
    assert sizes[..j][i..][0] == sizes[i];
  }

  /** Every block lies within `start` plus the total size. */
  lemma BlockWithin(start: nat, sizes: seq<nat>, i: nat)
    requires start < 4294967296 && AtMost32(sizes) && Nonincreasing(sizes)
    requires |sizes| > 0 ==> start % Pow2(sizes[0]) == 0
    requires start + SumPow2(sizes) <= 4294967296
    requires i < |sizes|
    ensures start <= Blocks(start, sizes)[i].netid
    ensures Blocks(start, sizes)[i].netid + Pow2(sizes[i]) <= start + SumPow2(sizes)
  {
    BlocksLayout(start, sizes);
    SumPow2Split(sizes, i);
    assert sizes[i..][0] == sizes[i];
  }

  /** Distinct blocks never overlap. */
  lemma BlocksDisjoint(start: nat, sizes: seq<nat>)
    requires start < 4294967296 && AtMost32(sizes) && Nonincreasing(sizes)
    requires |sizes| > 0 ==> start % Pow2(sizes[0]) == 0
    requires start + SumPow2(sizes) <= 4294967296
    ensures Apart(Blocks(start, sizes))
  {
    var b := Blocks(start, sizes);
    BlocksShape(start, sizes);
    forall i, j | 0 <= i < |sizes| && 0 <= j < |sizes| && i != j
      ensures !Overlap(b[i], b[j])
    {
      if i < j {
        BlocksApart(start, sizes, i, j);
      } else {
        BlocksApart(start, sizes, j, i);
      }
    }
  }

  // ---------------------------------------------------------------------
  // Fitting the plan into the system network

  /** The evident intent of the `is_in` test the Preconfigured plan calls:
      the block of `n` lies within the block of `sys`. */
  predicate Inside(sys: Network, n: Network)
  {
    sys.netid <= n.netid && n.netid + Pow2(n.wildcard) <= sys.netid + Pow2(sys.wildcard)
  }

  /** What an allocated plan promises: every network well formed, inside the
      system network and large enough for its demand, and no two overlapping. */
  predicate SoundLayout(sys: Network, nets: seq<NetEntry>, networks: seq<Network>)
  {
    && |networks| == |nets|
    && (forall i :: 0 <= i < |nets| ==>
          WellFormed(networks[i]) && Inside(sys, networks[i]) && nets[i].ipsNeeded <= Pow2(networks[i].wildcard))
    && Apart(networks)
  }

  /** No two of the networks overlap. */
  predicate Apart(networks: seq<Network>)
  {
    forall i, j :: 0 <= i < |networks| && 0 <= j < |networks| && i != j ==>
      WellFormed(networks[i]) && WellFormed(networks[j]) && !Overlap(networks[i], networks[j])
  }

  lemma Pow2Below(a: nat, b: nat)
    requires Pow2(a) <= Pow2(b)
    ensures a <= b
  {
    if a > b {
      Pow2Mono(b + 1, a);
    }
  }

  lemma {:induction false} ElementBelowSum(sizes: seq<nat>, i: nat)
    requires i < |sizes|
    ensures Pow2(sizes[i]) <= SumPow2(sizes)
    decreases i
  {
    if i > 0 {
      ElementBelowSum(sizes[1..], i - 1);
    }
  }

  /** Blocks laid out from the system network's id form a sound layout as soon
      as their sizes are non-increasing, cover each demand and add up to no
      more than the system network. */
  lemma LayoutOfSizes(sys: Network, nets: seq<NetEntry>, sizes: seq<nat>)
    requires WellFormed(sys) && |sizes| == |nets| && Nonincreasing(sizes)
    requires forall i :: 0 <= i < |sizes| ==> nets[i].ipsNeeded <= Pow2(sizes[i])
    requires SumPow2(sizes) <= Pow2(sys.wildcard)
    ensures AtMost32(sizes)
    ensures SoundLayout(sys, nets, Blocks(sys.netid, sizes))
  {
    SizesWithin(sys, sizes);
    BlocksInside(sys, sizes);
    BlocksDisjoint(sys.netid, sizes);
    var b := Blocks(sys.netid, sizes);
    forall i | 0 <= i < |nets|
      ensures WellFormed(b[i]) && Inside(sys, b[i]) && nets[i].ipsNeeded <= Pow2(b[i].wildcard)
    {
    }
  }

  /** Sizes adding up to no more than the system network each fit in it, and
      the first is aligned with the system network's id. */
  lemma SizesWithin(sys: Network, sizes: seq<nat>)
    requires WellFormed(sys) && SumPow2(sizes) <= Pow2(sys.wildcard)
    ensures forall i :: 0 <= i < |sizes| ==> sizes[i] <= sys.wildcard
    ensures AtMost32(sizes) && sys.netid + SumPow2(sizes) <= 4294967296
    ensures |sizes| > 0 ==> sys.netid % Pow2(sizes[0]) == 0
  {
    forall i | 0 <= i < |sizes|
      ensures sizes[i] <= sys.wildcard
    {
      ElementBelowSum(sizes, i);
      Pow2Below(sizes[i], sys.wildcard);
    }
    AlignedBlockFits(sys);
    if |sizes| > 0 {
      AlignCoarser(sys.netid, sizes[0], sys.wildcard);
    }
  }

  /** Blocks laid out from the system network's id have the requested sizes
      and lie inside it. */
  lemma BlocksInside(sys: Network, sizes: seq<nat>)
    requires WellFormed(sys) && Nonincreasing(sizes) && SumPow2(sizes) <= Pow2(sys.wildcard)
    ensures AtMost32(sizes)
    ensures forall i :: 0 <= i < |sizes| ==>
              WellFormed(Blocks(sys.netid, sizes)[i]) && Blocks(sys.netid, sizes)[i].wildcard == sizes[i] &&
              Inside(sys, Blocks(sys.netid, sizes)[i])
  {
    SizesWithin(sys, sizes);
    AlignedBlockFits(sys);
    BlocksShape(sys.netid, sizes);
    forall i | 0 <= i < |sizes|
      ensures Inside(sys, Blocks(sys.netid, sizes)[i])
    {
      BlockWithin(sys.netid, sizes, i);
    }
  }

  // ---------------------------------------------------------------------
  // The four plan types

  datatype PlanType = VLSM | MaxNets | MinNets | Preconfigured

  function PlanTypeName(t: PlanType): string
  {
    match t
    case VLSM => "VLSM"
    case MaxNets => "MaxNets"
    case MinNets => "MinNets"
    case Preconfigured => "Preconfigured"
  }

  /** The `type` entry of the configuration, accepted only when it names a plan. */
  function ParsePlanType(s: string): (r: Option<PlanType>)
    ensures r.Some? ==> PlanTypeName(r.value) == s
    ensures r.None? ==> forall t :: PlanTypeName(t) != s
  {
    if s == "VLSM" then Some(VLSM)
    else if s == "MaxNets" then Some(MaxNets)
    else if s == "MinNets" then Some(MinNets)
    else if s == "Preconfigured" then Some(Preconfigured)
    else None
  }

  /** `n` copies of one size. */
  function Uniform(size: nat, n: nat): (r: seq<nat>)
    ensures |r| == n && forall i :: 0 <= i < n ==> r[i] == size
  {
    seq(n, _ => size)
  }

  lemma {:induction false} SumUniform(size: nat, n: nat)
    ensures SumPow2(Uniform(size, n)) == n * Pow2(size)
  {
    if n > 0 {
      assert Uniform(size, n)[1..] == Uniform(size, n - 1);
      SumUniform(size, n - 1);
    }
  }

  /** The MinNets and MaxNets plans need room for `2^min_nets` blocks of the
      largest size. */
  predicate UniformFits(sys: Network, nets: seq<NetEntry>)
  {
    sys.prefix + MinBits(|nets|) + MaxOf(BitsOf(nets)) <= 32
  }

  /** The block size exponent of every network under each allocating plan:
      VLSM gives each network its own size, MinNets splits the system network
      into `2^min_nets` equal blocks and MaxNets uses the largest size for all. */
  function PlanSizes(kind: PlanType, sys: Network, nets: seq<NetEntry>): (r: seq<nat>)
    requires kind != Preconfigured
    requires kind != VLSM ==> UniformFits(sys, nets)
    ensures |r| == |nets|
  {
    match kind
    case VLSM => BitsOf(nets)
    case MinNets => Uniform(32 - (sys.prefix + MinBits(|nets|)), |nets|)
    case MaxNets => Uniform(MaxOf(BitsOf(nets)), |nets|)
  }

  /** `n` equal blocks of `2^q` fit a block of `2^w` when `n <= 2^m` and
      `m + q <= w`. */
  lemma UniformTotal(n: nat, m: nat, q: nat, w: nat)
    requires n <= Pow2(m) && m + q <= w
    ensures SumPow2(Uniform(q, n)) <= Pow2(w)
  {
    var a, b := Pow2(q), Pow2(m);
    SumUniform(q, n);
    MulMono(a, n, b);
    assert n * a == a * n;
    Pow2Add(q, m);
    Pow2Mono(q + m, w);
  }

  /** Equal blocks of at least the largest size cover every demand. */
  lemma UniformCovers(nets: seq<NetEntry>, q: nat)
    requires MaxOf(BitsOf(nets)) <= q
    ensures forall i :: 0 <= i < |nets| ==> nets[i].ipsNeeded <= Pow2(Uniform(q, |nets|)[i])
  {
    var bits := BitsOf(nets);
    MaxOfBounds(bits);
    forall i | 0 <= i < |nets|
      ensures nets[i].ipsNeeded <= Pow2(q)
    {
      Pow2Mono(bits[i], q);
    }
  }

  /** Once the planner's checks pass, the sizes of every allocating plan meet
      the conditions of `LayoutOfSizes`. */
  lemma PlanSizesFit(kind: PlanType, sys: Network, nets: seq<NetEntry>)
    requires kind != Preconfigured && WellFormed(sys) && SortedByNeed(nets)
    requires SumPow2(BitsOf(nets)) <= Pow2(sys.wildcard)
    requires kind != VLSM ==> UniformFits(sys, nets)
    ensures Nonincreasing(PlanSizes(kind, sys, nets))
    ensures forall i :: 0 <= i < |nets| ==> nets[i].ipsNeeded <= Pow2(PlanSizes(kind, sys, nets)[i])
    ensures SumPow2(PlanSizes(kind, sys, nets)) <= Pow2(sys.wildcard)
  {
    if kind == VLSM {
      SortedBits(nets);
    } else {
      var n, m, top := |nets|, MinBits(|nets|), MaxOf(BitsOf(nets));
      var q := if kind == MinNets then 32 - (sys.prefix + m) else top;
      assert PlanSizes(kind, sys, nets) == Uniform(q, n);
      UniformCovers(nets, q);
      UniformTotal(n, m, q, sys.wildcard);
    }
  }

  // ---------------------------------------------------------------------
  // The Preconfigured plan

  /** `netlib.Network(netid, netmask)` of every configured network. */
  function Declared(nets: seq<NetEntry>): (r: seq<Result<Network, NetError>>)
    ensures |r| == |nets|
  {
    seq(|nets|, i requires 0 <= i < |nets| => NewNetwork(nets[i].spec.netid, nets[i].spec.netmask))
  }

  lemma DeclaredAt(nets: seq<NetEntry>, k: nat)
    requires k < |nets|
    ensures Declared(nets)[k] == NewNetwork(nets[k].spec.netid, nets[k].spec.netmask)
  {
  }

  /** A declared network is usable when it is valid and inside the system. */
  predicate Usable(sys: Network, d: Result<Network, NetError>)
  {
    d.Ok? && Inside(sys, d.value)
  }

  /** The Preconfigured plan over the declared networks: each network keeps
      its own block; the first one that is invalid or outside the system
      network stops the plan, naming that network. */
  function Preconfigure(sys: Network, nets: seq<NetEntry>, declared: seq<Result<Network, NetError>>): Result<seq<Network>, PlanError>
    requires |declared| == |nets|
  {
    if nets == [] then Ok([])
    else if !Usable(sys, declared[0]) then Err(BadPreconfigured(nets[0].spec.name))
    else
      match Preconfigure(sys, nets[1..], declared[1..])
      case Ok(rest) => Ok([declared[0].value] + rest)
      case Err(e) => Err(e)
  }

  /** The plan succeeds exactly when every declared network is usable, keeps
      each network's own block, and otherwise names the first network that
      is not usable. */
  lemma {:induction false} PreconfigureSpec(sys: Network, nets: seq<NetEntry>, declared: seq<Result<Network, NetError>>)
    requires |declared| == |nets|
    ensures Preconfigure(sys, nets, declared).Ok? <==> forall i :: 0 <= i < |nets| ==> Usable(sys, declared[i])
    ensures Preconfigure(sys, nets, declared).Ok? ==>
              |Preconfigure(sys, nets, declared).value| == |nets| &&
              forall i :: 0 <= i < |nets| ==> Preconfigure(sys, nets, declared).value[i] == declared[i].value
    ensures Preconfigure(sys, nets, declared).Err? ==>
              exists k :: 0 <= k < |nets| && !Usable(sys, declared[k]) &&
                (forall i :: 0 <= i < k ==> Usable(sys, declared[i])) &&
                Preconfigure(sys, nets, declared).error == BadPreconfigured(nets[k].spec.name)
  {
    if nets != [] && Usable(sys, declared[0]) {
      var t, u := nets[1..], declared[1..];
      PreconfigureSpec(sys, t, u);
      assert forall i :: 1 <= i < |nets| ==> nets[i] == t[i - 1] && declared[i] == u[i - 1];
      if Preconfigure(sys, t, u).Err? {
        var k :| 0 <= k < |t| && !Usable(sys, u[k]) &&
                 (forall i :: 0 <= i < k ==> Usable(sys, u[i])) &&
                 Preconfigure(sys, t, u).error == BadPreconfigured(t[k].spec.name);
        assert forall i :: 0 <= i < k + 1 ==> Usable(sys, declared[i]) by {
          forall i | 0 <= i < k + 1
            ensures Usable(sys, declared[i])
          {
            if i > 0 {
              assert Usable(sys, u[i - 1]);
            }
          }
        }
      }
    }
  }

  /** The first network that is not usable decides the error. */
  lemma PreconfigureFirstBad(sys: Network, nets: seq<NetEntry>, declared: seq<Result<Network, NetError>>, k: nat)
    requires |declared| == |nets| && k < |nets| && !Usable(sys, declared[k])
    requires forall i :: 0 <= i < k ==> Usable(sys, declared[i])
    ensures Preconfigure(sys, nets, declared) == Err(BadPreconfigured(nets[k].spec.name))
  {
    PreconfigureSpec(sys, nets, declared);
    var k' :| 0 <= k' < |nets| && !Usable(sys, declared[k']) &&
              (forall i :: 0 <= i < k' ==> Usable(sys, declared[i])) &&
              Preconfigure(sys, nets, declared).error == BadPreconfigured(nets[k'].spec.name);
    assert k' == k;
  }

  lemma PreconfigureAllOk(sys: Network, nets: seq<NetEntry>, declared: seq<Result<Network, NetError>>, placed: seq<Network>)
    requires |declared| == |nets| && |placed| == |nets|
    requires forall i :: 0 <= i < |nets| ==> Usable(sys, declared[i]) && placed[i] == declared[i].value
    ensures Preconfigure(sys, nets, declared) == Ok(placed)
  {
    PreconfigureSpec(sys, nets, declared);
    var v := Preconfigure(sys, nets, declared).value;
    assert |v| == |placed| && forall i :: 0 <= i < |v| ==> v[i] == placed[i];
    assert v == placed;
  }

  /** The Preconfigured loop. */
  method PlacePreconfigured(sys: Network, nets: seq<NetEntry>) returns (r: Result<seq<Network>, PlanError>)
    ensures r == Preconfigure(sys, nets, Declared(nets))
  {
    ghost var declared := Declared(nets);
    var placed: seq<Network> := [];
    for k := 0 to |nets|
      invariant |placed| == k
      invariant forall i :: 0 <= i < k ==> Usable(sys, declared[i]) && placed[i] == declared[i].value
    {
      var n := NewNetwork(nets[k].spec.netid, nets[k].spec.netmask);
      DeclaredAt(nets, k);
      if n.Err? || !Inside(sys, n.value) {
        PreconfigureFirstBad(sys, nets, declared, k);
        return Err(BadPreconfigured(nets[k].spec.name));
      }
      placed := placed + [n.value];
    }
    PreconfigureAllOk(sys, nets, declared, placed);
    return Ok(placed);
  }

  // ---------------------------------------------------------------------
  // The planner

  /** The `configuration` section, when present and not empty. */
  datatype ConfigSection = ConfigSection(ip: string, mask: MaskArg, planType: string, borderRouter: Option<string>)

  /** A parsed system description. */
  datatype SystemConfig = SystemConfig(configuration: Option<ConfigSection>, networks: seq<NetSpec>, namedNodes: seq<NodeSpec>)

  /** The outcome of planning: the system network, the networks in demand
      order with the block each one gets, and the named nodes that are kept. */
  datatype Plan = Plan(system: Network, kind: PlanType, nets: seq<NetEntry>, networks: seq<Network>, nodes: seq<NodeSpec>)

  /** The blocks of an allocating plan whose checks have passed. */
  function Allocation(kind: PlanType, sys: Network, nets: seq<NetEntry>): seq<Network>
    requires kind != Preconfigured && WellFormed(sys) && SortedByNeed(nets)
    requires SumPow2(BitsOf(nets)) <= Pow2(sys.wildcard)
    requires kind != VLSM ==> UniformFits(sys, nets)
  {
    PlanSizesFit(kind, sys, nets);
    LayoutOfSizes(sys, nets, PlanSizes(kind, sys, nets));
    Blocks(sys.netid, PlanSizes(kind, sys, nets))
  }

  /** The blocks of the networks once the capacity check has passed. */
  function Layout(kind: PlanType, sys: Network, nets: seq<NetEntry>): Result<seq<Network>, PlanError>
    requires WellFormed(sys) && SortedByNeed(nets)
    requires SumPow2(BitsOf(nets)) <= Pow2(sys.wildcard)
  {
    if kind == Preconfigured then Preconfigure(sys, nets, Declared(nets))
    else if kind != VLSM && !UniformFits(sys, nets) then Err(PlanDoesNotFit)
    else Ok(Allocation(kind, sys, nets))
  }

  /** A description that passed the checks before sizing: the system
      network, the plan type, the networks with their attached nodes, in
      configuration order, and the named nodes that are kept. */
  datatype Admission = Admission(system: Network, kind: PlanType, nets: seq<NetEntry>, nodes: seq<NodeSpec>)

  /** The checks on a system description up to the attachment of the named
      nodes, in the order the planner makes them. */
  function Admitted(cfg: SystemConfig): (r: Result<Admission, PlanError>)
    ensures r.Ok? ==> WellFormed(r.value.system)
  {
    if cfg.configuration.None? then Err(NoConfiguration)
    else
      var c := cfg.configuration.value;
      var sys := NewNetwork(c.ip, c.mask);
      if sys.Err? then Err(InvalidSystemNet(sys.error))
      else if ParsePlanType(c.planType).None? then Err(InvalidPlanType)
      else if cfg.networks == [] then Err(NoNetworks)
      else if !DistinctNames(cfg.networks) then Err(RepeatedNetwork(FirstRepeated(cfg.networks)))
      else
        var attached := AttachAll(Entries(cfg.networks), cfg.namedNodes);
        if attached.Err? then Err(attached.error)
        else Ok(Admission(sys.value, ParsePlanType(c.planType).value, attached.value, Kept(cfg.namedNodes)))
  }

  /** Sorting, the capacity check and the layout of an admitted description. */
  function Planned(a: Admission): Result<Plan, PlanError>
    requires WellFormed(a.system)
  {
    var nets := SortedNets(a.nets);
    SortedNetsSorted(a.nets);
    var total := SumPow2(BitsOf(nets));
    if total > Pow2(a.system.wildcard) then Err(NotEnoughAddresses(total))
    else
      var layout := Layout(a.kind, a.system, nets);
      if layout.Err? then Err(layout.error)
      else Ok(Plan(a.system, a.kind, nets, layout.value, a.nodes))
  }

  /** What analysing a system description yields up to its interfaces. */
  function PlanOf(cfg: SystemConfig): Result<Plan, PlanError>
  {
    match Admitted(cfg)
    case Err(e) => Err(e)
    case Ok(a) => Planned(a)
  }

  method Admit(cfg: SystemConfig) returns (r: Result<Admission, PlanError>)
    ensures r == Admitted(cfg)
  {
    if cfg.configuration.None? {
      return Err(NoConfiguration);
    }
    var c := cfg.configuration.value;
    var sys := NewNetwork(c.ip, c.mask);
    if sys.Err? {
      return Err(InvalidSystemNet(sys.error));
    }
    var kind := ParsePlanType(c.planType);
    if kind.None? {
      return Err(InvalidPlanType);
    }
    if |cfg.networks| == 0 {
      return Err(NoNetworks);
    }
    var entries := CollectNetworks(cfg.networks);
    if entries.Err? {
      return Err(entries.error);
    }
    var attached := AttachNodes(entries.value, cfg.namedNodes);
    if attached.Err? {
      return Err(attached.error);
    }
    return Ok(Admission(sys.value, kind.value, attached.value.0, attached.value.1));
  }

  /** The block size of every network: its own under VLSM, and the one
      prefix the MinNets and MaxNets plans compute. */
  method BlockSizes(kind: PlanType, sys: Network, nets: seq<NetEntry>, minNets: nat, maxBits: nat) returns (sizes: seq<nat>)
    requires kind != Preconfigured
    requires minNets == MinBits(|nets|) && maxBits == MaxOf(BitsOf(nets))
    requires kind != VLSM ==> UniformFits(sys, nets)
    ensures sizes == PlanSizes(kind, sys, nets)
  {
    if kind == VLSM {
      sizes := BitsOf(nets);
    } else if kind == MinNets {
      var prefix := sys.prefix + minNets;
      sizes := Uniform(32 - prefix, |nets|);
    } else {
      var prefix := 32 - maxBits;
      sizes := Uniform(32 - prefix, |nets|);
    }
  }

  /** The allocation loops of VLSM, MinNets and MaxNets. */
  method AllocatePlan(kind: PlanType, sys: Network, nets: seq<NetEntry>, minNets: nat, maxBits: nat) returns (networks: seq<Network>)
    requires kind != Preconfigured && WellFormed(sys) && SortedByNeed(nets)
    requires SumPow2(BitsOf(nets)) <= Pow2(sys.wildcard)
    requires minNets == MinBits(|nets|) && maxBits == MaxOf(BitsOf(nets))
    requires kind != VLSM ==> UniformFits(sys, nets)
    ensures networks == Allocation(kind, sys, nets)
  {
    var sizes := BlockSizes(kind, sys, nets, minNets, maxBits);
    PlanSizesFit(kind, sys, nets);
    LayoutOfSizes(sys, nets, sizes);
    networks := Allocate(sys.netid, sizes);
  }

  /** Sorting, sizing, the capacity check and the layout. */
  method PlanAdmitted(a: Admission) returns (r: Result<Plan, PlanError>)
    requires WellFormed(a.system)
    ensures r == Planned(a)
  {
    var sys := a.system;
    var nets := SortByNeed(a.nets);
    var minNets := MinPowerOf2(|nets|);
    MinBitsUnique(|nets|, minNets, MinBits(|nets|));
    var bits, total, maxBits := SizeNets(nets);
    assert NumberOfHosts(sys) + 2 == Pow2(sys.wildcard);
    if total > NumberOfHosts(sys) + 2 {
      return Err(NotEnoughAddresses(total));
    }
    var networks: seq<Network>;
    if a.kind == Preconfigured {
      var placed := PlacePreconfigured(sys, nets);
      assert Layout(a.kind, sys, nets) == placed;
      if placed.Err? {
        return Err(placed.error);
      }
      networks := placed.value;
    } else {
      if a.kind != VLSM && sys.prefix + minNets + maxBits > 32 {
        assert Layout(a.kind, sys, nets) == Err(PlanDoesNotFit);
        return Err(PlanDoesNotFit);
      }
      networks := AllocatePlan(a.kind, sys, nets, minNets, maxBits);
      assert Layout(a.kind, sys, nets) == Ok(networks);
    }
    return Ok(Plan(sys, a.kind, nets, networks, a.nodes));
  }

  /** `__analyze_nets` up to the creation of the interfaces. */
  method PlanNetworks(cfg: SystemConfig) returns (r: Result<Plan, PlanError>)
    ensures r == PlanOf(cfg)
  {
    var a := Admit(cfg);
    if a.Err? {
      return Err(a.error);
    }
    r := PlanAdmitted(a.value);
  }

  /** An admitted description keeps the system network and plan type it
      names, and each network's demand counts its hosts, its id, its
      broadcast and the named nodes attached to it. */
  lemma AdmittedSound(cfg: SystemConfig)
    requires Admitted(cfg).Ok?
    ensures var a := Admitted(cfg).value;
      && cfg.configuration.Some?
      && a.system == NewNetwork(cfg.configuration.value.ip, cfg.configuration.value.mask).value
      && PlanTypeName(a.kind) == cfg.configuration.value.planType
      && |a.nets| == |cfg.networks| >= 1
      && (forall i :: 0 <= i < |a.nets| ==>
            a.nets[i].spec == cfg.networks[i] &&
            a.nets[i].ipsNeeded == cfg.networks[i].hosts + 2 + |Attachments(cfg.namedNodes, cfg.networks[i].name)|)
      && a.nodes == Kept(cfg.namedNodes)
  {
    Demand(cfg.networks, cfg.namedNodes);
  }

  /** A successful plan keeps every admitted network once, in decreasing
      order of demand, within the capacity of the system network; the
      allocating plans give every network a block of its own inside the
      system network, and the Preconfigured plan keeps each network's own
      block, inside the system network. */
  lemma PlannedSound(a: Admission)
    requires WellFormed(a.system) && Planned(a).Ok?
    ensures var p := Planned(a).value;
      && p.system == a.system && p.kind == a.kind && p.nodes == a.nodes
      && multiset(p.nets) == multiset(a.nets)
      && SortedByNeed(p.nets)
      && SumPow2(BitsOf(p.nets)) <= Pow2(p.system.wildcard)
      && |p.networks| == |p.nets|
      && (p.kind != Preconfigured ==> SoundLayout(p.system, p.nets, p.networks))
      && (p.kind == Preconfigured ==>
            forall i :: 0 <= i < |p.nets| ==>
              Usable(p.system, Declared(p.nets)[i]) && p.networks[i] == Declared(p.nets)[i].value)
  {
    var p := Planned(a).value;
    SortedNetsPermutes(a.nets);
    SortedNetsSorted(a.nets);
    if p.kind != Preconfigured {
      PlanSizesFit(p.kind, p.system, p.nets);
      LayoutOfSizes(p.system, p.nets, PlanSizes(p.kind, p.system, p.nets));
    } else {
      PreconfigureSpec(p.system, p.nets, Declared(p.nets));
    }
  }
}
