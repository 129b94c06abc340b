/** The last stage of building a network system from its description: the
    kept named nodes become `Node` objects with one interface per network they
    name, each interface gets a MAC address (the configured one, or a
    generated one no other node uses) and, unless the plan is Preconfigured,
    the next free address of its network; then the border router is marked. */
module NetSystem {
  import opened Base
  import opened Arith
  import opened IpLib
  import opened NetLib
  import opened MacLib
  import opened NetNode
  import opened NetPlan

  // ---------------------------------------------------------------------
  // Generated MAC addresses

  /** The number of 48-bit MAC addresses. */
  const MacSpace: nat := 0x1_0000_0000_0000

  /** A digit below 16 as a lower-case hex character. */
  function HexChar(d: nat): (c: char)
    requires d < 16
    ensures IsHexDigit(c) && HexValue(c) == d
  {
    if d < 10 then ('0' as int + d) as char else ('a' as int + d - 10) as char
  }

  /** Octet k of the 48-bit value v, counted from the most significant. */
  function MacByte(v: nat, k: nat): (b: nat)
    requires k < 6
    ensures b < 256
  {
    var shift := [0x100_0000_0000, 0x1_0000_0000, 0x100_0000, 0x1_0000, 0x100, 1];
    (v / shift[k]) % 256
  }

  /** The text of the address numbered v: six pairs of lower-case hex digits
      joined by `:`. */
  function FormatMac(v: nat): string
  {
    seq(17, i requires 0 <= i < 17 =>
      if i % 3 == 2 then ':'
      else if i % 3 == 0 then HexChar(MacByte(v, i / 3) / 16)
      else HexChar(MacByte(v, i / 3) % 16))
  }

  /** The text of an address number is accepted by `MACAddress` and stored
      unchanged, and its octets are the bytes of the number. */
  lemma FormatMacSpells(v: nat)
    ensures NewMac(FormatMac(v)) == Ok(MacAddress(FormatMac(v)))
    ensures forall k :: 0 <= k < 6 ==> Octet(MacAddress(FormatMac(v)), k) == MacByte(v, k)
  {
    var r := FormatMac(v);
    assert Lower(r) == r;
    assert Normalize(r) == r;
    forall k | 0 <= k < 6
      ensures Octet(MacAddress(r), k) == MacByte(v, k)
    {
      assert (3 * k) / 3 == k && (3 * k + 1) / 3 == k;
      assert (3 * k) % 3 == 0 && (3 * k + 1) % 3 == 1;
    }
  }

  /** Dividing by s is dividing by 256 s, then taking one more base-256 digit. */
  lemma Peel(v: nat, s: nat)
    requires s > 0
    ensures v / s == (v / (s * 256)) * 256 + (v / s) % 256
  {
    DivDiv(v, s, 256);
  }

  /** Six octets determine an address number. */
  lemma MacBytesDetermine(a: nat, b: nat)
    requires a < MacSpace && b < MacSpace
    requires forall k :: 0 <= k < 6 ==> MacByte(a, k) == MacByte(b, k)
    ensures a == b
  {
    var shift := [0x100_0000_0000, 0x1_0000_0000, 0x100_0000, 0x1_0000, 0x100, 1];
    assert a / shift[0] == MacByte(a, 0) && b / shift[0] == MacByte(b, 0);
    var k := 1;
    while k < 6
      invariant 1 <= k <= 6
      invariant a / shift[k - 1] == b / shift[k - 1]
    {
      assert shift[k - 1] == shift[k] * 256;
      Peel(a, shift[k]);
      Peel(b, shift[k]);
      assert MacByte(a, k) == (a / shift[k]) % 256 && MacByte(b, k) == (b / shift[k]) % 256;
      k := k + 1;
    }
  }

  /** Different address numbers have different texts. */
  lemma FormatMacInjective(a: nat, b: nat)
    requires a < MacSpace && b < MacSpace && FormatMac(a) == FormatMac(b)
    ensures a == b
  {
    FormatMacSpells(a);
    FormatMacSpells(b);
    MacBytesDetermine(a, b);
  }

  /** The texts of the addresses numbered below n. */
  ghost function MacTexts(n: nat): set<string>
  {
    set j | 0 <= j < n :: FormatMac(j)
  }

  lemma {:induction false} MacTextsCount(n: nat)
    requires n <= MacSpace
    ensures |MacTexts(n)| == n
  {
    if n > 0 {
      MacTextsCount(n - 1);
      assert MacTexts(n) == MacTexts(n - 1) + {FormatMac(n - 1)};
      if FormatMac(n - 1) in MacTexts(n - 1) {
        var j :| 0 <= j < n - 1 && FormatMac(j) == FormatMac(n - 1);
        FormatMacInjective(j, n - 1);
      }
    }
  }

  lemma {:induction false} SubsetSize(a: set<string>, b: set<string>)
    requires a <= b
    ensures |a| <= |b|
  {
    if a != {} {
      var x :| x in a;
      SubsetSize(a - {x}, b - {x});
    }
  }

  lemma {:induction false} DistinctAtMostLength(t: seq<string>)
    ensures |set x | x in t| <= |t|
  {
    if t != [] {
      var init := t[..|t| - 1];
      var last := t[|t| - 1];
      DistinctAtMostLength(init);
      var before := set x | x in init;
      assert |before + {last}| <= |before| + 1 by {
        if last in before {
          assert before + {last} == before;
        }
      }
      assert (set x | x in t) <= before + {last} by {
        forall x | x in t
          ensures x in init || x == last
        {
          var i :| 0 <= i < |t| && t[i] == x;
          if i < |t| - 1 {
            assert init[i] == x;
          }
        }
      }
      SubsetSize((set x | x in t), before + {last});
    }
  }

  /** The addresses run out only when the used texts and the ones added
      number at least as many as there are addresses. */
  lemma RunsOutNeedsRoom(used: seq<string>, budget: nat)
    requires RunsOut(used, 0, budget)
    ensures |used| + budget >= MacSpace
  {
    var added :| |added| <= budget && AllUsed(used + added, 0, MacSpace);
    var all := used + added;
    MacTextsCount(MacSpace);
    DistinctAtMostLength(all);
    SubsetSize(MacTexts(MacSpace), (set x | x in all));
  }

  /** The search `while str(free_mac) in used_macs: free_mac = free_mac.next_mac()`,
      with `next_mac` giving the address numbered one above and failing after
      ff:ff:ff:ff:ff:ff: the least number from c on whose text is unused. */
  method FreeMacFrom(used: seq<string>, c: nat) returns (r: Option<nat>)
    requires c < MacSpace
    ensures r.Some? ==> c <= r.value < MacSpace && FormatMac(r.value) !in used
    ensures r.Some? ==> forall j :: c <= j < r.value ==> FormatMac(j) in used
    ensures r.None? ==> forall j :: c <= j < MacSpace ==> FormatMac(j) in used
  {
    var free := c;
    while FormatMac(free) in used
      invariant c <= free < MacSpace
      invariant forall j :: c <= j < free ==> FormatMac(j) in used
      decreases MacSpace - free
    {
      if free + 1 == MacSpace {
        return None;
      }
      free := free + 1;
    }
    return Some(free);
  }

  /** The text of some address number. */
  predicate Generated(t: string)
  {
    exists v :: 0 <= v < MacSpace && FormatMac(v) == t
  }

  /** Every text of `added` is absent from `used` and different from every
      other text of `added`. */
  predicate FreshTexts(used: seq<string>, added: seq<string>)
  {
    && (forall k :: 0 <= k < |added| ==> added[k] !in used)
    && (forall k, l :: 0 <= k < l < |added| ==> added[k] != added[l])
  }

  lemma FreshTextsAppend(used: seq<string>, a: seq<string>, b: seq<string>)
    requires FreshTexts(used, a) && FreshTexts(used + a, b)
    ensures FreshTexts(used, a + b)
  {
    var c := a + b;
    forall k, l | 0 <= k < l < |c|
      ensures c[k] != c[l]
    {
      if l >= |a| && k < |a| {
        assert c[k] in used + a;
      }
    }
  }

  function Max(a: nat, b: nat): nat
  {
    if a < b then b else a
  }

  /** Every address numbered from `from` up to `to` has its text in `used`. */
  ghost predicate AllUsed(used: seq<string>, from: nat, to: nat)
  {
    forall j :: from <= j < to ==> FormatMac(j) in used
  }

  lemma AllUsedJoin(used: seq<string>, more: seq<string>, a: nat, b: nat, c: nat)
    requires AllUsed(used, a, b) && AllUsed(used + more, b, c)
    ensures AllUsed(used + more, a, c)
  {
    forall j | a <= j < c
      ensures FormatMac(j) in used + more
    {
      if j < b {
        assert FormatMac(j) in used;
      }
    }
  }

  /** The addresses run out: with at most `budget` more texts, every address
      numbered from `from` on is in use. */
  ghost predicate RunsOut(used: seq<string>, from: nat, budget: nat)
  {
    exists added: seq<string> :: |added| <= budget && AllUsed(used + added, from, MacSpace)
  }

  /** One node's `while len(n['macs']) < len(n['networks'])` loop: the
      addresses appended to `macs` until it has `want` entries, and the free
      address number it leaves behind; None when the addresses run out, and
      then every address from `c` on is in use. */
  method FillMacs(macs: seq<string>, want: nat, used: seq<string>, c: nat) returns (added: seq<string>, next: Option<nat>)
    requires c < MacSpace && FormatMac(c) !in used
    ensures |macs| + |added| <= Max(|macs|, want)
    ensures FreshTexts(used, added)
    ensures forall k :: 0 <= k < |added| ==> Generated(added[k])
    ensures next.Some? ==> |macs| + |added| == Max(|macs|, want)
    ensures next.Some? ==> next.value < MacSpace && FormatMac(next.value) !in used + added
    ensures next.Some? ==> c <= next.value && AllUsed(used + added, c, next.value)
    ensures next.None? ==> AllUsed(used + added, c, MacSpace)
  {
    added := [];
    var free: nat := c;
    assert used + added == used;
    while |macs| + |added| < want
      invariant |macs| + |added| <= Max(|macs|, want)
      invariant FreshTexts(used, added)
      invariant forall k :: 0 <= k < |added| ==> Generated(added[k])
      invariant c <= free < MacSpace && FormatMac(free) !in used + added
      invariant AllUsed(used + added, c, free)
    {
      ghost var before := added;
      added := added + [FormatMac(free)];
      assert FreshTexts(used + before, [FormatMac(free)]);
      FreshTextsAppend(used, before, [FormatMac(free)]);
      assert used + added == (used + before) + [FormatMac(free)];
      AllUsedJoin(used + before, [FormatMac(free)], c, free, free + 1);
      var found := FreeMacFrom(used + added, free);
      AllUsedJoin(used + added, [], c, free + 1, if found.Some? then found.value else MacSpace);
      assert used + added + [] == used + added;
      if found.None? {
        return added, None;
      }
      free := found.value;
    }
    return added, Some(free);
  }

  // ---------------------------------------------------------------------
  // MAC lists of the kept nodes

  /** `used_macs` after the first pass: the configured MACs of every node, in order. */
  function ConfiguredMacs(specs: seq<NodeSpec>): (r: seq<string>)
    ensures forall h, i :: 0 <= h < |specs| && 0 <= i < |specs[h].macs| ==> specs[h].macs[i] in r
  {
    if specs == [] then []
    else
      var init := ConfiguredMacs(specs[..|specs| - 1]);
      assert forall h :: 0 <= h < |specs| - 1 ==> specs[..|specs| - 1][h] == specs[h];
      init + specs[|specs| - 1].macs
  }

  /** Each list starts with the configured MACs of its node and is as long as
      the node's network list, or longer when more MACs were configured. */
  predicate Filled(specs: seq<NodeSpec>, lists: seq<seq<string>>)
  {
    && |lists| == |specs|
    && forall h :: 0 <= h < |specs| ==>
         |lists[h]| == Max(|specs[h].macs|, |specs[h].networks|) && lists[h][..|specs[h].macs|] == specs[h].macs
  }

  /** The MACs appended to the lists, node by node. */
  function AddedMacs(specs: seq<NodeSpec>, lists: seq<seq<string>>): seq<string>
    requires Filled(specs, lists)
  {
    if specs == [] then []
    else
      var n := |specs| - 1;
      assert Filled(specs[..n], lists[..n]) by {
        assert forall h :: 0 <= h < n ==> specs[..n][h] == specs[h] && lists[..n][h] == lists[h];
      }
      AddedMacs(specs[..n], lists[..n]) + lists[n][|specs[n].macs|..]
  }

  lemma AddedMacsSnoc(specs: seq<NodeSpec>, lists: seq<seq<string>>, h: nat)
    requires h < |specs| && Filled(specs, lists)
    ensures Filled(specs[..h], lists[..h]) && Filled(specs[..h + 1], lists[..h + 1])
    ensures AddedMacs(specs[..h + 1], lists[..h + 1]) == AddedMacs(specs[..h], lists[..h]) + lists[h][|specs[h].macs|..]
  {
    assert specs[..h + 1][..h] == specs[..h] && lists[..h + 1][..h] == lists[..h];
  }

  /** Appending one node's filled list keeps the lists filled and adds its
      generated MACs at the end of the added ones. */
  lemma ListsStep(specs: seq<NodeSpec>, h: nat, lists: seq<seq<string>>, added: seq<string>)
    requires h < |specs| && Filled(specs[..h], lists)
    requires |specs[h].macs| + |added| == Max(|specs[h].macs|, |specs[h].networks|)
    ensures Filled(specs[..h + 1], lists + [specs[h].macs + added])
    ensures AddedMacs(specs[..h + 1], lists + [specs[h].macs + added]) == AddedMacs(specs[..h], lists) + added
  {
    var list := specs[h].macs + added;
    var next := lists + [list];
    assert list[|specs[h].macs|..] == added;
    assert list[..|specs[h].macs|] == specs[h].macs;
    assert Filled(specs[..h + 1], next) by {
      assert forall k :: 0 <= k < h ==> specs[..h + 1][k] == specs[..h][k] && next[k] == lists[k];
    }
    AddedMacsSnoc(specs[..h + 1], next, h);
    assert specs[..h + 1][..h] == specs[..h] && next[..h] == lists && next[..h + 1] == next;
  }

  /** Generated MACs pass the check, so a rejected one was configured. */
  lemma InvalidIsConfigured(macs: seq<string>, added: seq<string>, i: nat)
    requires (forall k :: 0 <= k < |added| ==> Generated(added[k])) && i < |macs + added| && !CheckMac((macs + added)[i])
    ensures i < |macs| && (macs + added)[i] == macs[i]
  {
    forall k | |macs| <= k < |macs + added|
      ensures CheckMac((macs + added)[k])
    {
      var v :| 0 <= v < MacSpace && FormatMac(v) == added[k - |macs|];
      FormatMacSpells(v);
      assert (macs + added)[k] == FormatMac(v);
    }
  }

  lemma ConfiguredOfNode(specs: seq<NodeSpec>, h: nat, t: string)
    requires h < |specs| && t in specs[h].macs
    ensures t in ConfiguredMacs(specs)
  {
    var i :| 0 <= i < |specs[h].macs| && specs[h].macs[i] == t;
  }

  /** The MAC bookkeeping of `__create_interfaces` after h nodes: the lists
      filled so far, `used_macs` holding the configured MACs and then the
      generated ones, and `free_mac` unused. */
  ghost predicate MacsSoFar(specs: seq<NodeSpec>, h: nat, lists: seq<seq<string>>, used: seq<string>, free: nat, configured: seq<string>)
  {
    && h <= |specs|
    && Filled(specs[..h], lists)
    && used == configured + AddedMacs(specs[..h], lists)
    && free < MacSpace && FormatMac(free) !in used
    && FreshTexts(configured, AddedMacs(specs[..h], lists))
  }

  lemma MacsStep(specs: seq<NodeSpec>, h: nat, lists: seq<seq<string>>, used: seq<string>, free: nat, configured: seq<string>,
                 added: seq<string>, next: nat)
    requires h < |specs| && MacsSoFar(specs, h, lists, used, free, configured)
    requires |specs[h].macs| + |added| == Max(|specs[h].macs|, |specs[h].networks|)
    requires FreshTexts(used, added) && next < MacSpace && FormatMac(next) !in used + added
    ensures MacsSoFar(specs, h + 1, lists + [specs[h].macs + added], used + added, next, configured)
    ensures AddedMacs(specs[..h + 1], lists + [specs[h].macs + added]) == AddedMacs(specs[..h], lists) + added
  {
    FreshTextsAppend(configured, AddedMacs(specs[..h], lists), added);
    ListsStep(specs, h, lists, added);
  }

  /** The MACs generated for the first h nodes number at most their
      interfaces, and every address below `free` is in use. */
  ghost predicate CoveredSoFar(specs: seq<NodeSpec>, h: nat, lists: seq<seq<string>>, used: seq<string>, free: nat)
  {
    && h <= |specs| && Filled(specs[..h], lists)
    && |AddedMacs(specs[..h], lists)| <= |InterfaceNets(specs[..h])|
    && AllUsed(used, 0, free)
  }

  lemma CoveredStep(specs: seq<NodeSpec>, h: nat, lists: seq<seq<string>>, used: seq<string>, free: nat,
                    added: seq<string>, next: nat)
    requires h < |specs| && CoveredSoFar(specs, h, lists, used, free)
    requires |specs[h].macs| + |added| == Max(|specs[h].macs|, |specs[h].networks|)
    requires AllUsed(used + added, free, next)
    ensures CoveredSoFar(specs, h + 1, lists + [specs[h].macs + added], used + added, next)
  {
    AllUsedJoin(used, added, 0, free, next);
    ListsStep(specs, h, lists, added);
    InterfaceNetsSnoc(specs, h);
  }

  /** Running out at node h, counted from `free`, is running out for the
      whole plan, counted from the first address: `used` is the configured
      MACs and `generated`, at most one per interface of the nodes before h. */
  lemma RunsOutOverall(specs: seq<NodeSpec>, h: nat, configured: seq<string>, generated: seq<string>, used: seq<string>, free: nat)
    requires h < |specs| && used == configured + generated && |generated| <= |InterfaceNets(specs[..h])|
    requires AllUsed(used, 0, free) && RunsOut(used, free, |specs[h].networks|)
    ensures RunsOut(configured, 0, |InterfaceNets(specs)|)
  {
    var a :| |a| <= |specs[h].networks| && AllUsed(used + a, free, MacSpace);
    var w := generated + a;
    assert used + a == configured + w;
    AllUsedJoin(used, a, 0, free, MacSpace);
    InterfaceNetsSnoc(specs, h);
    InterfaceCountPrefix(specs, h + 1);
    assert |w| <= |InterfaceNets(specs)|;
    assert AllUsed(configured + w, 0, MacSpace);
  }

  /** The nodes built so far, one per filled list, pairwise distinct. */
  ghost predicate BuiltSoFar(nets: seq<NetEntry>, specs: seq<NodeSpec>, lists: seq<seq<string>>, built: seq<Node>)
    reads built
  {
    && |built| == |lists| <= |specs|
    && (forall k :: 0 <= k < |built| ==> NodeBuilt(nets, specs[k], lists[k], built[k]))
    && (forall k, l :: 0 <= k < l < |built| ==> built[k] != built[l])
  }

  lemma BuiltStep(nets: seq<NetEntry>, specs: seq<NodeSpec>, lists: seq<seq<string>>, built: seq<Node>, node: Node, added: seq<string>)
    requires BuiltSoFar(nets, specs, lists, built) && |built| < |specs|
    requires node !in built && NodeBuilt(nets, specs[|built|], specs[|built|].macs + added, node)
    ensures BuiltSoFar(nets, specs, lists + [specs[|built|].macs + added], built + [node])
  {
    var b := built + [node];
    assert forall k :: 0 <= k < |built| ==> b[k] == built[k];
  }

  /** The interface at position i once `__create_interfaces` has set its MAC
      and, when a network of that name exists, its network. */
  function InterfaceAt(nets: seq<NetEntry>, i: nat, mac: string, net: string): Interface
    requires CheckMac(mac)
  {
    BlankInterface(i).(mac := Some(NewMac(mac).value), net := if Known(nets, net) then Some(net) else None)
  }

  /** A node as `__create_interfaces` leaves it. */
  ghost predicate NodeBuilt(nets: seq<NetEntry>, spec: NodeSpec, macs: seq<string>, n: Node)
    reads n
  {
    && n.name == spec.name && !n.border && n.arpTable == map[] && n.ipTable == map[]
    && |n.interfaces| == |spec.networks| <= |macs|
    && forall i :: 0 <= i < |spec.networks| ==>
         CheckMac(macs[i]) && n.interfaces[i] == InterfaceAt(nets, i, macs[i], spec.networks[i])
  }

  /** The interfaces of one node: one per network, with `MACAddress(n['macs'][i])`
      raising on the first MAC text the check rejects. */
  method BuildNode(nets: seq<NetEntry>, spec: NodeSpec, macs: seq<string>) returns (r: Result<Node, PlanError>)
    requires |spec.networks| <= |macs|
    ensures r.Ok? ==> fresh(r.value) && NodeBuilt(nets, spec, macs, r.value)
    ensures r.Err? ==> exists i :: 0 <= i < |spec.networks| && !CheckMac(macs[i]) && r.error == InvalidMac(macs[i]) &&
                                 forall j :: 0 <= j < i ==> CheckMac(macs[j])
  {
    var node := new Node(spec.name);
    var i := 0;
    while i < |spec.networks|
      invariant 0 <= i <= |spec.networks|
      invariant node.name == spec.name && !node.border && node.arpTable == map[] && node.ipTable == map[]
      invariant |node.interfaces| == i
      invariant forall j :: 0 <= j < i ==> CheckMac(macs[j]) && node.interfaces[j] == InterfaceAt(nets, j, macs[j], spec.networks[j])
    {
      var pos := node.NewInterface();
      var mac := NewMac(macs[i]);
      if mac.Err? {
        return Err(InvalidMac(macs[i]));
      }
      var _ := node.SetMac(pos, mac.value);
      var known := FindNet(nets, spec.networks[i]);
      if known.Some? {
        var _ := node.SetNet(pos, spec.networks[i]);
      }
      i := i + 1;
    }
    return Ok(node);
  }

  /** One node of `__create_interfaces`: its MAC list filled, then its
      interfaces. It fails with `NoFreeMac` only when, after at most one
      address per network, every address from `free` on is in use. */
  method AddNode(nets: seq<NetEntry>, spec: NodeSpec, used: seq<string>, free: nat)
    returns (r: Result<(Node, seq<string>, nat), PlanError>)
    requires free < MacSpace && FormatMac(free) !in used
    ensures r.Ok? ==> var (node, added, next) := r.value;
      && fresh(node) && NodeBuilt(nets, spec, spec.macs + added, node)
      && |spec.macs| + |added| == Max(|spec.macs|, |spec.networks|)
      && FreshTexts(used, added)
      && next < MacSpace && FormatMac(next) !in used + added
      && AllUsed(used + added, free, next)
    ensures r.Err? ==> r.error == NoFreeMac || (r.error.InvalidMac? && !CheckMac(r.error.mac) && r.error.mac in spec.macs)
    ensures r.Err? && r.error == NoFreeMac ==> RunsOut(used, free, |spec.networks|)
  {
    var added, next := FillMacs(spec.macs, |spec.networks|, used, free);
    if next.None? {
      return Err(NoFreeMac);
    }
    var list := spec.macs + added;
    var node := BuildNode(nets, spec, list);
    if node.Err? {
      var i :| 0 <= i < |spec.networks| && !CheckMac(list[i]) && node.error == InvalidMac(list[i]);
      InvalidIsConfigured(spec.macs, added, i);
      return Err(node.error);
    }
    return Ok((node.value, added, next.value));
  }

  /** The loops of `__create_interfaces` over the kept named nodes: the node
      objects and the filled MAC lists. */
  method BuildNodes(nets: seq<NetEntry>, specs: seq<NodeSpec>) returns (r: Result<(seq<Node>, seq<seq<string>>), PlanError>)
    ensures r.Ok? ==> var (built, lists) := r.value;
      && (forall k :: 0 <= k < |built| ==> fresh(built[k]))
      && BuiltSoFar(nets, specs, lists, built) && |built| == |specs|
      && Filled(specs, lists)
      && FreshTexts(ConfiguredMacs(specs), AddedMacs(specs, lists))
    ensures r.Err? ==>
      r.error == NoFreeMac || (r.error.InvalidMac? && !CheckMac(r.error.mac) && r.error.mac in ConfiguredMacs(specs))
    ensures r.Err? && r.error == NoFreeMac ==> RunsOut(ConfiguredMacs(specs), 0, |InterfaceNets(specs)|)
    ensures r.Err? && r.error == NoFreeMac ==> |ConfiguredMacs(specs)| + |InterfaceNets(specs)| >= MacSpace
  {
    var configured := ConfiguredMacs(specs);
    var used := configured;
    var first := FreeMacFrom(used, 0);
    if first.None? {
      assert AllUsed(configured + [], 0, MacSpace) by {
        assert configured + [] == configured;
      }
      RunsOutNeedsRoom(configured, 0);
      return Err(NoFreeMac);
    }
    var free: nat := first.value;
    var lists: seq<seq<string>> := [];
    var built: seq<Node> := [];
    var h := 0;
    assert specs[..0] == [];
    while h < |specs|
      invariant 0 <= h <= |specs| && |built| == h
      invariant MacsSoFar(specs, h, lists, used, free, configured)
      invariant CoveredSoFar(specs, h, lists, used, free)
      invariant BuiltSoFar(nets, specs, lists, built)
      invariant forall k :: 0 <= k < h ==> fresh(built[k])
    {
      var step := AddNode(nets, specs[h], used, free);
      if step.Err? {
        if step.error.InvalidMac? {
          ConfiguredOfNode(specs, h, step.error.mac);
        } else {
          RunsOutOverall(specs, h, configured, AddedMacs(specs[..h], lists), used, free);
          RunsOutNeedsRoom(configured, |InterfaceNets(specs)|);
        }
        return Err(step.error);
      }
      var (node, added, next) := step.value;
      CoveredStep(specs, h, lists, used, free, added, next);
      MacsStep(specs, h, lists, used, free, configured, added, next);
      assert node !in built;
      BuiltStep(nets, specs, lists, built, node, added);
      lists := lists + [specs[h].macs + added];
      ghost var before := built;
      built := built + [node];
      forall k | 0 <= k < h + 1
        ensures fresh(built[k])
      {
        if k < h {
          assert built[k] == before[k];
        }
      }
      used := used + added;
      free := next;
      h := h + 1;
    }
    assert specs[..h] == specs;
    return Ok((built, lists));
  }

  // ---------------------------------------------------------------------
  // Addresses of the interfaces

  /** The network of every interface, node by node, interface by interface. */
  function InterfaceNets(specs: seq<NodeSpec>): seq<string>
  {
    if specs == [] then [] else InterfaceNets(specs[..|specs| - 1]) + specs[|specs| - 1].networks
  }

  lemma {:induction false} InterfaceCountPrefix(specs: seq<NodeSpec>, h: nat)
    requires h <= |specs|
    ensures |InterfaceNets(specs[..h])| <= |InterfaceNets(specs)|
    decreases |specs| - h
  {
    if h < |specs| {
      InterfaceCountPrefix(specs, h + 1);
      InterfaceNetsSnoc(specs, h);
    } else {
      assert specs[..h] == specs;
    }
  }

  /** How many interfaces on `net` come before interface i of node h. */
  function Rank(specs: seq<NodeSpec>, h: nat, i: nat, net: string): nat
    requires h < |specs| && i <= |specs[h].networks|
  {
    Count(InterfaceNets(specs[..h]), net) + Count(specs[h].networks[..i], net)
  }

  /** The network id of the planned network called `net`. */
  function NetIdOf(plan: Plan, net: string): nat
    requires |plan.networks| == |plan.nets| && Known(plan.nets, net)
  {
    plan.networks[FindNet(plan.nets, net).value].netid
  }

  /** Every network a kept node names is planned. */
  predicate Wired(plan: Plan)
  {
    |plan.networks| == |plan.nets| && AllKnown(plan.nets, plan.nodes)
  }

  /** The number `__assign_ips` gives interface i of node h: one past the
      network id, plus the interfaces on the same network before it. */
  function AddressOf(plan: Plan, h: nat, i: nat): int
    requires Wired(plan) && h < |plan.nodes| && i < |plan.nodes[h].networks|
  {
    var net := plan.nodes[h].networks[i];
    NetIdOf(plan, net) + 1 + Rank(plan.nodes, h, i, net)
  }

  /** The counter `first_ip_free` of a network: unset, it starts at its id plus one. */
  function NextIp(plan: Plan, free: map<string, int>, net: string): int
    requires |plan.networks| == |plan.nets| && Known(plan.nets, net)
  {
    if net in free then free[net] else NetIdOf(plan, net) + 1
  }

  lemma {:induction false} CountAppend(a: seq<string>, b: seq<string>, n: string)
    ensures Count(a + b, n) == Count(a, n) + Count(b, n)
    decreases |b|
  {
    if b != [] {
      var init := b[..|b| - 1];
      assert (a + b)[..|a + b| - 1] == a + init;
      CountAppend(a, init, n);
    } else {
      assert a + b == a;
    }
  }

  lemma PrefixSnoc(s: seq<string>, i: nat)
    requires i < |s|
    ensures s[..i] + [s[i]] == s[..i + 1]
  {
  }

  lemma CountSnoc(s: seq<string>, i: nat, n: string)
    requires i < |s|
    ensures Count(s[..i + 1], n) == Count(s[..i], n) + (if s[i] == n then 1 else 0)
  {
    assert s[..i + 1][..i] == s[..i];
  }

  lemma InterfaceNetsSnoc(specs: seq<NodeSpec>, h: nat)
    requires h < |specs|
    ensures InterfaceNets(specs[..h + 1]) == InterfaceNets(specs[..h]) + specs[h].networks
  {
    assert specs[..h + 1][..h] == specs[..h];
  }

  /** The counters `first_ip_free` after the interfaces on the networks of
      `done` have been handed an address each, starting from `free`. */
  ghost predicate Counters(plan: Plan, free: map<string, int>, r: map<string, int>, done: seq<string>)
    requires |plan.networks| == |plan.nets|
  {
    && (forall n :: n in r <==> n in free || Count(done, n) > 0)
    && (forall n :: n in r ==> Known(plan.nets, n))
    && (forall n :: Known(plan.nets, n) ==> NextIp(plan, r, n) == NextIp(plan, free, n) + Count(done, n))
  }

  /** Handing out one address on `net` moves its counter on by one. */
  lemma CounterStep(plan: Plan, free: map<string, int>, r: map<string, int>, done: seq<string>, net: string, r2: map<string, int>)
    requires |plan.networks| == |plan.nets| && Counters(plan, free, r, done) && Known(plan.nets, net)
    requires net in r2 && r2[net] == NextIp(plan, r, net) + 1
    requires forall n :: n != net ==> (n in r2 <==> n in r)
    requires forall n :: n != net && n in r ==> r2[n] == r[n]
    ensures Counters(plan, free, r2, done + [net])
  {
    var d := done + [net];
    assert d[..|d| - 1] == done;
    forall n
      ensures Count(d, n) == Count(done, n) + (if n == net then 1 else 0)
    {
    }
    forall n
      ensures n in r2 <==> n in free || Count(d, n) > 0
    {
    }
    forall n | n in r2
      ensures Known(plan.nets, n)
    {
    }
    forall n | Known(plan.nets, n)
      ensures NextIp(plan, r2, n) == NextIp(plan, free, n) + Count(d, n)
    {
      if n != net {
        assert NextIp(plan, r2, n) == NextIp(plan, r, n);
      }
    }
  }

  /** The number interface i of a node on the networks `nets` receives when
      the counters stood at `free` before the node. */
  function Assigned(plan: Plan, free: map<string, int>, nets: seq<string>, i: nat): int
    requires |plan.networks| == |plan.nets| && i < |nets| && Known(plan.nets, nets[i])
  {
    NextIp(plan, free, nets[i]) + Count(nets[..i], nets[i])
  }

  /** The interfaces `ifaces` once the first p of them have their address. */
  function WithIps(plan: Plan, free: map<string, int>, nets: seq<string>, ifaces: seq<Interface>, p: nat): (r: seq<Interface>)
    requires |plan.networks| == |plan.nets| && p <= |nets| == |ifaces|
    requires forall i :: 0 <= i < |nets| ==> Known(plan.nets, nets[i])
    ensures |r| == |ifaces|
  {
    seq(|ifaces|, i requires 0 <= i < |ifaces| =>
      if i < p then ifaces[i].(ip := Some(FormatIp(Assigned(plan, free, nets, i)))) else ifaces[i])
  }

  lemma WithIpsStep(plan: Plan, free: map<string, int>, nets: seq<string>, ifaces: seq<Interface>, p: nat)
    requires |plan.networks| == |plan.nets| && p < |nets| == |ifaces|
    requires forall i :: 0 <= i < |nets| ==> Known(plan.nets, nets[i])
    ensures WithIps(plan, free, nets, ifaces, p + 1) ==
              WithIps(plan, free, nets, ifaces, p)[p := ifaces[p].(ip := Some(FormatIp(Assigned(plan, free, nets, p))))]
  {
  }

  /** Interface p of a node: `first_ip_free` of its network is set to the
      network id plus one when unset, copied into the interface and moved on
      by one. */
  method AssignOne(plan: Plan, node: Node, nets: seq<string>, free: map<string, int>, ghost start: seq<Interface>,
                   r: map<string, int>, p: nat) returns (r2: map<string, int>)
    requires |plan.networks| == |plan.nets| && p < |nets| == |start|
    requires forall i :: 0 <= i < |nets| ==> start[i].net == Some(nets[i]) && Known(plan.nets, nets[i])
    requires node.interfaces == WithIps(plan, free, nets, start, p)
    requires Counters(plan, free, r, nets[..p])
    modifies node
    ensures node.border == old(node.border) && node.arpTable == old(node.arpTable) && node.ipTable == old(node.ipTable)
    ensures node.interfaces == WithIps(plan, free, nets, start, p + 1)
    ensures Counters(plan, free, r2, nets[..p + 1])
  {
    var iface := node.GetInterface(p).value.value;
    var net := iface.net.value;
    var first := if net in r then r[net] else NetIdOf(plan, net) + 1;
    CounterNext(plan, free, nets, r, p, net, first);
    var _ := node.SetIp(p, FormatIp(first));
    WithIpsStep(plan, free, nets, start, p);
    r2 := r[net := first + 1];
  }

  /** The counter of interface p's network holds the address `Assigned`
      names; moving it on by one moves the counters on over one more
      interface. */
  lemma CounterNext(plan: Plan, free: map<string, int>, nets: seq<string>, r: map<string, int>, p: nat, net: string, first: int)
    requires |plan.networks| == |plan.nets| && p < |nets| && net == nets[p]
    requires forall i :: 0 <= i < |nets| ==> Known(plan.nets, nets[i])
    requires Counters(plan, free, r, nets[..p])
    requires first == if net in r then r[net] else NetIdOf(plan, net) + 1
    ensures first == Assigned(plan, free, nets, p)
    ensures Counters(plan, free, r[net := first + 1], nets[..p + 1])
  {
    assert Known(plan.nets, net);
    CounterStep(plan, free, r, nets[..p], net, r[net := first + 1]);
    PrefixSnoc(nets, p);
  }

  /** The interfaces of one node in turn. */
  method AssignNode(plan: Plan, node: Node, nets: seq<string>, free: map<string, int>) returns (r: map<string, int>)
    requires |plan.networks| == |plan.nets|
    requires forall n :: n in free ==> Known(plan.nets, n)
    requires |node.interfaces| == |nets|
    requires forall i :: 0 <= i < |nets| ==> node.interfaces[i].net == Some(nets[i]) && Known(plan.nets, nets[i])
    modifies node
    ensures node.border == old(node.border) && node.arpTable == old(node.arpTable) && node.ipTable == old(node.ipTable)
    ensures node.interfaces == WithIps(plan, free, nets, old(node.interfaces), |nets|)
    ensures Counters(plan, free, r, nets)
  {
    r := free;
    var p := 0;
    assert nets[..0] == [];
    ghost var start := node.interfaces;
    assert WithIps(plan, free, nets, start, 0) == start;
    while p < node.NumberOfInterfaces()
      invariant 0 <= p <= |nets|
      invariant node.border == old(node.border) && node.arpTable == old(node.arpTable) && node.ipTable == old(node.ipTable)
      invariant node.interfaces == WithIps(plan, free, nets, start, p)
      invariant Counters(plan, free, r, nets[..p])
    {
      r := AssignOne(plan, node, nets, free, start, r, p);
      p := p + 1;
    }
    assert nets[..p] == nets;
  }

  /** Counters started from none: a network has one exactly when it has an
      interface, and it then stands one past its last address. */
  lemma CountersFromNone(plan: Plan, r: map<string, int>, done: seq<string>)
    requires |plan.networks| == |plan.nets| && Counters(plan, map[], r, done)
    ensures forall n :: n in r <==> Count(done, n) > 0
    ensures forall n :: n in r ==> Known(plan.nets, n) && r[n] == NetIdOf(plan, n) + 1 + Count(done, n)
  {
    forall n | n in r
      ensures Known(plan.nets, n) && r[n] == NetIdOf(plan, n) + 1 + Count(done, n)
    {
      assert NextIp(plan, r, n) == NextIp(plan, map[], n) + Count(done, n);
    }
  }

  lemma CountersCompose(plan: Plan, f0: map<string, int>, f1: map<string, int>, f2: map<string, int>, a: seq<string>, b: seq<string>)
    requires |plan.networks| == |plan.nets|
    requires Counters(plan, f0, f1, a) && Counters(plan, f1, f2, b)
    ensures Counters(plan, f0, f2, a + b)
  {
    forall n
      ensures Count(a + b, n) == Count(a, n) + Count(b, n)
    {
      CountAppend(a, b, n);
    }
  }

  /** Interface i of node h with the address `__assign_ips` gives it. */
  function Addressed(plan: Plan, h: nat, ifaces: seq<Interface>): (r: seq<Interface>)
    requires Wired(plan) && h < |plan.nodes| && |ifaces| == |plan.nodes[h].networks|
    ensures |r| == |ifaces|
  {
    seq(|ifaces|, i requires 0 <= i < |ifaces| => ifaces[i].(ip := Some(FormatIp(AddressOf(plan, h, i)))))
  }

  /** Interface i of node h as the system leaves it: the MAC of its position,
      its network and, once `__assign_ips` has run, its address. */
  function FinalInterface(plan: Plan, h: nat, i: nat, mac: string, addressed: bool): Interface
    requires Wired(plan) && h < |plan.nodes| && i < |plan.nodes[h].networks| && CheckMac(mac)
  {
    var iface := InterfaceAt(plan.nets, i, mac, plan.nodes[h].networks[i]);
    if addressed then iface.(ip := Some(FormatIp(AddressOf(plan, h, i)))) else iface
  }

  /** The interfaces of node h, built from the MAC list `macs`. */
  predicate InterfacesDone(plan: Plan, h: nat, macs: seq<string>, ifaces: seq<Interface>, addressed: bool)
    requires Wired(plan) && h < |plan.nodes|
  {
    && |ifaces| == |plan.nodes[h].networks| <= |macs|
    && forall i :: 0 <= i < |ifaces| ==> CheckMac(macs[i]) && ifaces[i] == FinalInterface(plan, h, i, macs[i], addressed)
  }

  /** Addressing built interfaces gives each the address of `AddressOf`. */
  lemma AddressedDone(plan: Plan, h: nat, macs: seq<string>, ifaces: seq<Interface>)
    requires Wired(plan) && h < |plan.nodes| && InterfacesDone(plan, h, macs, ifaces, false)
    ensures InterfacesDone(plan, h, macs, Addressed(plan, h, ifaces), true)
  {
  }

  /** With the counters moved on over the nodes before h, node h's
      interfaces get the addresses `AddressOf` names. */
  lemma WithIpsAddressed(plan: Plan, h: nat, free: map<string, int>, ifaces: seq<Interface>)
    requires Wired(plan) && h < |plan.nodes| && |ifaces| == |plan.nodes[h].networks|
    requires Counters(plan, map[], free, InterfaceNets(plan.nodes[..h]))
    ensures (assert forall i :: 0 <= i < |plan.nodes[h].networks| ==> Known(plan.nets, plan.nodes[h].networks[i]);
             WithIps(plan, free, plan.nodes[h].networks, ifaces, |ifaces|) == Addressed(plan, h, ifaces))
  {
    var nets := plan.nodes[h].networks;
    forall i | 0 <= i < |ifaces|
      ensures Assigned(plan, free, nets, i) == AddressOf(plan, h, i)
    {
      assert Known(plan.nets, nets[i]);
      assert NextIp(plan, free, nets[i]) == NetIdOf(plan, nets[i]) + 1 + Count(InterfaceNets(plan.nodes[..h]), nets[i]);
    }
  }

  /** Node h of `__assign_ips`, with the counters moved on over the nodes before it. */
  method AssignNodeAt(plan: Plan, node: Node, h: nat, free: map<string, int>) returns (next: map<string, int>)
    requires Wired(plan) && h < |plan.nodes| && |node.interfaces| == |plan.nodes[h].networks|
    requires forall i :: 0 <= i < |plan.nodes[h].networks| ==> node.interfaces[i].net == Some(plan.nodes[h].networks[i])
    requires Counters(plan, map[], free, InterfaceNets(plan.nodes[..h]))
    modifies node
    ensures node.border == old(node.border) && node.arpTable == old(node.arpTable) && node.ipTable == old(node.ipTable)
    ensures node.interfaces == Addressed(plan, h, old(node.interfaces))
    ensures Counters(plan, map[], next, InterfaceNets(plan.nodes[..h + 1]))
  {
    var spec := plan.nodes[h];
    assert forall i :: 0 <= i < |spec.networks| ==> Known(plan.nets, spec.networks[i]);
    WithIpsAddressed(plan, h, free, node.interfaces);
    next := AssignNode(plan, node, spec.networks, free);
    CountersCompose(plan, map[], free, next, InterfaceNets(plan.nodes[..h]), spec.networks);
    InterfaceNetsSnoc(plan.nodes, h);
  }

  /** `__assign_ips`: every interface of every node, in order. */
  method AssignAll(plan: Plan, nodes: seq<Node>) returns (free: map<string, int>)
    requires Wired(plan) && |nodes| == |plan.nodes|
    requires forall h, k :: 0 <= h < k < |nodes| ==> nodes[h] != nodes[k]
    requires forall h :: 0 <= h < |nodes| ==> |nodes[h].interfaces| == |plan.nodes[h].networks|
    requires forall h, i :: 0 <= h < |nodes| && 0 <= i < |plan.nodes[h].networks| ==>
               nodes[h].interfaces[i].net == Some(plan.nodes[h].networks[i])
    modifies set h | 0 <= h < |nodes| :: nodes[h]
    ensures forall h :: 0 <= h < |nodes| ==>
              && nodes[h].border == old(nodes[h].border)
              && nodes[h].arpTable == old(nodes[h].arpTable) && nodes[h].ipTable == old(nodes[h].ipTable)
              && nodes[h].interfaces == Addressed(plan, h, old(nodes[h].interfaces))
    ensures Counters(plan, map[], free, InterfaceNets(plan.nodes))
  {
    free := map[];
    var h := 0;
    assert plan.nodes[..0] == [];
    while h < |nodes|
      invariant 0 <= h <= |nodes|
      invariant forall k :: 0 <= k < |nodes| ==>
                  && nodes[k].border == old(nodes[k].border)
                  && nodes[k].arpTable == old(nodes[k].arpTable) && nodes[k].ipTable == old(nodes[k].ipTable)
      invariant forall k :: 0 <= k < h ==> nodes[k].interfaces == Addressed(plan, k, old(nodes[k].interfaces))
      invariant forall k :: h <= k < |nodes| ==> nodes[k].interfaces == old(nodes[k].interfaces)
      invariant Counters(plan, map[], free, InterfaceNets(plan.nodes[..h]))
    {
      label before:
      free := AssignNodeAt(plan, nodes[h], h, free);
      forall k | 0 <= k < |nodes| && k != h
        ensures nodes[k].interfaces == old@before(nodes[k].interfaces)
        ensures nodes[k].border == old@before(nodes[k].border)
        ensures nodes[k].arpTable == old@before(nodes[k].arpTable) && nodes[k].ipTable == old@before(nodes[k].ipTable)
      {
        assert nodes[k] != nodes[h];
      }
      h := h + 1;
    }
    assert plan.nodes[..h] == plan.nodes;
  }

  // ---------------------------------------------------------------------
  // The system

  class NetSystem {
    /** The planned networks and the kept named nodes. */
    const plan: Plan
    /** `n['macs']` of each kept node once filled. */
    var macLists: seq<seq<string>>
    var nodes: seq<Node>
    /** `first_ip_free` of the networks that have handed out an address. */
    var firstIpFree: map<string, int>
    var hasInternet: bool

    /** The state `__analyze_nets` reaches before the interfaces exist. */
    constructor(plan: Plan)
      ensures this.plan == plan && macLists == [] && nodes == [] && firstIpFree == map[] && !hasInternet
    {
      this.plan := plan;
      macLists := [];
      nodes := [];
      firstIpFree := map[];
      hasInternet := false;
    }

    /** The node objects are distinct. */
    ghost predicate Distinct()
      reads this
    {
      forall h, k :: 0 <= h < k < |nodes| ==> nodes[h] != nodes[k]
    }

    /** What `__create_interfaces` leaves: a node per kept named node, each MAC
        list filled with generated addresses no other list holds, and each
        interface with the MAC of its position and its network. */
    ghost predicate Created()
      reads this, nodes
    {
      && Distinct()
      && |nodes| == |plan.nodes|
      && Filled(plan.nodes, macLists)
      && FreshTexts(ConfiguredMacs(plan.nodes), AddedMacs(plan.nodes, macLists))
      && forall h :: 0 <= h < |nodes| ==> NodeBuilt(plan.nets, plan.nodes[h], macLists[h], nodes[h])
    }

    /** `__create_interfaces`. It fails with `InvalidMac` on a configured MAC
        the check rejects, and with `NoFreeMac` when the generated addresses
        run out. */
    method CreateInterfaces() returns (failure: Option<PlanError>)
      modifies this
      ensures firstIpFree == old(firstIpFree) && hasInternet == old(hasInternet)
      ensures failure.None? ==> Created() && forall h :: 0 <= h < |nodes| ==> fresh(nodes[h])
      ensures failure.Some? ==>
                failure.value == NoFreeMac ||
                (failure.value.InvalidMac? && !CheckMac(failure.value.mac) && failure.value.mac in ConfiguredMacs(plan.nodes))
    ensures failure.Some? && failure.value == NoFreeMac ==>
              && RunsOut(ConfiguredMacs(plan.nodes), 0, |InterfaceNets(plan.nodes)|)
              && |ConfiguredMacs(plan.nodes)| + |InterfaceNets(plan.nodes)| >= MacSpace
    {
      var r := BuildNodes(plan.nets, plan.nodes);
      if r.Err? {
        return Some(r.error);
      }
      nodes := r.value.0;
      macLists := r.value.1;
      return None;
    }
  
    /** What the constructor builds apart from the border router mark: the
        interfaces built and, unless the plan is Preconfigured, addressed,
        and the counters one past each network's last interface address. */
    ghost predicate Built()
      requires Wired(plan)
      reads this, nodes
    {
      && Distinct()
      && Filled(plan.nodes, macLists)
      && FreshTexts(ConfiguredMacs(plan.nodes), AddedMacs(plan.nodes, macLists))
      && ViewsDone(plan, macLists, Views(nodes))
      && CountersDone(plan, firstIpFree)
    }

    /** `Built`, with no border router yet. */
    ghost predicate Ready()
      requires Wired(plan)
      reads this, nodes
    {
      Built() && forall h :: 0 <= h < |nodes| ==> !nodes[h].border
    }

    /** What the constructor leaves: `Built`, with the first node called
        `router` as the border router and Internet access exactly when there
        is one. */
    ghost predicate Complete(router: Option<string>)
      requires Wired(plan)
      reads this, nodes
    {
      && Built()
      && (forall h :: 0 <= h < |nodes| ==> nodes[h].border == (router.Some? && FirstNamed(nodes, router.value, h)))
      && (hasInternet <==> router.Some? && router.value != "" && exists h :: 0 <= h < |nodes| && nodes[h].name == router.value)
    }

    /** `NetSystem(d)`: plan the networks, create the interfaces, address them
        unless the plan is Preconfigured, and mark the border router. Every
        failure of the description is an error. */
    static method New(cfg: SystemConfig) returns (r: Result<NetSystem, PlanError>)
      ensures PlanOf(cfg).Err? ==> r == Err(PlanOf(cfg).error)
      ensures PlanOf(cfg).Ok? && r.Err? ==>
                r.error == NoFreeMac ||
                (r.error.InvalidMac? && !CheckMac(r.error.mac) && r.error.mac in ConfiguredMacs(PlanOf(cfg).value.nodes))
      ensures PlanOf(cfg).Ok? && r.Err? && r.error == NoFreeMac ==>
                && RunsOut(ConfiguredMacs(PlanOf(cfg).value.nodes), 0, |InterfaceNets(PlanOf(cfg).value.nodes)|)
                && |ConfiguredMacs(PlanOf(cfg).value.nodes)| + |InterfaceNets(PlanOf(cfg).value.nodes)| >= MacSpace
      ensures r.Ok? ==>
                && PlanOf(cfg).Ok? && cfg.configuration.Some?
                && fresh(r.value) && r.value.plan == PlanOf(cfg).value && Wired(r.value.plan)
                && r.value.Complete(cfg.configuration.value.borderRouter)
                && forall h :: 0 <= h < |r.value.nodes| ==> fresh(r.value.nodes[h])
    {
      var planned := PlanNetworks(cfg);
      if planned.Err? {
        return Err(planned.error);
      }
      PlanSound(cfg);
      var s := new NetSystem(planned.value);
      var failure := s.CreateInterfaces();
      if failure.Some? {
        return Err(failure.value);
      }
      s.AddressUnlessPreconfigured();
      s.MarkBorder(cfg.configuration.value.borderRouter);
      return Ok(s);
    }

    /** The step after `__create_interfaces`: `__assign_ips` runs unless the
        plan is Preconfigured. */
    method AddressUnlessPreconfigured()
      requires Created() && Wired(plan) && firstIpFree == map[]
      modifies this, set h | 0 <= h < |nodes| :: nodes[h]
      ensures nodes == old(nodes) && Ready()
    {
      BuiltWired(plan, macLists, nodes);
      if plan.kind != Preconfigured {
        AssignIps();
      }
      ReadyWhen();
    }

    /** The facts `Ready` collects, node by node. */
    lemma ReadyWhen()
      requires Wired(plan) && Distinct() && |nodes| == |plan.nodes| == |macLists|
      requires Filled(plan.nodes, macLists) && FreshTexts(ConfiguredMacs(plan.nodes), AddedMacs(plan.nodes, macLists))
      requires forall h :: 0 <= h < |nodes| ==>
                 && nodes[h].name == plan.nodes[h].name && !nodes[h].border
                 && nodes[h].arpTable == map[] && nodes[h].ipTable == map[]
                 && InterfacesDone(plan, h, macLists[h], nodes[h].interfaces, plan.kind != Preconfigured)
      requires CountersDone(plan, firstIpFree)
      ensures Ready()
    {
    }

    /** `__assign_ips`, run on the interfaces `__create_interfaces` made: each
        interface gets the next address of its network, and `first_ip_free`
        of each network that has interfaces ends one past its last address. */
    method AssignIps()
      requires Created() && Wired(plan) && firstIpFree == map[]
      modifies this, set h | 0 <= h < |nodes| :: nodes[h]
      ensures nodes == old(nodes) && macLists == old(macLists) && hasInternet == old(hasInternet)
      ensures forall h :: 0 <= h < |nodes| ==>
                && nodes[h].border == old(nodes[h].border)
                && nodes[h].arpTable == old(nodes[h].arpTable) && nodes[h].ipTable == old(nodes[h].ipTable)
                && nodes[h].interfaces == Addressed(plan, h, old(nodes[h].interfaces))
      ensures forall n :: n in firstIpFree <==> Count(InterfaceNets(plan.nodes), n) > 0
      ensures forall n :: n in firstIpFree ==>
                Known(plan.nets, n) && firstIpFree[n] == NetIdOf(plan, n) + 1 + Count(InterfaceNets(plan.nodes), n)
      ensures forall h :: 0 <= h < |nodes| ==> InterfacesDone(plan, h, macLists[h], nodes[h].interfaces, true)
    {
      BuiltWired(plan, macLists, nodes);
      var free := AssignAll(plan, nodes);
      CountersFromNone(plan, free, InterfaceNets(plan.nodes));
      firstIpFree := free;
      forall h | 0 <= h < |nodes|
        ensures InterfacesDone(plan, h, macLists[h], nodes[h].interfaces, true)
      {
        AddressedDone(plan, h, macLists[h], old(nodes[h].interfaces));
      }
    }

    /** The border router step: the first node with the configured name, if
        the name is set and not empty, becomes the border router and the
        system has Internet access. */
    method MarkBorder(router: Option<string>)
      requires Wired(plan) && Ready()
      modifies this, set h | 0 <= h < |nodes| :: nodes[h]
      ensures nodes == old(nodes) && Complete(router)
    {
      hasInternet := MarkFirst(nodes, router);
    }
  }

  /** `has_Internet` and the mark of the border router: the first node
      called `router` is marked, if the name is set and not empty. */
  method MarkFirst(nodes: seq<Node>, router: Option<string>) returns (found: bool)
    requires forall h, k :: 0 <= h < k < |nodes| ==> nodes[h] != nodes[k]
    modifies set h | 0 <= h < |nodes| :: nodes[h]
    ensures Views(nodes) == old(Views(nodes))
    ensures forall h :: 0 <= h < |nodes| ==>
              nodes[h].border == (old(nodes[h].border) || (router.Some? && FirstNamed(nodes, router.value, h)))
    ensures found <==> router.Some? && router.value != "" && exists h :: 0 <= h < |nodes| && nodes[h].name == router.value
  {
    found := false;
    if router.Some? && router.value != "" {
      var at := FindNamed(nodes, router.value);
      if at.Some? {
        nodes[at.value].SetAsBorder();
        found := true;
      }
    }
    assert Views(nodes) == old(Views(nodes));
  }

  /** The loop of the border router step: the position of the first node
      called `name`, if any. */
  method FindNamed(nodes: seq<Node>, name: string) returns (r: Option<nat>)
    ensures r.Some? ==> r.value < |nodes| && nodes[r.value].name == name
    ensures r.Some? ==> forall k :: 0 <= k < r.value ==> nodes[k].name != name
    ensures r.None? ==> forall k :: 0 <= k < |nodes| ==> nodes[k].name != name
  {
    var h := 0;
    while h < |nodes|
      invariant 0 <= h <= |nodes|
      invariant forall k :: 0 <= k < h ==> nodes[k].name != name
    {
      if nodes[h].name == name {
        return Some(h);
      }
      h := h + 1;
    }
    return None;
  }

  /** On built nodes of a wired plan every interface is on its node's network. */
  lemma BuiltWired(plan: Plan, lists: seq<seq<string>>, nodes: seq<Node>)
    requires Wired(plan) && |nodes| == |plan.nodes| == |lists|
    requires forall h :: 0 <= h < |nodes| ==> NodeBuilt(plan.nets, plan.nodes[h], lists[h], nodes[h])
    ensures forall h :: 0 <= h < |nodes| ==> |nodes[h].interfaces| == |plan.nodes[h].networks|
    ensures forall h, i :: 0 <= h < |nodes| && 0 <= i < |plan.nodes[h].networks| ==>
              nodes[h].interfaces[i].net == Some(plan.nodes[h].networks[i])
    ensures forall h :: 0 <= h < |nodes| ==> InterfacesDone(plan, h, lists[h], nodes[h].interfaces, false)
  {
    forall h, i | 0 <= h < |nodes| && 0 <= i < |plan.nodes[h].networks|
      ensures nodes[h].interfaces[i].net == Some(plan.nodes[h].networks[i])
    {
      assert Known(plan.nets, plan.nodes[h].networks[i]);
    }
  }

  // ---------------------------------------------------------------------
  // What a plan promises the interfaces

  /** Every network's demand: its hosts, its id, its broadcast and one
      address per interface on it. */
  predicate Demanded(plan: Plan)
  {
    forall k :: 0 <= k < |plan.nets| ==>
      plan.nets[k].ipsNeeded == plan.nets[k].spec.hosts + 2 + Count(InterfaceNets(plan.nodes), plan.nets[k].spec.name)
  }

  /** The kept nodes have one interface per attachment of a node to a network. */
  lemma {:induction false} KeptInterfaces(nodes: seq<NodeSpec>, n: string)
    ensures Count(InterfaceNets(Kept(nodes)), n) == |Attachments(nodes, n)|
    decreases |nodes|
  {
    if nodes != [] {
      var p, h := nodes[..|nodes| - 1], nodes[|nodes| - 1];
      KeptInterfaces(p, n);
      assert Attachments(nodes, n) == Attachments(p, n) + Copies(h.name, Count(h.networks, n));
      if |h.networks| > 0 {
        var k := Kept(p) + [h];
        assert Kept(nodes) == k;
        assert k[..|k| - 1] == Kept(p);
        assert InterfaceNets(k) == InterfaceNets(Kept(p)) + h.networks;
        CountAppend(InterfaceNets(Kept(p)), h.networks, n);
      } else {
        assert Kept(nodes) == Kept(p) + [];
        assert Kept(p) + [] == Kept(p);
      }
    }
  }

  /** An admitted description names only known networks on its kept nodes
      and counts each of their interfaces in its network's demand. */
  lemma AdmittedWired(cfg: SystemConfig)
    requires Admitted(cfg).Ok?
    ensures cfg.configuration.Some? && PlanOf(cfg) == Planned(Admitted(cfg).value)
    ensures var a := Admitted(cfg).value;
      && a.nodes == Kept(cfg.namedNodes)
      && AllKnown(a.nets, a.nodes)
      && forall k :: 0 <= k < |a.nets| ==>
           a.nets[k].ipsNeeded == a.nets[k].spec.hosts + 2 + Count(InterfaceNets(a.nodes), a.nets[k].spec.name)
  {
    AdmittedSound(cfg);
    var a := Admitted(cfg).value;
    Demand(cfg.networks, cfg.namedNodes);
    KnownKept(Entries(cfg.networks), a.nets, cfg.namedNodes);
    forall k | 0 <= k < |a.nets|
      ensures a.nets[k].ipsNeeded == a.nets[k].spec.hosts + 2 + Count(InterfaceNets(a.nodes), a.nets[k].spec.name)
    {
      KeptInterfaces(cfg.namedNodes, a.nets[k].spec.name);
    }
  }

  /** Networks known by the same names in `e` and `a`: a kept node names
      only networks `a` knows when all nodes name networks `e` knows. */
  lemma KnownKept(e: seq<NetEntry>, a: seq<NetEntry>, nodes: seq<NodeSpec>)
    requires |e| == |a| && forall i :: 0 <= i < |e| ==> e[i].spec.name == a[i].spec.name
    requires AllKnown(e, nodes)
    ensures AllKnown(a, Kept(nodes))
  {
    var kept := Kept(nodes);
    forall j, k | 0 <= j < |kept| && 0 <= k < |kept[j].networks|
      ensures Known(a, kept[j].networks[k])
    {
      assert kept[j] in nodes;
      var m :| 0 <= m < |nodes| && nodes[m] == kept[j];
      assert Known(e, nodes[m].networks[k]);
    }
  }

  /** A plan that succeeds names only planned networks on its nodes, counts
      each interface in its network's demand and, unless it is
      Preconfigured, lays its networks out soundly. */
  lemma PlanSound(cfg: SystemConfig)
    requires PlanOf(cfg).Ok?
    ensures cfg.configuration.Some?
    ensures var p := PlanOf(cfg).value;
      && p.nodes == Kept(cfg.namedNodes)
      && Wired(p) && Demanded(p)
      && (p.kind != Preconfigured ==> SoundLayout(p.system, p.nets, p.networks))
  {
    AdmittedWired(cfg);
    PlannedWired(Admitted(cfg).value);
  }

  /** Planning an admission keeps its nodes wired to known networks and each
      network's demand. */
  lemma PlannedWired(a: Admission)
    requires WellFormed(a.system) && Planned(a).Ok? && AllKnown(a.nets, a.nodes)
    requires forall k :: 0 <= k < |a.nets| ==>
               a.nets[k].ipsNeeded == a.nets[k].spec.hosts + 2 + Count(InterfaceNets(a.nodes), a.nets[k].spec.name)
    ensures var p := Planned(a).value;
      && p.nodes == a.nodes && Wired(p) && Demanded(p)
      && (p.kind != Preconfigured ==> SoundLayout(p.system, p.nets, p.networks))
  {
    PlannedSound(a);
    PermutedNets(a.nets, Planned(a).value.nets, a.nodes);
  }

  /** Reordering the networks keeps which names are known and each
      network's demand. */
  lemma PermutedNets(a: seq<NetEntry>, b: seq<NetEntry>, nodes: seq<NodeSpec>)
    requires multiset(a) == multiset(b) && AllKnown(a, nodes)
    requires forall k :: 0 <= k < |a| ==>
               a[k].ipsNeeded == a[k].spec.hosts + 2 + Count(InterfaceNets(nodes), a[k].spec.name)
    ensures AllKnown(b, nodes)
    ensures forall k :: 0 <= k < |b| ==>
              b[k].ipsNeeded == b[k].spec.hosts + 2 + Count(InterfaceNets(nodes), b[k].spec.name)
  {
    forall x | Known(a, x)
      ensures Known(b, x)
    {
      var i :| 0 <= i < |a| && a[i].spec.name == x;
      assert a[i] in multiset(b);
    }
    forall k | 0 <= k < |b|
      ensures b[k].ipsNeeded == b[k].spec.hosts + 2 + Count(InterfaceNets(nodes), b[k].spec.name)
    {
      assert b[k] in multiset(a);
    }
  }

  // ---------------------------------------------------------------------
  // What the addresses promise

  lemma CountPrefix(s: seq<string>, i: nat, j: nat, n: string)
    requires i <= j <= |s|
    ensures Count(s[..i], n) <= Count(s[..j], n)
  {
    CountAppend(s[..i], s[i..j], n);
    assert s[..i] + s[i..j] == s[..j];
  }

  lemma {:induction false} InterfaceNetsPrefix(specs: seq<NodeSpec>, a: nat, b: nat, n: string)
    requires a <= b <= |specs|
    ensures Count(InterfaceNets(specs[..a]), n) <= Count(InterfaceNets(specs[..b]), n)
    decreases b
  {
    if a < b {
      InterfaceNetsPrefix(specs, a, b - 1, n);
      InterfaceNetsSnoc(specs, b - 1);
      CountAppend(InterfaceNets(specs[..b - 1]), specs[b - 1].networks, n);
    }
  }

  /** Fewer interfaces on its network come before an interface than there
      are interfaces on that network. */
  lemma RankBelowTotal(specs: seq<NodeSpec>, h: nat, i: nat)
    requires h < |specs| && i < |specs[h].networks|
    ensures Rank(specs, h, i, specs[h].networks[i]) < Count(InterfaceNets(specs), specs[h].networks[i])
  {
    var n, ns := specs[h].networks[i], specs[h].networks;
    CountSnoc(ns, i, n);
    CountPrefix(ns, i + 1, |ns|, n);
    assert ns[..|ns|] == ns;
    InterfaceNetsSnoc(specs, h);
    CountAppend(InterfaceNets(specs[..h]), ns, n);
    InterfaceNetsPrefix(specs, h + 1, |specs|, n);
    assert specs[..|specs|] == specs;
  }

  /** On one network the ranks grow strictly, node by node and interface by
      interface. */
  lemma RankIncreasing(specs: seq<NodeSpec>, h1: nat, i1: nat, h2: nat, i2: nat)
    requires h1 < |specs| && i1 < |specs[h1].networks| && h2 < |specs| && i2 < |specs[h2].networks|
    requires h1 < h2 || (h1 == h2 && i1 < i2)
    requires specs[h1].networks[i1] == specs[h2].networks[i2]
    ensures Rank(specs, h1, i1, specs[h1].networks[i1]) < Rank(specs, h2, i2, specs[h1].networks[i1])
  {
    var n := specs[h1].networks[i1];
    if h1 == h2 {
      CountSnoc(specs[h1].networks, i1, n);
      CountPrefix(specs[h1].networks, i1 + 1, i2, n);
    } else {
      var pre := specs[..h1 + 1];
      RankBelowTotal(pre, h1, i1);
      assert pre[..h1] == specs[..h1] && pre[h1] == specs[h1];
      InterfaceNetsPrefix(specs, h1 + 1, h2, n);
    }
  }

  /** An interface's address lies strictly between its network's id and
      broadcast, with room for the network's declared hosts after it. */
  lemma AddressInBlock(plan: Plan, h: nat, i: nat)
    requires Wired(plan) && Demanded(plan) && SoundLayout(plan.system, plan.nets, plan.networks)
    requires h < |plan.nodes| && i < |plan.nodes[h].networks|
    ensures var k := FindNet(plan.nets, plan.nodes[h].networks[i]).value;
      && plan.networks[k].netid < AddressOf(plan, h, i)
      && AddressOf(plan, h, i) + plan.nets[k].spec.hosts < BroadcastNumber(plan.networks[k])
  {
    RankBelowTotal(plan.nodes, h, i);
  }

  /** No two interfaces receive the same address, as long as the networks
      they are on declare no negative host count. */
  lemma AddressesDistinct(plan: Plan, h1: nat, i1: nat, h2: nat, i2: nat)
    requires Wired(plan) && Demanded(plan) && SoundLayout(plan.system, plan.nets, plan.networks)
    requires h1 < |plan.nodes| && i1 < |plan.nodes[h1].networks| && h2 < |plan.nodes| && i2 < |plan.nodes[h2].networks|
    requires (h1, i1) != (h2, i2)
    requires forall k :: 0 <= k < |plan.nets| ==> plan.nets[k].spec.hosts >= 0
    ensures AddressOf(plan, h1, i1) != AddressOf(plan, h2, i2)
  {
    var n1, n2 := plan.nodes[h1].networks[i1], plan.nodes[h2].networks[i2];
    if n1 == n2 {
      if h1 < h2 || (h1 == h2 && i1 < i2) {
        RankIncreasing(plan.nodes, h1, i1, h2, i2);
      } else {
        RankIncreasing(plan.nodes, h2, i2, h1, i1);
      }
    } else {
      var k1, k2 := FindNet(plan.nets, n1).value, FindNet(plan.nets, n2).value;
      AddressInBlock(plan, h1, i1);
      AddressInBlock(plan, h2, i2);
      assert InBlock(plan.networks[k1], AddressOf(plan, h1, i1));
      assert InBlock(plan.networks[k2], AddressOf(plan, h2, i2));
      assert !Overlap(plan.networks[k1], plan.networks[k2]);
    }
  }

  /** What a node holds apart from the border router mark. */
  datatype NodeView = NodeView(name: string, interfaces: seq<Interface>, arpTable: map<string, MacAddress>, ipTable: map<string, Route>)

  function Views(nodes: seq<Node>): (r: seq<NodeView>)
    reads set h | 0 <= h < |nodes| :: nodes[h]
    ensures |r| == |nodes|
    ensures forall h :: 0 <= h < |nodes| ==>
              r[h] == NodeView(nodes[h].name, nodes[h].interfaces, nodes[h].arpTable, nodes[h].ipTable)
  {
    seq(|nodes|, h reads set h | 0 <= h < |nodes| :: nodes[h] requires 0 <= h < |nodes| =>
      NodeView(nodes[h].name, nodes[h].interfaces, nodes[h].arpTable, nodes[h].ipTable))
  }

  /** Each kept node with its name, empty tables and the interfaces built
      from its MAC list, addressed unless the plan is Preconfigured. */
  predicate ViewsDone(plan: Plan, lists: seq<seq<string>>, views: seq<NodeView>)
    requires Wired(plan)
  {
    && |views| == |plan.nodes| == |lists|
    && forall h :: 0 <= h < |views| ==>
         && views[h].name == plan.nodes[h].name && views[h].arpTable == map[] && views[h].ipTable == map[]
         && InterfacesDone(plan, h, lists[h], views[h].interfaces, plan.kind != Preconfigured)
  }

  /** The counters `first_ip_free` once the constructor has run: only the
      networks with an interface have one, unless the plan is Preconfigured,
      and it stands one past the network's last interface address. */
  ghost predicate CountersDone(plan: Plan, free: map<string, int>)
    requires Wired(plan)
  {
    && (forall n :: n in free <==> plan.kind != Preconfigured && Count(InterfaceNets(plan.nodes), n) > 0)
    && (forall n :: n in free ==>
          Known(plan.nets, n) && free[n] == NetIdOf(plan, n) + 1 + Count(InterfaceNets(plan.nodes), n))
  }

  /** Node h is the first node called `name`, and `name` is not empty. */
  predicate FirstNamed(nodes: seq<Node>, name: string, h: nat)
  {
    && name != ""
    && h < |nodes| && nodes[h].name == name
    && forall k :: 0 <= k < h ==> nodes[k].name != name
  }
}
