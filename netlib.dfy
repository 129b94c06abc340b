/** IPv4 networks in prefix notation (utils/netlib.py): the mask of a prefix,
    the prefix of a contiguous mask, the network id, broadcast, first and
    last host, the host count and the overlap test. Prefix and mask follow
    the notation of RFC 4632 section 3.1. */
module NetLib {
  import opened Base
  import opened Arith
  import opened IpLib

  /** The second constructor argument, by its Python type. */
  datatype MaskArg = PrefixArg(prefix: int) | MaskText(text: string) | OtherArg

  datatype NetError =
    | InvalidAddress      // "<ip> is not a valid IP Address"
    | PrefixOutOfRange    // "Netmask prefix should be a number between 0 and 32"
    | NotAMask            // "<netmask> is not a valid network mask"
    | InvalidNetmask      // "Netmask is not valid (it should be a mask or a prefix)"

  /** The fields a constructed `Network` holds; the mask and the id are kept
      as their numbers. */
  datatype Network = Network(prefix: nat, wildcard: nat, netmask: nat, netid: nat)

  const AllOnes: nat := 4294967295

  lemma Pow2Of32()
    ensures Pow2(32) == 4294967296
  {
    assert Pow2(8) == 256;
    assert Pow2(16) == 65536 by { Pow2Add(8, 8); }
    Pow2Add(16, 16);
  }

  /** `(n << wildcard) & n` with n the all-ones address: the mask as the
      constructor computes it. `ShiftMaskValue` gives its closed form. */
  function ShiftMask(prefix: nat): nat
    requires prefix <= 32
  {
    BitAnd(AllOnes * Pow2(32 - prefix), AllOnes)
  }

  /** The mask of a prefix: the top `prefix` of 32 bits set. */
  function PrefixMask(prefix: nat): nat
    requires prefix <= 32
  {
    Pow2Of32();
    Pow2Mono(32 - prefix, 32);
    4294967296 - Pow2(32 - prefix)
  }

  /** The shift-and-AND expression yields the mask of the prefix. */
  lemma ShiftMaskValue(p: nat)
    requires p <= 32
    ensures ShiftMask(p) == PrefixMask(p)
  {
    var w := 32 - p;
    var W := Pow2(w);
    Pow2Of32();
    Pow2Mono(w, 32);
    var shifted := AllOnes * W;
    AndLowOnes(shifted, 32);
    assert shifted == (W - 1) * 4294967296 + (4294967296 - W);
    DivModUnique(shifted, 4294967296, W - 1, 4294967296 - W);
  }

  /** In binary the mask of prefix p is p ones followed by 32 - p zeros. */
  lemma PrefixMaskBits(p: nat)
    requires p <= 32
    ensures Bin(PrefixMask(p), 32) == Repeat('1', p) + Repeat('0', 32 - p)
  {
    Pow2Of32();
    BinOfHighMask(32, 32 - p, PrefixMask(p));
  }

  function LeadingOnes(s: string): (n: nat)
    ensures n <= |s|
  {
    if s != [] && s[0] == '1' then 1 + LeadingOnes(s[1..]) else 0
  }

  /** `__check_mask`: the 32-digit binary form must match `^(1*)0*$`; the
      prefix is the length of the leading run of ones. */
  function CheckMask(mask: nat): (bool, nat)
  {
    var bin := Bin(mask, 32);
    var ones := LeadingOnes(bin);
    if forall i :: ones <= i < 32 ==> bin[i] == '0' then (true, ones) else (false, 0)
  }

  lemma {:induction false} LeadingOnesOf(p: nat, z: nat)
    ensures LeadingOnes(Repeat('1', p) + Repeat('0', z)) == p
  {
    var s := Repeat('1', p) + Repeat('0', z);
    if p > 0 {
      assert s[1..] == Repeat('1', p - 1) + Repeat('0', z);
      LeadingOnesOf(p - 1, z);
    } else if z > 0 {
      assert s[0] == '0';
    }
  }

  lemma {:induction false} LeadingOnesAreOnes(s: string)
    ensures forall i :: 0 <= i < LeadingOnes(s) ==> s[i] == '1'
  {
    if s != [] && s[0] == '1' {
      LeadingOnesAreOnes(s[1..]);
    }
  }

  /** A mask passes the check exactly when it is the mask of a prefix, and
      then the check returns that prefix: prefix -> mask -> check is the identity. */
  lemma CheckMaskIff(mask: nat, p: nat)
    requires mask < 4294967296
    ensures CheckMask(mask) == (true, p) <==> p <= 32 && mask == PrefixMask(p)
  {
    if p <= 32 && mask == PrefixMask(p) {
      CheckMaskOfPrefix(p);
    }
    if CheckMask(mask) == (true, p) {
      CheckMaskOnlyPrefix(mask);
    }
  }

  /** The check accepts the mask of every prefix and gives that prefix back. */
  lemma CheckMaskOfPrefix(p: nat)
    requires p <= 32
    ensures CheckMask(PrefixMask(p)) == (true, p)
  {
    var ones, zeros := Repeat('1', p), Repeat('0', 32 - p);
    PrefixMaskBits(p);
    LeadingOnesOf(p, 32 - p);
    var bin := ones + zeros;
    assert forall i :: p <= i < 32 ==> bin[i] == zeros[i - p];
  }

  /** Whatever the check accepts is the mask of the prefix it returns. */
  lemma CheckMaskOnlyPrefix(mask: nat)
    requires mask < 4294967296 && CheckMask(mask).0
    ensures CheckMask(mask).1 <= 32 && mask == PrefixMask(CheckMask(mask).1)
  {
    var bin := Bin(mask, 32);
    var ones := LeadingOnes(bin);
    LeadingOnesAreOnes(bin);
    var expected := Repeat('1', ones) + Repeat('0', 32 - ones);
    assert forall i :: 0 <= i < 32 ==> bin[i] == expected[i];
    assert bin == expected;
    PrefixMaskBits(ones);
    Pow2Of32();
    BinInjective(mask, PrefixMask(ones), 32);
  }

  /** What every constructed network satisfies. */
  predicate WellFormed(n: Network)
  {
    && n.prefix <= 32
    && n.wildcard == 32 - n.prefix
    && n.netmask == PrefixMask(n.prefix)
    && n.netid < 4294967296
    && n.netid % Pow2(n.wildcard) == 0
  }

  /** Whether the constructor accepts its arguments. */
  predicate Accepts(ip: string, netmask: MaskArg)
  {
    CheckIp(ip) &&
    match netmask
    case PrefixArg(p) => 0 <= p <= 32
    case MaskText(t) => CheckIp(t) && CheckMask(Value(t)).0
    case OtherArg => false
  }

  /** Clearing the low w bits of a 32-bit address is AND with the mask of
      prefix 32 - w. */
  lemma AndWithPrefixMask(v: nat, p: nat)
    requires v < 4294967296 && p <= 32
    ensures BitAnd(v, PrefixMask(p)) == v - v % Pow2(32 - p)
  {
    Pow2Of32();
    Pow2Mono(32 - p, 32);
    AndHighMask(v, 32, 32 - p, PrefixMask(p));
  }

  lemma ValueBelow(s: string)
    requires CheckIp(s)
    ensures Value(s) < 4294967296
  {
    ValueOfBytes(s);
  }

  /** The network of prefix p around the address number v: the mask of the
      prefix and the address with its low 32 - p bits cleared. */
  function BlockOf(v: nat, p: nat): (n: Network)
    requires v < 4294967296 && p <= 32
    ensures WellFormed(n) && n.prefix == p && n.netmask == PrefixMask(p)
    ensures n.netid == v - v % Pow2(32 - p)
    ensures n.netid <= v < n.netid + Pow2(n.wildcard)
  {
    Network(p, 32 - p, PrefixMask(p), AlignedDown(v, Pow2(32 - p)))
  }

  /** The stored fields are what the constructor's bitwise expressions give:
      the shifted mask, and the address AND that mask. */
  lemma BlockOfBitwise(v: nat, p: nat)
    requires v < 4294967296 && p <= 32
    ensures BlockOf(v, p).netmask == ShiftMask(p)
    ensures BlockOf(v, p).netid == BitAnd(v, ShiftMask(p))
  {
    ShiftMaskValue(p);
    AndWithPrefixMask(v, p);
  }

  /** `Network(ip, netmask)`; `NewNetworkSpec` states what it yields. */
  function NewNetwork(ip: string, netmask: MaskArg): (r: Result<Network, NetError>)
    ensures r.Ok? ==> WellFormed(r.value)
  {
    if !CheckIp(ip) then Err(InvalidAddress)
    else
      ValueBelow(ip);
      match netmask
      case PrefixArg(p) =>
        if p < 0 || p > 32 then Err(PrefixOutOfRange)
        else Ok(BlockOf(Value(ip), p))
      case MaskText(t) =>
        if !CheckIp(t) then Err(InvalidNetmask)
        else
          ValueBelow(t);
          var (valid, p) := CheckMask(Value(t));
          if !valid then Err(NotAMask)
          else Ok(BlockOf(Value(ip), p))
      case OtherArg => Err(InvalidNetmask)
  }

  /** The constructor accepts exactly a valid address with a prefix from 0 to
      32 or a valid contiguous mask, reports each failure in the order it
      checks, and yields the block of the address under the mask. */
  lemma NewNetworkSpec(ip: string, netmask: MaskArg)
    ensures var r := NewNetwork(ip, netmask);
      && (r.Ok? <==> Accepts(ip, netmask))
      && (!CheckIp(ip) ==> r == Err(InvalidAddress))
      && (CheckIp(ip) && netmask.PrefixArg? && !(0 <= netmask.prefix <= 32) ==> r == Err(PrefixOutOfRange))
      && (CheckIp(ip) && netmask.MaskText? && !CheckIp(netmask.text) ==> r == Err(InvalidNetmask))
      && (CheckIp(ip) && netmask.MaskText? && CheckIp(netmask.text) && !CheckMask(Value(netmask.text)).0 ==>
            r == Err(NotAMask))
      && (CheckIp(ip) && netmask.OtherArg? ==> r == Err(InvalidNetmask))
      && (r.Ok? ==> r.value.netid == BitAnd(Value(ip), r.value.netmask))
      && (r.Ok? ==> r.value.netid <= Value(ip) < r.value.netid + Pow2(r.value.wildcard))
      && (r.Ok? && netmask.PrefixArg? ==> r.value.prefix == netmask.prefix)
      && (r.Ok? && netmask.MaskText? ==> r.value.netmask == Value(netmask.text))
  {
    if CheckIp(ip) {
      ValueBelow(ip);
      if netmask.MaskText? && CheckIp(netmask.text) {
        ValueBelow(netmask.text);
        var (valid, p) := CheckMask(Value(netmask.text));
        if valid {
          CheckMaskIff(Value(netmask.text), p);
        }
      }
    }
    if NewNetwork(ip, netmask).Ok? {
      NewNetworkAnd(ip, netmask);
    }
  }

  /** The stored network id is the address AND the stored mask. */
  lemma NewNetworkAnd(ip: string, netmask: MaskArg)
    requires NewNetwork(ip, netmask).Ok?
    ensures NewNetwork(ip, netmask).value.netid == BitAnd(Value(ip), NewNetwork(ip, netmask).value.netmask)
  {
    ValueBelow(ip);
    var v := Value(ip);
    if netmask.PrefixArg? {
      AndWithPrefixMask(v, netmask.prefix);
    } else {
      var m := Value(netmask.text);
      ValueBelow(netmask.text);
      CheckMaskOnlyPrefix(m);
      var p := CheckMask(m).1;
      assert NewNetwork(ip, netmask).value == BlockOf(v, p);
      AndWithPrefixMask(v, p);
    }
  }

  /** An address number below 2^32 survives `from_number` then `to_number`. */
  lemma NumberText(x: nat)
    requires x < 4294967296
    ensures CheckIp(FormatIp(x)) && Value(FormatIp(x)) == x
  {
    FromNumberToNumber(x);
    SmallMod(x, 4294967296);
  }

  /** An aligned block of 2^w addresses below 2^32 ends at or below 2^32. */
  lemma AlignedBlockFits(n: Network)
    requires WellFormed(n)
    ensures n.netid + Pow2(n.wildcard) <= 4294967296
  {
    Pow2Add(n.wildcard, n.prefix);
    Pow2Of32();
    assert n.wildcard + n.prefix == 32;
    AlignedFits(n.netid, Pow2(n.wildcard), Pow2(n.prefix));
  }

  /** The last address of the block, below 2^32. */
  function BroadcastNumber(n: Network): (b: nat)
    requires WellFormed(n)
    ensures n.netid <= b < 4294967296
  {
    AlignedBlockFits(n);
    n.netid + Pow2(n.wildcard) - 1
  }

  /** `get_id`. */
  function GetId(n: Network): (r: string)
    requires WellFormed(n)
    ensures CheckIp(r) && Value(r) == n.netid
  {
    NumberText(n.netid);
    FormatIp(n.netid)
  }

  /** `get_broadcast`: netid + 2^wildcard - 1, i.e. the netid with all host bits set. */
  function GetBroadcast(n: Network): (r: string)
    requires WellFormed(n)
    ensures CheckIp(r) && Value(r) == BroadcastNumber(n)
    ensures Value(r) == n.netid + Pow2(n.wildcard) - 1
  {
    var b := BroadcastNumber(n);
    NumberText(b);
    FormatIp(b)
  }

  /** `get_first_host_ip`: netid + 1, wrapping past 255.255.255.255 for a /32. */
  function GetFirstHost(n: Network): (r: string)
    requires WellFormed(n)
    ensures CheckIp(r) && Value(r) == (n.netid + 1) % 4294967296
    ensures n.wildcard >= 1 ==> Value(r) == n.netid + 1 <= BroadcastNumber(n)
  {
    FromNumberToNumber(n.netid + 1);
    if n.wildcard >= 1 then
      HostBounds(n);
      FormatIp(n.netid + 1)
    else
      FormatIp(n.netid + 1)
  }

  /** `get_last_host_ip`: netid + 2^wildcard - 2, one below the broadcast
      (for a /32 that is one below the network id, modulo 2^32). */
  function GetLastHost(n: Network): (r: string)
    requires WellFormed(n)
    ensures CheckIp(r) && Value(r) == (n.netid + Pow2(n.wildcard) - 2) % 4294967296
    ensures n.wildcard >= 1 ==> Value(r) + 1 == BroadcastNumber(n) && n.netid <= Value(r)
  {
    var l := n.netid + Pow2(n.wildcard) - 2;
    LastHostValue(n, l);
    FormatIp(l)
  }

  lemma LastHostValue(n: Network, l: int)
    requires WellFormed(n) && l == n.netid + Pow2(n.wildcard) - 2
    ensures CheckIp(FormatIp(l)) && Value(FormatIp(l)) == l % 4294967296
    ensures n.wildcard >= 1 ==> Value(FormatIp(l)) + 1 == BroadcastNumber(n) && n.netid <= Value(FormatIp(l))
  {
    FromNumberToNumber(l);
    if n.wildcard >= 1 {
      HostBounds(n);
    }
  }

  /** With at least one host bit, the first and last host numbers do not wrap. */
  lemma HostBounds(n: Network)
    requires WellFormed(n) && n.wildcard >= 1
    ensures (n.netid + 1) % 4294967296 == n.netid + 1 <= BroadcastNumber(n)
    ensures (n.netid + Pow2(n.wildcard) - 2) % 4294967296 == n.netid + Pow2(n.wildcard) - 2 >= n.netid
  {
    Pow2Mono(1, n.wildcard);
    assert Pow2(1) == 2;
    AlignedBlockFits(n);
    SmallMod(n.netid + 1, 4294967296);
    SmallMod(n.netid + Pow2(n.wildcard) - 2, 4294967296);
  }

  /** `get_number_of_hosts`: the block minus the id and the broadcast. For a
      /31 that is 0 and for a /32 it is -1, as the source computes it. */
  function NumberOfHosts(n: Network): (h: int)
    requires WellFormed(n)
    ensures h + 2 == BroadcastNumber(n) - n.netid + 1
    ensures n.wildcard >= 1 ==> h == Value(GetLastHost(n)) - Value(GetFirstHost(n)) + 1
  {
    Pow2(n.wildcard) - 2
  }

  predicate InBlock(n: Network, x: int)
    requires WellFormed(n)
  {
    n.netid <= x <= BroadcastNumber(n)
  }

  /** `overlap`: false when one block ends before the other starts, comparing
      the re-parsed broadcast text with the other network's id. */
  function Overlap(a: Network, b: Network): (r: bool)
    requires WellFormed(a) && WellFormed(b)
    ensures r <==> exists x :: InBlock(a, x) && InBlock(b, x)
  {
    var first1, last1 := a.netid, Value(GetBroadcast(a));
    var first2, last2 := b.netid, Value(GetBroadcast(b));
    if last1 < first2 then false
    else if last2 < first1 then false
    else
      var x := if first1 < first2 then first2 else first1;
      assert InBlock(a, x) && InBlock(b, x);
      true
  }

  /** Every network overlaps itself, and overlap does not depend on the order. */
  lemma OverlapReflexiveSymmetric(a: Network, b: Network)
    requires WellFormed(a) && WellFormed(b)
    ensures Overlap(a, a)
    ensures Overlap(a, b) == Overlap(b, a)
  {
    assert InBlock(a, a.netid);
  }
}
