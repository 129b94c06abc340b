/** The MAC address value type: a validator for six two-digit hex groups
    with one repeated separator, a normalised lower-case `:` form, the
    vendor/serial halves and the I/G and U/L bits of the first octet. */
module MacLib {
  import opened Base
  import opened Text
  import opened Arith

  datatype MacError = IncorrectMac

  /** The address as stored after construction. */
  datatype MacAddress = MacAddress(mac: string)

  /** ASCII lower-casing, as `str.lower` does on ASCII text. */
  function LowerChar(c: char): char
  {
    if 'A' <= c <= 'Z' then (c as int + 32) as char else c
  }

  function Lower(s: string): (r: string)
    ensures |r| == |s| && forall i :: 0 <= i < |s| ==> r[i] == LowerChar(s[i])
  {
    seq(|s|, i requires 0 <= i < |s| => LowerChar(s[i]))
  }

  predicate IsHexDigit(c: char)
  {
    '0' <= c <= '9' || 'a' <= c <= 'f'
  }

  /** The character class `[:-\\.]`: the range from `:` to backslash, plus `.`.
      The hyphen is not in it. */
  predicate IsSeparator(c: char)
  {
    ':' <= c <= '\\' || c == '.'
  }

  /** Seventeen characters: hex digits everywhere except at positions
      2, 5, 8, 11 and 14, which all hold the same separator. */
  predicate IsMacText(l: string)
  {
    && |l| == 17
    && IsSeparator(l[2])
    && forall i :: 0 <= i < 17 ==> if i % 3 == 2 then l[i] == l[2] else IsHexDigit(l[i])
  }

  /** `__check_mac` with the end anchor matching only at the very end. */
  predicate CheckMac(mac: string)
  {
    IsMacText(Lower(mac))
  }

  /** `__check_mac` as written: `$` also matches just before a final newline. */
  predicate CheckMacAsWritten(mac: string)
  {
    var l := Lower(mac);
    IsMacText(l) || (|l| == 18 && l[17] == '\n' && IsMacText(l[..17]))
  }

  /** Six groups of two hex digits. */
  predicate HexPairs(g: seq<string>)
  {
    |g| == 6 && forall k :: 0 <= k < 6 ==> |g[k]| == 2 && IsHexDigit(g[k][0]) && IsHexDigit(g[k][1])
  }

  /** The six two-character groups of a 17-character text. */
  function GroupsOf(l: string): (g: seq<string>)
    requires |l| == 17
    ensures |g| == 6 && forall k :: 0 <= k < 6 ==> g[k] == l[3 * k..3 * k + 2]
  {
    seq(6, k requires 0 <= k < 6 => l[3 * k..3 * k + 2])
  }

  /** Joining groups of two characters puts the separator at every third place. */
  lemma {:induction false} JoinPairs(g: seq<string>, sep: char)
    requires |g| >= 1 && forall k :: 0 <= k < |g| ==> |g[k]| == 2
    ensures |Join(g, sep)| == 3 * |g| - 1
    ensures forall i :: 0 <= i < 3 * |g| - 1 ==>
              Join(g, sep)[i] == if i % 3 == 2 then sep else g[i / 3][i % 3]
  {
    if |g| > 1 {
      var rest := g[1..];
      JoinPairs(rest, sep);
      var j := Join(g, sep);
      assert j == g[0] + [sep] + Join(rest, sep);
      forall i | 3 <= i < 3 * |g| - 1
        ensures j[i] == if i % 3 == 2 then sep else g[i / 3][i % 3]
      {
        assert j[i] == Join(rest, sep)[i - 3];
        assert (i - 3) % 3 == i % 3 && (i - 3) / 3 == i / 3 - 1;
      }
    }
  }

  /** A text matches the pattern iff it is six hex pairs joined by one separator
      from the class: every match splits into such groups ... */
  lemma MacTextIsJoin(l: string)
    requires IsMacText(l)
    ensures HexPairs(GroupsOf(l)) && l == Join(GroupsOf(l), l[2])
  {
    var g := GroupsOf(l);
    forall k | 0 <= k < 6
      ensures |g[k]| == 2 && IsHexDigit(g[k][0]) && IsHexDigit(g[k][1])
    {
      assert g[k][0] == l[3 * k] && g[k][1] == l[3 * k + 1];
      assert (3 * k) % 3 == 0 && (3 * k + 1) % 3 == 1;
    }
    JoinPairs(g, l[2]);
    var j := Join(g, l[2]);
    forall i | 0 <= i < 17
      ensures j[i] == l[i]
    {
      if i % 3 != 2 {
        assert g[i / 3][i % 3] == l[3 * (i / 3) + i % 3];
      }
    }
  }

  /** ... and every such join matches, giving back its groups. */
  lemma JoinIsMacText(g: seq<string>, sep: char)
    requires HexPairs(g) && IsSeparator(sep)
    ensures IsMacText(Join(g, sep)) && GroupsOf(Join(g, sep)) == g
  {
    JoinPairs(g, sep);
    var l := Join(g, sep);
    forall i | 0 <= i < 17
      ensures if i % 3 == 2 then l[i] == l[2] else IsHexDigit(l[i])
    {
    }
    forall k | 0 <= k < 6
      ensures GroupsOf(l)[k] == g[k]
    {
      assert l[3 * k] == g[k][0] && l[3 * k + 1] == g[k][1];
      assert (3 * k) / 3 == k && (3 * k + 1) / 3 == k;
    }
  }

  /** One character of the stored form: `-` and `.` become `:`, then lower case. */
  function NormalChar(c: char): char
  {
    LowerChar(if c == '-' || c == '.' then ':' else c)
  }

  function Normalize(mac: string): (r: string)
    ensures |r| == |mac| && forall i :: 0 <= i < |mac| ==> r[i] == NormalChar(mac[i])
  {
    seq(|mac|, i requires 0 <= i < |mac| => NormalChar(mac[i]))
  }

  /** The normal form is lower case, uses `:` in place of `.` and is stable. */
  lemma NormalizeIdempotent(mac: string)
    ensures Lower(Normalize(mac)) == Normalize(mac)
    ensures Normalize(Normalize(mac)) == Normalize(mac)
    ensures '.' !in Normalize(mac) && '-' !in Normalize(mac)
  {
  }

  /** `MACAddress(mac)`: rejected exactly when the check fails, otherwise stores
      the normal form, which is itself a valid address spelt with lower-case
      digits and a separator other than `.`. */
  function NewMac(mac: string): (r: Result<MacAddress, MacError>)
    ensures r.Ok? <==> CheckMac(mac)
    ensures r.Err? ==> r.error == IncorrectMac
    ensures r.Ok? ==> r.value.mac == Normalize(mac) && ValidMac(r.value)
  {
    if !CheckMac(mac) then Err(IncorrectMac)
    else
      NormalizeKeepsPattern(mac);
      Ok(MacAddress(Normalize(mac)))
  }

  /** What every constructed address satisfies. */
  predicate ValidMac(m: MacAddress)
  {
    IsMacText(m.mac) && Lower(m.mac) == m.mac && m.mac[2] != '.'
  }

  lemma NormalizeKeepsPattern(mac: string)
    requires CheckMac(mac)
    ensures IsMacText(Normalize(mac)) && Lower(Normalize(mac)) == Normalize(mac)
    ensures Normalize(mac)[2] != '.'
  {
    var l, n := Lower(mac), Normalize(mac);
    forall i | 0 <= i < 17
      ensures if i % 3 == 2 then n[i] == n[2] else IsHexDigit(n[i])
    {
      assert n[i] == (if l[i] == '-' || l[i] == '.' then ':' else l[i]);
    }
  }

  /** `str(mac)`. */
  function ToString(m: MacAddress): string
  {
    m.mac
  }

  /** Re-constructing from the stored text gives the same address. */
  lemma ConstructFromString(mac: string)
    requires CheckMac(mac)
    ensures NewMac(ToString(NewMac(mac).value)) == NewMac(mac)
  {
    NormalizeIdempotent(mac);
    NormalizeKeepsPattern(mac);
  }

  /** `get_vendor_id`: the first half, i.e. the first three groups. */
  function VendorId(m: MacAddress): (r: string)
    requires ValidMac(m)
    ensures |r| == 8 && r == Join(GroupsOf(m.mac)[..3], m.mac[2])
  {
    var g := GroupsOf(m.mac);
    JoinPairs(g[..3], m.mac[2]);
    MacTextIsJoin(m.mac);
    JoinPairs(g, m.mac[2]);
    m.mac[..|m.mac| / 2]
  }

  /** `get_serial_number`: what follows the middle separator, the last three groups. */
  function SerialNumber(m: MacAddress): (r: string)
    requires ValidMac(m)
    ensures |r| == 8 && r == Join(GroupsOf(m.mac)[3..], m.mac[2])
  {
    var g := GroupsOf(m.mac);
    var rest := g[3..];
    JoinPairs(rest, m.mac[2]);
    var j := Join(rest, m.mac[2]);
    forall i | 0 <= i < 8
      ensures m.mac[9 + i] == j[i]
    {
      var q, c := i / 3, i % 3;
      assert 9 + i == 3 * (3 + q) + c && (9 + i) % 3 == c;
      if c != 2 {
        assert j[i] == rest[q][c] && rest[q] == g[3 + q];
        assert g[3 + q] == m.mac[3 * (3 + q)..3 * (3 + q) + 2];
      }
    }
    m.mac[|m.mac| / 2 + 1..]
  }

  /** Vendor id, one separator and serial number give back the stored form. */
  lemma VendorSerialReassemble(m: MacAddress)
    requires ValidMac(m)
    ensures VendorId(m) + [m.mac[2]] + SerialNumber(m) == m.mac
  {
    assert m.mac[8] == m.mac[2];
    assert m.mac == m.mac[..8] + [m.mac[8]] + m.mac[9..];
  }

  function HexValue(c: char): (v: nat)
    requires IsHexDigit(c)
    ensures v < 16
  {
    if '0' <= c <= '9' then c as int - '0' as int else c as int - 'a' as int + 10
  }

  /** The k-th octet of the address. */
  function Octet(m: MacAddress, k: nat): (v: nat)
    requires ValidMac(m) && k < 6
    ensures v < 256
  {
    assert (3 * k) % 3 == 0 && (3 * k + 1) % 3 == 1;
    HexValue(m.mac[3 * k]) * 16 + HexValue(m.mac[3 * k + 1])
  }

  /** `is_local`: bit 0x2 of the hex digit `mac[1]`, the low digit of the first
      octet. That is the universal/local bit of the first octet. */
  function IsLocal(m: MacAddress): (r: bool)
    requires ValidMac(m)
    ensures r <==> (Octet(m, 0) / 2) % 2 == 1
  {
    var h := HexValue(m.mac[1]);
    var a := HexValue(m.mac[0]);
    AndSingleBit(h, 1);
    assert Pow2(1) == 2;
    DivModUnique(16 * a + h, 2, 8 * a + h / 2, h % 2);
    DivModUnique(8 * a + h / 2, 2, 4 * a + (h / 2) / 2, (h / 2) % 2);
    BitAnd(h, 2) != 0
  }

  /** `is_global`: the universal/local bit of the first octet is clear. */
  function IsGlobal(m: MacAddress): (r: bool)
    requires ValidMac(m)
    ensures r <==> (Octet(m, 0) / 2) % 2 == 0
  {
    !IsLocal(m)
  }

  /** `is_multicast`: bit 0x1 of `mac[1]`, the individual/group bit of the first octet. */
  function IsMulticast(m: MacAddress): (r: bool)
    requires ValidMac(m)
    ensures r <==> Octet(m, 0) % 2 == 1
  {
    var h := HexValue(m.mac[1]);
    var a := HexValue(m.mac[0]);
    AndSingleBit(h, 0);
    assert Pow2(0) == 1;
    DivModUnique(16 * a + h, 2, 8 * a + h / 2, h % 2);
    BitAnd(h, 1) != 0
  }

  /** `is_unicast`: the individual/group bit of the first octet is clear. */
  function IsUnicast(m: MacAddress): (r: bool)
    requires ValidMac(m)
    ensures r <==> Octet(m, 0) % 2 == 0
  {
    !IsMulticast(m)
  }

  /** `is_broadcast`: the stored text is `ff:ff:ff:ff:ff:ff`, i.e. every octet
      is 255 and the separator is `:` (another separator from the class,
      such as `;`, does not count). */
  function IsBroadcast(m: MacAddress): (r: bool)
    requires ValidMac(m)
    ensures r <==> m.mac[2] == ':' && forall k :: 0 <= k < 6 ==> Octet(m, k) == 255
  {
    BroadcastIff(m);
    m.mac == "ff:ff:ff:ff:ff:ff"
  }

  lemma BroadcastIff(m: MacAddress)
    requires ValidMac(m)
    ensures m.mac == "ff:ff:ff:ff:ff:ff" <==> m.mac[2] == ':' && forall k :: 0 <= k < 6 ==> Octet(m, k) == 255
  {
    if m.mac == "ff:ff:ff:ff:ff:ff" {
      BroadcastOctets(m);
    }
    if m.mac[2] == ':' && forall k :: 0 <= k < 6 ==> Octet(m, k) == 255 {
      OctetsBroadcast(m);
    }
  }

  lemma BroadcastOctets(m: MacAddress)
    requires ValidMac(m) && m.mac == "ff:ff:ff:ff:ff:ff"
    ensures forall k :: 0 <= k < 6 ==> Octet(m, k) == 255
  {
    forall k | 0 <= k < 6
      ensures Octet(m, k) == 255
    {
      assert k == 0 || k == 1 || k == 2 || k == 3 || k == 4 || k == 5;
      assert m.mac[3 * k] == 'f' && m.mac[3 * k + 1] == 'f';
      assert HexValue('f') == 15;
    }
  }

  lemma OctetsBroadcast(m: MacAddress)
    requires ValidMac(m) && m.mac[2] == ':'
    requires forall k :: 0 <= k < 6 ==> Octet(m, k) == 255
    ensures m.mac == "ff:ff:ff:ff:ff:ff"
  {
    forall i | 0 <= i < 17
      ensures m.mac[i] == if i % 3 == 2 then ':' else 'f'
    {
      if i % 3 != 2 {
        var k := i / 3;
        OctetDigits(m, k);
        assert i == 3 * k || i == 3 * k + 1;
      }
    }
    BroadcastShape();
  }

  /** Every third character of the broadcast text is `:`, the others `f`. */
  lemma BroadcastShape()
    ensures forall i :: 0 <= i < 17 ==> "ff:ff:ff:ff:ff:ff"[i] == if i % 3 == 2 then ':' else 'f'
  {
  }

  /** An octet of 255 is spelt "ff". */
  lemma OctetDigits(m: MacAddress, k: nat)
    requires ValidMac(m) && k < 6 && Octet(m, k) == 255
    ensures m.mac[3 * k] == 'f' && m.mac[3 * k + 1] == 'f'
  {
    assert (3 * k) % 3 == 0 && (3 * k + 1) % 3 == 1;
    var hi, lo := m.mac[3 * k], m.mac[3 * k + 1];
    assert HexValue(hi) * 16 + HexValue(lo) == 255;
    assert HexValue(hi) == 15 && HexValue(lo) == 15;
  }

  /** Upper-case input is normalised first, so "FF:FF:FF:FF:FF:FF" is broadcast. */
  lemma UpperCaseBroadcast()
    ensures NewMac("FF:FF:FF:FF:FF:FF").Ok?
    ensures IsBroadcast(NewMac("FF:FF:FF:FF:FF:FF").value)
  {
    UpperCaseLowered();
    BroadcastText();
    UpperCaseNormalized();
  }

  lemma UpperCaseLowered()
    ensures Lower("FF:FF:FF:FF:FF:FF") == "ff:ff:ff:ff:ff:ff"
  {
    var l := Lower("FF:FF:FF:FF:FF:FF");
    assert l[..9] == "ff:ff:ff:";
    assert l[9..] == "ff:ff:ff";
    assert l == l[..9] + l[9..];
  }

  lemma UpperCaseNormalized()
    ensures Normalize("FF:FF:FF:FF:FF:FF") == "ff:ff:ff:ff:ff:ff"
  {
    var n := Normalize("FF:FF:FF:FF:FF:FF");
    assert n[..9] == "ff:ff:ff:";
    assert n[9..] == "ff:ff:ff";
    assert n == n[..9] + n[9..];
  }

  lemma BroadcastText()
    ensures IsMacText("ff:ff:ff:ff:ff:ff")
  {
  }

  /** The separator class stops at the backslash, so a hyphenated address is rejected. */
  lemma HyphenRejected()
    ensures !CheckMac("00-1a-2b-3c-4d-5e")
  {
    assert Lower("00-1a-2b-3c-4d-5e")[2] == '-';
  }

  /** The check as written lets one trailing newline through; the address then
      stores eighteen characters. */
  lemma TrailingNewlineAccepted()
    ensures CheckMacAsWritten("00:1a:2b:3c:4d:5e\n")
    ensures !CheckMac("00:1a:2b:3c:4d:5e\n")
  {
    var s := "00:1a:2b:3c:4d:5e\n";
    LowerKeeps(s);
    SampleIsMacText();
    assert s[..17] == "00:1a:2b:3c:4d:5e";
  }

  lemma LowerKeeps(s: string)
    requires forall i :: 0 <= i < |s| ==> !('A' <= s[i] <= 'Z')
    ensures Lower(s) == s
  {
  }

  lemma SampleIsMacText()
    ensures IsMacText("00:1a:2b:3c:4d:5e")
  {
    var t := "00:1a:2b:3c:4d:5e";
    forall i | 0 <= i < 17
      ensures if i % 3 == 2 then t[i] == t[2] else IsHexDigit(t[i])
    {
    }
  }

  /** Without a final newline the two checks agree. */
  lemma AsWrittenAgreesWithoutNewline(mac: string)
    requires |mac| == 0 || mac[|mac| - 1] != '\n'
    ensures CheckMacAsWritten(mac) <==> CheckMac(mac)
  {
  }
}
