/** Dotted-quad IPv4 addresses (utils/iplib.py): validation, the base-256
    number of an address and back, the classful class of the first byte, and
    the comparison operators, which compare numbers rather than text. */
module IpLib {
  import opened Base
  import opened Text
  import opened Arith

  datatype IpError = IncorrectIp

  datatype IpClass = A | B | C | D | E

  // ---------------------------------------------------------------------
  // Validation

  /** The regular expression `([0-9]{1,3}.){k}[0-9]{1,3}` matched against all
      of `s`. The unescaped `.` matches any one character, so the groups are
      separated by arbitrary characters here; the split that follows in the
      source is what insists on dots. */
  predicate Groups(s: string, k: nat)
    decreases k, 1
  {
    if k == 0 then 1 <= |s| <= 3 && AllDigits(s)
    else Lead(s, 1, k) || Lead(s, 2, k) || Lead(s, 3, k)
  }

  /** `n` digits, any one character, then the remaining `k - 1` groups. */
  predicate Lead(s: string, n: nat, k: nat)
    requires k >= 1
    decreases k, 0
  {
    n < |s| && AllDigits(s[..n]) && Groups(s[n + 1..], k - 1)
  }

  /** The intended shape: exactly four dot-separated groups of one to three
      decimal digits, each at most 255 (leading zeros allowed). */
  predicate IsOctetText(g: string)
  {
    1 <= |g| <= 3 && AllDigits(g) && DecimalValue(g) <= 255
  }

  predicate IsDottedQuad(s: string)
  {
    var p := Split(s, '.');
    |p| == 4 && forall i :: 0 <= i < 4 ==> IsOctetText(p[i])
  }

  /** `IPAddress.__check_ip`, with the pattern's `$` read as the end of the
      string: the pattern must match, the split on '.' must give four parts,
      and every part must be a number in 0..255. */
  predicate CheckIp(s: string)
  {
    var p := Split(s, '.');
    Groups(s, 3) && |p| == 4 &&
    forall i :: 0 <= i < 4 ==> AllDigits(p[i]) && DecimalValue(p[i]) <= 255
  }

  lemma {:induction false} GroupsSplitAt(s: string, n: nat, k: nat)
    requires k >= 1 && 1 <= n <= 3 && Lead(s, n, k)
    ensures |Split(s, '.')| <= k + 1
    ensures |Split(s, '.')| == k + 1 ==>
      forall i :: 0 <= i <= k ==> 1 <= |Split(s, '.')[i]| <= 3 && AllDigits(Split(s, '.')[i])
    decreases k, 0
  {
    var d, c, t := s[..n], s[n], s[n + 1..];
    GroupsSplit(t, k - 1);
    assert '.' !in d;
    assert s == d + ([c] + t);
    SplitPrefix(d, [c] + t, '.');
    assert ([c] + t)[1..] == t;
    if c == '.' {
      assert Split([c] + t, '.') == [[]] + Split(t, '.');
      assert d + [] == d;
      assert Split(s, '.') == [d] + Split(t, '.');
      if |Split(s, '.')| == k + 1 {
        forall i | 1 <= i <= k
          ensures 1 <= |Split(s, '.')[i]| <= 3 && AllDigits(Split(s, '.')[i])
        {
          assert Split(s, '.')[i] == Split(t, '.')[i - 1];
        }
      }
    } else {
      SplitPrefix([c], t, '.');
      assert |Split([c] + t, '.')| == |Split(t, '.')|;
    }
  }

  /** A match of k+1 groups splits into at most k+1 parts; when it splits
      into exactly k+1, every separator was a dot and every part is a group. */
  lemma {:induction false} GroupsSplit(s: string, k: nat)
    requires Groups(s, k)
    ensures |Split(s, '.')| <= k + 1
    ensures |Split(s, '.')| == k + 1 ==>
      forall i :: 0 <= i <= k ==> 1 <= |Split(s, '.')[i]| <= 3 && AllDigits(Split(s, '.')[i])
    decreases k, 1
  {
    if k == 0 {
      assert '.' !in s;
      SplitPrefix(s, [], '.');
      assert s + [] == s;
    } else if Lead(s, 1, k) {
      GroupsSplitAt(s, 1, k);
    } else if Lead(s, 2, k) {
      GroupsSplitAt(s, 2, k);
    } else {
      GroupsSplitAt(s, 3, k);
    }
  }

  /** Dot-joined groups of one to three digits match the pattern. */
  lemma {:induction false} JoinedGroupsMatch(parts: seq<string>, k: nat)
    requires |parts| == k + 1
    requires forall i :: 0 <= i <= k ==> 1 <= |parts[i]| <= 3 && AllDigits(parts[i])
    ensures Groups(Join(parts, '.'), k)
  {
    if k > 0 {
      var s := Join(parts, '.');
      var n := |parts[0]|;
      JoinedGroupsMatch(parts[1..], k - 1);
      assert s[..n] == parts[0];
      assert s[n + 1..] == Join(parts[1..], '.');
      assert Lead(s, n, k);
    }
  }

  /** The check accepts exactly the dotted quads. */
  lemma CheckIpIsDottedQuad(s: string)
    ensures CheckIp(s) <==> IsDottedQuad(s)
  {
    var p := Split(s, '.');
    if CheckIp(s) {
      GroupsSplit(s, 3);
    }
    if IsDottedQuad(s) {
      JoinSplit(s, '.');
      JoinedGroupsMatch(p, 3);
    }
  }

  // ---------------------------------------------------------------------
  // Numbers

  /** `number = number * 256 + int(byte)` over the parts, left to right. */
  function Base256(parts: seq<string>): nat
    requires forall i :: 0 <= i < |parts| ==> AllDigits(parts[i])
  {
    if parts == [] then 0
    else Base256(parts[..|parts| - 1]) * 256 + DecimalValue(parts[|parts| - 1])
  }

  /** The number `to_number` computes for a valid address. */
  function Value(s: string): nat
    requires CheckIp(s)
  {
    Base256(Split(s, '.'))
  }

  /** The i-th byte of an address as written, counted from the left. */
  function Byte(s: string, i: nat): nat
    requires CheckIp(s) && i < 4
  {
    DecimalValue(Split(s, '.')[i])
  }

  /** `to_number` of a.b.c.d is a*2^24 + b*2^16 + c*2^8 + d, below 2^32. */
  lemma ValueOfBytes(s: string)
    requires CheckIp(s)
    ensures Value(s) == Byte(s, 0) * 16777216 + Byte(s, 1) * 65536 + Byte(s, 2) * 256 + Byte(s, 3)
    ensures Value(s) < 4294967296
  {
    var p := Split(s, '.');
    assert p[..4] == p && p[..3][..2] == p[..2] && p[..2][..1] == p[..1] && p[..1][..0] == [];
    assert Base256(p[..1]) == Byte(s, 0);
    assert Base256(p[..2]) == Byte(s, 0) * 256 + Byte(s, 1);
    assert Base256(p[..3]) == (Byte(s, 0) * 256 + Byte(s, 1)) * 256 + Byte(s, 2);
  }

  function Pow256(i: nat): (r: nat)
    ensures r >= 1
  {
    if i == 0 then 1 else 256 * Pow256(i - 1)
  }

  /** Byte i of n counted from the least significant, with Python's floor
      division, so that a negative n is taken modulo 2^32. */
  function ByteOf(n: int, i: nat): nat
  {
    (n / Pow256(i)) % 256
  }

  /** The four bytes of n as decimal text, most significant first. */
  function ByteTexts(n: int): (r: seq<string>)
    ensures |r| == 4
  {
    [DecimalString(ByteOf(n, 3)), DecimalString(ByteOf(n, 2)),
     DecimalString(ByteOf(n, 1)), DecimalString(ByteOf(n, 0))]
  }

  /** The text `from_number(n)` leaves in the address. */
  function FormatIp(n: int): string
  {
    Join(ByteTexts(n), '.')
  }

  lemma ByteTextsSplit(n: int)
    ensures Split(FormatIp(n), '.') == ByteTexts(n)
    ensures forall i :: 0 <= i < 4 ==> IsOctetText(ByteTexts(n)[i])
  {
    var t := ByteTexts(n);
    forall i | 0 <= i < 4
      ensures '.' !in t[i] && IsOctetText(t[i])
    {
      assert AllDigits(t[i]);
    }
    SplitJoin(t, '.');
  }

  /** `from_number` always leaves an address that `__check_ip` accepts. */
  lemma FormatIpIsValid(n: int)
    ensures CheckIp(FormatIp(n)) && IsDottedQuad(FormatIp(n))
  {
    ByteTextsSplit(n);
    CheckIpIsDottedQuad(FormatIp(n));
  }

  /** Dividing the running quotient by 256 moves on to the next byte. */
  lemma NextQuotient(n: int, i: nat, m: int)
    requires m == n / Pow256(i + 1)
    ensures m / 256 == n / Pow256(i + 2)
  {
    var p := Pow256(i + 1);
    DivDiv(n, p, 256);
    assert Pow256(i + 2) == 256 * p;
    assert p * 256 == 256 * p;
  }

  /** One more byte in front of the text built so far by `from_number`. */
  lemma NextByteText(n: int, i: nat, m: int, tail: string)
    requires i < 3 && m == n / Pow256(i + 1)
    requires tail == Join(ByteTexts(n)[3 - i..], '.')
    ensures DecimalString(m % 256) + "." + tail == Join(ByteTexts(n)[2 - i..], '.')
  {
    var t := ByteTexts(n);
    var rest := t[2 - i..];
    assert rest[1..] == t[3 - i..];
    assert t[2 - i] == DecimalString(ByteOf(n, 3 - (2 - i)));
  }

  /** The low 32 bits of n, byte by byte. */
  lemma LowBytes(n: int)
    ensures n % 4294967296 ==
      ByteOf(n, 3) * 16777216 + ByteOf(n, 2) * 65536 + ByteOf(n, 1) * 256 + ByteOf(n, 0)
  {
    DivDiv(n, 256, 16777216);
    DivDiv(n / 256, 256, 65536);
    DivDiv(n / 256 / 256, 256, 256);
    DivDiv(n, 256, 256);
    DivDiv(n, 65536, 256);
  }

  /** After `from_number(n)`, `to_number()` gives n modulo 2^32. */
  lemma FromNumberToNumber(n: int)
    ensures CheckIp(FormatIp(n)) && Value(FormatIp(n)) == n % 4294967296
  {
    FormatIpIsValid(n);
    ByteTextsSplit(n);
    ValueOfBytes(FormatIp(n));
    LowBytes(n);
  }

  /** `from_number(to_number())` keeps the number: it only canonicalises the text. */
  lemma ToNumberFromNumber(s: string)
    requires CheckIp(s)
    ensures CheckIp(FormatIp(Value(s))) && Value(FormatIp(Value(s))) == Value(s)
  {
    var v := Value(s);
    ValueOfBytes(s);
    DivModUnique(v, 4294967296, 0, v);
    FromNumberToNumber(v);
  }

  /** Two valid spellings denote the same number exactly when they have the
      same canonical text, e.g. "010.0.0.1" and "10.0.0.1". */
  lemma SameValueSameCanonical(s: string, t: string)
    requires CheckIp(s) && CheckIp(t)
    ensures Value(s) == Value(t) <==> FormatIp(Value(s)) == FormatIp(Value(t))
  {
    ToNumberFromNumber(s);
    ToNumberFromNumber(t);
  }

  lemma JoinFour(a: string, b: string, c: string, d: string)
    ensures Join([a, b, c, d], '.') == a + "." + b + "." + c + "." + d
  {
    var p := [a, b, c, d];
    assert p[1..] == [b, c, d] && p[1..][1..] == [c, d] && p[1..][1..][1..] == [d];
    assert Join([d], '.') == d;
    assert [c, d][1..] == [d];
    var j2 := Join([c, d], '.');
    assert j2 == c + ['.'] + Join([d], '.');
    assert "." == ['.'];
    var j3 := Join([b, c, d], '.');
    assert j3 == b + "." + j2;
    assert Join(p, '.') == a + "." + j3;
    assert a + "." + (b + "." + (c + "." + d)) == a + "." + b + "." + c + "." + d;
  }

  /** A dotted quad given by its four parts has those parts as its split. */
  lemma QuadParts(s: string, a: string, b: string, c: string, d: string)
    requires s == a + "." + b + "." + c + "." + d
    requires IsOctetText(a) && IsOctetText(b) && IsOctetText(c) && IsOctetText(d)
    ensures CheckIp(s) && Split(s, '.') == [a, b, c, d]
  {
    var p := [a, b, c, d];
    JoinFour(a, b, c, d);
    assert forall i :: 0 <= i < 4 ==> '.' !in p[i] by {
      forall i | 0 <= i < 4 ensures '.' !in p[i] {
        assert AllDigits(p[i]);
      }
    }
    SplitJoin(p, '.');
    assert IsDottedQuad(s);
    CheckIpIsDottedQuad(s);
  }

  lemma QuadValue(s: string, a: string, b: string, c: string, d: string)
    requires CheckIp(s) && Split(s, '.') == [a, b, c, d]
    ensures AllDigits(a) && AllDigits(b) && AllDigits(c) && AllDigits(d)
    ensures Value(s) == DecimalValue(a) * 16777216 + DecimalValue(b) * 65536 + DecimalValue(c) * 256 + DecimalValue(d)
  {
    ValueOfBytes(s);
    assert Byte(s, 0) == DecimalValue(a) && Byte(s, 1) == DecimalValue(b);
    assert Byte(s, 2) == DecimalValue(c) && Byte(s, 3) == DecimalValue(d);
  }

  lemma CanonicalTenZeroZeroOne()
    ensures FormatIp(167772161) == "10.0.0.1"
  {
    var v := 167772161;
    assert Pow256(0) == 1 && Pow256(1) == 256 && Pow256(2) == 65536;
    assert Pow256(3) == 16777216;
    DivModUnique(v, 16777216, 10, 1);
    DivModUnique(v, 65536, 2560, 1);
    DivModUnique(v, 256, 655360, 1);
    DivModUnique(10, 256, 0, 10);
    DivModUnique(2560, 256, 10, 0);
    DivModUnique(655360, 256, 2560, 0);
    assert ByteOf(v, 3) == 10 && ByteOf(v, 2) == 0 && ByteOf(v, 1) == 0 && ByteOf(v, 0) == 1;
    assert DecimalString(10) == "10" && DecimalString(0) == "0" && DecimalString(1) == "1";
    assert ByteTexts(v) == ["10", "0", "0", "1"];
    JoinFour("10", "0", "0", "1");
  }

  lemma DecimalExamples()
    ensures DecimalValue("0") == 0 && DecimalValue("1") == 1
    ensures DecimalValue("10") == 10 && DecimalValue("010") == 10
  {
    assert "010"[..2] == "01" && "01"[..1] == "0" && "10"[..1] == "1" && "0"[..0] == [];
    assert DecimalValue("01") == 1;
  }

  lemma ValueWithLeadingZero()
    ensures CheckIp("010.0.0.1") && Value("010.0.0.1") == 167772161
  {
    DecimalExamples();
    QuadParts("010.0.0.1", "010", "0", "0", "1");
    QuadValue("010.0.0.1", "010", "0", "0", "1");
  }

  lemma ValueWithoutLeadingZero()
    ensures CheckIp("10.0.0.1") && Value("10.0.0.1") == 167772161
  {
    DecimalExamples();
    QuadParts("10.0.0.1", "10", "0", "0", "1");
    QuadValue("10.0.0.1", "10", "0", "0", "1");
  }

  /** "010.0.0.1" and "10.0.0.1" are one address; `from_number(to_number())`
      turns the first into the second. */
  lemma LeadingZeroSpelling()
    ensures CheckIp("010.0.0.1") && CheckIp("10.0.0.1")
    ensures Value("010.0.0.1") == Value("10.0.0.1")
    ensures FormatIp(Value("010.0.0.1")) == "10.0.0.1"
  {
    ValueWithLeadingZero();
    ValueWithoutLeadingZero();
    CanonicalTenZeroZeroOne();
  }

  // ---------------------------------------------------------------------
  // The check as the source writes it

  /** Python's `$` also matches just before a final newline, so the pattern
      as written accepts one trailing '\n'. */
  predicate PatternAsWritten(s: string)
  {
    Groups(s, 3) || (|s| >= 1 && s[|s| - 1] == '\n' && Groups(s[..|s| - 1], 3))
  }

  /** Python's `int(v)` on the parts the pattern lets through: decimal digits,
      possibly followed by the newline, which `int` strips. */
  function PyInt(g: string): (r: Option<nat>)
    ensures AllDigits(g) && |g| >= 1 ==> r == Some(DecimalValue(g))
  {
    if |g| >= 1 && AllDigits(g) then Some(DecimalValue(g))
    else if |g| >= 2 && g[|g| - 1] == '\n' && AllDigits(g[..|g| - 1]) then Some(DecimalValue(g[..|g| - 1]))
    else None
  }

  /** `IPAddress.__check_ip` exactly as written (utils/iplib.py:13-26). */
  predicate CheckIpAsWritten(s: string)
  {
    var p := Split(s, '.');
    PatternAsWritten(s) && |p| == 4 &&
    forall i :: 0 <= i < 4 ==> PyInt(p[i]).Some? && PyInt(p[i]).value <= 255
  }

  /** Away from a trailing newline the check as written is the intended one. */
  lemma AsWrittenAgreesWithoutNewline(s: string)
    requires s == [] || s[|s| - 1] != '\n'
    ensures CheckIpAsWritten(s) <==> CheckIp(s)
  {
    if Groups(s, 3) {
      GroupsSplit(s, 3);
    }
  }

  /** "1.2.3.4\n" passes the check as written, yet is not a dotted quad. */
  lemma TrailingNewlineAccepted()
    ensures CheckIpAsWritten("1.2.3.4\n")
    ensures !CheckIp("1.2.3.4\n") && !IsDottedQuad("1.2.3.4\n")
  {
    NewlineSplit();
    NewlinePattern();
    var p := Split("1.2.3.4\n", '.');
    SmallGroups();
    NewlineGroup();
    assert forall i :: 0 <= i < 4 ==> PyInt(p[i]).Some? && PyInt(p[i]).value <= 255;
    assert !AllDigits(p[3]);
  }

  lemma SmallGroups()
    ensures PyInt("1") == Some(1) && PyInt("2") == Some(2) && PyInt("3") == Some(3)
  {
    assert DecimalValue("1") == 1 by { assert "1"[..0] == []; }
    assert DecimalValue("2") == 2 by { assert "2"[..0] == []; }
    assert DecimalValue("3") == 3 by { assert "3"[..0] == []; }
  }

  /** The last group keeps its newline: `int` reads 4, the digit check fails. */
  lemma NewlineGroup()
    ensures PyInt("4\n") == Some(4) && !AllDigits("4\n")
  {
    var g := "4\n";
    assert !IsDigit(g[1]);
    assert g[..1] == "4";
    assert DecimalValue("4") == 4 by { assert "4"[..0] == []; }
  }

  lemma NewlineSplit()
    ensures Split("1.2.3.4\n", '.') == ["1", "2", "3", "4\n"]
  {
    var p := ["1", "2", "3", "4\n"];
    JoinFour("1", "2", "3", "4\n");
    assert "1" + "." + "2" + "." + "3" + "." + "4\n" == "1.2.3.4\n";
    assert forall i :: 0 <= i < 4 ==> '.' !in p[i];
    SplitJoin(p, '.');
  }

  lemma NewlinePattern()
    ensures PatternAsWritten("1.2.3.4\n")
  {
    var s := "1.2.3.4\n";
    JoinFour("1", "2", "3", "4");
    assert "1" + "." + "2" + "." + "3" + "." + "4" == "1.2.3.4";
    JoinedGroupsMatch(["1", "2", "3", "4"], 3);
    assert s[..|s| - 1] == "1.2.3.4";
  }

  // ---------------------------------------------------------------------
  // Classful classes

  /** `get_class`: the first clear bit among 0x80, 0x40, 0x20, 0x10 of the
      first byte picks the class. */
  function ClassOf(firstByte: nat): IpClass
  {
    if BitAnd(firstByte, 0x80) == 0 then A
    else if BitAnd(firstByte, 0x40) == 0 then B
    else if BitAnd(firstByte, 0x20) == 0 then C
    else if BitAnd(firstByte, 0x10) == 0 then D
    else E
  }

  /** AND with the single bit `mask` is zero exactly when that bit of b is clear. */
  lemma BitClear(b: nat, j: nat, mask: nat)
    requires mask == Pow2(j)
    ensures BitAnd(b, mask) == 0 <==> (b / mask) % 2 == 0
  {
    AndSingleBit(b, j);
  }

  /** The class read off the four leading bits of the first byte. */
  lemma ClassBits(b: nat)
    ensures ClassOf(b) ==
              if (b / 128) % 2 == 0 then A
              else if (b / 64) % 2 == 0 then B
              else if (b / 32) % 2 == 0 then C
              else if (b / 16) % 2 == 0 then D
              else E
  {
    assert Pow2(4) == 0x10 && Pow2(5) == 0x20 && Pow2(6) == 0x40 && Pow2(7) == 0x80;
    BitClear(b, 7, 0x80);
    BitClear(b, 6, 0x40);
    BitClear(b, 5, 0x20);
    BitClear(b, 4, 0x10);
  }

  /** The classes of RFC 791 section 3.2 and RFC 1112 section 4 by range of
      the first byte: A below 128, B 128-191, C 192-223, D 224-239, E from 240. */
  lemma ClassRanges(b: nat)
    requires b < 256
    ensures ClassOf(b) == A <==> b < 128
    ensures ClassOf(b) == B <==> 128 <= b < 192
    ensures ClassOf(b) == C <==> 192 <= b < 224
    ensures ClassOf(b) == D <==> 224 <= b < 240
    ensures ClassOf(b) == E <==> 240 <= b
  {
    ClassBits(b);
    LeadingBits(b);
  }

  /** The four leading bits of a byte, by range. */
  lemma LeadingBits(b: nat)
    requires b < 256
    ensures (b / 128) % 2 == 0 <==> b < 128
    ensures b >= 128 ==> ((b / 64) % 2 == 0 <==> b < 192)
    ensures b >= 192 ==> ((b / 32) % 2 == 0 <==> b < 224)
    ensures b >= 224 ==> ((b / 16) % 2 == 0 <==> b < 240)
  {
    if b < 128 {
      DivModUnique(b, 128, 0, b);
    } else if b < 192 {
      DivModUnique(b, 128, 1, b - 128);
      DivModUnique(b, 64, 2, b - 128);
    } else if b < 224 {
      DivModUnique(b, 128, 1, b - 128);
      DivModUnique(b, 64, 3, b - 192);
      DivModUnique(b, 32, 6, b - 192);
    } else if b < 240 {
      DivModUnique(b, 128, 1, b - 128);
      DivModUnique(b, 64, 3, b - 192);
      DivModUnique(b, 32, 7, b - 224);
      DivModUnique(b, 16, 14, b - 224);
    } else {
      DivModUnique(b, 128, 1, b - 128);
      DivModUnique(b, 64, 3, b - 192);
      DivModUnique(b, 32, 7, b - 224);
      DivModUnique(b, 16, 15, b - 240);
    }
  }

  // ---------------------------------------------------------------------
  // The address object

  class IPAddress {
    var ip: string

    predicate Valid()
      reads this
    {
      CheckIp(ip)
    }

    /** Stores text already known to be valid; `New` is the checked entry point. */
    constructor (s: string)
      requires CheckIp(s)
      ensures Valid() && ip == s
    {
      ip := s;
    }

    /** `IPAddress(ip)`: raises `IPAddressException` exactly when the check fails. */
    static method New(s: string) returns (r: Result<IPAddress, IpError>)
      ensures r.Ok? <==> CheckIp(s)
      ensures r.Ok? ==> fresh(r.value) && r.value.Valid() && r.value.ip == s
      ensures r.Err? ==> r.error == IncorrectIp
    {
      if CheckIp(s) {
        var a := new IPAddress(s);
        r := Ok(a);
      } else {
        r := Err(IncorrectIp);
      }
    }

    /** `to_number`: accumulates the bytes left to right. */
    method ToNumber() returns (n: nat)
      requires Valid()
      ensures n == Byte(ip, 0) * 16777216 + Byte(ip, 1) * 65536 + Byte(ip, 2) * 256 + Byte(ip, 3)
      ensures n < 4294967296 && n == Value(ip)
    {
      var values := Split(ip, '.');
      n := 0;
      var i := 0;
      while i < |values|
        invariant i <= |values|
        invariant n == Base256(values[..i])
      {
        assert values[..i + 1][..i] == values[..i];
        n := n * 256 + DecimalValue(values[i]);
        i := i + 1;
      }
      assert values[..i] == values;
      ValueOfBytes(ip);
    }

    /** `from_number`: rebuilds the text from the low byte up. */
    method FromNumber(number: int)
      modifies this
      ensures ip == FormatIp(number) && Valid()
    {
      var m := number;
      ip := DecimalString(m % 256);
      m := m / 256;
      assert ByteTexts(number)[3..] == [ip];
      for i := 0 to 3
        invariant m == number / Pow256(i + 1)
        invariant ip == Join(ByteTexts(number)[3 - i..], '.')
      {
        NextByteText(number, i, m, ip);
        ip := DecimalString(m % 256) + "." + ip;
        NextQuotient(number, i, m);
        m := m / 256;
      }
      assert ByteTexts(number)[0..] == ByteTexts(number);
      FormatIpIsValid(number);
    }

    /** `get_class`. */
    function Class(): IpClass
      reads this
      requires Valid()
    {
      ClassOf(Byte(ip, 0))
    }

    /** `__eq__`: equal numbers, so equal canonical text. */
    predicate Eq(other: IPAddress)
      reads this, other
      requires Valid() && other.Valid()
      ensures Eq(other) <==> FormatIp(Value(ip)) == FormatIp(Value(other.ip))
    {
      SameValueSameCanonical(ip, other.ip);
      Value(ip) == Value(other.ip)
    }

    predicate Ne(other: IPAddress)
      reads this, other
      requires Valid() && other.Valid()
    {
      Value(ip) != Value(other.ip)
    }

    predicate Lt(other: IPAddress)
      reads this, other
      requires Valid() && other.Valid()
    {
      Value(ip) < Value(other.ip)
    }

    predicate Le(other: IPAddress)
      reads this, other
      requires Valid() && other.Valid()
    {
      Value(ip) <= Value(other.ip)
    }

    predicate Gt(other: IPAddress)
      reads this, other
      requires Valid() && other.Valid()
    {
      Value(ip) > Value(other.ip)
    }

    predicate Ge(other: IPAddress)
      reads this, other
      requires Valid() && other.Valid()
    {
      Value(ip) >= Value(other.ip)
    }
  }

  /** The class of an address is determined by its number: bytes above the
      first do not matter, and the top byte is the number's byte 3. */
  lemma ClassOfValue(a: IPAddress)
    requires a.Valid()
    ensures a.Class() == ClassOf(Value(a.ip) / 16777216)
  {
    ValueOfBytes(a.ip);
    var v := Value(a.ip);
    var rest := Byte(a.ip, 1) * 65536 + Byte(a.ip, 2) * 256 + Byte(a.ip, 3);
    DivModUnique(v, 16777216, Byte(a.ip, 0), rest);
  }

  /** The four bytes of an address text, most significant first. */
  function Bytes(s: string): (b: seq<nat>)
    requires CheckIp(s)
    ensures |b| == 4
  {
    [Byte(s, 0), Byte(s, 1), Byte(s, 2), Byte(s, 3)]
  }

  /** `x` comes before `y` in dictionary order: both agree up to a position
      where `x` holds the smaller entry. */
  predicate LexBelow(x: seq<nat>, y: seq<nat>)
    requires |x| == |y|
  {
    |x| > 0 && (x[0] < y[0] || (x[0] == y[0] && LexBelow(x[1..], y[1..])))
  }

  /** Comparing a·m + b with c·m + d, for digits b and d below m, compares
      a with c first and b with d only on a tie. */
  lemma DigitOrder(a: nat, b: nat, c: nat, d: nat, m: nat)
    requires b < m && d < m
    ensures a * m + b < c * m + d <==> a < c || (a == c && b < d)
    ensures a * m + b == c * m + d <==> a == c && b == d
  {
    if a < c {
      MulMono(m, a + 1, c);
    } else if c < a {
      MulMono(m, c + 1, a);
    }
  }

  /** Every byte of a valid address is below 256. */
  lemma BytesBelow256(s: string)
    requires CheckIp(s)
    ensures forall i :: 0 <= i < 4 ==> Bytes(s)[i] < 256
  {
  }

  /** Dictionary order on four entries, written out. */
  lemma LexBelowFour(x: seq<nat>, y: seq<nat>)
    requires |x| == |y| == 4
    ensures LexBelow(x, y) <==>
              x[0] < y[0] || (x[0] == y[0] && (x[1] < y[1] || (x[1] == y[1] && (x[2] < y[2] || (x[2] == y[2] && x[3] < y[3])))))
  {
    assert x[1..][1..][1..][1..] == [] && y[1..][1..][1..][1..] == [];
    assert LexBelow(x[1..][1..][1..], y[1..][1..][1..]) <==> x[3] < y[3];
    assert LexBelow(x[1..][1..], y[1..][1..]) <==> x[2] < y[2] || (x[2] == y[2] && x[3] < y[3]);
  }

  /** Four base-256 digits compare as numbers the way they compare in
      dictionary order. */
  lemma FourDigitOrder(x: seq<nat>, y: seq<nat>)
    requires |x| == |y| == 4
    requires forall i :: 0 <= i < 4 ==> x[i] < 256 && y[i] < 256
    ensures ((x[0] * 256 + x[1]) * 256 + x[2]) * 256 + x[3] < ((y[0] * 256 + y[1]) * 256 + y[2]) * 256 + y[3] <==>
              x[0] < y[0] || (x[0] == y[0] && (x[1] < y[1] || (x[1] == y[1] && (x[2] < y[2] || (x[2] == y[2] && x[3] < y[3])))))
    ensures ((x[0] * 256 + x[1]) * 256 + x[2]) * 256 + x[3] == ((y[0] * 256 + y[1]) * 256 + y[2]) * 256 + y[3] <==> x == y
  {
    DigitOrder(x[0], x[1], y[0], y[1], 256);
    DigitOrder(x[0] * 256 + x[1], x[2], y[0] * 256 + y[1], y[2], 256);
    DigitOrder((x[0] * 256 + x[1]) * 256 + x[2], x[3], (y[0] * 256 + y[1]) * 256 + y[2], y[3], 256);
    assert x == [x[0], x[1], x[2], x[3]] && y == [y[0], y[1], y[2], y[3]];
  }

  /** The address numbers compare as the byte lists do in dictionary order,
      whatever the spelling of each byte. */
  lemma ValueOrder(s: string, t: string)
    requires CheckIp(s) && CheckIp(t)
    ensures Value(s) < Value(t) <==> LexBelow(Bytes(s), Bytes(t))
    ensures Value(s) == Value(t) <==> Bytes(s) == Bytes(t)
  {
    var x, y := Bytes(s), Bytes(t);
    ValueOfBytes(s);
    ValueOfBytes(t);
    BytesBelow256(s);
    BytesBelow256(t);
    assert Value(s) == ((x[0] * 256 + x[1]) * 256 + x[2]) * 256 + x[3];
    assert Value(t) == ((y[0] * 256 + y[1]) * 256 + y[2]) * 256 + y[3];
    FourDigitOrder(x, y);
    LexBelowFour(x, y);
  }

  /** The six operators order addresses as their numbers: exactly one of
      `<`, `==`, `>` holds, `<=` is `<` or `==`, `!=` is not `==`; and `<`
      is dictionary order on the four bytes, so two spellings of the same
      bytes (`10.0.0.1` and `010.000.000.001`) compare equal. */
  lemma ComparisonsAgree(a: IPAddress, b: IPAddress)
    requires a.Valid() && b.Valid()
    ensures (if a.Lt(b) then 1 else 0) + (if a.Eq(b) then 1 else 0) + (if a.Gt(b) then 1 else 0) == 1
    ensures a.Le(b) <==> a.Lt(b) || a.Eq(b)
    ensures a.Ge(b) <==> a.Gt(b) || a.Eq(b)
    ensures a.Ne(b) <==> !a.Eq(b)
    ensures a.Lt(b) <==> b.Gt(a)
    ensures a.Lt(b) <==> LexBelow(Bytes(a.ip), Bytes(b.ip))
    ensures a.Eq(b) <==> Bytes(a.ip) == Bytes(b.ip)
  {
    ValueOrder(a.ip, b.ip);
  }
}
