/**
 * IPv4 addresses as the firmware handles them: an `IPAddress` is four
 * octets, it converts to a 32-bit word whose lowest byte is the first
 * octet, and `toStringIp` prints it by shifting that word.
 */
module Address {
  import opened CStrings

  datatype IPAddress = IPAddress(a: byte, b: byte, c: byte, d: byte)
  {
    function Octets(): (s: seq<byte>)
      ensures |s| == 4
    {
      [a, b, c, d]
    }
  }

  /** The soft access point's own address, also its gateway. */
  const CPapIP := IPAddress(172, 20, 0, 1)
  /** The soft access point's netmask, a /24. */
  const CPnetMsk := IPAddress(255, 255, 255, 0)
  /** 0.0.0.0, the value of every unused static address. */
  const EmptyIP := IPAddress(0, 0, 0, 0)

  /** The little-endian value of a byte sequence. */
  function LittleEndian(bs: seq<byte>): nat {
    if bs == [] then 0 else bs[0] + 256 * LittleEndian(bs[1..])
  }

  /** `(uint32_t) ip`: the first octet is the least significant byte. */
  function Dword(ip: IPAddress): nat {
    LittleEndian(ip.Octets())
  }

  /** `x >> (8 * i)` on a non-negative integer. */
  function ShiftRightBytes(x: nat, i: nat): nat {
    if i == 0 then x else ShiftRightBytes(x / 256, i - 1)
  }

  lemma {:induction false} ShiftLittleEndian(bs: seq<byte>, i: nat)
    requires i <= |bs|
    ensures ShiftRightBytes(LittleEndian(bs), i) == LittleEndian(bs[i..])
  {
    if i > 0 {
      assert LittleEndian(bs) / 256 == LittleEndian(bs[1..]);
      assert bs[1..][i - 1..] == bs[i..];
      ShiftLittleEndian(bs[1..], i - 1);
    }
  }

  /** `(ip >> (8 * i)) & 0xFF` is octet `i` of the address. */
  lemma ShiftedOctet(ip: IPAddress, i: nat)
    requires i < 4
    ensures ShiftRightBytes(Dword(ip), i) % 256 == ip.Octets()[i]
  {
    ShiftLittleEndian(ip.Octets(), i);
    var rest := ip.Octets()[i..];
    assert LittleEndian(rest) == rest[0] + 256 * LittleEndian(rest[1..]);
  }

  // ---------------------------------------------------------------------
  // Decimal text, as `String(unsigned)` prints it
  // ---------------------------------------------------------------------

  predicate IsDigit(c: char) {
    '0' <= c <= '9'
  }

  function DigitChar(d: nat): (c: Octet)
    requires d < 10
    ensures IsDigit(c)
  {
    ('0' as int + d) as char
  }

  /** The decimal text of `n`, most significant digit first, no leading zeros. */
  function Dec(n: nat): (r: Str)
    ensures |r| >= 1 && forall i :: 0 <= i < |r| ==> IsDigit(r[i])
    ensures |r| > 1 ==> r[0] != '0'
  {
    if n < 10 then [DigitChar(n)] else Dec(n / 10) + [DigitChar(n % 10)]
  }

  /** The number a string of decimal digits denotes. */
  function DecValue(s: Str): nat
    requires forall i :: 0 <= i < |s| ==> IsDigit(s[i])
  {
    if s == [] then 0
    else
      assert IsDigit(s[|s| - 1]);
      10 * DecValue(s[..|s| - 1]) + (s[|s| - 1] as int - '0' as int)
  }

  /** `Dec` prints exactly the number: reading its digits back gives `n`. */
  lemma {:induction false} DecRoundTrip(n: nat)
    ensures DecValue(Dec(n)) == n
  {
    if n >= 10 {
      var s := Dec(n);
      assert s[..|s| - 1] == Dec(n / 10);
      DecRoundTrip(n / 10);
    }
  }

  /** The text `toStringIp` produces: the four octets in decimal, in order, joined by dots. */
  function DottedQuad(ip: IPAddress): Str {
    Dec(ip.a) + "." + Dec(ip.b) + "." + Dec(ip.c) + "." + Dec(ip.d)
  }

  /** The first `i` octets of `DottedQuad`, each followed by its dot. */
  function QuadPrefix(ip: IPAddress, i: nat): Str
    requires i <= 3
  {
    if i == 0 then [] else QuadPrefix(ip, i - 1) + Dec(ip.Octets()[i - 1]) + "."
  }

  /** `toStringIp`: three shifted octets, each with a dot, then the fourth. */
  method ToStringIp(ip: IPAddress) returns (res: Str)
    ensures res == DottedQuad(ip)
  {
    var word := Dword(ip);
    res := "";
    for i := 0 to 3
      invariant res == QuadPrefix(ip, i)
    {
      ShiftedOctet(ip, i);
      res := res + Dec(ShiftRightBytes(word, i) % 256) + ".";
    }
    ShiftedOctet(ip, 3);
    res := res + Dec(ShiftRightBytes(word, 3) % 256);
    assert QuadPrefix(ip, 1) == Dec(ip.a) + ".";
    assert QuadPrefix(ip, 2) == Dec(ip.a) + "." + Dec(ip.b) + ".";
    assert QuadPrefix(ip, 3) == Dec(ip.a) + "." + Dec(ip.b) + "." + Dec(ip.c) + ".";
  }

  /** The access point's own address prints as "172.20.0.1". */
  lemma ApAddressText()
    ensures DottedQuad(CPapIP) == "172.20.0.1"
  {
    assert Dec(1) == "1" && Dec(2) == "2" && Dec(7) == "7" && Dec(0) == "0";
    assert Dec(17) == "17";
    assert Dec(172) == "172";
    assert Dec(20) == "20";
  }
}
