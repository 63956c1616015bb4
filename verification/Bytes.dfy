/** Bytes, C strings and 32-bit integers in network byte order. */
module Bytes {
  type byte = x: int | 0 <= x < 0x100
  type int32 = x: int | -0x8000_0000 <= x <= INT_MAX

  const INT_MAX := 0x7fff_ffff

  /** htonl followed by a copy of the four bytes: two's complement, most significant byte first. */
  function ToNet(x: int32): (b: seq<byte>)
    ensures |b| == 4
  {
    var u: int := if x < 0 then x + 0x1_0000_0000 else x;
    [u / 0x100_0000, u / 0x1_0000 % 0x100, u / 0x100 % 0x100, u % 0x100]
  }

  function Unsigned(b0: int, b1: int, b2: int, b3: int): int {
    b0 * 0x100_0000 + b1 * 0x1_0000 + b2 * 0x100 + b3
  }

  /** getInt32FromNetByte: four bytes at an address, through ntohl. */
  function FromNet(b: seq<byte>, at: int): int32
    requires 0 <= at && at + 4 <= |b|
  {
    var u := Unsigned(b[at], b[at + 1], b[at + 2], b[at + 3]);
    if u > INT_MAX then u - 0x1_0000_0000 else u
  }

  lemma UnsignedOfDigits(u: int)
    ensures u == Unsigned(u / 0x100_0000, u / 0x1_0000 % 0x100, u / 0x100 % 0x100, u % 0x100)
  {
    var hi, mid := u / 0x1_0000, u / 0x100;
    assert u / 0x100_0000 == hi / 0x100;
    assert hi == mid / 0x100;
    assert u == mid * 0x100 + u % 0x100;
    assert mid == hi * 0x100 + mid % 0x100;
  }

  lemma DigitsOfUnsigned(b0: byte, b1: byte, b2: byte, b3: byte)
    ensures var u := Unsigned(b0, b1, b2, b3);
      u / 0x100_0000 == b0 && u / 0x1_0000 % 0x100 == b1 && u / 0x100 % 0x100 == b2 && u % 0x100 == b3
  {
    var u: int := Unsigned(b0, b1, b2, b3);
    var mid: int := b0 * 0x1_0000 + b1 * 0x100 + b2;
    var hi: int := b0 * 0x100 + b1;
    assert u == mid * 0x100 + b3;
    assert mid == hi * 0x100 + b2;
    assert u / 0x100 == mid;
    assert u / 0x1_0000 == mid / 0x100 == hi;
    assert u / 0x100_0000 == hi / 0x100;
  }

  /** Most significant byte first, two's complement. */
  lemma NetIsBigEndian(x: int32)
    ensures var b := ToNet(x);
      (b[0] as int) * 0x100_0000 + (b[1] as int) * 0x1_0000 + (b[2] as int) * 0x100 + b[3]
      == if x < 0 then x + 0x1_0000_0000 else x
  {
    UnsignedOfDigits(if x < 0 then x + 0x1_0000_0000 else x);
  }

  /** Every int32, negative ones included, survives the trip over the wire,
      wherever its four bytes lie in a larger buffer. */
  lemma NetRoundTrip(b: seq<byte>, at: int, x: int32)
    requires 0 <= at && at + 4 <= |b|
    requires b[at..at + 4] == ToNet(x)
    ensures FromNet(b, at) == x
  {
    var s := b[at..at + 4];
    assert b[at] == s[0] && b[at + 1] == s[1] && b[at + 2] == s[2] && b[at + 3] == s[3];
    UnsignedOfDigits(if x < 0 then x + 0x1_0000_0000 else x);
  }

  /** And no two byte patterns stand for the same number. */
  lemma NetRoundTripBack(b: seq<byte>, at: int)
    requires 0 <= at && at + 4 <= |b|
    ensures ToNet(FromNet(b, at)) == b[at..at + 4]
  {
    DigitsOfUnsigned(b[at], b[at + 1], b[at + 2], b[at + 3]);
  }

  /** std::string(const char*): the bytes before the first NUL. */
  function CString(s: seq<byte>): (t: seq<byte>)
    ensures t <= s && 0 !in t
    ensures |t| < |s| ==> s[|t|] == 0
  {
    if s == [] || s[0] == 0 then [] else [s[0]] + CString(s[1..])
  }

  lemma {:induction false} CStringIdentity(s: seq<byte>)
    ensures CString(s) == s <==> 0 !in s
  {
    if s != [] && s[0] != 0 {
      CStringIdentity(s[1..]);
      assert s == [s[0]] + s[1..];
    }
  }

  /** memcpy of a whole string to an offset of an array. */
  method CopyInto(dst: array<byte>, at: nat, src: seq<byte>)
    requires at + |src| <= dst.Length
    modifies dst
    ensures dst[..] == old(dst[..at]) + src + old(dst[at + |src|..])
  {
    forall k | 0 <= k < |src| {
      dst[at + k] := src[k];
    }
  }
}
