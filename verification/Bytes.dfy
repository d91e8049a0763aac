/** Bytes, fixed-width integers and their big-endian layout. */
module Bytes {

  type byte = x: int | 0 <= x < 0x100
  type uint16 = x: int | 0 <= x < 0x1_0000
  type uint32 = x: int | 0 <= x < 0x1_0000_0000
  type uint64 = x: int | 0 <= x < 0x1_0000_0000_0000_0000
  type int64 = x: int | -0x8000_0000_0000_0000 <= x < 0x8000_0000_0000_0000
  type bytes = seq<byte>

  /** 256 to the power n. */
  function Pow256(n: nat): (p: nat)
    ensures p > 0
  {
    if n == 0 then 1 else 256 * Pow256(n - 1)
  }

  /** The n low-order bytes of v, most significant first. */
  function BE(v: nat, n: nat): (s: bytes)
    ensures |s| == n
  {
    if n == 0 then [] else BE(v / 256, n - 1) + [v % 256]
  }

  /** The number a big-endian byte string denotes. */
  function FromBE(s: bytes): nat
  {
    if s == [] then 0 else FromBE(s[..|s| - 1]) * 256 + s[|s| - 1]
  }

  lemma {:induction false} FromBEBound(s: bytes)
    ensures FromBE(s) < Pow256(|s|)
  {
    if s == [] {
    } else {
      FromBEBound(s[..|s| - 1]);
    }
  }

  lemma {:induction false} FromBEOfBE(v: nat, n: nat)
    requires v < Pow256(n)
    ensures FromBE(BE(v, n)) == v
  {
    if n == 0 {
    } else {
      FromBEOfBE(v / 256, n - 1);
      assert BE(v, n)[..n - 1] == BE(v / 256, n - 1);
    }
  }

  lemma {:induction false} BEOfFromBE(s: bytes)
    ensures BE(FromBE(s), |s|) == s
  {
    if s == [] {
    } else {
      var init, last := s[..|s| - 1], s[|s| - 1];
      BEOfFromBE(init);
      assert (FromBE(init) * 256 + last) / 256 == FromBE(init);
      assert s == init + [last];
    }
  }

  lemma Pow256Values()
    ensures Pow256(1) == 0x100 && Pow256(2) == 0x1_0000 && Pow256(4) == 0x1_0000_0000
    ensures Pow256(8) == 0x1_0000_0000_0000_0000
  {
    assert Pow256(2) == 0x1_0000;
    assert Pow256(4) == 0x1_0000_0000;
    assert Pow256(6) == 0x1_0000_0000_0000;
  }

  /** Two's complement: the cast from int64_t to uint64_t ... */
  function ToUnsigned64(v: int64): uint64 {
    if v < 0 then v + 0x1_0000_0000_0000_0000 else v
  }

  /** ... and back. */
  function ToSigned64(u: uint64): int64 {
    if u < 0x8000_0000_0000_0000 then u else u - 0x1_0000_0000_0000_0000
  }

  /** The cast from a sum of unsigned numbers to a signed 32-bit number. */
  function ToSigned32(u: nat): int {
    var w := u % 0x1_0000_0000;
    if w < 0x8000_0000 then w else w - 0x1_0000_0000
  }

  /** read_be16. */
  function ReadBE16(s: bytes): uint16
    requires |s| == 2
  {
    FromBEBound(s);
    Pow256Values();
    FromBE(s)
  }

  /** read_be32. */
  function ReadBE32(s: bytes): uint32
    requires |s| == 4
  {
    FromBEBound(s);
    Pow256Values();
    FromBE(s)
  }

  /** read_be64, which returns a signed number. */
  function ReadBE64(s: bytes): int64
    requires |s| == 8
  {
    FromBEBound(s);
    Pow256Values();
    ToSigned64(FromBE(s))
  }

  lemma ReadWrite16(v: uint16)
    ensures ReadBE16(BE(v, 2)) == v
  {
    Pow256Values();
    FromBEOfBE(v, 2);
  }

  lemma ReadWrite32(v: uint32)
    ensures ReadBE32(BE(v, 4)) == v
  {
    Pow256Values();
    FromBEOfBE(v, 4);
  }

  lemma ReadWrite64(v: int64)
    ensures ReadBE64(BE(ToUnsigned64(v), 8)) == v
  {
    Pow256Values();
    FromBEOfBE(ToUnsigned64(v), 8);
  }

  lemma WriteRead64(s: bytes)
    requires |s| == 8
    ensures BE(ToUnsigned64(ReadBE64(s)), 8) == s
  {
    FromBEBound(s);
    Pow256Values();
    BEOfFromBE(s);
  }

  /** v shifted right by k bytes. */
  lemma {:induction false} BESplit(v: nat, n: nat, k: nat)
    requires k <= n
    ensures BE(v, n)[..n - k] == BE(v / Pow256(k), n - k)
    ensures k < n ==> BE(v, n)[n - 1 - k] == v / Pow256(k) % 256
    decreases k
  {
    if k == 0 {
    } else {
      BESplit(v / 256, n - 1, k - 1);
      DivDiv(v, Pow256(k - 1));
      assert BE(v, n)[..n - k] == BE(v / 256, n - 1)[..n - k];
    }
  }

  /** The same layout told byte by byte, without recursion. */
  function Octets(v: nat, n: nat): (s: bytes)
    ensures |s| == n
  {
    seq(n, i requires 0 <= i < n => v / Pow256(n - 1 - i) % 256)
  }

  lemma BEIsOctets(v: nat, n: nat)
    ensures BE(v, n) == Octets(v, n)
  {
    forall i | 0 <= i < n ensures BE(v, n)[i] == Octets(v, n)[i] {
      BESplit(v, n, n - 1 - i);
    }
  }

  lemma OctetValues(v: nat)
    ensures Octets(v, 2) == [v / 0x100 % 256, v % 256]
    ensures Octets(v, 4) == [v / 0x100_0000 % 256, v / 0x1_0000 % 256, v / 0x100 % 256, v % 256]
  {
    Pow256Values();
    assert Pow256(0) == 1 && Pow256(3) == 0x100_0000;
  }

  /** The numbers in two and in four bytes from position i, written out. */
  function Two(s: bytes, i: nat): nat
    requires i + 2 <= |s|
  {
    var a: nat, b: nat := s[i], s[i + 1];
    a * 0x100 + b
  }

  function Four(s: bytes, i: nat): nat
    requires i + 4 <= |s|
  {
    var a: nat, b: nat, c: nat, d: nat := s[i], s[i + 1], s[i + 2], s[i + 3];
    a * 0x100_0000 + b * 0x1_0000 + c * 0x100 + d
  }

  /** Eight bytes, as a signed number. */
  function Signed8(s: bytes, i: nat): int
    requires i + 8 <= |s|
  {
    Four(s, i) * 0x1_0000_0000 + Four(s, i + 4) - if s[i] >= 128 then 0x1_0000_0000_0000_0000 else 0
  }

  lemma ReadTwo(s: bytes, i: nat)
    requires i + 2 <= |s|
    ensures FromBE(s[i..i + 2]) == ReadBE16(s[i..i + 2]) == Two(s, i)
  {
    var t := s[i..i + 2];
    assert FromBE(t[..1]) == t[0];
  }

  lemma ReadFour(s: bytes, i: nat)
    requires i + 4 <= |s|
    ensures FromBE(s[i..i + 4]) == ReadBE32(s[i..i + 4]) == Four(s, i)
  {
    var t := s[i..i + 4];
    ReadTwo(s, i);
    assert t[..2] == s[i..i + 2] && t[..3][..2] == t[..2];
    assert FromBE(t[..3]) == FromBE(t[..2]) * 256 + t[2];
  }

  lemma ReadEight(s: bytes, i: nat)
    requires i + 8 <= |s|
    ensures FromBE(s[i..i + 8]) == Four(s, i) * 0x1_0000_0000 + Four(s, i + 4)
    ensures ReadBE64(s[i..i + 8]) == Signed8(s, i)
  {
    var t := s[i..i + 8];
    ReadFour(s, i);
    assert t[..4] == s[i..i + 4] && t[..5][..4] == t[..4] && t[..6][..5] == t[..5] && t[..7][..6] == t[..6];
    assert FromBE(t[..5]) == FromBE(t[..4]) * 256 + t[4];
    assert FromBE(t[..6]) == FromBE(t[..5]) * 256 + t[5];
    assert FromBE(t[..7]) == FromBE(t[..6]) * 256 + t[6];
  }

  lemma DivDiv(v: nat, p: nat)
    requires p > 0
    ensures v / 256 / p == v / (256 * p)
  {
    var q, r := v / 256 / p, v / 256 % p;
    assert v / 256 == q * p + r;
    var low := v % 256;
    assert v == 256 * (q * p + r) + low == q * (256 * p) + (256 * r + low);
    assert 0 <= 256 * r + low < 256 * p by {
      assert r <= p - 1;
    }
    QuotientUnique(v, 256 * p, q, 256 * r + low);
  }

  lemma QuotientUnique(v: int, d: int, q: int, r: int)
    requires d > 0 && v == q * d + r && 0 <= r < d
    ensures v / d == q && v % d == r
  {
    var q', r' := v / d, v % d;
    MulAtLeast(q - q', d);
    MulAtLeast(q' - q, d);
    assert q * d + r == q' * d + r';
    assert (q - q') * d == q * d - q' * d;
    assert (q' - q) * d == q' * d - q * d;
  }

  lemma MulAtLeast(a: int, d: int)
    requires d > 0
    ensures a >= 1 ==> a * d >= d
  {
  }

  /** Bitwise exclusive or of the n low-order bits. */
  function XorBits(a: nat, b: nat, n: nat): nat {
    if n == 0 then 0 else 2 * XorBits(a / 2, b / 2, n - 1) + (if a % 2 != b % 2 then 1 else 0)
  }

  function Pow2(n: nat): (p: nat)
    ensures p > 0
  {
    if n == 0 then 1 else 2 * Pow2(n - 1)
  }

  lemma {:induction false} XorBound(a: nat, b: nat, n: nat)
    ensures XorBits(a, b, n) < Pow2(n)
  {
    if n == 0 {
    } else {
      XorBound(a / 2, b / 2, n - 1);
    }
  }

  lemma {:induction false} XorTwice(a: nat, b: nat, n: nat)
    requires a < Pow2(n)
    ensures XorBits(XorBits(a, b, n), b, n) == a
  {
    if n == 0 {
    } else {
      XorTwice(a / 2, b / 2, n - 1);
      var x := XorBits(a / 2, b / 2, n - 1);
      assert (2 * x + (if a % 2 != b % 2 then 1 else 0)) / 2 == x;
    }
  }

  /** Bit by bit: a one exactly where the two differ. */
  lemma {:induction false} XorBit(a: nat, b: nat, n: nat, j: nat)
    requires j < n
    ensures XorBits(a, b, n) / Pow2(j) % 2 == 1 <==> a / Pow2(j) % 2 != b / Pow2(j) % 2
  {
    if j == 0 {
      LowBit(XorBits(a / 2, b / 2, n - 1), if a % 2 != b % 2 then 1 else 0);
    } else {
      XorBit(a / 2, b / 2, n - 1, j - 1);
      HigherBit(a, j);
      HigherBit(b, j);
      HigherBit(XorBits(a, b, n), j);
      LowBit(XorBits(a / 2, b / 2, n - 1), if a % 2 != b % 2 then 1 else 0);
    }
  }

  lemma LowBit(x: nat, low: nat)
    requires low < 2
    ensures (2 * x + low) % 2 == low && (2 * x + low) / 2 == x
  {
  }

  lemma HigherBit(v: nat, j: nat)
    requires j > 0
    ensures v / Pow2(j) == v / 2 / Pow2(j - 1)
  {
    Halved(v, Pow2(j - 1));
  }

  lemma Halved(v: nat, p: nat)
    requires p > 0
    ensures v / 2 / p == v / (2 * p)
  {
    var q, r := v / 2 / p, v / 2 % p;
    assert v / 2 == q * p + r;
    assert v == 2 * (q * p + r) + v % 2 == q * (2 * p) + (2 * r + v % 2);
    QuotientUnique(v, 2 * p, q, 2 * r + v % 2);
  }

  lemma Pow2Of8()
    ensures Pow2(8) == 256
  {
    assert Pow2(4) == 16;
  }

  function Xor(a: byte, b: byte): byte {
    XorBound(a, b, 8);
    Pow2Of8();
    XorBits(a, b, 8)
  }

  lemma XorUndo(a: byte, b: byte)
    ensures Xor(Xor(a, b), b) == a
  {
    Pow2Of8();
    XorTwice(a, b, 8);
  }

  /** A growing std::vector<uint8_t> that the writers receive by reference. */
  class ByteBuffer {
    var contents: bytes

    constructor ()
      ensures contents == []
    {
      contents := [];
    }

    method PushBack(b: byte)
      modifies this
      ensures contents == old(contents) + [b]
    {
      contents := contents + [b];
    }

    method Append(s: bytes)
      modifies this
      ensures contents == old(contents) + s
    {
      contents := contents + s;
    }

    method WriteBE16(v: uint16)
      modifies this
      ensures contents == old(contents) + BE(v, 2)
    {
      PushBack(v / 256);
      PushBack(v % 256);
      assert BE(v, 2) == [v / 256, v % 256];
    }

    method WriteBE32(v: uint32)
      modifies this
      ensures contents == old(contents) + BE(v, 4)
    {
      PushBack(v / 0x100_0000 % 256);
      PushBack(v / 0x1_0000 % 256);
      PushBack(v / 0x100 % 256);
      PushBack(v % 256);
      assert BE(v, 4) == [v / 0x100_0000 % 256, v / 0x1_0000 % 256, v / 0x100 % 256, v % 256];
    }

    method WriteBE64(v: int64)
      modifies this
      ensures contents == old(contents) + BE(ToUnsigned64(v), 8)
    {
      var u := ToUnsigned64(v);
      ghost var all := BE(u, 8);
      var i := 7;
      while i >= 0
        invariant -1 <= i <= 7
        invariant contents == old(contents) + all[..7 - i]
        decreases i
      {
        BESplit(u, 8, i);
        PushBack(u / Pow256(i) % 256);
        assert all[..8 - i] == all[..7 - i] + [all[7 - i]];
        i := i - 1;
      }
      assert all[..8] == all;
    }
  }
}
