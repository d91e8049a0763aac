/** Reading bits and Exp-Golomb codes (ITU-T H.264, section 9.1). */
module BitReader {
  import opened Bytes

  type bit = x: nat | x < 2
  type bits = seq<bit>

  // ----- bit strings as readers see them: zeros for ever behind the end -----

  function Head(b: bits): bit {
    if b == [] then 0 else b[0]
  }

  function Tail(b: bits): bits {
    if b == [] then [] else b[1..]
  }

  function Drop(b: bits, n: nat): bits {
    if n <= |b| then b[n..] else []
  }

  /** The number in the next n bits. */
  function Value(b: bits, n: nat): nat {
    if n == 0 then 0 else 2 * Value(b, n - 1) + Head(Drop(b, n - 1))
  }

  // ----- fixed-length codes -----

  function Bits(v: nat, n: nat): (b: bits)
    ensures |b| == n
  {
    if n == 0 then [] else Bits(v / 2, n - 1) + [v % 2]
  }

  lemma {:induction false} BitsReadBack(v: nat, n: nat, rest: bits)
    requires v < Pow2(n)
    ensures Value(Bits(v, n) + rest, n) == v
    ensures Drop(Bits(v, n) + rest, n) == rest
  {
    if n == 0 {
      assert [] + rest == rest;
    } else {
      var upper := Bits(v / 2, n - 1);
      BitsReadBack(v / 2, n - 1, [v % 2] + rest);
      assert Bits(v, n) + rest == upper + ([v % 2] + rest);
    }
  }

  lemma {:induction false} ValueBound(b: bits, n: nat)
    ensures Value(b, n) < Pow2(n)
  {
    if n == 0 {
    } else {
      ValueBound(b, n - 1);
    }
  }

  // ----- Exp-Golomb codes -----

  datatype Read<T> = Read(value: T, rest: bits)

  /** Zeros before the first one; a zero that is the very last bit of the data is not counted. */
  function LeadingZeros(b: bits): Read<nat>
    decreases |b|
  {
    if Head(b) == 0 && Tail(b) != [] then var r := LeadingZeros(Tail(b)); Read(r.value + 1, r.rest)
    else Read(0, Tail(b))
  }

  /** ReadUE. The arithmetic is that of uint32_t. */
  function UE(b: bits): Read<uint32> {
    var z := LeadingZeros(b);
    if z.value == 0 then Read(0, z.rest)
    else Read((Pow2(z.value) - 1 + Value(z.rest, z.value)) % 0x1_0000_0000, Drop(z.rest, z.value))
  }

  function SignedOf(u: nat): int {
    if u % 2 == 1 then (u + 1) % 0x1_0000_0000 / 2 else -(u / 2)
  }

  /** ReadSE. */
  function SE(b: bits): Read<int> {
    var u := UE(b);
    Read(SignedOf(u.value), u.rest)
  }

  /** The number of leading zeros of the code of v: the logarithm of v + 1. */
  function CodeZeros(v: nat): (z: nat)
    ensures Pow2(z) <= v + 1 < 2 * Pow2(z)
  {
    if v == 0 then 0 else 1 + CodeZeros((v - 1) / 2)
  }

  function Zeros(n: nat): (b: bits)
    ensures |b| == n
  {
    seq(n, _ => 0)
  }

  /** The code of section 9.1. */
  function UECode(v: nat): bits {
    var z := CodeZeros(v);
    Zeros(z) + [1] + Bits(v + 1 - Pow2(z), z)
  }

  /** The mapping of section 9.1.1. */
  function SECode(k: int): bits {
    UECode(if k > 0 then 2 * k - 1 else -2 * k)
  }

  lemma {:induction false} LeadingZerosReadBack(z: nat, rest: bits)
    ensures LeadingZeros(Zeros(z) + [1] + rest) == Read(z, rest)
  {
    var b := Zeros(z) + [1] + rest;
    if z == 0 {
      assert b[1..] == rest;
    } else {
      LeadingZerosReadBack(z - 1, rest);
      assert b[1..] == Zeros(z - 1) + [1] + rest;
      assert b[0] == 0;
    }
  }

  predicate Codable(v: nat) {
    v <= 0x7FFF_FFFE
  }

  lemma Pow2Of30()
    ensures Pow2(30) == 0x4000_0000
  {
    assert Pow2(6) == 64;
    assert Pow2(12) == 4096;
    assert Pow2(18) == 0x4_0000;
    assert Pow2(24) == 0x100_0000;
  }

  lemma {:induction false} Pow2Monotone(m: nat, n: nat)
    requires m <= n
    ensures Pow2(m) <= Pow2(n)
    decreases n - m
  {
    if m < n {
      Pow2Monotone(m, n - 1);
    }
  }

  /** The numbers whose codes have at most 30 leading zeros. */
  lemma CodableMeans(v: nat)
    ensures Codable(v) <==> CodeZeros(v) <= 30
  {
    Pow2Of30();
    if CodeZeros(v) <= 30 {
      Pow2Monotone(CodeZeros(v), 30);
    } else {
      Pow2Monotone(31, CodeZeros(v));
    }
  }

  /** A code is read back and exactly its own bits are consumed. */
  lemma UEReadBack(v: nat, rest: bits)
    requires Codable(v)
    ensures UE(UECode(v) + rest) == Read(v, rest)
  {
    hide Value, LeadingZeros, Bits;
    var z := CodeZeros(v);
    var info := Bits(v + 1 - Pow2(z), z);
    assert UECode(v) + rest == Zeros(z) + [1] + (info + rest);
    LeadingZerosReadBack(z, info + rest);
    BitsReadBack(v + 1 - Pow2(z), z, rest);
    if z == 0 {
      assert info + rest == rest;
    }
  }

  predicate SignedCodable(k: int) {
    -0x3FFF_FFFF <= k <= 0x3FFF_FFFF
  }

  lemma SEReadBack(k: int, rest: bits)
    requires SignedCodable(k)
    ensures SE(SECode(k) + rest) == Read(k, rest)
  {
    hide UE, UECode;
    var v := if k > 0 then 2 * k - 1 else -2 * k;
    UEReadBack(v, rest);
  }

  // ----- the codes themselves -----

  lemma {:induction false} ValueOfBits(v: nat, n: nat, rest: bits)
    requires v < Pow2(n)
    ensures Value(Bits(v, n) + rest, n) == v
  {
    BitsReadBack(v, n, rest);
  }

  lemma {:induction false} ValueBehindZeros(z: nat, b: bits, n: nat)
    ensures Value(Zeros(z) + b, z + n) == Value(b, n)
  {
    if n == 0 {
      ValueOfZeros(z, b);
    } else {
      ValueBehindZeros(z, b, n - 1);
      assert Drop(Zeros(z) + b, z + n - 1) == Drop(b, n - 1);
    }
  }

  lemma {:induction false} ValueOfZeros(z: nat, b: bits)
    ensures Value(Zeros(z) + b, z) == 0
  {
    if z > 0 {
      assert Zeros(z) + b == Zeros(z - 1) + ([0] + b);
      ValueOfZeros(z - 1, [0] + b);
      assert Drop(Zeros(z) + b, z - 1) == [0] + b;
    }
  }

  lemma {:induction false} ValueAppend(b: bits, n: nat, m: nat)
    ensures Value(b, n + m) == Value(b, n) * Pow2(m) + Value(Drop(b, n), m)
  {
    hide Drop;
    if m == 0 {
    } else {
      ValueAppend(b, n, m - 1);
      DropDrop(b, n, m - 1);
      Doubled(Value(b, n), Pow2(m - 1));
    }
  }

  lemma DropDrop(b: bits, n: nat, m: nat)
    ensures Drop(Drop(b, n), m) == Drop(b, n + m)
  {
  }

  lemma Doubled(a: nat, p: nat)
    ensures a * (2 * p) == 2 * (a * p)
  {
  }

  /** The code of v is v + 1 in binary, behind as many zeros as it has digits after the first. */
  lemma {:induction false} CodeIsBinary(v: nat)
    ensures var z := CodeZeros(v);
            && Pow2(z) <= v + 1 < Pow2(z + 1)
            && |UECode(v)| == 2 * z + 1 && UECode(v)[..z] == Zeros(z)
            && Value(UECode(v)[z..], z + 1) == v + 1
  {
    hide Value, Bits;
    var z := CodeZeros(v);
    var low := Bits(v + 1 - Pow2(z), z);
    assert UECode(v)[z..] == [1] + low;
    ValueAppend([1] + low, 1, z);
    assert Drop([1] + low, 1) == low == low + [];
    ValueOfBits(v + 1 - Pow2(z), z, []);
    OneBit(low);
  }

  lemma OneBit(low: bits)
    ensures Value([1] + low, 1) == 1
  {
    assert Drop([1] + low, 0) == [1] + low;
    assert Value([1] + low, 0) == 0;
  }

  /** The signed numbers in the order of their codes: 0, 1, -1, 2, -2 and so on. */
  lemma SignedInOrder(u: nat)
    requires u < 0xFFFF_FFFF
    ensures u % 2 == 1 ==> 2 * SignedOf(u) == u + 1
    ensures u % 2 == 0 ==> 2 * SignedOf(u) + u == 0
  {
  }

  /** What is read from any bits: behind z zeros and a one, the number the next z bits make up, in 32
      bits; from zeros only, all but the last are counted. */
  lemma {:induction false} AnyCode(z: nat, rest: bits)
    ensures UE(Zeros(z) + [1] + rest) == Read((Pow2(z) - 1 + Value(rest, z)) % 0x1_0000_0000, Drop(rest, z))
    ensures z > 0 ==> UE(Zeros(z)) == Read((Pow2(z - 1) - 1) % 0x1_0000_0000, [])
  {
    hide LeadingZeros, Value;
    LeadingZerosReadBack(z, rest);
    if z > 0 {
      OnlyZeros(z);
      NoneLeft(z - 1);
    }
    NoneLeft(0);
    assert Value(rest, 0) == 0 && Drop(rest, 0) == rest by {
      ZeroBits(rest);
    }
  }

  lemma ZeroBits(b: bits)
    ensures Value(b, 0) == 0 && Drop(b, 0) == b
  {
  }

  lemma {:induction false} NoneLeft(n: nat)
    ensures Value([], n) == 0 && Drop([], n) == []
  {
    if n > 0 {
      NoneLeft(n - 1);
    }
  }

  lemma {:induction false} OnlyZeros(z: nat)
    requires z > 0
    ensures LeadingZeros(Zeros(z)) == Read(z - 1, [])
  {
    assert Tail(Zeros(z)) == Zeros(z - 1);
    if z > 1 {
      OnlyZeros(z - 1);
    }
  }

  // ----- bits of bytes -----

  function ByteBits(b: byte): (s: bits)
    ensures |s| == 8
  {
    Bits(b, 8)
  }

  /** All bits of a byte string, most significant first. */
  function Unpack(data: bytes): (b: bits)
    ensures |b| == 8 * |data|
  {
    if data == [] then [] else Unpack(data[..|data| - 1]) + ByteBits(data[|data| - 1])
  }

  lemma {:induction false} BitOfBits(v: nat, n: nat, k: nat)
    requires k < n
    ensures Bits(v, n)[n - 1 - k] == v / Pow2(k) % 2
    decreases k
  {
    if k == 0 {
    } else {
      BitOfBits(v / 2, n - 1, k - 1);
      Halved(v, Pow2(k - 1));
    }
  }

  lemma {:induction false} BitOfUnpack(data: bytes, i: nat, k: nat)
    requires i < |data| && k < 8
    ensures Unpack(data)[8 * i + k] == data[i] / Pow2(7 - k) % 2
  {
    if i == |data| - 1 {
      BitOfBits(data[i], 8, 7 - k);
    } else {
      BitOfUnpack(data[..|data| - 1], i, k);
    }
  }

  // ----- the reader -----

  /** The count of leading zeros when z were counted, `next` was read last and `rest` follows. */
  function Onwards(z: nat, next: bit, rest: bits): Read<nat> {
    if next == 0 && rest != [] then var r := LeadingZeros(rest); Read(z + 1 + r.value, r.rest) else Read(z, rest)
  }

  lemma OnwardsFromStart(b: bits)
    ensures LeadingZeros(b) == Onwards(0, Head(b), Tail(b))
  {
  }

  lemma OnwardsStep(z: nat, rest: bits)
    requires rest != []
    ensures Onwards(z, 0, rest) == Onwards(z + 1, Head(rest), Tail(rest)) && |Tail(rest)| < |rest|
  {
  }

  lemma OnwardsEnd(z: nat, next: bit, rest: bits)
    requires !(next == 0 && rest != [])
    ensures Onwards(z, next, rest) == Read(z, rest)
  {
  }

  class BitstreamReader {
    const data: bytes
    var bytePos: nat
    var bitPos: nat

    ghost predicate Valid()
      reads this
    {
      bitPos < 8 && if bytePos < |data| then true else bytePos == |data| && bitPos == 0
    }

    /** The bits still to be read. */
    ghost function Rest(): bits
      requires Valid()
      reads this
    {
      Unpack(data)[8 * bytePos + bitPos..]
    }

    constructor (data: bytes)
      ensures Valid() && this.data == data && Rest() == Unpack(data)
    {
      this.data, bytePos, bitPos := data, 0, 0;
    }

    method ReadBit() returns (r: bit)
      requires Valid()
      modifies this
      ensures Valid()
      ensures r == Head(old(Rest())) && Rest() == Tail(old(Rest()))
    {
      if bytePos >= |data| {
        return 0;
      }
      BitOfUnpack(data, bytePos, bitPos);
      r := data[bytePos] / Pow2(7 - bitPos) % 2;
      bitPos := bitPos + 1;
      if bitPos == 8 {
        bitPos := 0;
        bytePos := bytePos + 1;
      }
    }

    predicate HasMoreData()
      requires Valid()
      reads this
      ensures HasMoreData() <==> Rest() != []
    {
      bytePos < |data|
    }

    method ReadBits(n: nat) returns (value: uint32)
      requires Valid()
      modifies this
      ensures Valid()
      ensures value == Value(old(Rest()), n) % 0x1_0000_0000 && Rest() == Drop(old(Rest()), n)
    {
      hide Unpack, Head;
      value := 0;
      ghost var b := Rest();
      var i := 0;
      while i < n
        invariant 0 <= i <= n && Valid()
        invariant Rest() == Drop(b, i) && value == Value(b, i) % 0x1_0000_0000
      {
        var next := ReadBit();
        ShiftIn(Value(b, i), next);
        value := (value * 2 + next) % 0x1_0000_0000;
        i := i + 1;
      }
    }

    method SkipBits(n: nat)
      requires Valid()
      modifies this
      ensures Valid() && Rest() == Drop(old(Rest()), n)
    {
      ghost var b := Rest();
      var i := 0;
      while i < n
        invariant 0 <= i <= n && Valid() && Rest() == Drop(b, i)
      {
        var _ := ReadBit();
        i := i + 1;
      }
    }

    method ReadUE() returns (value: uint32)
      requires Valid()
      modifies this
      ensures Valid()
      ensures Read(value, Rest()) == UE(old(Rest()))
    {
      hide UE, Value, Unpack, Pow2, Head, Tail, LeadingZeros, Onwards;
      ghost var b := Rest();
      var leadingZeros := 0;
      var next := ReadBit();
      OnwardsFromStart(b);
      while next == 0 && HasMoreData()
        invariant Valid()
        invariant LeadingZeros(b) == Onwards(leadingZeros, next, Rest())
        decreases |Rest()|
      {
        OnwardsStep(leadingZeros, Rest());
        leadingZeros := leadingZeros + 1;
        next := ReadBit();
      }
      OnwardsEnd(leadingZeros, next, Rest());
      UEFrom(b, leadingZeros, Rest());
      if leadingZeros == 0 {
        return 0;
      }
      var info := ReadBits(leadingZeros);
      value := (Pow2(leadingZeros) - 1 + info) % 0x1_0000_0000;
    }

    method ReadSE() returns (value: int)
      requires Valid()
      modifies this
      ensures Valid()
      ensures Read(value, Rest()) == SE(old(Rest()))
    {
      hide UE, Unpack;
      var u := ReadUE();
      var ue: nat := u;
      if ue % 2 == 1 {
        value := (ue + 1) % 0x1_0000_0000 / 2;
      } else {
        value := -(ue / 2);
      }
    }
  }

  lemma ShiftIn(v: nat, next: bit)
    ensures (v % 0x1_0000_0000 * 2 + next) % 0x1_0000_0000 == (2 * v + next) % 0x1_0000_0000
  {
  }

  lemma UEFrom(b: bits, z: nat, rest: bits)
    requires LeadingZeros(b) == Read(z, rest)
    ensures UE(b) == if z == 0 then Read(0, rest)
                     else Read((Pow2(z) - 1 + Value(rest, z) % 0x1_0000_0000) % 0x1_0000_0000, Drop(rest, z))
  {
    if z != 0 {
      SumMod(Pow2(z) - 1, Value(rest, z));
    }
  }

  lemma SumMod(a: nat, b: nat)
    ensures (a + b % 0x1_0000_0000) % 0x1_0000_0000 == (a + b) % 0x1_0000_0000
  {
  }
}
