/**
 * The unsigned LEB128 decoding (section 7.6 of DWARF version 5; section 5.2.2 of the
 * WebAssembly Core Specification) exactly as a JavaScript loop computes it, ORing each byte's
 * low seven bits, shifted left by seven bits per byte, into a number. JavaScript's `|` and `<<` work on the 32-bit
 * two's-complement pattern of their operands, `<<` takes its count modulo 32, and the
 * number they produce is that pattern read as a signed 32-bit integer. Here a pattern is
 * a natural number below 2^32 and the operators are written out on it.
 */
module Leb128 {
  import opened Bytes

  const TwoTo32: nat := 0x1_0000_0000

  datatype Option<T> = None | Some(value: T)

  // ---------------------------------------------------------------- 32-bit operators

  /**
   * Bitwise OR of the binary representations of a and b, bit by bit from the lowest. It
   * keeps every bit of either operand and adds none, so it lies between the larger operand
   * and the sum.
   */
  function Or(a: nat, b: nat): (r: nat)
    ensures a <= r && b <= r && r <= a + b
    decreases a + b
  {
    if a == 0 then b
    else if b == 0 then a
    else 2 * Or(a / 2, b / 2) + (if a % 2 == 1 || b % 2 == 1 then 1 else 0)
  }

  /** The pattern of `v << s` for a pattern v: the count is taken modulo 32 and bits past bit 31 are lost. */
  function ShiftLeft(v: nat, s: nat): (r: nat)
    ensures r < TwoTo32
  {
    (v * Pow(2, s % 32)) % TwoTo32
  }

  /** The JavaScript number a 32-bit pattern stands for: its two's-complement reading. */
  function Int32(x: nat): (v: int)
    requires x < TwoTo32
    ensures -0x8000_0000 <= v < 0x8000_0000
    ensures v % TwoTo32 == x
  {
    if x < 0x8000_0000 then x else x - TwoTo32
  }

  /** OR never sets a bit at or above bit n that neither operand has. */
  lemma {:induction false} OrBound(a: nat, b: nat, n: nat)
    requires a < Pow(2, n) && b < Pow(2, n)
    ensures Or(a, b) < Pow(2, n)
    decreases a + b
  {
    if a != 0 && b != 0 {
      assert n > 0;
      OrBound(a / 2, b / 2, n - 1);
    }
  }

  /** When every bit of b lies at or above bit k and every bit of a below it, OR is addition. */
  lemma {:induction false} OrDisjoint(a: nat, m: nat, k: nat)
    requires a < Pow(2, k)
    ensures Or(a, m * Pow(2, k)) == a + m * Pow(2, k)
    decreases k
  {
    var b := m * Pow(2, k);
    if a != 0 && b != 0 {
      assert k > 0;
      var p := Pow(2, k - 1);
      assert b == 2 * (m * p);
      assert b / 2 == m * p && b % 2 == 0;
      OrDisjoint(a / 2, m, k - 1);
    }
  }

  // ---------------------------------------------------------------- the decoding

  /** `byte & 0x80` is nonzero, that is, bit 7 is set: more bytes follow. A byte has it exactly from 0x80 up. */
  predicate Continues(b: byte): (c: bool)
    ensures c <==> b >= 0x80
  {
    (b / 0x80) % 2 == 1
  }

  /** The seven payload bits of a byte, `byte & 0x7f`: the byte is its payload plus its continuation bit. */
  function Payload(b: byte): (r: nat)
    ensures r < 0x80
    ensures b == r + (if Continues(b) then 0x80 else 0)
  {
    b % 0x80
  }

  /** The index of the first byte that ends the number, if any byte does. */
  function FirstStop(bs: seq<byte>): (n: Option<nat>)
    ensures n.Some? ==>
      n.value < |bs| && !Continues(bs[n.value]) &&
      forall i :: 0 <= i < n.value ==> Continues(bs[i])
    ensures n.None? <==> forall i :: 0 <= i < |bs| ==> Continues(bs[i])
  {
    if bs == [] then None
    else if !Continues(bs[0]) then Some(0)
    else match FirstStop(bs[1..])
      case None => None
      case Some(m) => Some(m + 1)
  }

  /** `(byte & 0x7f) << shift` for the byte at index i, where shift is 7 * i. */
  function Chunk(b: byte, i: nat): (r: nat)
    ensures r < TwoTo32
  {
    ShiftLeft(Payload(b), 7 * i)
  }

  /** The 32-bit pattern of `num` after OR-ing in the chunks of bs, in order, from 0. */
  function Bits(bs: seq<byte>): (r: nat)
    ensures r < TwoTo32
  {
    if bs == [] then 0
    else
      var x, c := Bits(bs[..|bs| - 1]), Chunk(bs[|bs| - 1], |bs| - 1);
      Pow2To32();
      OrBound(x, c, 32);
      Or(x, c)
  }

  /** The mathematical value of an unsigned LEB128 byte run: the sum of (b_i & 0x7f) * 128^i. */
  function Value(bs: seq<byte>): nat
  {
    if bs == [] then 0
    else Value(bs[..|bs| - 1]) + Payload(bs[|bs| - 1]) * Pow(128, |bs| - 1)
  }

  lemma {:induction false} Pow128(k: nat)
    ensures Pow(128, k) == Pow(2, 7 * k)
  {
    if k > 0 {
      Pow128(k - 1);
      PowAdd(2, 7, 7 * (k - 1));
      assert Pow(2, 7) == 128;
    }
  }

  /** Adding m * 2^28 to a pattern below 2^28 keeps, modulo 2^32, only the low four bits of m. */
  lemma DropHighBits(x: int, m: int)
    requires 0 <= x < 0x1000_0000 && 0 <= m
    ensures (x + m * 0x1000_0000) % TwoTo32 == x + (m % 16) * 0x1000_0000
  {
    var q, r := m / 16, m % 16;
    assert m == 16 * q + r;
    assert x + m * 0x1000_0000 == q * TwoTo32 + (x + r * 0x1000_0000);
    ModUnique(x + m * 0x1000_0000, q, x + r * 0x1000_0000);
  }

  // ModUnique, ModSmall and ShiftZero are solver aids: facts the verifier proves with an empty
  // body, stated apart so that each caller hands the solver just the fact it needs.

  /** Division with remainder by 2^32 is unique. */
  lemma ModUnique(a: int, q: int, r: int)
    requires 0 <= r < TwoTo32 && a == q * TwoTo32 + r
    ensures a % TwoTo32 == r
  {
  }

  /** A pattern is its own remainder modulo 2^32. */
  lemma ModSmall(v: int)
    requires 0 <= v < TwoTo32
    ensures v % TwoTo32 == v
  {
  }

  /** A shift by less than 32 that loses no bits is a multiplication. */
  lemma ShiftSmall(v: nat, s: nat)
    requires s < 32 && v * Pow(2, s) < TwoTo32
    ensures ShiftLeft(v, s) == v * Pow(2, s)
  {
    var p := Pow(2, s);
    MulLeq(0, v, p);
    ModSmall(v * p);
    assert s % 32 == s;
    assert Pow(2, s % 32) == p;
  }

  /** Below index 4 a chunk is its payload times 128^i: nothing is cut off. */
  lemma ChunkLow(b: byte, k: nat)
    requires k <= 3
    ensures Chunk(b, k) == Payload(b) * Pow(128, k) < 0x1000_0000
  {
    var c, p := Payload(b), Pow(128, k);
    PowMonotone(128, k, 3);
    assert Pow(128, 3) == 0x20_0000;
    MulLeq(c, 127, p);
    Pow128(k);
    ShiftSmall(c, 7 * k);
  }

  /** At index 4 the shift is 28, so only the low four payload bits survive. */
  lemma ChunkHigh(b: byte)
    ensures Chunk(b, 4) == (Payload(b) % 16) * 0x1000_0000
  {
    Pow128(4);
    assert Pow(128, 4) == 0x1000_0000;
    DropHighBits(0, Payload(b));
  }

  /** Below index 4 the chunk lands above every bit set so far, so OR adds it. */
  lemma LowStep(x: nat, b: byte, k: nat)
    requires k <= 3 && x < Pow(128, k)
    ensures Or(x, Chunk(b, k)) == x + Payload(b) * Pow(128, k) < Pow(128, k + 1)
    ensures Pow(128, k + 1) <= 0x1000_0000
  {
    var c, p := Payload(b), Pow(128, k);
    ChunkLow(b, k);
    Pow128(k);
    OrDisjoint(x, c, 7 * k);
    MulLeq(c, 127, p);
    assert Pow(128, k + 1) == 128 * p;
    PowMonotone(128, k + 1, 4);
    assert Pow(128, 4) == 0x1000_0000;
  }

  /** At index 4 only the low four payload bits land, at bits 28 to 31. */
  lemma HighStep(x: nat, b: byte)
    requires x < 0x1000_0000
    ensures Or(x, Chunk(b, 4)) == (x + Payload(b) * 0x1000_0000) % TwoTo32
  {
    var c := Payload(b);
    ChunkHigh(b);
    Pow128(4);
    assert Pow(128, 4) == 0x1000_0000;
    OrDisjoint(x, c % 16, 28);
    DropHighBits(x, c);
  }

  /** One more byte: Bits ORs in its chunk and Value adds its weighted payload. */
  /** Reading byte k ORs its payload, shifted by 7 * k, into the accumulator of the bytes before it. */
  lemma BitsStep(bs: seq<byte>, k: nat)
    requires k < |bs|
    ensures Bits(bs[..k + 1]) == Or(Bits(bs[..k]), ShiftLeft(Payload(bs[k]), 7 * k))
  {
    assert bs[..k + 1][..k] == bs[..k];
  }

  lemma Snoc(bs: seq<byte>)
    requires bs != []
    ensures Bits(bs) == Or(Bits(bs[..|bs| - 1]), Chunk(bs[|bs| - 1], |bs| - 1))
    ensures Value(bs) == Value(bs[..|bs| - 1]) + Payload(bs[|bs| - 1]) * Pow(128, |bs| - 1)
  {
  }

  /**
   * Up to five bytes, OR-ing the chunks computes the LEB128 value modulo 2^32; up to four
   * it computes the value itself, and that value is below 128^n.
   */
  lemma {:induction false} BitsValue(bs: seq<byte>)
    requires |bs| <= 5
    ensures Bits(bs) == Value(bs) % TwoTo32
    ensures |bs| <= 4 ==> Bits(bs) == Value(bs) < Pow(128, |bs|)
  {
    if bs != [] {
      var init, last := bs[..|bs| - 1], bs[|bs| - 1];
      var k := |init|;
      BitsValue(init);
      Snoc(bs);
      if k <= 3 {
        LowStep(Bits(init), last, k);
        ModSmall(Value(bs));
      } else {
        assert Pow(128, 4) == 0x1000_0000;
        HighStep(Bits(init), last);
      }
    } else {
      ModSmall(0);
    }
  }

  /**
   * What the reader returns for a terminated run bs: up to four bytes it is the LEB128 value;
   * with five it agrees with the value modulo 2^32 (so it is negative once bit 31 is set).
   */
  lemma DecodedNumber(bs: seq<byte>)
    requires |bs| <= 5
    ensures Int32(Bits(bs)) % TwoTo32 == Value(bs) % TwoTo32
    ensures |bs| <= 4 ==> Int32(Bits(bs)) == Value(bs)
  {
    BitsValue(bs);
    if |bs| <= 4 {
      assert Pow(128, 4) == 0x1000_0000;
      PowMonotone(128, |bs|, 4);
      ModSmall(Value(bs));
    }
  }

  /** The value of three bytes, weighted 1, 2^7 and 2^14. */
  lemma ValueThree(bs: seq<byte>)
    requires |bs| == 3
    ensures Value(bs) == Payload(bs[0]) + 0x80 * Payload(bs[1]) + 0x4000 * Payload(bs[2])
  {
    assert Value(bs[..1]) == Payload(bs[0]) by {
      assert bs[..1][..0] == [];
    }
    assert Value(bs[..2]) == Value(bs[..1]) + 0x80 * Payload(bs[1]) by {
      assert bs[..2][..1] == bs[..1];
    }
    assert Value(bs) == Value(bs[..2]) + 0x4000 * Payload(bs[2]) by {
      assert Pow(128, 2) == 0x4000;
    }
  }

  /** The test vector of the LEB128 standards: E5 8E 26 is 624485. */
  lemma Decode624485()
    ensures FirstStop([0xE5, 0x8E, 0x26]) == Some(2)
    ensures Int32(Bits([0xE5, 0x8E, 0x26])) == 624485
  {
    var bs: seq<byte> := [0xE5, 0x8E, 0x26];
    assert Continues(bs[0]) && Continues(bs[1]) && !Continues(bs[2]);
    DecodedNumber(bs);
    ValueThree(bs);
  }

  /** No sign extension: 0x7f, which the signed variant reads as -1, comes out as 127. */
  lemma NoSignExtension()
    ensures Int32(Bits([0x7f])) == 127
  {
    var bs: seq<byte> := [0x7f];
    DecodedNumber(bs);
    Snoc(bs);
    assert bs[..0] == [];
  }

  /** The value of five bytes, weighted 1, 2^7, 2^14, 2^21 and 2^28. */
  lemma ValueFive(bs: seq<byte>)
    requires |bs| == 5
    ensures Value(bs) == Payload(bs[0]) + 0x80 * Payload(bs[1]) + 0x4000 * Payload(bs[2])
      + 0x20_0000 * Payload(bs[3]) + 0x1000_0000 * Payload(bs[4])
  {
    ValueThree(bs[..3]);
    assert Value(bs[..4]) == Value(bs[..3]) + 0x20_0000 * Payload(bs[3]) by {
      assert bs[..4][..3] == bs[..3];
      assert Pow(128, 3) == 0x20_0000;
    }
    assert Value(bs) == Value(bs[..4]) + 0x1000_0000 * Payload(bs[4]) by {
      assert bs[..4] == bs[..|bs| - 1];
      assert Pow(128, 4) == 0x1000_0000;
    }
  }

  /** Five bytes that encode 2^32 - 1 come out as -1, the signed reading of the pattern. */
  lemma FiveBytesSigned()
    ensures Int32(Bits([0xFF, 0xFF, 0xFF, 0xFF, 0x0F])) == -1
  {
    var bs: seq<byte> := [0xFF, 0xFF, 0xFF, 0xFF, 0x0F];
    ValueFive(bs);
    assert Payload(bs[0]) == 0x7f && Payload(bs[4]) == 0x0f;
    assert Value(bs) == 0xFFFF_FFFF;
    BitsValue(bs);
    ModSmall(0xFFFF_FFFF);
    assert Bits(bs) == 0xFFFF_FFFF;
  }

  /**
   * Past five bytes the shift count wraps: the sixth byte is shifted by 35 mod 32 = 3,
   * so 80 80 80 80 80 01, which encodes 2^35, comes out as 8.
   */
  lemma SixthByteWraps()
    ensures Int32(Bits([0x80, 0x80, 0x80, 0x80, 0x80, 0x01])) == 8
  {
    var bs: seq<byte> := [0x80, 0x80, 0x80, 0x80, 0x80, 0x01];
    var zeros: seq<byte> := [0x80, 0x80, 0x80, 0x80, 0x80];
    assert bs == zeros + [0x01];
    SixthChunk(zeros, 0x01);
    ShiftWraps();
  }

  /** `1 << 35` is `1 << 3`. */
  lemma ShiftWraps()
    ensures ShiftLeft(1, 35) == 8
  {
    var p := Pow(2, 35 % 32);
    assert p == 8;
    ModSmall(1 * p);
  }

  /** After five bytes with empty payloads, only the sixth byte's chunk is left. */
  lemma SixthChunk(zeros: seq<byte>, b: byte)
    requires |zeros| == 5
    requires forall i :: 0 <= i < 5 ==> zeros[i] == 0x80
    ensures Bits(zeros + [b]) == ShiftLeft(Payload(b), 35)
  {
    var bs := zeros + [b];
    ZeroPayloads(zeros);
    Snoc(bs);
    assert bs[..5] == zeros;
  }

  /** Shifting zero gives zero (a solver aid, like ModSmall). */
  lemma ShiftZero(s: nat)
    ensures ShiftLeft(0, s) == 0
  {
  }

  lemma {:induction false} ZeroPayloads(bs: seq<byte>)
    requires forall i :: 0 <= i < |bs| ==> Payload(bs[i]) == 0
    ensures Bits(bs) == 0
  {
    if bs != [] {
      var k := |bs| - 1;
      ZeroPayloads(bs[..k]);
      assert Payload(bs[k]) == 0;
      ShiftZero(7 * k);
    }
  }
}
