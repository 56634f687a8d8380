/** Bytes and the little-endian reading of a run of bytes, as a DataView's getUint* accessors do it. */
module Bytes {

  /** One byte of an ArrayBuffer, as a Uint8Array element or getUint8 reads it. */
  type byte = b: int | 0 <= b < 0x100

  function Pow(base: nat, n: nat): nat
  {
    if n == 0 then 1 else base * Pow(base, n - 1)
  }

  lemma {:induction false} PowAdd(base: nat, m: nat, n: nat)
    ensures Pow(base, m + n) == Pow(base, m) * Pow(base, n)
  {
    if n > 0 {
      PowAdd(base, m, n - 1);
      assert Pow(base, m + n) == base * Pow(base, m + n - 1);
      MulSwap(base, Pow(base, m), Pow(base, n - 1));
    }
  }

  lemma {:induction false} PowMonotone(base: nat, m: nat, n: nat)
    requires base > 0 && m <= n
    ensures Pow(base, m) <= Pow(base, n)
  {
    if m < n {
      PowMonotone(base, m, n - 1);
      MulLeq(1, base, Pow(base, n - 1));
    }
  }

  lemma Pow2To32()
    ensures Pow(2, 32) == 0x1_0000_0000
  {
    assert Pow(2, 8) == 0x100;
    PowAdd(2, 8, 8);
    PowAdd(2, 16, 16);
  }

  // MulSwap, MulLeq and Distribute are one-step facts of nonlinear arithmetic. Each is stated
  // as a lemma of its own so that callers hand the solver exactly the product fact they need.

  lemma MulSwap(a: nat, b: nat, c: nat)
    ensures a * (b * c) == b * (a * c)
  {
  }

  lemma MulLeq(x: nat, y: nat, p: nat)
    requires x <= y
    ensures x * p <= y * p
  {
  }

  lemma Distribute(p: nat, x: nat, l: nat, q: nat)
    ensures p * x + l * (p * q) == p * (x + l * q)
  {
  }

  /**
   * The little-endian value of bs, the sum of bs[i] * 256^i, as getUint16, getUint32 and
   * getBigUint64 with littleEndian set read it: n bytes hold a value below 256^n.
   */
  function LittleEndian(bs: seq<byte>): (r: nat)
    ensures r < Pow(256, |bs|)
  {
    if bs == [] then 0
    else
      var init, last := bs[..|bs| - 1], bs[|bs| - 1];
      var p := Pow(256, |bs| - 1);
      MulLeq(last, 255, p);
      LittleEndian(init) + last * p
  }

  /** The bytes of b come after those of a, so they weigh 256^|a| more. */
  lemma {:induction false} LittleEndianAppend(a: seq<byte>, b: seq<byte>)
    ensures LittleEndian(a + b) == LittleEndian(a) + Pow(256, |a|) * LittleEndian(b)
  {
    if b == [] {
      assert a + b == a;
    } else {
      var init, last := b[..|b| - 1], b[|b| - 1];
      var ab := a + b;
      assert ab[..|ab| - 1] == a + init;
      assert LittleEndian(ab) == LittleEndian(a + init) + last * Pow(256, |a| + |init|);
      LittleEndianAppend(a, init);
      PowAdd(256, |a|, |init|);
      Distribute(Pow(256, |a|), LittleEndian(init), last, Pow(256, |init|));
    }
  }

  /** Four bytes read as b0 + 2^8 b1 + 2^16 b2 + 2^24 b3, the sum getUint32(0, true) assembles. */
  lemma LittleEndianFour(bs: seq<byte>)
    requires |bs| == 4
    ensures LittleEndian(bs) == bs[0] + 0x100 * bs[1] as int + 0x1_0000 * bs[2] as int + 0x100_0000 * bs[3] as int
  {
    assert LittleEndian(bs[..1]) == bs[0] by {
      assert bs[..1][..0] == [];
    }
    assert LittleEndian(bs[..2]) == LittleEndian(bs[..1]) + 0x100 * bs[1] as int by {
      assert bs[..2][..1] == bs[..1];
    }
    assert LittleEndian(bs[..3]) == LittleEndian(bs[..2]) + 0x1_0000 * bs[2] as int by {
      assert bs[..3][..2] == bs[..2];
      assert Pow(256, 2) == 0x1_0000;
    }
    assert LittleEndian(bs) == LittleEndian(bs[..3]) + 0x100_0000 * bs[3] as int by {
      assert Pow(256, 3) == 0x100_0000;
    }
  }
}
