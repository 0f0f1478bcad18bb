/** Machine words, and arithmetic on them as arithmetic on integers modulo the number of words. */
module Words {
  const U32: nat := 0x1_0000_0000
  const U64: nat := 0x1_0000_0000_0000_0000

  type Address = a: nat | a < 0x1_0000_0000_0000_0000
  type Byte = b: nat | b < 256

  lemma SmallMultiple(q: int, w: int)
    requires w > 0 && -w < w * q < w
    ensures q == 0
  {
    Grows(q, w);
    Grows(-q, w);
  }

  lemma Grows(q: int, w: int)
    requires w > 0
    ensures q >= 1 ==> w * q >= w
    ensures q <= -1 ==> w * q <= -w
  {
    if q >= 1 {
      assert w * q == w + w * (q - 1);
    } else if q <= -1 {
      assert w * q == -w + w * (q + 1);
    }
  }

  lemma MultipleMod(q: int, w: int)
    requires w > 0
    ensures (w * q) % w == 0
  {
    var k, r := (w * q) / w, (w * q) % w;
    assert w * q == w * k + r;
    assert w * (q - k) == w * q - w * k == r;
    SmallMultiple(q - k, w);
  }

  /** Equal remainders are a difference that is a multiple. */
  lemma ModEqual(a: int, b: int, w: int)
    requires w > 0
    ensures a % w == b % w <==> (a - b) % w == 0
  {
    var qa, ra, qb, rb := a / w, a % w, b / w, b % w;
    assert a == w * qa + ra && b == w * qb + rb;
    assert a - b == w * (qa - qb) + (ra - rb) by {
      assert w * (qa - qb) == w * qa - w * qb;
    }
    if ra == rb {
      MultipleMod(qa - qb, w);
    }
    if (a - b) % w == 0 {
      var q := (a - b) / w;
      assert a - b == w * q;
      assert w * (q - (qa - qb)) == w * q - w * (qa - qb);
      SmallMultiple(q - (qa - qb), w);
    }
  }

  lemma SmallMod(a: int, w: int)
    requires 0 <= a < w
    ensures a % w == a
  {
  }

  /** The low half of a word is the low half of anything congruent to it. */
  lemma LowHalf(a: int)
    ensures a % U64 % U32 == a % U32
  {
    var q := a / U64;
    assert a == U64 * q + a % U64;
    assert a - a % U64 == U32 * (U32 * q);
    MultipleMod(U32 * q, U32);
    ModEqual(a, a % U64, U32);
  }
}
