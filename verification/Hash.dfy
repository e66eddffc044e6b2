/** The one-at-a-time hash, on 32-bit words that wrap around. */
module Hash {
  import opened Bits

  const TWO_32 := 0x1_0000_0000

  type u32 = x: int | 0 <= x < TWO_32
  type u8 = x: int | 0 <= x < 256

  lemma WordBits()
    ensures Pow2(32) == TWO_32
  {
    assert Pow2(8) == 256;
    assert Pow2(16) == 65536;
    assert Pow2(24) == 16777216;
  }

  /** `h ^= h >> k`. */
  function Fold(h: u32, k: nat): u32 {
    WordBits();
    XorFits(h, Shr(h, k), 32);
    Xor(h, Shr(h, k))
  }

  // `h = h.wrapping_add(h << 10)`, and the same with 3 and 15.
  function Times1025(h: u32): u32 { (h + h * 1024 % TWO_32) % TWO_32 }

  function Times9(h: u32): u32 { (h + h * 8 % TWO_32) % TWO_32 }

  function Times32769(h: u32): u32 { (h + h * 32768 % TWO_32) % TWO_32 }

  /** One byte into the running hash. */
  function Step(h: u32, b: u8): u32 {
    Fold(Times1025((h + b) % TWO_32), 6)
  }

  /** The final avalanche. */
  function Mix(h: u32): u32 {
    Times32769(Fold(Times9(h), 11))
  }

  /** All bytes of a key into a running hash. */
  function Absorb(h: u32, key: seq<u8>): u32
    decreases |key|
  {
    if key == [] then h else Absorb(Step(h, key[0]), key[1..])
  }

  lemma {:induction false} AbsorbAppend(h: u32, a: seq<u8>, b: seq<u8>)
    ensures Absorb(h, a + b) == Absorb(Absorb(h, a), b)
    decreases |a|
  {
    if a == [] {
      assert a + b == b;
    } else {
      assert (a + b)[1..] == a[1..] + b;
      AbsorbAppend(Step(h, a[0]), a[1..], b);
    }
  }

  lemma AbsorbOne(key: seq<u8>, i: nat)
    requires i < |key|
    ensures Absorb(0, key[..i + 1]) == Step(Absorb(0, key[..i]), key[i])
  {
    assert key[..i + 1] == key[..i] + [key[i]];
    AbsorbAppend(0, key[..i], [key[i]]);
    AbsorbSingle(Absorb(0, key[..i]), key[i]);
  }

  lemma AbsorbSingle(h: u32, b: u8)
    ensures Absorb(h, [b]) == Step(h, b)
  {
    assert [b][1..] == [];
  }

  /** `hash`: whole chunks of four bytes, then the remainder, then the final mix. */
  method Hash(key: seq<u8>) returns (h: u32)
    ensures h == Mix(Absorb(0, key))
  {
    h := 0;
    var chunks := |key| / 4;
    for c := 0 to chunks
      invariant h == Absorb(0, key[..4 * c])
    {
      for i := 0 to 4
        invariant h == Absorb(0, key[..4 * c + i])
      {
        AbsorbOne(key, 4 * c + i);
        h := Step(h, key[4 * c + i]);
      }
    }
    for i := 4 * chunks to |key|
      invariant h == Absorb(0, key[..i])
    {
      AbsorbOne(key, i);
      h := Step(h, key[i]);
    }
    assert key[..|key|] == key;
    h := Mix(h);
  }

  /** A step by its bits: each of 1025 times the sum, and with it the one 6 places up. */
  lemma StepBits(h: u32, b: u8, i: nat)
    ensures var s := (h + b) * 1025 % TWO_32; Bit(Step(h, b), i) == (Bit(s, i) + Bit(s, i + 6)) % 2
  {
    var t := (h + b) % TWO_32;
    WrapOnce(t, t * 1024);
    WrapFactor(h + b, 1025);
    FoldBit(Times1025(t), 6, i);
  }

  /** The final mix by its bits: 32769 times those of 9 times the hash, each with the one 11 places up. */
  lemma MixBits(h: u32) returns (w: u32)
    ensures Mix(h) == w * 32769 % TWO_32
    ensures var s := h * 9 % TWO_32; forall i: nat :: Bit(w, i) == (Bit(s, i) + Bit(s, i + 11)) % 2
  {
    var s := Times9(h);
    w := Fold(s, 11);
    MixFactors(h, w);
    forall i: nat
      ensures Bit(w, i) == (Bit(s, i) + Bit(s, i + 11)) % 2
    {
      FoldBit(s, 11, i);
    }
  }

  lemma MixFactors(h: u32, w: u32)
    ensures Times9(h) == h * 9 % TWO_32 && Times32769(w) == w * 32769 % TWO_32
  {
    WrapOnce(h, h * 8);
    WrapOnce(w, w * 32768);
  }

  lemma FoldBit(h: u32, k: nat, i: nat)
    ensures Bit(Fold(h, k), i) == (Bit(h, i) + Bit(h, i + k)) % 2
  {
    XorBit(h, Shr(h, k), i);
    ShrBit(h, k, i);
  }

  lemma WrapFactor(a: nat, c: nat)
    ensures a % TWO_32 * c % TWO_32 == a * c % TWO_32
  {
    var q, r := a / TWO_32, a % TWO_32;
    var d := r * c;
    assert a * c == d + TWO_32 * (q * c) by {
      assert a == r + TWO_32 * q;
    }
    Wraps(d % TWO_32, d / TWO_32 + q * c);
  }

  /** Two values: of the empty key, and of the key of one byte 1. */
  lemma ShortKeys(key: seq<u8>)
    ensures key == [] ==> Mix(Absorb(0, key)) == 0
    ensures key == [1] ==> Mix(Absorb(0, key)) == 307143837
  {
    if key == [] {
      MixZero(Absorb(0, key));
    }
    if key == [1] {
      var h := Absorb(0, key);
      OneByte(key, h);
      MixBy(h, Fold(Times9(h), 11));
    }
  }

  lemma OneByte(key: seq<u8>, h: u32)
    requires key == [1] && h == Absorb(0, key)
    ensures Fold(Times9(h), 11) * 32769 % TWO_32 == 307143837
  {
    AbsorbSingle(0, key[0]);
    StepOne(0, key[0]);
    LastFactor(h);
  }

  lemma LastFactor(h: u32)
    requires h == 1041
    ensures Fold(Times9(h), 11) * 32769 % TWO_32 == 307143837
  {
    FoldOne(h, Times9(h));
  }

  lemma StepOne(h: u32, b: u8)
    requires h == 0 && b == 1
    ensures Step(h, b) == 1041
  {
    var t := Times1025((h + b) % TWO_32);
    assert t == 1025;
    assert Shr(t, 6) == 16 by {
      assert Shr(1025, 6) == 16;
    }
    assert Bit(1025, 4) == 0 && Pow2(4) == 16;
    XorSets(t, 4);
  }

  lemma MixZero(h: u32)
    requires h == 0
    ensures Mix(h) == 0
  {
    var t := Times9(h);
    assert t == 0 && Shr(t, 11) == 0;
    XorZero(t);
  }

  lemma MixBy(h: u32, w: u32)
    requires Fold(Times9(h), 11) == w
    ensures Mix(h) == w * 32769 % TWO_32
  {
    MixFactors(h, w);
  }

  lemma FoldOne(h: u32, t: u32)
    requires h == 1041 && t == Times9(h)
    ensures Fold(t, 11) == 9373
  {
    assert t == 9369;
    ShrOne(t);
    assert Bit(9369, 2) == 0 && Pow2(2) == 4;
    XorSets(t, 2);
  }

  lemma ShrOne(t: u32)
    requires t == 9369
    ensures Shr(t, 11) == 4
  {
    assert Shr(9369, 11) == 4;
  }

  /** An odd factor has an inverse modulo 2^32, so wrapping multiplication by it loses nothing. */
  lemma OddFactor(h: u32, c: nat, inv: nat, k: nat)
    requires c * inv == 1 + k * TWO_32
    ensures h * c % TWO_32 * inv % TWO_32 == h
  {
    var q := h * c / TWO_32;
    var z := k * h - q * inv;
    calc {
      h * c % TWO_32 * inv;
      (h * c - q * TWO_32) * inv;
      h * c * inv - q * TWO_32 * inv;
      { assert h * c * inv == h * (c * inv); }
      h * (1 + k * TWO_32) - q * TWO_32 * inv;
      h + TWO_32 * z;
    }
    Wraps(h, z);
  }

  lemma Wraps(h: u32, z: int)
    ensures (h + TWO_32 * z) % TWO_32 == h
  {
  }

  lemma WrapOnce(a: int, b: int)
    ensures (a + b % TWO_32) % TWO_32 == (a + b) % TWO_32
  {
  }

  lemma Times1025Injective(g: u32, h: u32)
    requires Times1025(g) == Times1025(h)
    ensures g == h
  {
    WrapOnce(g, g * 1024);
    WrapOnce(h, h * 1024);
    OddFactor(g, 1025, 0xC00F_FC01, 769);
    OddFactor(h, 1025, 0xC00F_FC01, 769);
  }

  lemma Times9Injective(g: u32, h: u32)
    requires Times9(g) == Times9(h)
    ensures g == h
  {
    WrapOnce(g, g * 8);
    WrapOnce(h, h * 8);
    OddFactor(g, 9, 0x38E3_8E39, 2);
    OddFactor(h, 9, 0x38E3_8E39, 2);
  }

  lemma Times32769Injective(g: u32, h: u32)
    requires Times32769(g) == Times32769(h)
    ensures g == h
  {
    WrapOnce(g, g * 32768);
    WrapOnce(h, h * 32768);
    OddFactor(g, 32769, 0x3FFF_8001, 8192);
    OddFactor(h, 32769, 0x3FFF_8001, 8192);
  }

  /** Neither does the xor with a right shift: the high bits are kept, and give back the low ones. */
  lemma {:induction false} FoldInjective(g: nat, h: nat, k: nat)
    requires k > 0 && Xor(g, Shr(g, k)) == Xor(h, Shr(h, k))
    ensures g == h
    decreases g + h
  {
    if g > 0 || h > 0 {
      XorShr(g, Shr(g, k), k);
      XorShr(h, Shr(h, k), k);
      FoldInjective(Shr(g, k), Shr(h, k), k);
      XorCancels(g, Shr(g, k));
      XorCancels(h, Shr(h, k));
    }
  }

  /** A step separates both running hashes (for one byte) and bytes (for one running hash). */
  lemma StepInjective(g: u32, h: u32, a: u8, b: u8)
    ensures a == b && Step(g, a) == Step(h, b) ==> g == h
    ensures g == h && Step(g, a) == Step(h, b) ==> a == b
  {
    if Step(g, a) == Step(h, b) {
      var s, t := (g + a) % TWO_32, (h + b) % TWO_32;
      FoldInjective(Times1025(s), Times1025(t), 6);
      Times1025Injective(s, t);
      SumInjective(g, h, a, b);
    }
  }

  lemma SumInjective(g: u32, h: u32, a: u8, b: u8)
    requires (g + a) % TWO_32 == (h + b) % TWO_32
    ensures a == b ==> g == h
    ensures g == h ==> a == b
  {
  }

  lemma MixInjective(g: u32, h: u32)
    ensures Mix(g) == Mix(h) ==> g == h
  {
    if Mix(g) == Mix(h) {
      Times32769Injective(Fold(Times9(g), 11), Fold(Times9(h), 11));
      FoldInjective(Times9(g), Times9(h), 11);
      Times9Injective(g, h);
    }
  }

  /** Two running hashes that absorb the same bytes to the same end were equal to begin with. */
  lemma {:induction false} AbsorbInjective(g: u32, h: u32, key: seq<u8>)
    requires Absorb(g, key) == Absorb(h, key)
    ensures g == h
    decreases |key|
  {
    if key != [] {
      AbsorbInjective(Step(g, key[0]), Step(h, key[0]), key[1..]);
      StepInjective(g, h, key[0], key[0]);
    }
  }

  lemma Split(key: seq<u8>, i: nat)
    requires i < |key|
    ensures Absorb(0, key) == Absorb(Step(Absorb(0, key[..i]), key[i]), key[i + 1..])
  {
    assert key == key[..i + 1] + key[i + 1..];
    AbsorbAppend(0, key[..i + 1], key[i + 1..]);
    AbsorbOne(key, i);
  }

  /** Changing exactly one byte of a message always changes its hash. */
  lemma OneByteChangesHash(x: seq<u8>, y: seq<u8>, i: nat)
    requires |x| == |y| && i < |x| && x[i] != y[i]
    requires x[..i] == y[..i] && x[i + 1..] == y[i + 1..]
    ensures Mix(Absorb(0, x)) != Mix(Absorb(0, y))
  {
    if Mix(Absorb(0, x)) == Mix(Absorb(0, y)) {
      MixInjective(Absorb(0, x), Absorb(0, y));
      Split(x, i);
      Split(y, i);
      var h := Absorb(0, x[..i]);
      AbsorbInjective(Step(h, x[i]), Step(h, y[i]), x[i + 1..]);
      StepInjective(h, h, x[i], y[i]);
      assert false;
    }
  }
}
