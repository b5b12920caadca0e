/**
  Bit-level building blocks of the LSB codec: reading and replacing the
  least-significant bit of one carrier byte, taking one bit of a payload byte,
  and the shift-and-or accumulation with which the decoder rebuilds a value
  from consecutive least-significant bits.

  Bytes are `bv8`: a Java `byte` is its 8-bit pattern, and the `(byte)` casts
  of the source keep exactly the low 8 bits, which is what `bv8` arithmetic does.
  A Java `int` is an `Int32`, and its shift with wrap-around is written out.
*/
module BitPacking {

  /** Bit `k` of `x` (bit 0 is the least significant), as 0 or 1: `(x >>> k) & 0x1`. */
  function BitOf(x: bv8, k: nat): (b: bv8)
    requires k < 8
    ensures b <= 1
  {
    (x >> k) & 1
  }

  /** The least-significant bit of a carrier byte: `x & 0x1`. */
  function Lsb(x: bv8): (b: bv8)
    ensures b <= 1
  {
    x & 1
  }

  /** `(x & 0xFE) | b`: the byte `x` with its least-significant bit replaced by `b`. */
  function SetLsb(x: bv8, b: bv8): (r: bv8)
    requires b <= 1
    ensures r & 0xFE == x & 0xFE
    ensures Lsb(r) == b
  {
    (x & 0xFE) | b
  }

  /** A byte is determined by its upper seven bits and its least-significant bit. */
  lemma SameByte(x: bv8, y: bv8)
    requires x & 0xFE == y & 0xFE && Lsb(x) == Lsb(y)
    ensures x == y
  {
  }

  /**
    The accumulation `acc = (acc << 1) | (t[k] & 1)` for `k` from `start` to
    `start + n - 1`, starting from `acc = 0`, in an 8-bit accumulator.
  */
  function Fold8(t: seq<bv8>, start: nat, n: nat): (r: bv8)
    requires start + n <= |t|
  {
    if n == 0 then 0 else (Fold8(t, start, n - 1) << 1) | Lsb(t[start + n - 1])
  }

  /**
    Eight accumulated bits give the byte `x` exactly when they are the bits of
    `x`, most significant first.
  */
  lemma Fold8Spells(t: seq<bv8>, start: nat, x: bv8)
    requires start + 8 <= |t|
    ensures Fold8(t, start, 8) == x <==>
      forall j :: start <= j < start + 8 ==> Lsb(t[j]) == BitOf(x, 7 - (j - start))
  {
    if forall j :: start <= j < start + 8 ==> Lsb(t[j]) == BitOf(x, 7 - (j - start)) {
      Fold8OfBits(t, start, x);
    }
    if Fold8(t, start, 8) == x {
      Fold8Bits(t, start);
    }
  }

  lemma {:induction false} Fold8OfBits(t: seq<bv8>, start: nat, x: bv8)
    requires start + 8 <= |t|
    requires forall j :: start <= j < start + 8 ==> Lsb(t[j]) == BitOf(x, 7 - (j - start))
    ensures Fold8(t, start, 8) == x
  {
    assert Lsb(t[start]) == BitOf(x, 7);
    assert Lsb(t[start + 1]) == BitOf(x, 6);
    assert Lsb(t[start + 2]) == BitOf(x, 5);
    assert Lsb(t[start + 3]) == BitOf(x, 4);
    assert Lsb(t[start + 4]) == BitOf(x, 3);
    assert Lsb(t[start + 5]) == BitOf(x, 2);
    assert Lsb(t[start + 6]) == BitOf(x, 1);
    assert Lsb(t[start + 7]) == BitOf(x, 0);
    Fold8Unfold(t, start);
    SpellByte(Lsb(t[start]), Lsb(t[start + 1]), Lsb(t[start + 2]), Lsb(t[start + 3]), Lsb(t[start + 4]), Lsb(t[start + 5]), Lsb(t[start + 6]), Lsb(t[start + 7]), x);
  }

  lemma {:induction false} Fold8Bits(t: seq<bv8>, start: nat)
    requires start + 8 <= |t|
    ensures forall j :: start <= j < start + 8 ==> Lsb(t[j]) == BitOf(Fold8(t, start, 8), 7 - (j - start))
  {
    var x := Fold8(t, start, 8);
    Fold8Unfold(t, start);
    SpellByte(Lsb(t[start]), Lsb(t[start + 1]), Lsb(t[start + 2]), Lsb(t[start + 3]), Lsb(t[start + 4]), Lsb(t[start + 5]), Lsb(t[start + 6]), Lsb(t[start + 7]), x);
    forall j | start <= j < start + 8
      ensures Lsb(t[j]) == BitOf(x, 7 - (j - start))
    {
      var k := j - start;
      assert k == 0 || k == 1 || k == 2 || k == 3 || k == 4 || k == 5 || k == 6 || k == 7;
    }
  }

  /** The values of a Java `int`. */
  type Int32 = x: int | -0x8000_0000 <= x < 0x8000_0000

  /** The Java `int` whose 32-bit two's-complement pattern has the unsigned value `u`. */
  function Signed(u: nat): (n: Int32)
    requires u < 0x1_0000_0000
    ensures n % 0x1_0000_0000 == u
    ensures n < 0 <==> u >= 0x8000_0000
  {
    if u < 0x8000_0000 then u else u - 0x1_0000_0000
  }

  /** A bit as the number 0 or 1. */
  function BitValue(b: bv8): (v: nat)
    requires b <= 1
    ensures v <= 1 && (v == 1 <==> b == 1)
  {
    if b == 1 then 1 else 0
  }

  /**
    `(acc << 1) | bit` on a Java `int`: the shift drops the top bit and
    wraps around modulo 2^32, and the `|` fills the low bit, which the shift
    left at 0.
  */
  function ShiftIn(acc: Int32, bit: bv8): (r: Int32)
    requires bit <= 1
    ensures r % 2 == BitValue(bit)
    ensures r % 0x1_0000_0000 == (2 * acc + BitValue(bit)) % 0x1_0000_0000
    ensures -0x4000_0000 <= acc < 0x4000_0000 ==> r == 2 * acc + BitValue(bit)
  {
    Signed((2 * acc + BitValue(bit)) % 0x1_0000_0000)
  }

  /** Java `int` addition: the sum wraps around modulo 2^32 into the `int` range. */
  function AddInt32(x: Int32, y: Int32): (r: Int32)
    ensures -0x8000_0000 <= x + y < 0x8000_0000 ==> r == x + y
    ensures x + y >= 0x8000_0000 ==> r == x + y - 0x1_0000_0000
    ensures x + y < -0x8000_0000 ==> r == x + y + 0x1_0000_0000
  {
    Signed((x + y) % 0x1_0000_0000)
  }

  /**
    The same accumulation `acc = (acc << 1) | (t[k] & 1)` as `Fold8`, in a
    Java `int` that starts at 0.
  */
  function FoldInt32(t: seq<bv8>, start: nat, n: nat): (r: Int32)
    requires start + n <= |t|
    ensures n > 0 ==> r % 2 == BitValue(Lsb(t[start + n - 1]))
  {
    if n == 0 then 0 else ShiftIn(FoldInt32(t, start, n - 1), Lsb(t[start + n - 1]))
  }

  /** The same bits read as an unbounded binary number, most significant first. */
  function Accumulate(t: seq<bv8>, start: nat, n: nat): nat
    requires start + n <= |t|
  {
    if n == 0 then 0 else 2 * Accumulate(t, start, n - 1) + BitValue(Lsb(t[start + n - 1]))
  }

  function Pow2(n: nat): (p: nat)
    ensures p >= 1
  {
    if n == 0 then 1 else 2 * Pow2(n - 1)
  }

  /** The `int` accumulator holds the low 32 bits of the number, read as two's complement. */
  lemma {:induction false} FoldInt32Wraps(t: seq<bv8>, start: nat, n: nat)
    requires start + n <= |t|
    ensures FoldInt32(t, start, n) == Signed(Accumulate(t, start, n) % 0x1_0000_0000)
  {
    if n > 0 {
      FoldInt32Wraps(t, start, n - 1);
      var m: int := 0x1_0000_0000;
      var u := Accumulate(t, start, n - 1);
      var acc: int := FoldInt32(t, start, n - 1);
      var b := BitValue(Lsb(t[start + n - 1]));
      assert acc == u % m || acc == u % m - m;
      assert (2 * acc + b) % m == (2 * u + b) % m by {
        ShiftedMod(u, b, acc);
      }
    }
  }

  /** Reading `n + 8` bits is reading `n`, shifting by eight and adding the next eight. */
  lemma {:induction false} Accumulate8Step(t: seq<bv8>, start: nat, n: nat)
    requires start + n + 8 <= |t|
    ensures Accumulate(t, start, n + 8) == 0x100 * Accumulate(t, start, n) + Accumulate(t, start + n, 8)
  {
    Accumulate4Step(t, start, n);
    Accumulate4Step(t, start, n + 4);
    AccumulateByte(t, start + n);
  }

  lemma {:induction false} AccumulateByte(t: seq<bv8>, s: nat)
    requires s + 8 <= |t|
    ensures Accumulate(t, s, 8) == 16 * Nibble4(t, s) + Nibble4(t, s + 4)
  {
    assert Accumulate(t, s, 0) == 0;
    Accumulate4Step(t, s, 0);
    Accumulate4Step(t, s, 4);
  }

  /** Thirty-two bits read as a number are four accumulated bytes, the first one most significant. */
  lemma {:induction false} Accumulate32(t: seq<bv8>, start: nat)
    requires start + 32 <= |t|
    ensures Accumulate(t, start, 32) ==
      (Fold8(t, start, 8) as int) * 0x100_0000 + (Fold8(t, start + 8, 8) as int) * 0x1_0000 +
      (Fold8(t, start + 16, 8) as int) * 0x100 + (Fold8(t, start + 24, 8) as int)
  {
    Accumulate8Step(t, start, 24);
    Accumulate8Step(t, start, 16);
    Accumulate8Step(t, start, 8);
    Accumulate8Step(t, start, 0);
    Fold8Value(t, start, 8);
    Fold8Value(t, start + 8, 8);
    Fold8Value(t, start + 16, 8);
    Fold8Value(t, start + 24, 8);
  }

  /** Up to eight accumulated bits fit the 8-bit accumulator, which then holds their number. */
  lemma {:induction false} Fold8Value(t: seq<bv8>, start: nat, n: nat)
    requires n <= 8 && start + n <= |t|
    ensures Fold8(t, start, n) as int == Accumulate(t, start, n) < Pow2(n)
  {
    if n > 0 {
      Fold8Value(t, start, n - 1);
      Pow2Values();
      var a := Fold8(t, start, n - 1);
      SmallByte(a);
      ShiftInByte(a, Lsb(t[start + n - 1]));
    }
  }

  /** The 8-bit accumulation reads only least-significant bits. */
  lemma {:induction false} Fold8SameLsbs(t: seq<bv8>, u: seq<bv8>, start: nat, n: nat)
    requires start + n <= |t| == |u|
    requires forall k :: 0 <= k < |t| ==> Lsb(t[k]) == Lsb(u[k])
    ensures Fold8(t, start, n) == Fold8(u, start, n)
  {
    if n > 0 {
      Fold8SameLsbs(t, u, start, n - 1);
    }
  }

  /** And so does the `int` accumulation. */
  lemma {:induction false} FoldInt32SameLsbs(t: seq<bv8>, u: seq<bv8>, start: nat, n: nat)
    requires start + n <= |t| == |u|
    requires forall k :: 0 <= k < |t| ==> Lsb(t[k]) == Lsb(u[k])
    ensures FoldInt32(t, start, n) == FoldInt32(u, start, n)
  {
    if n > 0 {
      FoldInt32SameLsbs(t, u, start, n - 1);
    }
  }

  // Helpers: the 8-bit accumulation unrolled four steps at a time.

  /** The accumulation of four bits, most significant first. */
  function Nibble(b0: bv8, b1: bv8, b2: bv8, b3: bv8): bv8
  {
    (((((b0 << 1) | b1) << 1) | b2) << 1) | b3
  }

  lemma {:induction false} Fold8Unfold(t: seq<bv8>, start: nat)
    requires start + 8 <= |t|
    ensures Fold8(t, start, 8) == (Nibble(Lsb(t[start]), Lsb(t[start + 1]), Lsb(t[start + 2]), Lsb(t[start + 3])) << 4) | Nibble(Lsb(t[start + 4]), Lsb(t[start + 5]), Lsb(t[start + 6]), Lsb(t[start + 7]))
  {
    assert Fold8(t, start, 0) == 0;
    Fold8Four(t, start, 0);
    Fold8Four(t, start, 4);
  }

  lemma {:induction false} Fold8Four(t: seq<bv8>, start: nat, n: nat)
    requires start + n + 4 <= |t|
    ensures Fold8(t, start, n + 4) == (Fold8(t, start, n) << 4) | Nibble(Lsb(t[start + n]), Lsb(t[start + n + 1]), Lsb(t[start + n + 2]), Lsb(t[start + n + 3]))
  {
    Fold8Once(t, start, n);
    Fold8Once(t, start, n + 1);
    Fold8Once(t, start, n + 2);
    Fold8Once(t, start, n + 3);
  }

  lemma Fold8Once(t: seq<bv8>, start: nat, m: nat)
    requires start + m + 1 <= |t|
    ensures Fold8(t, start, m + 1) == (Fold8(t, start, m) << 1) | Lsb(t[start + m])
  {
  }

  lemma SpellByte(b0: bv8, b1: bv8, b2: bv8, b3: bv8, b4: bv8, b5: bv8, b6: bv8, b7: bv8, x: bv8)
    requires b0 <= 1 && b1 <= 1 && b2 <= 1 && b3 <= 1 && b4 <= 1 && b5 <= 1 && b6 <= 1 && b7 <= 1
    ensures (Nibble(b0, b1, b2, b3) << 4) | Nibble(b4, b5, b6, b7) == x <==>
      (b0 == BitOf(x, 7) && b1 == BitOf(x, 6) && b2 == BitOf(x, 5) && b3 == BitOf(x, 4) &&
       b4 == BitOf(x, 3) && b5 == BitOf(x, 2) && b6 == BitOf(x, 1) && b7 == BitOf(x, 0))
  {
  }

  /** The number that the four bits from `s` on make. */
  function Nibble4(t: seq<bv8>, s: nat): nat
    requires s + 4 <= |t|
  {
    8 * BitValue(Lsb(t[s])) + 4 * BitValue(Lsb(t[s + 1])) + 2 * BitValue(Lsb(t[s + 2])) + BitValue(Lsb(t[s + 3]))
  }

  lemma {:induction false} Accumulate4Step(t: seq<bv8>, start: nat, n: nat)
    requires start + n + 4 <= |t|
    ensures Accumulate(t, start, n + 4) == 16 * Accumulate(t, start, n) + Nibble4(t, start + n)
  {
    AccumulateOnce(t, start, n);
    AccumulateOnce(t, start, n + 1);
    AccumulateOnce(t, start, n + 2);
    AccumulateOnce(t, start, n + 3);
  }

  lemma AccumulateOnce(t: seq<bv8>, start: nat, m: nat)
    requires start + m + 1 <= |t|
    ensures Accumulate(t, start, m + 1) == 2 * Accumulate(t, start, m) + BitValue(Lsb(t[start + m]))
  {
  }

  lemma Pow2Values()
    ensures Pow2(0) == 1 && Pow2(1) == 2 && Pow2(2) == 4 && Pow2(3) == 8 && Pow2(4) == 16
    ensures Pow2(5) == 32 && Pow2(6) == 64 && Pow2(7) == 128 && Pow2(8) == 256
  {
    assert Pow2(8) == 2 * Pow2(7);
  }

  /** The step of `FoldInt32Wraps`: accumulators that agree modulo 2^32 still agree after a shift. */
  lemma ShiftedMod(u: nat, b: nat, acc: int)
    requires acc == u % 0x1_0000_0000 || acc == u % 0x1_0000_0000 - 0x1_0000_0000
    ensures (2 * acc + b) % 0x1_0000_0000 == (2 * u + b) % 0x1_0000_0000
  {
    var m := 0x1_0000_0000;
    var q := u / m;
    assert u == q * m + u % m;
    if acc == u % m {
      assert 2 * u + b == (2 * acc + b) + (2 * q) * m;
    } else {
      assert 2 * u + b == (2 * acc + b) + (2 * q + 2) * m;
    }
    ModMultiple(2 * acc + b, if acc == u % m then 2 * q else 2 * q + 2);
  }

  lemma ModMultiple(x: int, j: int)
    ensures (x + j * 0x1_0000_0000) % 0x1_0000_0000 == x % 0x1_0000_0000
  {
  }

  lemma SmallByte(a: bv8)
    ensures a < 0x80 <==> a as int < 0x80
  {
  }

  lemma ShiftInByte(a: bv8, l: bv8)
    requires a < 0x80 && l <= 1
    ensures ((a << 1) | l) as int == 2 * (a as int) + BitValue(l)
  {
  }

  lemma SignedOfMod(n: Int32)
    ensures Signed(n % 0x1_0000_0000) == n
  {
  }

  lemma SmallMod(u: int)
    requires 0 <= u < 0x1_0000_0000
    ensures u % 0x1_0000_0000 == u
  {
  }

  lemma Digits(u: int)
    requires 0 <= u < 0x1_0000_0000
    ensures u == (u / 0x100_0000) * 0x100_0000 + (u / 0x1_0000 % 0x100) * 0x1_0000 + (u / 0x100 % 0x100) * 0x100 + u % 0x100
    ensures 0 <= u / 0x100_0000 < 0x100
  {
    var q1, r3 := u / 0x100, u % 0x100;
    var q2, r2 := q1 / 0x100, q1 % 0x100;
    var q3, r1 := q2 / 0x100, q2 % 0x100;
    DivMod16(u, q2, r2 * 0x100 + r3);
    DivMod24(u, q3, r1 * 0x1_0000 + r2 * 0x100 + r3);
  }

  lemma DigitsUnique(a0: int, a1: int, a2: int, a3: int, u: int)
    requires 0 <= a0 < 0x100 && 0 <= a1 < 0x100 && 0 <= a2 < 0x100 && 0 <= a3 < 0x100
    requires u == a0 * 0x100_0000 + a1 * 0x1_0000 + a2 * 0x100 + a3
    ensures a0 == u / 0x100_0000 && a1 == u / 0x1_0000 % 0x100 && a2 == u / 0x100 % 0x100 && a3 == u % 0x100
  {
    DivMod24(u, a0, a1 * 0x1_0000 + a2 * 0x100 + a3);
    DivMod16(u, a0 * 0x100 + a1, a2 * 0x100 + a3);
    DivMod8(a0 * 0x100 + a1, a0, a1);
    DivMod8(u, a0 * 0x1_0000 + a1 * 0x100 + a2, a3);
    DivMod8(a0 * 0x1_0000 + a1 * 0x100 + a2, a0 * 0x100 + a1, a2);
  }

  lemma DivMod8(x: int, q: int, r: int)
    requires 0 <= r < 0x100 && x == q * 0x100 + r
    ensures x / 0x100 == q && x % 0x100 == r
  {
  }

  lemma DivMod16(x: int, q: int, r: int)
    requires 0 <= r < 0x1_0000 && x == q * 0x1_0000 + r
    ensures x / 0x1_0000 == q
  {
  }

  lemma DivMod24(x: int, q: int, r: int)
    requires 0 <= r < 0x100_0000 && x == q * 0x100_0000 + r
    ensures x / 0x100_0000 == q
  {
  }

  /** The byte whose value is `x`, built bit by bit. */
  function ToByte(x: nat): (b: bv8)
    requires x < 0x100
  {
    if x == 0 then 0 else (ToByte(x / 2) << 1) | (if x % 2 == 0 then 0 else 1)
  }

  lemma {:induction false} ToByteValue(x: nat)
    requires x < 0x100
    ensures ToByte(x) as int == x
  {
    if x > 0 {
      ToByteValue(x / 2);
      var a := ToByte(x / 2);
      SmallByte(a);
      ShiftInByte(a, if x % 2 == 0 then 0 else 1);
    }
  }

  lemma {:induction false} ToByteOfValue(b: bv8)
    ensures ToByte(b as int) == b
  {
    var c := ToByte(b as int);
    ToByteValue(b as int);
    IntOfByte(b);
    IntOfByte(c);
  }

  lemma IntOfByte(b: bv8)
    ensures (b as int) as bv8 == b
  {
  }
}
