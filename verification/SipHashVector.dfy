/**
 * The test vector of appendix A of "SipHash: a fast short-input PRF" by Aumasson and Bernstein, half a round at a time.
 * The exclusive or of two words is that of bit vectors, and a rotation is a division with remainder.
 */
module SipHashVector {
  import opened Arith
  import opened SipHash

  // ---------------------------------------------------------------- exclusive or, bit by bit

  /** A number with one more bit at its lower end. */
  function Up(b: bool, x: nat): nat {
    2 * x + if b then 1 else 0
  }

  lemma XorHalves(x: nat, y: nat)
    ensures Xor(x, y) == 2 * Xor(x / 2, y / 2) + if x % 2 == y % 2 then 0 else 1
  {}

  lemma Halves(x: nat, b: nat)
    requires b < 2
    ensures (2 * x + b) / 2 == x && (2 * x + b) % 2 == b
  {}

  lemma XorUp(x: nat, y: nat, b: nat, d: nat)
    requires b < 2 && d < 2
    ensures Xor(2 * x + b, 2 * y + d) == 2 * Xor(x, y) + if b == d then 0 else 1
  {
    XorHalves(2 * x + b, 2 * y + d);
    Halves(x, b);
    Halves(y, d);
  }

  // ---------------------------------------------------------------- words as bit vectors

  /** The eight lowest bits, below those that are above. */
  function Byte8(x: bv64, above: nat): nat {
    Up(x & 1 == 1, Up((x >> 1) & 1 == 1, Up((x >> 2) & 1 == 1, Up((x >> 3) & 1 == 1,
      Up((x >> 4) & 1 == 1, Up((x >> 5) & 1 == 1, Up((x >> 6) & 1 == 1, Up((x >> 7) & 1 == 1, above))))))))
  }

  function Word(x: bv64): nat {
    Byte8(x, Byte8(x >> 8, Byte8(x >> 16, Byte8(x >> 24,
      Byte8(x >> 32, Byte8(x >> 40, Byte8(x >> 48, Byte8(x >> 56, 0))))))))
  }

  /** A function on numbers that works bit by bit. The proofs that follow the rounds do not look into the function. */
  ghost predicate BitByBit(f: (nat, nat) -> nat) {
    f(0, 0) == 0 && forall x: nat, y: nat, b: bool, d: bool :: f(Up(b, x), Up(d, y)) == Up(b != d, f(x, y))
  }

  /** The same with the bits as numbers; a bit is looked at where it is mentioned. */
  ghost predicate DigitByDigit(f: (nat, nat) -> nat) {
    f(0, 0) == 0 && forall x: nat, y: nat, b: nat, d: nat :: AtDigits(x, y, b, d) && b < 2 && d < 2 ==>
      f(2 * x + b, 2 * y + d) == 2 * f(x, y) + if b == d then 0 else 1
  }

  predicate AtDigits(x: nat, y: nat, b: nat, d: nat) {
    true
  }

  lemma XorIsDigitByDigit()
    ensures DigitByDigit(Xor)
  {
    forall x: nat, y: nat, b: nat, d: nat | AtDigits(x, y, b, d) && b < 2 && d < 2
      ensures Xor(2 * x + b, 2 * y + d) == 2 * Xor(x, y) + if b == d then 0 else 1
    {
      XorUp(x, y, b, d);
    }
  }

  lemma DigitsAreBits(f: (nat, nat) -> nat)
    requires DigitByDigit(f)
    ensures BitByBit(f)
  {
    forall x: nat, y: nat, b: bool, d: bool
      ensures f(Up(b, x), Up(d, y)) == Up(b != d, f(x, y))
    {
      assert AtDigits(x, y, if b then 1 else 0, if d then 1 else 0);
    }
  }

  lemma XorIsBitByBit()
    ensures BitByBit(Xor)
  {
    XorIsDigitByDigit();
    DigitsAreBits(Xor);
  }

  lemma BitsOfXor(x: bv64, y: bv64)
    ensures (x ^ y) & 1 == 1 <==> (x & 1 == 1) != (y & 1 == 1)
    ensures ((x ^ y) >> 1) & 1 == 1 <==> ((x >> 1) & 1 == 1) != ((y >> 1) & 1 == 1)
    ensures ((x ^ y) >> 2) & 1 == 1 <==> ((x >> 2) & 1 == 1) != ((y >> 2) & 1 == 1)
    ensures ((x ^ y) >> 3) & 1 == 1 <==> ((x >> 3) & 1 == 1) != ((y >> 3) & 1 == 1)
    ensures ((x ^ y) >> 4) & 1 == 1 <==> ((x >> 4) & 1 == 1) != ((y >> 4) & 1 == 1)
    ensures ((x ^ y) >> 5) & 1 == 1 <==> ((x >> 5) & 1 == 1) != ((y >> 5) & 1 == 1)
    ensures ((x ^ y) >> 6) & 1 == 1 <==> ((x >> 6) & 1 == 1) != ((y >> 6) & 1 == 1)
    ensures ((x ^ y) >> 7) & 1 == 1 <==> ((x >> 7) & 1 == 1) != ((y >> 7) & 1 == 1)
  {}

  lemma ByteOfXor(f: (nat, nat) -> nat, x: bv64, y: bv64, a: nat, c: nat)
    requires BitByBit(f)
    ensures f(Byte8(x, a), Byte8(y, c)) == Byte8(x ^ y, f(a, c))
  {
    BitsOfXor(x, y);
  }

  lemma ShiftsOfXor(x: bv64, y: bv64)
    ensures (x ^ y) >> 8 == (x >> 8) ^ (y >> 8)
    ensures (x ^ y) >> 16 == (x >> 16) ^ (y >> 16)
    ensures (x ^ y) >> 24 == (x >> 24) ^ (y >> 24)
    ensures (x ^ y) >> 32 == (x >> 32) ^ (y >> 32)
    ensures (x ^ y) >> 40 == (x >> 40) ^ (y >> 40)
    ensures (x ^ y) >> 48 == (x >> 48) ^ (y >> 48)
    ensures (x ^ y) >> 56 == (x >> 56) ^ (y >> 56)
  {}

  lemma WordOfXor(f: (nat, nat) -> nat, x: bv64, y: bv64)
    requires BitByBit(f)
    ensures f(Word(x), Word(y)) == Word(x ^ y)
  {
    ShiftsOfXor(x, y);
    forall n: bv64, m: bv64, a: nat, c: nat ensures f(Byte8(n, a), Byte8(m, c)) == Byte8(n ^ m, f(a, c)) {
      ByteOfXor(f, n, m, a, c);
    }
  }

  function Low8(x: bv64): nat {
    (if x & 1 == 1 then 1 else 0) + (if (x >> 1) & 1 == 1 then 2 else 0) + (if (x >> 2) & 1 == 1 then 4 else 0)
    + (if (x >> 3) & 1 == 1 then 8 else 0) + (if (x >> 4) & 1 == 1 then 16 else 0)
    + (if (x >> 5) & 1 == 1 then 32 else 0) + (if (x >> 6) & 1 == 1 then 64 else 0)
    + (if (x >> 7) & 1 == 1 then 128 else 0)
  }

  lemma ByteIs(x: bv64, above: nat)
    ensures Byte8(x, above) == Low8(x) + 0x100 * above
  {}

  /** The number that a bit vector stands for. */
  function Number(x: bv64): nat {
    Low8(x) + 0x100 * Low8(x >> 8) + 0x1_0000 * Low8(x >> 16) + 0x100_0000 * Low8(x >> 24)
    + 0x1_0000_0000 * Low8(x >> 32) + 0x100_0000_0000 * Low8(x >> 40) + 0x1_0000_0000_0000 * Low8(x >> 48)
    + 0x100_0000_0000_0000 * Low8(x >> 56)
  }

  lemma WordIsNumber(x: bv64)
    ensures Word(x) == Number(x)
  {
    var b7 := Byte8(x >> 56, 0);
    var b6 := Byte8(x >> 48, b7);
    var b5 := Byte8(x >> 40, b6);
    var b4 := Byte8(x >> 32, b5);
    var b3 := Byte8(x >> 24, b4);
    var b2 := Byte8(x >> 16, b3);
    var b1 := Byte8(x >> 8, b2);
    ByteIs(x >> 56, 0);
    ByteIs(x >> 48, b7);
    ByteIs(x >> 40, b6);
    ByteIs(x >> 32, b5);
    ByteIs(x >> 24, b4);
    ByteIs(x >> 16, b3);
    ByteIs(x >> 8, b2);
    ByteIs(x, b1);
  }

  /** The function is the exclusive or of words. */
  ghost predicate IsXor(f: (nat, nat) -> nat) {
    forall x: bv64, y: bv64 :: f(Number(x), Number(y)) == Number(x ^ y)
  }

  lemma XorIsXor()
    ensures IsXor(Xor)
  {
    XorIsBitByBit();
    forall x: bv64, y: bv64 ensures Xor(Number(x), Number(y)) == Number(x ^ y) {
      WordOfXor(Xor, x, y);
      WordIsNumber(x);
      WordIsNumber(y);
      WordIsNumber(x ^ y);
    }
  }

  lemma XorOf(f: (nat, nat) -> nat, x: bv64, y: bv64, a: nat, b: nat, c: nat)
    requires IsXor(f) && Number(x) == a && Number(y) == b && Number(x ^ y) == c
    ensures f(a, b) == c
  {}

  // ---------------------------------------------------------------- rotations

  ghost predicate IsRotation(g: (nat, nat) -> nat) {
    forall u: nat, s: nat :: u < W() && s <= 64 ==> g(u, s) == LowBits(u, 64 - s) * Pow2(s) + ShiftRight(u, 64 - s)
  }

  lemma RotatedIsRotation()
    ensures IsRotation(Rotated)
  {
    forall u: nat, s: nat | u < W() && s <= 64
      ensures Rotated(u, s) == LowBits(u, 64 - s) * Pow2(s) + ShiftRight(u, 64 - s)
    {
      RotatedParts(u, s, 64 - s);
    }
  }

  /** A rotation, given the powers of two. */
  lemma RotationOf(g: (nat, nat) -> nat, u: nat, s: nat, p: nat, q: nat, high: nat, low: nat)
    requires IsRotation(g) && u < W() && s <= 64 && p == Pow2(s) && q == Pow2(64 - s)
    requires u == q * high + low && low < q
    ensures g(u, s) == low * p + high
  {
    DivModUnique(u, q, high, low);
  }

  lemma Powers(eight: nat)
    requires eight == 8
    ensures Pow2(13) == 0x2000 && Pow2(51) == 0x8_0000_0000_0000
    ensures Pow2(16) == 0x1_0000 && Pow2(48) == 0x1_0000_0000_0000
    ensures Pow2(17) == 0x2_0000 && Pow2(47) == 0x8000_0000_0000
    ensures Pow2(21) == 0x20_0000 && Pow2(43) == 0x800_0000_0000
    ensures Pow2(32) == 0x1_0000_0000
  {
    assert Pow2(eight) == 256;
    assert Pow2(5) == 32 && Pow2(3) == 8;
    assert Pow2(4) == 16 && Pow2(1) == 2;
    Pow2Add(8, 5);
    Pow2Add(8, 8);
    Pow2Add(16, 1);
    Pow2Add(16, 5);
    Pow2Add(16, 16);
    Pow2Add(32, 16);
    Pow2Add(48, 3);
    Pow2Add(32, 8);
    Pow2Add(40, 3);
    Pow2Add(43, 4);
  }

  lemma Rotation13(g: (nat, nat) -> nat, u: nat, high: nat, low: nat)
    requires IsRotation(g) && u == high * 0x8000000000000 + low < W() && low < 0x8000000000000
    ensures g(u, 13) == low * 0x2000 + high
  {
    Powers(8);
    RotationOf(g, u, 13, 0x2000, 0x8000000000000, high, low);
  }

  lemma Rotation16(g: (nat, nat) -> nat, u: nat, high: nat, low: nat)
    requires IsRotation(g) && u == high * 0x1000000000000 + low < W() && low < 0x1000000000000
    ensures g(u, 16) == low * 0x10000 + high
  {
    Powers(8);
    RotationOf(g, u, 16, 0x10000, 0x1000000000000, high, low);
  }

  lemma Rotation17(g: (nat, nat) -> nat, u: nat, high: nat, low: nat)
    requires IsRotation(g) && u == high * 0x800000000000 + low < W() && low < 0x800000000000
    ensures g(u, 17) == low * 0x20000 + high
  {
    Powers(8);
    RotationOf(g, u, 17, 0x20000, 0x800000000000, high, low);
  }

  lemma Rotation21(g: (nat, nat) -> nat, u: nat, high: nat, low: nat)
    requires IsRotation(g) && u == high * 0x80000000000 + low < W() && low < 0x80000000000
    ensures g(u, 21) == low * 0x200000 + high
  {
    Powers(8);
    RotationOf(g, u, 21, 0x200000, 0x80000000000, high, low);
  }

  lemma Rotation32(g: (nat, nat) -> nat, u: nat, high: nat, low: nat)
    requires IsRotation(g) && u == high * 0x100000000 + low < W() && low < 0x100000000
    ensures g(u, 32) == low * 0x100000000 + high
  {
    Powers(8);
    RotationOf(g, u, 32, 0x100000000, 0x100000000, high, low);
  }

  // ---------------------------------------------------------------- the rounds of the vector

  function StraightWith(f: (nat, nat) -> nat, g: (nat, nat) -> nat, s: State): State {
    State(g(Add(s.v0, s.v1), 32), f(g(s.v1, 13), Add(s.v0, s.v1)),
          Add(s.v2, s.v3), f(g(s.v3, 16), Add(s.v2, s.v3)))
  }

  function CrossedWith(f: (nat, nat) -> nat, g: (nat, nat) -> nat, s: State): State {
    State(Add(s.v0, s.v3), f(g(s.v1, 17), Add(s.v2, s.v1)),
          g(Add(s.v2, s.v1), 32), f(g(s.v3, 21), Add(s.v0, s.v3)))
  }

  function RoundWith(f: (nat, nat) -> nat, g: (nat, nat) -> nat, s: State): State {
    CrossedWith(f, g, StraightWith(f, g, s))
  }

  lemma Straight1(f: (nat, nat) -> nat, g: (nat, nat) -> nat)
    requires IsXor(f) && IsRotation(g)
    ensures StraightWith(f, g, State(0x74696861_73716475, 0x6b617f6d_656e6665,
        0x6b7f6261_6d677361, 0x7c6d6c6a_717c6d7b))
      == State(0xd8dfcada_dfcae7ce, 0xf0274b63_141367b6,
        0xe7eccecb_dee3e0dc, 0x8b86bfb7_b3989cb1)
  {
    Rotation32(g, 0xdfcae7ce_d8dfcada, 0xdfcae7ce, 0xd8dfcada);
    Rotation13(g, 0x6b617f6d_656e6665, 0xd6c, 0x17f6d656e6665);
    Rotation16(g, 0x7c6d6c6a_717c6d7b, 0x7c6d, 0x6c6a717c6d7b);
    XorOf(f, 0x2fedacad_ccccad6c, 0xdfcae7ce_d8dfcada, 0x2fedacad_ccccad6c, 0xdfcae7ce_d8dfcada,
          0xf0274b63_141367b6);
    XorOf(f, 0x6c6a717c_6d7b7c6d, 0xe7eccecb_dee3e0dc, 0x6c6a717c_6d7b7c6d, 0xe7eccecb_dee3e0dc,
          0x8b86bfb7_b3989cb1);
  }

  lemma Crossed1(f: (nat, nat) -> nat, g: (nat, nat) -> nat)
    requires IsXor(f) && IsRotation(g)
    ensures CrossedWith(f, g, State(0xd8dfcada_dfcae7ce, 0xf0274b63_141367b6,
        0xe7eccecb_dee3e0dc, 0x8b86bfb7_b3989cb1))
      == State(0x64668a92_9363847f, 0x4ed23208_3d9aa8dc,
        0xf2f74892_d8141a2e, 0x9290f981_0552f4a8)
  {
    Rotation32(g, 0xd8141a2e_f2f74892, 0xd8141a2e, 0xf2f74892);
    Rotation17(g, 0xf0274b63_141367b6, 0x1e04e, 0x4b63141367b6);
    Rotation21(g, 0x8b86bfb7_b3989cb1, 0x1170d7, 0x7b7b3989cb1);
    XorOf(f, 0x96c62826_cf6de04e, 0xd8141a2e_f2f74892, 0x96c62826_cf6de04e, 0xd8141a2e_f2f74892,
          0x4ed23208_3d9aa8dc);
    XorOf(f, 0xf6f67313_963170d7, 0x64668a92_9363847f, 0xf6f67313_963170d7, 0x64668a92_9363847f,
          0x9290f981_0552f4a8);
  }

  lemma Straight2(f: (nat, nat) -> nat, g: (nat, nat) -> nat)
    requires IsXor(f) && IsRotation(g)
    ensures StraightWith(f, g, State(0x64668a92_9363847f, 0x4ed23208_3d9aa8dc,
        0xf2f74892_d8141a2e, 0x9290f981_0552f4a8))
      == State(0xd0fe2d5b_b338bc9a, 0xf579bb29_85e5a481,
        0x85884213_dd670ed6, 0x7c094741_29cf9c46)
  {
    Rotation32(g, 0xb338bc9a_d0fe2d5b, 0xb338bc9a, 0xd0fe2d5b);
    Rotation13(g, 0x4ed23208_3d9aa8dc, 0x9da, 0x232083d9aa8dc);
    Rotation16(g, 0x9290f981_0552f4a8, 0x9290, 0xf9810552f4a8);
    XorOf(f, 0x464107b3_551b89da, 0xb338bc9a_d0fe2d5b, 0x464107b3_551b89da, 0xb338bc9a_d0fe2d5b,
          0xf579bb29_85e5a481);
    XorOf(f, 0xf9810552_f4a89290, 0x85884213_dd670ed6, 0xf9810552_f4a89290, 0x85884213_dd670ed6,
          0x7c094741_29cf9c46);
  }

  lemma Crossed2(f: (nat, nat) -> nat, g: (nat, nat) -> nat)
    requires IsXor(f) && IsRotation(g)
    ensures CrossedWith(f, g, State(0xd0fe2d5b_b338bc9a, 0xf579bb29_85e5a481,
        0x85884213_dd670ed6, 0x7c094741_29cf9c46))
      == State(0x4d07749c_dd0858e0, 0x0d52f6f6_2a4f59a4,
        0x634cb357_7b01fd3d, 0xa5224d6f_55c7d9c8)
  {
    Rotation32(g, 0x7b01fd3d_634cb357, 0x7b01fd3d, 0x634cb357);
    Rotation17(g, 0xf579bb29_85e5a481, 0x1eaf3, 0x3b2985e5a481);
    Rotation21(g, 0x7c094741_29cf9c46, 0xf8128, 0x74129cf9c46);
    XorOf(f, 0x76530bcb_4903eaf3, 0x7b01fd3d_634cb357, 0x76530bcb_4903eaf3, 0x7b01fd3d_634cb357,
          0x0d52f6f6_2a4f59a4);
    XorOf(f, 0xe82539f3_88cf8128, 0x4d07749c_dd0858e0, 0xe82539f3_88cf8128, 0x4d07749c_dd0858e0,
          0xa5224d6f_55c7d9c8);
  }

  lemma Straight3(f: (nat, nat) -> nat, g: (nat, nat) -> nat)
    requires IsXor(f) && IsRotation(g)
    ensures StraightWith(f, g, State(0x4a017198_de0a59e0, 0x0d52f6f6_2a4f59a4,
        0x634cb357_7b01fd3d, 0xaa2c4063_5ecdd0c0))
      == State(0x0859b384_5754688f, 0x098aadc6_e36d322e,
        0x0d78f3ba_d9cfcdfd, 0x4d1bad77_090f67d1)
  {
    Rotation32(g, 0x5754688f_0859b384, 0x5754688f, 0x859b384);
    Rotation13(g, 0x0d52f6f6_2a4f59a4, 0x1aa, 0x2f6f62a4f59a4);
    Rotation16(g, 0xaa2c4063_5ecdd0c0, 0xaa2c, 0x40635ecdd0c0);
    XorOf(f, 0x5edec549_eb3481aa, 0x5754688f_0859b384, 0x5edec549_eb3481aa, 0x5754688f_0859b384,
          0x098aadc6_e36d322e);
    XorOf(f, 0x40635ecd_d0c0aa2c, 0x0d78f3ba_d9cfcdfd, 0x40635ecd_d0c0aa2c, 0x0d78f3ba_d9cfcdfd,
          0x4d1bad77_090f67d1);
  }

  lemma Crossed3(f: (nat, nat) -> nat, g: (nat, nat) -> nat)
    requires IsXor(f) && IsRotation(g)
    ensures CrossedWith(f, g, State(0x0859b384_5754688f, 0x098aadc6_e36d322e,
        0x0d78f3ba_d9cfcdfd, 0x4d1bad77_090f67d1))
      == State(0x557560fb_6063d060, 0x4c8e675b_d961133e,
        0xbd3d002b_1703a181, 0xfb944117_9a4a7315)
  {
    Rotation32(g, 0x1703a181_bd3d002b, 0x1703a181, 0xbd3d002b);
    Rotation17(g, 0x098aadc6_e36d322e, 0x1315, 0x2dc6e36d322e);
    Rotation21(g, 0x4d1bad77_090f67d1, 0x9a375, 0x577090f67d1);
    XorOf(f, 0x5b8dc6da_645c1315, 0x1703a181_bd3d002b, 0x5b8dc6da_645c1315, 0x1703a181_bd3d002b,
          0x4c8e675b_d961133e);
    XorOf(f, 0xaee121ec_fa29a375, 0x557560fb_6063d060, 0xaee121ec_fa29a375, 0x557560fb_6063d060,
          0xfb944117_9a4a7315);
  }

  lemma Straight4(f: (nat, nat) -> nat, g: (nat, nat) -> nat)
    requires IsXor(f) && IsRotation(g)
    ensures StraightWith(f, g, State(0x557560fb_6063d060, 0x4c8e675b_d961133e,
        0xbd3d002b_1703a181, 0xfb944117_9a4a7315))
      == State(0x39c4e39e_a203c857, 0x6ee8b37b_1ba32a0f,
        0xb8d14142_b14e1496, 0xf9c6db08_c25bef02)
  {
    Rotation32(g, 0xa203c857_39c4e39e, 0xa203c857, 0x39c4e39e);
    Rotation13(g, 0x4c8e675b_d961133e, 0x991, 0x6675bd961133e);
    Rotation16(g, 0xfb944117_9a4a7315, 0xfb94, 0x41179a4a7315);
    XorOf(f, 0xcceb7b2c_2267c991, 0xa203c857_39c4e39e, 0xcceb7b2c_2267c991, 0xa203c857_39c4e39e,
          0x6ee8b37b_1ba32a0f);
    XorOf(f, 0x41179a4a_7315fb94, 0xb8d14142_b14e1496, 0x41179a4a_7315fb94, 0xb8d14142_b14e1496,
          0xf9c6db08_c25bef02);
  }

  lemma Crossed4(f: (nat, nat) -> nat, g: (nat, nat) -> nat)
    requires IsXor(f) && IsRotation(g)
    ensures CrossedWith(f, g, State(0x39c4e39e_a203c857, 0x6ee8b37b_1ba32a0f,
        0xb8d14142_b14e1496, 0xf9c6db08_c25bef02))
      == State(0x338bbea7_645fb759, 0x414fc3fb_98efe374,
        0xccf13ea5_27b9f4bd, 0x5293f5da_84008f82)
  {
    Rotation32(g, 0x27b9f4bd_ccf13ea5, 0x27b9f4bd, 0xccf13ea5);
    Rotation17(g, 0x6ee8b37b_1ba32a0f, 0xddd1, 0x337b1ba32a0f);
    Rotation21(g, 0xf9c6db08_c25bef02, 0x1f38db, 0x308c25bef02);
    XorOf(f, 0x66f63746_541eddd1, 0x27b9f4bd_ccf13ea5, 0x66f63746_541eddd1, 0x27b9f4bd_ccf13ea5,
          0x414fc3fb_98efe374);
    XorOf(f, 0x61184b7d_e05f38db, 0x338bbea7_645fb759, 0x61184b7d_e05f38db, 0x338bbea7_645fb759,
          0x5293f5da_84008f82);
  }

  lemma Straight5(f: (nat, nat) -> nat, g: (nat, nat) -> nat)
    requires IsXor(f) && IsRotation(g)
    ensures StraightWith(f, g, State(0x3c85b3ab_6f55be51, 0x414fc3fb_98efe374,
        0xccf13ea5_27b9f442, 0x5293f5da_84008f82))
      == State(0x0845a1c5_7dd577a7, 0x85aa04ba_f42b29ec,
        0x1f85347f_abba83c4, 0xea5fb07f_2438d157)
  {
    Rotation32(g, 0x7dd577a7_0845a1c5, 0x7dd577a7, 0x845a1c5);
    Rotation13(g, 0x414fc3fb_98efe374, 0x829, 0x7c3fb98efe374);
    Rotation16(g, 0x5293f5da_84008f82, 0x5293, 0xf5da84008f82);
    XorOf(f, 0xf87f731d_fc6e8829, 0x7dd577a7_0845a1c5, 0xf87f731d_fc6e8829, 0x7dd577a7_0845a1c5,
          0x85aa04ba_f42b29ec);
    XorOf(f, 0xf5da8400_8f825293, 0x1f85347f_abba83c4, 0xf5da8400_8f825293, 0x1f85347f_abba83c4,
          0xea5fb07f_2438d157);
  }

  lemma Crossed5(f: (nat, nat) -> nat, g: (nat, nat) -> nat)
    requires IsXor(f) && IsRotation(g)
    ensures CrossedWith(f, g, State(0x0845a1c5_7dd577a7, 0x85aa04ba_f42b29ec,
        0x1f85347f_abba83c4, 0xea5fb07f_2438d157))
      == State(0xf2a55244_a20e48fe, 0xac5ad16c_cc3ca6e4,
        0x9fe5adb0_a52f393a, 0xfd41d55e_88f30308)
  {
    Rotation32(g, 0xa52f393a_9fe5adb0, 0xa52f393a, 0x9fe5adb0);
    Rotation17(g, 0x85aa04ba_f42b29ec, 0x10b54, 0x4baf42b29ec);
    Rotation21(g, 0xea5fb07f_2438d157, 0x1d4bf6, 0x7f2438d157);
    XorOf(f, 0x0975e856_53d90b54, 0xa52f393a_9fe5adb0, 0x0975e856_53d90b54, 0xa52f393a_9fe5adb0,
          0xac5ad16c_cc3ca6e4);
    XorOf(f, 0x0fe4871a_2afd4bf6, 0xf2a55244_a20e48fe, 0x0fe4871a_2afd4bf6, 0xf2a55244_a20e48fe,
          0xfd41d55e_88f30308);
  }

  lemma Straight6(f: (nat, nat) -> nat, g: (nat, nat) -> nat)
    requires IsXor(f) && IsRotation(g)
    ensures StraightWith(f, g, State(0xf2a55244_a20e48fe, 0xac5ad16c_cc3ca6e4,
        0x9fe5adb0_a52f393a, 0xfd41d55e_88f30308))
      == State(0x6e4aefe2_9f0023b1, 0xc52dba36_fa967a69,
        0x9d27830f_2e223c42, 0x48790bfc_2d2ac103)
  {
    Rotation32(g, 0x9f0023b1_6e4aefe2, 0x9f0023b1, 0x6e4aefe2);
    Rotation13(g, 0xac5ad16c_cc3ca6e4, 0x158b, 0x2d16ccc3ca6e4);
    Rotation16(g, 0xfd41d55e_88f30308, 0xfd41, 0xd55e88f30308);
    XorOf(f, 0x5a2d9987_94dc958b, 0x9f0023b1_6e4aefe2, 0x5a2d9987_94dc958b, 0x9f0023b1_6e4aefe2,
          0xc52dba36_fa967a69);
    XorOf(f, 0xd55e88f3_0308fd41, 0x9d27830f_2e223c42, 0xd55e88f3_0308fd41, 0x9d27830f_2e223c42,
          0x48790bfc_2d2ac103);
  }

  lemma Crossed6(f: (nat, nat) -> nat, g: (nat, nat) -> nat)
    requires IsXor(f) && IsRotation(g)
    ensures CrossedWith(f, g, State(0x6e4aefe2_9f0023b1, 0xc52dba36_fa967a69,
        0x9d27830f_2e223c42, 0x48790bfc_2d2ac103))
      == State(0xb6c3fbde_cc2ae4b4, 0x1638c86a_dc6b3cf0,
        0x28b8b6ab_62553d46, 0xc9465e86_ec43eb95)
  {
    Rotation32(g, 0x62553d46_28b8b6ab, 0x62553d46, 0x28b8b6ab);
    Rotation17(g, 0xc52dba36_fa967a69, 0x18a5b, 0x3a36fa967a69);
    Rotation21(g, 0x48790bfc_2d2ac103, 0x90f21, 0x3fc2d2ac103);
    XorOf(f, 0x746df52c_f4d38a5b, 0x62553d46_28b8b6ab, 0x746df52c_f4d38a5b, 0x62553d46_28b8b6ab,
          0x1638c86a_dc6b3cf0);
    XorOf(f, 0x7f85a558_20690f21, 0xb6c3fbde_cc2ae4b4, 0x7f85a558_20690f21, 0xb6c3fbde_cc2ae4b4,
          0xc9465e86_ec43eb95);
  }

  lemma Straight7(f: (nat, nat) -> nat, g: (nat, nat) -> nat)
    requires IsXor(f) && IsRotation(g)
    ensures StraightWith(f, g, State(0xb6c3fbde_cc2ae4b4, 0x1638c86a_dc6b3cf0,
        0x28b8b6ab_62553d46, 0xc9465e86_ec43eb95))
      == State(0xa89621a4_ccfcc449, 0xd5f19fc4_cf082363,
        0xf1ff1532_4e9928db, 0xaf79f971_a50ce19d)
  {
    Rotation32(g, 0xccfcc449_a89621a4, 0xccfcc449, 0xa89621a4);
    Rotation13(g, 0x1638c86a_dc6b3cf0, 0x2c7, 0xc86adc6b3cf0);
    Rotation16(g, 0xc9465e86_ec43eb95, 0xc946, 0x5e86ec43eb95);
    XorOf(f, 0x190d5b8d_679e02c7, 0xccfcc449_a89621a4, 0x190d5b8d_679e02c7, 0xccfcc449_a89621a4,
          0xd5f19fc4_cf082363);
    XorOf(f, 0x5e86ec43_eb95c946, 0xf1ff1532_4e9928db, 0x5e86ec43_eb95c946, 0xf1ff1532_4e9928db,
          0xaf79f971_a50ce19d);
  }

  lemma Crossed7(f: (nat, nat) -> nat, g: (nat, nat) -> nat)
    requires IsXor(f) && IsRotation(g)
    ensures CrossedWith(f, g, State(0xa89621a4_ccfcc449, 0xd5f19fc4_cf082363,
        0xf1ff1532_4e9928db, 0xaf79f971_a50ce19d))
      == State(0x58101b16_7209a5e6, 0xf8792ae7_5b66e7dd,
        0x1da14c3e_c7f0b4f7, 0x7624ba8a_41bc4ad9)
  {
    Rotation32(g, 0xc7f0b4f7_1da14c3e, 0xc7f0b4f7, 0x1da14c3e);
    Rotation17(g, 0xd5f19fc4_cf082363, 0x1abe3, 0x1fc4cf082363);
    Rotation21(g, 0xaf79f971_a50ce19d, 0x15ef3f, 0x171a50ce19d);
    XorOf(f, 0x3f899e10_46c7abe3, 0xc7f0b4f7_1da14c3e, 0x3f899e10_46c7abe3, 0xc7f0b4f7_1da14c3e,
          0xf8792ae7_5b66e7dd);
    XorOf(f, 0x2e34a19c_33b5ef3f, 0x58101b16_7209a5e6, 0x2e34a19c_33b5ef3f, 0x58101b16_7209a5e6,
          0x7624ba8a_41bc4ad9);
  }

  lemma Straight8(f: (nat, nat) -> nat, g: (nat, nat) -> nat)
    requires IsXor(f) && IsRotation(g)
    ensures StraightWith(f, g, State(0x58101b16_7209a5e6, 0xf8792ae7_5b66e7dd,
        0x1da14c3e_c7f0b4f7, 0x7624ba8a_41bc4ad9))
      == State(0xcd708dc3_508945fd, 0x75d5ae91_118b32cc,
        0x93c606c9_09acffd0, 0x294c4775_437589f4)
  {
    Rotation32(g, 0x508945fd_cd708dc3, 0x508945fd, 0xcd708dc3);
    Rotation13(g, 0xf8792ae7_5b66e7dd, 0x1f0f, 0x12ae75b66e7dd);
    Rotation16(g, 0x7624ba8a_41bc4ad9, 0x7624, 0xba8a41bc4ad9);
    XorOf(f, 0x255ceb6c_dcfbbf0f, 0x508945fd_cd708dc3, 0x255ceb6c_dcfbbf0f, 0x508945fd_cd708dc3,
          0x75d5ae91_118b32cc);
    XorOf(f, 0xba8a41bc_4ad97624, 0x93c606c9_09acffd0, 0xba8a41bc_4ad97624, 0x93c606c9_09acffd0,
          0x294c4775_437589f4);
  }

  lemma Crossed8(f: (nat, nat) -> nat, g: (nat, nat) -> nat)
    requires IsXor(f) && IsRotation(g)
    ensures CrossedWith(f, g, State(0xcd708dc3_508945fd, 0x75d5ae91_118b32cc,
        0x93c606c9_09acffd0, 0x294c4775_437589f4))
      == State(0xf6bcd538_93fecff1, 0x54b9964c_7ea0d937,
        0x1b38329c_099bb55a, 0x1814bb89_ad7be679)
  {
    Rotation32(g, 0x099bb55a_1b38329c, 0x99bb55a, 0x1b38329c);
    Rotation17(g, 0x75d5ae91_118b32cc, 0xebab, 0x2e91118b32cc);
    Rotation21(g, 0x294c4775_437589f4, 0x52988, 0x775437589f4);
    XorOf(f, 0x5d222316_6598ebab, 0x099bb55a_1b38329c, 0x5d222316_6598ebab, 0x099bb55a_1b38329c,
          0x54b9964c_7ea0d937);
    XorOf(f, 0xeea86eb1_3e852988, 0xf6bcd538_93fecff1, 0xeea86eb1_3e852988, 0xf6bcd538_93fecff1,
          0x1814bb89_ad7be679);
  }

  // ---------------------------------------------------------------- the digest of the vector

  function TwoRoundsWith(f: (nat, nat) -> nat, g: (nat, nat) -> nat, s: State): State {
    RoundWith(f, g, RoundWith(f, g, s))
  }

  function CompressWith(f: (nat, nat) -> nat, g: (nat, nat) -> nat, s: State, m: nat): State {
    var t := TwoRoundsWith(f, g, s.(v3 := f(s.v3, m)));
    t.(v0 := f(t.v0, m))
  }

  function InitialWith(f: (nat, nat) -> nat, k0: nat, k1: nat): State {
    State(f(k0, 0x736f6d65_70736575), f(k1, 0x646f7261_6e646f6d),
          f(k0, 0x6c796765_6e657261), f(k1, 0x74656462_79746573))
  }

  function FinishWith(f: (nat, nat) -> nat, g: (nat, nat) -> nat, s: State): nat {
    var t := TwoRoundsWith(f, g, TwoRoundsWith(f, g, s.(v2 := f(s.v2, 0xff))));
    f(f(f(t.v0, t.v1), t.v2), t.v3)
  }

  lemma SameRound(s: State)
    ensures TwoRoundsWith(Xor, Rotated, s) == TwoRounds(s)
  {}

  lemma SameCompress(s: State, m: nat)
    ensures CompressWith(Xor, Rotated, s, m) == Compress(s, m)
  {
    SameRound(s.(v3 := Xor(s.v3, m)));
  }

  function AbsorbWith(f: (nat, nat) -> nat, g: (nat, nat) -> nat, s: State, p: seq<Byte>): State
    decreases |p|
  {
    if |p| < 8 then s else AbsorbWith(f, g, CompressWith(f, g, s, Little(p[..8])), p[8..])
  }

  lemma {:induction false} SameAbsorb(s: State, p: seq<Byte>)
    ensures AbsorbWith(Xor, Rotated, s, p) == Absorb(s, p)
    decreases |p|
  {
    if |p| >= 8 {
      SameCompress(s, Little(p[..8]));
      SameAbsorb(Compress(s, Little(p[..8])), p[8..]);
    }
  }

  lemma TwoBlocks(f: (nat, nat) -> nat, g: (nat, nat) -> nat, s: State, p: seq<Byte>)
    requires |p| == 16
    ensures AbsorbWith(f, g, s, p) == CompressWith(f, g, CompressWith(f, g, s, Little(p[..8])), Little(p[8..]))
  {
    var q, t := p[8..], CompressWith(f, g, s, Little(p[..8]));
    assert q[..8] == q && q[8..] == [];
    assert AbsorbWith(f, g, s, p) == AbsorbWith(f, g, t, q);
    assert AbsorbWith(f, g, t, q) == AbsorbWith(f, g, CompressWith(f, g, t, Little(q)), []);
  }

  lemma SameFinish(s: State)
    ensures FinishWith(Xor, Rotated, s) == Finish(s)
  {
    SameRound(s.(v2 := Xor(s.v2, 0xff)));
    SameRound(TwoRounds(s.(v2 := Xor(s.v2, 0xff))));
  }

  lemma SameInitial(key: seq<Byte>)
    requires |key| == 16
    ensures Initial(key) == InitialWith(Xor, Little(key[..8]), Little(key[8..]))
  {}

  lemma Initial0(f: (nat, nat) -> nat)
    requires IsXor(f)
    ensures InitialWith(f, 0x07060504_03020100, 0x0f0e0d0c_0b0a0908)
      == State(0x74696861_73716475, 0x6b617f6d_656e6665,
        0x6b7f6261_6d677361, 0x7b6b696e_727e6c7b)
  {
    XorOf(f, 0x07060504_03020100, 0x736f6d65_70736575, 0x07060504_03020100, 0x736f6d65_70736575,
          0x74696861_73716475);
    XorOf(f, 0x0f0e0d0c_0b0a0908, 0x646f7261_6e646f6d, 0x0f0e0d0c_0b0a0908, 0x646f7261_6e646f6d,
          0x6b617f6d_656e6665);
    XorOf(f, 0x07060504_03020100, 0x6c796765_6e657261, 0x07060504_03020100, 0x6c796765_6e657261,
          0x6b7f6261_6d677361);
    XorOf(f, 0x0f0e0d0c_0b0a0908, 0x74656462_79746573, 0x0f0e0d0c_0b0a0908, 0x74656462_79746573,
          0x7b6b696e_727e6c7b);
  }

  lemma Block1(f: (nat, nat) -> nat, g: (nat, nat) -> nat)
    requires IsXor(f) && IsRotation(g)
    ensures CompressWith(f, g, State(0x74696861_73716475, 0x6b617f6d_656e6665,
        0x6b7f6261_6d677361, 0x7b6b696e_727e6c7b),
                         0x07060504_03020100)
      == State(0x4a017198_de0a59e0, 0x0d52f6f6_2a4f59a4,
        0x634cb357_7b01fd3d, 0xa5224d6f_55c7d9c8)
  {
    XorOf(f, 0x7b6b696e_727e6c7b, 0x07060504_03020100, 0x7b6b696e_727e6c7b, 0x07060504_03020100,
          0x7c6d6c6a_717c6d7b);
    Straight1(f, g);
    Crossed1(f, g);
    Straight2(f, g);
    Crossed2(f, g);
    XorOf(f, 0x4d07749c_dd0858e0, 0x07060504_03020100, 0x4d07749c_dd0858e0, 0x07060504_03020100,
          0x4a017198_de0a59e0);
  }

  lemma Block2(f: (nat, nat) -> nat, g: (nat, nat) -> nat)
    requires IsXor(f) && IsRotation(g)
    ensures CompressWith(f, g, State(0x4a017198_de0a59e0, 0x0d52f6f6_2a4f59a4,
        0x634cb357_7b01fd3d, 0xa5224d6f_55c7d9c8),
                         0x0f0e0d0c_0b0a0908)
      == State(0x3c85b3ab_6f55be51, 0x414fc3fb_98efe374,
        0xccf13ea5_27b9f4bd, 0x5293f5da_84008f82)
  {
    XorOf(f, 0xa5224d6f_55c7d9c8, 0x0f0e0d0c_0b0a0908, 0xa5224d6f_55c7d9c8, 0x0f0e0d0c_0b0a0908,
          0xaa2c4063_5ecdd0c0);
    Straight3(f, g);
    Crossed3(f, g);
    Straight4(f, g);
    Crossed4(f, g);
    XorOf(f, 0x338bbea7_645fb759, 0x0f0e0d0c_0b0a0908, 0x338bbea7_645fb759, 0x0f0e0d0c_0b0a0908,
          0x3c85b3ab_6f55be51);
  }

  lemma FirstHalf(f: (nat, nat) -> nat, g: (nat, nat) -> nat)
    requires IsXor(f) && IsRotation(g)
    ensures TwoRoundsWith(f, g, State(0x3c85b3ab_6f55be51, 0x414fc3fb_98efe374,
        0xccf13ea5_27b9f442, 0x5293f5da_84008f82))
      == State(0xb6c3fbde_cc2ae4b4, 0x1638c86a_dc6b3cf0,
        0x28b8b6ab_62553d46, 0xc9465e86_ec43eb95)
  {
    Straight5(f, g);
    Crossed5(f, g);
    Straight6(f, g);
    Crossed6(f, g);
  }

  lemma SecondHalf(f: (nat, nat) -> nat, g: (nat, nat) -> nat)
    requires IsXor(f) && IsRotation(g)
    ensures TwoRoundsWith(f, g, State(0xb6c3fbde_cc2ae4b4, 0x1638c86a_dc6b3cf0,
        0x28b8b6ab_62553d46, 0xc9465e86_ec43eb95))
      == State(0xf6bcd538_93fecff1, 0x54b9964c_7ea0d937,
        0x1b38329c_099bb55a, 0x1814bb89_ad7be679)
  {
    Straight7(f, g);
    Crossed7(f, g);
    Straight8(f, g);
    Crossed8(f, g);
  }

  lemma Finish0(f: (nat, nat) -> nat, g: (nat, nat) -> nat)
    requires IsXor(f) && IsRotation(g)
    ensures FinishWith(f, g, State(0x3c85b3ab_6f55be51, 0x414fc3fb_98efe374,
        0xccf13ea5_27b9f4bd, 0x5293f5da_84008f82)) == 0xa129ca61_49be45e5
  {
    XorOf(f, 0xccf13ea5_27b9f4bd, 0x00000000_000000ff, 0xccf13ea5_27b9f4bd, 0x00000000_000000ff,
          0xccf13ea5_27b9f442);
    FirstHalf(f, g);
    SecondHalf(f, g);
    LastXor(f);
  }

  lemma LastXor(f: (nat, nat) -> nat)
    requires IsXor(f)
    ensures var t := State(0xf6bcd538_93fecff1, 0x54b9964c_7ea0d937,
        0x1b38329c_099bb55a, 0x1814bb89_ad7be679);
      f(f(f(t.v0, t.v1), t.v2), t.v3) == 0xa129ca61_49be45e5
  {
    XorOf(f, 0xf6bcd538_93fecff1, 0x54b9964c_7ea0d937, 0xf6bcd538_93fecff1, 0x54b9964c_7ea0d937,
          0xa2054374_ed5e16c6);
    XorOf(f, 0xa2054374_ed5e16c6, 0x1b38329c_099bb55a, 0xa2054374_ed5e16c6, 0x1b38329c_099bb55a,
          0xb93d71e8_e4c5a39c);
    XorOf(f, 0xb93d71e8_e4c5a39c, 0x1814bb89_ad7be679, 0xb93d71e8_e4c5a39c, 0x1814bb89_ad7be679,
          0xa129ca61_49be45e5);
  }

  lemma DigestWith(f: (nat, nat) -> nat, g: (nat, nat) -> nat, p: seq<Byte>)
    requires IsXor(f) && IsRotation(g)
    requires |p| == 16 && Little(p[..8]) == 0x07060504_03020100 && Little(p[8..]) == 0x0f0e0d0c_0b0a0908
    ensures FinishWith(f, g, AbsorbWith(f, g, InitialWith(f, 0x07060504_03020100, 0x0f0e0d0c_0b0a0908), p))
      == 0xa129ca61_49be45e5
  {
    TwoBlocks(f, g, InitialWith(f, 0x07060504_03020100, 0x0f0e0d0c_0b0a0908), p);
    Initial0(f);
    Block1(f, g);
    Block2(f, g);
    Finish0(f, g);
  }

  lemma LittleEight(b: seq<Byte>, x: nat, last: nat)
    requires |b| == 8 && b[7] == last && forall i :: 0 <= i < 7 ==> b[i] == x + i
    ensures Little(b) == x + 0x100 * (x + 1) + 0x1_0000 * (x + 2) + 0x100_0000 * (x + 3)
      + 0x1_0000_0000 * (x + 4 + 0x100 * (x + 5) + 0x1_0000 * (x + 6) + 0x100_0000 * last)
  {
    LittleFour(b, x, x + 1, x + 2, x + 3);
    LittleFour(b[4..], x + 4, x + 5, x + 6, last);
    assert b[4..][4..] == [];
  }

  lemma LittleFour(b: seq<Byte>, b0: nat, b1: nat, b2: nat, b3: nat)
    requires |b| >= 4 && b[0] == b0 && b[1] == b1 && b[2] == b2 && b[3] == b3
    ensures Little(b) == b0 + 0x100 * b1 + 0x1_0000 * b2 + 0x100_0000 * b3 + 0x1_0000_0000 * Little(b[4..])
  {
    var c, d, e := b[1..], b[2..], b[3..];
    assert c[1..] == d && d[1..] == e && e[1..] == b[4..];
    assert Little(b) == b0 + 0x100 * Little(c);
    assert Little(c) == b1 + 0x100 * Little(d);
    assert Little(d) == b2 + 0x100 * Little(e);
    assert Little(e) == b3 + 0x100 * Little(b[4..]);
  }

  /** The bytes 0, 1, 2, ... */
  function Count(n: nat): (b: seq<Byte>)
    requires n <= 256
    ensures |b| == n && forall i :: 0 <= i < n ==> b[i] == i
  {
    seq(n, i requires 0 <= i < n => i)
  }

  /** The digest in the same terms. */
  lemma SameDigest(key: seq<Byte>, data: seq<Byte>)
    requires |key| == 16
    ensures Digest(key, data) == FinishWith(Xor, Rotated,
      AbsorbWith(Xor, Rotated, InitialWith(Xor, Little(key[..8]), Little(key[8..])), Padded(data)))
  {
    SameInitial(key);
    SameAbsorb(Initial(key), Padded(data));
    SameFinish(Absorb(Initial(key), Padded(data)));
  }

  lemma VectorWords()
    ensures var key, p := Count(16), Padded(Count(15));
      && |p| == 16 && Little(key[..8]) == 0x07060504_03020100 && Little(key[8..]) == 0x0f0e0d0c_0b0a0908
      && Little(p[..8]) == 0x07060504_03020100 && Little(p[8..]) == 0x0f0e0d0c_0b0a0908
  {
    var key, p := Count(16), Padded(Count(15));
    assert p == Count(15) + [15];
    LittleEight(key[..8], 0, 7);
    LittleEight(key[8..], 8, 15);
    LittleEight(p[..8], 0, 7);
    LittleEight(p[8..], 8, 15);
  }

  /** The digest of the bytes 0 to 14 with the key of the bytes 0 to 15. */
  lemma TestVector()
    ensures Digest(Count(16), Count(15)) == 0xa129ca61_49be45e5
  {
    VectorWords();
    SameDigest(Count(16), Count(15));
    XorIsXor();
    RotatedIsRotation();
    DigestWith(Xor, Rotated, Padded(Count(15)));
  }
}
