/**
 * The two SipHash-2-4 implementations, source/SipHash.cpp and third-party/csiphash/csiphash.c, against the definition
 * of section 2 of "SipHash: a fast short-input PRF" by Aumasson and Bernstein. Words are numbers below 2^64.
 */
module SipHash {
  import opened Arith

  type Byte = x: nat | x < 256

  // ---------------------------------------------------------------- words

  function W(): nat {
    0x1_0000_0000_0000_0000
  }

  /**
   * Here and below a number that is passed in, although a precondition fixes it, keeps the verifier from unfolding a
   * recursive function as often as a literal would tell it to.
   */
  lemma WordIsPower(quarter: nat)
    requires quarter == 16
    ensures Pow2(4 * quarter) == W()
  {
    var half := 2 * quarter;
    assert Pow2(8) == 256;
    Pow2Add(8, 8);
    Pow2Add(quarter, quarter);
    Pow2Add(half, half);
  }

  lemma WordSplit(n: nat, k: nat)
    requires n + k == 64
    ensures Pow2(n) * Pow2(k) == W()
  {
    WordIsPower(16);
    Pow2Add(n, k);
  }

  /** Addition that wraps around. */
  function Add(x: nat, y: nat): nat {
    (x + y) % W()
  }

  function Xor(x: nat, y: nat): nat {
    if x == 0 && y == 0 then 0
    else (if x % 2 == y % 2 then 0 else 1) + 2 * Xor(x / 2, y / 2)
  }

  lemma {:induction false} XorAssoc(x: nat, y: nat, z: nat)
    ensures Xor(Xor(x, y), z) == Xor(x, Xor(y, z))
    decreases x + y + z
  {
    if x != 0 || y != 0 || z != 0 { XorAssoc(x / 2, y / 2, z / 2); }
  }

  lemma HalvesOfXor(x: nat, y: nat)
    ensures Xor(x, y) / 2 == Xor(x / 2, y / 2) && (Xor(x, y) % 2 == 0 <==> x % 2 == y % 2)
  {}

  lemma BitOfHalf(x: nat, i: nat)
    ensures Bit(x, i + 1) == Bit(x / 2, i)
  {
    DivDiv(x, 2, Pow2(i));
  }

  lemma LowestBit(x: nat)
    ensures Bit(x, 0) == x % 2
  {
    assert Pow2(0) == 1 && x / 1 == x;
  }

  /** Every bit of the exclusive or is the sum of the two bits, modulo two. */
  lemma {:induction false} XorIsBitwise(x: nat, y: nat, i: nat)
    ensures Bit(Xor(x, y), i) == (Bit(x, i) + Bit(y, i)) % 2
  {
    HalvesOfXor(x, y);
    if i == 0 {
      LowestBit(Xor(x, y));
      LowestBit(x);
      LowestBit(y);
    } else {
      BitOfHalf(Xor(x, y), i - 1);
      BitOfHalf(x, i - 1);
      BitOfHalf(y, i - 1);
      XorIsBitwise(x / 2, y / 2, i - 1);
    }
  }

  lemma {:induction false} XorTwice(x: nat, y: nat)
    ensures Xor(Xor(x, y), y) == x
    decreases x + y
  {
    if x != 0 || y != 0 {
      HalvesOfXor(x, y);
      HalvesOfXor(Xor(x, y), y);
      XorTwice(x / 2, y / 2);
      SameHalves(Xor(Xor(x, y), y), x);
    }
  }

  lemma SameHalves(x: nat, y: nat)
    requires x / 2 == y / 2 && (x % 2 == 0 <==> y % 2 == 0)
    ensures x == y
  {}

  /** Addition can be undone. */
  lemma AddUndone(x: nat, y: nat)
    requires x < W() && y < W()
    ensures (Add(x, y) + W() - y) % W() == x
  {
    if x + y < W() {
      ModSelf(x + y, W());
      DivModUnique(x + W(), W(), 1, x);
    } else {
      DivModUnique(x + y, W(), 1, x + y - W());
      ModSelf(x, W());
    }
  }

  /** Rotation by one bit: the top bit moves to the lower end. */
  function RotateOne(u: nat): nat {
    if u < 0x8000_0000_0000_0000 then 2 * u else 2 * (u - 0x8000_0000_0000_0000) + 1
  }

  function Rotated(u: nat, s: nat): nat {
    if s == 0 then u else RotateOne(Rotated(u, s - 1))
  }

  lemma RotateTopBit(x: nat, h: nat, y: nat)
    requires x == h * 0x8000_0000_0000_0000 + y && y < 0x8000_0000_0000_0000 && h < 2
    ensures RotateOne(x) == 2 * y + h
  {}

  lemma HalfWord(n: nat, k: nat)
    requires n + k == 63
    ensures Pow2(n) * Pow2(k) == 0x8000_0000_0000_0000
  {
    WordSplit(n + 1, k);
    MulAssoc(2, Pow2(n), Pow2(k));
  }

  /** One more bit of u moves from the lower part to the upper part. */
  lemma SplitOneMore(u: nat, k: nat) returns (h: nat)
    ensures h < 2 && LowBits(u, k + 1) == h * Pow2(k) + LowBits(u, k)
    ensures ShiftRight(u, k) == 2 * ShiftRight(u, k + 1) + h
  {
    var p, q, low := Pow2(k), ShiftRight(u, k + 1), LowBits(u, k + 1);
    h := low / p;
    DivMod(u, 2 * p);
    DivMod(low, p);
    MulGe(p, h - 2);
    MulGe(p, h);
    Dist(h, 2, p);
    assert u == p * (2 * q + h) + low % p by { MulAssoc(p, 2, q); Dist(2 * q, h, p); }
    DivModUnique(u, p, 2 * q + h, low % p);
  }

  lemma RotatedStep(lows: nat, h: nat, low: nat, q: nat, t: nat, k: nat)
    requires lows == h * Pow2(k) + low && t + k == 63
    ensures lows * Pow2(t) + q == h * 0x8000_0000_0000_0000 + (low * Pow2(t) + q)
  {
    HalfWord(k, t);
    Dist(h * Pow2(k), low, Pow2(t));
    MulAssoc(h, Pow2(k), Pow2(t));
  }

  lemma LowFits(low: nat, q: nat, t: nat, k: nat)
    requires low < Pow2(k) && q < Pow2(t) && t + k == 63
    ensures low * Pow2(t) + q < 0x8000_0000_0000_0000
  {
    HalfWord(k, t);
    MulLe(low, Pow2(k) - 1, Pow2(t), Pow2(t));
    Dist(Pow2(k), 1, Pow2(t));
  }

  /** The upper t bits of the word are at its lower end; one more follows. */
  lemma RotateParts(u: nat, x: nat, t: nat, k: nat)
    requires u < W() && t + k == 63 && x == LowBits(u, k + 1) * Pow2(t) + ShiftRight(u, k + 1)
    ensures RotateOne(x) == LowBits(u, k) * Pow2(t + 1) + ShiftRight(u, k)
  {
    var h := SplitOneMore(u, k);
    var low, q := LowBits(u, k), ShiftRight(u, k + 1);
    RotatedStep(LowBits(u, k + 1), h, low, q, t, k);
    ShiftedOut(u, t, k + 1);
    LowFits(low, q, t, k);
    RotateTopBit(x, h, low * Pow2(t) + q);
    TwiceSum(low, Pow2(t), q, h);
  }

  lemma TwiceSum(low: nat, p: nat, q: nat, h: nat)
    ensures 2 * (low * p + q) + h == low * (2 * p) + (2 * q + h)
  {
    MulAssoc(low, 2, p);
  }

  /** After s rotations the upper s bits of the word are at its lower end, and the others above them. */
  lemma {:induction false} RotatedParts(u: nat, s: nat, k: nat)
    requires u < W() && s + k == 64
    ensures Rotated(u, s) == LowBits(u, k) * Pow2(s) + ShiftRight(u, k)
  {
    if s == 0 {
      RotatedByNone(u, k);
    } else {
      RotatedParts(u, s - 1, k + 1);
      RotateParts(u, Rotated(u, s - 1), s - 1, k);
    }
  }

  lemma RotatedByNone(u: nat, k: nat)
    requires u < W() && k == 64
    ensures LowBits(u, k) == u && ShiftRight(u, k) == 0
  {
    WordSplit(0, k);
    ModSelf(u, W());
  }

  /** Bits that are shifted out of a word are gone. */
  lemma ShiftInWord(u: nat, s: nat, k: nat)
    requires s + k == 64
    ensures (u * Pow2(s)) % W() == LowBits(u, k) * Pow2(s)
  {
    var p, q, low := Pow2(s), Pow2(k), LowBits(u, k);
    WordSplit(s, k);
    DivMod(u, q);
    assert u * p == (q * (u / q)) * p + low * p by { Dist(q * (u / q), low, p); }
    MulAssoc(p, q, u / q);
    MulLe(low, q - 1, p, p);
    Dist(q, 1, p);
    DivNat(u, q);
    DivModUnique(u * p, W(), u / q, low * p);
  }

  lemma ShiftedOut(u: nat, s: nat, k: nat)
    requires s + k == 64 && u < W()
    ensures ShiftRight(u, k) < Pow2(s)
  {
    var q := Pow2(k);
    WordSplit(s, k);
    DivMod(u, q);
    if u / q >= Pow2(s) { MulLe(Pow2(s), u / q, q, q); }
  }

  /** rotl64, and ROTATE of the other implementation. */
  method Rotl64(u: nat, s: nat) returns (r: nat)
    requires u < W() && s <= 64
    ensures r == Rotated(u, s) < W()
  {
    ShiftInWord(u, s, 64 - s);
    ShiftedOut(u, s, 64 - s);
    BitOrIsSum(LowBits(u, 64 - s), ShiftRight(u, 64 - s), s);
    RotatedParts(u, s, 64 - s);
    RotatedBound(u, s, 64 - s);
    r := BitOr((u * Pow2(s)) % W(), ShiftRight(u, 64 - s));
  }

  lemma RotatedBound(u: nat, s: nat, k: nat)
    requires s + k == 64 && u < W()
    ensures LowBits(u, k) * Pow2(s) + ShiftRight(u, k) < W()
  {
    ShiftedOut(u, s, k);
    WordSplit(s, k);
    MulLe(LowBits(u, k), Pow2(k) - 1, Pow2(s), Pow2(s));
    Dist(Pow2(k), 1, Pow2(s));
  }

  lemma {:induction false} XorBound(x: nat, y: nat, n: nat)
    requires x < Pow2(n) && y < Pow2(n)
    ensures Xor(x, y) < Pow2(n)
  {
    if n > 0 { XorBound(x / 2, y / 2, n - 1); }
  }

  lemma XorInWord(x: nat, y: nat)
    requires x < W() && y < W()
    ensures Xor(x, y) < W()
  {
    WordIsPower(16);
    XorBound(x, y, 4 * 16);
  }

  // ---------------------------------------------------------------- the definition

  datatype State = State(v0: nat, v1: nat, v2: nat, v3: nat)

  predicate Words(s: State) {
    s.v0 < W() && s.v1 < W() && s.v2 < W() && s.v3 < W()
  }

  /** The columns (v0, v1) and (v2, v3) are mixed. */
  function Straight(s: State): State {
    State(Rotated(Add(s.v0, s.v1), 32), Xor(Rotated(s.v1, 13), Add(s.v0, s.v1)),
          Add(s.v2, s.v3), Xor(Rotated(s.v3, 16), Add(s.v2, s.v3)))
  }

  /** The columns (v2, v1) and (v0, v3) are mixed. */
  function Crossed(s: State): State {
    State(Add(s.v0, s.v3), Xor(Rotated(s.v1, 17), Add(s.v2, s.v1)),
          Rotated(Add(s.v2, s.v1), 32), Xor(Rotated(s.v3, 21), Add(s.v0, s.v3)))
  }

  /** SipRound, section 2.1 and figure 2.1. */
  function Round(s: State): State {
    Crossed(Straight(s))
  }

  function TwoRounds(s: State): State {
    Round(Round(s))
  }

  function Compress(s: State, m: nat): State {
    var t := TwoRounds(s.(v3 := Xor(s.v3, m)));
    t.(v0 := Xor(t.v0, m))
  }

  /** The number that bytes stand for, lowest byte first. */
  function Little(b: seq<Byte>): nat {
    if |b| == 0 then 0 else b[0] + 256 * Little(b[1..])
  }

  function Zeros(n: nat): seq<Byte> {
    seq(n, _ => 0)
  }

  /** The message followed by zeros and, as the last byte of a block, its length modulo 256. */
  function Padded(data: seq<Byte>): seq<Byte> {
    data + Zeros(7 - |data| % 8) + [|data| % 256]
  }

  function Absorb(s: State, p: seq<Byte>): State
    decreases |p|
  {
    if |p| < 8 then s else Absorb(Compress(s, Little(p[..8])), p[8..])
  }

  function Initial(key: seq<Byte>): State
    requires |key| == 16
  {
    var k0, k1 := Little(key[..8]), Little(key[8..]);
    State(Xor(k0, 0x736f6d6570736575), Xor(k1, 0x646f72616e646f6d),
          Xor(k0, 0x6c7967656e657261), Xor(k1, 0x7465646279746573))
  }

  function Finish(s: State): nat {
    var t := TwoRounds(TwoRounds(s.(v2 := Xor(s.v2, 0xff))));
    Xor(Xor(Xor(t.v0, t.v1), t.v2), t.v3)
  }

  function Digest(key: seq<Byte>, data: seq<Byte>): nat
    requires |key| == 16
  {
    Finish(Absorb(Initial(key), Padded(data)))
  }

  // ---------------------------------------------------------------- bytes of a word

  /** What a shift by i bytes multiplies with. */
  function Place(i: nat): (p: nat)
    ensures p > 0
  {
    Pow2(8 * i)
  }

  lemma PlaceNext(i: nat)
    ensures Place(i + 1) == 256 * Place(i)
  {
    Pow2Add(8, 8 * i);
    assert Pow2(8) == 256;
  }

  lemma {:induction false} LittleAppend(b: seq<Byte>, x: Byte)
    ensures Little(b + [x]) == Little(b) + x * Place(|b|)
  {
    if |b| == 0 {
      LittleOne(x);
      assert b + [x] == [x];
    } else {
      LittleAppend(b[1..], x);
      assert (b + [x])[1..] == b[1..] + [x];
      PlaceNext(|b| - 1);
      PlaceUp(b[0], Little(b[1..]), x, Place(|b| - 1));
    }
  }

  lemma PlaceUp(first: nat, low: nat, x: nat, p: nat)
    ensures first + 256 * (low + x * p) == first + 256 * low + x * (256 * p)
  {
    MulAssoc(x, 256, p);
  }

  lemma LittleOne(x: Byte)
    ensures Little([x]) == x && Place(0) == 1
  {
    assert Little([x]) == x + 256 * Little([]);
  }

  lemma {:induction false} LittleBound(b: seq<Byte>)
    ensures Little(b) < Place(|b|)
  {
    if |b| > 0 {
      LittleBound(b[1..]);
      PlaceNext(|b| - 1);
    }
  }

  lemma {:induction false} LittleZeros(b: seq<Byte>, n: nat)
    ensures Little(b + Zeros(n)) == Little(b)
  {
    if n == 0 {
      assert b + Zeros(0) == b;
    } else {
      LittleZeros(b, n - 1);
      LittleAppend(b + Zeros(n - 1), 0);
      assert b + Zeros(n) == (b + Zeros(n - 1)) + [0];
    }
  }

  lemma LittleInWord(b: seq<Byte>)
    requires |b| == 8
    ensures Little(b) < W()
  {
    LittleBound(b);
    WordIsPower(16);
  }

  /** Bits that do not overlap are or-ed to their sum. */
  lemma OrAbove(low: nat, x: nat, n: nat)
    requires low < Pow2(n)
    ensures BitOr(low, x * Pow2(n)) == low + x * Pow2(n) == BitOr(x * Pow2(n), low)
  {
    BitOrIsSum(x, low, n);
    BitOrComm(low, x * Pow2(n));
  }

  /** Adding a byte to a word under construction. */
  lemma OrByte(b: seq<Byte>, x: Byte)
    ensures BitOr(Little(b), x * Place(|b|)) == Little(b + [x])
  {
    LittleBound(b);
    OrAbove(Little(b), x, 8 * |b|);
    LittleAppend(b, x);
  }

  /** get64le. */
  method Get64le(data: seq<Byte>, ix: nat) returns (ret: nat)
    requires 8 * ix + 8 <= |data|
    ensures ret == Little(data[8 * ix..8 * ix + 8]) < W()
  {
    var p := data[8 * ix..8 * ix + 8];
    ret := 0;
    for i := 0 to 8
      invariant ret == Little(p[..i])
    {
      OrByte(p[..i], p[i]);
      assert p[..i + 1] == p[..i] + [p[i]];
      ret := BitOr(ret, p[i] * Place(i));
    }
    assert p[..8] == p;
    LittleInWord(p);
  }

  lemma ModSplit(v: nat, a: nat, b: nat)
    requires a > 0 && b > 0
    ensures a * b > 0 && v % (a * b) == v % a + a * ((v / a) % b)
  {
    var q, r := v / a, v % a;
    DivMod(v, a);
    DivMod(q, b);
    DivDivSum(v, a, b, q, r, q / b, q % b);
    MulLe(1, a, 1, b);
    DivModUnique(v, a * b, q / b, a * (q % b) + r);
  }

  /** The byte of the word above the ones that are there. */
  lemma NextByte(v: nat, b: seq<Byte>, x: Byte, bits: nat)
    requires bits == 8 * |b| && Little(b) == LowBits(v, bits) && x == ShiftRight(v, bits) % 256
    ensures Little(b + [x]) == LowBits(v, bits + 8)
  {
    PlaceNext(|b|);
    LittleAppend(b, x);
    NextLow(v, Pow2(bits), x);
  }

  lemma NextLow(v: nat, p: nat, x: nat)
    requires p > 0 && x == v / p % 256
    ensures v % (256 * p) == v % p + x * p
  {
    ModSplit(v, p, 256);
  }

  lemma AllBytes(v: nat, b: seq<Byte>)
    requires v < W() && |b| == 8 && Little(b) == LowBits(v, 8 * |b|)
    ensures Little(b) == v
  {
    WordSplit(8 * |b|, 0);
    ModSelf(v, W());
  }

  /** put64le: the bytes stand for the word. */
  method Put64le(v: nat, out: array<Byte>)
    requires v < W() && out.Length == 8
    modifies out
    ensures Little(out[..]) == v
  {
    var i := 0;
    assert LowBits(v, 0) == 0 by { assert Pow2(0) == 1; }
    while i < out.Length
      invariant i <= out.Length && Little(out[..i]) == LowBits(v, 8 * i)
    {
      ghost var before := out[..i];
      var byte: Byte := ShiftRight(v, 8 * i) % 256;
      NextByte(v, before, byte, 8 * i);
      out[i] := byte;
      assert out[..i + 1] == before + [byte];
      i := i + 1;
    }
    assert out[..i] == out[..];
    AllBytes(v, out[..]);
  }

  // ---------------------------------------------------------------- source/SipHash.cpp

  /** The state words v0 to v3, which the rounds update in place. */
  class Hasher {
    var v0: nat
    var v1: nat
    var v2: nat
    var v3: nat

    ghost function S(): State
      reads this
    {
      State(v0, v1, v2, v3)
    }

    constructor (s: State)
      ensures S() == s
    {
      v0, v1, v2, v3 := s.v0, s.v1, s.v2, s.v3;
    }

    /** The first steps of sipround, up to the rotation of v3. */
    method MixColumns()
      requires Words(S())
      modifies this
      ensures Words(S())
      ensures v0 == Rotated(Add(old(v0), old(v1)), 32) && v2 == Add(old(v2), old(v3))
      ensures v1 == Xor(Rotated(old(v1), 13), Add(old(v0), old(v1)))
      ensures v3 == Xor(Rotated(old(v3), 16), v2)
    {
      v0 := Add(v0, v1);
      v1 := Rotl64(v1, 13);
      XorInWord(v1, v0);
      v1 := Xor(v1, v0);
      v0 := Rotl64(v0, 32);

      v2 := Add(v2, v3);
      v3 := Rotl64(v3, 16);
      XorInWord(v3, v2);
      v3 := Xor(v3, v2);
    }

    /** sipround. */
    method SipRound()
      requires Words(S())
      modifies this
      ensures S() == Round(old(S())) && Words(S())
    {
      MixColumns();

      v2 := Add(v2, v1);
      v1 := Rotl64(v1, 17);
      XorInWord(v1, v2);
      v1 := Xor(v1, v2);
      v2 := Rotl64(v2, 32);

      v0 := Add(v0, v3);
      v3 := Rotl64(v3, 21);
      XorInWord(v3, v0);
      v3 := Xor(v3, v0);
    }

    /** sipcompress2. */
    method SipCompress2(m: nat)
      requires Words(S()) && m < W()
      modifies this
      ensures S() == Compress(old(S()), m) && Words(S())
    {
      XorInWord(v3, m);
      v3 := Xor(v3, m);
      SipRound();
      SipRound();
      XorInWord(v0, m);
      v0 := Xor(v0, m);
    }

    /** HALF_ROUND on (v0, v1, v2, v3), with rotations by 13 and 16. */
    method HalfRound0()
      requires Words(S())
      modifies this
      ensures Words(S())
      ensures v0 == Rotated(Add(old(v0), old(v1)), 32) && v2 == Add(old(v2), old(v3))
      ensures v1 == Xor(Rotated(old(v1), 13), Add(old(v0), old(v1)))
      ensures v3 == Xor(Rotated(old(v3), 16), v2)
    {
      v0 := Add(v0, v1);
      v2 := Add(v2, v3);
      var r1 := Rotl64(v1, 13);
      XorInWord(r1, v0);
      v1 := Xor(r1, v0);
      var r3 := Rotl64(v3, 16);
      XorInWord(r3, v2);
      v3 := Xor(r3, v2);
      v0 := Rotl64(v0, 32);
    }

    /** HALF_ROUND on (v2, v1, v0, v3), with rotations by 17 and 21. */
    method HalfRound1()
      requires Words(S())
      modifies this
      ensures Words(S())
      ensures v2 == Rotated(Add(old(v2), old(v1)), 32) && v0 == Add(old(v0), old(v3))
      ensures v1 == Xor(Rotated(old(v1), 17), Add(old(v2), old(v1)))
      ensures v3 == Xor(Rotated(old(v3), 21), v0)
    {
      v2 := Add(v2, v1);
      v0 := Add(v0, v3);
      var r1 := Rotl64(v1, 17);
      XorInWord(r1, v2);
      v1 := Xor(r1, v2);
      var r3 := Rotl64(v3, 21);
      XorInWord(r3, v0);
      v3 := Xor(r3, v0);
      v2 := Rotl64(v2, 32);
    }

    /** DOUBLE_ROUND: four half rounds make two rounds. */
    method DoubleRound()
      requires Words(S())
      modifies this
      ensures S() == TwoRounds(old(S())) && Words(S())
    {
      ghost var s := S();
      HalfRound0();
      assert S() == Straight(s);
      HalfRound1();
      assert S() == Round(s);
      ghost var t := S();
      HalfRound0();
      assert S() == Straight(t);
      HalfRound1();
    }

    /** A block of the message in csiphash.c. */
    method DoubleCompress(m: nat)
      requires Words(S()) && m < W()
      modifies this
      ensures S() == Compress(old(S()), m) && Words(S())
    {
      XorInWord(v3, m);
      v3 := Xor(v3, m);
      DoubleRound();
      XorInWord(v0, m);
      v0 := Xor(v0, m);
    }
  }

  /** The last block: what is left of the message, zeros, and the length. */
  function LastBlock(data: seq<Byte>): seq<Byte> {
    RestOf(data) + Zeros(7 - |data| % 8) + [|data| % 256]
  }

  function RestOf(data: seq<Byte>): (rest: seq<Byte>)
    ensures |rest| == |data| % 8
  {
    data[|data| / 8 * 8..]
  }

  lemma LastBlockValue(data: seq<Byte>, len: Byte, top: nat)
    requires top == 7 && len == |data| % 256
    ensures Little(LastBlock(data)) == Little(RestOf(data)) + len * Place(top)
    ensures Little(LastBlock(data)) < W() && Little(RestOf(data)) < Place(top)
  {
    var block := RestOf(data) + Zeros(7 - |data| % 8);
    LittleZeros(RestOf(data), 7 - |data| % 8);
    LittleBound(block);
    LittleAppend(block, len);
    LittleInWord(LastBlock(data));
  }

  /** The length is or-ed into the top byte. */
  lemma OrLength(data: seq<Byte>, len: Byte, top: nat)
    requires top == 7 && len == |data| % 256
    ensures BitOr(Little(RestOf(data)), len * Place(top)) == Little(LastBlock(data)) < W()
    ensures BitOr(len * Place(top), Little(RestOf(data))) == Little(LastBlock(data))
  {
    LastBlockValue(data, len, top);
    OrAbove(Little(RestOf(data)), len, 8 * top);
  }

  /** siplast. */
  method SipLast(data: seq<Byte>) returns (last: nat)
    ensures last == Little(LastBlock(data)) < W()
  {
    var size := |data|;
    last := LastBytes(data);
    OrLength(data, size % 256, 7);
    last := BitOr(last, size % 256 * Place(7));
  }

  /** The loop of siplast. */
  method LastBytes(data: seq<Byte>) returns (last: nat)
    ensures last == Little(RestOf(data))
  {
    var size := |data|;
    ghost var rest := RestOf(data);
    last := 0;
    for i := 0 to size % 8
      invariant last == Little(rest[..i])
    {
      OrByte(rest[..i], rest[i]);
      assert rest[..i + 1] == rest[..i] + [rest[i]];
      last := BitOr(last, data[size / 8 * 8 + i] * Place(i));
    }
    assert rest[..size % 8] == rest;
  }

  /** A block at a time, the message is absorbed. */
  lemma AbsorbBlock(s: State, data: seq<Byte>, i: nat)
    requires i < |data| / 8
    ensures Absorb(s, Padded(data)[8 * i..])
         == Absorb(Compress(s, Little(data[8 * i..8 * i + 8])), Padded(data)[8 * (i + 1)..])
  {
    var p := Padded(data)[8 * i..];
    assert p[..8] == data[8 * i..8 * i + 8] && p[8..] == Padded(data)[8 * (i + 1)..];
  }

  lemma AbsorbLast(s: State, data: seq<Byte>)
    ensures Absorb(s, Padded(data)[8 * (|data| / 8)..]) == Compress(s, Little(LastBlock(data)))
  {
    var p := Padded(data)[8 * (|data| / 8)..];
    assert p == LastBlock(data) && p[..8] == p && p[8..] == [];
  }

  lemma KeyWords(key: seq<Byte>)
    requires |key| == 16
    ensures Words(Initial(key))
  {
    LittleInWord(key[..8]);
    LittleInWord(key[8..]);
    XorInWord(Little(key[..8]), 0x736f6d6570736575);
    XorInWord(Little(key[8..]), 0x646f72616e646f6d);
    XorInWord(Little(key[..8]), 0x6c7967656e657261);
    XorInWord(Little(key[8..]), 0x7465646279746573);
  }

  /** siphash24 of source/SipHash.cpp, with SipHash::digest, which reads the bytes that it puts out as one word. */
  method SipHash24(key: seq<Byte>, data: seq<Byte>) returns (output: nat)
    requires |key| == 16
    ensures output == Digest(key, data)
  {
    var key0 := Get64le(key, 0);
    var key1 := Get64le(key, 1);
    assert key[8..16] == key[8..];
    KeyWords(key);
    var h := new Hasher(State(Xor(key0, 0x736f6d6570736575), Xor(key1, 0x646f72616e646f6d),
                              Xor(key0, 0x6c7967656e657261), Xor(key1, 0x7465646279746573)));
    assert h.S() == Initial(key) && Padded(data)[8 * 0..] == Padded(data);
    for i := 0 to |data| / 8
      invariant Words(h.S()) && Absorb(h.S(), Padded(data)[8 * i..]) == Absorb(Initial(key), Padded(data))
    {
      AbsorbBlock(h.S(), data, i);
      var m := Get64le(data, i);
      h.SipCompress2(m);
    }
    AbsorbLast(h.S(), data);
    var last := SipLast(data);
    h.SipCompress2(last);
    output := FinishRounds(h);
  }

  /** The end of siphash24, from v2 ^= 0xff on. */
  method FinishRounds(h: Hasher) returns (output: nat)
    requires Words(h.S())
    modifies h
    ensures output == Finish(old(h.S())) < W()
  {
    XorInWord(h.v2, 0xff);
    h.v2 := Xor(h.v2, 0xff);
    h.SipRound();
    h.SipRound();
    h.SipRound();
    h.SipRound();
    XorInWord(h.v0, h.v1);
    XorInWord(Xor(h.v0, h.v1), h.v2);
    XorInWord(Xor(Xor(h.v0, h.v1), h.v2), h.v3);
    var bytes := new Byte[8];
    var v := Xor(Xor(Xor(h.v0, h.v1), h.v2), h.v3);
    Put64le(v, bytes);
    output := ReadWord(bytes[..]);
  }

  // ---------------------------------------------------------------- third-party/csiphash/csiphash.c

  /** _le64toh of eight bytes in memory. */
  function ReadWord(b: seq<Byte>): nat
    requires |b| == 8
  {
    Little(b)
  }

  /** The switch, which falls through: the bytes of t. */
  method Tail(m: seq<Byte>) returns (pt: seq<Byte>)
    requires |m| < 8
    ensures pt == m + Zeros(8 - |m|)
  {
    pt := Zeros(8);
    if |m| >= 7 { pt := pt[6 := m[6]]; }
    if |m| >= 6 { pt := pt[5 := m[5]]; }
    if |m| >= 5 { pt := pt[4 := m[4]]; }
    if |m| >= 4 {
      pt := m[..4] + pt[4..];
    } else {
      if |m| >= 3 { pt := pt[2 := m[2]]; }
      if |m| >= 2 { pt := pt[1 := m[1]]; }
      if |m| >= 1 { pt := pt[0 := m[0]]; }
    }
  }

  /** The length, shifted to the top byte: only its low eight bits stay. */
  lemma LengthByte(size: nat, byte: nat, top: nat)
    requires byte == 8 && top == 7
    ensures (size * Place(top)) % W() == size % 256 * Place(top)
  {
    ShiftInWord(size, 8 * top, byte);
    assert Pow2(8) == 256;
  }

  /** b after the switch. */
  method LastWord(data: seq<Byte>) returns (b: nat)
    ensures b == Little(LastBlock(data)) < W()
  {
    var rest := RestOf(data);
    b := (|data| * Place(7)) % W();
    LengthByte(|data|, 8, 7);
    var t := Tail(rest);
    LittleZeros(rest, 8 - |rest|);
    OrLength(data, |data| % 256, 7);
    b := BitOr(b, ReadWord(t));
  }

  /** siphash24 of csiphash.c. */
  method CSipHash24(src: seq<Byte>, key: seq<Byte>) returns (output: nat)
    requires |key| == 16
    ensures output == Digest(key, src)
  {
    var k0, k1 := ReadWord(key[..8]), ReadWord(key[8..]);
    KeyWords(key);
    var h := new Hasher(State(Xor(k0, 0x736f6d6570736575), Xor(k1, 0x646f72616e646f6d),
                              Xor(k0, 0x6c7967656e657261), Xor(k1, 0x7465646279746573)));
    var at, srcSize := 0, |src|;
    assert Padded(src)[8 * 0..] == Padded(src);
    while srcSize >= 8
      invariant 8 * at + srcSize == |src| && at <= |src| / 8
      invariant Words(h.S()) && Absorb(h.S(), Padded(src)[8 * at..]) == Absorb(Initial(key), Padded(src))
      decreases srcSize
    {
      AbsorbBlock(h.S(), src, at);
      LittleInWord(src[8 * at..8 * at + 8]);
      var mi := ReadWord(src[8 * at..8 * at + 8]);
      at, srcSize := at + 1, srcSize - 8;
      h.DoubleCompress(mi);
    }
    assert at == |src| / 8;
    AbsorbLast(h.S(), src);
    var b := LastWord(src);
    h.DoubleCompress(b);
    output := FinishDouble(h);
  }

  /** The end of csiphash.c, from v2 ^= 0xff on. */
  method FinishDouble(h: Hasher) returns (output: nat)
    requires Words(h.S())
    modifies h
    ensures output == Finish(old(h.S()))
  {
    XorInWord(h.v2, 0xff);
    h.v2 := Xor(h.v2, 0xff);
    h.DoubleRound();
    h.DoubleRound();
    XorAssoc(Xor(h.v0, h.v1), h.v2, h.v3);
    output := Xor(Xor(h.v0, h.v1), Xor(h.v2, h.v3));
  }
}
