/**
 * The text encoding of source/BinaryToUTF8.cpp: groups of seven bits become characters, and a group of zeros
 * shares a two-byte character with the group after it, so that no byte of the text is zero.
 */
module BinaryToUTF8 {
  import opened Arith

  // ---------------------------------------------------------------- numbers and their bits, highest bit first

  ghost function BitsOf(v: nat, n: nat): (b: seq<bool>)
    ensures |b| == n
  {
    if n == 0 then [] else BitsOf(v / 2, n - 1) + [v % 2 == 1]
  }

  ghost function Num(b: seq<bool>): nat {
    if |b| == 0 then 0 else 2 * Num(b[..|b| - 1]) + (if b[|b| - 1] then 1 else 0)
  }

  lemma {:induction false} NumBelow(b: seq<bool>)
    ensures Num(b) < Pow2(|b|)
  {
    if |b| > 0 { NumBelow(b[..|b| - 1]); }
  }

  lemma {:induction false} NumOfBits(v: nat, n: nat)
    ensures Num(BitsOf(v, n)) == v % Pow2(n)
  {
    if n == 0 {
      DivModUnique(v, 1, v, 0);
    } else {
      var front := BitsOf(v / 2, n - 1);
      NumOfBits(v / 2, n - 1);
      assert BitsOf(v, n) == front + [v % 2 == 1];
      NumOfAppended(front, v % 2 == 1);
      HalveMod(v, Pow2(n - 1));
    }
  }

  lemma NumOfAppended(front: seq<bool>, last: bool)
    ensures Num(front + [last]) == 2 * Num(front) + (if last then 1 else 0)
  {
    assert (front + [last])[..|front|] == front;
  }

  lemma Halves(k: nat, last: bool)
    ensures var v := 2 * k + (if last then 1 else 0); v / 2 == k && (v % 2 == 1 <==> last)
  {}

  lemma {:induction false} BitsOfNum(b: seq<bool>)
    ensures BitsOf(Num(b), |b|) == b
  {
    if |b| > 0 {
      var front, last := b[..|b| - 1], b[|b| - 1];
      BitsOfNum(front);
      assert b == front + [last];
      Halves(Num(front), last);
      assert Num(b) / 2 == Num(front) && (Num(b) % 2 == 1 <==> last);
      assert BitsOf(Num(b), |b|) == BitsOf(Num(b) / 2, |b| - 1) + [Num(b) % 2 == 1];
    }
  }

  /** Bits above the ones asked for do not matter. */
  lemma {:induction false} BitsOfLow(v: nat, w: nat, n: nat)
    requires v % Pow2(n) == w % Pow2(n)
    ensures BitsOf(v, n) == BitsOf(w, n)
  {
    NumOfBits(v, n);
    NumOfBits(w, n);
    BitsOfNum(BitsOf(v, n));
    BitsOfNum(BitsOf(w, n));
  }

  lemma {:induction false} BitsOfJoin(v: nat, n: nat, w: nat, k: nat)
    requires w < Pow2(k)
    ensures BitsOf(v * Pow2(k) + w, n + k) == BitsOf(v, n) + BitsOf(w, k)
  {
    if k == 0 {
      assert v * Pow2(0) + w == v;
      assert BitsOf(v, n) + [] == BitsOf(v, n);
    } else {
      var x := v * Pow2(k - 1);
      assert v * Pow2(k) == 2 * x;
      BitsOfJoin(v, n, w / 2, k - 1);
      assert (BitsOf(v, n) + BitsOf(w / 2, k - 1)) + [w % 2 == 1] == BitsOf(v, n) + BitsOf(w, k);
    }
  }

  lemma SplitNumber(v: nat, k: nat)
    ensures v == ShiftRight(v, k) * Pow2(k) + LowBits(v, k)
    ensures LowBits(v, k) % Pow2(k) == v % Pow2(k)
  {
    DivMod(v, Pow2(k));
    ModSelf(v % Pow2(k), Pow2(k));
  }

  /** The upper of n + k bits are those of the number shifted down by k. */
  lemma BitsOfSplit(v: nat, n: nat, k: nat)
    ensures BitsOf(v, n + k) == BitsOf(ShiftRight(v, k), n) + BitsOf(v, k)
  {
    SplitNumber(v, k);
    BitsOfLow(LowBits(v, k), v, k);
    BitsOfJoin(ShiftRight(v, k), n, LowBits(v, k), k);
  }

  function Ones(n: nat): seq<bool> {
    seq(n, _ => true)
  }

  lemma {:induction false} NumOnes(n: nat)
    ensures Num(Ones(n)) == Pow2(n) - 1
  {
    if n > 0 {
      NumOnes(n - 1);
      assert Ones(n)[..n - 1] == Ones(n - 1);
    }
  }

  lemma Concat<T>(a: seq<T>, b: seq<T>, c: seq<T>)
    ensures (a + b) + c == a + (b + c)
  {}

  // ---------------------------------------------------------------- characters

  /** A character: one group, or a group of zeros followed by another one. */
  datatype Unit = One(v: nat) | Two(v: nat)

  function LeadByte(v: nat): nat {
    0xC2 + (v / 64) % 2
  }

  function TailByte(v: nat): nat {
    0x80 + v % 64
  }

  function UnitBytes(u: Unit): seq<nat> {
    match u
    case One(v) => [v]
    case Two(v) => [LeadByte(v), TailByte(v)]
  }

  function Text(units: seq<Unit>): seq<nat> {
    if |units| == 0 then [] else UnitBytes(units[0]) + Text(units[1..])
  }

  ghost function UnitBits(u: Unit): seq<bool> {
    match u
    case One(v) => BitsOf(v, 7)
    case Two(v) => BitsOf(0, 7) + BitsOf(v, 7)
  }

  ghost function Bits(units: seq<Unit>): seq<bool> {
    if |units| == 0 then [] else UnitBits(units[0]) + Bits(units[1..])
  }

  /** What the encoder makes of a bit string. */
  ghost function Encoding(b: seq<bool>): (units: seq<Unit>)
    decreases |b|
  {
    if |b| == 0 then []
    else if |b| < 7 then [One(Num(b + Ones(7 - |b|)))]
    else if Num(b[..7]) != 0 then [One(Num(b[..7]))] + Encoding(b[7..])
    else if |b| < 14 then [Two(Num(b[7..] + Ones(14 - |b|)))]
    else [Two(Num(b[7..14]))] + Encoding(b[14..])
  }

  /** A group fits seven bits, and is not zero in a one-byte character. */
  ghost predicate Proper(units: seq<Unit>) {
    forall u :: u in units ==> u.v < 128 && (u.One? ==> u.v > 0)
  }

  lemma EightBits()
    ensures Pow2(8) == 256
  {}

  lemma SevenBits()
    ensures Pow2(7) == 128
  {}

  /** A padded group ends in a one, so it is not zero. */
  lemma PaddedNotZero(b: seq<bool>, n: nat)
    requires n > 0
    ensures Num(b + Ones(n)) > 0
  {
    var c := b + Ones(n);
    assert c[|c| - 1];
  }

  lemma {:induction false} EncodingProper(b: seq<bool>)
    ensures Proper(Encoding(b))
    decreases |b|
  {
    SevenBits();
    if |b| == 0 {
    } else if |b| < 7 {
      NumBelow(b + Ones(7 - |b|));
      PaddedNotZero(b, 7 - |b|);
    } else if Num(b[..7]) != 0 {
      NumBelow(b[..7]);
      EncodingProper(b[7..]);
    } else if |b| < 14 {
      NumBelow(b[7..] + Ones(14 - |b|));
    } else {
      NumBelow(b[7..14]);
      EncodingProper(b[14..]);
    }
  }

  lemma ZeroGroup(b: seq<bool>)
    requires |b| == 7 && Num(b) == 0
    ensures b == BitsOf(0, 7)
  {
    BitsOfNum(b);
  }

  ghost predicate PaddedWithOnes(c: seq<bool>, b: seq<bool>) {
    |c| >= |b| && c == b + Ones(|c| - |b|)
  }

  lemma PaddedAfter(a: seq<bool>, c: seq<bool>, b: seq<bool>)
    requires PaddedWithOnes(c, b)
    ensures PaddedWithOnes(a + c, a + b)
  {}

  /** A unit that holds the first bits of a string, and units that hold the others. */
  lemma UnitKeepsBits(u: Unit, units: seq<Unit>, b: seq<bool>, k: nat)
    requires k <= |b| && UnitBits(u) == b[..k] && PaddedWithOnes(Bits(units), b[k..])
    ensures PaddedWithOnes(Bits([u] + units), b)
  {
    FirstUnit(u, units);
    PaddedAfter(b[..k], Bits(units), b[k..]);
    assert b == b[..k] + b[k..];
  }

  lemma PaddedGroup(b: seq<bool>)
    requires 0 < |b| < 7
    ensures PaddedWithOnes(Bits(Encoding(b)), b)
  {
    BitsOfNum(b + Ones(7 - |b|));
    OneUnit(One(Num(b + Ones(7 - |b|))));
  }

  lemma PaddedSecondGroup(b: seq<bool>)
    requires 7 <= |b| < 14 && Num(b[..7]) == 0
    ensures PaddedWithOnes(Bits(Encoding(b)), b)
  {
    var c := b[7..] + Ones(14 - |b|);
    ZeroGroup(b[..7]);
    BitsOfNum(c);
    OneUnit(Two(Num(c)));
    assert Bits(Encoding(b)) == b[..7] + c;
  }

  /** The characters hold the bit string and after it nothing but ones. */
  lemma {:induction false} EncodingKeepsBits(b: seq<bool>)
    ensures PaddedWithOnes(Bits(Encoding(b)), b)
    decreases |b|
  {
    if |b| == 0 {
    } else if |b| < 7 {
      PaddedGroup(b);
    } else if Num(b[..7]) != 0 {
      EncodingKeepsBits(b[7..]);
      BitsOfNum(b[..7]);
      UnitKeepsBits(One(Num(b[..7])), Encoding(b[7..]), b, 7);
    } else if |b| < 14 {
      PaddedSecondGroup(b);
    } else {
      EncodingKeepsBits(b[14..]);
      ZeroGroup(b[..7]);
      BitsOfNum(b[7..14]);
      assert b[..14] == b[..7] + b[7..14];
      UnitKeepsBits(Two(Num(b[7..14])), Encoding(b[14..]), b, 14);
    }
  }

  lemma OneUnit(u: Unit)
    ensures Bits([u]) == UnitBits(u)
  {
    assert Bits([u]) == UnitBits(u) + Bits([]);
  }

  lemma FirstUnit(u: Unit, units: seq<Unit>)
    ensures Bits([u] + units) == UnitBits(u) + Bits(units)
  {
    assert ([u] + units)[1..] == units;
  }

  // ---------------------------------------------------------------- the text

  // The grammar of section 4 of RFC 3629.
  predicate Tail(x: nat) { 0x80 <= x <= 0xBF }

  predicate Utf8Two(a: nat, b: nat) { 0xC2 <= a <= 0xDF && Tail(b) }

  predicate Utf8Three(a: nat, b: nat, c: nat) {
    && Tail(c)
    && (|| (a == 0xE0 && 0xA0 <= b <= 0xBF) || (0xE1 <= a <= 0xEC && Tail(b))
        || (a == 0xED && 0x80 <= b <= 0x9F) || (0xEE <= a <= 0xEF && Tail(b)))
  }

  predicate Utf8Four(a: nat, b: nat, c: nat, d: nat) {
    && Tail(c) && Tail(d)
    && (|| (a == 0xF0 && 0x90 <= b <= 0xBF) || (0xF1 <= a <= 0xF3 && Tail(b)) || (a == 0xF4 && 0x80 <= b <= 0x8F))
  }

  predicate IsUtf8(t: seq<nat>) {
    || |t| == 0
    || (t[0] <= 0x7F && IsUtf8(t[1..]))
    || (|t| >= 2 && Utf8Two(t[0], t[1]) && IsUtf8(t[2..]))
    || (|t| >= 3 && Utf8Three(t[0], t[1], t[2]) && IsUtf8(t[3..]))
    || (|t| >= 4 && Utf8Four(t[0], t[1], t[2], t[3]) && IsUtf8(t[4..]))
  }

  lemma {:induction false} TextIsUtf8(units: seq<Unit>)
    requires Proper(units)
    ensures IsUtf8(Text(units)) && forall x :: x in Text(units) ==> 0 < x < 256
  {
    if |units| > 0 {
      var u, rest := units[0], Text(units[1..]);
      assert u in units;
      TextIsUtf8(units[1..]);
      var t := UnitBytes(u) + rest;
      assert if u.One? then t[1..] == rest else t[2..] == rest;
      assert forall x :: x in UnitBytes(u) ==> 0 < x < 256;
    }
  }

  /** The last full group is zero, and has no group before it that it shares a character with. */
  ghost predicate LastGroupAlone(b: seq<bool>)
    decreases |b|
  {
    if |b| < 7 then false
    else if Num(b[..7]) != 0 then LastGroupAlone(b[7..])
    else |b| == 7 || (|b| >= 14 && LastGroupAlone(b[14..]))
  }

  lemma {:induction false} LastGroupIsFull(b: seq<bool>)
    requires LastGroupAlone(b)
    ensures |b| > 0 && |b| % 7 == 0
    decreases |b|
  {
    if Num(b[..7]) != 0 { LastGroupIsFull(b[7..]); } else if |b| >= 14 { LastGroupIsFull(b[14..]); }
  }

  /** It does occur: seven bits that are zero become a character of two bytes. */
  lemma ZeroGroupIsLonger()
    ensures LastGroupAlone(InputBits([0], 7)) && |Text(Encoding(InputBits([0], 7)))| == 2
  {
    assert InputBits([0], 7) == BitsOf(0, 7) == BitsOf(0, 7)[..7];
    NumOfBits(0, 7);
    ModSelf(0, Pow2(7));
    EncodingLength(InputBits([0], 7));
  }

  /** The length of the text: a byte for every group, and one more when the last group is alone. */
  lemma {:induction false} EncodingLength(b: seq<bool>)
    ensures |Text(Encoding(b))| == (|b| + 6) / 7 + (if LastGroupAlone(b) then 1 else 0)
    decreases |b|
  {
    if |b| == 0 {
    } else if |b| < 7 {
      OneText(One(Num(b + Ones(7 - |b|))), []);
    } else if Num(b[..7]) != 0 {
      EncodingLength(b[7..]);
      OneText(One(Num(b[..7])), Encoding(b[7..]));
    } else if |b| < 14 {
      OneText(Two(Num(b[7..] + Ones(14 - |b|))), []);
    } else {
      EncodingLength(b[14..]);
      OneText(Two(Num(b[7..14])), Encoding(b[14..]));
    }
  }

  lemma OneText(u: Unit, units: seq<Unit>)
    ensures Text([u] + units) == UnitBytes(u) + Text(units)
  {
    assert ([u] + units)[1..] == units;
  }

  lemma {:induction false} TextAppend(units: seq<Unit>, u: Unit)
    ensures Text(units + [u]) == Text(units) + UnitBytes(u)
  {
    if |units| == 0 {
      OneText(u, []);
      assert [] + [u] == [u] + [];
    } else {
      TextAppend(units[1..], u);
      assert (units + [u])[1..] == units[1..] + [u];
    }
  }

  // ---------------------------------------------------------------- decoding

  /** The byte at position i of a string, which ends in a zero byte. */
  function CharAt(t: seq<nat>, i: nat): nat {
    if i < |t| then t[i] else 0
  }

  /** The two top bits are set. */
  predicate IsLead(x: nat) {
    (x / 64) % 4 == 3
  }

  /** The group that the decoder finds in the two bytes of a character. */
  function Joined(lead: nat, tail: nat): nat {
    (lead % 2) * 64 + tail % 64
  }

  /** The bits that the decoder collects from a text. */
  ghost function Payload(t: seq<nat>): seq<bool> {
    if |t| == 0 then []
    else if IsLead(t[0]) then
      UnitBits(Two(Joined(t[0], CharAt(t, 1)))) + (if |t| == 1 then [] else Payload(t[2..]))
    else UnitBits(One(t[0] % 128)) + Payload(t[1..])
  }

  /** Bytes of eight bits each, and a last one for the bits that are left. */
  ghost function Chunks(b: seq<bool>): seq<nat> {
    if |b| == 0 then [] else if |b| < 8 then [Num(b)] else [Num(b[..8])] + Chunks(b[8..])
  }

  lemma TwoBytesRead(v: nat)
    requires v < 128
    ensures IsLead(LeadByte(v)) && Joined(LeadByte(v), TailByte(v)) == v
  {}

  lemma PayloadOfOne(v: nat, rest: seq<nat>)
    requires v < 128
    ensures Payload([v] + rest) == UnitBits(One(v)) + Payload(rest)
  {
    var t := [v] + rest;
    assert t[1..] == rest && !IsLead(v) && v % 128 == v;
  }

  lemma PayloadOfTwo(v: nat, rest: seq<nat>, a: nat, b: nat)
    requires IsLead(a) && Joined(a, b) == v
    ensures Payload([a, b] + rest) == UnitBits(Two(v)) + Payload(rest)
  {
    var t := [a, b] + rest;
    assert t[2..] == rest && t[0] == a && CharAt(t, 1) == b;
  }

  lemma PayloadOfUnit(u: Unit, rest: seq<nat>)
    requires u.v < 128
    ensures Payload(UnitBytes(u) + rest) == UnitBits(u) + Payload(rest)
  {
    if u.One? {
      PayloadOfOne(u.v, rest);
    } else {
      TwoBytesRead(u.v);
      PayloadOfTwo(u.v, rest, LeadByte(u.v), TailByte(u.v));
    }
  }

  lemma {:induction false} PayloadOfText(units: seq<Unit>)
    requires Proper(units)
    ensures Payload(Text(units)) == Bits(units)
  {
    if |units| > 0 {
      assert units[0] in units;
      PayloadOfText(units[1..]);
      PayloadOfUnit(units[0], Text(units[1..]));
    }
  }

  /** The bits of the input: all of the full bytes, and the low bits of the last one. */
  ghost function InputBits(x: seq<nat>, length: nat): seq<bool>
    requires length <= 8 * |x|
  {
    if length < 8 then (if length == 0 then [] else BitsOf(x[0], length))
    else BitsOf(x[0], 8) + InputBits(x[1..], length - 8)
  }

  lemma {:induction false} InputBitsLength(x: seq<nat>, length: nat)
    requires length <= 8 * |x|
    ensures |InputBits(x, length)| == length
  {
    if length >= 8 { InputBitsLength(x[1..], length - 8); }
  }

  ghost predicate AllBytes(x: seq<nat>) {
    forall i {:trigger x[i]} :: 0 <= i < |x| ==> x[i] < 256
  }

  lemma {:induction false} ChunksOfInput(x: seq<nat>, length: nat, rest: seq<bool>)
    requires length <= 8 * |x| && AllBytes(x)
    ensures |Chunks(InputBits(x, length) + rest)| >= length / 8
    ensures Chunks(InputBits(x, length) + rest)[..length / 8] == x[..length / 8]
  {
    if length >= 8 {
      var b := InputBits(x, length) + rest;
      var tail := InputBits(x[1..], length - 8) + rest;
      assert b[..8] == BitsOf(x[0], 8) && b[8..] == tail;
      ByteOfBits(x[0]);
      ChunksOfInput(x[1..], length - 8, rest);
      assert x[..length / 8] == [x[0]] + x[1..][..(length - 8) / 8];
    }
  }

  lemma ByteOfBits(x: nat)
    requires x < 256
    ensures Num(BitsOf(x, 8)) == x
  {
    assert Pow2(8) == 256;
    NumOfBitsBelow(x, 8);
  }

  lemma NumOfBitsBelow(v: nat, n: nat)
    requires v < Pow2(n)
    ensures Num(BitsOf(v, n)) == v
  {
    NumOfBits(v, n);
    ModSelf(v, Pow2(n));
  }

  /** Decoding what was encoded gives back every full byte of the input. */
  lemma RoundTrip(x: seq<nat>, length: nat)
    requires length <= 8 * |x| && AllBytes(x)
    ensures var y := Chunks(Payload(Text(Encoding(InputBits(x, length)))));
      |y| >= length / 8 && y[..length / 8] == x[..length / 8]
  {
    var b := InputBits(x, length);
    EncodingProper(b);
    PayloadOfText(Encoding(b));
    EncodingKeepsBits(b);
    ChunksOfInput(x, length, Ones(|Bits(Encoding(b))| - |b|));
  }

  // ---------------------------------------------------------------- the shift register

  const WORD: nat := 0x1_0000_0000

  /**
   * Here and below a number that is passed in, although a precondition fixes it, keeps the verifier from unfolding a
   * recursive function as often as a literal would tell it to.
   */
  lemma WordIsPower(half: nat)
    requires half == 16
    ensures Pow2(half + half) == WORD
  {
    assert Pow2(8) == 256;
    Pow2Add(8, 8);
    Pow2Add(half, half);
  }

  lemma WordSplit(n: nat)
    requires n <= 32
    ensures Pow2(n) * Pow2(32 - n) == WORD
  {
    WordIsPower(16);
    Pow2Add(n, 32 - n);
  }

  lemma ModOfWord(y: nat, p: nat, q: nat)
    requires p > 0 && p * q == WORD
    ensures (y % WORD) % p == y % p
  {
    DivMod(y, WORD);
    MulAssoc(p, q, y / WORD);
    ModAddMultiple(y % WORD, q * (y / WORD), p);
  }

  lemma WrapBits(y: nat, n: nat)
    requires n <= 32
    ensures BitsOf(y % WORD, n) == BitsOf(y, n)
  {
    WordSplit(n);
    ModOfWord(y, Pow2(n), Pow2(32 - n));
    BitsOfLow(y % WORD, y, n);
  }

  /** Shifting k new bits into the register, on its 32 bits. */
  method Push(value: nat, ghost n: nat, w: nat, k: nat) returns (v: nat)
    requires w < Pow2(k) && n + k <= 32
    ensures v < WORD && BitsOf(v, n + k) == BitsOf(value, n) + BitsOf(w, k)
  {
    BitsOfJoin(value, n, w, k);
    WrapBits(value * Pow2(k) + w, n + k);
    v := (value * Pow2(k) + w) % WORD;
  }

  /** All the input has been taken, or a whole number of its bytes. */
  predicate AtByte(length: nat, pos: nat) {
    pos >= length || pos % 8 == 0
  }

  /** The input bits that have not been shifted in yet. */
  ghost function Rest(x: seq<nat>, length: nat, pos: nat): seq<bool>
    requires length <= 8 * |x| && AtByte(length, pos)
  {
    if pos >= length then [] else InputBits(x[pos / 8..], length - pos)
  }

  lemma FullByteNext(x: seq<nat>, length: nat, pos: nat, eight: nat)
    requires length <= 8 * |x| && AllBytes(x) && pos % 8 == 0 && pos + eight <= length && eight == 8
    ensures x[pos / 8] < Pow2(eight) && AtByte(length, pos + eight)
    ensures Rest(x, length, pos) == BitsOf(x[pos / 8], eight) + Rest(x, length, pos + eight)
  {
    var xs := x[pos / 8..];
    assert x[pos / 8] < 256 && Pow2(8) == 256;
    assert xs[0] == x[pos / 8] && xs[1..] == x[(pos + eight) / 8..];
    if pos + eight == length { assert InputBits(xs[1..], 0) == []; }
  }

  lemma LastBitsNext(x: seq<nat>, length: nat, pos: nat, w: nat, k: nat)
    requires length <= 8 * |x| && pos % 8 == 0 && pos < length && k == length - pos < 8
    requires w == LowBits(x[pos / 8], k)
    ensures w < Pow2(k) && Rest(x, length, pos) == BitsOf(w, k) + Rest(x, length, pos + k)
  {
    var xs := x[pos / 8..];
    assert xs[0] == x[pos / 8];
    SplitNumber(xs[0], k);
    BitsOfLow(w, xs[0], k);
  }

  lemma BitsNext(x: seq<nat>, length: nat, pos: nat, w: nat, k: nat)
    requires length <= 8 * |x| && AllBytes(x) && pos < length && pos % 8 == 0
    requires if length - pos > 7 then k == 8 && w == x[pos / 8] else k == length - pos && w == LowBits(x[pos / 8], k)
    ensures AtByte(length, pos + k) && w < Pow2(k) && Rest(x, length, pos) == BitsOf(w, k) + Rest(x, length, pos + k)
  {
    if length - pos > 7 { FullByteNext(x, length, pos, k); } else { LastBitsNext(x, length, pos, w, k); }
  }

  /** The next bits of the input: a full byte, or the last few bits. */
  method NextBits(x: seq<nat>, length: nat, pos: nat) returns (w: nat, k: nat)
    requires length <= 8 * |x| && AllBytes(x) && pos < length && pos % 8 == 0
    ensures 0 < k <= 8 && pos + k <= length && AtByte(length, pos + k) && w < Pow2(k)
    ensures Rest(x, length, pos) == BitsOf(w, k) + Rest(x, length, pos + k)
  {
    var remaining := length - pos;
    if remaining >= 8 {
      w, k := x[pos / 8], 8;
    } else {
      w, k := LowBits(x[pos / 8], remaining), remaining;
    }
    BitsNext(x, length, pos, w, k);
  }

  /** One round of filling the register. */
  method Shift(value: nat, n: nat, x: seq<nat>, length: nat, pos: nat) returns (value': nat, n': nat, pos': nat)
    requires length <= 8 * |x| && AllBytes(x) && pos < length && pos % 8 == 0 && n < 14
    ensures pos < pos' <= length && AtByte(length, pos') && n' == n + (pos' - pos) <= 21
    ensures BitsOf(value', n') + Rest(x, length, pos') == BitsOf(value, n) + Rest(x, length, pos)
  {
    var w, k := NextBits(x, length, pos);
    value' := Push(value, n, w, k);
    n', pos' := n + k, pos + k;
    Concat(BitsOf(value, n), BitsOf(w, k), Rest(x, length, pos'));
  }

  /** The loop that adds bytes to the register as necessary. */
  method Fill(value0: nat, n0: nat, x: seq<nat>, length: nat, pos0: nat) returns (value: nat, n: nat, pos: nat)
    requires length <= 8 * |x| && AllBytes(x) && AtByte(length, pos0) && n0 <= 21
    ensures (pos >= length || (pos % 8 == 0 && n >= 14)) && n <= 21
    ensures BitsOf(value, n) + Rest(x, length, pos) == BitsOf(value0, n0) + Rest(x, length, pos0)
  {
    value, n, pos := value0, n0, pos0;
    while pos < length && n < 14
      invariant AtByte(length, pos) && n <= 21
      invariant BitsOf(value, n) + Rest(x, length, pos) == BitsOf(value0, n0) + Rest(x, length, pos0)
      decreases length - pos
    {
      value, n, pos := Shift(value, n, x, length, pos);
    }
  }

  lemma FirstBits(value: nat, n: nat, rest: seq<bool>, k: nat)
    requires n >= k
    ensures var b := BitsOf(value, n) + rest;
      Num(b[..k]) == ShiftRight(value, n - k) % Pow2(k) && b[k..] == BitsOf(value, n - k) + rest
  {
    var b := BitsOf(value, n) + rest;
    BitsOfSplit(value, k, n - k);
    NumOfBits(ShiftRight(value, n - k), k);
    assert b[..k] == BitsOf(ShiftRight(value, n - k), k);
  }

  /** The next seven bits of the register. */
  method Take(value: nat, n: nat, ghost rest: seq<bool>) returns (group: nat, n': nat)
    requires n >= 7
    ensures n' == n - 7
    ensures var b := BitsOf(value, n) + rest; group == Num(b[..7]) && b[7..] == BitsOf(value, n') + rest
  {
    SevenBits();
    FirstBits(value, n, rest, 7);
    n' := n - 7;
    group := ShiftRight(value, n') % 128;
  }

  /** The last bits of the register, padded with ones to a group. */
  method Pad(value: nat, n: nat) returns (group: nat)
    requires n < 7
    ensures group % 128 == Num(BitsOf(value, n) + Ones(7 - n))
  {
    var padding := 7 - n;
    NumOnes(padding);
    BitsOfNum(Ones(padding));
    NumBelow(Ones(padding));
    BitsOfJoin(value, n, Pow2(padding) - 1, padding);
    NumOfBits(value * Pow2(padding) + (Pow2(padding) - 1), 7);
    SevenBits();
    group := value * Pow2(padding) + (Pow2(padding) - 1);
  }

  /** The next character, from a register that holds two groups or all the bits that are left. */
  method NextUnit(value: nat, n0: nat, ghost rest: seq<bool>) returns (toEncode: nat, two: bool, n: nat)
    requires n0 > 0 && (n0 >= 14 || rest == [])
    ensures n < n0 && (!two ==> 0 < toEncode < 128)
    ensures var u := if two then Two(toEncode % 128) else One(toEncode);
      Encoding(BitsOf(value, n0) + rest) == [u] + Encoding(BitsOf(value, n) + rest)
  {
    n := n0;
    if n >= 7 {
      toEncode, n := Take(value, n, rest);
      NumBelow((BitsOf(value, n0) + rest)[..7]);
      SevenBits();
    } else {
      PaddedNotZero(BitsOf(value, n), 7 - n);
      assert BitsOf(value, n) + rest == BitsOf(value, n);
      toEncode := Pad(value, n);
      toEncode := toEncode % 128;
      n := 0;
    }
    two := toEncode == 0;
    if two { toEncode, n := SecondGroup(value, n0, n, rest); }
  }

  /** The group that shares a character with a group of zeros. */
  method SecondGroup(value: nat, ghost n0: nat, n1: nat, ghost rest: seq<bool>) returns (toEncode: nat, n: nat)
    requires n0 == n1 + 7 && (n1 >= 7 || rest == [])
    requires Num((BitsOf(value, n0) + rest)[..7]) == 0
    requires (BitsOf(value, n0) + rest)[7..] == BitsOf(value, n1) + rest
    ensures n <= n1
    ensures Encoding(BitsOf(value, n0) + rest) == [Two(toEncode % 128)] + Encoding(BitsOf(value, n) + rest)
  {
    ghost var b := BitsOf(value, n0) + rest;
    if n1 < 7 {
      assert b[7..] == BitsOf(value, n1);
      toEncode := Pad(value, n1);
      n := 0;
    } else {
      toEncode, n := Take(value, n1, rest);
      assert b[7..14] == b[7..][..7] && b[14..] == b[7..][7..];
      NumBelow(b[7..14]);
      SevenBits();
      ModSelf(toEncode, 128);
    }
  }

  lemma {:induction false} TextJoin(a: seq<Unit>, c: seq<Unit>)
    ensures Text(a + c) == Text(a) + Text(c)
  {
    if |a| == 0 {
      assert a + c == c && Text(a) == [];
    } else {
      TextJoin(a[1..], c);
      assert a + c == [a[0]] + (a[1..] + c);
      OneText(a[0], a[1..] + c);
      Concat(UnitBytes(a[0]), Text(a[1..]), Text(c));
    }
  }

  lemma Resume(all: seq<Unit>, units: seq<Unit>, u: Unit, rest: seq<Unit>)
    requires all == units + ([u] + rest)
    ensures all == (units + [u]) + rest
    ensures Text(units + [u]) == Text(units) + UnitBytes(u)
    ensures |Text(units)| + |UnitBytes(u)| <= |Text(all)|
  {
    TextAppend(units, u);
    Concat(units, [u], rest);
    JoinIsLonger(units + [u], rest);
  }

  lemma JoinIsLonger(a: seq<Unit>, b: seq<Unit>)
    ensures |Text(a)| <= |Text(a + b)|
  {
    TextJoin(a, b);
  }

  /** The buffer starts with the text of some characters, and is as before after that. */
  ghost predicate Written(now: seq<nat>, before: seq<nat>, units: seq<Unit>, pos: nat) {
    pos == |Text(units)| <= |before| && now == Text(units) + before[pos..]
  }

  lemma TwoBytes(v: nat)
    ensures LeadByte(v % 128) == LeadByte(v) && TailByte(v % 128) == TailByte(v)
  {}

  lemma WrittenOn(after: seq<nat>, now: seq<nat>, before: seq<nat>, units: seq<Unit>, u: Unit, pos: nat)
    requires Written(now, before, units, pos) && Text(units + [u]) == Text(units) + UnitBytes(u)
    requires |before| == |now| == |after| && pos + |UnitBytes(u)| <= |now|
    requires after[..pos] == now[..pos] && after[pos..pos + |UnitBytes(u)|] == UnitBytes(u)
    requires after[pos + |UnitBytes(u)|..] == now[pos + |UnitBytes(u)|..]
    ensures Written(after, before, units + [u], pos + |UnitBytes(u)|)
  {
    var next := pos + |UnitBytes(u)|;
    assert now[..pos] == Text(units) && now[next..] == before[next..];
    assert after == after[..pos] + after[pos..next] + after[next..];
  }

  /** The bytes of one character. */
  method Write(output: array<nat>, pos: nat, toEncode: nat, two: bool, ghost before: seq<nat>, ghost units: seq<Unit>)
    returns (pos': nat)
    requires var u := if two then Two(toEncode % 128) else One(toEncode);
      pos + |UnitBytes(u)| <= output.Length && Text(units + [u]) == Text(units) + UnitBytes(u)
    requires |before| == output.Length && Written(output[..], before, units, pos)
    modifies output
    ensures var u := if two then Two(toEncode % 128) else One(toEncode);
      Written(output[..], before, units + [u], pos')
  {
    ghost var now := output[..];
    if two {
      TwoBytes(toEncode);
      output[pos] := LeadByte(toEncode);
      output[pos + 1] := TailByte(toEncode);
      pos' := pos + 2;
      WrittenOn(output[..], now, before, units, Two(toEncode % 128), pos);
    } else {
      output[pos] := toEncode;
      pos' := pos + 1;
      WrittenOn(output[..], now, before, units, One(toEncode), pos);
    }
  }

  /** The bits that have not been encoded yet: those in the register and those of the input after them. */
  ghost function Pending(value: nat, n: nat, x: seq<nat>, length: nat, pos: nat): seq<bool>
    requires length <= 8 * |x| && AtByte(length, pos)
  {
    BitsOf(value, n) + Rest(x, length, pos)
  }

  /** One round of the main loop, up to the character that it makes. */
  method NextCharacter(value0: nat, n0: nat, x: seq<nat>, length: nat, pos0: nat)
    returns (toEncode: nat, two: bool, value: nat, n: nat, pos: nat)
    requires length <= 8 * |x| && AllBytes(x) && AtByte(length, pos0) && n0 <= 21
    requires pos0 < length || n0 > 0
    ensures AtByte(length, pos) && n <= 21 && (!two ==> 0 < toEncode < 128)
    ensures var u := if two then Two(toEncode % 128) else One(toEncode);
      Encoding(Pending(value0, n0, x, length, pos0)) == [u] + Encoding(Pending(value, n, x, length, pos))
    ensures |Pending(value, n, x, length, pos)| < |Pending(value0, n0, x, length, pos0)|
  {
    RestLength(x, length, pos0);
    value, n, pos := Fill(value0, n0, x, length, pos0);
    toEncode, two, n := NextUnit(value, n, Rest(x, length, pos));
  }

  /** BinaryToUTF8::encode, into a buffer that has room for the text. */
  method Encode(output: array<nat>, input: seq<nat>, length: nat) returns (outputPos: nat)
    requires length <= 8 * |input| && AllBytes(input)
    requires |Text(Encoding(InputBits(input, length)))| <= output.Length
    modifies output
    ensures outputPos == |Text(Encoding(InputBits(input, length)))|
    ensures output[..] == Text(Encoding(InputBits(input, length))) + old(output[outputPos..])
  {
    var value: nat, numValueBits: nat, inputPos: nat := 0, 0, 0;
    outputPos := 0;
    ghost var all, units, before := Encoding(InputBits(input, length)), [], output[..];
    assert Pending(value, 0, input, length, 0) == InputBits(input, length);
    while inputPos < length || numValueBits > 0
      invariant AtByte(length, inputPos) && numValueBits <= 21
      invariant all == units + Encoding(Pending(value, numValueBits, input, length, inputPos))
      invariant |before| == output.Length && Written(output[..], before, units, outputPos)
      decreases |Pending(value, numValueBits, input, length, inputPos)|
    {
      var toEncode, two;
      toEncode, two, value, numValueBits, inputPos := NextCharacter(value, numValueBits, input, length, inputPos);
      ghost var u := if two then Two(toEncode % 128) else One(toEncode);
      Resume(all, units, u, Encoding(Pending(value, numValueBits, input, length, inputPos)));
      outputPos := Write(output, outputPos, toEncode, two, before, units);
      units := units + [u];
    }
    assert units + Encoding([]) == units;
  }

  lemma RestLength(x: seq<nat>, length: nat, pos: nat)
    requires length <= 8 * |x| && AtByte(length, pos)
    ensures |Rest(x, length, pos)| == if pos >= length then 0 else length - pos
  {
    if pos < length { InputBitsLength(x[pos / 8..], length - pos); }
  }

  /** What the decoder still has to collect, from position i on. */
  ghost function After(input: seq<nat>, i: nat): seq<bool> {
    if i < |input| then Payload(input[i..]) else []
  }

  /** The bits of a character as those of one number. */
  lemma TwoGroups(w: nat, bits: nat)
    requires w < 128 && bits == 14
    ensures UnitBits(Two(w)) == BitsOf(w, bits)
  {
    SevenBits();
    BitsOfJoin(0, 7, w, 7);
  }

  lemma OneGroup(w: nat, bits: nat)
    requires bits == 7
    ensures UnitBits(One(w)) == BitsOf(w, bits)
  {}

  lemma AfterLead(input: seq<nat>, i: nat)
    requires i < |input| && IsLead(input[i])
    ensures After(input, i) == UnitBits(Two(Joined(input[i], CharAt(input, i + 1)))) + After(input, i + 2)
  {
    var t, u := input[i..], Two(Joined(input[i], CharAt(input, i + 1)));
    assert t[0] == input[i] && CharAt(t, 1) == CharAt(input, i + 1);
    if |t| == 1 {
      assert Payload(t) == UnitBits(u) + [];
    } else {
      assert Payload(t) == UnitBits(u) + Payload(t[2..]);
      assert t[2..] == input[i + 2..];
    }
  }

  lemma AfterSingle(input: seq<nat>, i: nat)
    requires i < |input| && !IsLead(input[i])
    ensures After(input, i) == UnitBits(One(input[i] % 128)) + After(input, i + 1)
  {
    assert input[i..][1..] == input[i + 1..];
  }

  /** One character of the decoder: how many bytes it takes, and the bits that it holds. */
  method ReadUnit(input: seq<nat>, i: nat) returns (w: nat, bits: nat, i': nat)
    requires i < |input|
    ensures i < i' && (bits == 7 || bits == 14) && w < Pow2(bits)
    ensures After(input, i) == BitsOf(w, bits) + After(input, i')
  {
    if IsLead(input[i]) {
      w, bits, i' := Joined(input[i], CharAt(input, i + 1)), 14, i + 2;
      AfterLead(input, i);
      TwoGroups(w, bits);
    } else {
      w, bits, i' := input[i] % 128, 7, i + 1;
      AfterSingle(input, i);
      OneGroup(w, bits);
    }
    GroupFits(w, bits);
  }

  lemma GroupFits(w: nat, bits: nat)
    requires w < 128 && (bits == 7 || bits == 14)
    ensures w < Pow2(bits)
  {
    SevenBits();
    Pow2Add(7, 7);
  }

  /** The first full byte of the register. */
  lemma FirstByte(value: nat, n: nat, rest: seq<bool>)
    requires n >= 8
    ensures Chunks(BitsOf(value, n) + rest) == [ShiftRight(value, n - 8) % 256] + Chunks(BitsOf(value, n - 8) + rest)
  {
    EightBits();
    FirstBits(value, n, rest, 8);
  }

  /** The output up to pos, with the bytes that are still to come, is the goal; after pos it is as before. */
  ghost predicate Progress(now: seq<nat>, before: seq<nat>, pos: nat, left: seq<nat>, goal: seq<nat>) {
    && pos + |left| == |goal| <= |now| == |before|
    && now[..pos] + left == goal && now[pos..] == before[pos..]
  }

  lemma Emit(now: seq<nat>, before: seq<nat>, pos: nat, byte: nat, left: seq<nat>, goal: seq<nat>)
    requires Progress(now, before, pos, [byte] + left, goal)
    ensures pos < |now| && Progress(now[pos := byte], before, pos + 1, left, goal)
  {
    var after := now[pos := byte];
    assert after[..pos + 1] == now[..pos] + [byte];
    assert after[pos + 1..] == now[pos..][1..];
    assert before[pos + 1..] == before[pos..][1..];
  }

  /** The loop that copies whole bytes to the output. */
  method Flush(output: array<nat>, outputPos0: nat, value: nat, n0: nat, ghost rest: seq<bool>, ghost before: seq<nat>,
               ghost goal: seq<nat>)
    returns (outputPos: nat, n: nat)
    requires Progress(output[..], before, outputPos0, Chunks(BitsOf(value, n0) + rest), goal)
    modifies output
    ensures n < 8 && Progress(output[..], before, outputPos, Chunks(BitsOf(value, n) + rest), goal)
  {
    outputPos, n := outputPos0, n0;
    while n >= 8
      invariant Progress(output[..], before, outputPos, Chunks(BitsOf(value, n) + rest), goal)
      decreases n
    {
      FirstByte(value, n, rest);
      n := n - 8;
      var byte: nat := ShiftRight(value, n) % 256;
      Emit(output[..], before, outputPos, byte, Chunks(BitsOf(value, n) + rest), goal);
      ghost var now := output[..];
      output[outputPos] := byte;
      assert output[..] == now[outputPos := byte];
      outputPos := outputPos + 1;
    }
  }

  lemma LastChunk(value: nat, n: nat)
    requires 0 < n < 8
    ensures Chunks(BitsOf(value, n)) == [LowBits(value, n)] + []
  {
    NumOfBits(value, n);
  }

  /** The last byte, for the bits that do not fill one. */
  method LastByte(output: array<nat>, outputPos0: nat, value: nat, n: nat, ghost before: seq<nat>, ghost goal: seq<nat>)
    returns (outputPos: nat)
    requires n < 8 && Progress(output[..], before, outputPos0, Chunks(BitsOf(value, n)), goal)
    modifies output
    ensures Progress(output[..], before, outputPos, [], goal)
  {
    outputPos := outputPos0;
    if n > 0 {
      LastChunk(value, n);
      Emit(output[..], before, outputPos, LowBits(value, n), [], goal);
      ghost var now := output[..];
      output[outputPos] := LowBits(value, n);
      assert output[..] == now[outputPos := LowBits(value, n)];
      outputPos := outputPos + 1;
    }
  }

  /** The bytes that are still to come, given the register and the input from position i on. */
  ghost function Remaining(value: nat, n: nat, input: seq<nat>, i: nat): seq<nat> {
    Chunks(BitsOf(value, n) + After(input, i))
  }

  /** One round of the decoder: a character is read, and the whole bytes go to the output. */
  method DecodeCharacter(output: array<nat>, outputPos0: nat, value0: nat, n0: nat, input: seq<nat>, i0: nat,
                         ghost before: seq<nat>, ghost goal: seq<nat>)
    returns (outputPos: nat, value: nat, n: nat, i: nat)
    requires i0 < |input| && n0 <= 7 && Progress(output[..], before, outputPos0, Remaining(value0, n0, input, i0), goal)
    modifies output
    ensures i0 < i && n <= 7 && Progress(output[..], before, outputPos, Remaining(value, n, input, i), goal)
  {
    var w, bits;
    w, bits, i := ReadUnit(input, i0);
    Concat(BitsOf(value0, n0), BitsOf(w, bits), After(input, i));
    value := Push(value0, n0, w, bits);
    outputPos, n := Flush(output, outputPos0, value, n0 + bits, After(input, i), before, goal);
  }

  lemma Start(input: seq<nat>)
    ensures Remaining(0, 0, input, 0) == Chunks(Payload(input))
  {
    assert input[0..] == input && BitsOf(0, 0) + After(input, 0) == Payload(input);
  }

  /** BinaryToUTF8::decode of a string, into a buffer that has room for the bytes. */
  method Decode(output: array<nat>, input: seq<nat>) returns (outputPos: nat)
    requires |Chunks(Payload(input))| <= output.Length
    modifies output
    ensures outputPos == |Chunks(Payload(input))|
    ensures output[..] == Chunks(Payload(input)) + old(output[outputPos..])
  {
    var value: nat, numValueBits: nat, i: nat := 0, 0, 0;
    outputPos := 0;
    ghost var goal, before := Chunks(Payload(input)), output[..];
    Start(input);
    assert before[..0] + goal == goal;
    while i < |input|
      invariant numValueBits <= 7
      invariant Progress(output[..], before, outputPos, Remaining(value, numValueBits, input, i), goal)
      decreases |input| - i
    {
      outputPos, value, numValueBits, i :=
        DecodeCharacter(output, outputPos, value, numValueBits, input, i, before, goal);
    }
    assert BitsOf(value, numValueBits) + [] == BitsOf(value, numValueBits);
    outputPos := LastByte(output, outputPos, value, numValueBits, before, goal);
    Complete(output[..], before, outputPos, goal);
  }

  lemma Complete(now: seq<nat>, before: seq<nat>, pos: nat, goal: seq<nat>)
    requires Progress(now, before, pos, [], goal)
    ensures pos == |goal| && now == goal + before[pos..]
  {
    assert now == now[..pos] + now[pos..];
  }
}
