/**
 * Device addresses, source/Address.cpp: two halves, each with a checksum in the low half of its last byte. When the
 * epoch changes, the first half of the address becomes its second half. Random bytes come in as parameters.
 */
module Address {

  type Byte = bv8

  /** An address has two halves of the same length, which is not zero. */
  type Address = a: seq<Byte> | |a| >= 2 && |a| % 2 == 0 witness [0, 0]

  function First(a: Address): (h: seq<Byte>)
    ensures |h| > 0 && 2 * |h| == |a|
  {
    a[..|a| / 2]
  }

  function Second(a: Address): (h: seq<Byte>)
    ensures 2 * |h| == |a|
  {
    a[|a| / 2..]
  }

  // ---------------------------------------------------------------- checksums

  function Nibbles(x: Byte): Byte {
    (x >> 4) + (x & 0x0F)
  }

  /** The sum of the half bytes, which wraps around. */
  function NibbleSum(part: seq<Byte>): Byte {
    if |part| == 0 then 0 else NibbleSum(part[..|part| - 1]) + Nibbles(part[|part| - 1])
  }

  /** The sum of all half bytes but the last one, where the checksum is. */
  function Checksum(part: seq<Byte>): Byte
    requires |part| > 0
  {
    (NibbleSum(part[..|part| - 1]) + (part[|part| - 1] >> 4)) & 0x0F
  }

  lemma SumStep(part: seq<Byte>, i: nat)
    requires i < |part|
    ensures NibbleSum(part[..i + 1]) == NibbleSum(part[..i]) + Nibbles(part[i])
  {
    assert part[..i + 1][..i] == part[..i];
  }

  /** The sum of the half bytes as a number, which does not wrap around. */
  function HalfByteSum(part: seq<Byte>): nat {
    if |part| == 0 then 0 else HalfByteSum(part[..|part| - 1]) + BothHalves(part[|part| - 1])
  }

  function BothHalves(x: Byte): nat {
    x as nat / 16 + x as nat % 16
  }

  function Low(x: Byte): bv4 {
    (x & 0x0F) as bv4
  }

  lemma HalfBytes(x: Byte)
    ensures (x >> 4) as nat == x as nat / 16 && (x & 0x0F) as nat == x as nat % 16 == Low(x) as nat
  {}

  lemma LowSum(x: Byte, y: Byte)
    ensures Low(x + y) == Low(x) + Low(y)
  {}

  lemma WrappedSum(a: bv4, b: bv4)
    ensures (a + b) as nat == if a as nat + b as nat < 16 then a as nat + b as nat else a as nat + b as nat - 16
  {}

  lemma SumModulo(sum: nat, x: nat, y: nat, s: nat)
    requires sum % 16 == if x % 16 + y % 16 < 16 then x % 16 + y % 16 else x % 16 + y % 16 - 16
    requires x % 16 == s % 16
    ensures sum % 16 == (s + y) % 16
  {}

  /** A byte is added to a sum that may have wrapped around. */
  lemma AddedByte(x: Byte, y: Byte, s: nat)
    requires x as nat % 16 == s % 16
    ensures (x + y) as nat % 16 == (s + y as nat) % 16
  {
    HalfBytes(x);
    HalfBytes(y);
    HalfBytes(x + y);
    LowSum(x, y);
    WrappedSum(Low(x), Low(y));
    SumModulo((x + y) as nat, x as nat, y as nat, s);
  }

  lemma NibblesIs(x: Byte)
    ensures Nibbles(x) as nat % 16 == BothHalves(x) % 16
  {
    HalfBytes(x);
    AddedByte(x >> 4, x & 0x0F, x as nat / 16);
  }

  lemma SameModulo(sum: nat, s: nat, a: nat, b: nat)
    requires a % 16 == b % 16 && sum % 16 == (s + a) % 16
    ensures sum % 16 == (s + b) % 16
  {
    var k := a / 16 - b / 16;
    assert s + a == s + b + 16 * k;
    SixteensAdded(s + b, k);
  }

  lemma SixteensAdded(x: nat, k: int)
    ensures (x + 16 * k) % 16 == x % 16
  {}

  predicate SameModulo16(x: Byte, n: nat) {
    x as nat % 16 == n % 16
  }

  lemma AddedNibbles(sum: Byte, x: Byte, s: nat)
    requires SameModulo16(sum, s)
    ensures SameModulo16(sum + Nibbles(x), s + BothHalves(x))
  {
    AddedByte(sum, Nibbles(x), s);
    NibblesIs(x);
    SameModulo((sum + Nibbles(x)) as nat, s, Nibbles(x) as nat, BothHalves(x));
  }

  lemma Upper(x: Byte)
    ensures (x >> 4) as nat == x as nat / 16
  {}

  lemma AddedUpper(sum: Byte, x: Byte, s: nat)
    requires sum as nat % 16 == s % 16
    ensures (sum + (x >> 4)) as nat % 16 == (s + x as nat / 16) % 16
  {
    AddedByte(sum, x >> 4, s);
    Upper(x);
  }

  lemma {:induction false} WrappedHalfByteSum(part: seq<Byte>)
    ensures SameModulo16(NibbleSum(part), HalfByteSum(part))
  {
    if |part| > 0 {
      var front, last := part[..|part| - 1], part[|part| - 1];
      WrappedHalfByteSum(front);
      AddedNibbles(NibbleSum(front), last, HalfByteSum(front));
    } else {
      assert NibbleSum(part) == 0 && HalfByteSum(part) == 0;
    }
  }

  /** The checksum is the sum of all half bytes but the last one, modulo 16. */
  lemma ChecksumIsSum(part: seq<Byte>)
    requires |part| > 0
    ensures Checksum(part) as nat == (HalfByteSum(part[..|part| - 1]) + part[|part| - 1] as nat / 16) % 16
  {
    var front, last := part[..|part| - 1], part[|part| - 1];
    WrappedHalfByteSum(front);
    AddedUpper(NibbleSum(front), last, HalfByteSum(front));
    HalfBytes(NibbleSum(front) + (last >> 4));
  }

  /** computeChecksum. */
  method ComputeChecksum(part: seq<Byte>) returns (r: Byte)
    requires |part| > 0
    ensures r == Checksum(part)
  {
    var checksum: Byte := 0;
    var i := 0;
    while i < |part| - 1
      invariant 0 <= i <= |part| - 1 && checksum == NibbleSum(part[..i])
    {
      SumStep(part, i);
      checksum := checksum + Nibbles(part[i]);
      i := i + 1;
    }
    checksum := checksum + (part[i] >> 4);
    r := checksum & 0x0F;
  }

  /** The half ends in its own checksum. */
  predicate Checked(half: seq<Byte>)
    requires |half| > 0
  {
    half[|half| - 1] & 0x0F == Checksum(half)
  }

  /** verifyChecksum. */
  method VerifyChecksum(a: Address) returns (ok: bool)
    ensures ok == (Checked(First(a)) && Checked(Second(a)))
  {
    var halfSize := |a| / 2;
    var first := ComputeChecksum(a[..halfSize]);
    var second := ComputeChecksum(a[halfSize..]);
    ok := a[halfSize - 1] & 0x0F == first && a[|a| - 1] & 0x0F == second;
  }

  /** The checksum does not depend on the half byte that holds it, so it can be filled in. */
  lemma FilledIn(half: seq<Byte>, last: Byte)
    requires |half| > 0 && last >> 4 == half[|half| - 1] >> 4
    ensures Checksum(half[|half| - 1 := last]) == Checksum(half)
  {
    assert half[|half| - 1 := last][..|half| - 1] == half[..|half| - 1];
  }

  lemma NibbleReplaced(x: Byte, c: Byte)
    requires c & 0xF0 == 0
    ensures ((x & 0xF0) | c) >> 4 == x >> 4 && ((x & 0xF0) | c) & 0x0F == c
  {}

  lemma ChecksumIsNibble(part: seq<Byte>)
    requires |part| > 0
    ensures Checksum(part) & 0xF0 == 0
  {}

  /** A half with some bits of its first byte set from outside. */
  function WithPartial(half: seq<Byte>, value: Byte, mask: Byte): (r: seq<Byte>)
    requires |half| > 0
    ensures |r| == |half|
  {
    half[0 := (half[0] & !mask) | (value & mask)]
  }

  function Cleared(half: seq<Byte>): (r: seq<Byte>)
    requires |half| > 0
    ensures |r| == |half|
  {
    half[|half| - 1 := half[|half| - 1] & 0xF0]
  }

  function Sealed(half: seq<Byte>): (r: seq<Byte>)
    requires |half| > 0
    ensures |r| == |half|
  {
    half[|half| - 1 := half[|half| - 1] | Checksum(half)]
  }

  /** A half with some bits of its first byte set from outside, and its checksum. */
  function HalfWithPartial(random: seq<Byte>, value: Byte, mask: Byte): (half: seq<Byte>)
    requires |random| > 0
    ensures |half| == |random|
  {
    Sealed(Cleared(WithPartial(random, value, mask)))
  }

  lemma SealedIsChecked(half: seq<Byte>)
    requires |half| > 0
    ensures Checked(Sealed(Cleared(half)))
  {
    var last, cleared := half[|half| - 1], Cleared(half);
    ChecksumIsNibble(cleared);
    NibbleReplaced(last, Checksum(cleared));
    FilledIn(cleared, (last & 0xF0) | Checksum(cleared));
  }

  // ---------------------------------------------------------------- new addresses and shifts

  /** A part of an array, and what is around it. */
  ghost predicate PartIs(now: seq<Byte>, before: seq<Byte>, at: nat, part: seq<Byte>) {
    at + |part| <= |before| && now == before[..at] + part + before[at + |part|..]
  }

  lemma PartUpdated(now: seq<Byte>, before: seq<Byte>, at: nat, part: seq<Byte>, i: nat, x: Byte)
    requires PartIs(now, before, at, part) && i < |part|
    ensures |now| == |before| && now[at + i] == part[i] && PartIs(now[at + i := x], before, at, part[i := x])
    ensures now[at..at + |part|] == part
  {
    assert now[at + i := x] == before[..at] + part[i := x] + before[at + |part|..];
  }

  method SetByte(a: array<Byte>, i: nat, x: Byte)
    requires i < a.Length
    modifies a
    ensures a[..] == old(a[..])[i := x]
  {
    a[i] := x;
  }

  /** The loop that fills in a half. */
  method FillRandom(a: array<Byte>, at: nat, random: seq<Byte>)
    requires |random| > 0 && at + |random| <= a.Length
    modifies a
    ensures PartIs(a[..], old(a[..]), at, random)
  {
    var size := |random|;
    ghost var before := a[..];
    for i := 0 to size
      invariant a[..] == before[..at] + random[..i] + before[at + i..]
    {
      a[at + i] := random[i];
    }
    assert random[..size] == random;
  }

  /** Setting the bits from outside in the first byte of the half. */
  method SetPartial(a: array<Byte>, at: nat, value: Byte, mask: Byte, ghost before: seq<Byte>, ghost half: seq<Byte>)
    requires |half| > 0 && PartIs(a[..], before, at, half)
    modifies a
    ensures PartIs(a[..], before, at, WithPartial(half, value, mask))
  {
    PartUpdated(a[..], before, at, half, 0, (half[0] & !mask) | (value & mask));
    SetByte(a, at, (a[at] & !mask) | (value & mask));
  }

  method ClearChecksum(a: array<Byte>, at: nat, last: nat, ghost before: seq<Byte>, ghost half: seq<Byte>)
    requires |half| == last + 1 && PartIs(a[..], before, at, half)
    modifies a
    ensures PartIs(a[..], before, at, Cleared(half))
  {
    PartUpdated(a[..], before, at, half, last, half[last] & 0xF0);
    SetByte(a, at + last, a[at + last] & 0xF0);
  }

  method AddChecksum(a: array<Byte>, at: nat, last: nat, ghost before: seq<Byte>, ghost half: seq<Byte>)
    requires |half| == last + 1 && PartIs(a[..], before, at, half)
    modifies a
    ensures PartIs(a[..], before, at, Sealed(half))
  {
    PartUpdated(a[..], before, at, half, last, half[last] | Checksum(half));
    var checksum := ComputeChecksum(a[at..at + last + 1]);
    SetByte(a, at + last, a[at + last] | checksum);
  }

  /** One half and its checksum, at the place of the half in the address. */
  method FillHalf(a: array<Byte>, at: nat, random: seq<Byte>, value: Byte, mask: Byte)
    requires |random| > 0 && at + |random| <= a.Length
    modifies a
    ensures PartIs(a[..], old(a[..]), at, HalfWithPartial(random, value, mask))
  {
    ghost var before := a[..];
    FillRandom(a, at, random);
    SetPartial(a, at, value, mask, before, random);
    ghost var half := WithPartial(random, value, mask);
    ClearChecksum(a, at, |random| - 1, before, half);
    AddChecksum(a, at, |random| - 1, before, Cleared(half));
  }

  /** generateWithPartial, of two random halves. */
  method GenerateWithPartial(random: Address, value: Byte, mask: Byte) returns (address: Address)
    ensures First(address) == HalfWithPartial(First(random), value, mask)
    ensures Second(address) == HalfWithPartial(Second(random), 0, 0)
  {
    var half := |random| / 2;
    var a := new Byte[|random|];
    FillHalf(a, 0, First(random), value, mask);
    ghost var first := a[..];
    FillHalf(a, half, Second(random), 0, 0);
    address := a[..];
    assert address[..half] == first[..half];
  }

  /** What an address is shifted to, given the random half. */
  function Shifted(a: Address, random: seq<Byte>, value: Byte, mask: Byte): (r: Address)
    requires |random| == |a| / 2
  {
    HalfWithPartial(random, value, mask) + First(a)
  }

  /** The loop that copies the first half. */
  method SecondFromFirst(a: Address) returns (b: array<Byte>)
    ensures fresh(b) && b.Length == |a| && b[|a| / 2..] == First(a)
  {
    var half := |a| / 2;
    b := new Byte[|a|];
    for i := 0 to half
      invariant b[half..half + i] == a[..i]
    {
      b[i + half] := a[i];
      assert b[half..half + i + 1] == b[half..half + i] + [a[i]];
    }
    assert b[half..half + half] == b[half..];
  }

  /** The random half gives the old address again. */
  predicate IsUnchanged(a: Address, random: seq<Byte>, value: Byte, mask: Byte)
    requires |random| == |a| / 2
  {
    Shifted(a, random, value, mask) == a
  }

  lemma AnotherDraw(a: Address, draws: seq<seq<Byte>>, value: Byte, mask: Byte, k: nat)
    requires forall i :: 0 <= i < |draws| ==> |draws[i]| == |a| / 2
    requires k < |draws| && !IsUnchanged(a, draws[|draws| - 1], value, mask) && IsUnchanged(a, draws[k], value, mask)
    ensures k + 1 < |draws|
  {}

  method DrawHalf(b: array<Byte>, a: Address, random: seq<Byte>, value: Byte, mask: Byte) returns (again: bool)
    requires b.Length == |a| && |random| == |a| / 2 && b[|a| / 2..] == First(a)
    modifies b
    ensures b[..] == Shifted(a, random, value, mask) && b[|a| / 2..] == First(a)
    ensures again == IsUnchanged(a, random, value, mask)
  {
    FillHalf(b, 0, random, value, mask);
    again := b[..] == a;
  }

  /**
   * shiftWithPartial: random halves are drawn until the address differs from the old one, at the latest with the last
   * of the draws.
   */
  method ShiftWithPartial(a: Address, draws: seq<seq<Byte>>, value: Byte, mask: Byte) returns (address: Address, k: nat)
    requires forall i :: 0 <= i < |draws| ==> |draws[i]| == |a| / 2
    requires |draws| > 0 && !IsUnchanged(a, draws[|draws| - 1], value, mask)
    ensures k < |draws| && address == Shifted(a, draws[k], value, mask) && !IsUnchanged(a, draws[k], value, mask)
  {
    var b := SecondFromFirst(a);
    k := 0;
    var again := DrawHalf(b, a, draws[k], value, mask);
    while again
      invariant k < |draws| && b[..] == Shifted(a, draws[k], value, mask) && b[|a| / 2..] == First(a)
      invariant again == IsUnchanged(a, draws[k], value, mask)
      decreases |draws| - k
    {
      AnotherDraw(a, draws, value, mask, k);
      k := k + 1;
      again := DrawHalf(b, a, draws[k], value, mask);
    }
    address := b[..];
  }

  /** unshift: the second half becomes the first. */
  method Unshift(a: Address) returns (address: Address)
    ensures |address| == |a| && First(address) == Second(a)
  {
    var half := |a| / 2;
    var b := new Byte[|a|](_ => 0);
    for i := 0 to half
      invariant b[..i] == a[half..half + i]
    {
      b[i] := a[i + half];
    }
    address := b[..];
    assert First(address) == b[..half] == a[half..half + half];
  }

  /** The address follows another one: its second half is the first half of that one. */
  predicate IsShiftOf(a: Address, other: Address) {
    |a| == |other| && Second(a) == First(other)
  }

  /** isShift, of addresses of the same length. */
  method IsShift(a: Address, other: Address) returns (success: bool)
    requires |a| == |other|
    ensures success == IsShiftOf(a, other)
  {
    success := true;
    var halfSize := |a| / 2;
    for i := 0 to halfSize
      invariant success == (a[halfSize..halfSize + i] == other[..i])
    {
      assert a[halfSize..halfSize + i + 1] == a[halfSize..halfSize + i] + [a[i + halfSize]];
      assert other[..i + 1] == other[..i] + [other[i]];
      if a[i + halfSize] != other[i] {
        assert a[halfSize..halfSize + i + 1][i] != other[..i + 1][i];
        success := false;
      } else if a[halfSize..halfSize + i + 1] == other[..i + 1] {
        assert a[halfSize..halfSize + i] == a[halfSize..halfSize + i + 1][..i] == other[..i];
      }
    }
    assert other[..halfSize] == First(other) && a[halfSize..halfSize + halfSize] == Second(a);
  }

  /** A shifted address is one that receivers recognize, with correct checksums if the old one had them. */
  lemma ShiftIsRecognized(a: Address, random: seq<Byte>, value: Byte, mask: Byte)
    requires |random| == |a| / 2
    ensures var b := Shifted(a, random, value, mask);
      IsShiftOf(b, a) && Checked(First(b)) && (Checked(Second(b)) <==> Checked(First(a)))
  {
    var b := Shifted(a, random, value, mask);
    assert First(b) == HalfWithPartial(random, value, mask) && Second(b) == First(a);
    SealedIsChecked(WithPartial(random, value, mask));
  }

  /** A generated address has correct checksums. */
  lemma GeneratedIsChecked(address: Address, random: Address, value: Byte, mask: Byte)
    requires First(address) == HalfWithPartial(First(random), value, mask)
    requires Second(address) == HalfWithPartial(Second(random), 0, 0)
    ensures Checked(First(address)) && Checked(Second(address))
  {
    SealedIsChecked(WithPartial(First(random), value, mask));
    SealedIsChecked(WithPartial(Second(random), 0, 0));
  }

  /** The bits from outside can be read back, in halves of more than one byte or when the checksum spares them. */
  lemma PartialReadsBack(random: seq<Byte>, value: Byte, mask: Byte)
    requires |random| > 1 || (|random| == 1 && mask & 0x0F == 0)
    ensures HalfWithPartial(random, value, mask)[0] & mask == value & mask
  {
    MaskedBits(random[0], value, mask);
    if |random| == 1 {
      var half := WithPartial(random, value, mask);
      ChecksumIsNibble(Cleared(half));
      MaskedUpper(half[0], Checksum(Cleared(half)), mask);
    }
  }

  lemma MaskedBits(r: Byte, value: Byte, mask: Byte)
    ensures ((r & !mask) | (value & mask)) & mask == value & mask
  {}

  lemma MaskedUpper(x: Byte, c: Byte, mask: Byte)
    requires mask & 0x0F == 0 && c & 0xF0 == 0
    ensures ((x & 0xF0) | c) & mask == x & mask
  {}

  /** swap: the bytes in reverse. */
  method Swap(a: Address) returns (address: Address)
    ensures |address| == |a| && forall i :: 0 <= i < |a| ==> address[i] == a[|a| - i - 1]
  {
    var b := new Byte[|a|];
    for i := 0 to |a|
      invariant forall j :: 0 <= j < i ==> b[j] == a[|a| - j - 1]
    {
      b[i] := a[|a| - i - 1];
    }
    address := b[..];
  }
}
