/**
 * Bloom filters and Bloom filters in segments, source/BloomFilter.cpp and source/SegmentedBloomFilter.cpp. A hash is a
 * function that gives the words of the digest of a prefix and a value; probabilities are real numbers.
 */
module BloomFilter {
  import opened Device

  type Bits = seq<bool>

  /** Word number k of the digest of a prefix and a value. */
  type Hash = (Bits, LinkValue, nat) -> nat

  /** The filter answers that it may contain the value. */
  predicate MayContain(bits: Bits, words: nat, hash: Hash, prefix: Bits, value: LinkValue)
    requires |bits| > 0
  {
    forall k: nat :: 0 <= k < words ==> bits[hash(prefix, value, k) % |bits|]
  }

  /** All bits of the second filter are set in the first one. */
  ghost predicate Covers(a: Bits, b: Bits) {
    |a| == |b| && forall i :: 0 <= i < |b| && b[i] ==> a[i]
  }

  /** More bits do not lose a value. */
  lemma CoverKeepsValue(a: Bits, b: Bits, words: nat, hash: Hash, prefix: Bits, value: LinkValue)
    requires Covers(a, b) && |b| > 0 && MayContain(b, words, hash, prefix, value)
    ensures MayContain(a, words, hash, prefix, value)
  {
    forall k: nat | k < words ensures a[hash(prefix, value, k) % |a|] {
      assert b[hash(prefix, value, k) % |b|];
    }
  }

  /** Adding the value sets the bit. */
  ghost predicate SetBy(m: nat, words: nat, hash: Hash, prefix: Bits, value: LinkValue, i: int)
    requires m > 0
  {
    exists k: nat :: k < words && hash(prefix, value, k) % m == i
  }

  /** Adding one of the values sets the bit. */
  ghost predicate SetByAny(m: nat, words: nat, hash: Hash, prefix: Bits, values: seq<LinkValue>, i: int)
    requires m > 0
  {
    exists j :: 0 <= j < |values| && SetBy(m, words, hash, prefix, values[j], i)
  }

  /** One of the first n draws sets the bit. */
  ghost predicate SetByDraw(m: nat, n: nat, random: nat -> nat, i: int)
    requires m > 0
  {
    exists k: nat :: k < n && random(k) % m == i
  }

  lemma NoneSets(m: nat, words: nat, hash: Hash, prefix: Bits)
    requires m > 0
    ensures forall i :: !SetByAny(m, words, hash, prefix, [], i)
  {}

  lemma OneMoreSets(m: nat, words: nat, hash: Hash, prefix: Bits, values: seq<LinkValue>, v: LinkValue, i: int)
    requires m > 0
    ensures SetByAny(m, words, hash, prefix, values + [v], i)
      <==> SetByAny(m, words, hash, prefix, values, i) || SetBy(m, words, hash, prefix, v, i)
  {
    var more := values + [v];
    assert more[|values|] == v && forall j :: 0 <= j < |values| ==> more[j] == values[j];
  }

  lemma BothSet(m: nat, words: nat, hash: Hash, prefix: Bits, first: seq<LinkValue>, second: seq<LinkValue>, i: int)
    requires m > 0
    ensures SetByAny(m, words, hash, prefix, first + second, i)
      <==> SetByAny(m, words, hash, prefix, first, i) || SetByAny(m, words, hash, prefix, second, i)
  {
    var all := first + second;
    assert forall j :: 0 <= j < |first| ==> all[j] == first[j];
    assert forall j :: 0 <= j < |second| ==> all[|first| + j] == second[j];
  }

  class BloomFilter {
    const M: nat
    const K: nat
    const hash: Hash
    var bits: Bits
    var pFalse: real

    ghost predicate Valid()
      reads this
    {
      |bits| == M > 0
    }

    constructor (m: nat, k: nat, hash: Hash, pFalse: real)
      requires m > 0
      ensures Valid() && M == m && K == k && this.hash == hash && this.pFalse == pFalse
      ensures forall i :: 0 <= i < m ==> !bits[i]
    {
      M, K, this.hash, this.pFalse := m, k, hash, pFalse;
      bits := seq(m, _ => false);
    }

    method SetAll()
      requires Valid()
      modifies this`bits
      ensures Valid() && forall i :: 0 <= i < M ==> bits[i]
    {
      bits := seq(M, _ => true);
    }

    /** add: the value is in the filter then, with all that was, and no other bit is set. */
    method Add(prefix: Bits, value: LinkValue)
      requires Valid()
      modifies this`bits
      ensures Valid() && MayContain(bits, K, hash, prefix, value) && Covers(bits, old(bits))
      ensures forall i :: 0 <= i < M ==> (bits[i] <==> old(bits)[i] || SetBy(M, K, hash, prefix, value, i))
    {
      var k := 0;
      while k < K
        invariant k <= K && Valid() && Covers(bits, old(bits))
        invariant forall j: nat :: j < k ==> bits[hash(prefix, value, j) % M]
        invariant forall i :: 0 <= i < M && bits[i] ==>
          old(bits)[i] || exists j: nat :: j < k && hash(prefix, value, j) % M == i
      {
        var index := hash(prefix, value, k);
        bits := bits[index % M := true];
        k := k + 1;
      }
    }

    /** addRandom: besides the bits that were set, exactly those that are drawn are set. */
    method AddRandom(count: nat, random: nat -> nat)
      requires Valid()
      modifies this`bits
      ensures Valid() && Covers(bits, old(bits))
      ensures forall i :: 0 <= i < M ==> (bits[i] <==> old(bits)[i] || SetByDraw(M, K * count, random, i))
    {
      var k := 0;
      while k < K * count
        invariant k <= K * count && Valid() && Covers(bits, old(bits))
        invariant forall j: nat :: j < k ==> bits[random(j) % M]
        invariant forall i :: 0 <= i < M && bits[i] ==> old(bits)[i] || exists j: nat :: j < k && random(j) % M == i
      {
        bits := bits[random(k) % M := true];
        k := k + 1;
      }
    }

    /** query. */
    method Query(prefix: Bits, value: LinkValue) returns (may: bool)
      requires Valid()
      ensures may == MayContain(bits, K, hash, prefix, value)
    {
      var k := 0;
      while k < K
        invariant k <= K
        invariant forall j: nat :: j < k ==> bits[hash(prefix, value, j) % M]
      {
        var index := hash(prefix, value, k);
        if !bits[index % M] { return false; }
        k := k + 1;
      }
      return true;
    }
  }

  // ---------------------------------------------------------------- segments

  function Sum(sizes: seq<nat>): nat {
    if |sizes| == 0 then 0 else Sum(sizes[..|sizes| - 1]) + sizes[|sizes| - 1]
  }

  /** Where a segment begins. */
  function Offset(sizes: seq<nat>, s: nat): nat
    requires s <= |sizes|
  {
    Sum(sizes[..s])
  }

  lemma OffsetStep(sizes: seq<nat>, s: nat)
    requires s < |sizes|
    ensures Offset(sizes, s + 1) == Offset(sizes, s) + sizes[s]
  {
    assert sizes[..s + 1][..s] == sizes[..s];
  }

  lemma {:induction false} OffsetsRise(sizes: seq<nat>, s: nat, t: nat)
    requires s <= t <= |sizes|
    ensures Offset(sizes, s) <= Offset(sizes, t)
  {
    if s < t {
      OffsetsRise(sizes, s, t - 1);
      OffsetStep(sizes, t - 1);
    }
  }

  /** A segment lies within the filter. */
  lemma SegmentFits(sizes: seq<nat>, s: nat)
    requires s < |sizes|
    ensures Offset(sizes, s) + sizes[s] <= Sum(sizes)
  {
    OffsetStep(sizes, s);
    OffsetsRise(sizes, s + 1, |sizes|);
    assert sizes[..|sizes|] == sizes;
  }

  /** A filter in segments: its bits, the layout, the segments that have been set, and its probability. */
  datatype Filter = Filter(bits: Bits, sizes: seq<nat>, filled: seq<bool>, pFalse: real)

  predicate LaidOut(f: Filter) {
    |f.bits| == Sum(f.sizes) && |f.filled| == |f.sizes|
  }

  /** The bits of a segment. */
  function Segment(bits: Bits, sizes: seq<nat>, s: nat): (r: Bits)
    requires |bits| == Sum(sizes) && s < |sizes|
    ensures |r| == sizes[s]
  {
    SegmentFits(sizes, s);
    bits[Offset(sizes, s)..Offset(sizes, s) + sizes[s]]
  }

  /** A filter of which no segment has been received. */
  function AllOnes(sizes: seq<nat>): (f: Filter)
    ensures LaidOut(f)
  {
    Filter(seq(Sum(sizes), _ => true), sizes, seq(|sizes|, _ => false), 1.0)
  }

  /** A segment is set; its part of the probability counts the first time only. */
  function WithSegment(f: Filter, s: nat, source: Bits, factor: real): (r: Filter)
    requires LaidOut(f) && s < |f.sizes| && |source| == f.sizes[s]
    ensures LaidOut(r) && r.sizes == f.sizes
  {
    SegmentFits(f.sizes, s);
    var o := Offset(f.sizes, s);
    Filter(f.bits[..o] + source + f.bits[o + f.sizes[s]..], f.sizes, f.filled[s := true],
           f.pFalse * (if f.filled[s] then 1.0 else factor))
  }

  /** Setting a segment sets its bits and leaves the others. */
  lemma SegmentBits(f: Filter, s: nat, source: Bits, factor: real)
    requires LaidOut(f) && s < |f.sizes| && |source| == f.sizes[s]
    ensures var o, r := Offset(f.sizes, s), WithSegment(f, s, source, factor).bits;
      && |r| == |f.bits|
      && forall i :: 0 <= i < |r| ==> r[i] == if o <= i < o + f.sizes[s] then source[i - o] else f.bits[i]
  {
    SegmentFits(f.sizes, s);
  }

  /** Receiving a segment of a filter does not lose any of its bits: what is not received stays all ones. */
  lemma SegmentKeepsCover(f: Filter, s: nat, sent: Bits, factor: real)
    requires LaidOut(f) && s < |f.sizes| && Covers(f.bits, sent)
    ensures Covers(WithSegment(f, s, Segment(sent, f.sizes, s), factor).bits, sent)
  {
    SegmentFits(f.sizes, s);
  }

  /** The segment that was set can be read again, and the other ones are as before. */
  lemma SegmentReadsBack(f: Filter, s: nat, source: Bits, factor: real, t: nat)
    requires LaidOut(f) && s < |f.sizes| && |source| == f.sizes[s] && t < |f.sizes|
    ensures Segment(WithSegment(f, s, source, factor).bits, f.sizes, t) ==
      if t == s then source else Segment(f.bits, f.sizes, t)
  {
    SegmentFits(f.sizes, s);
    SegmentFits(f.sizes, t);
    OffsetStep(f.sizes, s);
    OffsetStep(f.sizes, t);
    if t < s { OffsetsRise(f.sizes, t + 1, s); }
    if s < t { OffsetsRise(f.sizes, s + 1, t); }
    SegmentBits(f, s, source, factor);
    var o, r := Offset(f.sizes, t), WithSegment(f, s, source, factor).bits;
    forall i | 0 <= i < f.sizes[t]
      ensures r[o..o + f.sizes[t]][i] == if t == s then source[i] else f.bits[o..o + f.sizes[t]][i]
    {
      assert r[o + i] == if t == s then source[i] else f.bits[o + i];
    }
  }

  class SegmentedBloomFilter {
    const base: BloomFilter
    const segmentSizes: seq<nat>
    var segmentOffsets: seq<nat>
    var filled: seq<bool>

    ghost predicate Valid()
      reads this, base
    {
      && base.Valid() && base.M == Sum(segmentSizes) && |filled| == |segmentSizes| == |segmentOffsets|
      && forall s :: 0 <= s < |segmentSizes| ==> segmentOffsets[s] == Offset(segmentSizes, s)
    }

    ghost function View(): Filter
      reads this, base
    {
      Filter(base.bits, segmentSizes, filled, base.pFalse)
    }

    /** The constructor with segment sizes, which must add up to the size of the filter. */
    constructor (k: nat, hash: Hash, segmentSizes: seq<nat>, pFalse: real, allOnes: bool)
      requires Sum(segmentSizes) > 0
      ensures Valid() && fresh(base) && this.segmentSizes == segmentSizes && base.K == k && base.hash == hash
      ensures filled == seq(|segmentSizes|, _ => false)
      ensures if allOnes then View() == AllOnes(segmentSizes)
              else base.pFalse == pFalse && forall i :: 0 <= i < |base.bits| ==> !base.bits[i]
    {
      var m := 0;
      for s := 0 to |segmentSizes|
        invariant m == Offset(segmentSizes, s)
      {
        OffsetStep(segmentSizes, s);
        m := m + segmentSizes[s];
      }
      assert segmentSizes[..|segmentSizes|] == segmentSizes;
      base := new BloomFilter(m, k, hash, pFalse);
      this.segmentSizes := segmentSizes;
      filled := seq(|segmentSizes|, _ => false);
      segmentOffsets := [];
      new;
      var curSegmentOffset := 0;
      var s := 0;
      while s < |segmentSizes|
        modifies this`segmentOffsets
        invariant s <= |segmentSizes| && |segmentOffsets| == s && curSegmentOffset == Offset(segmentSizes, s)
        invariant forall t :: 0 <= t < s ==> segmentOffsets[t] == Offset(segmentSizes, t)
      {
        OffsetStep(segmentSizes, s);
        segmentOffsets := segmentOffsets + [curSegmentOffset];
        curSegmentOffset := curSegmentOffset + segmentSizes[s];
        s := s + 1;
      }
      if allOnes {
        base.SetAll();
        base.pFalse := 1.0;
      }
    }

    /** setSegment. */
    method SetSegment(segment: nat, source: Bits, offset: nat, factor: real) returns (pFalseDelta: real)
      requires Valid() && segment < |segmentSizes| && offset + segmentSizes[segment] <= |source|
      modifies this`filled, base`bits, base`pFalse
      ensures Valid() && pFalseDelta == if old(filled)[segment] then 1.0 else factor
      ensures View() == WithSegment(old(View()), segment, source[offset..offset + segmentSizes[segment]], factor)
    {
      SegmentFits(segmentSizes, segment);
      var at, size := segmentOffsets[segment], segmentSizes[segment];
      base.bits := base.bits[..at] + source[offset..offset + size] + base.bits[at + size..];
      pFalseDelta := 1.0;
      if !filled[segment] {
        filled := filled[segment := true];
        pFalseDelta := factor;
      }
      base.pFalse := base.pFalse * pFalseDelta;
    }

    /** getSegment. */
    method GetSegment(segment: nat) returns (dest: Bits)
      requires Valid() && segment < |segmentSizes|
      ensures dest == Segment(base.bits, segmentSizes, segment)
    {
      SegmentFits(segmentSizes, segment);
      var at, size := segmentOffsets[segment], segmentSizes[segment];
      dest := base.bits[at..at + size];
    }
  }
}
