/**
 * The advertisements of the Bluetooth 4 radio and how they are sent, source/EbNRadioBT4.cpp: every advertisement has a
 * symbol of the erasure-coded public key and a segment of a filter; the first ones of an epoch also have a symbol that
 * was left over from the epoch before.
 */
module BT4Advert {
  import opened Arith
  import opened BloomFilter
  import opened ErasureDecoder
  import opened Hiding
  import opened Radio

  const SCAN_INTERVAL: nat := 13500
  const ADV_N: nat := 134
  const ADV_N_LOG2: nat := 8
  const ADVERT_BITS: nat := 248
  const BF_K: nat := 1
  const BF_B: nat := 2

  /** The erasure code and the hash: their parameters, and the functions themselves. */
  datatype Code = Code(
    rsK: nat, rsW: nat, encode: Symbol -> seq<Symbol>, rebuild: Rebuild, hash: Hash, factor: (seq<nat>, nat) -> real)

  /** One symbol per advertisement of an epoch, and those that may be left over. */
  function CodeLength(c: Code): int {
    ADV_N + 2 * (c.rsK - 1)
  }

  function SymbolBits(c: Code): nat {
    8 * c.rsW
  }

  /** The parameters fit, and the code has the length and the symbols that the radio wants. */
  ghost predicate CodeOk(c: Code) {
    && 1 <= c.rsK && 2 * c.rsK <= ADV_N && 1 <= c.rsW <= 14
    && (forall key: Symbol {:trigger c.encode(key)} :: Fits(c, c.encode(key)))
  }

  ghost predicate Fits(c: Code, codeword: seq<Symbol>) {
    |codeword| == CodeLength(c) && forall i :: 0 <= i < |codeword| ==> |codeword[i]| == SymbolBits(c)
  }

  /** The room for a filter segment: what the number and the symbols leave of an advertisement. */
  function SegmentSize(c: Code, num: nat): nat
    requires 1 <= c.rsW <= 14
  {
    ADVERT_BITS - 1 - ADV_N_LOG2 - SymbolBits(c) - (if num < c.rsK - 1 then SymbolBits(c) else 0)
  }

  /** The layout of a filter, which is sent with BF_B advertisements. */
  function SegmentSizes(c: Code, bloomNum: nat): (sizes: seq<nat>)
    requires 1 <= c.rsW <= 14
    ensures |sizes| == BF_B
  {
    [SegmentSize(c, bloomNum * BF_B), SegmentSize(c, bloomNum * BF_B + 1)]
  }

  lemma SizesSum(c: Code, bloomNum: nat)
    requires 1 <= c.rsW <= 14
    ensures Sum(SegmentSizes(c, bloomNum)) == SegmentSize(c, bloomNum * BF_B) + SegmentSize(c, bloomNum * BF_B + 1) > 0
  {
    var sizes := SegmentSizes(c, bloomNum);
    OffsetStep(sizes, 0);
    OffsetStep(sizes, 1);
    assert sizes[..2] == sizes && sizes[..0] == [];
  }

  // ---------------------------------------------------------------- the bits of an advertisement

  /** The bits of a number, lowest first. */
  function NumBits(n: nat, k: nat): (b: Bits)
    ensures |b| == k
  {
    if k == 0 then [] else [n % 2 == 1] + NumBits(n / 2, k - 1)
  }

  function BitsNum(b: Bits): nat {
    if |b| == 0 then 0 else (if b[0] then 1 else 0) + 2 * BitsNum(b[1..])
  }

  lemma {:induction false} NumReadsBack(n: nat, k: nat)
    requires n < Pow2(k)
    ensures BitsNum(NumBits(n, k)) == n
  {
    if k > 0 {
      NumReadsBack(n / 2, k - 1);
      assert NumBits(n, k)[1..] == NumBits(n / 2, k - 1);
    }
  }

  datatype Advert = Advert(num: nat, symbol: Symbol, leftover: Symbol, segment: Bits)

  /** The sizes of the parts are those of the advertisement with that number. */
  predicate WellSized(c: Code, a: Advert) {
    && 1 <= c.rsW <= 14 && a.num < ADV_N && |a.symbol| == SymbolBits(c) && |a.segment| == SegmentSize(c, a.num)
    && |a.leftover| == (if a.num < c.rsK - 1 then SymbolBits(c) else 0)
  }

  /** The bits on the air: a version bit, the number, the symbols and the segment fill the advertisement. */
  function Pack(c: Code, a: Advert): (bits: Bits)
    requires WellSized(c, a)
    ensures |bits| == ADVERT_BITS
  {
    [false] + NumBits(a.num, ADV_N_LOG2) + a.symbol + a.leftover + a.segment
  }

  /** Where the segment begins in the advertisement with a number. */
  function SegmentAt(c: Code, num: nat): nat {
    1 + ADV_N_LOG2 + SymbolBits(c) + (if num < c.rsK - 1 then SymbolBits(c) else 0)
  }

  function ReadNum(bits: Bits): nat
    requires |bits| == ADVERT_BITS
  {
    BitsNum(bits[1..1 + ADV_N_LOG2])
  }

  /** The advertisement that bits stand for, if their number is one. */
  function Read(c: Code, bits: Bits): (a: Advert)
    requires 1 <= c.rsW <= 14 && |bits| == ADVERT_BITS && ReadNum(bits) < ADV_N
    ensures WellSized(c, a)
  {
    var num, w, at := ReadNum(bits), SymbolBits(c), 1 + ADV_N_LOG2;
    Advert(num, bits[at..at + w], bits[at + w..SegmentAt(c, num)], bits[SegmentAt(c, num)..])
  }

  /** What was packed is read. */
  lemma ReadsBack(c: Code, a: Advert)
    requires WellSized(c, a)
    ensures ReadNum(Pack(c, a)) == a.num && Read(c, Pack(c, a)) == a
  {
    var bits, number := Pack(c, a), NumBits(a.num, ADV_N_LOG2);
    assert bits[1..1 + ADV_N_LOG2] == number;
    EightBits(a.num, ADV_N_LOG2);
    NumReadsBack(a.num, ADV_N_LOG2);
    var w, at := SymbolBits(c), 1 + ADV_N_LOG2;
    assert bits[at..at + w] == a.symbol;
    assert bits[at + w..SegmentAt(c, a.num)] == a.leftover;
    assert bits[SegmentAt(c, a.num)..] == a.segment;
  }

  /** The number of bits is passed in so that the verifier does not unfold the power here. */
  lemma EightBits(num: nat, k: nat)
    requires num < ADV_N && k == 8
    ensures num < Pow2(k)
  {
    assert Pow2(8) == 256;
  }

  // ---------------------------------------------------------------- an epoch of a sender

  /** The key of an epoch, its codeword, the codeword of the epoch before, and the filters by their number. */
  datatype SentEpoch = SentEpoch(key: Symbol, codeword: seq<Symbol>, before: seq<Symbol>, filters: map<nat, Bits>)

  ghost predicate EpochOk(c: Code, e: SentEpoch) {
    && CodeOk(c) && e.codeword == c.encode(e.key) && Fits(c, e.before)
    && (forall b :: b in e.filters ==> |e.filters[b]| == Sum(SegmentSizes(c, b)))
  }

  /** The advertisement is one of the epoch. */
  ghost predicate SentIn(c: Code, e: SentEpoch, a: Advert)
    requires EpochOk(c, e)
  {
    && a.num < ADV_N && a.symbol == e.codeword[a.num]
    && a.leftover == (if a.num < c.rsK - 1 then e.before[ADV_N + a.num] else [])
    && a.num / BF_B in e.filters
    && a.segment == Segment(e.filters[a.num / BF_B], SegmentSizes(c, a.num / BF_B), a.num % BF_B)
  }

  /** The same epoch, with more of its filters sent. */
  ghost predicate Continues(e: SentEpoch, next: SentEpoch) {
    && next.key == e.key && next.codeword == e.codeword && next.before == e.before
    && forall b :: b in e.filters ==> b in next.filters && next.filters[b] == e.filters[b]
  }

  ghost predicate AllBelow(filters: map<nat, Bits>, n: nat) {
    forall b :: b in filters ==> b < n
  }

  lemma OneMoreBelow(filters: map<nat, Bits>, next: map<nat, Bits>, num: nat)
    requires num % BF_B == 0 && AllBelow(filters, num / BF_B) && next.Keys == filters.Keys + {num / BF_B}
    ensures AllBelow(next, (num + 2) / BF_B)
  {
    forall b | b in next ensures b < (num + 2) / BF_B {
      assert b in next.Keys;
    }
  }

  /** What has been sent in an epoch stays an advertisement of it. */
  lemma SentStays(c: Code, e: SentEpoch, next: SentEpoch, a: Advert)
    requires EpochOk(c, e) && EpochOk(c, next) && Continues(e, next) && SentIn(c, e, a)
    ensures SentIn(c, next, a)
  {}

  lemma SentIsWellSized(c: Code, e: SentEpoch, a: Advert)
    requires EpochOk(c, e) && SentIn(c, e, a)
    ensures WellSized(c, a)
  {
    assert Fits(c, c.encode(e.key));
    assert a.num == a.num / BF_B * BF_B + a.num % BF_B;
  }

  /** The prefix that the entries of a filter are hashed with. */
  function Prefix(bloomNum: nat, key: Symbol): Bits {
    NumBits(bloomNum, ADV_N_LOG2) + key
  }

  /** Filters with other numbers or other keys have other prefixes. */
  lemma PrefixIsOwn(b: nat, key: Symbol, other: nat, otherKey: Symbol)
    requires b < ADV_N && other < ADV_N && Prefix(b, key) == Prefix(other, otherKey)
    ensures b == other && key == otherKey
  {
    assert Prefix(b, key)[..ADV_N_LOG2] == NumBits(b, ADV_N_LOG2) && Prefix(b, key)[ADV_N_LOG2..] == key;
    assert Prefix(other, otherKey)[..ADV_N_LOG2] == NumBits(other, ADV_N_LOG2);
    assert Prefix(other, otherKey)[ADV_N_LOG2..] == otherKey;
    EightBits(b, ADV_N_LOG2);
    EightBits(other, ADV_N_LOG2);
    NumReadsBack(b, ADV_N_LOG2);
    NumReadsBack(other, ADV_N_LOG2);
  }

  class Sender<E> {
    const c: Code
    const radio: EbNRadio<E>
    var key: Symbol
    /** The symbols that the encoder holds, and those that were left over. */
    var symbols: seq<Symbol>
    var dhPrevSymbols: seq<Symbol>
    var advertNum: nat
    var advertBloom: SegmentedBloomFilter
    var advertBloomNum: int

    /** The epoch as it has been sent so far. */
    ghost var epoch: SentEpoch
    /** What has been put into the filter at hand. */
    ghost var filling: Filling

    /** What holds at all times. */
    ghost predicate Ready()
      reads this, advertBloom, advertBloom.base
    {
      && EpochOk(c, epoch) && key == epoch.key && symbols == epoch.codeword
      && |dhPrevSymbols| == 2 * (c.rsK - 1)
      && (forall k :: 0 <= k < c.rsK - 1 ==> dhPrevSymbols[k] == epoch.before[ADV_N + k])
      && advertBloom.Valid()
    }

    /** Between two changes of the advertisement, the filters up to the next one have been sent. */
    ghost predicate Valid()
      reads this, advertBloom, advertBloom.base
    {
      && Ready() && advertNum % 2 == 0 && advertNum <= ADV_N
      && AllBelow(epoch.filters, advertNum / BF_B)
    }

    /** The filter at hand is the one with that number. */
    ghost predicate HoldsFilter(bloomNum: nat)
      reads this, advertBloom, advertBloom.base
      requires EpochOk(c, epoch)
    {
      && advertBloom.Valid() && advertBloom.segmentSizes == SegmentSizes(c, bloomNum)
      && bloomNum in epoch.filters && advertBloom.base.bits == epoch.filters[bloomNum]
    }

    constructor (c: Code, radio: EbNRadio<E>, key: Symbol)
      requires CodeOk(c)
      ensures Valid() && this.c == c && this.radio == radio && this.key == key && advertNum == 0 && advertBloomNum == -1
      ensures epoch.filters == map[] && fresh(advertBloom) && fresh(advertBloom.base)
    {
      this.c, this.radio, this.key := c, radio, key;
      symbols := c.encode(key);
      var zero: Symbol := seq(SymbolBits(c), _ => false);
      dhPrevSymbols := seq(2 * (c.rsK - 1), _ => zero);
      advertNum, advertBloomNum := 0, -1;
      advertBloom := new SegmentedBloomFilter(BF_K, c.hash, [1], 1.0, false);
      filling := Filling([], [], 0);
      epoch := SentEpoch(key, c.encode(key), seq(CodeLength(c), _ => zero), map[]);
    }

    /** changeEpoch: the symbols that this epoch did not send will be sent with the first ones of the next. */
    method ChangeEpoch(newKey: Symbol)
      requires Valid()
      modifies this`advertNum, this`key, this`symbols, this`dhPrevSymbols, this`epoch
      ensures Valid() && advertNum == 0
      ensures epoch == SentEpoch(newKey, c.encode(newKey), old(epoch).codeword, map[])
    {
      advertNum := 0;
      key := newKey;
      assert Fits(c, c.encode(epoch.key)) && Fits(c, c.encode(newKey));
      var k := 0;
      while k < c.rsK - 1
        modifies this`dhPrevSymbols
        invariant 0 <= k <= c.rsK - 1 && |dhPrevSymbols| == 2 * (c.rsK - 1)
        invariant forall j :: 0 <= j < k ==> dhPrevSymbols[j] == symbols[ADV_N + j]
      {
        dhPrevSymbols := dhPrevSymbols[k := symbols[ADV_N + k]];
        k := k + 1;
      }
      symbols := c.encode(key);
      epoch := SentEpoch(newKey, c.encode(newKey), epoch.codeword, map[]);
    }

    /** The filter holds the link values of the advertised set for which there is room. */
    ghost predicate HoldsAdvertised(bits: Bits, bloomNum: nat)
      reads this`key, radio
      requires |bits| > 0
    {
      forall i :: 0 <= i < |radio.advertisedSet| && i < Room(radio.confirmType) ==>
        MayContain(bits, BF_K, c.hash, Prefix(bloomNum, key), radio.advertisedSet[i])
    }

    /** The filter has the bits of the right entries, and no others. */
    ghost predicate HoldsExactly(bits: Bits, bloomNum: nat, random: nat -> nat)
      reads this`key, this`filling, radio, radio.recentDevices`sharedSecrets
    {
      forall k: nat :: Look(OfFilling, k) ==>
        && radio.RightFilling(filling, true)
        && FilledWith(bits, BF_K, c.hash, Prefix(bloomNum, key), random, filling)
    }

    lemma ExactlyHolds(bits: Bits, bloomNum: nat, random: nat -> nat)
      requires HoldsExactly(bits, bloomNum, random)
      ensures |bits| > 0 && HoldsAdvertised(bits, bloomNum)
    {
      assert Look(OfFilling, 0);
      forall i | 0 <= i < |radio.advertisedSet| && i < Room(radio.confirmType)
        ensures MayContain(bits, BF_K, c.hash, Prefix(bloomNum, key), radio.advertisedSet[i])
      {
        assert filling.advertised[i] == radio.advertisedSet[i];
        FillingIsContained(bits, BF_K, c.hash, Prefix(bloomNum, key), random, filling, radio.advertisedSet[i]);
      }
    }

    /** The sizes of the segments of a filter. */
    method Layout(bloomNum: nat) returns (segmentSizes: seq<nat>)
      requires 1 <= c.rsW <= 14
      ensures segmentSizes == SegmentSizes(c, bloomNum)
    {
      segmentSizes := [];
      var totalSize := 0;
      var s := bloomNum * BF_B;
      while s < (bloomNum + 1) * BF_B
        invariant bloomNum * BF_B <= s <= (bloomNum + 1) * BF_B && |segmentSizes| == s - bloomNum * BF_B
        invariant segmentSizes == SegmentSizes(c, bloomNum)[..s - bloomNum * BF_B]
      {
        segmentSizes := segmentSizes + [SegmentSize(c, s)];
        totalSize := totalSize + SegmentSize(c, s);
        s := s + 1;
      }
    }

    /** A filter that is empty gets its entries. */
    method FillFilter(bloom: SegmentedBloomFilter, bloomNum: nat, random: nat -> nat)
      requires bloom.Valid() && bloom.base.K == BF_K && bloom.base.hash == c.hash
      requires forall i :: 0 <= i < |bloom.base.bits| ==> !bloom.base.bits[i]
      modifies bloom.base`bits, this`filling
      ensures bloom.Valid() && HoldsExactly(bloom.base.bits, bloomNum, random)
    {
      ghost var before := bloom.base.bits;
      var prefix := Prefix(bloomNum, key);
      var numAdvert, numPassive, numRandom;
      numAdvert, numPassive, numRandom, filling := radio.FillBloomFilter(bloom.base, prefix, true, random);
      radio.FilledFromEmpty(bloom.base, before, prefix, random, filling);
    }

    /** A new filter is made for the next BF_B advertisements. */
    method NewFilter(bloomNum: nat, random: nat -> nat, pFalse: real)
      requires Ready()
      modifies this`advertBloom, this`advertBloomNum, this`epoch, this`filling
      ensures Ready() && HoldsFilter(bloomNum) && advertBloomNum == bloomNum
      ensures fresh(advertBloom) && fresh(advertBloom.base)
      ensures epoch == old(epoch).(filters := old(epoch).filters[bloomNum := advertBloom.base.bits])
      ensures HoldsExactly(advertBloom.base.bits, bloomNum, random)
    {
      var segmentSizes := Layout(bloomNum);
      SizesSum(c, bloomNum);
      var bloom := new SegmentedBloomFilter(BF_K, c.hash, segmentSizes, pFalse, false);
      advertBloom := bloom;
      advertBloomNum := bloomNum;
      FillFilter(bloom, bloomNum, random);
      epoch := epoch.(filters := epoch.filters[bloomNum := bloom.base.bits]);
    }

    /** The bits of the number, one at a time. */
    method NumberBits(num: nat, size: nat) returns (bits: Bits)
      ensures bits == NumBits(num, size)
    {
      bits := [];
      var rest := num;
      for b := 0 to size
        invariant |bits| == b && bits + NumBits(rest, size - b) == NumBits(num, size)
      {
        assert NumBits(rest, size - b) == [rest % 2 == 1] + NumBits(rest / 2, size - b - 1);
        bits := bits + [rest % 2 == 1];
        rest := rest / 2;
      }
    }

    /** An advertisement up to its segment: the number, the symbol, and one that was left over. */
    method Symbols(num: nat) returns (advert: Bits, ghost leftover: Symbol)
      requires Ready() && num < ADV_N
      ensures num < |symbols| && (num < c.rsK - 1 ==> ADV_N + num < |epoch.before|)
      ensures leftover == if num < c.rsK - 1 then epoch.before[ADV_N + num] else []
      ensures |advert| == SegmentAt(c, num) && advert == [false] + NumBits(num, ADV_N_LOG2) + symbols[num] + leftover
    {
      var number := NumberBits(num, ADV_N_LOG2);
      advert := [false] + number;
      assert Fits(c, c.encode(epoch.key));
      advert := advert + symbols[num];
      leftover := [];
      if num < c.rsK - 1 {
        advert := advert + dhPrevSymbols[num];
        leftover := dhPrevSymbols[num];
      }
    }

    /** The first of every BF_B advertisements has a new filter. */
    method RenewFilter(num: nat, random: nat -> nat, pFalse: real)
      requires Ready() && num < ADV_N
      requires if num % BF_B == 0 then num / BF_B !in epoch.filters
               else advertBloomNum == num / BF_B && HoldsFilter(num / BF_B)
      modifies this`advertBloom, this`advertBloomNum, this`epoch, this`filling
      ensures Ready() && HoldsFilter(num / BF_B) && advertBloomNum == num / BF_B
      ensures epoch.before == old(epoch).before && epoch.codeword == old(epoch).codeword
      ensures num % BF_B == 0 ==>
        && Continues(old(epoch), epoch) && epoch.filters.Keys == old(epoch).filters.Keys + {num / BF_B}
        && HoldsExactly(epoch.filters[num / BF_B], num / BF_B, random)
        && fresh(advertBloom) && fresh(advertBloom.base)
      ensures num % BF_B != 0 ==>
        epoch == old(epoch) && advertBloom == old(advertBloom) && filling == old(filling)
    {
      var bloomNum := num / BF_B;
      if num % BF_B == 0 || bloomNum != advertBloomNum {
        NewFilter(bloomNum, random, pFalse);
      }
    }

    /**
     * generateAdvert: the advertisement is one of the epoch. The first of every BF_B has a new filter; the others send
     * the rest of it.
     */
    method GenerateAdvert(num: nat, random: nat -> nat, pFalse: real) returns (advert: Bits, ghost a: Advert)
      requires Ready() && num < ADV_N
      requires if num % BF_B == 0 then num / BF_B !in epoch.filters
               else advertBloomNum == num / BF_B && HoldsFilter(num / BF_B)
      modifies this`advertBloom, this`advertBloomNum, this`epoch, this`filling
      ensures Ready() && HoldsFilter(num / BF_B) && advertBloomNum == num / BF_B
      ensures SentIn(c, epoch, a) && a.num == num && WellSized(c, a) && advert == Pack(c, a)
      ensures num % BF_B == 0 ==>
        && Continues(old(epoch), epoch) && epoch.filters.Keys == old(epoch).filters.Keys + {num / BF_B}
        && HoldsExactly(epoch.filters[num / BF_B], num / BF_B, random)
        && fresh(advertBloom) && fresh(advertBloom.base)
      ensures num % BF_B != 0 ==>
        epoch == old(epoch) && advertBloom == old(advertBloom) && filling == old(filling)
    {
      ghost var leftover;
      advert, leftover := Symbols(num);
      RenewFilter(num, random, pFalse);
      var segment := advertBloom.GetSegment(num % BF_B);
      a := Advert(num, symbols[num], leftover, segment);
      SentIsWellSized(c, epoch, a);
      advert := advert + segment;
    }

    /** The bits are those of an advertisement of the epoch. */
    ghost predicate Sends(bits: Bits, a: Advert, num: nat)
      reads this`epoch
    {
      EpochOk(c, epoch) && SentIn(c, epoch, a) && a.num == num && WellSized(c, a) && bits == Pack(c, a)
    }

    /** An advertisement with an even number, which has a new filter. */
    method GenerateFirst(random: nat -> nat, pFalse: real) returns (advert: Bits, ghost a: Advert)
      requires Ready() && advertNum + 1 < ADV_N && advertNum % 2 == 0 && advertNum / BF_B !in epoch.filters
      modifies this`advertNum, this`advertBloom, this`advertBloomNum, this`epoch, this`filling
      ensures Ready() && advertNum == old(advertNum) + 1 && Sends(advert, a, old(advertNum))
      ensures HoldsFilter(advertNum / BF_B) && advertBloomNum == advertNum / BF_B
      ensures Continues(old(epoch), epoch) && epoch.filters.Keys == old(epoch).filters.Keys + {advertNum / BF_B}
      ensures HoldsExactly(epoch.filters[advertNum / BF_B], advertNum / BF_B, random)
    {
      assert (advertNum + 1) / BF_B == advertNum / BF_B;
      advert, a := GenerateAdvert(advertNum, random, pFalse);
      advertNum := advertNum + 1;
    }

    /** The one after it, which sends the rest of the filter. */
    method GenerateSecond(random: nat -> nat, pFalse: real) returns (advert: Bits, ghost a: Advert)
      requires Ready() && advertNum < ADV_N && advertNum % 2 == 1
      requires HoldsFilter(advertNum / BF_B) && advertBloomNum == advertNum / BF_B
      modifies this`advertNum, this`advertBloom, this`advertBloomNum, this`epoch, this`filling
      ensures Ready() && advertNum == old(advertNum) + 1 && Sends(advert, a, old(advertNum))
      ensures epoch == old(epoch) && filling == old(filling)
    {
      advert, a := GenerateAdvert(advertNum, random, pFalse);
      advertNum := advertNum + 1;
    }

    /** An advertisement with an even number, and the one after it. */
    method GeneratePair(random: nat -> nat, pFalse: real)
      returns (advert: Bits, scanResponse: Bits, ghost a: Advert, ghost b: Advert)
      requires Ready() && advertNum + 1 < ADV_N && advertNum % 2 == 0 && advertNum / BF_B !in epoch.filters
      modifies this`advertNum, this`advertBloom, this`advertBloomNum, this`epoch, this`filling
      ensures Ready() && advertNum == old(advertNum) + 2
      ensures Sends(advert, a, old(advertNum)) && Sends(scanResponse, b, old(advertNum) + 1)
      ensures Continues(old(epoch), epoch) && epoch.filters.Keys == old(epoch).filters.Keys + {old(advertNum) / BF_B}
      ensures var num := old(advertNum) / BF_B; HoldsExactly(epoch.filters[num], num, random)
    {
      assert (advertNum + 1) / BF_B == advertNum / BF_B;
      advert, a := GenerateFirst(random, pFalse);
      scanResponse, b := GenerateSecond(random, pFalse);
    }

    /**
     * changeAdvert: an advertisement and its scan response, with the two segments of one filter that holds the
     * advertised set, the secrets that are most likely to be wrong and the draws, and nothing else, until all the
     * filters of the epoch have been sent.
     */
    method ChangeAdvert(random: nat -> nat, pFalse: real)
      returns (sent: bool, advert: Bits, scanResponse: Bits, ghost a: Advert, ghost b: Advert)
      requires Valid()
      modifies this`advertNum, this`advertBloom, this`advertBloomNum, this`epoch, this`filling
      ensures Valid() && sent == (old(advertNum) < ADV_N) && Continues(old(epoch), epoch)
      ensures !sent ==> unchanged(this)
      ensures sent ==>
        && advertNum == old(advertNum) + 2 && a.num == old(advertNum) && b.num == old(advertNum) + 1
        && SentIn(c, epoch, a) && WellSized(c, a) && advert == Pack(c, a)
        && SentIn(c, epoch, b) && WellSized(c, b) && scanResponse == Pack(c, b)
        && epoch.filters.Keys == old(epoch).filters.Keys + {a.num / BF_B}
        && HoldsExactly(epoch.filters[a.num / BF_B], a.num / BF_B, random)
    {
      sent, advert, scanResponse, a, b := false, [], [], Advert(0, [], [], []), Advert(0, [], [], []);
      if advertNum < ADV_N {
        sent := true;
        ghost var before, num := epoch.filters, advertNum;
        advert, scanResponse, a, b := GeneratePair(random, pFalse);
        OneMoreBelow(before, epoch.filters, num);
      }
    }
  }
}
