/**
 * What a receiver erases: exactly the link values that a segment it has heard rules out, as soon as it knows the key.
 */
module BT4Erasing {
  import opened BT4Advert
  import opened BT4Decoding
  import opened BT4Matching
  import opened BT4OneEpoch
  import opened BT4Receiver
  import opened BloomFilter
  import opened Device
  import opened ErasureDecoder
  import opened Hiding

  /** Every segment that is new makes an answer less likely to be a mistake. */
  ghost predicate FactorsOk(c: Code) {
    forall sizes, s :: 0.0 <= c.factor(sizes, s) < 1.0
  }

  /** The bit is in the segment that is sent with an advertisement. */
  predicate InSegment(c: Code, num: nat, i: int)
    requires 1 <= c.rsW <= 14
  {
    var sizes, s := SegmentSizes(c, num / BF_B), num % BF_B;
    Offset(sizes, s) <= i < Offset(sizes, s) + sizes[s]
  }

  /** The bit that a filter wants for a value. */
  function Place(c: Code, e: SentEpoch, v: LinkValue, b: nat, k: nat): nat
    requires b in e.filters && |e.filters[b]| > 0
  {
    c.hash(Prefix(b, e.key), v, k) % |e.filters[b]|
  }

  /** The segment of an advertisement shows that the value is not in the filter. */
  ghost predicate Refutes(c: Code, e: SentEpoch, v: LinkValue, num: nat)
    requires 1 <= c.rsW <= 14
  {
    var b := num / BF_B;
    && b in e.filters && |e.filters[b]| > 0
    && exists k: nat :: k < BF_K && InSegment(c, num, Place(c, e, v, b, k)) && !e.filters[b][Place(c, e, v, b, k)]
  }

  ghost predicate NoneRefutes(c: Code, e: SentEpoch, v: LinkValue, nums: set<nat>)
    requires 1 <= c.rsW <= 14
  {
    forall num :: num in nums ==> !Refutes(c, e, v, num)
  }

  // ---------------------------------------------------------------- one filter

  /** A filter of the receiver lacks only bits that the sender's lacks, in segments that have been heard. */
  ghost predicate BloomHeard(c: Code, b: nat, f: Filter, e: SentEpoch, nums: set<nat>)
    requires 1 <= c.rsW <= 14
  {
    && b in e.filters && LaidOut(f) && f.sizes == SegmentSizes(c, b) && |f.bits| == |e.filters[b]|
    && 0.0 <= f.pFalse <= 1.0
    && (forall i :: 0 <= i < |f.bits| && !f.bits[i] ==> !e.filters[b][i] && IsHeard(c, b, i, nums))
    && (forall s :: 0 <= s < BF_B && f.filled[s] ==> b * BF_B + s in nums)
  }

  ghost predicate IsHeard(c: Code, b: nat, i: nat, nums: set<nat>)
    requires 1 <= c.rsW <= 14
  {
    exists num :: num in nums && num / BF_B == b && InSegment(c, num, i)
  }

  /** A filter has all that the segment with a number can show, and has not been used since. */
  ghost predicate Shows(c: Code, b: nat, f: Filter, e: SentEpoch, num: nat)
    requires 1 <= c.rsW <= 14
  {
    && b == num / BF_B && b in e.filters && |f.bits| == |e.filters[b]| && f.pFalse < 1.0
    && forall i :: 0 <= i < |f.bits| && InSegment(c, num, i) && !e.filters[b][i] ==> !f.bits[i]
  }

  function Times(p: real, q: real): real {
    p * q
  }

  /** Taking a segment sets its bits and leaves the others. */
  lemma TakenBits(c: Code, f: Filter, e: SentEpoch, a: Advert)
    requires WellSized(c, a) && LaidOut(f) && f.sizes == SegmentSizes(c, a.num / BF_B)
    requires a.num / BF_B in e.filters && IsSegmentOf(c, a, e.filters[a.num / BF_B])
    ensures var r := TakeSegment(c, f, a);
      && |r.bits| == |f.bits| == |e.filters[a.num / BF_B]|
      && forall i :: 0 <= i < |f.bits| ==>
           r.bits[i] == if InSegment(c, a.num, i) then e.filters[a.num / BF_B][i] else f.bits[i]
  {
    SegmentFitsLayout(c, a);
    SegmentFits(f.sizes, a.num % BF_B);
    SegmentBits(f, a.num % BF_B, a.segment, c.factor(f.sizes, a.num % BF_B));
  }

  lemma TakenPFalse(c: Code, f: Filter, a: Advert)
    requires WellSized(c, a) && LaidOut(f) && f.sizes == SegmentSizes(c, a.num / BF_B)
    ensures a.num % BF_B < |f.filled| && TakeSegment(c, f, a).pFalse
      == if f.filled[a.num % BF_B] then f.pFalse else Times(f.pFalse, c.factor(f.sizes, a.num % BF_B))
  {}

  lemma TakenFactor(p: real, factor: real)
    requires 0.0 <= p <= 1.0 && 0.0 <= factor < 1.0
    ensures 0.0 <= Times(p, factor) < 1.0
  {
    assert p * factor <= 1.0 * factor;
  }

  lemma TakenIsHeard(c: Code, f: Filter, e: SentEpoch, a: Advert, nums: set<nat>)
    requires WellSized(c, a) && FactorsOk(c) && BloomHeard(c, a.num / BF_B, f, e, nums)
    requires IsSegmentOf(c, a, e.filters[a.num / BF_B])
    ensures BloomHeard(c, a.num / BF_B, TakeSegment(c, f, a), e, nums + {a.num})
    ensures a.num !in nums ==> Shows(c, a.num / BF_B, TakeSegment(c, f, a), e, a.num)
    ensures forall num :: Shows(c, a.num / BF_B, f, e, num) ==> Shows(c, a.num / BF_B, TakeSegment(c, f, a), e, num)
  {
    var b, s, r := a.num / BF_B, a.num % BF_B, TakeSegment(c, f, a);
    assert b * BF_B + s == a.num;
    TakenBits(c, f, e, a);
    TakenPFalse(c, f, a);
    TakenFactor(f.pFalse, c.factor(f.sizes, s));
    forall i | 0 <= i < |r.bits| && !r.bits[i] ensures !e.filters[b][i] && IsHeard(c, b, i, nums + {a.num}) {
      if !InSegment(c, a.num, i) {
        var num :| num in nums && num / BF_B == b && InSegment(c, num, i);
        assert num in nums + {a.num};
      }
    }
  }

  /** A filter of which nothing has been heard. */
  lemma AllOnesIsHeard(c: Code, e: SentEpoch, b: nat, nums: set<nat>)
    requires 1 <= c.rsW <= 14 && b in e.filters && |e.filters[b]| == Sum(SegmentSizes(c, b))
    ensures BloomHeard(c, b, AllOnes(SegmentSizes(c, b)), e, nums)
  {}

  lemma MoreIsHeard(c: Code, b: nat, f: Filter, e: SentEpoch, nums: set<nat>, num: nat)
    requires 1 <= c.rsW <= 14 && BloomHeard(c, b, f, e, nums)
    ensures BloomHeard(c, b, f, e, nums + {num})
  {
    forall i | 0 <= i < |f.bits| && !f.bits[i] ensures IsHeard(c, b, i, nums + {num}) {
      var n :| n in nums && n / BF_B == b && InSegment(c, n, i);
      assert n in nums + {num};
    }
  }

  /** An answer that is no comes from a segment that shows it. */
  lemma NoIsRefuted(c: Code, b: nat, f: Filter, e: SentEpoch, nums: set<nat>, v: LinkValue)
    requires 1 <= c.rsW <= 14 && BloomHeard(c, b, f, e, nums) && |f.bits| > 0
    requires !MayContain(f.bits, BF_K, c.hash, Prefix(b, e.key), v)
    ensures !NoneRefutes(c, e, v, nums)
  {
    var k: nat :| k < BF_K && !f.bits[c.hash(Prefix(b, e.key), v, k) % |f.bits|];
    var i := Place(c, e, v, b, k);
    assert !f.bits[i];
    var num :| num in nums && num / BF_B == b && InSegment(c, num, i);
    assert Refutes(c, e, v, num);
  }

  lemma RefutedIsNo(c: Code, b: nat, f: Filter, e: SentEpoch, num: nat, v: LinkValue)
    requires 1 <= c.rsW <= 14 && Shows(c, b, f, e, num) && Refutes(c, e, v, num)
    ensures |f.bits| > 0 && !MayContain(f.bits, BF_K, c.hash, Prefix(b, e.key), v)
  {
    var k: nat :| k < BF_K && InSegment(c, num, Place(c, e, v, b, k)) && !e.filters[b][Place(c, e, v, b, k)];
    assert !f.bits[c.hash(Prefix(b, e.key), v, k) % |f.bits|];
  }

  // ---------------------------------------------------------------- the filters of an epoch

  ghost predicate BloomsHeard(c: Code, blooms: seq<(nat, Filter)>, e: SentEpoch, nums: set<nat>) {
    1 <= c.rsW <= 14 && forall j :: 0 <= j < |blooms| ==> BloomHeard(c, blooms[j].0, blooms[j].1, e, nums)
  }

  /** One of the filters has what the segment with a number can show. */
  ghost predicate Waits(c: Code, blooms: seq<(nat, Filter)>, e: SentEpoch, num: nat)
    requires 1 <= c.rsW <= 14
  {
    exists j :: 0 <= j < |blooms| && Shows(c, blooms[j].0, blooms[j].1, e, num)
  }

  lemma TakingIsHeard(c: Code, blooms: seq<(nat, Filter)>, e: SentEpoch, a: Advert, nums: set<nat>)
    requires WellSized(c, a) && FactorsOk(c) && BloomsOk(c, blooms) && BloomsHeard(c, blooms, e, nums)
    requires a.num / BF_B in e.filters && IsSegmentOf(c, a, e.filters[a.num / BF_B])
    ensures BloomsHeard(c, WithBloom(c, blooms, a), e, nums + {a.num})
    ensures forall num :: Waits(c, blooms, e, num) ==> Waits(c, WithBloom(c, blooms, a), e, num)
    ensures a.num !in nums ==> Waits(c, WithBloom(c, blooms, a), e, a.num)
  {
    var b, last, r := a.num / BF_B, |blooms| - 1, WithBloom(c, blooms, a);
    AllOnesIsHeard(c, e, b, nums);
    var f := if last >= 0 && blooms[last].0 == b then blooms[last].1 else AllOnes(SegmentSizes(c, b));
    var at := if last >= 0 && blooms[last].0 == b then last else |blooms|;
    TakenIsHeard(c, f, e, a, nums);
    assert r[at] == (b, TakeSegment(c, f, a)) && |r| <= |blooms| + 1;
    forall j | 0 <= j < |r| ensures BloomHeard(c, r[j].0, r[j].1, e, nums + {a.num}) {
      if j != at { MoreIsHeard(c, blooms[j].0, blooms[j].1, e, nums, a.num); }
    }
    forall num | Waits(c, blooms, e, num) ensures Waits(c, r, e, num) {
      var j :| 0 <= j < |blooms| && Shows(c, blooms[j].0, blooms[j].1, e, num);
      assert Shows(c, r[j].0, r[j].1, e, num);
    }
    if a.num !in nums { assert Shows(c, r[at].0, r[at].1, e, a.num); }
  }

  lemma {:induction false} KeptIsHeard(c: Code, blooms: seq<(nat, Filter)>, lastNum: nat, e: SentEpoch, nums: set<nat>)
    requires BloomsHeard(c, blooms, e, nums) && TwoSegments(blooms)
    ensures BloomsHeard(c, Kept(blooms, lastNum), e, nums)
  {
    if |blooms| > 0 {
      KeptIsHeard(c, blooms[1..], lastNum, e, nums);
      var (num, f) := blooms[0];
      assert BloomHeard(c, num, f, e, nums);
      assert BloomHeard(c, num, f.(pFalse := 1.0), e, nums);
    }
  }

  /** All filters with a new segment answer yes. */
  ghost predicate AllSayYes(c: Code, blooms: seq<(nat, Filter)>, key: Symbol, v: LinkValue) {
    forall j :: 0 <= j < |blooms| && blooms[j].1.pFalse != 1.0 ==>
      |blooms[j].1.bits| > 0 && MayContain(blooms[j].1.bits, BF_K, c.hash, Prefix(blooms[j].0, key), v)
  }

  /** Exactly those values stay. */
  lemma {:induction false} SiftedExactly(c: Code, blooms: seq<(nat, Filter)>, key: Symbol, matching: seq<LinkValue>,
                                         v: LinkValue)
    requires BloomsOk(c, blooms)
    ensures v in SiftedByBlooms(c, blooms, key, matching) <==> v in matching && AllSayYes(c, blooms, key, v)
    decreases |blooms|
  {
    if |blooms| > 0 {
      var (num, f) := blooms[0];
      SizesSum(c, num);
      var m := if f.pFalse == 1.0 then matching else Filtered(matching, Answers(c, num, f, key));
      if f.pFalse != 1.0 { FilteredExactly(matching, Answers(c, num, f, key), v); }
      SiftedExactly(c, blooms[1..], key, m, v);
      FirstSaysYes(c, blooms, key, v);
    }
  }

  lemma FirstSaysYes(c: Code, blooms: seq<(nat, Filter)>, key: Symbol, v: LinkValue)
    requires |blooms| > 0 && |blooms[0].1.bits| > 0
    ensures AllSayYes(c, blooms, key, v)
      <==> (blooms[0].1.pFalse == 1.0 || Answers(c, blooms[0].0, blooms[0].1, key)(v))
           && AllSayYes(c, blooms[1..], key, v)
  {
    var rest := blooms[1..];
    if AllSayYes(c, rest, key, v) {
      forall j | 0 < j < |blooms| && blooms[j].1.pFalse != 1.0
        ensures |blooms[j].1.bits| > 0 && MayContain(blooms[j].1.bits, BF_K, c.hash, Prefix(blooms[j].0, key), v)
      {
        assert rest[j - 1] == blooms[j];
      }
    }
  }

  // ---------------------------------------------------------------- any run

  lemma {:induction false} SiftedByAllFrom(c: Code, todo: seq<Epoch>, matching: seq<LinkValue>, v: LinkValue)
    requires EpochsValid(c, todo) && v in SiftedByAll(c, todo, matching)
    ensures v in matching
    ensures forall j :: 0 <= j < |todo| && Decoded(todo[j].dhDecoder, c.rsK, c.rebuild).isDecoded ==>
      AllSayYes(c, todo[j].blooms, Decoded(todo[j].dhDecoder, c.rsK, c.rebuild).data, v)
    decreases |todo|
  {
    if |todo| > 0 {
      assert Look(OfEpoch, 0);
      var d, left := Decoded(todo[0].dhDecoder, c.rsK, c.rebuild), SiftedByEpoch(c, todo[0], matching);
      SiftedByAllFrom(c, todo[1..], left, v);
      if d.isDecoded { SiftedExactly(c, todo[0].blooms, d.data, matching, v); }
      forall j | 0 < j < |todo| ensures todo[1..][j - 1] == todo[j] {}
    }
  }

  /** What one filter of an epoch whose key is known denies is erased in that step, and never comes back. */
  lemma {:induction false} ErasedForGood(c: Code, r: Run, matching: seq<seq<LinkValue>>, n: nat, j: nat, v: LinkValue,
                                         m: nat)
    requires CodeOk(c) && IsRun(c, r) && MatchingRun(c, r, matching) && n < m <= |r.steps| && !r.steps[n].OwnEpoch?
    requires j < |r.now[n]| && Decoded(r.now[n][j].dhDecoder, c.rsK, c.rebuild).isDecoded
    requires !AllSayYes(c, r.now[n][j].blooms, Decoded(r.now[n][j].dhDecoder, c.rsK, c.rebuild).data, v)
    ensures v !in matching[m]
    decreases m
  {
    var k := m - 1;
    assert Sifts(c, r.steps[k], r.now[k], matching[k], matching[k + 1]);
    if k > n { ErasedForGood(c, r, matching, n, j, v, k); }
    if v in matching[m] && !r.steps[k].OwnEpoch? { SiftedByAllFrom(c, r.now[k], matching[k], v); }
  }

  // ---------------------------------------------------------------- an epoch

  /**
   * What has been used of the segments that have been heard has erased what it rules out, and nothing else has been
   * erased; the rest waits in the filters.
   */
  ghost predicate Pending(c: Code, epoch: Epoch, e: SentEpoch, nums: set<nat>, used: set<nat>,
                          matching0: seq<LinkValue>, matching: seq<LinkValue>, v: LinkValue) {
    && BloomsHeard(c, epoch.blooms, e, nums) && used <= nums
    && (v in matching <==> v in matching0 && NoneRefutes(c, e, v, used))
    && (forall num :: num in nums && num !in used ==> Waits(c, epoch.blooms, e, num))
  }

  /** Between two steps all of them have been used if the key is known, and none otherwise. */
  ghost predicate Sieved(c: Code, epoch: Epoch, e: SentEpoch, nums: set<nat>, matching0: seq<LinkValue>,
                         matching: seq<LinkValue>, v: LinkValue) {
    Pending(c, epoch, e, nums, if epoch.dhDecoder.isDecoded then nums else {}, matching0, matching, v)
  }

  lemma TakingPends(c: Code, epoch: Epoch, e: SentEpoch, a: Advert, nums: set<nat>, used: set<nat>,
                    matching0: seq<LinkValue>, matching: seq<LinkValue>, v: LinkValue)
    requires EpochOk(c, e) && SentIn(c, e, a) && WellSized(c, a) && FactorsOk(c) && BloomsOk(c, epoch.blooms)
    requires Pending(c, epoch, e, nums, used, matching0, matching, v)
    ensures Pending(c, Take(c, epoch, a), e, nums + {a.num}, used, matching0, matching, v)
  {
    TakingIsHeard(c, epoch.blooms, e, a, nums);
  }

  /** The key lets all that waits be used. */
  lemma UsingSieves(c: Code, epoch: Epoch, e: SentEpoch, nums: set<nat>, used: set<nat>, matching0: seq<LinkValue>,
                    matching: seq<LinkValue>, v: LinkValue)
    requires BloomsOk(c, epoch.blooms) && Pending(c, epoch, e, nums, used, matching0, matching, v)
    ensures v in SiftedByBlooms(c, epoch.blooms, e.key, matching) <==> v in matching0 && NoneRefutes(c, e, v, nums)
  {
    var blooms := epoch.blooms;
    SiftedExactly(c, blooms, e.key, matching, v);
    if AllSayYes(c, blooms, e.key, v) {
      forall num | num in nums && num !in used ensures !Refutes(c, e, v, num) {
        var j :| 0 <= j < |blooms| && Shows(c, blooms[j].0, blooms[j].1, e, num);
        if Refutes(c, e, v, num) { RefutedIsNo(c, blooms[j].0, blooms[j].1, e, num, v); }
      }
    }
    if NoneRefutes(c, e, v, nums) {
      forall j | 0 <= j < |blooms| && blooms[j].1.pFalse != 1.0
        ensures |blooms[j].1.bits| > 0
        ensures MayContain(blooms[j].1.bits, BF_K, c.hash, Prefix(blooms[j].0, e.key), v)
      {
        SizesSum(c, blooms[j].0);
        if !MayContain(blooms[j].1.bits, BF_K, c.hash, Prefix(blooms[j].0, e.key), v) {
          NoIsRefuted(c, blooms[j].0, blooms[j].1, e, nums, v);
        }
      }
    }
  }

  lemma SettlingSieves(c: Code, epoch: Epoch, e: SentEpoch, nums: set<nat>, used: set<nat>, matching0: seq<LinkValue>,
                       matching: seq<LinkValue>, v: LinkValue)
    requires EpochValid(c, epoch) && Faithful(c, epoch, e) && Recovers(c.rebuild, c.rsK, e.codeword, e.key)
    requires Pending(c, epoch, e, nums, used, matching0, matching, v) && (!epoch.dhDecoder.isDecoded ==> used == {})
    ensures Sieved(c, Settled(c, epoch), e, nums, matching0, SiftedByEpoch(c, epoch, matching), v)
  {
    assert Look(OfEpoch, 0);
    DecodingKeepsHonest(epoch.dhDecoder, c.rsK, e.codeword, e.key, c.rebuild);
    if Decoded(epoch.dhDecoder, c.rsK, c.rebuild).isDecoded {
      UsingSieves(c, epoch, e, nums, used, matching0, matching, v);
      if |epoch.blooms| > 0 { KeptIsHeard(c, epoch.blooms, epoch.blooms[|epoch.blooms| - 1].0, e, nums); }
    }
  }

  // ---------------------------------------------------------------- runs of one epoch

  /** Before step n of a run: what has been heard of the epoch has been used as far as it can be. */
  ghost predicate SievedBefore(c: Code, e: SentEpoch, r: Run, first: Air, matching: seq<seq<LinkValue>>, v: LinkValue,
                               n: nat)
    requires n <= |r.steps| && |r.rest| == |matching| == |r.steps| + 1
  {
    var air := Heard(r.steps[..n]);
    if air == [] then v in matching[n] <==> v in matching[0]
    else |r.rest[n]| == 1 && Sieved(c, r.rest[n][0], e, Numbers(first.a.num, air), matching[0], matching[n], v)
  }

  /** Processing a single epoch. */
  lemma ProcessingSieves(c: Code, e: SentEpoch, now: seq<Epoch>, next: seq<Epoch>, nums: set<nat>, used: set<nat>,
                         matching0: seq<LinkValue>, matching: seq<LinkValue>, left: seq<LinkValue>, v: LinkValue)
    requires Processes(c, now, next) && |now| == 1 && left == SiftedByAll(c, now, matching)
    requires Faithful(c, now[0], e) && Recovers(c.rebuild, c.rsK, e.codeword, e.key)
    requires Pending(c, now[0], e, nums, used, matching0, matching, v) && (!now[0].dhDecoder.isDecoded ==> used == {})
    ensures |next| == 1 && Sieved(c, next[0], e, nums, matching0, left, v)
  {
    ProcessingOne(c, now, next);
    assert EpochValid(c, now[0]) && EpochsValid(c, now[1..]) && now[1..] == [];
    assert SiftedByAll(c, now, matching) == SiftedByEpoch(c, now[0], matching);
    SettlingSieves(c, now[0], e, nums, used, matching0, matching, v);
  }

  lemma TakingIsUsed(c: Code, epoch: Epoch, e: SentEpoch, a: Advert, first: nat, nums: set<nat>,
                     matching0: seq<LinkValue>, matching: seq<LinkValue>, v: LinkValue)
    requires EpochOk(c, e) && SentIn(c, e, a) && WellSized(c, a) && FactorsOk(c) && BloomsOk(c, epoch.blooms)
    requires Sieved(c, epoch, e, nums, matching0, matching, v) && a.num >= first
    ensures PendingBy(c, Take(c, epoch, a), e, first, a.num, nums, if epoch.dhDecoder.isDecoded then nums else {},
                      matching0, matching, v)
  {
    TakingPends(c, epoch, e, a, nums, if epoch.dhDecoder.isDecoded then nums else {}, matching0, matching, v);
    TakesSymbol(c, epoch, a);
  }

  /** With one more advertisement. */
  ghost predicate PendingBy(c: Code, epoch: Epoch, e: SentEpoch, first: nat, num: nat, nums: set<nat>, used: set<nat>,
                            matching0: seq<LinkValue>, matching: seq<LinkValue>, v: LinkValue) {
    && Pending(c, epoch, e, nums + (if num >= first then {num} else {}), used, matching0, matching, v)
    && (!epoch.dhDecoder.isDecoded ==> used == {})
  }

  lemma RepeatPends(c: Code, epoch: Epoch, e: SentEpoch, first: nat, num: nat, nums: set<nat>,
                    matching0: seq<LinkValue>, matching: seq<LinkValue>, v: LinkValue)
    requires Sieved(c, epoch, e, nums, matching0, matching, v) && (num >= first ==> num in nums)
    ensures PendingBy(c, epoch, e, first, num, nums, if epoch.dhDecoder.isDecoded then nums else {}, matching0,
                      matching, v)
  {
    assert nums + (if num >= first then {num} else {}) == nums;
  }

  /** The first advertisement of the epoch is heard. */
  lemma BeginningPends(c: Code, e: SentEpoch, x: Air, exchange: int, yCoord: bool, now: seq<Epoch>,
                       matching0: seq<LinkValue>, matching: seq<LinkValue>, v: LinkValue)
    requires EpochOk(c, e) && FactorsOk(c) && SentIn(c, e, x.a) && Hears(c, [], x, exchange, yCoord, now)
    requires v in matching <==> v in matching0
    ensures |now| == 1 && PendingBy(c, now[0], e, x.a.num, x.a.num, {}, {}, matching0, matching, v)
  {
    HearsNew(c, [], x, exchange, yCoord, now);
    TakingIsUsed(c, Epoch(x.a.num, x.time, EMPTY, [exchange], yCoord, [], 0), e, x.a, x.a.num, {}, matching0, matching,
                 v);
  }

  /** Another one is heard. */
  lemma FollowingPends(c: Code, e: SentEpoch, epochs: seq<Epoch>, first: Air, x: Air, exchange: int, yCoord: bool,
                       now: seq<Epoch>, nums: set<nat>, matching0: seq<LinkValue>, matching: seq<LinkValue>,
                       v: LinkValue)
    requires EpochOk(c, e) && FactorsOk(c) && SentIn(c, e, x.a) && Hears(c, epochs, x, exchange, yCoord, now)
    requires BeganWith(epochs, true, first) && Follows(first, x) && first.a.num in nums
    requires Sieved(c, epochs[0], e, nums, matching0, matching, v)
    ensures |now| == 1 && PendingBy(c, now[0], e, first.a.num, x.a.num, nums,
                                    if epochs[0].dhDecoder.isDecoded then nums else {}, matching0, matching, v)
  {
    FollowsExactly(epochs, first, x);
    if Classify(epochs, x.a.num, x.time) == ToCurrent {
      HearsCurrent(c, epochs, x, exchange, yCoord, now);
      TakingIsUsed(c, epochs[0], e, x.a, first.a.num, nums, matching0, matching, v);
    } else {
      HearsDuplicate(c, epochs, x, exchange, yCoord, now);
      RepeatPends(c, epochs[0], e, first.a.num, x.a.num, nums, matching0, matching, v);
    }
  }

  lemma SieveStep(c: Code, e: SentEpoch, r: Run, first: Air, matching: seq<seq<LinkValue>>, v: LinkValue, n: nat)
    requires OneEpochRun(c, e, r, first) && MatchingRun(c, r, matching) && FactorsOk(c) && n < |r.steps|
    requires Recovers(c.rebuild, c.rsK, e.codeword, e.key) && SievedBefore(c, e, r, first, matching, v, n)
    requires OneBefore(r, first, n) && BeganWith(r.now[n], Heard(r.steps[..n + 1]) != [], first)
    requires Gathered(c, r, first, n) && (r.now[n] != [] ==> Faithful(c, r.now[n][0], e))
    ensures SievedBefore(c, e, r, first, matching, v, n + 1)
  {
    var air, nums, step := Heard(r.steps[..n]), Numbers(first.a.num, Heard(r.steps[..n])), r.steps[n];
    HeardNext(r.steps, n);
    assert Moves(c, step, r.rest[n], r.now[n], r.rest[n + 1]) && Sifts(c, step, r.now[n], matching[n], matching[n + 1]);
    assert Look(OfMove, 0);
    match step
    case Hear(x, exchange, yCoord) =>
      OneMoreNumber(first.a.num, air, x);
      if air == [] {
        BeginningPends(c, e, x, exchange, yCoord, r.now[n], matching[0], matching[n], v);
      } else {
        FollowingPends(c, e, r.rest[n], first, x, exchange, yCoord, r.now[n], nums, matching[0], matching[n], v);
      }
      var used := if air != [] && r.rest[n][0].dhDecoder.isDecoded then nums else {};
      ProcessingSieves(c, e, r.now[n], r.rest[n + 1], Numbers(first.a.num, air + [x]), used, matching[0], matching[n],
                       matching[n + 1], v);
    case BadNumber =>
      assert Heard(r.steps[..n + 1]) == air;
      if air == [] {
        assert SiftedByAll(c, r.now[n], matching[n]) == matching[n];
      } else {
        var used := if r.rest[n][0].dhDecoder.isDecoded then nums else {};
        ProcessingSieves(c, e, r.now[n], r.rest[n + 1], nums, used, matching[0], matching[n], matching[n + 1], v);
      }
    case OwnEpoch(passive, exchange) => assert Heard(r.steps[..n + 1]) == air;
  }

  lemma {:induction false} AlwaysSieved(c: Code, e: SentEpoch, r: Run, first: Air, matching: seq<seq<LinkValue>>,
                                        v: LinkValue, n: nat)
    requires OneEpochRun(c, e, r, first) && MatchingRun(c, r, matching) && FactorsOk(c) && n <= |r.steps|
    requires Recovers(c.rebuild, c.rsK, e.codeword, e.key)
    ensures SievedBefore(c, e, r, first, matching, v, n)
  {
    if n > 0 {
      var m := n - 1;
      AlwaysSieved(c, e, r, first, matching, v, m);
      AlwaysOne(c, e, r, first, m);
      AllGathered(c, e, r, first, m);
      RunIsAtRest(c, r, m);
      OneStep(c, e, r, first, m);
      OneEpochIsRight(c, e, r, first);
      RightRunIsOwned(c, [e], r, OneSender(|r.steps|), AllOwners(r.rest), m);
      if r.now[m] != [] { assert Owned(c, r.now[m], OwnersNow(r.steps[m], 0, r.rest[m], OneOwner(r.rest[m])), [e]); }
      SieveStep(c, e, r, first, matching, v, m);
    }
  }

  /**
   * Whatever part of the advertisements of one epoch is heard, in any order after the first one and with any repeats:
   * as soon as there are enough of them, exactly those link values match that no segment that has been heard rules out;
   * and nothing is erased before.
   */
  lemma MatchesExactly(c: Code, e: SentEpoch, r: Run, first: Air, matching: seq<seq<LinkValue>>, v: LinkValue, n: nat)
    requires OneEpochRun(c, e, r, first) && MatchingRun(c, r, matching) && FactorsOk(c) && n <= |r.steps|
    requires Recovers(c.rebuild, c.rsK, e.codeword, e.key)
    ensures var nums := Numbers(first.a.num, Heard(r.steps[..n]));
      v in matching[n] <==> v in matching[0] && (|nums| >= c.rsK ==> NoneRefutes(c, e, v, nums))
  {
    AlwaysSieved(c, e, r, first, matching, v, n);
    if Heard(r.steps[..n]) == [] {
      assert Numbers(first.a.num, Heard(r.steps[..n])) == {};
    } else {
      AnyEnoughDecode(c, e, r, first, n);
    }
  }

  /** A value that is not in a filter is ruled out by one of its segments. */
  lemma NotInFilter(c: Code, e: SentEpoch, v: LinkValue, b: nat)
    requires EpochOk(c, e) && b in e.filters && |e.filters[b]| > 0
    requires !MayContain(e.filters[b], BF_K, c.hash, Prefix(b, e.key), v)
    ensures Refutes(c, e, v, b * BF_B) || Refutes(c, e, v, b * BF_B + 1)
  {
    var sizes := SegmentSizes(c, b);
    SizesSum(c, b);
    OffsetStep(sizes, 0);
    OffsetStep(sizes, 1);
    assert sizes[..2] == sizes;
    var k: nat :| k < BF_K && !e.filters[b][c.hash(Prefix(b, e.key), v, k) % |e.filters[b]|];
    var i := Place(c, e, v, b, k);
    assert (b * BF_B) / BF_B == b && (b * BF_B + 1) / BF_B == b;
    assert (b * BF_B) % BF_B == 0 && (b * BF_B + 1) % BF_B == 1;
    assert InSegment(c, b * BF_B, i) || InSegment(c, b * BF_B + 1, i);
  }

  /**
   * The converse of no match being lost: a link value that is not in a filter of the sender does not match any more
   * when all of that filter has been heard and there are enough advertisements to decode the key.
   */
  lemma OthersAreErased(c: Code, e: SentEpoch, r: Run, first: Air, matching: seq<seq<LinkValue>>, v: LinkValue, n: nat,
                        b: nat)
    requires OneEpochRun(c, e, r, first) && MatchingRun(c, r, matching) && FactorsOk(c) && n <= |r.steps|
    requires Recovers(c.rebuild, c.rsK, e.codeword, e.key)
    requires b in e.filters && |e.filters[b]| > 0 && !MayContain(e.filters[b], BF_K, c.hash, Prefix(b, e.key), v)
    requires {b * BF_B, b * BF_B + 1} <= Numbers(first.a.num, Heard(r.steps[..n]))
    requires |Numbers(first.a.num, Heard(r.steps[..n]))| >= c.rsK
    ensures v !in matching[n]
  {
    MatchesExactly(c, e, r, first, matching, v, n);
    NotInFilter(c, e, v, b);
  }
}
