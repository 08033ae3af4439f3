/**
 * What a receiver makes of the advertisements of the Bluetooth 4 radio, source/EbNRadioBT4.cpp. The number and the
 * time that are called the last ones of an epoch are those of its first advertisement.
 */
module BT4Receiver {
  import opened BT4Advert
  import opened BloomFilter
  import opened Device
  import opened ErasureDecoder
  import opened Hiding
  import opened Radio

  datatype Epoch = Epoch(
    lastAdvertNum: nat, lastAdvertTime: nat, dhDecoder: Decoder, dhExchanges: seq<int>, yCoord: bool,
    blooms: seq<(nat, Filter)>, decodeBloomNum: nat)

  datatype Belongs = ToDuplicate | ToCurrent | ToNew

  /** Which epoch an advertisement belongs to. */
  function Classify(epochs: seq<Epoch>, num: nat, time: nat): Belongs {
    if |epochs| == 0 then ToNew
    else
      var cur := epochs[|epochs| - 1];
      var elapsed := Elapsed(time, cur.lastAdvertTime);
      if cur.lastAdvertNum == num || cur.lastAdvertNum == num + 1 then
        if elapsed < ADV_N / 2 * SCAN_INTERVAL then ToDuplicate else ToNew
      else if cur.lastAdvertNum < num && elapsed < (num - cur.lastAdvertNum + 6) * SCAN_INTERVAL / 2 then ToCurrent
      else ToNew
  }

  predicate BloomsOk(c: Code, blooms: seq<(nat, Filter)>) {
    && 1 <= c.rsW <= 14
    && forall i :: 0 <= i < |blooms| ==> LaidOut(blooms[i].1) && blooms[i].1.sizes == SegmentSizes(c, blooms[i].0)
  }

  /** The counts are right, the filters have their layout, and an epoch that is not decoded has a filter. */
  ghost predicate EpochValid(c: Code, e: Epoch) {
    forall k: nat :: Look(OfEpoch, k) ==>
      && Counted(e.dhDecoder) && BloomsOk(c, e.blooms)
      && (forall i :: i in e.dhDecoder.received ==> i < CodeLength(c))
      && (!e.dhDecoder.isDecoded ==> e.blooms != [])
  }

  ghost predicate EpochsValid(c: Code, epochs: seq<Epoch>) {
    forall i :: 0 <= i < |epochs| ==> EpochValid(c, epochs[i])
  }

  /** Between two advertisements there are at most two epochs, and the older one is not decoded. */
  ghost predicate AtRest(c: Code, epochs: seq<Epoch>) {
    EpochsValid(c, epochs) && |epochs| <= 2 && (|epochs| == 2 ==> !epochs[0].dhDecoder.isDecoded)
  }

  lemma SegmentFitsLayout(c: Code, a: Advert)
    requires WellSized(c, a)
    ensures |a.segment| == SegmentSizes(c, a.num / BF_B)[a.num % BF_B]
  {
    assert a.num == a.num / BF_B * BF_B + a.num % BF_B;
  }

  /** A filter takes the segment of an advertisement. */
  function TakeSegment(c: Code, f: Filter, a: Advert): (r: Filter)
    requires WellSized(c, a) && LaidOut(f) && f.sizes == SegmentSizes(c, a.num / BF_B)
    ensures LaidOut(r) && r.sizes == f.sizes
  {
    SegmentFitsLayout(c, a);
    WithSegment(f, a.num % BF_B, a.segment, c.factor(f.sizes, a.num % BF_B))
  }

  /** The filter at the end of the list takes the segment, or a new one does. */
  function WithBloom(c: Code, blooms: seq<(nat, Filter)>, a: Advert): (r: seq<(nat, Filter)>)
    requires WellSized(c, a) && BloomsOk(c, blooms)
    ensures BloomsOk(c, r) && r != []
  {
    var bloomNum, last := a.num / BF_B, |blooms| - 1;
    if last >= 0 && blooms[last].0 == bloomNum then blooms[last := (bloomNum, TakeSegment(c, blooms[last].1, a))]
    else blooms + [(bloomNum, TakeSegment(c, AllOnes(SegmentSizes(c, bloomNum)), a))]
  }

  /** The current epoch takes the symbol and the segment. */
  function Take(c: Code, e: Epoch, a: Advert): (r: Epoch)
    requires WellSized(c, a) && BloomsOk(c, e.blooms)
    ensures BloomsOk(c, r.blooms)
  {
    e.(dhDecoder := WithSymbol(e.dhDecoder, a.num, a.symbol), blooms := WithBloom(c, e.blooms, a))
  }

  /** The epoch before takes the symbol that was left over, as long as it is not decoded. */
  function TakeLeftover(c: Code, e: Epoch, a: Advert): Epoch {
    if a.num < c.rsK - 1 && !e.dhDecoder.isDecoded then
      e.(dhDecoder := WithSymbol(e.dhDecoder, a.num + ADV_N, a.leftover))
    else e
  }

  /** The advertisement belongs to the newest epoch; the oldest of several takes what was left over. */
  function AfterCurrent(c: Code, epochs: seq<Epoch>, a: Advert): seq<Epoch>
    requires WellSized(c, a) && |epochs| > 0 && BloomsOk(c, epochs[|epochs| - 1].blooms)
  {
    var last := |epochs| - 1;
    var taken := epochs[last := Take(c, epochs[last], a)];
    if last > 0 then taken[0 := TakeLeftover(c, epochs[0], a)] else taken
  }

  /** The advertisement begins an epoch; the one that was the newest takes what was left over. */
  function AfterNew(c: Code, epochs: seq<Epoch>, a: Advert, e: Epoch): seq<Epoch>
    requires WellSized(c, a) && BloomsOk(c, e.blooms)
  {
    var last := |epochs| - 1;
    (if last >= 0 then epochs[last := TakeLeftover(c, epochs[last], a)] else []) + [Take(c, e, a)]
  }

  /** What an advertisement does to the epochs of a device. */
  ghost function AfterAdvert(c: Code, epochs: seq<Epoch>, a: Advert, time: nat, exchange: int, yCoord: bool): seq<Epoch>
    requires WellSized(c, a) && EpochsValid(c, epochs)
  {
    assert Look(OfEpoch, 0);
    match Classify(epochs, a.num, time)
    case ToDuplicate => epochs
    case ToCurrent => AfterCurrent(c, epochs, a)
    case ToNew => AfterNew(c, epochs, a, Epoch(a.num, time, EMPTY, [exchange], yCoord, [], 0))
  }

  /** What a new exchange of the receiver does to the epochs: the newest one will complete it once it is decoded. */
  function WithExchange(passive: bool, epochs: seq<Epoch>, exchange: int): seq<Epoch> {
    var last := |epochs| - 1;
    if passive && last >= 0 && !epochs[last].dhDecoder.isDecoded then
      epochs[last := epochs[last].(dhExchanges := epochs[last].dhExchanges + [exchange])]
    else epochs
  }

  // ---------------------------------------------------------------- processing the epochs

  /** The filters that are still needed: those like the last one, unless their last segment is there. */
  function Kept(blooms: seq<(nat, Filter)>, lastNum: nat): seq<(nat, Filter)>
    requires TwoSegments(blooms)
  {
    if |blooms| == 0 then []
    else
      var (num, f) := blooms[0];
      var rest := Kept(blooms[1..], lastNum);
      if num != lastNum || f.filled[BF_B - 1] then rest else [(num, f.(pFalse := 1.0))] + rest
  }

  predicate TwoSegments(blooms: seq<(nat, Filter)>) {
    forall i :: 0 <= i < |blooms| ==> |blooms[i].1.filled| == BF_B
  }

  function KeptOfAll(blooms: seq<(nat, Filter)>): seq<(nat, Filter)>
    requires TwoSegments(blooms)
  {
    if |blooms| == 0 then [] else Kept(blooms, blooms[|blooms| - 1].0)
  }

  /** Decoding an epoch when there are enough symbols. */
  ghost function DecodedEpoch(c: Code, e: Epoch): Epoch
    requires EpochValid(c, e)
  {
    assert Look(OfEpoch, 0);
    if e.dhDecoder.isDecoded || !CanDecode(e.dhDecoder, c.rsK) then e
    else e.(dhDecoder := Decoded(e.dhDecoder, c.rsK, c.rebuild), decodeBloomNum := e.blooms[|e.blooms| - 1].0)
  }

  /** An epoch after it has been decoded, if that is possible, and its filters have been used. */
  ghost function Settled(c: Code, e: Epoch): Epoch
    requires EpochValid(c, e)
  {
    assert Look(OfEpoch, 0);
    var d := DecodedEpoch(c, e);
    if d.dhDecoder.isDecoded then d.(blooms := KeptOfAll(e.blooms)) else d
  }

  /** Past epochs go when they are decoded, or when there are more than two. */
  ghost function Processed(c: Code, done: seq<Epoch>, todo: seq<Epoch>): seq<Epoch>
    requires EpochsValid(c, todo)
    decreases |todo|
  {
    if |todo| == 0 then done
    else
      var e := Settled(c, todo[0]);
      if |todo| > 1 && (e.dhDecoder.isDecoded || |done| + |todo| > 2) then Processed(c, done, todo[1..])
      else Processed(c, done + [e], todo[1..])
  }

  /** The answers of a filter, with the prefix of its number and of the key. */
  function Answers(c: Code, num: nat, f: Filter, key: Symbol): LinkValue -> bool
    requires |f.bits| > 0
  {
    v => MayContain(f.bits, BF_K, c.hash, Prefix(num, key), v)
  }

  /** What the answers of the new filters of an epoch leave of the link values. */
  function SiftedByBlooms(c: Code, blooms: seq<(nat, Filter)>, key: Symbol, matching: seq<LinkValue>): seq<LinkValue>
    requires BloomsOk(c, blooms)
  {
    if |blooms| == 0 then matching
    else
      var (num, f) := blooms[0];
      SizesSum(c, num);
      var m := if f.pFalse == 1.0 then matching
               else Filtered(matching, Answers(c, num, f, key));
      SiftedByBlooms(c, blooms[1..], key, m)
  }

  ghost function SiftedByEpoch(c: Code, e: Epoch, matching: seq<LinkValue>): seq<LinkValue>
    requires EpochValid(c, e)
  {
    assert Look(OfEpoch, 0);
    var d := Decoded(e.dhDecoder, c.rsK, c.rebuild);
    if d.isDecoded then SiftedByBlooms(c, e.blooms, d.data, matching) else matching
  }

  ghost function SiftedByAll(c: Code, todo: seq<Epoch>, matching: seq<LinkValue>): seq<LinkValue>
    requires EpochsValid(c, todo)
    decreases |todo|
  {
    if |todo| == 0 then matching else SiftedByAll(c, todo[1..], SiftedByEpoch(c, todo[0], matching))
  }
}
