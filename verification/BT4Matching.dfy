/**
 * No match is lost: a link value that a receiver listens for and that is in the filters of a sender stays in the
 * matching set, whatever part of the advertisements is heard, and in whatever order, as long as every one of them is
 * taken for one of the epoch that it was sent in.
 */
module BT4Matching {
  import opened BT4Advert
  import opened BT4Decoding
  import opened BT4Receiver
  import opened BloomFilter
  import opened Device
  import opened ErasureDecoder
  import opened Hiding

  /** All that an epoch of the receiver holds comes from one epoch of the sender. */
  ghost predicate Faithful(c: Code, epoch: Epoch, e: SentEpoch) {
    && Honest(epoch.dhDecoder, c.rsK, e.codeword, e.key)
    && BloomsFaithful(epoch.blooms, e)
  }

  ghost predicate BloomsFaithful(blooms: seq<(nat, Filter)>, e: SentEpoch) {
    forall j :: 0 <= j < |blooms| ==> BloomFaithful(blooms[j], e)
  }

  /** A filter of the receiver has all bits of the sender's: what has not been received is all ones. */
  ghost predicate BloomFaithful(bloom: (nat, Filter), e: SentEpoch) {
    bloom.0 in e.filters && Covers(bloom.1.bits, e.filters[bloom.0])
  }

  /** The link value is in all filters of the epoch. */
  ghost predicate InAllFilters(c: Code, e: SentEpoch, v: LinkValue) {
    forall b :: b in e.filters ==>
      |e.filters[b]| > 0 && MayContain(e.filters[b], BF_K, c.hash, Prefix(b, e.key), v)
  }

  // ---------------------------------------------------------------- single steps

  /** The segment of a filter that is sent. */
  predicate IsSegmentOf(c: Code, a: Advert, sent: Bits)
    requires 1 <= c.rsW <= 14
  {
    && |sent| == Sum(SegmentSizes(c, a.num / BF_B))
    && a.segment == Segment(sent, SegmentSizes(c, a.num / BF_B), a.num % BF_B)
  }

  lemma SegmentIsFaithful(c: Code, f: Filter, e: SentEpoch, a: Advert)
    requires WellSized(c, a) && LaidOut(f) && f.sizes == SegmentSizes(c, a.num / BF_B)
    requires a.num / BF_B in e.filters && IsSegmentOf(c, a, e.filters[a.num / BF_B])
    requires Covers(f.bits, e.filters[a.num / BF_B])
    ensures BloomFaithful((a.num / BF_B, TakeSegment(c, f, a)), e)
  {
    SegmentFitsLayout(c, a);
    SegmentKeepsCover(f, a.num % BF_B, e.filters[a.num / BF_B], c.factor(f.sizes, a.num % BF_B));
  }

  lemma FirstIsFaithful(c: Code, e: SentEpoch, a: Advert)
    requires WellSized(c, a) && a.num / BF_B in e.filters && IsSegmentOf(c, a, e.filters[a.num / BF_B])
    ensures BloomFaithful((a.num / BF_B, TakeSegment(c, AllOnes(SegmentSizes(c, a.num / BF_B)), a)), e)
  {
    SegmentIsFaithful(c, AllOnes(SegmentSizes(c, a.num / BF_B)), e, a);
  }

  lemma WithBloomIsFaithful(c: Code, blooms: seq<(nat, Filter)>, e: SentEpoch, a: Advert)
    requires WellSized(c, a) && BloomsOk(c, blooms)
    requires a.num / BF_B in e.filters && IsSegmentOf(c, a, e.filters[a.num / BF_B])
    requires BloomsFaithful(blooms, e)
    ensures BloomsFaithful(WithBloom(c, blooms, a), e)
  {
    if |blooms| > 0 && blooms[|blooms| - 1].0 == a.num / BF_B {
      LastIsFaithful(c, blooms, e, a);
    } else {
      FirstIsFaithful(c, e, a);
      BloomAdded(blooms, e, (a.num / BF_B, TakeSegment(c, AllOnes(SegmentSizes(c, a.num / BF_B)), a)));
    }
  }

  lemma LastIsFaithful(c: Code, blooms: seq<(nat, Filter)>, e: SentEpoch, a: Advert)
    requires WellSized(c, a) && BloomsOk(c, blooms) && |blooms| > 0 && blooms[|blooms| - 1].0 == a.num / BF_B
    requires a.num / BF_B in e.filters && IsSegmentOf(c, a, e.filters[a.num / BF_B])
    requires BloomsFaithful(blooms, e)
    ensures BloomsFaithful(WithBloom(c, blooms, a), e)
  {
    var last := |blooms| - 1;
    assert BloomFaithful(blooms[last], e);
    SegmentIsFaithful(c, blooms[last].1, e, a);
    BloomReplaced(blooms, e, last, (a.num / BF_B, TakeSegment(c, blooms[last].1, a)));
  }

  lemma BloomReplaced(blooms: seq<(nat, Filter)>, e: SentEpoch, i: nat, bloom: (nat, Filter))
    requires i < |blooms| && BloomFaithful(bloom, e)
    requires BloomsFaithful(blooms, e)
    ensures BloomsFaithful(blooms[i := bloom], e)
  {}

  lemma BloomAdded(blooms: seq<(nat, Filter)>, e: SentEpoch, bloom: (nat, Filter))
    requires BloomFaithful(bloom, e)
    requires BloomsFaithful(blooms, e)
    ensures BloomsFaithful(blooms + [bloom], e)
  {}

  lemma TakeIsFaithful(c: Code, epoch: Epoch, e: SentEpoch, a: Advert)
    requires EpochOk(c, e) && SentIn(c, e, a) && WellSized(c, a) && EpochValid(c, epoch) && Faithful(c, epoch, e)
    ensures BloomsOk(c, epoch.blooms) && Faithful(c, Take(c, epoch, a), e)
  {
    assert Look(OfEpoch, 0);
    assert Fits(c, c.encode(e.key));
    WithBloomIsFaithful(c, epoch.blooms, e, a);
    SymbolKeepsHonest(epoch.dhDecoder, c.rsK, e.codeword, e.key, a.num);
  }

  /** The symbol that is left over is one of the epoch before. */
  predicate LeftFrom(c: Code, codeword: seq<Symbol>, a: Advert) {
    a.num < c.rsK - 1 ==> a.num + ADV_N < |codeword| && a.leftover == codeword[a.num + ADV_N]
  }

  lemma SentLeftover(c: Code, e: SentEpoch, next: SentEpoch, a: Advert)
    requires EpochOk(c, next) && next.before == e.codeword && SentIn(c, next, a)
    ensures LeftFrom(c, e.codeword, a)
  {}

  lemma LeftoverIsFaithful(c: Code, epoch: Epoch, e: SentEpoch, a: Advert)
    requires LeftFrom(c, e.codeword, a) && Faithful(c, epoch, e)
    ensures Faithful(c, TakeLeftover(c, epoch, a), e)
  {
    if a.num < c.rsK - 1 && !epoch.dhDecoder.isDecoded {
      SymbolKeepsHonest(epoch.dhDecoder, c.rsK, e.codeword, e.key, a.num + ADV_N);
    }
  }

  lemma {:induction false} KeptIsFaithful(blooms: seq<(nat, Filter)>, lastNum: nat, e: SentEpoch)
    requires BloomsFaithful(blooms, e) && TwoSegments(blooms)
    ensures BloomsFaithful(Kept(blooms, lastNum), e)
  {
    if |blooms| > 0 {
      KeptIsFaithful(blooms[1..], lastNum, e);
      assert BloomFaithful(blooms[0], e);
    }
  }

  lemma SettledIsFaithful(c: Code, epoch: Epoch, e: SentEpoch)
    requires EpochValid(c, epoch) && Faithful(c, epoch, e) && Recovers(c.rebuild, c.rsK, e.codeword, e.key)
    ensures Faithful(c, Settled(c, epoch), e)
  {
    assert Look(OfEpoch, 0);
    DecodingKeepsHonest(epoch.dhDecoder, c.rsK, e.codeword, e.key, c.rebuild);
    if |epoch.blooms| > 0 { KeptIsFaithful(epoch.blooms, epoch.blooms[|epoch.blooms| - 1].0, e); }
  }

  /** A filter that has all bits of the sender's answers yes. */
  lemma {:induction false} SiftedKeeps(c: Code, blooms: seq<(nat, Filter)>, e: SentEpoch, matching: seq<LinkValue>,
                                       v: LinkValue)
    requires BloomsOk(c, blooms) && InAllFilters(c, e, v) && v in matching
    requires BloomsFaithful(blooms, e)
    ensures v in SiftedByBlooms(c, blooms, e.key, matching)
    decreases |blooms|
  {
    if |blooms| > 0 {
      var (num, f) := blooms[0];
      assert BloomFaithful(blooms[0], e);
      CoverKeepsValue(f.bits, e.filters[num], BF_K, c.hash, Prefix(num, e.key), v);
      SizesSum(c, num);
      var m := if f.pFalse == 1.0 then matching
               else Filtered(matching, Answers(c, num, f, e.key));
      if f.pFalse != 1.0 { FilteredExactly(matching, Answers(c, num, f, e.key), v); }
      SiftedKeeps(c, blooms[1..], e, m, v);
    }
  }

  lemma EpochKeeps(c: Code, epoch: Epoch, e: SentEpoch, matching: seq<LinkValue>, v: LinkValue)
    requires EpochValid(c, epoch) && Faithful(c, epoch, e) && Recovers(c.rebuild, c.rsK, e.codeword, e.key)
    requires InAllFilters(c, e, v) && v in matching
    ensures v in SiftedByEpoch(c, epoch, matching)
  {
    assert Look(OfEpoch, 0);
    DecodingKeepsHonest(epoch.dhDecoder, c.rsK, e.codeword, e.key, c.rebuild);
    if Decoded(epoch.dhDecoder, c.rsK, c.rebuild).isDecoded {
      SiftedKeeps(c, epoch.blooms, e, matching, v);
    }
  }

  // ---------------------------------------------------------------- epochs and their senders

  /** One epoch of a sender after the other, each with the leftover symbols of the one before. */
  ghost predicate Sequel(c: Code, es: seq<SentEpoch>) {
    && (forall s :: 0 <= s < |es| ==> EpochOk(c, es[s]))
    && (forall s :: 0 < s < |es| ==> es[s].before == es[s - 1].codeword)
  }

  /** The epochs of a sender, and a code that recovers their keys. */
  ghost predicate SenderEpochs(c: Code, es: seq<SentEpoch>) {
    Sequel(c, es) && forall s :: 0 <= s < |es| ==> Recovers(c.rebuild, c.rsK, es[s].codeword, es[s].key)
  }

  /** Every epoch of the receiver comes from the epoch of the sender that it is said to come from. */
  ghost predicate Owned(c: Code, epochs: seq<Epoch>, owners: seq<nat>, es: seq<SentEpoch>) {
    && |owners| == |epochs|
    && forall i :: 0 <= i < |epochs| ==> owners[i] < |es| && Faithful(c, epochs[i], es[owners[i]])
  }

  /**
   * An advertisement of the epoch s is taken for one of that epoch; if it has a symbol that was left over, and there is
   * an epoch before that can use it, then that is the right one.
   */
  predicate RightlyAssigned(c: Code, epochs: seq<Epoch>, owners: seq<nat>, x: Air, s: nat)
    requires |owners| == |epochs|
  {
    var last := |epochs| - 1;
    match Classify(epochs, x.a.num, x.time)
    case ToDuplicate => true
    case ToCurrent =>
      owners[last] == s && (last > 0 && x.a.num < c.rsK - 1 && !epochs[0].dhDecoder.isDecoded ==> owners[0] + 1 == s)
    case ToNew => last >= 0 && x.a.num < c.rsK - 1 && !epochs[last].dhDecoder.isDecoded ==> owners[last] + 1 == s
  }

  function OwnersAfter(epochs: seq<Epoch>, owners: seq<nat>, x: Air, s: nat): seq<nat> {
    if Classify(epochs, x.a.num, x.time) == ToNew then owners + [s] else owners
  }

  lemma ReplacedIsOwned(c: Code, epochs: seq<Epoch>, owners: seq<nat>, es: seq<SentEpoch>, i: nat, x: Epoch)
    requires Owned(c, epochs, owners, es) && i < |epochs| && Faithful(c, x, es[owners[i]])
    ensures Owned(c, epochs[i := x], owners, es)
  {}

  lemma AddedIsOwned(c: Code, epochs: seq<Epoch>, owners: seq<nat>, es: seq<SentEpoch>, s: nat, x: Epoch)
    requires Owned(c, epochs, owners, es) && s < |es| && Faithful(c, x, es[s])
    ensures Owned(c, epochs + [x], owners + [s], es)
  {}

  /** The epoch before the one that was sent takes the leftover symbol, unless it has no use for it. */
  lemma PastIsFaithful(c: Code, epoch: Epoch, owner: nat, es: seq<SentEpoch>, a: Advert, s: nat)
    requires SenderEpochs(c, es) && s < |es| && owner < |es| && Faithful(c, epoch, es[owner]) && SentIn(c, es[s], a)
    requires a.num < c.rsK - 1 && !epoch.dhDecoder.isDecoded ==> owner + 1 == s
    ensures Faithful(c, TakeLeftover(c, epoch, a), es[owner])
  {
    if a.num < c.rsK - 1 && !epoch.dhDecoder.isDecoded {
      SentLeftover(c, es[owner], es[s], a);
      LeftoverIsFaithful(c, epoch, es[owner], a);
    }
  }

  lemma CurrentIsOwned(c: Code, epochs: seq<Epoch>, owners: seq<nat>, es: seq<SentEpoch>, a: Advert, s: nat)
    requires SenderEpochs(c, es) && s < |es| && Owned(c, epochs, owners, es) && EpochsValid(c, epochs) && |epochs| > 0
    requires SentIn(c, es[s], a) && WellSized(c, a) && owners[|epochs| - 1] == s
    requires |epochs| > 1 && a.num < c.rsK - 1 && !epochs[0].dhDecoder.isDecoded ==> owners[0] + 1 == s
    ensures BloomsOk(c, epochs[|epochs| - 1].blooms)
    ensures var taken := epochs[|epochs| - 1 := Take(c, epochs[|epochs| - 1], a)];
      Owned(c, if |epochs| > 1 then taken[0 := TakeLeftover(c, epochs[0], a)] else taken, owners, es)
  {
    var last := |epochs| - 1;
    TakeIsFaithful(c, epochs[last], es[s], a);
    ReplacedIsOwned(c, epochs, owners, es, last, Take(c, epochs[last], a));
    if last > 0 {
      PastIsFaithful(c, epochs[0], owners[0], es, a, s);
      ReplacedIsOwned(c, epochs[last := Take(c, epochs[last], a)], owners, es, 0, TakeLeftover(c, epochs[0], a));
    }
  }

  lemma NewIsOwned(c: Code, epochs: seq<Epoch>, owners: seq<nat>, es: seq<SentEpoch>, a: Advert, s: nat, e: Epoch)
    requires SenderEpochs(c, es) && s < |es| && Owned(c, epochs, owners, es)
    requires SentIn(c, es[s], a) && WellSized(c, a) && e.dhDecoder == EMPTY && e.blooms == []
    requires |epochs| > 0 && a.num < c.rsK - 1 && !epochs[|epochs| - 1].dhDecoder.isDecoded ==>
      owners[|epochs| - 1] + 1 == s
    ensures var last := |epochs| - 1;
      var before := if last >= 0 then epochs[last := TakeLeftover(c, epochs[last], a)] else [];
      Owned(c, before + [Take(c, e, a)], owners + [s], es)
  {
    var last := |epochs| - 1;
    NewIsTaken(c, e, es[s], a);
    if last >= 0 {
      PastIsFaithful(c, epochs[last], owners[last], es, a, s);
      ReplacedIsOwned(c, epochs, owners, es, last, TakeLeftover(c, epochs[last], a));
      AddedIsOwned(c, epochs[last := TakeLeftover(c, epochs[last], a)], owners, es, s, Take(c, e, a));
    } else {
      AddedIsOwned(c, [], [], es, s, Take(c, e, a));
    }
  }

  lemma NewIsTaken(c: Code, epoch: Epoch, e: SentEpoch, a: Advert)
    requires EpochOk(c, e) && SentIn(c, e, a) && WellSized(c, a) && epoch.dhDecoder == EMPTY && epoch.blooms == []
    ensures BloomsOk(c, epoch.blooms) && Faithful(c, Take(c, epoch, a), e)
  {
    assert Fits(c, c.encode(e.key));
    WithBloomIsFaithful(c, epoch.blooms, e, a);
    SymbolKeepsHonest(epoch.dhDecoder, c.rsK, e.codeword, e.key, a.num);
  }

  lemma HearingKeepsOwners(c: Code, epochs: seq<Epoch>, owners: seq<nat>, es: seq<SentEpoch>, x: Air, s: nat,
                           exchange: int, yCoord: bool, now: seq<Epoch>)
    requires SenderEpochs(c, es) && s < |es| && Owned(c, epochs, owners, es) && SentIn(c, es[s], x.a)
    requires Hears(c, epochs, x, exchange, yCoord, now) && RightlyAssigned(c, epochs, owners, x, s)
    ensures Owned(c, now, OwnersAfter(epochs, owners, x, s), es)
  {
    assert Look(OfStep, 0);
    match Classify(epochs, x.a.num, x.time)
    case ToDuplicate =>
    case ToCurrent => CurrentIsOwned(c, epochs, owners, es, x.a, s);
    case ToNew =>
      NewIsOwned(c, epochs, owners, es, x.a, s, Epoch(x.a.num, x.time, EMPTY, [exchange], yCoord, [], 0));
  }

  /** The owners of the epochs that stay when the epochs are processed. */
  ghost function OwnersProcessed(c: Code, done: seq<nat>, todo: seq<Epoch>, owners: seq<nat>): seq<nat>
    requires EpochsValid(c, todo) && |owners| == |todo|
    decreases |todo|
  {
    if |todo| == 0 then done
    else
      var e := Settled(c, todo[0]);
      if |todo| > 1 && (e.dhDecoder.isDecoded || |done| + |todo| > 2) then
        OwnersProcessed(c, done, todo[1..], owners[1..])
      else OwnersProcessed(c, done + [owners[0]], todo[1..], owners[1..])
  }

  lemma {:induction false} ProcessingKeepsOwners(c: Code, done: seq<Epoch>, ownersDone: seq<nat>, todo: seq<Epoch>,
                                                 owners: seq<nat>, es: seq<SentEpoch>)
    requires SenderEpochs(c, es) && EpochsValid(c, todo) && Owned(c, done, ownersDone, es) && Owned(c, todo, owners, es)
    ensures Owned(c, Processed(c, done, todo), OwnersProcessed(c, ownersDone, todo, owners), es)
    decreases |todo|
  {
    if |todo| > 0 {
      var e := Settled(c, todo[0]);
      SettledIsFaithful(c, todo[0], es[owners[0]]);
      if |todo| > 1 && (e.dhDecoder.isDecoded || |done| + |todo| > 2) {
        ProcessingKeepsOwners(c, done, ownersDone, todo[1..], owners[1..], es);
      } else {
        ProcessingKeepsOwners(c, done + [e], ownersDone + [owners[0]], todo[1..], owners[1..], es);
      }
    }
  }

  /** Processing does not take the link value out. */
  lemma {:induction false} ProcessingKeepsMatch(c: Code, todo: seq<Epoch>, owners: seq<nat>, es: seq<SentEpoch>,
                                                matching: seq<LinkValue>, v: LinkValue)
    requires SenderEpochs(c, es) && EpochsValid(c, todo) && Owned(c, todo, owners, es) && v in matching
    requires forall s :: 0 <= s < |es| ==> InAllFilters(c, es[s], v)
    ensures v in SiftedByAll(c, todo, matching)
    decreases |todo|
  {
    if |todo| > 0 {
      EpochKeeps(c, todo[0], es[owners[0]], matching, v);
      ProcessingKeepsMatch(c, todo[1..], owners[1..], es, SiftedByEpoch(c, todo[0], matching), v);
    }
  }

  /** The exchanges of the receiver do not matter to where its epochs come from. */
  lemma ExchangeKeepsOwners(c: Code, epochs: seq<Epoch>, owners: seq<nat>, es: seq<SentEpoch>, passive: bool,
                            exchange: int)
    requires Owned(c, epochs, owners, es)
    ensures Owned(c, WithExchange(passive, epochs, exchange), owners, es)
  {
    var last := |epochs| - 1;
    if last >= 0 {
      var e := epochs[last].(dhExchanges := epochs[last].dhExchanges + [exchange]);
      assert Faithful(c, epochs[last], es[owners[last]]);
      ReplacedIsOwned(c, epochs, owners, es, last, e);
    }
  }

  // ---------------------------------------------------------------- whole runs

  /** The owners of the epochs between hearing an advertisement of the epoch s and processing the epochs. */
  function OwnersNow(step: Step, s: nat, epochs: seq<Epoch>, owners: seq<nat>): seq<nat> {
    if step.Hear? then OwnersAfter(epochs, owners, step.air, s) else owners
  }

  /**
   * If an advertisement of the epoch s is heard, then it is taken for one of that epoch, and the owners of the epochs
   * are kept up to date.
   */
  ghost predicate RightStep(c: Code, es: seq<SentEpoch>, step: Step, s: nat, epochs: seq<Epoch>, owners: seq<nat>,
                            now: seq<Epoch>, next: seq<nat>) {
    && |owners| == |epochs| && EpochsValid(c, now) && |OwnersNow(step, s, epochs, owners)| == |now|
    && (step.Hear? ==>
          && s < |es| && EpochOk(c, es[s]) && SentIn(c, es[s], step.air.a)
          && RightlyAssigned(c, epochs, owners, step.air, s))
    && next == (if step.OwnEpoch? then owners else OwnersProcessed(c, [], now, OwnersNow(step, s, epochs, owners)))
  }

  /** A run in which every advertisement is one of its sender's epoch and is taken for one of that epoch. */
  ghost predicate RightRun(c: Code, es: seq<SentEpoch>, r: Run, senders: seq<nat>, owners: seq<seq<nat>>) {
    && IsRun(c, r) && |senders| == |r.steps| && |owners| == |r.rest| && owners[0] == []
    && forall i :: 0 <= i < |r.steps| ==>
      RightStep(c, es, r.steps[i], senders[i], r.rest[i], owners[i], r.now[i], owners[i + 1])
  }

  /** What a step leaves of the matching set: processing the epochs may erase link values. */
  ghost predicate Sifts(c: Code, step: Step, now: seq<Epoch>, matching: seq<LinkValue>, next: seq<LinkValue>) {
    EpochsValid(c, now) && next == if step.OwnEpoch? then matching else SiftedByAll(c, now, matching)
  }

  ghost predicate MatchingRun(c: Code, r: Run, matching: seq<seq<LinkValue>>) {
    && |matching| == |r.steps| + 1 && |r.now| == |r.steps|
    && forall i :: 0 <= i < |r.steps| ==> Sifts(c, r.steps[i], r.now[i], matching[i], matching[i + 1])
  }

  lemma MovingKeepsOwners(c: Code, es: seq<SentEpoch>, step: Step, s: nat, epochs: seq<Epoch>, owners: seq<nat>,
                          now: seq<Epoch>, nextOwners: seq<nat>, next: seq<Epoch>)
    requires SenderEpochs(c, es) && Owned(c, epochs, owners, es) && Moves(c, step, epochs, now, next)
    requires RightStep(c, es, step, s, epochs, owners, now, nextOwners)
    ensures Owned(c, now, OwnersNow(step, s, epochs, owners), es) && Owned(c, next, nextOwners, es)
  {
    assert Look(OfMove, 0);
    match step
    case Hear(x, exchange, yCoord) =>
      HearingKeepsOwners(c, epochs, owners, es, x, s, exchange, yCoord, now);
      ProcessingKeeps(c, now, OwnersAfter(epochs, owners, x, s), es, next);
    case BadNumber => ProcessingKeeps(c, now, owners, es, next);
    case OwnEpoch(passive, exchange) => ExchangeKeepsOwners(c, epochs, owners, es, passive, exchange);
  }

  lemma ProcessingKeeps(c: Code, now: seq<Epoch>, owners: seq<nat>, es: seq<SentEpoch>, next: seq<Epoch>)
    requires SenderEpochs(c, es) && Processes(c, now, next) && Owned(c, now, owners, es)
    ensures Owned(c, next, OwnersProcessed(c, [], now, owners), es)
  {
    assert Look(OfStep, 0);
    ProcessingKeepsOwners(c, [], [], now, owners, es);
  }

  lemma {:induction false} RightRunIsOwned(c: Code, es: seq<SentEpoch>, r: Run, senders: seq<nat>,
                                           owners: seq<seq<nat>>, n: nat)
    requires SenderEpochs(c, es) && RightRun(c, es, r, senders, owners) && n <= |r.steps|
    ensures Owned(c, r.rest[n], owners[n], es)
    ensures n < |r.steps| ==> Owned(c, r.now[n], OwnersNow(r.steps[n], senders[n], r.rest[n], owners[n]), es)
  {
    if n > 0 {
      var m := n - 1;
      RightRunIsOwned(c, es, r, senders, owners, m);
      RightMove(c, es, r, senders, owners, m);
    }
    if n < |r.steps| { RightMove(c, es, r, senders, owners, n); }
  }

  lemma RightMove(c: Code, es: seq<SentEpoch>, r: Run, senders: seq<nat>, owners: seq<seq<nat>>, m: nat)
    requires SenderEpochs(c, es) && RightRun(c, es, r, senders, owners) && m < |r.steps|
    requires Owned(c, r.rest[m], owners[m], es)
    ensures Owned(c, r.now[m], OwnersNow(r.steps[m], senders[m], r.rest[m], owners[m]), es)
    ensures Owned(c, r.rest[m + 1], owners[m + 1], es)
  {
    assert Moves(c, r.steps[m], r.rest[m], r.now[m], r.rest[m + 1]);
    assert RightStep(c, es, r.steps[m], senders[m], r.rest[m], owners[m], r.now[m], owners[m + 1]);
    MovingKeepsOwners(c, es, r.steps[m], senders[m], r.rest[m], owners[m], r.now[m], owners[m + 1], r.rest[m + 1]);
  }

  /** The link value is in all filters of all epochs of a sender. */
  ghost predicate AlwaysSent(c: Code, es: seq<SentEpoch>, v: LinkValue) {
    forall s :: 0 <= s < |es| ==> InAllFilters(c, es[s], v)
  }

  /**
   * A link value that the receiver listens for, and that is in all filters that the sender has sent, is never erased
   * from the matching set.
   */
  lemma {:induction false} NoMatchIsLost(c: Code, es: seq<SentEpoch>, r: Run, senders: seq<nat>, owners: seq<seq<nat>>,
                                         matching: seq<seq<LinkValue>>, v: LinkValue, n: nat)
    requires SenderEpochs(c, es) && RightRun(c, es, r, senders, owners) && n <= |r.steps|
    requires MatchingRun(c, r, matching) && v in matching[0] && AlwaysSent(c, es, v)
    ensures v in matching[n]
  {
    if n > 0 {
      var m := n - 1;
      NoMatchIsLost(c, es, r, senders, owners, matching, v, m);
      RightRunIsOwned(c, es, r, senders, owners, m);
      assert Sifts(c, r.steps[m], r.now[m], matching[m], matching[m + 1]);
      if !r.steps[m].OwnEpoch? {
        ProcessingKeepsMatch(c, r.now[m], OwnersNow(r.steps[m], senders[m], r.rest[m], owners[m]), es, matching[m], v);
      }
    }
  }
}
