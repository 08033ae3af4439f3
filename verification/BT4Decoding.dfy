/**
 * Any rsK consecutive advertisements let a receiver decode a key, also across a change of the epoch: the symbols that
 * are left over continue the codeword.
 */
module BT4Decoding {
  import opened BT4Advert
  import opened BT4Receiver
  import opened BloomFilter
  import opened Device
  import opened ErasureDecoder
  import opened Hiding

  /** An advertisement on the air, and when it is heard. */
  datatype Air = Air(a: Advert, time: nat)

  /** What is heard makes the epochs what they are now. */
  ghost predicate Hears(c: Code, epochs: seq<Epoch>, x: Air, exchange: int, yCoord: bool, now: seq<Epoch>) {
    forall k: nat :: Look(OfStep, k) ==>
      WellSized(c, x.a) && EpochsValid(c, epochs) && now == AfterAdvert(c, epochs, x.a, x.time, exchange, yCoord)
  }

  /** Then the epochs are processed. */
  ghost predicate Processes(c: Code, now: seq<Epoch>, next: seq<Epoch>) {
    && EpochsValid(c, now)
    && forall k: nat :: Look(OfStep, k) ==> next == Processed(c, [], now)
  }

  // ---------------------------------------------------------------- what every step keeps

  lemma TakeKeepsValid(c: Code, e: Epoch, a: Advert)
    requires CodeOk(c) && WellSized(c, a) && BloomsOk(c, e.blooms) && Counted(e.dhDecoder)
    requires forall i :: i in e.dhDecoder.received ==> i < CodeLength(c)
    ensures EpochValid(c, Take(c, e, a))
  {}

  lemma LeftoverKeepsValid(c: Code, e: Epoch, a: Advert)
    requires CodeOk(c) && WellSized(c, a) && EpochValid(c, e)
    ensures EpochValid(c, TakeLeftover(c, e, a))
  {}

  lemma ReplacedIsValid(c: Code, epochs: seq<Epoch>, i: nat, e: Epoch)
    requires EpochsValid(c, epochs) && i < |epochs| && EpochValid(c, e)
    ensures EpochsValid(c, epochs[i := e])
  {}

  lemma AddedIsValid(c: Code, epochs: seq<Epoch>, e: Epoch)
    requires EpochsValid(c, epochs) && EpochValid(c, e)
    ensures EpochsValid(c, epochs + [e])
  {}

  lemma TakingKeepsValid(c: Code, e: Epoch, a: Advert)
    requires CodeOk(c) && WellSized(c, a) && EpochValid(c, e)
    ensures BloomsOk(c, e.blooms) && EpochValid(c, Take(c, e, a))
  {
    assert Look(OfEpoch, 0);
    TakeKeepsValid(c, e, a);
  }

  lemma BothReplacedAreValid(c: Code, epochs: seq<Epoch>, i: nat, x: Epoch, y: Epoch)
    requires EpochsValid(c, epochs) && i < |epochs| && EpochValid(c, x) && EpochValid(c, y)
    ensures EpochsValid(c, epochs[i := x]) && EpochsValid(c, epochs[i := x][0 := y])
  {}

  lemma NewKeepsValid(c: Code, epochs: seq<Epoch>, a: Advert, e: Epoch)
    requires CodeOk(c) && WellSized(c, a) && EpochsValid(c, epochs) && e.dhDecoder == EMPTY && e.blooms == []
    ensures var last := |epochs| - 1;
      EpochsValid(c, (if last >= 0 then epochs[last := TakeLeftover(c, epochs[last], a)] else []) + [Take(c, e, a)])
  {
    var last := |epochs| - 1;
    TakeKeepsValid(c, e, a);
    if last >= 0 {
      LeftoverKeepsValid(c, epochs[last], a);
      ReplacedIsValid(c, epochs, last, TakeLeftover(c, epochs[last], a));
      AddedIsValid(c, epochs[last := TakeLeftover(c, epochs[last], a)], Take(c, e, a));
    } else {
      AddedIsValid(c, [], Take(c, e, a));
    }
  }

  lemma AdvertKeepsValid(c: Code, epochs: seq<Epoch>, a: Advert, time: nat, exchange: int, yCoord: bool)
    requires CodeOk(c) && WellSized(c, a) && EpochsValid(c, epochs)
    ensures EpochsValid(c, AfterAdvert(c, epochs, a, time, exchange, yCoord))
    ensures AfterAdvert(c, epochs, a, time, exchange, yCoord) != []
  {
    match Classify(epochs, a.num, time)
    case ToDuplicate =>
    case ToCurrent =>
      var last := |epochs| - 1;
      TakingKeepsValid(c, epochs[last], a);
      LeftoverKeepsValid(c, epochs[0], a);
      BothReplacedAreValid(c, epochs, last, Take(c, epochs[last], a), TakeLeftover(c, epochs[0], a));
    case ToNew => NewKeepsValid(c, epochs, a, Epoch(a.num, time, EMPTY, [exchange], yCoord, [], 0));
  }

  lemma {:induction false} KeptIsOk(c: Code, blooms: seq<(nat, Filter)>, lastNum: nat)
    requires BloomsOk(c, blooms)
    ensures BloomsOk(c, Kept(blooms, lastNum))
  {
    if |blooms| > 0 { KeptIsOk(c, blooms[1..], lastNum); }
  }

  lemma SettledKeepsValid(c: Code, e: Epoch)
    requires EpochValid(c, e)
    ensures EpochValid(c, Settled(c, e))
  {
    assert Look(OfEpoch, 0);
    if |e.blooms| > 0 { KeptIsOk(c, e.blooms, e.blooms[|e.blooms| - 1].0); }
  }

  lemma RestIsValid(c: Code, todo: seq<Epoch>)
    requires EpochsValid(c, todo) && |todo| > 0
    ensures EpochsValid(c, todo[1..]) && EpochValid(c, todo[0])
  {}

  lemma {:induction false} ProcessedIsValid(c: Code, done: seq<Epoch>, todo: seq<Epoch>)
    requires EpochsValid(c, done) && EpochsValid(c, todo)
    ensures EpochsValid(c, Processed(c, done, todo))
    decreases |todo|
  {
    if |todo| > 0 {
      RestIsValid(c, todo);
      SettledKeepsValid(c, todo[0]);
      AddedIsValid(c, done, Settled(c, todo[0]));
      ProcessedIsValid(c, done, todo[1..]);
      ProcessedIsValid(c, done + [Settled(c, todo[0])], todo[1..]);
    }
  }

  predicate AtMostOnePast(done: seq<Epoch>) {
    |done| == 0 || (|done| == 1 && !done[0].dhDecoder.isDecoded)
  }

  /**
   * However many epochs there were, at most two are left, the older one of them not decoded; the newest one is never
   * dropped.
   */
  lemma {:induction false} ProcessedLeavesTwo(c: Code, done: seq<Epoch>, todo: seq<Epoch>)
    requires EpochsValid(c, todo) && |todo| > 0 && AtMostOnePast(done)
    ensures var r := Processed(c, done, todo);
      r != [] && AtMostOnePast(r[..|r| - 1]) && r[|r| - 1] == Settled(c, todo[|todo| - 1])
    decreases |todo|
  {
    var e, rest := Settled(c, todo[0]), todo[1..];
    RestIsValid(c, todo);
    if |todo| == 1 {
      assert Processed(c, done, todo) == Processed(c, done + [e], rest) == done + [e];
    } else {
      assert rest[|rest| - 1] == todo[|todo| - 1];
      if e.dhDecoder.isDecoded || |done| + |todo| > 2 {
        ProcessedLeavesTwo(c, done, rest);
      } else {
        ProcessedLeavesTwo(c, done + [e], rest);
      }
    }
  }

  /** Hearing and processing keep all of this; nothing can go wrong in between. */
  lemma HearingKeepsRest(c: Code, epochs: seq<Epoch>, x: Air, exchange: int, yCoord: bool, now: seq<Epoch>)
    requires CodeOk(c) && AtRest(c, epochs) && Hears(c, epochs, x, exchange, yCoord, now)
    ensures EpochsValid(c, now) && now != []
  {
    assert Look(OfStep, 0);
    AdvertKeepsValid(c, epochs, x.a, x.time, exchange, yCoord);
  }

  lemma ProcessingRests(c: Code, now: seq<Epoch>, next: seq<Epoch>)
    requires now != [] && Processes(c, now, next)
    ensures AtRest(c, next) && next != [] && next[|next| - 1] == Settled(c, now[|now| - 1])
  {
    assert Look(OfStep, 0);
    ProcessedIsValid(c, [], now);
    ProcessedLeavesTwo(c, [], now);
  }

  /**
   * What can happen to what a receiver knows of a device: an advertisement is heard, with the exchange of the receiver
   * and the bit of the address at that time; bits with a number that no advertisement has are heard; or the receiver
   * begins an epoch of its own, with a new exchange.
   */
  datatype Step =
    | Hear(air: Air, exchange: int, yCoord: bool)
    | BadNumber
    | OwnEpoch(passive: bool, exchange: int)

  /** A run: the epochs at rest before and after every step, and what they are in between. */
  datatype Run = Run(steps: seq<Step>, rest: seq<seq<Epoch>>, now: seq<seq<Epoch>>)

  ghost predicate Moves(c: Code, step: Step, epochs: seq<Epoch>, now: seq<Epoch>, next: seq<Epoch>) {
    forall k: nat :: Look(OfMove, k) ==>
      match step
      case Hear(x, exchange, yCoord) => Hears(c, epochs, x, exchange, yCoord, now) && Processes(c, now, next)
      case BadNumber => now == epochs && Processes(c, now, next)
      case OwnEpoch(passive, exchange) => now == epochs && next == WithExchange(passive, epochs, exchange)
  }

  /** A new receiver takes the steps. */
  ghost predicate IsRun(c: Code, r: Run) {
    |r.rest| == |r.steps| + 1 && |r.now| == |r.steps| && r.rest[0] == [] && MovesUpTo(c, r, |r.steps|)
  }

  ghost predicate MovesUpTo(c: Code, r: Run, n: nat)
    requires n <= |r.steps| == |r.now| && |r.rest| == |r.steps| + 1
  {
    forall i :: 0 <= i < n ==> Moves(c, r.steps[i], r.rest[i], r.now[i], r.rest[i + 1])
  }

  /** A run with one more step. */
  function WithStep(r: Run, step: Step, now: seq<Epoch>, next: seq<Epoch>): Run {
    Run(r.steps + [step], r.rest + [next], r.now + [now])
  }

  lemma MovesStay(c: Code, r: Run, step: Step, now: seq<Epoch>, next: seq<Epoch>)
    requires |r.now| == |r.steps| && |r.rest| == |r.steps| + 1 && MovesUpTo(c, r, |r.steps|)
    ensures MovesUpTo(c, WithStep(r, step, now, next), |r.steps|)
  {}

  lemma MovesOn(c: Code, r: Run, n: nat)
    requires n < |r.steps| == |r.now| && |r.rest| == |r.steps| + 1 && MovesUpTo(c, r, n)
    requires Moves(c, r.steps[n], r.rest[n], r.now[n], r.rest[n + 1])
    ensures MovesUpTo(c, r, n + 1)
  {}

  /** What a radio does to a device, one step after the other, is a run. */
  lemma StepExtendsRun(c: Code, r: Run, step: Step, now: seq<Epoch>, next: seq<Epoch>)
    requires IsRun(c, r) && Moves(c, step, r.rest[|r.steps|], now, next)
    ensures IsRun(c, WithStep(r, step, now, next))
  {
    MovesStay(c, r, step, now, next);
    MovesOn(c, WithStep(r, step, now, next), |r.steps|);
  }

  /** The advertisements that are heard. */
  function Heard(steps: seq<Step>): seq<Air> {
    if |steps| == 0 then []
    else
      var last := steps[|steps| - 1];
      Heard(steps[..|steps| - 1]) + (if last.Hear? then [last.air] else [])
  }

  lemma HeardNext(steps: seq<Step>, n: nat)
    requires n < |steps|
    ensures Heard(steps[..n + 1]) == Heard(steps[..n]) + (if steps[n].Hear? then [steps[n].air] else [])
  {
    assert steps[..n + 1][..n] == steps[..n];
  }

  /** The advertisement of a step has its place among all that are heard. */
  lemma {:induction false} HeardAt(steps: seq<Step>, n: nat, m: nat)
    requires n < m <= |steps| && steps[n].Hear?
    ensures |Heard(steps[..n])| < |Heard(steps[..m])| && Heard(steps[..m])[|Heard(steps[..n])|] == steps[n].air
    decreases m
  {
    HeardNext(steps, m - 1);
    if n < m - 1 { HeardAt(steps, n, m - 1); }
  }

  lemma ExchangeKeepsValid(c: Code, passive: bool, epochs: seq<Epoch>, exchange: int)
    requires EpochsValid(c, epochs)
    ensures EpochsValid(c, WithExchange(passive, epochs, exchange))
  {
    var last := |epochs| - 1;
    if last >= 0 {
      var e := epochs[last].(dhExchanges := epochs[last].dhExchanges + [exchange]);
      OtherExchanges(c, epochs[last], e);
      ReplacedIsValid(c, epochs, last, e);
    }
  }

  lemma OtherExchanges(c: Code, e: Epoch, r: Epoch)
    requires EpochValid(c, e) && r == e.(dhExchanges := r.dhExchanges)
    ensures EpochValid(c, r)
  {
    assert Look(OfEpoch, 0);
  }

  /** A step keeps the epochs at rest; none but the first advertisement can be needed for there to be one. */
  lemma MovingRests(c: Code, step: Step, epochs: seq<Epoch>, now: seq<Epoch>, next: seq<Epoch>)
    requires CodeOk(c) && AtRest(c, epochs) && Moves(c, step, epochs, now, next)
    ensures EpochsValid(c, now) && AtRest(c, next) && (epochs != [] || step.Hear? ==> next != [])
  {
    assert Look(OfMove, 0);
    match step
    case Hear(x, exchange, yCoord) =>
      HearingKeepsRest(c, epochs, x, exchange, yCoord, now);
      ProcessingRests(c, now, next);
    case BadNumber =>
      if now != [] { ProcessingRests(c, now, next); } else { assert Look(OfStep, 0); }
    case OwnEpoch(passive, exchange) => ExchangeKeepsValid(c, passive, epochs, exchange);
  }

  /** At rest there are always at most two epochs, the older one not decoded, with correct counts and filters. */
  lemma {:induction false} RunIsAtRest(c: Code, r: Run, n: nat)
    requires CodeOk(c) && IsRun(c, r) && n <= |r.steps|
    ensures AtRest(c, r.rest[n]) && (Heard(r.steps[..n]) != [] ==> r.rest[n] != [])
    ensures n < |r.steps| ==> EpochsValid(c, r.now[n])
  {
    if n > 0 {
      RunIsAtRest(c, r, n - 1);
      HeardNext(r.steps, n - 1);
      assert Moves(c, r.steps[n - 1], r.rest[n - 1], r.now[n - 1], r.rest[n - 1 + 1]);
      MovingRests(c, r.steps[n - 1], r.rest[n - 1], r.now[n - 1], r.rest[n]);
    }
    if n < |r.steps| {
      assert Moves(c, r.steps[n], r.rest[n], r.now[n], r.rest[n + 1]);
      MovingRests(c, r.steps[n], r.rest[n], r.now[n], r.rest[n + 1]);
    }
  }

  // ---------------------------------------------------------------- consecutive advertisements

  /**
   * Advertisements that follow one another, from the one with the number first on: those of one epoch, which the sender
   * ends before it sends the one with the number last, and then those of the next epoch.
   */
  datatype Row = Row(e: SentEpoch, next: SentEpoch, first: nat, last: nat, air: seq<Air>)

  ghost predicate IsRow(c: Code, w: Row) {
    && EpochOk(c, w.e) && EpochOk(c, w.next) && w.first < w.last <= ADV_N && w.next.before == w.e.codeword
    && forall k: nat :: Look(OfRow, k) ==> forall i :: 0 <= i < |w.air| ==>
      && WellSized(c, w.air[i].a)
      && if w.first + i < w.last then w.air[i].a.num == w.first + i && SentIn(c, w.e, w.air[i].a)
         else w.air[i].a.num == w.first + i - w.last && SentIn(c, w.next, w.air[i].a)
  }

  /** The time between the first advertisement of an epoch and the n-th one after it is short enough. */
  predicate InTime(start: nat, time: nat, n: nat) {
    Elapsed(time, start) < (n + 6) * SCAN_INTERVAL / 2
  }

  /** None of them is heard too long after the first one of its epoch. */
  ghost predicate OnTime(w: Row)
    requires w.first < w.last
  {
    forall k: nat :: Look(OfRow, k) ==> forall i :: 0 < i < |w.air| ==>
      if w.first + i < w.last then InTime(w.air[0].time, w.air[i].time, i)
      else w.first + i > w.last ==> InTime(w.air[w.last - w.first].time, w.air[i].time, w.first + i - w.last)
  }

  /**
   * The receiver can tell that the next epoch has begun: its first advertisement is a duplicate of neither the first
   * one that was heard nor the scan response to it, or is heard too late for that.
   */
  predicate CrossesRight(w: Row)
    requires w.first < w.last
  {
    w.first > 1 || |w.air| <= w.last - w.first
    || Elapsed(w.air[w.last - w.first].time, w.air[0].time) >= ADV_N / 2 * SCAN_INTERVAL
  }

  /** The index is that of a symbol in the first n advertisements: one of the epoch, or one that was left over. */
  predicate InRow(first: nat, last: nat, n: nat, i: nat) {
    (first <= i < last && i < first + n) || (ADV_N <= i && i - ADV_N + last < first + n)
  }

  function Part(codeword: seq<Symbol>, first: nat, last: nat, n: nat): map<nat, Symbol> {
    map i: nat | i < |codeword| && InRow(first, last, n, i) :: codeword[i]
  }

  /** A decoder that has heard n symbols in a row. */
  ghost predicate HasPart(d: Decoder, codeword: seq<Symbol>, first: nat, last: nat, n: nat) {
    && d.numReceived == n && !d.isDecoded
    && forall k: nat :: Look(OfPart, k) ==> d.received == Part(codeword, first, last, n)
  }

  lemma PartGrows(d: Decoder, codeword: seq<Symbol>, first: nat, last: nat, n: nat, i: nat)
    requires first <= last <= ADV_N && i == (if first + n < last then first + n else ADV_N + (first + n - last))
    requires i < |codeword| && HasPart(d, codeword, first, last, n)
    ensures HasPart(WithSymbol(d, i, codeword[i]), codeword, first, last, n + 1)
  {
    assert Look(OfPart, 0);
    assert Part(codeword, first, last, n)[i := codeword[i]] == Part(codeword, first, last, n + 1);
  }

  lemma NoPart(codeword: seq<Symbol>, first: nat, last: nat)
    requires first < last
    ensures HasPart(EMPTY, codeword, first, last, 0)
  {
    assert Look(OfPart, 0);
    assert Part(codeword, first, last, 0) == map[];
  }

  /** One epoch is there, which began with the first advertisement and has heard n in a row. */
  ghost predicate InOneEpoch(epochs: seq<Epoch>, w: Row, n: nat)
    requires |w.air| > 0
  {
    && |epochs| == 1 && epochs[0].lastAdvertNum == w.first && epochs[0].lastAdvertTime == w.air[0].time
    && HasPart(epochs[0].dhDecoder, w.e.codeword, w.first, w.last, n)
  }

  /** The older epoch has heard n symbols in a row, and the newer one began with its advertisement 0. */
  ghost predicate InTwoEpochs(epochs: seq<Epoch>, w: Row, n: nat)
    requires w.first < w.last < w.first + n <= w.first + |w.air|
  {
    && |epochs| == 2
    && epochs[1].lastAdvertNum == 0 && epochs[1].lastAdvertTime == w.air[w.last - w.first].time
    && HasPart(epochs[0].dhDecoder, w.e.codeword, w.first, w.last, n)
    && HasPart(epochs[1].dhDecoder, w.next.codeword, 0, ADV_N, w.first + n - w.last)
  }

  /** Nothing has been heard yet, or the first n advertisements of the row. */
  ghost predicate RowUpTo(epochs: seq<Epoch>, w: Row, n: nat)
    requires n <= |w.air| && w.first < w.last
  {
    if n == 0 then epochs == []
    else if w.first + n <= w.last then InOneEpoch(epochs, w, n)
    else InTwoEpochs(epochs, w, n)
  }

  /** The symbols of one of them are those of the codewords. */
  predicate HasSymbols(c: Code, w: Row, a: Advert, i: nat) {
    && c.rsK > 0 && w.last <= ADV_N && |w.e.codeword| == |w.next.codeword| == CodeLength(c)
    && (w.first + i < w.last ==> a.num == w.first + i && a.symbol == w.e.codeword[a.num])
    && (w.last <= w.first + i < w.last + c.rsK - 1 ==>
          && a.num == w.first + i - w.last && a.symbol == w.next.codeword[a.num]
          && a.leftover == w.e.codeword[ADV_N + a.num])
  }

  lemma RowSymbols(c: Code, w: Row, i: nat)
    requires IsRow(c, w) && i < |w.air|
    ensures HasSymbols(c, w, w.air[i].a, i)
  {
    assert Look(OfRow, 0);
    assert Fits(c, c.encode(w.e.key)) && Fits(c, c.encode(w.next.key));
  }

  // What an advertisement does, case by case.

  lemma HearsCurrent(c: Code, epochs: seq<Epoch>, x: Air, exchange: int, yCoord: bool, now: seq<Epoch>)
    requires Hears(c, epochs, x, exchange, yCoord, now) && Classify(epochs, x.a.num, x.time) == ToCurrent
    ensures WellSized(c, x.a) && |epochs| > 0 && BloomsOk(c, epochs[|epochs| - 1].blooms)
    ensures now == AfterCurrent(c, epochs, x.a)
  {
    assert Look(OfStep, 0) && Look(OfEpoch, 0);
    assert EpochValid(c, epochs[|epochs| - 1]);
  }

  lemma HearsNew(c: Code, epochs: seq<Epoch>, x: Air, exchange: int, yCoord: bool, now: seq<Epoch>)
    requires Hears(c, epochs, x, exchange, yCoord, now) && Classify(epochs, x.a.num, x.time) == ToNew
    ensures WellSized(c, x.a)
    ensures now == AfterNew(c, epochs, x.a, Epoch(x.a.num, x.time, EMPTY, [exchange], yCoord, [], 0))
  {
    assert Look(OfStep, 0);
  }

  lemma HearsDuplicate(c: Code, epochs: seq<Epoch>, x: Air, exchange: int, yCoord: bool, now: seq<Epoch>)
    requires Hears(c, epochs, x, exchange, yCoord, now) && Classify(epochs, x.a.num, x.time) == ToDuplicate
    ensures now == epochs
  {
    assert Look(OfStep, 0);
  }

  lemma FirstAdvert(c: Code, w: Row, exchange: int, yCoord: bool, now: seq<Epoch>)
    requires |w.air| > 0 && Hears(c, [], w.air[0], exchange, yCoord, now)
    requires w.first < w.last <= ADV_N && HasSymbols(c, w, w.air[0].a, 0)
    ensures InOneEpoch(now, w, 1)
  {
    HearsNew(c, [], w.air[0], exchange, yCoord, now);
    NoPart(w.e.codeword, w.first, w.last);
    PartGrows(EMPTY, w.e.codeword, w.first, w.last, 0, w.first);
  }

  lemma NextAdvert(c: Code, epochs: seq<Epoch>, w: Row, n: nat, exchange: int, yCoord: bool, now: seq<Epoch>)
    requires 0 < n < |w.air| && w.first + n < w.last <= ADV_N && Hears(c, epochs, w.air[n], exchange, yCoord, now)
    requires InTime(w.air[0].time, w.air[n].time, n) && InOneEpoch(epochs, w, n) && HasSymbols(c, w, w.air[n].a, n)
    ensures InOneEpoch(now, w, n + 1)
  {
    NextIsCurrent(epochs, w, n);
    HearsCurrent(c, epochs, w.air[n], exchange, yCoord, now);
    PartGrows(epochs[0].dhDecoder, w.e.codeword, w.first, w.last, n, w.first + n);
  }

  lemma NextIsCurrent(epochs: seq<Epoch>, w: Row, n: nat)
    requires 0 < n < |w.air| && InTime(w.air[0].time, w.air[n].time, n) && InOneEpoch(epochs, w, n)
    ensures Classify(epochs, w.first + n, w.air[n].time) == ToCurrent
  {}

  /** The first advertisement of the next epoch begins an epoch exactly when the receiver can tell. */
  lemma CrossingIsSeen(epochs: seq<Epoch>, w: Row, n: nat)
    requires 0 < n < |w.air| && w.first + n == w.last && InOneEpoch(epochs, w, n)
    ensures Classify(epochs, 0, w.air[n].time) == if CrossesRight(w) then ToNew else ToDuplicate
  {}

  /** It cannot when it heard advertisement 0 just before an epoch that was cut short ended. */
  lemma ShortEpochIsMissed(e: Epoch)
    requires e.lastAdvertNum == 0 && e.lastAdvertTime == 0
    ensures Classify([e], 0, SCAN_INTERVAL) == ToDuplicate
  {}

  /** The first advertisement of the next epoch then also continues the codeword of the epoch before. */
  lemma CrossingAdvert(c: Code, epochs: seq<Epoch>, w: Row, n: nat, exchange: int, yCoord: bool, now: seq<Epoch>)
    requires 0 < n < |w.air| && w.first + n == w.last <= ADV_N && n < c.rsK && CrossesRight(w)
    requires Hears(c, epochs, w.air[n], exchange, yCoord, now) && InOneEpoch(epochs, w, n)
    requires HasSymbols(c, w, w.air[n].a, n)
    ensures Classify(epochs, w.air[n].a.num, w.air[n].time) == ToNew
    ensures InTwoEpochs(now, w, n + 1)
  {
    CrossingIsSeen(epochs, w, n);
    HearsNew(c, epochs, w.air[n], exchange, yCoord, now);
    assert |now| == 2 && now[0] == TakeLeftover(c, epochs[0], w.air[n].a);
    BothBegin(c, epochs, w, n, w.air[n].a);
  }

  lemma BothBegin(c: Code, epochs: seq<Epoch>, w: Row, n: nat, a: Advert)
    requires 0 < n < |w.air| && w.first + n == w.last <= ADV_N && n < c.rsK
    requires InOneEpoch(epochs, w, n) && HasSymbols(c, w, a, n)
    ensures HasPart(WithSymbol(epochs[0].dhDecoder, ADV_N, a.leftover), w.e.codeword, w.first, w.last, n + 1)
    ensures HasPart(WithSymbol(EMPTY, 0, a.symbol), w.next.codeword, 0, ADV_N, 1)
  {
    OlderGrows(epochs[0].dhDecoder, w.e.codeword, w.first, w.last, n, 0);
    NextBegins(w.next.codeword);
  }

  lemma NextBegins(codeword: seq<Symbol>)
    requires |codeword| > 0
    ensures HasPart(WithSymbol(EMPTY, 0, codeword[0]), codeword, 0, ADV_N, 1)
  {
    NoPart(codeword, 0, ADV_N);
    PartGrows(EMPTY, codeword, 0, ADV_N, 0, 0);
  }

  lemma NextOfTwo(c: Code, epochs: seq<Epoch>, w: Row, n: nat, exchange: int, yCoord: bool, now: seq<Epoch>)
    requires w.first < w.last < w.first + n < w.first + |w.air| && w.last <= ADV_N && n < c.rsK
    requires InTime(w.air[w.last - w.first].time, w.air[n].time, w.first + n - w.last) && 2 * c.rsK <= ADV_N
    requires Hears(c, epochs, w.air[n], exchange, yCoord, now) && InTwoEpochs(epochs, w, n)
    requires HasSymbols(c, w, w.air[n].a, n)
    ensures Classify(epochs, w.air[n].a.num, w.air[n].time) == ToCurrent
    ensures InTwoEpochs(now, w, n + 1)
  {
    NextIsCurrentOfTwo(epochs, w, n);
    HearsOfTwo(c, epochs, w.air[n], exchange, yCoord, now);
    LeavesSymbol(c, epochs[0], w.air[n].a);
    OlderGrows(epochs[0].dhDecoder, w.e.codeword, w.first, w.last, n, w.air[n].a.num);
    TakesSymbol(c, epochs[1], w.air[n].a);
    NewerGrows(epochs[1].dhDecoder, w.next.codeword, w.air[n].a.num);
  }

  lemma NextIsCurrentOfTwo(epochs: seq<Epoch>, w: Row, n: nat)
    requires w.first < w.last < w.first + n < w.first + |w.air| && InTwoEpochs(epochs, w, n)
    requires InTime(w.air[w.last - w.first].time, w.air[n].time, w.first + n - w.last)
    ensures Classify(epochs, w.first + n - w.last, w.air[n].time) == ToCurrent
  {}

  /** With two epochs, the newer one takes the advertisement, and the older one what was left over. */
  lemma HearsOfTwo(c: Code, epochs: seq<Epoch>, x: Air, exchange: int, yCoord: bool, now: seq<Epoch>)
    requires Hears(c, epochs, x, exchange, yCoord, now) && |epochs| == 2
    requires Classify(epochs, x.a.num, x.time) == ToCurrent
    ensures WellSized(c, x.a) && BloomsOk(c, epochs[1].blooms)
    ensures |now| == 2 && now[0] == TakeLeftover(c, epochs[0], x.a) && now[1] == Take(c, epochs[1], x.a)
  {
    assert Look(OfStep, 0) && Look(OfEpoch, 0);
    assert EpochValid(c, epochs[1]);
  }

  /** The symbol number m that was left over is the next one of the row. */
  lemma OlderGrows(d: Decoder, codeword: seq<Symbol>, first: nat, last: nat, n: nat, m: nat)
    requires first < last <= ADV_N && first + n == last + m && ADV_N + m < |codeword|
    requires HasPart(d, codeword, first, last, n)
    ensures HasPart(WithSymbol(d, ADV_N + m, codeword[ADV_N + m]), codeword, first, last, n + 1)
  {
    PartGrows(d, codeword, first, last, n, ADV_N + m);
  }

  lemma NewerGrows(d: Decoder, codeword: seq<Symbol>, m: nat)
    requires m < ADV_N && m < |codeword| && HasPart(d, codeword, 0, ADV_N, m)
    ensures HasPart(WithSymbol(d, m, codeword[m]), codeword, 0, ADV_N, m + 1)
  {
    PartGrows(d, codeword, 0, ADV_N, m, m);
  }

  lemma LeavesSymbol(c: Code, e: Epoch, a: Advert)
    requires a.num < c.rsK - 1 && !e.dhDecoder.isDecoded
    ensures TakeLeftover(c, e, a).dhDecoder == WithSymbol(e.dhDecoder, ADV_N + a.num, a.leftover)
  {}

  lemma TakesSymbol(c: Code, e: Epoch, a: Advert)
    requires WellSized(c, a) && BloomsOk(c, e.blooms)
    ensures Take(c, e, a).dhDecoder == WithSymbol(e.dhDecoder, a.num, a.symbol)
    ensures Take(c, e, a).lastAdvertNum == e.lastAdvertNum && Take(c, e, a).lastAdvertTime == e.lastAdvertTime
  {}

  /** Epochs that cannot be decoded yet stay as they are. */
  lemma NotYet(c: Code, e: Epoch)
    requires EpochValid(c, e) && !e.dhDecoder.isDecoded && e.dhDecoder.numReceived < c.rsK
    ensures Settled(c, e) == e
  {}

  lemma OneStays(c: Code, epochs: seq<Epoch>)
    requires EpochsValid(c, epochs) && |epochs| == 1
    requires !epochs[0].dhDecoder.isDecoded && epochs[0].dhDecoder.numReceived < c.rsK
    ensures Processed(c, [], epochs) == epochs
  {
    NotYet(c, epochs[0]);
    assert Processed(c, [], epochs) == Processed(c, [epochs[0]], epochs[1..]);
  }

  lemma TwoStay(c: Code, epochs: seq<Epoch>)
    requires EpochsValid(c, epochs) && |epochs| == 2
    requires !epochs[0].dhDecoder.isDecoded && epochs[0].dhDecoder.numReceived < c.rsK
    requires !epochs[1].dhDecoder.isDecoded && epochs[1].dhDecoder.numReceived < c.rsK
    ensures Processed(c, [], epochs) == epochs
  {
    NotYet(c, epochs[0]);
    NotYet(c, epochs[1]);
    var rest := epochs[1..];
    assert rest[0] == epochs[1];
    assert Processed(c, [], epochs) == Processed(c, [] + [epochs[0]], rest);
    assert Processed(c, [epochs[0]], rest) == Processed(c, [epochs[0]] + [epochs[1]], rest[1..]);
  }

  lemma RowStep(c: Code, epochs: seq<Epoch>, w: Row, n: nat, exchange: int, yCoord: bool, now: seq<Epoch>)
    requires IsRow(c, w) && OnTime(w) && n < |w.air| <= c.rsK && Hears(c, epochs, w.air[n], exchange, yCoord, now)
    requires RowUpTo(epochs, w, n) && (w.first + n < w.last || CrossesRight(w))
    ensures RowUpTo(now, w, n + 1)
  {
    RowSymbols(c, w, n);
    assert Look(OfRow, 0);
    if n == 0 {
      FirstAdvert(c, w, exchange, yCoord, now);
    } else if w.first + n < w.last {
      NextAdvert(c, epochs, w, n, exchange, yCoord, now);
    } else if w.first + n == w.last {
      CrossingAdvert(c, epochs, w, n, exchange, yCoord, now);
    } else {
      NextOfTwo(c, epochs, w, n, exchange, yCoord, now);
    }
  }

  /** As long as there are not enough symbols, processing leaves the epochs as they are. */
  lemma RowStays(c: Code, now: seq<Epoch>, w: Row, n: nat, next: seq<Epoch>)
    requires n <= |w.air| && n < c.rsK && w.first < w.last && RowUpTo(now, w, n) && Processes(c, now, next)
    ensures next == now
  {
    assert Look(OfStep, 0);
    if n > 0 {
      if w.first + n <= w.last { OneStays(c, now); } else { TwoStay(c, now); }
    }
  }

  /** A new exchange of the receiver does not touch the symbols. */
  lemma RowKeepsOn(epochs: seq<Epoch>, w: Row, n: nat, passive: bool, exchange: int)
    requires n <= |w.air| && w.first < w.last && RowUpTo(epochs, w, n)
    ensures RowUpTo(WithExchange(passive, epochs, exchange), w, n)
  {}

  /** One step, with an advertisement of the row or between two of them. */
  lemma RowMoves(c: Code, w: Row, n: nat, step: Step, epochs: seq<Epoch>, now: seq<Epoch>, next: seq<Epoch>)
    requires IsRow(c, w) && OnTime(w) && n < |w.air| <= c.rsK && RowUpTo(epochs, w, n)
    requires Moves(c, step, epochs, now, next)
    requires step.Hear? ==>
      w.air[n] == step.air && n + 1 < |w.air| && (w.first + n < w.last || CrossesRight(w))
    ensures RowUpTo(next, w, if step.Hear? then n + 1 else n)
  {
    assert Look(OfMove, 0);
    match step
    case Hear(x, exchange, yCoord) =>
      RowStep(c, epochs, w, n, exchange, yCoord, now);
      RowStays(c, now, w, n + 1, next);
    case BadNumber => RowStays(c, epochs, w, n, next);
    case OwnEpoch(passive, exchange) => RowKeepsOn(epochs, w, n, passive, exchange);
  }

  /** What a step adds to what has been heard before it. */
  lemma HeardStep(steps: seq<Step>, m: nat)
    requires m < |steps|
    ensures |Heard(steps[..m + 1])| == |Heard(steps[..m])| + (if steps[m].Hear? then 1 else 0)
    ensures steps[m].Hear? ==>
      |Heard(steps[..m])| < |Heard(steps)| && Heard(steps)[|Heard(steps[..m])|] == steps[m].air
  {
    HeardNext(steps, m);
    if steps[m].Hear? {
      HeardAt(steps, m, |steps|);
      assert steps[..|steps|] == steps;
    }
  }

  /** The run hears a row in time, and no more of it than is needed. */
  ghost predicate HearsRow(c: Code, w: Row, r: Run) {
    forall k: nat :: Look(OfRun, k) ==>
      && IsRun(c, r) && IsRow(c, w) && OnTime(w) && w.air == Heard(r.steps) && |w.air| <= c.rsK
  }

  /** Before step n of the run, the epochs are those of the part of the row that has been heard. */
  ghost predicate RowBeforeStep(w: Row, r: Run, n: nat)
    requires n <= |r.steps| && n < |r.rest|
  {
    var k := |Heard(r.steps[..n])|;
    k <= |w.air| && w.first < w.last && RowUpTo(r.rest[n], w, k)
  }

  /** The part of the row that has been heard does not go further than the receiver can tell. */
  predicate SeenUpTo(w: Row, n: nat) {
    w.first < w.last && (w.first + n <= w.last || CrossesRight(w))
  }

  lemma NextRowStep(c: Code, w: Row, r: Run, m: nat)
    requires HearsRow(c, w, r) && m < |r.steps| && m + 1 < |r.rest| && RowBeforeStep(w, r, m)
    requires |Heard(r.steps[..m + 1])| < |w.air| && SeenUpTo(w, |Heard(r.steps[..m + 1])|)
    ensures RowBeforeStep(w, r, m + 1)
  {
    assert Look(OfRun, 0);
    HeardStep(r.steps, m);
    assert Moves(c, r.steps[m], r.rest[m], r.now[m], r.rest[m + 1]);
    RowMoves(c, w, |Heard(r.steps[..m])|, r.steps[m], r.rest[m], r.now[m], r.rest[m + 1]);
  }

  lemma {:induction false} RowBefore(c: Code, w: Row, r: Run, n: nat)
    requires HearsRow(c, w, r) && n <= |r.steps| && |r.rest| == |r.steps| + 1 && r.rest[0] == []
    requires |Heard(r.steps[..n])| < |w.air| && SeenUpTo(w, |Heard(r.steps[..n])|)
    ensures RowBeforeStep(w, r, n)
  {
    if n > 0 {
      HeardStep(r.steps, n - 1);
      RowBefore(c, w, r, n - 1);
      NextRowStep(c, w, r, n - 1);
    }
  }

  /** A decoder with rsK symbols in a row decodes. */
  lemma PartDecodes(c: Code, w: Row, epoch: Epoch)
    requires EpochOk(c, w.e) && EpochValid(c, epoch) && Recovers(c.rebuild, c.rsK, w.e.codeword, w.e.key)
    requires HasPart(epoch.dhDecoder, w.e.codeword, w.first, w.last, c.rsK)
    ensures DecodesTo(c, w, epoch)
  {
    assert Look(OfPart, 0);
    assert Look(OfEpoch, 0);
    assert Fits(c, c.encode(w.e.key));
    assert PartOf(epoch.dhDecoder.received, w.e.codeword);
  }

  /**
   * An epoch has the rsK symbols of the row: those of the advertisements of the sender's epoch, and then those that
   * were left over, all with an index of the code; it decodes, and has the key.
   */
  ghost predicate DecodesTo(c: Code, w: Row, epoch: Epoch) {
    && EpochValid(c, epoch) && CodeLength(c) == |w.e.codeword|
    && epoch.dhDecoder.received == Part(w.e.codeword, w.first, w.last, c.rsK)
    && epoch.dhDecoder.numReceived == |epoch.dhDecoder.received| == c.rsK && CanDecode(epoch.dhDecoder, c.rsK)
    && Settled(c, epoch).dhDecoder.isDecoded && Settled(c, epoch).dhDecoder.data == w.e.key
  }

  lemma RowEnds(c: Code, w: Row, now: seq<Epoch>)
    requires EpochOk(c, w.e) && EpochsValid(c, now) && w.first < w.last && 0 < c.rsK == |w.air|
    requires Recovers(c.rebuild, c.rsK, w.e.codeword, w.e.key) && RowUpTo(now, w, c.rsK)
    ensures now != [] && DecodesTo(c, w, now[0])
  {
    OldestOfRow(now, w, c.rsK);
    PartDecodes(c, w, now[0]);
  }

  lemma OldestOfRow(epochs: seq<Epoch>, w: Row, n: nat)
    requires 0 < n <= |w.air| && w.first < w.last && RowUpTo(epochs, w, n)
    ensures |epochs| > 0 && HasPart(epochs[0].dhDecoder, w.e.codeword, w.first, w.last, n)
  {}

  lemma HearMove(c: Code, step: Step, epochs: seq<Epoch>, now: seq<Epoch>, next: seq<Epoch>)
    requires Moves(c, step, epochs, now, next) && step.Hear?
    ensures Hears(c, epochs, step.air, step.exchange, step.yCoord, now) && EpochsValid(c, now)
  {
    assert Look(OfMove, 0);
  }

  // ---------------------------------------------------------------- a row whose crossing is not seen

  /** No epoch has more than k symbols. */
  ghost predicate AtMost(epochs: seq<Epoch>, k: nat) {
    forall i :: 0 <= i < |epochs| ==> epochs[i].dhDecoder.numReceived <= k
  }

  lemma CurrentAddsOne(c: Code, epochs: seq<Epoch>, a: Advert, k: nat)
    requires WellSized(c, a) && |epochs| > 0 && BloomsOk(c, epochs[|epochs| - 1].blooms) && AtMost(epochs, k)
    ensures AtMost(AfterCurrent(c, epochs, a), k + 1)
  {}

  lemma NewAddsOne(c: Code, epochs: seq<Epoch>, a: Advert, e: Epoch, k: nat)
    requires WellSized(c, a) && BloomsOk(c, e.blooms) && e.dhDecoder == EMPTY && AtMost(epochs, k)
    ensures AtMost(AfterNew(c, epochs, a, e), k + 1)
  {}

  lemma HearingAddsOne(c: Code, epochs: seq<Epoch>, x: Air, exchange: int, yCoord: bool, now: seq<Epoch>, k: nat)
    requires Hears(c, epochs, x, exchange, yCoord, now) && AtMost(epochs, k)
    ensures AtMost(now, if Classify(epochs, x.a.num, x.time) == ToDuplicate then k else k + 1)
  {
    match Classify(epochs, x.a.num, x.time)
    case ToDuplicate => HearsDuplicate(c, epochs, x, exchange, yCoord, now);
    case ToCurrent =>
      HearsCurrent(c, epochs, x, exchange, yCoord, now);
      CurrentAddsOne(c, epochs, x.a, k);
    case ToNew =>
      HearsNew(c, epochs, x, exchange, yCoord, now);
      NewAddsOne(c, epochs, x.a, Epoch(x.a.num, x.time, EMPTY, [exchange], yCoord, [], 0), k);
  }

  lemma {:induction false} ProcessedAtMost(c: Code, done: seq<Epoch>, todo: seq<Epoch>, k: nat)
    requires EpochsValid(c, todo) && AtMost(done, k) && AtMost(todo, k)
    ensures AtMost(Processed(c, done, todo), k)
    decreases |todo|
  {
    if |todo| > 0 {
      RestIsValid(c, todo);
      assert Settled(c, todo[0]).dhDecoder.numReceived == todo[0].dhDecoder.numReceived;
      ProcessedAtMost(c, done, todo[1..], k);
      ProcessedAtMost(c, done + [Settled(c, todo[0])], todo[1..], k);
    }
  }

  lemma MovingAddsOne(c: Code, step: Step, epochs: seq<Epoch>, now: seq<Epoch>, next: seq<Epoch>, k: nat)
    requires Moves(c, step, epochs, now, next) && AtMost(epochs, k)
    ensures var n := if step.Hear? && Classify(epochs, step.air.a.num, step.air.time) != ToDuplicate then k + 1 else k;
      AtMost(now, n) && AtMost(next, n)
  {
    assert Look(OfMove, 0);
    match step
    case Hear(x, exchange, yCoord) =>
      HearingAddsOne(c, epochs, x, exchange, yCoord, now, k);
      assert Look(OfStep, 0);
      ProcessedAtMost(c, [], now, if Classify(epochs, x.a.num, x.time) == ToDuplicate then k else k + 1);
    case BadNumber =>
      assert Look(OfStep, 0);
      ProcessedAtMost(c, [], now, k);
    case OwnEpoch(passive, exchange) =>
  }

  /** The advertisement with which the next epoch begins is taken for a duplicate. */
  lemma MissedStep(c: Code, w: Row, r: Run, m: nat)
    requires HearsRow(c, w, r) && m < |r.steps| == |r.now| && |r.rest| == |r.steps| + 1 && r.rest[0] == []
    requires r.steps[m].Hear? && w.first < w.last && !CrossesRight(w) && w.first + |Heard(r.steps[..m])| == w.last
    ensures AtMost(r.now[m], w.last - w.first) && AtMost(r.rest[m + 1], w.last - w.first)
  {
    var k := w.last - w.first;
    RowBefore(c, w, r, m);
    assert Look(OfRun, 0);
    HeardStep(r.steps, m);
    RowNumber(c, w, k);
    CrossingIsSeen(r.rest[m], w, k);
    assert Moves(c, r.steps[m], r.rest[m], r.now[m], r.rest[m + 1]);
    MovingAddsOne(c, r.steps[m], r.rest[m], r.now[m], r.rest[m + 1], k);
  }

  lemma RowNumber(c: Code, w: Row, i: nat)
    requires IsRow(c, w) && i < |w.air| && w.first + i == w.last
    ensures w.air[i].a.num == 0
  {
    assert Look(OfRow, 0);
  }

  /** From then on there is always one symbol less than advertisements. */
  lemma {:induction false} MissedRow(c: Code, w: Row, r: Run, m: nat)
    requires HearsRow(c, w, r) && m < |r.steps| == |r.now| && |r.rest| == |r.steps| + 1 && r.rest[0] == []
    requires w.first < w.last && !CrossesRight(w) && w.first + |Heard(r.steps[..m + 1])| > w.last
    ensures AtMost(r.now[m], |Heard(r.steps[..m + 1])| - 1) && AtMost(r.rest[m + 1], |Heard(r.steps[..m + 1])| - 1)
  {
    HeardStep(r.steps, m);
    if w.first + |Heard(r.steps[..m])| <= w.last {
      MissedStep(c, w, r, m);
    } else {
      assert m > 0 && r.steps[..m - 1 + 1] == r.steps[..m];
      MissedRow(c, w, r, m - 1);
      assert Look(OfRun, 0);
      assert Moves(c, r.steps[m], r.rest[m], r.now[m], r.rest[m + 1]);
      MovingAddsOne(c, r.steps[m], r.rest[m], r.now[m], r.rest[m + 1], |Heard(r.steps[..m])| - 1);
    }
  }

  /** The run ends with the last advertisement of a row of rsK. */
  ghost predicate EndsRow(c: Code, w: Row, r: Run) {
    && HearsRow(c, w, r) && |w.air| == c.rsK && |r.steps| == |r.now| > 0 && |r.rest| == |r.steps| + 1 && r.rest[0] == []
    && r.steps[|r.steps| - 1].Hear? && |Heard(r.steps[..|r.steps| - 1])| == c.rsK - 1
    && Recovers(c.rebuild, c.rsK, w.e.codeword, w.e.key)
  }

  lemma SeenRowDecodes(c: Code, w: Row, r: Run)
    requires EndsRow(c, w, r) && w.first < w.last && CrossesRight(w)
    ensures var epochs := r.now[|r.steps| - 1]; epochs != [] && DecodesTo(c, w, epochs[0])
  {
    var m := |r.steps| - 1;
    RowBefore(c, w, r, m);
    assert Look(OfRun, 0);
    HeardStep(r.steps, m);
    assert Moves(c, r.steps[m], r.rest[m], r.now[m], r.rest[m + 1]);
    HearMove(c, r.steps[m], r.rest[m], r.now[m], r.rest[m + 1]);
    RowStep(c, r.rest[m], w, c.rsK - 1, r.steps[m].exchange, r.steps[m].yCoord, r.now[m]);
    RowEnds(c, w, r.now[m]);
  }

  lemma MissedRowDoesNot(c: Code, w: Row, r: Run)
    requires EndsRow(c, w, r) && w.first < w.last && !CrossesRight(w)
    ensures AtMost(r.now[|r.steps| - 1], c.rsK - 1)
  {
    HeardStep(r.steps, |r.steps| - 1);
    MissedRow(c, w, r, |r.steps| - 1);
  }

  /**
   * Any rsK advertisements in a row that a new receiver hears, within one epoch or across its end, whenever that is,
   * let it decode the key of one epoch: exactly if it can tell that the next epoch has begun. The bit of the address
   * may change with the epoch of the sender, and in between the receiver may begin epochs of its own and hear bits with
   * other numbers.
   */
  lemma AnyRowDecodes(c: Code, w: Row, r: Run)
    requires IsRun(c, r) && IsRow(c, w) && OnTime(w) && w.air == Heard(r.steps) && |w.air| == c.rsK
    requires r.steps[|r.steps| - 1].Hear? && Recovers(c.rebuild, c.rsK, w.e.codeword, w.e.key)
    ensures var epochs := r.now[|r.steps| - 1];
      epochs != [] && DecodesTo(c, w, epochs[0]) <==> CrossesRight(w)
  {
    HeardStep(r.steps, |r.steps| - 1);
    assert r.steps[..|r.steps| - 1 + 1] == r.steps;
    assert EndsRow(c, w, r);
    if CrossesRight(w) { SeenRowDecodes(c, w, r); } else { MissedRowDoesNot(c, w, r); }
  }
}
