/**
 * What a receiver makes of the advertisements of one epoch, whatever part of them it hears and in whatever order, as
 * long as none is heard too late.
 */
module BT4OneEpoch {
  import opened BT4Advert
  import opened BT4Decoding
  import opened BT4Matching
  import opened BT4Receiver
  import opened Device
  import opened ErasureDecoder
  import opened Hiding

  /**
   * The advertisement is heard in time: it repeats the one that was heard first, or the other one of its pair, or it
   * has a higher number.
   */
  predicate Follows(first: Air, x: Air) {
    if x.a.num == first.a.num || x.a.num + 1 == first.a.num then
      Elapsed(x.time, first.time) < ADV_N / 2 * SCAN_INTERVAL
    else first.a.num < x.a.num && InTime(first.time, x.time, x.a.num - first.a.num)
  }

  /** These are exactly the advertisements that do not begin another epoch. */
  lemma FollowsExactly(epochs: seq<Epoch>, first: Air, x: Air)
    requires |epochs| == 1 && epochs[0].lastAdvertNum == first.a.num && epochs[0].lastAdvertTime == first.time
    ensures Follows(first, x) <==> Classify(epochs, x.a.num, x.time) != ToNew
    ensures Classify(epochs, x.a.num, x.time) == ToCurrent ==> x.a.num > first.a.num
    ensures Classify(epochs, x.a.num, x.time) == ToDuplicate ==> x.a.num <= first.a.num
  {}

  /** Only advertisements of one epoch are heard, first the one that is given and then some that follow it. */
  ghost predicate OneEpochRun(c: Code, e: SentEpoch, r: Run, first: Air) {
    && EpochOk(c, e) && IsRun(c, r)
    && forall i :: 0 <= i < |r.steps| && r.steps[i].Hear? ==>
      && SentIn(c, e, r.steps[i].air.a)
      && if Heard(r.steps[..i]) == [] then r.steps[i].air == first else Follows(first, r.steps[i].air)
  }

  /** Nothing has been heard yet, or there is the epoch that began with the first advertisement. */
  predicate BeganWith(epochs: seq<Epoch>, heard: bool, first: Air) {
    if !heard then epochs == []
    else |epochs| == 1 && epochs[0].lastAdvertNum == first.a.num && epochs[0].lastAdvertTime == first.time
  }

  /** All epochs are of the one sent epoch. */
  function OneOwner(epochs: seq<Epoch>): seq<nat> {
    if epochs == [] then [] else [0]
  }

  function AllOwners(rest: seq<seq<Epoch>>): (owners: seq<seq<nat>>)
    ensures |owners| == |rest| && forall i :: 0 <= i < |rest| ==> owners[i] == OneOwner(rest[i])
  {
    seq(|rest|, i requires 0 <= i < |rest| => OneOwner(rest[i]))
  }

  function OneSender(n: nat): (senders: seq<nat>)
    ensures |senders| == n && forall i :: 0 <= i < n ==> senders[i] == 0
  {
    seq(n, _ => 0)
  }

  lemma ProcessingOne(c: Code, now: seq<Epoch>, next: seq<Epoch>)
    requires Processes(c, now, next) && |now| <= 1
    ensures next == if now == [] then [] else [Settled(c, now[0])]
    ensures OwnersProcessed(c, [], now, OneOwner(now)) == OneOwner(next)
  {
    assert Look(OfStep, 0);
    if |now| == 1 {
      assert Processed(c, [], now) == Processed(c, [] + [Settled(c, now[0])], now[1..]);
      assert OwnersProcessed(c, [], now, [0]) == OwnersProcessed(c, [] + [0], now[1..], [0][1..]);
    }
  }

  /** The advertisement begins the epoch, or it is taken by it, or it is a duplicate. */
  lemma HearingOne(c: Code, epochs: seq<Epoch>, heard: bool, first: Air, x: Air, exchange: int, yCoord: bool,
                   now: seq<Epoch>)
    requires Hears(c, epochs, x, exchange, yCoord, now) && BeganWith(epochs, heard, first)
    requires if heard then Follows(first, x) else x == first
    ensures BeganWith(now, true, first) && OwnersAfter(epochs, OneOwner(epochs), x, 0) == OneOwner(now)
    ensures RightlyAssigned(c, epochs, OneOwner(epochs), x, 0)
  {
    if heard { FollowsExactly(epochs, first, x); }
    match Classify(epochs, x.a.num, x.time)
    case ToDuplicate => HearsDuplicate(c, epochs, x, exchange, yCoord, now);
    case ToCurrent =>
      HearsCurrent(c, epochs, x, exchange, yCoord, now);
      TakesSymbol(c, epochs[0], x.a);
    case ToNew =>
      HearsNew(c, epochs, x, exchange, yCoord, now);
      TakesSymbol(c, Epoch(x.a.num, x.time, EMPTY, [exchange], yCoord, [], 0), x.a);
  }

  lemma OneMove(c: Code, e: SentEpoch, step: Step, heard: bool, first: Air, epochs: seq<Epoch>, now: seq<Epoch>,
                next: seq<Epoch>)
    requires EpochOk(c, e) && Moves(c, step, epochs, now, next) && BeganWith(epochs, heard, first)
    requires step.Hear? ==> SentIn(c, e, step.air.a) && if heard then Follows(first, step.air) else step.air == first
    requires EpochsValid(c, now)
    ensures BeganWith(now, heard || step.Hear?, first) && BeganWith(next, heard || step.Hear?, first)
    ensures RightStep(c, [e], step, 0, epochs, OneOwner(epochs), now, OneOwner(next))
  {
    assert Look(OfMove, 0);
    match step
    case Hear(x, exchange, yCoord) =>
      HearingOne(c, epochs, heard, first, x, exchange, yCoord, now);
      ProcessingOne(c, now, next);
    case BadNumber => ProcessingOne(c, now, next);
    case OwnEpoch(passive, exchange) =>
  }

  /** Before step i of the run. */
  ghost predicate OneBefore(r: Run, first: Air, i: nat)
    requires i <= |r.steps| && i < |r.rest|
  {
    BeganWith(r.rest[i], Heard(r.steps[..i]) != [], first)
  }

  lemma OneStep(c: Code, e: SentEpoch, r: Run, first: Air, i: nat)
    requires OneEpochRun(c, e, r, first) && i < |r.steps| && OneBefore(r, first, i) && EpochsValid(c, r.now[i])
    ensures BeganWith(r.now[i], Heard(r.steps[..i + 1]) != [], first) && OneBefore(r, first, i + 1)
    ensures RightStep(c, [e], r.steps[i], 0, r.rest[i], OneOwner(r.rest[i]), r.now[i], OneOwner(r.rest[i + 1]))
  {
    HeardNext(r.steps, i);
    assert Moves(c, r.steps[i], r.rest[i], r.now[i], r.rest[i + 1]);
    OneMove(c, e, r.steps[i], Heard(r.steps[..i]) != [], first, r.rest[i], r.now[i], r.rest[i + 1]);
  }

  lemma {:induction false} AlwaysOne(c: Code, e: SentEpoch, r: Run, first: Air, n: nat)
    requires OneEpochRun(c, e, r, first) && n <= |r.steps|
    ensures OneBefore(r, first, n)
  {
    if n > 0 {
      AlwaysOne(c, e, r, first, n - 1);
      RunIsAtRest(c, r, n - 1);
      OneStep(c, e, r, first, n - 1);
    }
  }

  /** So every advertisement is taken for one of the epoch. */
  lemma OneEpochIsRight(c: Code, e: SentEpoch, r: Run, first: Air)
    requires OneEpochRun(c, e, r, first)
    ensures RightRun(c, [e], r, OneSender(|r.steps|), AllOwners(r.rest))
  {
    forall i | 0 <= i < |r.steps|
      ensures RightStep(c, [e], r.steps[i], 0, r.rest[i], OneOwner(r.rest[i]), r.now[i], OneOwner(r.rest[i + 1]))
    {
      AlwaysOne(c, e, r, first, i);
      RunIsAtRest(c, r, i);
      OneStep(c, e, r, first, i);
    }
  }

  /** Any part of the advertisements of one epoch, in any order after the first one, loses no match. */
  lemma NoMatchIsLostInOneEpoch(c: Code, e: SentEpoch, r: Run, first: Air, matching: seq<seq<LinkValue>>, v: LinkValue,
                                n: nat)
    requires OneEpochRun(c, e, r, first) && n <= |r.steps| && Recovers(c.rebuild, c.rsK, e.codeword, e.key)
    requires InAllFilters(c, e, v) && MatchingRun(c, r, matching) && v in matching[0]
    ensures v in matching[n]
  {
    OneEpochIsRight(c, e, r, first);
    NoMatchIsLost(c, [e], r, OneSender(|r.steps|), AllOwners(r.rest), matching, v, n);
  }

  // ---------------------------------------------------------------- any rsK of them

  /** The numbers that have been heard, without those of repeats that came before the first one. */
  function Numbers(first: nat, air: seq<Air>): set<nat> {
    set i | 0 <= i < |air| && air[i].a.num >= first :: air[i].a.num
  }

  lemma OneMoreNumber(first: nat, air: seq<Air>, x: Air)
    ensures Numbers(first, air + [x]) == Numbers(first, air) + (if x.a.num >= first then {x.a.num} else {})
  {
    var more := air + [x];
    assert more[|air|] == x && forall i :: 0 <= i < |air| ==> more[i] == air[i];
    forall k | k in Numbers(first, air) || (k == x.a.num && k >= first) ensures k in Numbers(first, more) {
      if k in Numbers(first, air) {
        var i :| 0 <= i < |air| && air[i].a.num >= first && air[i].a.num == k;
        assert more[i].a.num == k;
      } else {
        assert more[|air|].a.num == k;
      }
    }
  }

  /** Until the epoch is decoded it has exactly the symbols with the numbers. */
  predicate HasNumbers(epoch: Epoch, numbers: set<nat>) {
    !epoch.dhDecoder.isDecoded ==> epoch.dhDecoder.received.Keys == numbers
  }

  /** Between two steps it is decoded exactly if these are enough. */
  predicate DecodedIfEnough(epoch: Epoch, numbers: set<nat>, rsK: nat) {
    HasNumbers(epoch, numbers) && (epoch.dhDecoder.isDecoded <==> |numbers| >= rsK)
  }

  lemma SettlesIfEnough(c: Code, epoch: Epoch, numbers: set<nat>)
    requires EpochValid(c, epoch) && HasNumbers(epoch, numbers) && (epoch.dhDecoder.isDecoded ==> |numbers| >= c.rsK)
    ensures DecodedIfEnough(Settled(c, epoch), numbers, c.rsK)
  {
    assert Look(OfEpoch, 0);
    assert !epoch.dhDecoder.isDecoded ==> |epoch.dhDecoder.received| == |epoch.dhDecoder.received.Keys|;
  }

  lemma MoreIsEnough(numbers: set<nat>, k: nat, rsK: nat)
    requires |numbers| >= rsK
    ensures |numbers + {k}| >= rsK
  {
    if k in numbers { assert numbers + {k} == numbers; }
  }

  /** An advertisement adds its number. */
  lemma HearingAddsNumber(c: Code, epochs: seq<Epoch>, heard: bool, first: Air, x: Air, exchange: int, yCoord: bool,
                          now: seq<Epoch>, numbers: set<nat>)
    requires Hears(c, epochs, x, exchange, yCoord, now) && BeganWith(epochs, heard, first) && |now| == 1
    requires if heard then Follows(first, x) && DecodedIfEnough(epochs[0], numbers, c.rsK) && first.a.num in numbers
             else x == first && numbers == {} && c.rsK > 0
    ensures var all := numbers + (if x.a.num >= first.a.num then {x.a.num} else {});
      HasNumbers(now[0], all) && (now[0].dhDecoder.isDecoded ==> |all| >= c.rsK)
  {
    if heard { FollowsExactly(epochs, first, x); }
    match Classify(epochs, x.a.num, x.time)
    case ToDuplicate =>
      HearsDuplicate(c, epochs, x, exchange, yCoord, now);
      assert x.a.num >= first.a.num ==> numbers + {x.a.num} == numbers;
    case ToCurrent =>
      HearsCurrent(c, epochs, x, exchange, yCoord, now);
      TakesSymbol(c, epochs[0], x.a);
      if epochs[0].dhDecoder.isDecoded { MoreIsEnough(numbers, x.a.num, c.rsK); }
    case ToNew =>
      HearsNew(c, epochs, x, exchange, yCoord, now);
      TakesSymbol(c, Epoch(x.a.num, x.time, EMPTY, [exchange], yCoord, [], 0), x.a);
  }

  /** Before step i: the epoch has what has been heard, and is decoded exactly if that is enough. */
  ghost predicate Gathered(c: Code, r: Run, first: Air, i: nat)
    requires i <= |r.steps| && i < |r.rest|
  {
    var air := Heard(r.steps[..i]);
    air != [] ==>
      && |r.rest[i]| == 1 && first.a.num in Numbers(first.a.num, air)
      && DecodedIfEnough(r.rest[i][0], Numbers(first.a.num, air), c.rsK)
  }

  lemma GatherStep(c: Code, e: SentEpoch, r: Run, first: Air, i: nat)
    requires OneEpochRun(c, e, r, first) && i < |r.steps| && OneBefore(r, first, i) && Gathered(c, r, first, i)
    requires EpochsValid(c, r.now[i])
    ensures Gathered(c, r, first, i + 1)
  {
    var air := Heard(r.steps[..i]);
    OneStep(c, e, r, first, i);
    HeardNext(r.steps, i);
    assert Moves(c, r.steps[i], r.rest[i], r.now[i], r.rest[i + 1]);
    assert Look(OfMove, 0);
    match r.steps[i]
    case Hear(x, exchange, yCoord) =>
      OneMoreNumber(first.a.num, air, x);
      HearingAddsNumber(c, r.rest[i], air != [], first, x, exchange, yCoord, r.now[i], Numbers(first.a.num, air));
      ProcessingOne(c, r.now[i], r.rest[i + 1]);
      SettlesIfEnough(c, r.now[i][0], Numbers(first.a.num, air + [x]));
    case BadNumber =>
      assert Heard(r.steps[..i + 1]) == air;
      ProcessingOne(c, r.now[i], r.rest[i + 1]);
      if air != [] { SettlesIfEnough(c, r.now[i][0], Numbers(first.a.num, air)); }
    case OwnEpoch(passive, exchange) => assert Heard(r.steps[..i + 1]) == air;
  }

  lemma {:induction false} AllGathered(c: Code, e: SentEpoch, r: Run, first: Air, n: nat)
    requires OneEpochRun(c, e, r, first) && n <= |r.steps|
    ensures Gathered(c, r, first, n)
  {
    if n > 0 {
      AllGathered(c, e, r, first, n - 1);
      AlwaysOne(c, e, r, first, n - 1);
      RunIsAtRest(c, r, n - 1);
      GatherStep(c, e, r, first, n - 1);
    }
  }

  /**
   * Any rsK different advertisements of one epoch let the receiver decode its key, in any order after the first one and
   * with any repeats and other steps in between; and nothing less does.
   */
  lemma AnyEnoughDecode(c: Code, e: SentEpoch, r: Run, first: Air, n: nat)
    requires OneEpochRun(c, e, r, first) && n <= |r.steps| && Heard(r.steps[..n]) != []
    requires Recovers(c.rebuild, c.rsK, e.codeword, e.key)
    ensures |r.rest[n]| == 1
    ensures var d := r.rest[n][0].dhDecoder;
      && (d.isDecoded <==> |Numbers(first.a.num, Heard(r.steps[..n]))| >= c.rsK)
      && (d.isDecoded ==> d.data == e.key)
  {
    AllGathered(c, e, r, first, n);
    OneEpochIsRight(c, e, r, first);
    RightRunIsOwned(c, [e], r, OneSender(|r.steps|), AllOwners(r.rest), n);
    assert Faithful(c, r.rest[n][0], [e][0]);
  }
}
