/**
 * The receiver side of the Bluetooth 2.1 radio, source/EbNRadioBT2.cpp, with passive confirmation or none and with its
 * memory of devices. What the air brings comes in as a list of responses; key exchanges and filters are functions.
 */
module RadioBT2 {
  import opened Address
  import opened Device
  import opened DeviceMap
  import opened Hiding
  import opened HystPolicy
  import opened KnownDevices
  import opened Radio

  const DISC_INTERVAL: nat := 60000
  const ADV_N: nat := 15

  datatype Epoch = Epoch(lastAdvertNum: nat, lastAdvertTime: nat, dhRemotePublic: seq<Byte>)

  /**
   * A response to an inquiry: its address and its first two bytes, the number and the public key in the advertisement,
   * the answers of its filter to a link value after a public key, and what a key exchange with that key gives.
   */
  datatype Response = Response(
    time: nat, address: Address, rssi: int, length: nat, kind: nat, advertNum: nat, key: seq<Byte>,
    query: (seq<Byte>, LinkValue) -> bool, pFalse: real, secret: Secret)

  datatype Belongs = Duplicate | ToCurrent | ToNew

  /** Which epoch of a device an advertisement belongs to. */
  function Classify(epochs: seq<Epoch>, advertNum: nat, time: nat): Belongs {
    if |epochs| == 0 then ToNew
    else
      var last := epochs[|epochs| - 1];
      var elapsed := Elapsed(time, last.lastAdvertTime);
      if last.lastAdvertNum == advertNum then
        if elapsed < (ADV_N - 3) * DISC_INTERVAL then Duplicate else ToNew
      else if last.lastAdvertNum < advertNum && elapsed < (advertNum - last.lastAdvertNum + 3) * DISC_INTERVAL then
        ToCurrent
      else ToNew
  }

  /** The repeated advertisements of an epoch do not count again, and those of a new one start it. */
  lemma OneRun(first: nat, at: nat, key: seq<Byte>, later: nat, time: nat)
    requires first <= later < ADV_N && at <= time
    requires time < at + (later - first + 3) * DISC_INTERVAL && time < at + (ADV_N - 3) * DISC_INTERVAL
    ensures Classify([Epoch(first, at, key)], later, time) == (if later == first then Duplicate else ToCurrent)
  {}

  /** What is left of the epochs of a device when a response has been heard and its epochs have been processed. */
  function EpochsAfter(epochs: seq<Epoch>, r: Response): seq<Epoch> {
    var last := |epochs| - 1;
    if r.advertNum < ADV_N && Classify(epochs, r.advertNum, r.time) == ToNew then [Epoch(r.advertNum, r.time, r.key)]
    else if last >= 0 then [epochs[last]] else []
  }

  function EpochsAfterAll(epochs: seq<Epoch>, rs: seq<Response>): seq<Epoch> {
    if |rs| == 0 then epochs else EpochsAfter(EpochsAfterAll(epochs, rs[..|rs| - 1]), rs[|rs| - 1])
  }

  /** The answers of the filter of a response, with the public key of an epoch. */
  function AnswersTo(r: Response, key: seq<Byte>): LinkValue -> bool {
    v => r.query(key, v)
  }

  function TestBy(r: Response, key: seq<Byte>): Test {
    Test(AnswersTo(r, key), r.pFalse)
  }

  /** What a response leaves of the matching set. */
  function MatchingAfter(epochs: seq<Epoch>, matching: seq<LinkValue>, r: Response): seq<LinkValue> {
    if r.advertNum >= ADV_N then matching
    else
      match Classify(epochs, r.advertNum, r.time)
      case Duplicate => matching
      case ToNew => Filtered(matching, AnswersTo(r, r.key))
      case ToCurrent => Filtered(matching, AnswersTo(r, epochs[|epochs| - 1].dhRemotePublic))
  }

  /** What a response makes of the secrets: a new epoch has one of its own, and the others are tested as it goes on. */
  ghost function SecretsAfter(t: ConfirmType, threshold: real, epochs: seq<Epoch>, a: Secrets, r: Response): Secrets {
    if r.advertNum >= ADV_N then a
    else
      match Classify(epochs, r.advertNum, r.time)
      case Duplicate => a
      case ToNew => WithExchanged(t, a, r.secret)
      case ToCurrent =>
        if HasPassive(t) then WithTest(a, TestBy(r, epochs[|epochs| - 1].dhRemotePublic), threshold) else a
  }

  /** The response is one of this protocol. */
  predicate Accepted(r: Response) {
    Checked(First(r.address)) && Checked(Second(r.address)) && r.length == 239 && r.kind == 0xFF
  }

  function AcceptedOf(rs: seq<Response>): seq<Response> {
    if |rs| == 0 then []
    else
      var last := rs[|rs| - 1];
      AcceptedOf(rs[..|rs| - 1]) + (if Accepted(last) then [last] else [])
  }

  /** The list has the time and the strength of every response that is accepted, in their order. */
  predicate Lists(discovered: seq<DiscoverEvent>, rs: seq<Response>) {
    && |discovered| == |AcceptedOf(rs)|
    && forall k :: 0 <= k < |discovered| ==>
      discovered[k].time == AcceptedOf(rs)[k].time && discovered[k].rssi == AcceptedOf(rs)[k].rssi
  }

  /** What a radio keeps of a device between two responses. */
  datatype State = State(
    epochs: seq<Epoch>, matching: seq<LinkValue>, secrets: Secrets, measurements: seq<RSSIEvent>)

  ghost function StateAfter(t: ConfirmType, threshold: real, s: State, r: Response): State {
    State(EpochsAfter(s.epochs, r), MatchingAfter(s.epochs, s.matching, r),
          SecretsAfter(t, threshold, s.epochs, s.secrets, r), s.measurements + [RSSIEvent(r.time, r.rssi)])
  }

  ghost function StateAfterAll(t: ConfirmType, threshold: real, s: State, rs: seq<Response>): State {
    if |rs| == 0 then s
    else StateAfter(t, threshold, StateAfterAll(t, threshold, s, rs[..|rs| - 1]), rs[|rs| - 1])
  }

  ghost function StateOf(device: EbNDevice<Epoch>): State
    reads device
  {
    State(device.epochs, device.matching, device.Account(), device.rssiToReport)
  }

  /** All that a device has to say, and what has been said of it. */
  datatype Image = Image(
    device: EbNDevice<Epoch>, state: State, reports: Reports, listened: seq<LinkValue>, confirmed: bool,
    shakenHands: bool, updatedMatching: bool, lastReportTime: nat, measured: seq<RSSIEvent>)

  ghost function ImageOf(device: EbNDevice<Epoch>): Image
    reads device
  {
    Image(device, StateOf(device), device.AllReports(), device.listened, device.confirmed, device.shakenHands,
          device.updatedMatching, device.lastReportTime, device.measured)
  }

  /** There is something to tell about a device. */
  predicate HasNewsIn(im: Image, now: nat, interval: nat) {
    && im.confirmed && im.shakenHands
    && (im.state.secrets.toReport != [] || im.updatedMatching
        || (im.state.measurements != [] && Elapsed(now, im.lastReportTime) > interval))
  }

  /** The event holds all that was to be told about a device. */
  predicate TellsAll(im: Image, e: EncounterEvent) {
    && e.kind == (if im.reports.started then Updated else Started)
    && e.sharedSecretsUpdated == (im.state.secrets.toReport != []) && e.matchingSetUpdated == im.updatedMatching
    && (e.sharedSecretsUpdated ==> e.sharedSecrets == im.state.secrets.toReport)
    && (e.matchingSetUpdated ==> e.matching == im.state.matching) && e.rssiEvents == im.state.measurements
  }

  /** The device when it has told all of it. */
  function AfterTelling(im: Image, e: EncounterEvent, time: nat): Image {
    im.(reports := WithEvent(im.reports, e), updatedMatching := false, lastReportTime := time,
        state := im.state.(secrets := im.state.secrets.(toReport := []), measurements := []))
  }

  /** Asking for the news of a device. */
  predicate AskedOne(was: Image, now: Image, time: nat, later: nat, interval: nat, success: bool, e: EncounterEvent) {
    && success == HasNewsIn(was, time, interval) && (!success ==> now == was)
    && (success ==> TellsAll(was, e) && now == AfterTelling(was, e, later))
  }

  ghost predicate Asked(before: map<DeviceID, Image>, now: map<DeviceID, Image>, id: DeviceID, time: nat, later: nat,
                        interval: nat, success: bool, e: EncounterEvent) {
    && now.Keys == before.Keys && (forall i :: i in before && i != id ==> now[i] == before[i])
    && (if id in before then AskedOne(before[id], now[id], time, later, interval, success, e) else !success)
    && (success ==> e.id == id)
  }

  /** Shaking hands. */
  ghost predicate Shaken(before: map<DeviceID, Image>, now: map<DeviceID, Image>, ids: set<DeviceID>) {
    forall k: nat :: Look(OfImages, k) ==>
      && now.Keys == before.Keys
      && forall id :: id in before ==> now[id] == before[id].(shakenHands := before[id].shakenHands || id in ids)
  }

  /** Those that hands have been shaken with and that are confirmed. */
  ghost function MetIn(images: map<DeviceID, Image>): set<DeviceID> {
    set id | id in images && images[id].shakenHands && images[id].confirmed
  }

  /** Secrets may have been added that are not confirmed, and nothing else has changed. */
  ghost predicate Silent(before: map<DeviceID, Image>, now: map<DeviceID, Image>) {
    forall k: nat :: Look(OfImages, k) ==>
      && now.Keys == before.Keys
      && forall id :: id in now ==>
        && now[id].state.secrets.toReport == before[id].state.secrets.toReport
        && now[id] == before[id].(state := before[id].state.(secrets := now[id].state.secrets))
  }

  /** The last event of a device has the measurements that were left, so that all of them have been reported. */
  predicate EndsWith(im: Image, e: EncounterEvent) {
    && e.kind == Ended && !e.sharedSecretsUpdated && !e.matchingSetUpdated
    && e.rssiEvents == im.state.measurements && WithEvent(im.reports, e).measurements == im.measured
  }

  /**
   * What listening to the air does to the devices: some are new, the others are still there, nothing is reported, and
   * those that are not heard are as they were.
   */
  ghost predicate Grows(before: map<DeviceID, Image>, next: int, now: map<DeviceID, Image>, nextNow: int,
                        heard: set<DeviceID>) {
    forall k: nat :: Look(OfImages, k) ==>
      && next <= nextNow && now.Keys == before.Keys + heard
      && (forall id :: next <= id < nextNow ==> id in now)
      && (forall id :: id in before ==>
            && now[id].device == before[id].device && now[id].reports == before[id].reports
            && now[id].listened == before[id].listened && now[id].shakenHands == before[id].shakenHands
            && (id !in heard ==> now[id] == before[id]))
      && (forall id :: id in now && id !in before ==>
            && id >= next && !now[id].shakenHands && now[id].reports == Reports(false, [], [], now[id].listened))
  }

  lemma NothingGrows(now: map<DeviceID, Image>, next: int)
    ensures Grows(now, next, now, next, {})
  {}

  /** One device is heard. */
  lemma GrowsByOne(before: map<DeviceID, Image>, next: int, now: map<DeviceID, Image>, nextNow: int, id: DeviceID)
    requires now.Keys == before.Keys + {id} && forall i :: i in before && i != id ==> now[i] == before[i]
    requires if id in before then
        && nextNow == next && now[id].device == before[id].device && now[id].reports == before[id].reports
        && now[id].listened == before[id].listened && now[id].shakenHands == before[id].shakenHands
      else
        && nextNow == next + 1 && id == next && !now[id].shakenHands
        && now[id].reports == Reports(false, [], [], now[id].listened)
    ensures Grows(before, next, now, nextNow, {id})
  {}

  /** Listening goes on. */
  lemma GrowsOn(before: map<DeviceID, Image>, next: int, between: map<DeviceID, Image>, nextBetween: int,
                now: map<DeviceID, Image>, nextNow: int, first: set<DeviceID>, second: set<DeviceID>)
    requires Grows(before, next, between, nextBetween, first) && Grows(between, nextBetween, now, nextNow, second)
    ensures Grows(before, next, now, nextNow, first + second)
  {
    assert Look(OfImages, 0);
  }

  /** The responses have advertisements of one epoch, and none is heard too long after the first one. */
  predicate OneEpochOnTime(rs: seq<Response>) {
    && |rs| > 0 && rs[0].advertNum < ADV_N
    && forall i :: 0 < i < |rs| ==>
      && rs[0].advertNum <= rs[i].advertNum < ADV_N && rs[0].time <= rs[i].time
      && rs[i].time < rs[0].time + (rs[i].advertNum - rs[0].advertNum + 3) * DISC_INTERVAL
      && rs[i].time < rs[0].time + (ADV_N - 3) * DISC_INTERVAL
  }

  /** However often, and in whatever order, the advertisements of an epoch are heard, the device has this one epoch. */
  lemma {:induction false} OneEpochHeard(epochs: seq<Epoch>, rs: seq<Response>)
    requires OneEpochOnTime(rs) && Classify(epochs, rs[0].advertNum, rs[0].time) == ToNew
    ensures EpochsAfterAll(epochs, rs) == [Epoch(rs[0].advertNum, rs[0].time, rs[0].key)]
  {
    var last := |rs| - 1;
    if last == 0 {
      assert EpochsAfterAll(epochs, rs[..0]) == epochs;
    } else {
      OneEpochHeard(epochs, rs[..last]);
      OneRun(rs[0].advertNum, rs[0].time, rs[0].key, rs[last].advertNum, rs[last].time);
    }
  }

  /** The tests of the responses that go on with the epoch of the first one. */
  function TestsAfterFirst(rs: seq<Response>): seq<Test>
    requires |rs| > 0
  {
    if |rs| == 1 then []
    else
      var last := rs[|rs| - 1];
      TestsAfterFirst(rs[..|rs| - 1]) + (if last.advertNum > rs[0].advertNum then [TestBy(last, rs[0].key)] else [])
  }

  lemma {:induction false} EpochsGoOn(t: ConfirmType, threshold: real, s: State, rs: seq<Response>)
    ensures StateAfterAll(t, threshold, s, rs).epochs == EpochsAfterAll(s.epochs, rs)
  {
    if |rs| > 0 { EpochsGoOn(t, threshold, s, rs[..|rs| - 1]); }
  }

  /** One more response of an epoch tests the secrets if it goes on with the epoch. */
  lemma OneMoreTest(t: ConfirmType, threshold: real, s: State, rs: seq<Response>)
    requires OneEpochOnTime(rs) && |rs| > 1
    requires s.epochs == [Epoch(rs[0].advertNum, rs[0].time, rs[0].key)]
    ensures var r := rs[|rs| - 1];
      StateAfter(t, threshold, s, r).secrets
        == if HasPassive(t) && r.advertNum > rs[0].advertNum then WithTest(s.secrets, TestBy(r, rs[0].key), threshold)
           else s.secrets
  {
    var last := |rs| - 1;
    OneRun(rs[0].advertNum, rs[0].time, rs[0].key, rs[last].advertNum, rs[last].time);
  }

  lemma WithOneMoreTest(a: Secrets, tests: seq<Test>, test: Test, threshold: real)
    ensures WithTests(a, tests + [test], threshold) == WithTest(WithTests(a, tests, threshold), test, threshold)
  {
    assert (tests + [test])[..|tests|] == tests;
  }

  /** With passive confirmation, exactly the advertisements that go on with an epoch test the secrets. */
  lemma {:induction false} OneEpochTests(t: ConfirmType, threshold: real, s: State, rs: seq<Response>)
    requires OneEpochOnTime(rs) && Classify(s.epochs, rs[0].advertNum, rs[0].time) == ToNew
    ensures var first := WithExchanged(t, s.secrets, rs[0].secret);
      StateAfterAll(t, threshold, s, rs).secrets
        == if HasPassive(t) then WithTests(first, TestsAfterFirst(rs), threshold) else first
  {
    var last := |rs| - 1;
    if last == 0 {
      assert StateAfterAll(t, threshold, s, rs[..0]) == s;
    } else {
      var front := rs[..last];
      var between := StateAfterAll(t, threshold, s, front);
      OneEpochTests(t, threshold, s, front);
      OneEpochHeard(s.epochs, front);
      EpochsGoOn(t, threshold, s, front);
      OneMoreTest(t, threshold, between, rs);
      var first := WithExchanged(t, s.secrets, rs[0].secret);
      WithOneMoreTest(first, TestsAfterFirst(front), TestBy(rs[last], rs[0].key), threshold);
      assert TestsAfterFirst(front) + [] == TestsAfterFirst(front);
    }
  }

  /**
   * A secret that is not confirmed when an epoch begins, as the one of the epoch itself, is confirmed in the course of
   * it exactly if the answers to the link value of the secret have been yes for long enough.
   */
  lemma ConfirmedInEpoch(threshold: real, s: State, rs: seq<Response>, i: nat)
    requires OneEpochOnTime(rs) && Classify(s.epochs, rs[0].advertNum, rs[0].time) == ToNew
    requires i < |WithExchanged(PassiveConfirm, s.secrets, rs[0].secret).known|
    requires var secret := WithExchanged(PassiveConfirm, s.secrets, rs[0].secret).known[i];
      !secret.confirmed && secret.pFalse == 1.0 > threshold
    ensures var secret := WithExchanged(PassiveConfirm, s.secrets, rs[0].secret).known[i];
      var known := StateAfterAll(PassiveConfirm, threshold, s, rs).secrets.known;
      && i < |known| && known[i].value == secret.value
      && (known[i].confirmed <==> LongStreak(TestsAfterFirst(rs), secret.value, threshold))
  {
    var first := WithExchanged(PassiveConfirm, s.secrets, rs[0].secret);
    OneEpochTests(PassiveConfirm, threshold, s, rs);
    TestsAge(first, TestsAfterFirst(rs), threshold);
    ConfirmedByStreak(first.known[i], TestsAfterFirst(rs), threshold);
  }

  /** Without confirmation, the secret of an epoch is confirmed and reported as soon as the epoch begins. */
  lemma ConfirmedAtOnce(threshold: real, s: State, r: Response)
    requires r.advertNum < ADV_N && Classify(s.epochs, r.advertNum, r.time) == ToNew && r.secret.Computed?
    ensures var now := StateAfter(NoConfirm, threshold, s, r).secrets;
      && ConfirmedValues(now.known) == ConfirmedValues(s.secrets.known) + {r.secret.value}
      && Values(now.toReport) == Values(s.secrets.toReport) + ({r.secret.value} - ConfirmedValues(s.secrets.known))
  {
    ConfirmedIsAdded(s.secrets, SharedSecret(r.secret.value, 0.0, true, Nobody));
  }

  class EbNRadioBT2 {
    const base: EbNRadio<Epoch>
    const deviceMap: EbNDeviceMap<Epoch>

    ghost predicate Valid()
      reads this, base, deviceMap, deviceMap.addressToDevice.Values, deviceMap.idToDevice.Values
    {
      forall k: nat :: Look(OfRadio, k) ==>
        Indexed(base, deviceMap) && DevicesValid(deviceMap) && base.confirmType in {NoConfirm, PassiveConfirm}
    }

    constructor (confirmType: ConfirmType, threshold: real, now: nat, hash: seq<Byte> -> nat)
      requires confirmType in {NoConfirm, PassiveConfirm}
      ensures Valid() && fresh(base) && fresh(deviceMap) && deviceMap.idToDevice == map[] && deviceMap.addressSize == 6
      ensures base.confirmType == confirmType && base.nextDeviceID == 0
    {
      base := new EbNRadio<Epoch>(confirmType, threshold, now);
      deviceMap := new EbNDeviceMap<Epoch>(hash, 6, 11);
    }

    /** A new epoch begins, and its key is exchanged. */
    method StartEpoch(device: EbNDevice<Epoch>, r: Response)
      requires device.Valid()
      modifies device`epochs, device`sharedSecrets, device`secretsToReport, device`confirmed
      ensures device.Valid() && device.epochs == old(device.epochs) + [Epoch(r.advertNum, r.time, r.key)]
      ensures device.confirmed == (old(device.confirmed) || (r.secret.Computed? && base.confirmType == NoConfirm))
      ensures device.Account() == WithExchanged(base.confirmType, old(device.Account()), r.secret)
    {
      device.epochs := device.epochs + [Epoch(r.advertNum, r.time, r.key)];
      if r.secret.Computed? {
        var confirmed := base.confirmType == NoConfirm;
        device.AddSharedSecret(SharedSecret(r.secret.value, if confirmed then 0.0 else 1.0, confirmed, Nobody));
      }
    }

    /** The answers of the filter are used, with the public key of the epoch. */
    method UseFilter(device: EbNDevice<Epoch>, r: Response, isNew: bool)
      requires device.Valid() && device.epochs != []
      modifies device`matching, device`updatedMatching, device`matchingPFalse
      modifies device`sharedSecrets, device`secretsToReport, device`confirmed
      ensures device.Valid() && (old(device.confirmed) ==> device.confirmed)
      ensures var key := device.epochs[|device.epochs| - 1].dhRemotePublic;
        && device.matching == Filtered(old(device.matching), AnswersTo(r, key))
        && device.Account() == if HasPassive(base.confirmType) && !isNew
                               then WithTest(old(device.Account()), TestBy(r, key), base.threshold)
                               else old(device.Account())
    {
      var key := device.epochs[|device.epochs| - 1].dhRemotePublic;
      device.UpdateMatching(AnswersTo(r, key), r.pFalse);
      if HasPassive(base.confirmType) && !isNew {
        device.ConfirmPassive(AnswersTo(r, key), base.threshold, r.pFalse);
      }
    }

    /** processAdvert: a new epoch begins, or the current one goes on, or nothing happens. */
    method ProcessAdvert(device: EbNDevice<Epoch>, r: Response) returns (processed: bool)
      requires device.Valid()
      modifies device`epochs, device`matching, device`updatedMatching, device`matchingPFalse
      modifies device`sharedSecrets, device`secretsToReport, device`confirmed
      ensures device.Valid() && (old(device.confirmed) ==> device.confirmed)
      ensures var c := Classify(old(device.epochs), r.advertNum, r.time);
        && processed == (r.advertNum < ADV_N && c != Duplicate)
        && device.epochs == (if processed && c == ToNew then old(device.epochs) + [Epoch(r.advertNum, r.time, r.key)]
                             else old(device.epochs))
        && (processed && c == ToNew && r.secret.Computed? && base.confirmType == NoConfirm ==> device.confirmed)
      ensures !processed ==> unchanged(device)
      ensures processed ==> device.epochs != []
      ensures device.matching == MatchingAfter(old(device.epochs), old(device.matching), r)
      ensures device.Account()
        == SecretsAfter(base.confirmType, base.threshold, old(device.epochs), old(device.Account()), r)
    {
      processed := false;
      if r.advertNum < ADV_N {
        var isDuplicate, isNew := false, true;
        if device.epochs != [] {
          var curEpoch := device.epochs[|device.epochs| - 1];
          var diffAdvertTime := Elapsed(r.time, curEpoch.lastAdvertTime);
          if curEpoch.lastAdvertNum == r.advertNum {
            if diffAdvertTime < (ADV_N - 3) * DISC_INTERVAL {
              isDuplicate, isNew := true, false;
            }
          } else if curEpoch.lastAdvertNum < r.advertNum
                    && diffAdvertTime < (r.advertNum - curEpoch.lastAdvertNum + 3) * DISC_INTERVAL {
            isNew := false;
          }
        }
        if !isDuplicate {
          if isNew {
            StartEpoch(device, r);
          }
          UseFilter(device, r, isNew);
          processed := true;
        }
      }
    }

    /** processEpochs: only the last epoch stays. */
    method ProcessEpochs(device: EbNDevice<Epoch>)
      requires device.Valid()
      modifies device`epochs
      ensures device.Valid()
      ensures device.epochs == if |old(device.epochs)| == 0 then [] else [old(device.epochs)[|old(device.epochs)| - 1]]
    {
      ghost var before := device.epochs;
      var i := 0;
      while i < |device.epochs|
        invariant i <= |device.epochs| <= |before| && (i > 0 ==> |device.epochs| == 1)
        invariant device.epochs == before[|before| - |device.epochs|..] && (before != [] ==> device.epochs != [])
        decreases |device.epochs| - i
      {
        if |device.epochs| > 1 {
          device.epochs := device.epochs[1..];
        } else {
          i := i + 1;
        }
      }
    }

    ghost function Images(): (images: map<DeviceID, Image>)
      reads deviceMap, deviceMap.idToDevice.Values
      ensures images.Keys == deviceMap.idToDevice.Keys
    {
      map id | id in deviceMap.idToDevice :: ImageOf(deviceMap.idToDevice[id])
    }

    /** These are the images of the devices. */
    ghost predicate Shows(images: map<DeviceID, Image>)
      reads deviceMap, deviceMap.idToDevice.Values
    {
      forall k: nat :: Look(OfImages, k) ==> images == Images()
    }

    lemma Shown(images: map<DeviceID, Image>)
      requires Shows(images)
      ensures images == Images()
    {
      assert Look(OfImages, 0);
    }

    lemma ImageHasDevice(images: map<DeviceID, Image>, id: DeviceID)
      requires Shows(images)
      ensures images.Keys == deviceMap.idToDevice.Keys
      ensures id in images ==> images[id] == ImageOf(deviceMap.idToDevice[id])
      ensures id in images ==> images[id].device == deviceMap.idToDevice[id] && Of(id) == {images[id].device}
    {
      Shown(images);
    }

    /** Listening has done this to the devices. */
    twostate predicate Grown(new heard: set<DeviceID>)
      reads base`nextDeviceID, deviceMap, deviceMap.idToDevice.Values
    {
      && Grows(old(Images()), old(base.nextDeviceID), Images(), base.nextDeviceID, heard)
      && forall d :: d in deviceMap.idToDevice.Values ==> d in old(deviceMap.idToDevice.Values) || fresh(d)
    }

    /** What a response does to its device. */
    method HearDevice(device: EbNDevice<Epoch>, r: Response)
      requires device.Valid() && base.RecentValid()
      modifies base`recentDevices, base`idToRecentDevices, device`rssiToReport, device`measured
      modifies device`epochs, device`matching, device`updatedMatching, device`matchingPFalse
      modifies device`sharedSecrets, device`secretsToReport, device`confirmed
      ensures device.Valid() && StateOf(device) == StateAfter(base.confirmType, base.threshold, old(StateOf(device)), r)
      ensures base.RecentValid() && base.idToRecentDevices == old(base.idToRecentDevices)[device.id := device]
      ensures base.recentDevices == [device] + Without(old(base.recentDevices), device.id)
    {
      device.AddRSSIMeasurement(r.time, r.rssi);
      base.AddRecentDevice(device);
      var processed := ProcessAdvert(device, r);
      ProcessEpochs(device);
    }

    /** The response is heard, and then every known device is a recent one again. */
    method HearAndIndex(device: EbNDevice<Epoch>, r: Response)
      requires device.Valid() && deviceMap.Agree() && IdsUsed(base, deviceMap) && base.RecentValid()
      requires deviceMap.idToDevice == base.idToRecentDevices[device.id := device]
      modifies base`recentDevices, base`idToRecentDevices, device`rssiToReport, device`measured
      modifies device`epochs, device`matching, device`updatedMatching, device`matchingPFalse
      modifies device`sharedSecrets, device`secretsToReport, device`confirmed
      ensures device.Valid() && Indexed(base, deviceMap)
      ensures StateOf(device) == StateAfter(base.confirmType, base.threshold, old(StateOf(device)), r)
    {
      HearDevice(device, r);
    }

    /** The device of an address is the one that was known in this state, or a new one. */
    twostate predicate Placed(new device: EbNDevice<Epoch>, address: Address, was: State)
      reads base`nextDeviceID, base`listenSet, deviceMap`idToDevice, device`address, device`reported
      reads device`secretsReported, device`rssiReported, device`matchingReported, device`shakenHands
      reads device`lastReportTime
    {
      && device.address == address
      && deviceMap.idToDevice == old(deviceMap.idToDevice)[device.id := device]
      && base.nextDeviceID == old(base.nextDeviceID) + (if device.id in old(deviceMap.idToDevice) then 0 else 1)
      && (device.id in old(deviceMap.idToDevice) <==> old(IsKnown(deviceMap, address)))
      && (device.id in old(deviceMap.idToDevice) ==>
            && device == old(deviceMap.idToDevice)[device.id] && device.AllReports() == old(device.AllReports())
            && device.shakenHands == old(device.shakenHands) && device.lastReportTime == old(device.lastReportTime)
            && was == old(StateOf(device)))
      && (device.id !in old(deviceMap.idToDevice) ==>
            && fresh(device) && device.id == old(base.nextDeviceID) && !device.shakenHands
            && device.AllReports() == Reports(false, [], [], device.listened)
            && was == State([], base.listenSet, Secrets([], []), []))
    }

    /** The device of a response is in the state that the response leads to. */
    twostate predicate Heard(new device: EbNDevice<Epoch>, r: Response, was: State)
      reads base, deviceMap, device
    {
      && Placed(device, r.address, was) && device.Valid()
      && StateOf(device) == StateAfter(base.confirmType, base.threshold, was, r)
    }

    /** An EIR response that is accepted. */
    method AcceptResponse(r: Response) returns (device: EbNDevice<Epoch>, ghost was: State)
      requires Indexed(base, deviceMap) && DevicesValid(deviceMap) && |r.address| == deviceMap.addressSize
      modifies base`nextDeviceID, base`recentDevices, base`idToRecentDevices
      modifies deviceMap, deviceMap.idToDevice.Values
      ensures Indexed(base, deviceMap) && Heard(device, r, was)
      ensures forall d :: d in old(deviceMap.idToDevice.Values) && d != device ==> unchanged(d)
    {
      device, was := FindDevice(r.address);
      HearAndIndex(device, r);
    }

    method FindDevice(address: Address) returns (device: EbNDevice<Epoch>, ghost was: State)
      requires Indexed(base, deviceMap) && DevicesValid(deviceMap) && |address| == deviceMap.addressSize
      modifies base`nextDeviceID, deviceMap, deviceMap.idToDevice.Values`address
      ensures Placed(device, address, was) && StateOf(device) == was && device.Valid()
      ensures device.address == address && deviceMap.Agree() && IdsUsed(base, deviceMap) && base.RecentValid()
      ensures deviceMap.idToDevice == base.idToRecentDevices[device.id := device]
      ensures device in old(deviceMap.idToDevice.Values) || fresh(device)
      ensures forall d :: d in old(deviceMap.idToDevice.Values) && d != device ==> unchanged(d)
    {
      deviceMap.SameDevices();
      device := FindOrAdd(base, deviceMap, address);
      was := StateOf(device);
    }

    /** The device of a response is one more that is known, or one that was. */
    twostate lemma HeardGrows(new device: EbNDevice<Epoch>, new r: Response, new was: State)
      requires Placed(device, r.address, was) && old(IdsUsed(base, deviceMap)) && deviceMap.Agree()
      requires forall d :: d in old(deviceMap.idToDevice.Values) && d != device ==> unchanged(d)
      ensures Grown({device.id})
    {
      OldOrNew(device);
      OnlyThisOne(device);
      assert device.id in old(deviceMap.idToDevice) ==> device == old(deviceMap.idToDevice[device.id]);
      GrowsByOne(old(Images()), old(base.nextDeviceID), Images(), base.nextDeviceID, device.id);
    }

    twostate lemma OnlyThisOne(new device: EbNDevice<Epoch>)
      requires deviceMap.idToDevice == old(deviceMap.idToDevice)[device.id := device] && deviceMap.Agree()
      requires forall d :: d in old(deviceMap.idToDevice.Values) && d != device ==> unchanged(d)
      ensures Images().Keys == old(Images()).Keys + {device.id}
      ensures forall id :: id in old(Images()) && id != device.id ==> Images()[id] == old(Images())[id]
    {
      forall id | id in old(deviceMap.idToDevice) && id != device.id ensures Images()[id] == old(Images())[id] {
        IdsDiffer(deviceMap);
        assert old(deviceMap.idToDevice[id]) in old(deviceMap.idToDevice.Values);
      }
    }

    twostate lemma OldOrNew(new device: EbNDevice<Epoch>)
      requires deviceMap.idToDevice == old(deviceMap.idToDevice)[device.id := device]
      requires device.id in old(deviceMap.idToDevice) ==> device == old(deviceMap.idToDevice)[device.id]
      requires device.id !in old(deviceMap.idToDevice) ==> fresh(device)
      ensures forall d :: d in deviceMap.idToDevice.Values ==> d in old(deviceMap.idToDevice.Values) || fresh(d)
    {
      forall d | d in deviceMap.idToDevice.Values ensures d in old(deviceMap.idToDevice.Values) || fresh(d) {
        HasKey(deviceMap.idToDevice, d);
        var i :| i in deviceMap.idToDevice && deviceMap.idToDevice[i] == d;
        if i in old(deviceMap.idToDevice) { assert old(deviceMap.idToDevice[i]) in old(deviceMap.idToDevice.Values); }
      }
    }

    twostate lemma AllStayValid(new device: EbNDevice<Epoch>)
      requires deviceMap.idToDevice == old(deviceMap.idToDevice)[device.id := device]
      requires old(DevicesValid(deviceMap)) && device.Valid()
      requires forall d :: d in old(deviceMap.idToDevice.Values) && d != device ==> unchanged(d)
      ensures DevicesValid(deviceMap)
    {
      forall id | id in deviceMap.idToDevice ensures deviceMap.idToDevice[id].Valid() {
        if id != device.id { assert old(deviceMap.idToDevice[id]) in old(deviceMap.idToDevice.Values); }
      }
    }

    method HearResponse(r: Response) returns (device: EbNDevice<Epoch>, ghost was: State)
      requires Valid() && |r.address| == deviceMap.addressSize
      modifies base`nextDeviceID, base`recentDevices, base`idToRecentDevices
      modifies deviceMap, deviceMap.idToDevice.Values
      ensures Valid() && Heard(device, r, was) && Grown({device.id})
    {
      assert Look(OfRadio, 0);
      device, was := AcceptResponse(r);
      AllStayValid(device);
      HeardGrows(device, r, was);
    }

    /**
     * processEIRResponse: with correct checksums, length and type, the device of the address is heard and listed;
     * nothing changes otherwise.
     */
    method ProcessResponse(r: Response, discovered: seq<DiscoverEvent>)
      returns (found: seq<DiscoverEvent>, device: EbNDevice?<Epoch>, ghost was: State)
      requires Valid() && |r.address| == deviceMap.addressSize
      modifies base`nextDeviceID, base`recentDevices, base`idToRecentDevices
      modifies deviceMap, deviceMap.idToDevice.Values
      ensures Valid() && (device != null <==> Accepted(r)) && Grown(if device == null then {} else {device.id})
      ensures device != null ==>
        Heard(device, r, was) && found == discovered + [DiscoverEvent(r.time, device.id, r.rssi)]
      ensures device == null ==>
        found == discovered && unchanged(base) && unchanged(deviceMap)
    {
      found, device, was := discovered, null, State([], [], Secrets([], []), []);
      var addressOK := VerifyChecksum(r.address);
      var lengthOK := r.length == 239;
      var typeOK := r.kind == 0xFF;
      if addressOK && lengthOK && typeOK {
        var heard;
        heard, was := HearResponse(r);
        device := heard;
        found := found + [DiscoverEvent(r.time, heard.id, r.rssi)];
      }
    }

    /** One more response. */
    method ProcessNext(responses: seq<Response>, n: nat, before: seq<DiscoverEvent>)
      returns (now: seq<DiscoverEvent>, ghost heard: set<DeviceID>)
      requires Valid() && n < |responses| && |responses[n].address| == deviceMap.addressSize
      requires Lists(before, responses[..n])
      modifies base`nextDeviceID, base`recentDevices, base`idToRecentDevices
      modifies deviceMap, deviceMap.idToDevice.Values
      ensures Valid() && Lists(now, responses[..n + 1])
      ensures Grown(heard) && Ids(now) == Ids(before) + heard
    {
      assert responses[..n + 1][..n] == responses[..n];
      var r := responses[n];
      var device;
      ghost var was;
      now, device, was := ProcessResponse(r, before);
      heard := if device == null then {} else {device.id};
      if device != null { OneMoreId(before, DiscoverEvent(r.time, device.id, r.rssi)); }
    }

    /** The responses of an inquiry, one after the other. */
    method ProcessResponses(responses: seq<Response>) returns (discovered: seq<DiscoverEvent>)
      requires Valid() && forall r :: r in responses ==> |r.address| == deviceMap.addressSize
      modifies base`nextDeviceID, base`recentDevices, base`idToRecentDevices
      modifies deviceMap, deviceMap.idToDevice.Values
      ensures Valid() && Grown(Ids(discovered)) && Lists(discovered, responses)
    {
      discovered := [];
      ghost var images, next := Images(), base.nextDeviceID;
      NothingGrows(images, next);
      assert Ids([]) == {};
      var i := 0;
      while i < |responses|
        invariant i <= |responses| && Valid() && Lists(discovered, responses[..i])
        invariant Grows(images, next, Images(), base.nextDeviceID, Ids(discovered))
        invariant forall d :: d in deviceMap.idToDevice.Values ==> d in old(deviceMap.idToDevice.Values) || fresh(d)
      {
        ghost var between, nextBetween, listed, heard := Images(), base.nextDeviceID, Ids(discovered), {};
        discovered, heard := ProcessNext(responses, i, discovered);
        GrowsOn(images, next, between, nextBetween, Images(), base.nextDeviceID, listed, heard);
        i := i + 1;
      }
      assert responses[..i] == responses;
    }

    /**
     * discover: the responses that are accepted are listed; what is listed is known, and nothing else has become known
     * or has changed; and the next inquiry is due an interval later, give or take a second.
     */
    method Discover(responses: seq<Response>, random: nat) returns (discovered: seq<DiscoverEvent>)
      requires Valid() && forall r :: r in responses ==> |r.address| == deviceMap.addressSize
      modifies base, deviceMap, deviceMap.idToDevice.Values
      ensures Valid() && Grown(Ids(discovered)) && Lists(discovered, responses)
      ensures base.nextDiscover == old(base.nextDiscover) + DISC_INTERVAL - 1000 + random % 2001
      ensures base.nextChangeEpoch == old(base.nextChangeEpoch)
    {
      discovered := ProcessResponses(responses);
      SetNextDiscover(random);
    }

    method SetNextDiscover(random: nat)
      requires Valid()
      modifies base`nextDiscover
      ensures Valid() && base.nextDiscover == old(base.nextDiscover) + DISC_INTERVAL - 1000 + random % 2001
    {
      assert Look(OfRadio, 0);
      base.nextDiscover := base.nextDiscover + DISC_INTERVAL - 1000 + random % 2001;
    }

    /** The devices that are known and have been shaken hands with and confirmed. */
    ghost function Encounters(): set<DeviceID>
      reads deviceMap, deviceMap.idToDevice.Values
    {
      set id | id in deviceMap.idToDevice && deviceMap.idToDevice[id].shakenHands && deviceMap.idToDevice[id].confirmed
    }

    /** One round of the first loop of handshake. */
    method ShakeHand(id: DeviceID)
      requires Valid() && id in deviceMap.idToDevice
      modifies {deviceMap.idToDevice[id]}`shakenHands
      ensures Valid()
      ensures forall i :: i in deviceMap.idToDevice ==>
        deviceMap.idToDevice[i].shakenHands == (old(deviceMap.idToDevice[i].shakenHands) || i == id)
    {
      assert Look(OfRadio, 0);
      IdsDiffer(deviceMap);
      var device := deviceMap.GetById(id);
      device.SetShakenHands(true);
    }

    /** The first loop of handshake. */
    method ShakeHands(deviceIDs: set<DeviceID>)
      requires Valid() && deviceIDs <= deviceMap.idToDevice.Keys
      modifies deviceMap.idToDevice.Values`shakenHands
      ensures Valid()
      ensures forall id :: id in deviceMap.idToDevice ==>
        deviceMap.idToDevice[id].shakenHands == (old(deviceMap.idToDevice[id].shakenHands) || id in deviceIDs)
    {
      var left := deviceIDs;
      while left != {}
        invariant left <= deviceIDs && Valid()
        invariant forall id :: id in deviceMap.idToDevice ==>
          deviceMap.idToDevice[id].shakenHands == (old(deviceMap.idToDevice[id].shakenHands) || id in deviceIDs - left)
        decreases |left|
      {
        HasElement(left);
        var id :| id in left;
        ShakeHand(id);
        left := left - {id};
      }
    }

    /** The second loop of handshake. */
    method CollectEncounters() returns (encountered: set<DeviceID>)
      ensures encountered == Encounters()
    {
      encountered := {};
      var left := deviceMap.idToDevice.Keys;
      while left != {}
        invariant left <= deviceMap.idToDevice.Keys
        invariant encountered == Encounters() - left
        decreases |left|
      {
        HasElement(left);
        var id :| id in left;
        var device := deviceMap.idToDevice[id];
        if device.shakenHands && device.confirmed { encountered := encountered + {id}; }
        left := left - {id};
      }
    }

    /** handshake: every device asked for has shaken hands then; all the encounters are reported. */
    method Handshake(deviceIDs: set<DeviceID>) returns (encountered: set<DeviceID>)
      requires Valid() && deviceIDs <= deviceMap.idToDevice.Keys
      modifies deviceMap.idToDevice.Values`shakenHands
      ensures Valid() && encountered == Encounters()
      ensures forall id :: id in deviceMap.idToDevice ==>
        deviceMap.idToDevice[id].shakenHands == (old(deviceMap.idToDevice[id].shakenHands) || id in deviceIDs)
    {
      ShakeHands(deviceIDs);
      encountered := CollectEncounters();
    }

    /** A handshake changes nothing else. */
    method HandshakeKnown(deviceIDs: set<DeviceID>) returns (encountered: set<DeviceID>)
      requires Valid() && deviceIDs <= deviceMap.idToDevice.Keys
      modifies deviceMap.idToDevice.Values`shakenHands
      ensures Valid() && Shaken(old(Images()), Images(), deviceIDs)
      ensures encountered == MetIn(Images())
    {
      encountered := Handshake(deviceIDs);
      assert forall id :: id in Encounters() <==> id in MetIn(Images());
    }

    /** The last event of a device. */
    method TellEnd(id: DeviceID, time: nat) returns (expiredEvent: EncounterEvent)
      requires Valid() && id in deviceMap.idToDevice
      modifies {deviceMap.idToDevice[id]}`rssiToReport, {deviceMap.idToDevice[id]}`rssiReported
      ensures Valid() && LastTold(old(deviceMap.idToDevice)[id], time, expiredEvent)
    {
      assert Look(OfRadio, 0);
      IdsDiffer(deviceMap);
      var device := deviceMap.GetById(id);
      expiredEvent := device.GetExpiredInfo(Blank(time));
    }

    /** The event is the last one of the device: it has the measurements that were left, and all have been reported. */
    twostate predicate LastTold(device: EbNDevice<Epoch>, time: nat, e: EncounterEvent)
      reads device
    {
      && e == Blank(time).(kind := Ended, id := device.id, address := device.address,
                           rssiEvents := old(device.rssiToReport))
      && device.rssiToReport == [] && device.AllReports() == WithEvent(old(device.AllReports()), e)
      && device.AllReports().measurements == device.measured
    }

    method ForgetKnown(id: DeviceID)
      requires Valid() && id in deviceMap.idToDevice
      modifies base`recentDevices, base`idToRecentDevices, deviceMap
      ensures Valid() && deviceMap.idToDevice == old(deviceMap.idToDevice) - {id}
    {
      assert Look(OfRadio, 0);
      Forget(base, deviceMap, id);
    }

    lemma IdIsOwn(id: DeviceID)
      requires Valid() && id in deviceMap.idToDevice
      ensures deviceMap.idToDevice[id].id == id
    {
      assert Look(OfRadio, 0);
      IdsDiffer(deviceMap);
    }

    /** doneWithDevice: a device that is known is not known any more, and has ended. */
    method DoneWithDevice(id: DeviceID, time: nat) returns (expiredEvent: EncounterEvent)
      requires Valid() && id in deviceMap.idToDevice
      modifies base`recentDevices, base`idToRecentDevices, deviceMap
      modifies {deviceMap.idToDevice[id]}`rssiToReport, {deviceMap.idToDevice[id]}`rssiReported
      ensures Valid() && deviceMap.idToDevice == old(deviceMap.idToDevice) - {id}
      ensures Images() == old(Images()) - {id} && EndsWith(old(Images())[id], expiredEvent)
      ensures expiredEvent.id == id && LastTold(old(deviceMap.idToDevice)[id], time, expiredEvent)
    {
      IdIsOwn(id);
      SameDevice(id);
      expiredEvent := TellEnd(id, time);
      ForgetKnown(id);
      OthersForgotten(id);
    }

    twostate lemma OthersForgotten(new id: DeviceID)
      requires deviceMap.idToDevice == old(deviceMap.idToDevice) - {id}
      requires forall i :: i in deviceMap.idToDevice ==> unchanged(deviceMap.idToDevice[i])
      ensures Images() == old(Images()) - {id}
    {
      var before, now := old(Images()), Images();
      assert now.Keys == (before - {id}).Keys;
      forall i | i in now ensures now[i] == (before - {id})[i] {
        assert deviceMap.idToDevice[i] == old(deviceMap.idToDevice)[i];
      }
    }

    /** What the key exchange of a new epoch gives for a device, if the device has an epoch and the exchange works. */
    function EpochSecret(device: EbNDevice<Epoch>, secrets: map<DeviceID, LinkValue>): Secret
      reads device
    {
      if device.epochs != [] && device.id in secrets then Computed(secrets[device.id]) else NoSecret
    }

    /** The device has the secret of the new epoch, besides those that it had. */
    twostate predicate GotEpochSecret(device: EbNDevice<Epoch>, secrets: map<DeviceID, LinkValue>)
      reads device
    {
      && device.sharedSecrets == WithUnconfirmed(old(device.sharedSecrets), EpochSecret(device, secrets))
      && device.secretsToReport == old(device.secretsToReport) && device.confirmed == old(device.confirmed)
    }

    method AddEpochSecret(id: DeviceID, secrets: map<DeviceID, LinkValue>)
      requires Valid() && id in deviceMap.idToDevice
      modifies {deviceMap.idToDevice[id]}`sharedSecrets, {deviceMap.idToDevice[id]}`secretsToReport
      modifies {deviceMap.idToDevice[id]}`confirmed
      ensures Valid() && GotEpochSecret(deviceMap.idToDevice[id], secrets)
      ensures forall i :: i in deviceMap.idToDevice && i != id ==> deviceMap.idToDevice[i] != deviceMap.idToDevice[id]
    {
      assert Look(OfRadio, 0);
      IdsDiffer(deviceMap);
      var device := deviceMap.idToDevice[id];
      device.AddUnconfirmed(EpochSecret(device, secrets));
    }

    /** The new secrets of passive confirmation, one for every device that has an epoch and whose exchange works. */
    method AddEpochSecrets(secrets: map<DeviceID, LinkValue>)
      requires Valid()
      modifies deviceMap.idToDevice.Values`sharedSecrets, deviceMap.idToDevice.Values`secretsToReport
      modifies deviceMap.idToDevice.Values`confirmed
      ensures Valid()
      ensures forall id :: id in deviceMap.idToDevice ==> GotEpochSecret(deviceMap.idToDevice[id], secrets)
    {
      var left := deviceMap.idToDevice.Keys;
      while left != {}
        invariant left <= deviceMap.idToDevice.Keys && Valid()
        invariant forall id :: id in deviceMap.idToDevice && id !in left ==>
          GotEpochSecret(deviceMap.idToDevice[id], secrets)
        invariant forall id :: id in left ==>
          var d := deviceMap.idToDevice[id];
          && d.Account() == old(d.Account()) && d.confirmed == old(d.confirmed)
        decreases |left|
      {
        HasElement(left);
        var id :| id in left;
        AddEpochSecret(id, secrets);
        left := left - {id};
      }
    }

    /** changeEpoch, as far as the devices are concerned: with passive confirmation they get the new secrets. */
    method ChangeEpoch(secrets: map<DeviceID, LinkValue>)
      requires Valid()
      modifies base`nextChangeEpoch, deviceMap.idToDevice.Values`sharedSecrets
      modifies deviceMap.idToDevice.Values`secretsToReport, deviceMap.idToDevice.Values`confirmed
      ensures Valid() && base.nextChangeEpoch == old(base.nextChangeEpoch) + EPOCH_INTERVAL
      ensures EpochBegan(secrets)
    {
      BeginEpoch(secrets);
      Postpone();
    }

    /** With passive confirmation every device has got the secret of the new epoch; nothing else has changed. */
    twostate predicate EpochBegan(secrets: map<DeviceID, LinkValue>)
      reads deviceMap, deviceMap.idToDevice.Values
    {
      && deviceMap.idToDevice == old(deviceMap.idToDevice) && Silent(old(Images()), Images())
      && forall id :: id in deviceMap.idToDevice ==>
        var d := deviceMap.idToDevice[id];
        if HasPassive(base.confirmType) then GotEpochSecret(d, secrets)
        else d.Account() == old(d.Account()) && d.confirmed == old(d.confirmed)
    }

    /** The devices when an epoch of the radio begins. */
    method BeginEpoch(secrets: map<DeviceID, LinkValue>)
      requires Valid()
      modifies deviceMap.idToDevice.Values`sharedSecrets
      modifies deviceMap.idToDevice.Values`secretsToReport, deviceMap.idToDevice.Values`confirmed
      ensures Valid() && EpochBegan(secrets)
    {
      if HasPassive(base.confirmType) { AddEpochSecrets(secrets); }
      EpochIsSilent();
    }

    twostate lemma EpochIsSilent()
      requires deviceMap.idToDevice == old(deviceMap.idToDevice)
      requires forall id :: id in deviceMap.idToDevice ==>
        var d := deviceMap.idToDevice[id];
        && d.secretsToReport == old(d.secretsToReport) && d.confirmed == old(d.confirmed)
        && d.AllReports() == old(d.AllReports()) && d.epochs == old(d.epochs) && d.matching == old(d.matching)
        && d.rssiToReport == old(d.rssiToReport) && d.measured == old(d.measured)
        && d.shakenHands == old(d.shakenHands) && d.updatedMatching == old(d.updatedMatching)
        && d.lastReportTime == old(d.lastReportTime)
      ensures Silent(old(Images()), Images())
    {
      forall id | id in deviceMap.idToDevice
        ensures var was, im := old(Images())[id], Images()[id];
          im == was.(state := was.state.(secrets := im.state.secrets))
      {
        var d := deviceMap.idToDevice[id];
        assert StateOf(d) == old(StateOf(d)).(secrets := d.Account());
      }
    }

    method Postpone()
      requires Valid()
      modifies base`nextChangeEpoch
      ensures Valid() && base.nextChangeEpoch == old(base.nextChangeEpoch) + EPOCH_INTERVAL
    {
      assert Look(OfRadio, 0);
      base.nextChangeEpoch := base.nextChangeEpoch + EPOCH_INTERVAL;
    }

    /** The device of an id, if it is known. */
    ghost function Of(id: DeviceID): set<EbNDevice<Epoch>>
      reads deviceMap
    {
      if id in deviceMap.idToDevice then {deviceMap.idToDevice[id]} else {}
    }

    /**
     * getDeviceEvent of this radio: a device with news tells all of it, and has none then; the first event of a device
     * is that it has started, the others update it.
     */
    method DeviceEvent(time: nat, id: DeviceID, interval: nat, now: nat, later: nat)
      returns (success: bool, dest: EncounterEvent)
      requires Valid()
      modifies Of(id)`updatedMatching, Of(id)`secretsToReport, Of(id)`rssiToReport, Of(id)`reported
      modifies Of(id)`lastReportTime, Of(id)`secretsReported, Of(id)`rssiReported, Of(id)`matchingReported
      ensures Valid() && (success ==> id in deviceMap.idToDevice && dest.time == time)
      ensures Asked(old(Images()), Images(), id, now, later, interval, success, dest)
    {
      SameDevice(id);
      success, dest := AskDevice(time, id, interval, now, later);
      OthersSame(id);
    }

    lemma SameDevice(id: DeviceID)
      requires Valid()
      ensures forall i :: i in deviceMap.idToDevice && id in deviceMap.idToDevice && i != id ==>
        deviceMap.idToDevice[i] != deviceMap.idToDevice[id]
    {
      assert Look(OfRadio, 0);
      IdsDiffer(deviceMap);
    }

    twostate lemma OthersSame(new id: DeviceID)
      requires deviceMap.idToDevice == old(deviceMap.idToDevice)
      requires forall i :: i in deviceMap.idToDevice && i != id ==> unchanged(deviceMap.idToDevice[i])
      ensures Images().Keys == old(Images()).Keys
      ensures forall i :: i in deviceMap.idToDevice && i != id ==> Images()[i] == old(Images())[i]
    {}

    method AskDevice(time: nat, id: DeviceID, interval: nat, now: nat, later: nat)
      returns (success: bool, dest: EncounterEvent)
      requires Valid()
      modifies Of(id)`updatedMatching, Of(id)`secretsToReport, Of(id)`rssiToReport, Of(id)`reported
      modifies Of(id)`lastReportTime, Of(id)`secretsReported, Of(id)`rssiReported, Of(id)`matchingReported
      ensures Valid() && (success ==> id in deviceMap.idToDevice && dest.id == id && dest.time == time)
      ensures id in deviceMap.idToDevice ==>
        var d := deviceMap.idToDevice[id];
        AskedOne(old(ImageOf(d)), ImageOf(d), now, later, interval, success, dest)
    {
      IsRecent(id);
      SameDevice(id);
      success, dest := base.GetDeviceEvent(Blank(time), id, interval, now, later);
      if id in deviceMap.idToDevice {
        AskedIs(deviceMap.idToDevice[id], time, now, later, interval, success, dest);
      }
      StaysValid(id);
    }

    lemma IsRecent(id: DeviceID)
      requires Valid()
      ensures base.RecentValid() && base.Recent(id) == Of(id)
      ensures base.idToRecentDevices.Keys == deviceMap.idToDevice.Keys
      ensures id in deviceMap.idToDevice ==>
        var d := deviceMap.idToDevice[id];
        id in base.idToRecentDevices && base.idToRecentDevices[id] == d && d.Valid() && d.id == id
    {
      assert Look(OfRadio, 0);
      IdsDiffer(deviceMap);
    }

    /** Only one of the devices has changed. */
    twostate lemma StaysValid(new id: DeviceID)
      requires old(Valid()) && unchanged(base) && unchanged(deviceMap)
      requires forall i :: i in deviceMap.idToDevice && i != id ==> unchanged(deviceMap.idToDevice[i])
      requires id in deviceMap.idToDevice ==>
        var d := deviceMap.idToDevice[id];
        d.Valid() && d.address == old(d.address)
      ensures Valid()
    {
      assert Look(OfRadio, 0);
    }

    twostate lemma AskedIs(device: EbNDevice<Epoch>, new time: nat, new now: nat, new later: nat, new interval: nat,
                           new success: bool, new dest: EncounterEvent)
      requires success == old(device.HasNews(now, interval))
      requires if success then device.Told(Blank(time), dest) && device.lastReportTime == later else unchanged(device)
      requires unchanged(device`epochs, device`matching, device`sharedSecrets, device`measured)
      requires unchanged(device`confirmed, device`shakenHands)
      ensures AskedOne(old(ImageOf(device)), ImageOf(device), now, later, interval, success, dest)
    {
      if success { NewsTold(device, time, dest); }
    }

    twostate lemma NewsTold(device: EbNDevice<Epoch>, new time: nat, new dest: EncounterEvent)
      requires device.Told(Blank(time), dest)
      requires unchanged(device`epochs, device`matching, device`sharedSecrets, device`measured)
      requires unchanged(device`confirmed, device`shakenHands)
      ensures TellsAll(old(ImageOf(device)), dest)
      ensures ImageOf(device) == AfterTelling(old(ImageOf(device)), dest, device.lastReportTime)
    {
      device.ToldIsReported(time, dest);
    }

    /** A confirmed device whose secrets have all been told has been reported. */
    lemma ToldIsStarted(id: DeviceID)
      requires Valid() && id in deviceMap.idToDevice
      ensures var im := Images()[id];
        im.confirmed && im.state.secrets.toReport == [] ==> im.reports.started
    {
      assert Look(OfRadio, 0);
      var d := deviceMap.idToDevice[id];
      if d.confirmed && d.secretsToReport == [] { d.ConfirmedIsTold(); }
    }

    lemma IdIsUsed(id: DeviceID)
      requires Valid() && id in deviceMap.idToDevice
      ensures 0 <= id < base.nextDeviceID
    {
      assert Look(OfRadio, 0);
    }
  }
}
