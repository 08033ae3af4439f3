/**
 * Whole lives of a Bluetooth 4 radio: scan responses, epochs of its own and new listen sets, in any order. What happens
 * to each device is a run, so what holds of all runs holds of the radio.
 */
module RadioBT4Runs {
  import opened Address
  import opened BT4Advert
  import opened BT4Decoding
  import opened BT4Matching
  import opened BT4Receiver
  import opened BT4Secrets
  import opened Device
  import opened DeviceMap
  import opened Hiding
  import opened HystPolicy
  import opened KnownDevices
  import opened Radio
  import opened RadioBT4

  datatype Event = Response(r: ScanResponse) | NewEpoch(exchange: int) | NewListenSet(listenSet: seq<LinkValue>)

  /** The life of a device so far: its run, and the matching set and the secrets before and after every step. */
  datatype Life = Life(run: Run, matching: seq<seq<LinkValue>>, secrets: seq<Secrets>)

  const NOTHING: Secrets := Secrets([], [])

  const NEWBORN: Run := Run([], [[]], [])

  /** The run has led to this matching set, and the link value was listened for at its beginning. */
  ghost predicate HasMatched(c: Code, life: Life, matching: seq<LinkValue>, v: LinkValue) {
    MatchingRun(c, life.run, life.matching) && life.matching[|life.run.steps|] == matching && v in life.matching[0]
  }

  /** The run has led to these secrets, from none. */
  ghost predicate HasSecrets(s: ConfirmScheme, life: Life, secrets: Secrets) {
    SecretsRun(s, life.run, life.secrets) && life.secrets[|life.run.steps|] == secrets && life.secrets[0] == NOTHING
  }

  /** The run has led to these epochs, this matching set, and these secrets. */
  ghost predicate LedTo(s: ConfirmScheme, life: Life, epochs: seq<Epoch>, matching: seq<LinkValue>, secrets: Secrets,
                        v: LinkValue) {
    forall k: nat :: Look(OfLife, k) ==>
      && IsRun(s.c, life.run) && life.run.rest[|life.run.steps|] == epochs
      && HasMatched(s.c, life, matching, v) && HasSecrets(s, life, secrets)
  }

  function LivesOn(life: Life, step: Step, now: seq<Epoch>, next: seq<Epoch>, matching: seq<LinkValue>,
                   secrets: Secrets): Life {
    Life(WithStep(life.run, step, now, next), life.matching + [matching], life.secrets + [secrets])
  }

  lemma MatchingGoesOn(c: Code, life: Life, before: seq<LinkValue>, step: Step, now: seq<Epoch>, next: seq<Epoch>,
                       matching: seq<LinkValue>, secrets: Secrets, v: LinkValue)
    requires HasMatched(c, life, before, v) && Sifts(c, step, now, before, matching)
    ensures HasMatched(c, LivesOn(life, step, now, next, matching, secrets), matching, v)
  {
    var l := LivesOn(life, step, now, next, matching, secrets);
    forall i | 0 <= i < |l.run.steps| ensures Sifts(c, l.run.steps[i], l.run.now[i], l.matching[i], l.matching[i + 1]) {
      if i < |life.run.steps| {
        assert Sifts(c, life.run.steps[i], life.run.now[i], life.matching[i], life.matching[i + 1]);
      }
    }
  }

  lemma SecretsGoOn(s: ConfirmScheme, life: Life, before: Secrets, step: Step, now: seq<Epoch>, next: seq<Epoch>,
                    matching: seq<LinkValue>, secrets: Secrets)
    requires HasSecrets(s, life, before)
    requires Accounts(s, step, life.run.rest[|life.run.steps|], now, before, secrets)
    ensures HasSecrets(s, LivesOn(life, step, now, next, matching, secrets), secrets)
  {
    var l := LivesOn(life, step, now, next, matching, secrets);
    forall i | 0 <= i < |l.run.steps|
      ensures Accounts(s, l.run.steps[i], l.run.rest[i], l.run.now[i], l.secrets[i], l.secrets[i + 1])
    {
      if i < |life.run.steps| {
        assert Accounts(s, life.run.steps[i], life.run.rest[i], life.run.now[i], life.secrets[i], life.secrets[i + 1]);
      }
    }
  }

  lemma LifeGoesOn(s: ConfirmScheme, life: Life, epochs: seq<Epoch>, matching: seq<LinkValue>, secrets: Secrets,
                   v: LinkValue, step: Step, now: seq<Epoch>, next: seq<Epoch>, left: seq<LinkValue>, more: Secrets)
    requires LedTo(s, life, epochs, matching, secrets, v) && Moves(s.c, step, epochs, now, next)
    requires Sifts(s.c, step, now, matching, left) && Accounts(s, step, epochs, now, secrets, more)
    ensures LedTo(s, LivesOn(life, step, now, next, left, more), next, left, more, v)
  {
    assert Look(OfLife, 0);
    StepExtendsRun(s.c, life.run, step, now, next);
    MatchingGoesOn(s.c, life, matching, step, now, next, left, more, v);
    SecretsGoOn(s, life, secrets, step, now, next, left, more);
  }

  lemma LifeBegins(s: ConfirmScheme, listenSet: seq<LinkValue>, v: LinkValue)
    requires v in listenSet
    ensures LedTo(s, Life(NEWBORN, [listenSet], [NOTHING]), [], listenSet, NOTHING, v)
  {}

  /** Every device that is known has the life that has led to it. */
  ghost predicate Lives(radio: EbNRadioBT4, lives: map<DeviceID, Life>, v: LinkValue)
    reads radio, radio.deviceMap, radio.deviceMap.idToDevice.Values
  {
    && lives.Keys == radio.deviceMap.idToDevice.Keys
    && forall id :: id in lives ==>
      var d := radio.deviceMap.idToDevice[id];
      LedTo(radio.Confirming(), lives[id], d.epochs, d.matching, d.Account(), v)
  }

  /** The life of a device before a scan response; a device that is not known has none. */
  function LifeSoFar(lives: map<DeviceID, Life>, id: DeviceID, listenSet: seq<LinkValue>): Life {
    if id in lives then lives[id] else Life(NEWBORN, [listenSet], [NOTHING])
  }

  /** The device of a scan response lives on. */
  twostate lemma DeviceLives(radio: EbNRadioBT4, new device: EbNDevice<Epoch>, new r: ScanResponse,
                             new now: seq<Epoch>, new lives: map<DeviceID, Life>, new v: LinkValue)
    requires 1 <= radio.c.rsW <= 14 && |r.data| == ADVERT_BITS && |r.address| > 0
    requires old(Lives(radio, lives, v)) && radio.Stepped(device, r, now) && v in radio.base.listenSet
    ensures var life := LifeSoFar(lives, device.id, radio.base.listenSet);
      var step := radio.StepOf(r, old(radio.dhExchange));
      LedTo(radio.Confirming(), LivesOn(life, step, now, device.epochs, device.matching, device.Account()),
            device.epochs, device.matching, device.Account(), v)
  {
    var step, id := radio.StepOf(r, old(radio.dhExchange)), device.id;
    if id in lives {
      LifeGoesOn(radio.Confirming(), lives[id], old(device.epochs), old(device.matching), old(device.Account()), v,
                 step, now, device.epochs, device.matching, device.Account());
    } else {
      LifeBegins(radio.Confirming(), radio.base.listenSet, v);
      LifeGoesOn(radio.Confirming(), Life(NEWBORN, [radio.base.listenSet], [NOTHING]), [], radio.base.listenSet,
                 NOTHING, v, step, now, device.epochs, device.matching, device.Account());
    }
  }

  predicate HaveIds(idToDevice: map<DeviceID, EbNDevice<Epoch>>) {
    forall id :: id in idToDevice ==> idToDevice[id].id == id
  }

  lemma KnownHaveIds(radio: EbNRadioBT4)
    requires radio.Valid()
    ensures HaveIds(radio.deviceMap.idToDevice)
  {
    assert Look(OfRadio, 0);
    IdsDiffer(radio.deviceMap);
  }

  /** All other devices have the lives that they had. */
  twostate lemma OthersLive(radio: EbNRadioBT4, new device: EbNDevice<Epoch>, new lives: map<DeviceID, Life>,
                            new life: Life, new v: LinkValue)
    requires old(Lives(radio, lives, v))
    requires LedTo(radio.Confirming(), life, device.epochs, device.matching, device.Account(), v)
    requires radio.deviceMap.idToDevice == old(radio.deviceMap.idToDevice)[device.id := device]
    requires forall d :: d in old(radio.deviceMap.idToDevice.Values) && d != device ==> unchanged(d)
    requires device.id in old(radio.deviceMap.idToDevice) ==> device == old(radio.deviceMap.idToDevice)[device.id]
    requires old(HaveIds(radio.deviceMap.idToDevice))
    ensures Lives(radio, lives[device.id := life], v)
  {
    forall id | id in lives && id != device.id
      ensures id in radio.deviceMap.idToDevice
      ensures var d := radio.deviceMap.idToDevice[id];
        LedTo(radio.Confirming(), lives[id], d.epochs, d.matching, d.Account(), v)
    {
      assert old(radio.deviceMap.idToDevice)[id] in old(radio.deviceMap.idToDevice.Values);
    }
  }

  /** A device that is known now was known before or is new. */
  twostate lemma KnownOrNew(radio: EbNRadioBT4, new device: EbNDevice<Epoch>)
    requires radio.deviceMap.idToDevice == old(radio.deviceMap.idToDevice)[device.id := device]
    requires device.id in old(radio.deviceMap.idToDevice) ==> device == old(radio.deviceMap.idToDevice)[device.id]
    requires device.id !in old(radio.deviceMap.idToDevice) ==> fresh(device)
    ensures forall d :: d in radio.deviceMap.idToDevice.Values ==>
      d in old(radio.deviceMap.idToDevice.Values) || fresh(d)
  {
    forall d | d in radio.deviceMap.idToDevice.Values ensures d in old(radio.deviceMap.idToDevice.Values) || fresh(d) {
      HasKey(radio.deviceMap.idToDevice, d);
      var id :| id in radio.deviceMap.idToDevice && radio.deviceMap.idToDevice[id] == d;
      if id in old(radio.deviceMap.idToDevice) {
        assert old(radio.deviceMap.idToDevice)[id] in old(radio.deviceMap.idToDevice.Values);
      }
    }
  }

  method HearResponse(radio: EbNRadioBT4, r: ScanResponse, ghost lives: map<DeviceID, Life>, ghost v: LinkValue)
    returns (ghost after: map<DeviceID, Life>)
    requires radio.Valid() && Lives(radio, lives, v) && v in radio.base.listenSet
    requires |r.address| == radio.deviceMap.addressSize > 0 && |r.data| == ADVERT_BITS
    modifies radio.base`nextDeviceID, radio.base`recentDevices, radio.base`idToRecentDevices
    modifies radio.deviceMap, radio.deviceMap.idToDevice.Values
    ensures radio.Valid() && Lives(radio, after, v)
    ensures forall d :: d in radio.deviceMap.idToDevice.Values ==>
      d in old(radio.deviceMap.idToDevice.Values) || fresh(d)
  {
    KnownHaveIds(radio);
    var found, device;
    ghost var now;
    found, device, now := radio.ProcessScanResponse(r, []);
    after := lives;
    if device != null {
      DeviceLives(radio, device, r, now, lives, v);
      ghost var life := LivesOn(LifeSoFar(lives, device.id, radio.base.listenSet),
                                radio.StepOf(r, radio.dhExchange), now, device.epochs, device.matching,
                                device.Account());
      OthersLive(radio, device, lives, life, v);
      KnownOrNew(radio, device);
      after := lives[device.id := life];
    }
  }

  /** A new epoch of the radio, as a step of the life of a device. */
  function Renewed(life: Life, passive: bool, exchange: int, before: seq<Epoch>, next: seq<Epoch>,
                   matching: seq<LinkValue>, secrets: Secrets): Life
  {
    LivesOn(life, OwnEpoch(passive, exchange), before, next, matching, secrets)
  }

  lemma LifeIsRenewed(s: ConfirmScheme, life: Life, passive: bool, exchange: int, before: seq<Epoch>,
                      next: seq<Epoch>, matching: seq<LinkValue>, secrets: Secrets, more: Secrets, v: LinkValue)
    requires LedTo(s, life, before, matching, secrets, v) && EpochsValid(s.c, before)
    requires Moves(s.c, OwnEpoch(passive, exchange), before, before, next)
    requires more
      == if passive then WithExchanged(s.confirmType, secrets, SecretAtOnce(s, before, exchange)) else secrets
    ensures LedTo(s, Renewed(life, passive, exchange, before, next, matching, more), next, matching, more, v)
  {
    LifeGoesOn(s, life, before, matching, secrets, v, OwnEpoch(passive, exchange), before, next, matching, more);
  }

  lemma RestingIsValid(radio: EbNRadioBT4)
    requires radio.Valid()
    ensures forall id :: id in radio.deviceMap.idToDevice ==>
      EpochsValid(radio.c, radio.deviceMap.idToDevice[id].epochs)
  {
    assert Look(OfRadio, 0);
  }

  /** All devices have taken the step of a new epoch of the radio. */
  twostate lemma AllAreRenewed(radio: EbNRadioBT4, new exchange: int, new lives: map<DeviceID, Life>, new v: LinkValue)
    returns (after: map<DeviceID, Life>)
    requires old(Lives(radio, lives, v)) && radio.EpochBegan(exchange)
    requires forall id :: id in lives ==> EpochsValid(radio.c, old(radio.deviceMap.idToDevice[id].epochs))
    ensures Lives(radio, after, v)
  {
    var devices, passive := radio.deviceMap.idToDevice, HasPassive(radio.base.confirmType);
    after := map id | id in lives :: Renewed(lives[id], passive, exchange, old(devices[id].epochs), devices[id].epochs,
                                             devices[id].matching, devices[id].Account());
    forall id | id in lives
      ensures var d := devices[id];
        LedTo(radio.Confirming(), after[id], d.epochs, d.matching, d.Account(), v)
    {
      var d := devices[id];
      LifeIsRenewed(radio.Confirming(), lives[id], passive, exchange, old(d.epochs), d.epochs, d.matching,
                    old(d.Account()), d.Account(), v);
    }
  }

  method BeginEpoch(radio: EbNRadioBT4, exchange: int, ghost lives: map<DeviceID, Life>, ghost v: LinkValue)
    returns (ghost after: map<DeviceID, Life>)
    requires radio.Valid() && radio.SenderValid() && Lives(radio, lives, v)
    modifies radio`dhExchange, radio.base`nextChangeEpoch
    modifies radio.sender`advertNum, radio.sender`key, radio.sender`symbols, radio.sender`dhPrevSymbols
    modifies radio.sender`epoch, radio.deviceMap.idToDevice.Values`epochs
    modifies radio.deviceMap.idToDevice.Values`sharedSecrets, radio.deviceMap.idToDevice.Values`secretsToReport
    modifies radio.deviceMap.idToDevice.Values`confirmed
    ensures radio.Valid() && radio.SenderValid() && Lives(radio, after, v)
  {
    RestingIsValid(radio);
    radio.ChangeEpoch(exchange);
    after := AllAreRenewed(radio, exchange, lives, v);
  }

  /** The event can happen to the radio, and the link value is listened for. */
  ghost predicate MayHappen(radio: EbNRadioBT4, event: Event, v: LinkValue) {
    match event
    case Response(r) => |r.address| == radio.deviceMap.addressSize && |r.data| == ADVERT_BITS
    case NewEpoch(exchange) => true
    case NewListenSet(listenSet) => v in listenSet
  }

  method Happen(radio: EbNRadioBT4, event: Event, ghost lives: map<DeviceID, Life>, ghost v: LinkValue)
    returns (ghost after: map<DeviceID, Life>)
    requires radio.Valid() && radio.SenderValid() && Lives(radio, lives, v) && v in radio.base.listenSet
    requires MayHappen(radio, event, v) && radio.deviceMap.addressSize > 0
    modifies radio, radio.base, radio.sender, radio.deviceMap, radio.deviceMap.idToDevice.Values
    ensures radio.Valid() && radio.SenderValid() && Lives(radio, after, v) && v in radio.base.listenSet
    ensures forall d :: d in radio.deviceMap.idToDevice.Values ==>
      d in old(radio.deviceMap.idToDevice.Values) || fresh(d)
  {
    match event
    case Response(r) => after := HearResponse(radio, r, lives, v);
    case NewEpoch(exchange) => after := BeginEpoch(radio, exchange, lives, v);
    case NewListenSet(listenSet) =>
      radio.base.SetListenSet(listenSet);
      after := lives;
  }

  /** The secrets of all devices are confirmed exactly if there is good reason. */
  ghost predicate AllConfirmed(radio: EbNRadioBT4, lives: map<DeviceID, Life>)
    reads radio, radio.deviceMap, radio.deviceMap.idToDevice.Values
  {
    forall id :: id in lives && id in radio.deviceMap.idToDevice ==>
      Founded(radio.Confirming(), lives[id], radio.deviceMap.idToDevice[id].sharedSecrets)
  }

  ghost predicate Founded(s: ConfirmScheme, life: Life, known: seq<SharedSecret>) {
    && SecretsRun(s, life.run, life.secrets)
    && forall i :: 0 <= i < |known| ==> (known[i].confirmed <==> WellFounded(s, life, i, known[i].value))
  }

  ghost predicate WellFounded(s: ConfirmScheme, life: Life, i: nat, value: LinkValue)
    requires SecretsRun(s, life.run, life.secrets)
  {
    || s.confirmType == NoConfirm
    || (s.threshold < 1.0
        && LongStreak(TestsSince(s, life.run, life.secrets, |life.run.steps|, i), value, s.threshold))
  }

  lemma LedToConfirmed(s: ConfirmScheme, life: Life, epochs: seq<Epoch>, matching: seq<LinkValue>, secrets: Secrets,
                       v: LinkValue)
    requires LedTo(s, life, epochs, matching, secrets, v) && Distinct(secrets.known)
    ensures Founded(s, life, secrets.known)
  {
    assert Look(OfLife, 0);
    var n, known := |life.run.steps|, secrets.known;
    forall i | 0 <= i < |known| ensures known[i].confirmed <==> WellFounded(s, life, i, known[i].value) {
      if s.confirmType == NoConfirm {
        AllConfirmedInLife(s, life.run, life.secrets, n);
        assert known[i] in known && known[i].value in ConfirmedValues(known);
        OnlyOne(known, i);
      } else {
        ConfirmedInLife(s, life.run, life.secrets, n, i);
      }
    }
  }

  lemma AllAreConfirmed(radio: EbNRadioBT4, lives: map<DeviceID, Life>, v: LinkValue)
    requires radio.Valid() && Lives(radio, lives, v)
    ensures AllConfirmed(radio, lives)
  {
    assert Look(OfRadio, 0);
    forall id | id in lives && id in radio.deviceMap.idToDevice
      ensures Founded(radio.Confirming(), lives[id], radio.deviceMap.idToDevice[id].sharedSecrets)
    {
      var d := radio.deviceMap.idToDevice[id];
      d.DistinctSecrets();
      LedToConfirmed(radio.Confirming(), lives[id], d.epochs, d.matching, d.Account(), v);
    }
  }

  /**
   * The life of a radio that knows no device yet. For a link value that is always listened for: if what a device was
   * heard to send are advertisements of the epochs es, each taken for one of its epoch, and the value is in all their
   * filters, then the value still matches. And every secret of every device is confirmed exactly if there is no
   * confirmation, or the tests since it was added speak for it for long enough.
   */
  method Live(radio: EbNRadioBT4, events: seq<Event>, ghost v: LinkValue) returns (ghost lives: map<DeviceID, Life>)
    requires radio.Valid() && radio.SenderValid() && radio.deviceMap.idToDevice == map[]
    requires v in radio.base.listenSet && radio.deviceMap.addressSize > 0
    requires forall e :: e in events ==> MayHappen(radio, e, v)
    modifies radio, radio.base, radio.sender, radio.deviceMap
    ensures radio.Valid() && radio.SenderValid() && Lives(radio, lives, v)
    ensures forall id, es, senders, owners ::
      id in lives && SenderEpochs(radio.c, es) && AlwaysSent(radio.c, es, v)
      && RightRun(radio.c, es, lives[id].run, senders, owners) ==>
      v in radio.deviceMap.idToDevice[id].matching
    ensures AllConfirmed(radio, lives)
  {
    lives := map[];
    var i := 0;
    while i < |events|
      invariant i <= |events| && radio.Valid() && radio.SenderValid() && Lives(radio, lives, v)
      invariant v in radio.base.listenSet && fresh(radio.deviceMap.idToDevice.Values)
    {
      lives := Happen(radio, events[i], lives, v);
      i := i + 1;
    }
    AllAreConfirmed(radio, lives, v);
    forall id, es, senders, owners |
      id in lives && SenderEpochs(radio.c, es) && AlwaysSent(radio.c, es, v)
      && RightRun(radio.c, es, lives[id].run, senders, owners)
      ensures v in radio.deviceMap.idToDevice[id].matching
    {
      assert Look(OfLife, 0);
      NoMatchIsLost(radio.c, es, lives[id].run, senders, owners, lives[id].matching, v, |lives[id].run.steps|);
    }
  }
}
