/**
 * The controller, source/EbNController.cpp: discovery rounds and epoch changes, in the order in which the radio wants
 * them, and the events that each round reports.
 */
module Controller {
  import opened Device
  import opened DeviceMap
  import opened EventLog
  import opened Hiding
  import opened HystPolicy
  import opened PolicyLimits
  import opened Radio
  import opened RadioBT2
  import opened Stories

  /** What a round of the main loop reads: clocks, a random number, the responses of the air and key exchanges. */
  datatype Round = Round(
    now: nat, responses: seq<Response>, random: nat, discoverTime: nat, encounterTime: nat, expireTime: nat,
    clock: nat -> nat, secrets: map<DeviceID, LinkValue>)

  class EbNController {
    const radio: EbNRadioBT2
    const hystPolicy: EbNHystPolicy
    const rssiReportInterval: nat
    /** The events that the callback has been called with. */
    var log: seq<EncounterEvent>

    ghost function Known(): set<DeviceID>
      reads radio.deviceMap
    {
      radio.deviceMap.idToDevice.Keys
    }

    /**
     * The table of the policy and the device map have the same ids; the log tells what has become of them and all that
     * has been reported; nothing but measurements is left to tell of an encounter.
     */
    ghost predicate Valid()
      reads this, hystPolicy, radio, radio.base, radio.deviceMap
      reads radio.deviceMap.addressToDevice.Values, radio.deviceMap.idToDevice.Values
    {
      && radio.Valid() && hystPolicy.scheme == STANDARD
      && hystPolicy.deviceInfo.Keys == Known()
      && Chronicle(log, radio.Images(), Known(), {}, radio.base.nextDeviceID)
      && AllTold(radio.Images(), Known()) && Agreed(hystPolicy.deviceInfo, radio.Images())
    }

    constructor (radio: EbNRadioBT2, hystPolicy: EbNHystPolicy, rssiReportInterval: nat)
      requires radio.Valid() && radio.deviceMap.idToDevice == map[] && radio.base.nextDeviceID == 0
      requires hystPolicy.scheme == STANDARD && hystPolicy.deviceInfo == map[]
      ensures Valid() && log == [] && this.radio == radio && this.hystPolicy == hystPolicy
      ensures this.rssiReportInterval == rssiReportInterval
    {
      this.radio, this.hystPolicy, this.rssiReportInterval := radio, hystPolicy, rssiReportInterval;
      log := [];
    }

    /** These are the images of the devices, and what the log and the list of the events of a round tell, so far. */
    ghost predicate Collected(encounters: seq<EncounterEvent>, images: map<DeviceID, Image>, known: set<DeviceID>,
                              unannounced: set<DeviceID>)
      reads this, radio, radio.base, radio.deviceMap
      reads radio.deviceMap.addressToDevice.Values, radio.deviceMap.idToDevice.Values
    {
      && radio.Valid() && radio.Shows(images)
      && Chronicle(log + encounters, images, known, unannounced, radio.base.nextDeviceID)
    }

    /** The devices that are new are announced. */
    method Announce(newly: seq<(DeviceID, nat)>, ghost known: set<DeviceID>, ghost images: map<DeviceID, Image>)
      returns (encounters: seq<EncounterEvent>)
      requires NoRepeats(newly) && Collected([], images, known, NewIds(newly))
      ensures Collected(encounters, images, known + NewIds(newly), {})
      ensures |encounters| == |newly| && OnceFor(encounters, NewIds(newly))
      ensures forall i :: 0 <= i < |newly| ==> encounters[i] == Announcement(newly[i].0, newly[i].1)
    {
      encounters := [];
      var i := 0;
      ghost var left := NewIds(newly);
      while i < |newly|
        invariant i == |encounters| <= |newly| && left == NewIds(newly[i..])
        invariant Collected(encounters, images, known + (NewIds(newly) - left), left) && left <= NewIds(newly)
        invariant OnceFor(encounters, NewIds(newly) - left)
        invariant forall j :: 0 <= j < i ==> encounters[j] == Announcement(newly[j].0, newly[j].1)
      {
        var e := Blank(newly[i].1).(kind := UnconfirmedStarted, id := newly[i].0);
        FirstNew(newly, i);
        AnnouncedOn(log + encounters, images, known + (NewIds(newly) - left), left, radio.base.nextDeviceID,
                    newly[i].1, newly[i].0);
        assert (log + encounters) + [e] == log + (encounters + [e]);
        assert known + (NewIds(newly) - left) + {e.id} == known + (NewIds(newly) - (left - {e.id}));
        OneMoreEvent(encounters, NewIds(newly) - left, e);
        assert NewIds(newly) - left + {e.id} == NewIds(newly) - (left - {e.id});
        encounters := encounters + [e];
        left := left - {e.id};
        i := i + 1;
      }
      assert known + (NewIds(newly) - left) == known + NewIds(newly);
    }

    lemma FirstNew(newly: seq<(DeviceID, nat)>, i: nat)
      requires NoRepeats(newly) && i < |newly|
      ensures newly[i].0 in NewIds(newly[i..]) && NewIds(newly[i + 1..]) == NewIds(newly[i..]) - {newly[i].0}
      ensures NewIds(newly[i..]) <= NewIds(newly)
    {
      var rest := newly[i..];
      assert rest[0] == newly[i] && rest[1..] == newly[i + 1..];
      forall p | p in rest[1..] ensures p.0 != newly[i].0 {
        var k :| 0 <= k < |rest| - 1 && rest[1..][k] == p;
        assert newly[i + 1 + k] == p;
      }
      assert forall p :: p in rest <==> p == newly[i] || p in rest[1..];
    }

    /** Asking about a device. */
    method Ask(id: DeviceID, i: nat, clock: nat -> nat, ghost before: map<DeviceID, Image>)
      returns (success: bool, e: EncounterEvent, ghost now: map<DeviceID, Image>)
      requires radio.Valid() && radio.Shows(before)
      modifies radio.deviceMap.idToDevice.Values
      ensures radio.Valid() && radio.Shows(now)
      ensures Asked(before, now, id, clock(3 * i + 1), clock(3 * i + 2), rssiReportInterval, success, e)
    {
      radio.Shown(before);
      success, e := radio.DeviceEvent(clock(3 * i), id, rssiReportInterval, clock(3 * i + 1), clock(3 * i + 2));
      now := radio.Images();
    }

    /** Asking about one device of the list. */
    method AskNext(discovered: seq<DiscoverEvent>, i: nat, clock: nat -> nat, encounters0: seq<EncounterEvent>,
                   ghost images: map<DeviceID, Image>, ghost before: map<DeviceID, Image>,
                   ghost news: seq<EncounterEvent>)
      returns (encounters: seq<EncounterEvent>, ghost more: seq<EncounterEvent>, ghost now: map<DeviceID, Image>)
      requires Collected(encounters0, before, before.Keys, {}) && i < |discovered|
      requires NewsOf(images, before, discovered, i, clock, rssiReportInterval, news)
      modifies radio.deviceMap.idToDevice.Values
      ensures Collected(encounters, now, now.Keys, {}) && encounters == encounters0 + more
      ensures NewsOf(images, now, discovered, i + 1, clock, rssiReportInterval, news + more)
    {
      var success, e;
      success, e, now := Ask(discovered[i].id, i, clock, before);
      encounters, more := encounters0, [];
      if success {
        encounters, more := encounters + [e], [e];
      }
      OneMoreAsked(log + encounters0, radio.base.nextDeviceID, images, before, now, discovered, i, clock,
                   rssiReportInterval, news, success, e);
      assert log + encounters == (log + encounters0) + more;
    }

    /**
     * The news of the devices that have been discovered: exactly those with news tell it, in one event each, and then
     * have nothing left to tell but measurements.
     */
    method CollectNews(discovered: seq<DiscoverEvent>, clock: nat -> nat, encounters0: seq<EncounterEvent>,
                       ghost images: map<DeviceID, Image>)
      returns (encounters: seq<EncounterEvent>, ghost news: seq<EncounterEvent>, ghost told: map<DeviceID, Image>)
      requires Collected(encounters0, images, images.Keys, {}) && AllTold(images, images.Keys - Ids(discovered))
      modifies radio.deviceMap.idToDevice.Values
      ensures Collected(encounters, told, told.Keys, {}) && encounters == encounters0 + news
      ensures NewsOf(images, told, discovered, |discovered|, clock, rssiReportInterval, news)
      ensures AllTold(told, told.Keys)
    {
      NoNews(images, discovered, clock, rssiReportInterval);
      encounters, news, told := encounters0, [], images;
      assert encounters == encounters0 + news;
      var i := 0;
      while i < |discovered|
        invariant i <= |discovered| && Collected(encounters, told, told.Keys, {})
        invariant encounters == encounters0 + news
        invariant NewsOf(images, told, discovered, i, clock, rssiReportInterval, news)
      {
        ghost var more;
        encounters, more, told := AskNext(discovered, i, clock, encounters, images, told, news);
        news := news + more;
        i := i + 1;
      }
      AllStarted(told);
      NewsAreTold(images, told, discovered, clock, rssiReportInterval, news);
    }

    lemma AllStarted(images: map<DeviceID, Image>)
      requires radio.Valid() && radio.Shows(images)
      ensures forall id :: id in images ==>
        images[id].confirmed && images[id].state.secrets.toReport == [] ==> images[id].reports.started
    {
      radio.Shown(images);
      forall id | id in images
        ensures images[id].confirmed && images[id].state.secrets.toReport == [] ==> images[id].reports.started
      {
        radio.ToldIsStarted(id);
      }
    }

    /** The device with an id ends. */
    method EndOne(id: DeviceID, now: nat, lastTime: nat, encounters: seq<EncounterEvent>,
                  ghost images: map<DeviceID, Image>)
      returns (e: EncounterEvent)
      requires Collected(encounters, images, images.Keys, {}) && id in images
      modifies radio.base`recentDevices, radio.base`idToRecentDevices, radio.deviceMap
      modifies images[id].device`rssiToReport, images[id].device`rssiReported
      ensures Collected(encounters + [e], images - {id}, images.Keys - {id}, {})
      ensures e.id == id && e.time == lastTime && EndsWith(images[id], e)
    {
      radio.ImageHasDevice(images, id);
      radio.Shown(images);
      radio.IdIsUsed(id);
      e := radio.DoneWithDevice(id, now);
      e := e.(time := lastTime);
      EndedOn(log + encounters, images, radio.base.nextDeviceID, e);
      assert (log + encounters) + [e] == log + (encounters + [e]);
    }

    lemma OldDevices(images: map<DeviceID, Image>)
      requires radio.Shows(images)
      ensures forall id :: id in images ==> images[id].device in radio.deviceMap.idToDevice.Values
    {
      radio.Shown(images);
      forall id | id in images ensures images[id].device in radio.deviceMap.idToDevice.Values {
        radio.ImageHasDevice(images, id);
      }
    }

    lemma NoOthers(images: map<DeviceID, Image>, devices: set<EbNDevice<Epoch>>)
      requires radio.Shows(images) && forall id :: id in images ==> images[id].device in devices
      ensures radio.deviceMap.idToDevice.Values <= devices
    {
      radio.Shown(images);
      forall d | d in radio.deviceMap.idToDevice.Values ensures d in devices {
        HasKey(radio.deviceMap.idToDevice, d);
        var id :| id in radio.deviceMap.idToDevice && radio.deviceMap.idToDevice[id] == d;
        radio.ImageHasDevice(images, id);
      }
    }

    /** What has been done of the list of the devices that have expired. */
    ghost predicate EndedSoFar(ended: seq<EncounterEvent>, expired: seq<(DeviceID, nat)>, images: map<DeviceID, Image>,
                               left: set<DeviceID>)
    {
      && |ended| <= |expired| && left == NewIds(expired[|ended|..]) && left <= NewIds(expired) <= images.Keys
      && forall j :: 0 <= j < |ended| ==>
        ended[j].id == expired[j].0 && ended[j].time == expired[j].1 && EndsWith(images[ended[j].id], ended[j])
    }

    lemma OneMoreEnded(ended: seq<EncounterEvent>, expired: seq<(DeviceID, nat)>, images: map<DeviceID, Image>,
                       left: set<DeviceID>, e: EncounterEvent)
      requires EndedSoFar(ended, expired, images, left) && |ended| < |expired| && NoRepeats(expired)
      requires e.id == expired[|ended|].0 && e.time == expired[|ended|].1 && EndsWith(images[e.id], e)
      ensures EndedSoFar(ended + [e], expired, images, left - {e.id})
      ensures images - (NewIds(expired) - left) - {e.id} == images - (NewIds(expired) - (left - {e.id}))
    {
      FirstNew(expired, |ended|);
    }

    /** The devices that have expired end, with their last times, and are not known any more. */
    method EndExpired(expired: seq<(DeviceID, nat)>, clock: nat -> nat, encounters0: seq<EncounterEvent>,
                      ghost images: map<DeviceID, Image>)
      returns (encounters: seq<EncounterEvent>, ghost ended: seq<EncounterEvent>)
      requires Collected(encounters0, images, images.Keys, {})
      requires NoRepeats(expired) && NewIds(expired) <= images.Keys
      modifies radio.base`recentDevices, radio.base`idToRecentDevices
      modifies radio.deviceMap, radio.deviceMap.idToDevice.Values
      ensures Collected(encounters, images - NewIds(expired), images.Keys - NewIds(expired), {})
      ensures encounters == encounters0 + ended && |ended| == |expired| && EndedSoFar(ended, expired, images, {})
    {
      encounters, ended := encounters0, [];
      assert encounters == encounters0 + ended;
      var i := 0;
      ghost var left, now := NewIds(expired), images;
      assert images - (NewIds(expired) - left) == images && expired[0..] == expired;
      OldDevices(images);
      while i < |expired|
        invariant i == |ended| && EndedSoFar(ended, expired, images, left)
        invariant now == images - (NewIds(expired) - left) && Collected(encounters, now, now.Keys, {})
        invariant encounters == encounters0 + ended
      {
        FirstNew(expired, i);
        var id := expired[i].0;
        assert id in now && now[id] == images[id];
        var e := EndOne(id, clock(i), expired[i].1, encounters, now);
        OneMoreEnded(ended, expired, images, left, e);
        encounters, ended := encounters + [e], ended + [e];
        left, now := left - {id}, now - {id};
        i := i + 1;
      }
      assert left == {} && images - (NewIds(expired) - left) == images - NewIds(expired);
    }

    /** What is heard: the devices that are new are not announced yet. */
    method Hear(r: Round) returns (discovered: seq<DiscoverEvent>, ghost heard: map<DeviceID, Image>)
      requires Valid() && forall x :: x in r.responses ==> |x.address| == radio.deviceMap.addressSize
      modifies radio.base, radio.deviceMap, radio.deviceMap.idToDevice.Values
      ensures Lists(discovered, r.responses)
      ensures Grows(old(radio.Images()), old(radio.base.nextDeviceID), heard, radio.base.nextDeviceID, Ids(discovered))
      ensures var table := hystPolicy.deviceInfo;
        && heard.Keys == table.Keys + Ids(discovered) && Collected([], heard, table.Keys, Ids(discovered) - table.Keys)
        && AllTold(heard, heard.Keys - Ids(discovered)) && Agreed(table, heard)
      ensures forall d :: d in radio.deviceMap.idToDevice.Values ==>
        d in old(radio.deviceMap.idToDevice.Values) || fresh(d)
    {
      ghost var images, next := radio.Images(), radio.base.nextDeviceID;
      discovered := radio.Discover(r.responses, r.random);
      heard := radio.Images();
      HeardOn(log, images, next, heard, radio.base.nextDeviceID, Ids(discovered), hystPolicy.deviceInfo);
      assert log + [] == log;
      GrownKeys(images, next, heard, radio.base.nextDeviceID, Ids(discovered));
    }

    lemma GrownKeys(before: map<DeviceID, Image>, next: int, now: map<DeviceID, Image>, nextNow: int,
                    heard: set<DeviceID>)
      requires Grows(before, next, now, nextNow, heard)
      ensures now.Keys == before.Keys + heard
    {
      assert Look(OfImages, 0);
    }

    /** The policy knows what has been discovered, and asks for handshakes with the encounters among it. */
    method Apply(discovered: seq<DiscoverEvent>, time: nat)
      returns (toHandshake: set<DeviceID>, newlyDiscovered: seq<(DeviceID, nat)>)
      requires hystPolicy.scheme == STANDARD
      modifies hystPolicy
      ensures hystPolicy.deviceInfo == hystPolicy.TableOf(old(hystPolicy.deviceInfo), discovered, time)
      ensures hystPolicy.deviceInfo.Keys == old(hystPolicy.deviceInfo).Keys + Ids(discovered)
      ensures toHandshake == EncounteredOf(hystPolicy.deviceInfo, Ids(discovered))
      ensures NoRepeats(newlyDiscovered) && NewIds(newlyDiscovered) == Ids(discovered) - old(hystPolicy.deviceInfo).Keys
      ensures forall p :: p in newlyDiscovered ==> p.1 == time
    {
      ghost var before := hystPolicy.deviceInfo;
      toHandshake, newlyDiscovered := hystPolicy.Discover(discovered, time);
      assert Look(OfEvents, 0);
      hystPolicy.TableIs(hystPolicy.deviceInfo, before, discovered, time);
    }

    /** Hands have then been shaken with the encounters of the policy again. */
    lemma AgreedOn(before: map<DeviceID, DeviceInfo>, discovered: seq<DiscoverEvent>, time: nat,
                   images: map<DeviceID, Image>, now: map<DeviceID, Image>)
      requires Agreed(before, images) && images.Keys == before.Keys + Ids(discovered)
      requires Shaken(images, now, EncounteredOf(hystPolicy.TableOf(before, discovered, time), Ids(discovered)))
      ensures Agreed(hystPolicy.TableOf(before, discovered, time), now)
    {
      assert Look(OfEvents, 0) && Look(OfImages, 0);
      var table := hystPolicy.TableOf(before, discovered, time);
      forall id | id in now ensures now[id].shakenHands <==> id in table && table[id].state == Encountered {
        assert id in table;
      }
    }

    /** An encounter is one for the policy already. */
    method Encounter(met: set<DeviceID>, time: nat)
      requires forall id :: id in met ==>
        id in hystPolicy.deviceInfo && hystPolicy.deviceInfo[id].state == Encountered
      modifies hystPolicy
      ensures hystPolicy.deviceInfo == old(hystPolicy.deviceInfo)
    {
      ghost var before := hystPolicy.deviceInfo;
      hystPolicy.Encounter(met, time);
      forall id | id in hystPolicy.deviceInfo ensures id in before && hystPolicy.deviceInfo[id] == before[id] {
        assert id in before.Keys + met;
      }
      assert hystPolicy.deviceInfo == before;
    }

    lemma MetAreEncounters(table: map<DeviceID, DeviceInfo>, images: map<DeviceID, Image>)
      requires Agreed(table, images)
      ensures forall id :: id in MetIn(images) ==> id in table && table[id].state == Encountered
    {
      assert Look(OfEvents, 0);
    }

    /** Hands are shaken with devices that are known. */
    method ShakeHands(toHandshake: set<DeviceID>, ghost images: map<DeviceID, Image>)
      returns (met: set<DeviceID>, ghost now: map<DeviceID, Image>)
      requires radio.Valid() && radio.Shows(images) && toHandshake <= images.Keys
      modifies radio.deviceMap.idToDevice.Values`shakenHands
      ensures radio.Valid() && radio.Shows(now) && Shaken(images, now, toHandshake) && met == MetIn(now)
    {
      radio.Shown(images);
      met := radio.HandshakeKnown(toHandshake);
      now := radio.Images();
    }

    /** Hands are shaken with the encounters, which is nothing new to the policy. */
    method Shake(toHandshake: set<DeviceID>, time: nat, ghost before: map<DeviceID, DeviceInfo>,
                 ghost discovered: seq<DiscoverEvent>, ghost discoverTime: nat, ghost images: map<DeviceID, Image>)
      returns (ghost met: map<DeviceID, Image>)
      requires radio.Valid() && radio.Shows(images) && images.Keys == before.Keys + Ids(discovered)
      requires hystPolicy.deviceInfo == hystPolicy.TableOf(before, discovered, discoverTime) && Agreed(before, images)
      requires toHandshake == EncounteredOf(hystPolicy.deviceInfo, Ids(discovered))
      modifies hystPolicy, radio.deviceMap.idToDevice.Values`shakenHands
      ensures radio.Valid() && radio.Shows(met) && hystPolicy.deviceInfo == old(hystPolicy.deviceInfo)
      ensures Shaken(images, met, toHandshake) && Agreed(hystPolicy.deviceInfo, met)
    {
      var ids;
      ids, met := ShakeHands(toHandshake, images);
      AgreedOn(before, discovered, discoverTime, images, met);
      MetAreEncounters(hystPolicy.deviceInfo, met);
      Encounter(ids, time);
    }

    /** Which devices are met: what has been discovered goes through the policy, and hands are shaken. */
    method Meet(discovered: seq<DiscoverEvent>, r: Round, ghost images: map<DeviceID, Image>)
      returns (newlyDiscovered: seq<(DeviceID, nat)>, ghost met: map<DeviceID, Image>)
      requires radio.Valid() && radio.Shows(images) && hystPolicy.scheme == STANDARD
      requires images.Keys == hystPolicy.deviceInfo.Keys + Ids(discovered) && Agreed(hystPolicy.deviceInfo, images)
      modifies hystPolicy, radio.deviceMap.idToDevice.Values`shakenHands
      ensures radio.Valid() && radio.Shows(met) && Agreed(hystPolicy.deviceInfo, met)
      ensures hystPolicy.deviceInfo == hystPolicy.TableOf(old(hystPolicy.deviceInfo), discovered, r.discoverTime)
      ensures hystPolicy.deviceInfo.Keys == images.Keys
      ensures Shaken(images, met, EncounteredOf(hystPolicy.deviceInfo, Ids(discovered)))
      ensures NoRepeats(newlyDiscovered) && NewIds(newlyDiscovered) == Ids(discovered) - old(hystPolicy.deviceInfo).Keys
      ensures forall p :: p in newlyDiscovered ==> p.1 == r.discoverTime
    {
      ghost var before := hystPolicy.deviceInfo;
      var toHandshake;
      toHandshake, newlyDiscovered := Apply(discovered, r.discoverTime);
      met := Shake(toHandshake, r.encounterTime, before, discovered, r.discoverTime, images);
    }

    /** The devices that are new are met and announced. */
    method Greet(discovered: seq<DiscoverEvent>, r: Round, ghost images: map<DeviceID, Image>)
      returns (announced: seq<EncounterEvent>, ghost met: map<DeviceID, Image>)
      requires hystPolicy.scheme == STANDARD && images.Keys == hystPolicy.deviceInfo.Keys + Ids(discovered)
      requires Collected([], images, hystPolicy.deviceInfo.Keys, Ids(discovered) - hystPolicy.deviceInfo.Keys)
      requires Agreed(hystPolicy.deviceInfo, images) && AllTold(images, images.Keys - Ids(discovered))
      modifies hystPolicy, radio.deviceMap.idToDevice.Values`shakenHands
      ensures Collected(announced, met, met.Keys, {}) && met.Keys == images.Keys == hystPolicy.deviceInfo.Keys
      ensures Agreed(hystPolicy.deviceInfo, met) && AllTold(met, met.Keys - Ids(discovered))
      ensures hystPolicy.deviceInfo == hystPolicy.TableOf(old(hystPolicy.deviceInfo), discovered, r.discoverTime)
      ensures Shaken(images, met, EncounteredOf(hystPolicy.deviceInfo, Ids(discovered)))
      ensures AnnouncedAre(announced, Ids(discovered) - old(hystPolicy.deviceInfo).Keys, r.discoverTime)
    {
      ghost var known := hystPolicy.deviceInfo.Keys;
      var newlyDiscovered;
      newlyDiscovered, met := Meet(discovered, r, images);
      ShakenOn(log + [], images, met, known, Ids(discovered) - known, radio.base.nextDeviceID,
               EncounteredOf(hystPolicy.deviceInfo, Ids(discovered)), images.Keys - Ids(discovered));
      announced := Announce(newlyDiscovered, known, met);
      TheseAnnounced(announced, newlyDiscovered, r.discoverTime);
      assert known + NewIds(newlyDiscovered) == images.Keys;
    }

    /** The devices that have expired are taken out of the table, and end. */
    method Expire(r: Round, encounters0: seq<EncounterEvent>, ghost images: map<DeviceID, Image>)
      returns (encounters: seq<EncounterEvent>, ghost ended: seq<EncounterEvent>)
      requires Collected(encounters0, images, images.Keys, {}) && hystPolicy.deviceInfo.Keys == images.Keys
      requires AllTold(images, images.Keys) && Agreed(hystPolicy.deviceInfo, images)
      modifies hystPolicy, radio.base`recentDevices, radio.base`idToRecentDevices
      modifies radio.deviceMap, radio.deviceMap.idToDevice.Values
      ensures var gone := hystPolicy.ExpiredOf(old(hystPolicy.deviceInfo), r.expireTime);
        && Collected(encounters, images - gone, images.Keys - gone, {}) && encounters == encounters0 + ended
        && hystPolicy.deviceInfo == old(hystPolicy.deviceInfo) - gone
        && EndedAre(ended, gone, old(hystPolicy.deviceInfo), images)
        && AllTold(images - gone, images.Keys - gone) && Agreed(hystPolicy.deviceInfo, images - gone)
      ensures forall d :: d in radio.deviceMap.idToDevice.Values ==> d in old(radio.deviceMap.idToDevice.Values)
    {
      ghost var table, devices := hystPolicy.deviceInfo, radio.deviceMap.idToDevice.Values;
      OldDevices(images);
      var expired := hystPolicy.CheckExpired(r.expireTime);
      assert NewIds(expired) <= table.Keys;
      encounters, ended := EndExpired(expired, r.clock, encounters0, images);
      TheseEnded(ended, expired, table, images);
      LeftOver(table, images, NewIds(expired));
      NoOthers(images - NewIds(expired), devices);
    }

    /** What a discovery round has made of the devices, of the table of the policy, and of the log. */
    twostate predicate RoundTold(r: Round, new t: Tale)
      reads this, hystPolicy, radio, radio.base, radio.deviceMap, radio.deviceMap.idToDevice.Values
    {
      && TellsRound(r, old(hystPolicy.deviceInfo), old(radio.Images()), old(radio.base.nextDeviceID),
                    radio.base.nextDeviceID, t)
      && hystPolicy.deviceInfo == t.table - t.gone && radio.Images() == t.told - t.gone
      && log == old(log) + t.announced + t.news + t.ended
    }

    ghost predicate TellsRound(r: Round, table: map<DeviceID, DeviceInfo>, images: map<DeviceID, Image>, next: int,
                               nextNow: int, t: Tale) {
      var heard := Ids(t.discovered);
      && Lists(t.discovered, r.responses)
      && Grows(images, next, t.heard, nextNow, heard)
      && t.table == hystPolicy.TableOf(table, t.discovered, r.discoverTime)
      && Shaken(t.heard, t.met, EncounteredOf(t.table, heard))
      && AnnouncedAre(t.announced, heard - table.Keys, r.discoverTime)
      && NewsOf(t.met, t.told, t.discovered, |t.discovered|, r.clock, rssiReportInterval, t.news)
      && AllTold(t.told, t.told.Keys)
      && t.gone == hystPolicy.ExpiredOf(t.table, r.expireTime) && EndedAre(t.ended, t.gone, t.table, t.told)
    }

    /** The events of a round are found. */
    method Collect(r: Round) returns (encounters: seq<EncounterEvent>, ghost t: Tale)
      requires Valid() && forall x :: x in r.responses ==> |x.address| == radio.deviceMap.addressSize
      modifies hystPolicy, radio.base, radio.deviceMap, radio.deviceMap.idToDevice.Values
      ensures TellsRound(r, old(hystPolicy.deviceInfo), old(radio.Images()), old(radio.base.nextDeviceID),
                         radio.base.nextDeviceID, t)
      ensures encounters == t.announced + t.news + t.ended && hystPolicy.deviceInfo == t.table - t.gone
      ensures var images := t.told - t.gone;
        && Collected(encounters, images, images.Keys, {}) && AllTold(images, images.Keys)
        && hystPolicy.deviceInfo.Keys == images.Keys && Agreed(hystPolicy.deviceInfo, images)
      ensures forall d :: d in radio.deviceMap.idToDevice.Values ==>
        d in old(radio.deviceMap.idToDevice.Values) || fresh(d)
    {
      var discovered, announced;
      ghost var heard, met, told, news, ended;
      discovered, heard := Hear(r);
      announced, met := Greet(discovered, r, heard);
      ghost var table := hystPolicy.deviceInfo;
      encounters, news, told := CollectNews(discovered, r.clock, announced, met);
      NewsKeep(met, told, discovered, r.clock, rssiReportInterval, news, table);
      encounters, ended := Expire(r, encounters, told);
      t := Tale(discovered, heard, met, told, table, hystPolicy.ExpiredOf(table, r.expireTime), announced, news, ended);
    }

    /**
     * A discovery round. Exactly the devices that are new are announced; every device that was heard and has news tells
     * all of it in one event; exactly the devices that have expired end; and the log has these events, in this order,
     * after all those before.
     */
    method DiscoverRound(r: Round) returns (ghost t: Tale)
      requires Valid() && forall x :: x in r.responses ==> |x.address| == radio.deviceMap.addressSize
      modifies this`log, hystPolicy, radio.base, radio.deviceMap, radio.deviceMap.idToDevice.Values
      ensures Valid() && RoundTold(r, t)
      ensures forall d :: d in radio.deviceMap.idToDevice.Values ==>
        d in old(radio.deviceMap.idToDevice.Values) || fresh(d)
    {
      var encounters;
      encounters, t := Collect(r);
      CallBack(encounters);
      radio.Shown(t.told - t.gone);
    }

    /** The loop that calls the callback. */
    method CallBack(encounters: seq<EncounterEvent>)
      modifies this`log
      ensures log == old(log) + encounters
    {
      var i := 0;
      while i < |encounters|
        invariant i <= |encounters| && log == old(log) + encounters[..i]
      {
        log := log + [encounters[i]];
        i := i + 1;
      }
      assert encounters[..i] == encounters;
    }

    /** An epoch change: the devices may get new secrets, which are not confirmed, and nothing is reported. */
    method EpochRound(r: Round)
      requires Valid()
      modifies radio.base, radio.deviceMap.idToDevice.Values
      ensures Valid() && radio.deviceMap.idToDevice == old(radio.deviceMap.idToDevice)
      ensures log == old(log) && hystPolicy.deviceInfo == old(hystPolicy.deviceInfo)
      ensures radio.base.nextChangeEpoch == old(radio.base.nextChangeEpoch) + EPOCH_INTERVAL
    {
      ghost var images := radio.Images();
      radio.ChangeEpoch(r.secrets);
      SilentOn(log, images, radio.Images(), radio.base.nextDeviceID, hystPolicy.deviceInfo);
    }

    /** The log accounts for the devices that are known, and what it tells of an encounter is complete. */
    ghost predicate LogIsComplete()
      reads this, hystPolicy, radio, radio.deviceMap, radio.deviceMap.idToDevice.Values
    {
      forall id :: id in Known() ==>
        var d := radio.deviceMap.idToDevice[id];
        var told := ReportsIn(log, id, d.listened);
        && d.measured == told.measurements + d.rssiToReport
        && (d.confirmed && id in hystPolicy.deviceInfo && hystPolicy.deviceInfo[id].state == Encountered ==>
              && told.started && told.matching == d.matching
              && Distinct(told.secrets) && Values(told.secrets) == ConfirmedValues(d.sharedSecrets))
    }

    lemma Completeness()
      requires Valid()
      ensures LogIsComplete()
    {
      assert Look(OfEvents, 0);
      forall id | id in Known()
        ensures var d := radio.deviceMap.idToDevice[id];
          var told := ReportsIn(log, id, d.listened);
          && d.measured == told.measurements + d.rssiToReport
          && (d.confirmed && hystPolicy.deviceInfo[id].state == Encountered ==>
                && told.started && told.matching == d.matching
                && Distinct(told.secrets) && Values(told.secrets) == ConfirmedValues(d.sharedSecrets))
      {
        var d := radio.deviceMap.idToDevice[id];
        assert radio.Images()[id].reports == ReportsIn(log, id, d.listened);
        assert Told(radio.Images()[id]);
        radio.IsRecent(id);
        d.MeasurementsAreTold();
        if d.confirmed && d.shakenHands { d.ToldIsComplete(); }
      }
    }

    /** The table is what the limits of the policy make of what has been discovered. */
    ghost predicate Limited(history: seq<Discovery>)
      reads hystPolicy
    {
      hystPolicy.deviceInfo == TableAfterAll(hystPolicy, history)
    }

    /** One round of the main loop. */
    method RunRound(r: Round, ghost history: seq<Discovery>) returns (ghost now: seq<Discovery>)
      requires Valid() && forall x :: x in r.responses ==> |x.address| == radio.deviceMap.addressSize
      modifies this`log, hystPolicy, radio.base, radio.deviceMap, radio.deviceMap.idToDevice.Values
      ensures Valid() && old(log) <= log && (old(Limited(history)) ==> Limited(now))
      ensures forall d :: d in radio.deviceMap.idToDevice.Values ==>
        d in old(radio.deviceMap.idToDevice.Values) || fresh(d)
    {
      var action, timeUntil := radio.base.GetNextAction(r.now);
      match action {
        case ChangeEpoch =>
          EpochRound(r);
          now := history;
        case DiscoverDevices =>
          ghost var t := DiscoverRound(r);
          ghost var discovery := Discovery(t.discovered, r.discoverTime, r.expireTime);
          OneMoreRound(hystPolicy, history, discovery);
          now := history + [discovery];
      }
    }

    /**
     * run: whatever the air and the clocks bring, the events of every device are one UnconfirmedStarted, then perhaps
     * one Started and any number of Updated, then perhaps one Ended, and nothing after it. After every round the table
     * of the policy has exactly the devices of the map; and the log has told, of every encounter with a confirmed
     * device, each of its confirmed secrets once, and its matching set as it is then. The table is what the limits of
     * the policy make of what has been discovered.
     */
    method Run(rounds: seq<Round>) returns (ghost history: seq<Discovery>)
      requires Valid()
      requires forall r, x :: r in rounds && x in r.responses ==> |x.address| == radio.deviceMap.addressSize
      modifies this`log, hystPolicy, radio.base, radio.deviceMap, radio.deviceMap.idToDevice.Values
      ensures Valid() && old(log) <= log && LogIsComplete()
      ensures forall id: DeviceID :: Orderly(Kinds(log, id))
      ensures old(hystPolicy.deviceInfo) == map[] ==> Limited(history)
    {
      var i := 0;
      history := [];
      while i < |rounds|
        invariant i <= |rounds| && Valid() && old(log) <= log
        invariant old(hystPolicy.deviceInfo) == map[] ==> Limited(history)
        invariant forall d :: d in radio.deviceMap.idToDevice.Values ==>
          d in old(radio.deviceMap.idToDevice.Values) || fresh(d)
      {
        history := RunRound(rounds[i], history);
        i := i + 1;
      }
      Completeness();
      ChronicleIsOrderly(log, radio.Images(), radio.base.nextDeviceID);
    }
  }
}
