/**
 * What the log of a controller tells about the devices, and what a round of source/EbNController.cpp adds to it. The
 * devices are given by their images.
 */
module Stories {
  import opened Device
  import opened EventLog
  import opened Hiding
  import opened HystPolicy
  import opened RadioBT2

  // ---------------------------------------------------------------- the log and the devices

  /**
   * What the log tells about an id: devices that are known are seen or running, ids that were given out before belong
   * to devices that are over, and nothing is told about the others.
   */
  function Expected(id: DeviceID, known: set<DeviceID>, unannounced: set<DeviceID>, reported: set<DeviceID>, next: int)
    : Phase {
    if id in known then (if id in reported then Running else Seen)
    else if 0 <= id < next && id !in unannounced then Over
    else Unknown
  }

  ghost predicate Story(log: seq<EncounterEvent>, known: set<DeviceID>, unannounced: set<DeviceID>,
                        reported: set<DeviceID>, next: int) {
    && known !! unannounced && reported <= known
    && (forall id: DeviceID :: PhaseOf(log, id) == Expected(id, known, unannounced, reported, next))
  }

  /** A device that has just become known is announced. */
  lemma Announced(log: seq<EncounterEvent>, known: set<DeviceID>, unannounced: set<DeviceID>, reported: set<DeviceID>,
                  next: int, e: EncounterEvent)
    requires Story(log, known, unannounced, reported, next) && e.id in unannounced && e.kind == UnconfirmedStarted
    ensures Story(log + [e], known + {e.id}, unannounced - {e.id}, reported, next)
  {
    forall id: DeviceID
      ensures PhaseOf(log + [e], id) == Expected(id, known + {e.id}, unannounced - {e.id}, reported, next)
    {
      PhaseStep(log, e, id);
    }
  }

  /** A device that is known is reported. */
  lemma ReportedOn(log: seq<EncounterEvent>, known: set<DeviceID>, reported: set<DeviceID>, next: int,
                   e: EncounterEvent)
    requires Story(log, known, {}, reported, next) && e.id in known
    requires e.kind == if e.id in reported then Updated else Started
    ensures Story(log + [e], known, {}, reported + {e.id}, next)
  {
    forall id: DeviceID ensures PhaseOf(log + [e], id) == Expected(id, known, {}, reported + {e.id}, next) {
      PhaseStep(log, e, id);
    }
  }

  /** A device that was known is over. */
  lemma OverNow(log: seq<EncounterEvent>, known: set<DeviceID>, reported: set<DeviceID>, next: int, e: EncounterEvent)
    requires Story(log, known, {}, reported, next) && e.id in known && 0 <= e.id < next && e.kind == Ended
    ensures Story(log + [e], known - {e.id}, {}, reported - {e.id}, next)
  {
    forall id: DeviceID ensures PhaseOf(log + [e], id) == Expected(id, known - {e.id}, {}, reported - {e.id}, next) {
      PhaseStep(log, e, id);
    }
  }

  /** The events of every device are in order. */
  lemma StoriesAreOrderly(log: seq<EncounterEvent>, known: set<DeviceID>, reported: set<DeviceID>, next: int)
    requires Story(log, known, {}, reported, next)
    ensures forall id: DeviceID :: Orderly(Kinds(log, id))
  {
    forall id: DeviceID ensures Orderly(Kinds(log, id)) {
      PhaseIsOrder(log, id);
    }
  }

  // ---------------------------------------------------------------- what has been told

  /** The devices of which something has been reported. */
  ghost function Begun(images: map<DeviceID, Image>): set<DeviceID> {
    set id | id in images && images[id].reports.started
  }

  /** The log has all that has been reported of the devices. */
  ghost predicate Recorded(log: seq<EncounterEvent>, images: map<DeviceID, Image>) {
    forall id :: id in images ==> images[id].reports == ReportsIn(log, id, images[id].listened)
  }

  /** The log tells how far the story of every device has got, and all that has been reported of the known ones. */
  ghost predicate Chronicle(log: seq<EncounterEvent>, images: map<DeviceID, Image>, known: set<DeviceID>,
                            unannounced: set<DeviceID>, next: int) {
    forall k: nat :: Look(OfEvents, k) ==>
      && Story(log, known, unannounced, Begun(images), next)
      && Recorded(log, images)
  }

  /** What an encounter has to tell has been told, but for measurements. */
  predicate Told(im: Image) {
    im.confirmed && im.shakenHands ==>
      im.reports.started && im.state.secrets.toReport == [] && !im.updatedMatching
  }

  ghost predicate AllTold(images: map<DeviceID, Image>, ids: set<DeviceID>) {
    forall k: nat :: Look(OfEvents, k) ==> forall id :: id in ids && id in images ==> Told(images[id])
  }

  /** The radio has shaken hands with exactly the devices that the policy takes for encounters. */
  ghost predicate Agreed(table: map<DeviceID, DeviceInfo>, images: map<DeviceID, Image>) {
    forall k: nat :: Look(OfEvents, k) ==>
      forall id :: id in images ==> (images[id].shakenHands <==> id in table && table[id].state == Encountered)
  }

  ghost function EventIds(events: seq<EncounterEvent>): set<DeviceID> {
    set e | e in events :: e.id
  }

  /** There is one event for each of the ids. */
  ghost predicate OnceFor(events: seq<EncounterEvent>, ids: set<DeviceID>) {
    forall k: nat :: Look(OfEvents, k) ==>
      EventIds(events) == ids && forall i, j :: 0 <= i < j < |events| ==> events[i].id != events[j].id
  }

  lemma OneMoreEvent(events: seq<EncounterEvent>, ids: set<DeviceID>, e: EncounterEvent)
    requires OnceFor(events, ids) && e.id !in ids
    ensures OnceFor(events + [e], ids + {e.id})
  {
    assert Look(OfEvents, 0);
    var now := events + [e];
    assert forall x :: x in now <==> x in events || x == e;
    forall i, j | 0 <= i < j < |now| ensures now[i].id != now[j].id {
      if j == |events| { assert events[i] in events && events[i].id in EventIds(events); }
    }
  }

  /** Hearing does not change what has been reported, and what is not heard has nothing more to tell. */
  lemma HeardOn(log: seq<EncounterEvent>, before: map<DeviceID, Image>, next: int, now: map<DeviceID, Image>,
                nextNow: int, heard: set<DeviceID>, table: map<DeviceID, DeviceInfo>)
    requires Chronicle(log, before, before.Keys, {}, next) && Grows(before, next, now, nextNow, heard)
    requires AllTold(before, before.Keys) && Agreed(table, before) && table.Keys == before.Keys
    ensures Chronicle(log, now, before.Keys, heard - before.Keys, nextNow)
    ensures AllTold(now, now.Keys - heard) && Agreed(table, now)
  {
    assert Look(OfEvents, 0) && Look(OfImages, 0);
    assert forall id :: id in Begun(now) <==> id in Begun(before);
    assert Begun(now) == Begun(before);
    var unannounced := heard - before.Keys;
    forall id: DeviceID
      ensures PhaseOf(log, id) == Expected(id, before.Keys, unannounced, Begun(now), nextNow)
    {
      assert PhaseOf(log, id) == Expected(id, before.Keys, {}, Begun(before), next);
      if id in unannounced { assert id in now && id !in before; }
      assert next <= id < nextNow ==> id in now && id in before.Keys + heard;
    }
    forall id | id in now ensures now[id].reports == ReportsIn(log, id, now[id].listened) {
      if id !in before { NothingReported(log, id, now[id].listened); }
    }
  }

  /** Shaking hands goes with the policy, and tells nothing. */
  lemma ShakenOn(log: seq<EncounterEvent>, before: map<DeviceID, Image>, now: map<DeviceID, Image>,
                 known: set<DeviceID>, unannounced: set<DeviceID>, next: int, ids: set<DeviceID>, told: set<DeviceID>)
    requires Chronicle(log, before, known, unannounced, next) && Shaken(before, now, ids)
    requires AllTold(before, told) && told !! ids
    ensures Chronicle(log, now, known, unannounced, next) && AllTold(now, told) && now.Keys == before.Keys
  {
    assert Look(OfEvents, 0) && Look(OfImages, 0);
    assert forall id :: id in Begun(now) <==> id in Begun(before);
    assert Begun(now) == Begun(before);
  }

  lemma AnnouncedOn(log: seq<EncounterEvent>, images: map<DeviceID, Image>, known: set<DeviceID>,
                    unannounced: set<DeviceID>, next: int, time: nat, id: DeviceID)
    requires Chronicle(log, images, known, unannounced, next) && id in unannounced
    ensures Chronicle(log + [Announcement(id, time)], images, known + {id}, unannounced - {id}, next)
  {
    assert Look(OfEvents, 0);
    var e := Announcement(id, time);
    Announced(log, known, unannounced, Begun(images), next, e);
    forall i | i in images ensures images[i].reports == ReportsIn(log + [e], i, images[i].listened) {
      ReportsStep(log, e, i, images[i].listened);
    }
  }

  function Announcement(id: DeviceID, time: nat): EncounterEvent {
    Blank(time).(kind := UnconfirmedStarted, id := id)
  }

  /** News that is told is in the log. */
  lemma NewsOn(log: seq<EncounterEvent>, before: map<DeviceID, Image>, now: map<DeviceID, Image>, next: int,
               e: EncounterEvent, time: nat, later: nat, interval: nat)
    requires Chronicle(log, before, before.Keys, {}, next) && e.id in before
    requires Asked(before, now, e.id, time, later, interval, true, e)
    ensures Chronicle(log + [e], now, now.Keys, {}, next)
  {
    assert Look(OfEvents, 0);
    ReportedOn(log, before.Keys, Begun(before), next, e);
    assert forall id :: id in Begun(now) <==> id in Begun(before) + {e.id};
    assert Begun(now) == Begun(before) + {e.id};
    forall i | i in now ensures now[i].reports == ReportsIn(log + [e], i, now[i].listened) {
      ReportsStep(log, e, i, now[i].listened);
    }
  }

  lemma EndedOn(log: seq<EncounterEvent>, images: map<DeviceID, Image>, next: int, e: EncounterEvent)
    requires Chronicle(log, images, images.Keys, {}, next) && e.id in images && 0 <= e.id < next && e.kind == Ended
    ensures Chronicle(log + [e], images - {e.id}, images.Keys - {e.id}, {}, next)
  {
    assert Look(OfEvents, 0);
    var now := images - {e.id};
    OverNow(log, images.Keys, Begun(images), next, e);
    assert Begun(now) == Begun(images) - {e.id};
    forall i | i in now ensures now[i].reports == ReportsIn(log + [e], i, now[i].listened) {
      ReportsStep(log, e, i, now[i].listened);
    }
  }

  /** Nothing is told when only secrets that are not confirmed are added. */
  lemma SilentOn(log: seq<EncounterEvent>, before: map<DeviceID, Image>, now: map<DeviceID, Image>, next: int,
                 table: map<DeviceID, DeviceInfo>)
    requires Chronicle(log, before, before.Keys, {}, next) && AllTold(before, before.Keys) && Agreed(table, before)
    requires Silent(before, now)
    ensures Chronicle(log, now, now.Keys, {}, next) && AllTold(now, now.Keys) && Agreed(table, now)
  {
    assert Look(OfEvents, 0) && Look(OfImages, 0);
    assert forall id :: id in Begun(now) <==> id in Begun(before);
    assert Begun(now) == Begun(before);
    forall id | id in now ensures Told(now[id]) { assert Told(before[id]); }
  }

  lemma ChronicleIsOrderly(log: seq<EncounterEvent>, images: map<DeviceID, Image>, next: int)
    requires Chronicle(log, images, images.Keys, {}, next)
    ensures forall id: DeviceID :: Orderly(Kinds(log, id))
  {
    assert Look(OfEvents, 0);
    StoriesAreOrderly(log, images.Keys, Begun(images), next);
  }

  // ---------------------------------------------------------------- the news of a round

  /** Nothing is left to tell of a device that has been reported. */
  predicate Quiet(im: Image) {
    im.reports.started && im.state.secrets.toReport == [] && !im.updatedMatching && im.state.measurements == []
  }

  /** The device is the same, but for what has been told about it. */
  predicate OnlyTold(was: Image, im: Image) {
    && im.device == was.device && im.listened == was.listened && im.confirmed == was.confirmed
    && im.shakenHands == was.shakenHands && im.measured == was.measured && im.state.epochs == was.state.epochs
    && im.state.matching == was.state.matching && im.state.secrets.known == was.state.secrets.known
  }

  /** The device had news when it was asked about, at one of the first n events of the list. */
  ghost predicate HadNews(images: map<DeviceID, Image>, discovered: seq<DiscoverEvent>, n: nat, clock: nat -> nat,
                          interval: nat, id: DeviceID)
    requires n <= |discovered| && id in images
  {
    exists k: nat :: k < n && discovered[k].id == id && HasNewsIn(images[id], clock(3 * k + 1), interval)
  }

  ghost predicate TheseHadNews(images: map<DeviceID, Image>, discovered: seq<DiscoverEvent>, n: nat,
                               clock: nat -> nat, interval: nat, ids: set<DeviceID>)
    requires n <= |discovered|
  {
    forall id :: id in images ==> (id in ids <==> HadNews(images, discovered, n, clock, interval, id))
  }

  /** The event tells all the news of a device, which has none then. */
  predicate TellsIt(was: Image, im: Image, e: EncounterEvent) {
    TellsAll(was, e) && OnlyTold(was, im) && Quiet(im) && im.reports == WithEvent(was.reports, e)
  }

  ghost predicate AllTell(before: map<DeviceID, Image>, now: map<DeviceID, Image>, news: seq<EncounterEvent>)
    requires now.Keys == before.Keys
  {
    forall e :: e in news ==> e.id in before && TellsIt(before[e.id], now[e.id], e)
  }

  /**
   * Asking about the first n devices of the list: those that had news have told all of it in one event, and the others
   * are as they were.
   */
  ghost predicate NewsOf(before: map<DeviceID, Image>, now: map<DeviceID, Image>, discovered: seq<DiscoverEvent>,
                         n: nat, clock: nat -> nat, interval: nat, news: seq<EncounterEvent>)
  {
    forall k: nat :: Look(OfEvents, k) ==>
      && n <= |discovered| && now.Keys == before.Keys
      && OnceFor(news, EventIds(news)) && EventIds(news) <= before.Keys
      && TheseHadNews(before, discovered, n, clock, interval, EventIds(news))
      && (forall id :: id in before && id !in EventIds(news) ==> now[id] == before[id])
      && AllTell(before, now, news)
  }

  lemma NoNews(images: map<DeviceID, Image>, discovered: seq<DiscoverEvent>, clock: nat -> nat, interval: nat)
    ensures NewsOf(images, images, discovered, 0, clock, interval, [])
  {}

  lemma HadNewsOnce(images: map<DeviceID, Image>, discovered: seq<DiscoverEvent>, n: nat, clock: nat -> nat,
                    interval: nat, id: DeviceID)
    requires n < |discovered| && id in images
    ensures HadNews(images, discovered, n + 1, clock, interval, id)
      <==> HadNews(images, discovered, n, clock, interval, id)
           || (discovered[n].id == id && HasNewsIn(images[id], clock(3 * n + 1), interval))
  {
    if discovered[n].id == id && HasNewsIn(images[id], clock(3 * n + 1), interval) {
      assert HadNews(images, discovered, n + 1, clock, interval, id);
    }
  }

  /** Who had news, after one more device of the list. */
  lemma HadNewsAll(images: map<DeviceID, Image>, discovered: seq<DiscoverEvent>, n: nat, clock: nat -> nat,
                   interval: nat, ids: set<DeviceID>)
    requires n < |discovered|
    requires TheseHadNews(images, discovered, n, clock, interval, ids)
    ensures var id := discovered[n].id;
      TheseHadNews(images, discovered, n + 1, clock, interval,
                   if id in images && HasNewsIn(images[id], clock(3 * n + 1), interval) then ids + {id} else ids)
  {
    forall i | i in images
      ensures HadNews(images, discovered, n + 1, clock, interval, i)
        <==> HadNews(images, discovered, n, clock, interval, i)
             || (discovered[n].id == i && HasNewsIn(images[i], clock(3 * n + 1), interval))
    {
      HadNewsOnce(images, discovered, n, clock, interval, i);
    }
  }

  /** A device that has told its news has no more when it is asked about again. */
  lemma NotAgain(before: map<DeviceID, Image>, between: map<DeviceID, Image>, discovered: seq<DiscoverEvent>, n: nat,
                 clock: nat -> nat, interval: nat, news: seq<EncounterEvent>, id: DeviceID, time: nat)
    requires NewsOf(before, between, discovered, n, clock, interval, news) && id in between
    requires HasNewsIn(between[id], time, interval)
    ensures id in before && id !in EventIds(news) && between[id] == before[id]
  {
    assert Look(OfEvents, 0);
    assert forall x :: x in news ==> TellsIt(before[x.id], between[x.id], x);
  }

  /** Asking about one more device of the list, which has no news. */
  lemma OneMoreSilent(before: map<DeviceID, Image>, now: map<DeviceID, Image>, discovered: seq<DiscoverEvent>, n: nat,
                      clock: nat -> nat, interval: nat, news: seq<EncounterEvent>)
    requires NewsOf(before, now, discovered, n, clock, interval, news) && n < |discovered|
    requires discovered[n].id in now ==> !HasNewsIn(now[discovered[n].id], clock(3 * n + 1), interval)
    ensures NewsOf(before, now, discovered, n + 1, clock, interval, news)
  {
    assert Look(OfEvents, 0);
    var id := discovered[n].id;
    if id in now && id in EventIds(news) {
      assert HadNews(before, discovered, n, clock, interval, id);
    }
    HadNewsAll(before, discovered, n, clock, interval, EventIds(news));
  }

  /** Asking about one more device of the list, which has news. */
  lemma OneMoreTold(before: map<DeviceID, Image>, between: map<DeviceID, Image>, now: map<DeviceID, Image>,
                    discovered: seq<DiscoverEvent>, n: nat, clock: nat -> nat, interval: nat,
                    news: seq<EncounterEvent>, e: EncounterEvent)
    requires NewsOf(before, between, discovered, n, clock, interval, news) && n < |discovered|
    requires Asked(between, now, discovered[n].id, clock(3 * n + 1), clock(3 * n + 2), interval, true, e)
    ensures NewsOf(before, now, discovered, n + 1, clock, interval, news + [e])
  {
    var id := discovered[n].id;
    NotAgain(before, between, discovered, n, clock, interval, news, id, clock(3 * n + 1));
    assert Look(OfEvents, 0);
    HadNewsAll(before, discovered, n, clock, interval, EventIds(news));
    OneMoreEvent(news, EventIds(news), e);
    OneMoreTells(before, between, now, id, clock(3 * n + 1), clock(3 * n + 2), interval, news, e);
  }

  lemma OneMoreTells(before: map<DeviceID, Image>, between: map<DeviceID, Image>, now: map<DeviceID, Image>,
                     id: DeviceID, time: nat, later: nat, interval: nat, news: seq<EncounterEvent>, e: EncounterEvent)
    requires EventIds(news) <= before.Keys == between.Keys && id in before && id !in EventIds(news)
    requires between[id] == before[id] && Asked(between, now, id, time, later, interval, true, e)
    requires AllTell(before, between, news)
    ensures AllTell(before, now, news + [e])
  {
    forall x | x in news + [e] ensures x.id in before && TellsIt(before[x.id], now[x.id], x) {
      if x in news { assert x.id in EventIds(news) && TellsIt(before[x.id], between[x.id], x); }
    }
  }

  /** Asking about one more device of the list: the log goes on with what it tells. */
  lemma OneMoreAsked(log: seq<EncounterEvent>, next: int, before: map<DeviceID, Image>, between: map<DeviceID, Image>,
                     now: map<DeviceID, Image>, discovered: seq<DiscoverEvent>, n: nat, clock: nat -> nat,
                     interval: nat, news: seq<EncounterEvent>, success: bool, e: EncounterEvent)
    requires Chronicle(log, between, between.Keys, {}, next) && n < |discovered|
    requires NewsOf(before, between, discovered, n, clock, interval, news)
    requires Asked(between, now, discovered[n].id, clock(3 * n + 1), clock(3 * n + 2), interval, success, e)
    ensures var more := if success then [e] else [];
      && Chronicle(log + more, now, now.Keys, {}, next)
      && NewsOf(before, now, discovered, n + 1, clock, interval, news + more)
  {
    if success {
      OneMoreTold(before, between, now, discovered, n, clock, interval, news, e);
      NewsOn(log, between, now, next, e, clock(3 * n + 1), clock(3 * n + 2), interval);
    } else {
      forall i | i in now ensures now[i] == between[i] {}
      assert now == between;
      OneMoreSilent(before, between, discovered, n, clock, interval, news);
      assert log + [] == log && news + [] == news;
    }
  }

  /** Telling news does not change which devices are encounters. */
  lemma NewsKeep(before: map<DeviceID, Image>, now: map<DeviceID, Image>, discovered: seq<DiscoverEvent>,
                 clock: nat -> nat, interval: nat, news: seq<EncounterEvent>, table: map<DeviceID, DeviceInfo>)
    requires NewsOf(before, now, discovered, |discovered|, clock, interval, news) && Agreed(table, before)
    ensures now.Keys == before.Keys && Agreed(table, now)
  {
    assert Look(OfEvents, 0);
    forall id | id in now ensures now[id].shakenHands == before[id].shakenHands {
      if id in EventIds(news) {
        var e :| e in news && e.id == id;
        assert TellsIt(before[id], now[id], e);
      }
    }
  }

  /** After that, nothing but measurements is left to tell of the devices of the list. */
  lemma NewsAreTold(before: map<DeviceID, Image>, now: map<DeviceID, Image>, discovered: seq<DiscoverEvent>,
                    clock: nat -> nat, interval: nat, news: seq<EncounterEvent>)
    requires NewsOf(before, now, discovered, |discovered|, clock, interval, news)
    requires AllTold(before, before.Keys - Ids(discovered))
    requires forall id :: id in now ==>
      now[id].confirmed && now[id].state.secrets.toReport == [] ==> now[id].reports.started
    ensures AllTold(now, now.Keys)
  {
    assert Look(OfEvents, 0);
    forall id | id in now ensures Told(now[id]) {
      if id in EventIds(news) {
        var e :| e in news && e.id == id;
        assert TellsIt(before[id], now[id], e);
      } else if id in Ids(discovered) {
        var d :| d in discovered && d.id == id;
        var k: nat :| k < |discovered| && discovered[k] == d;
        assert !HadNews(before, discovered, |discovered|, clock, interval, id);
        assert !HasNewsIn(now[id], clock(3 * k + 1), interval);
      }
    }
  }

  /**
   * What a discovery round tells: what was discovered; what was known of the devices when they had been heard, when
   * they had been met, and when they had told their news; the table of the policy, and which of its devices have
   * expired; and the events of its three parts.
   */
  datatype Tale = Tale(
    discovered: seq<DiscoverEvent>, heard: map<DeviceID, Image>, met: map<DeviceID, Image>, told: map<DeviceID, Image>,
    table: map<DeviceID, DeviceInfo>, gone: set<DeviceID>,
    announced: seq<EncounterEvent>, news: seq<EncounterEvent>, ended: seq<EncounterEvent>)

  /** Those of the devices that the policy takes for encounters. */
  ghost function EncounteredOf(table: map<DeviceID, DeviceInfo>, ids: set<DeviceID>): set<DeviceID> {
    set id | id in ids && id in table && table[id].state == Encountered
  }

  /** The devices that are new, each announced once, at the time. */
  ghost predicate AnnouncedAre(announced: seq<EncounterEvent>, ids: set<DeviceID>, time: nat) {
    && OnceFor(announced, ids)
    && forall k: nat :: Look(OfEvents, k) ==> forall e :: e in announced ==> e == Announcement(e.id, time)
  }

  /** The devices that have expired, each ended once, with its last time and what was left of its measurements. */
  ghost predicate EndedAre(ended: seq<EncounterEvent>, ids: set<DeviceID>, table: map<DeviceID, DeviceInfo>,
                           images: map<DeviceID, Image>) {
    && OnceFor(ended, ids)
    && forall k: nat :: Look(OfEvents, k) ==> forall e :: e in ended ==>
      && e.id in table && e.id in images && e.time == table[e.id].lastTime && EndsWith(images[e.id], e)
  }

  lemma TheseAnnounced(announced: seq<EncounterEvent>, newly: seq<(DeviceID, nat)>, time: nat)
    requires |announced| == |newly| && OnceFor(announced, NewIds(newly)) && forall p :: p in newly ==> p.1 == time
    requires forall i :: 0 <= i < |newly| ==> announced[i] == Announcement(newly[i].0, newly[i].1)
    ensures AnnouncedAre(announced, NewIds(newly), time)
  {
    forall e | e in announced ensures e == Announcement(e.id, time) {
      var i :| 0 <= i < |announced| && announced[i] == e;
      assert newly[i] in newly;
    }
  }

  lemma TheseEnded(ended: seq<EncounterEvent>, expired: seq<(DeviceID, nat)>, table: map<DeviceID, DeviceInfo>,
                   images: map<DeviceID, Image>)
    requires |ended| == |expired| && NoRepeats(expired) && NewIds(expired) <= images.Keys
    requires forall p :: p in expired ==> p.0 in table && p.1 == table[p.0].lastTime
    requires forall i :: 0 <= i < |ended| ==>
      ended[i].id == expired[i].0 && ended[i].time == expired[i].1 && EndsWith(images[ended[i].id], ended[i])
    ensures EndedAre(ended, NewIds(expired), table, images)
  {
    forall e | e in ended
      ensures e.id in NewIds(expired) && e.time == table[e.id].lastTime && EndsWith(images[e.id], e)
    {
      var i :| 0 <= i < |ended| && ended[i] == e;
      assert expired[i] in expired;
    }
    forall id | id in NewIds(expired) ensures id in EventIds(ended) {
      var p :| p in expired && p.0 == id;
      var i :| 0 <= i < |expired| && expired[i] == p;
      assert ended[i] in ended;
    }
    forall id | id in NewIds(expired) ensures id in table { var p :| p in expired && p.0 == id; }
  }

  /** What holds of all devices holds of those that are left. */
  lemma LeftOver(table: map<DeviceID, DeviceInfo>, images: map<DeviceID, Image>, gone: set<DeviceID>)
    requires AllTold(images, images.Keys) && Agreed(table, images)
    ensures AllTold(images - gone, images.Keys - gone) && Agreed(table - gone, images - gone)
  {
    assert Look(OfEvents, 0);
  }
}
