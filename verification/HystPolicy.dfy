/**
 * When a device nearby counts as an encounter, and when the encounter is over, source/EbNHystPolicy.cpp. The time is
 * a parameter.
 */
module HystPolicy {
  import opened Device
  import opened Hiding

  datatype DiscoverEvent = DiscoverEvent(time: nat, id: DeviceID, rssi: int)

  datatype HystState = Discovered | Encountered

  datatype DeviceInfo = DeviceInfo(firstTime: nat, lastTime: nat, seen: nat, state: HystState)

  type Scheme = s: bv8 | s == 0 || s == 1 || s == 3

  const STANDARD: Scheme := 0
  const IMMEDIATE: Scheme := 1
  const IMMEDIATE_NO_MEM: Scheme := 3

  function Ids(events: seq<DiscoverEvent>): set<DeviceID> {
    set e | e in events :: e.id
  }

  function NewIds(newly: seq<(DeviceID, nat)>): set<DeviceID> {
    set p | p in newly :: p.0
  }

  /** No id is listed twice. */
  predicate NoRepeats(newly: seq<(DeviceID, nat)>) {
    forall i, j :: 0 <= i < j < |newly| ==> newly[i].0 != newly[j].0
  }

  /** How often a device was heard with enough strength. */
  function Strong(events: seq<DiscoverEvent>, id: DeviceID, threshold: int): nat {
    if |events| == 0 then 0
    else var e := events[|events| - 1];
      Strong(events[..|events| - 1], id, threshold) + (if e.id == id && e.rssi > threshold then 1 else 0)
  }

  class EbNHystPolicy {
    const scheme: Scheme
    const minStartTime: nat
    const maxStartTime: nat
    const startSeen: nat
    const endTime: nat
    const rssiThreshold: int
    var deviceInfo: map<DeviceID, DeviceInfo>

    constructor (scheme: Scheme, minStartTime: nat, maxStartTime: nat, startSeen: nat, endTime: nat, rssiThreshold: int)
      ensures deviceInfo == map[] && this.scheme == scheme && this.rssiThreshold == rssiThreshold
      ensures this.minStartTime == minStartTime && this.maxStartTime == maxStartTime
      ensures this.startSeen == startSeen && this.endTime == endTime
    {
      this.scheme, this.minStartTime, this.maxStartTime := scheme, minStartTime, maxStartTime;
      this.startSeen, this.endTime, this.rssiThreshold := startSeen, endTime, rssiThreshold;
      deviceInfo := map[];
    }

    /** A device that has been heard often and long enough is an encounter. */
    predicate Qualifies(info: DeviceInfo) {
      info.seen >= startSeen && Elapsed(info.lastTime, info.firstTime) >= minStartTime
    }

    /** What the table holds about a device after it was heard at a time, given how often it was heard well. */
    function Heard(before: map<DeviceID, DeviceInfo>, id: DeviceID, time: nat, strong: nat): DeviceInfo {
      var was := if id in before then before[id] else DeviceInfo(time, time, 0, Discovered);
      var now := was.(lastTime := time, seen := was.seen + strong);
      if Qualifies(now) then now.(state := Encountered) else now
    }

    ghost predicate TableAfter(table: map<DeviceID, DeviceInfo>, before: map<DeviceID, DeviceInfo>,
                               events: seq<DiscoverEvent>, time: nat) {
      && table.Keys == before.Keys + Ids(events)
      && (forall id :: id in Ids(events) ==> table[id] == Heard(before, id, time, Strong(events, id, rssiThreshold)))
      && (forall id :: id in before && id !in Ids(events) ==> table[id] == before[id])
    }

    /** The table that this makes. */
    ghost function TableOf(before: map<DeviceID, DeviceInfo>, events: seq<DiscoverEvent>, time: nat)
        : map<DeviceID, DeviceInfo> {
      map id | id in before.Keys + Ids(events) ::
        if id in Ids(events) then Heard(before, id, time, Strong(events, id, rssiThreshold)) else before[id]
    }

    lemma TableIs(table: map<DeviceID, DeviceInfo>, before: map<DeviceID, DeviceInfo>, events: seq<DiscoverEvent>,
                  time: nat)
      requires TableAfter(table, before, events, time)
      ensures table == TableOf(before, events, time)
    {
      var r := TableOf(before, events, time);
      assert table.Keys == r.Keys;
      forall id | id in table ensures table[id] == r[id] {}
    }

    ghost predicate ToHandshake(table: map<DeviceID, DeviceInfo>, events: seq<DiscoverEvent>,
                                toHandshake: set<DeviceID>)
    {
      && toHandshake <= Ids(events) <= table.Keys
      && forall id :: id in Ids(events) ==> (id in toHandshake <==> table[id].state == Encountered)
    }

    ghost predicate NewlyFound(before: map<DeviceID, DeviceInfo>, events: seq<DiscoverEvent>, time: nat,
                               newly: seq<(DeviceID, nat)>) {
      && NoRepeats(newly) && NewIds(newly) == Ids(events) - before.Keys
      && (forall p :: p in newly ==> p.1 == time)
    }

    /** The table and the results after some events, with memory. */
    ghost predicate After(table: map<DeviceID, DeviceInfo>, before: map<DeviceID, DeviceInfo>,
                          events: seq<DiscoverEvent>, time: nat, toHandshake: set<DeviceID>,
                          newly: seq<(DeviceID, nat)>) {
      forall k: nat :: Look(OfEvents, k) ==>
        && TableAfter(table, before, events, time) && ToHandshake(table, events, toHandshake)
        && NewlyFound(before, events, time, newly)
    }

    /** The results after some events, without memory. */
    ghost predicate AllTaken(events: seq<DiscoverEvent>, time: nat, toHandshake: set<DeviceID>,
                             newly: seq<(DeviceID, nat)>) {
      && toHandshake == Ids(events) && |newly| == |events|
      && forall i :: 0 <= i < |events| ==> newly[i] == (events[i].id, time)
    }

    function StrongOne(e: DiscoverEvent): nat {
      if e.rssi > rssiThreshold then 1 else 0
    }

    /** One round of the loop, with memory. */
    method HearDevice(discovery: DiscoverEvent, time: nat, toHandshake0: set<DeviceID>, newly0: seq<(DeviceID, nat)>)
      returns (toHandshake: set<DeviceID>, newly: seq<(DeviceID, nat)>)
      requires scheme == STANDARD
      modifies this
      ensures var id, before := discovery.id, old(deviceInfo);
        && deviceInfo == before[id := Heard(before, id, time, StrongOne(discovery))]
        && toHandshake == (if deviceInfo[id].state == Encountered then toHandshake0 + {id} else toHandshake0)
        && newly == (if id in before then newly0 else newly0 + [(id, time)])
    {
      toHandshake, newly := toHandshake0, newly0;
      if discovery.id !in deviceInfo {
        deviceInfo := deviceInfo[discovery.id := DeviceInfo(time, time, 0, Discovered)];
        newly := newly + [(discovery.id, time)];
      }
      var info := deviceInfo[discovery.id];
      info := info.(lastTime := time);
      if discovery.rssi > rssiThreshold {
        info := info.(seen := info.seen + 1);
      }
      match info.state {
        case Discovered =>
          if (info.seen >= startSeen && Elapsed(info.lastTime, info.firstTime) >= minStartTime)
             || scheme & IMMEDIATE != 0 {
            info := info.(state := Encountered);
            toHandshake := toHandshake + {discovery.id};
          }
        case Encountered =>
          toHandshake := toHandshake + {discovery.id};
      }
      deviceInfo := deviceInfo[discovery.id := info];
    }

    /** What one more event makes of the table. */
    lemma OneMoreHeard(table: map<DeviceID, DeviceInfo>, before: map<DeviceID, DeviceInfo>, events: seq<DiscoverEvent>,
                       e: DiscoverEvent, time: nat)
      requires TableAfter(table, before, events, time)
      ensures TableAfter(table[e.id := Heard(table, e.id, time, StrongOne(e))], before, events + [e], time)
    {
      OneMoreId(events, e);
      StrongStep(events, e, e.id, rssiThreshold);
      if e.id !in Ids(events) { NotHeard(events, e.id, rssiThreshold); }
      assert Heard(table, e.id, time, StrongOne(e))
        == Heard(before, e.id, time, Strong(events + [e], e.id, rssiThreshold));
      forall id | id in Ids(events) && id != e.id
        ensures Strong(events + [e], id, rssiThreshold) == Strong(events, id, rssiThreshold)
      {
        StrongStep(events, e, id, rssiThreshold);
      }
    }

    lemma OneMoreToHandshake(table: map<DeviceID, DeviceInfo>, events: seq<DiscoverEvent>, e: DiscoverEvent,
                             toHandshake: set<DeviceID>, info: DeviceInfo)
      requires ToHandshake(table, events, toHandshake)
      requires e.id in toHandshake ==> info.state == Encountered
      ensures ToHandshake(table[e.id := info], events + [e],
                          if info.state == Encountered then toHandshake + {e.id} else toHandshake)
    {
      OneMoreId(events, e);
    }

    lemma OneMoreFound(before: map<DeviceID, DeviceInfo>, events: seq<DiscoverEvent>, e: DiscoverEvent, time: nat,
                       newly: seq<(DeviceID, nat)>)
      requires NewlyFound(before, events, time, newly)
      ensures NewlyFound(before, events + [e], time,
                         if e.id in before.Keys + Ids(events) then newly else newly + [(e.id, time)])
    {
      OneMoreId(events, e);
      if e.id !in before.Keys + Ids(events) { ListedOnce(newly, e.id, time); }
    }

    /** What one more event makes of the table and of the results. */
    lemma OneMore(table: map<DeviceID, DeviceInfo>, before: map<DeviceID, DeviceInfo>, events: seq<DiscoverEvent>,
                  e: DiscoverEvent, time: nat, toHandshake: set<DeviceID>, newly: seq<(DeviceID, nat)>)
      requires After(table, before, events, time, toHandshake, newly)
      ensures var next := table[e.id := Heard(table, e.id, time, StrongOne(e))];
        After(next, before, events + [e], time,
              if next[e.id].state == Encountered then toHandshake + {e.id} else toHandshake,
              if e.id in table then newly else newly + [(e.id, time)])
    {
      assert Look(OfEvents, 0);
      OneMoreHeard(table, before, events, e, time);
      OneMoreToHandshake(table, events, e, toHandshake, Heard(table, e.id, time, StrongOne(e)));
      OneMoreFound(before, events, e, time, newly);
    }

    /** One round of the loop without memory. */
    lemma OneMoreTaken(events: seq<DiscoverEvent>, e: DiscoverEvent, time: nat, toHandshake: set<DeviceID>,
                       newly: seq<(DeviceID, nat)>)
      requires AllTaken(events, time, toHandshake, newly)
      ensures AllTaken(events + [e], time, toHandshake + {e.id}, newly + [(e.id, time)])
    {
      OneMoreId(events, e);
    }

    /**
     * discovered. With memory, which is the Standard scheme only, the table then holds every device heard, with all it
     * takes to decide if it is an encounter; the newly discovered ones are listed once. Both other schemes have a bit
     * in common with ImmediateNoMem, so they leave the table alone and take every event for a new encounter.
     */
    method Discover(events: seq<DiscoverEvent>, time: nat)
      returns (toHandshake: set<DeviceID>, newly: seq<(DeviceID, nat)>)
      modifies this
      ensures scheme == STANDARD ==> After(deviceInfo, old(deviceInfo), events, time, toHandshake, newly)
      ensures scheme != STANDARD ==> deviceInfo == old(deviceInfo) && AllTaken(events, time, toHandshake, newly)
    {
      toHandshake, newly := {}, [];
      ghost var before := deviceInfo;
      var k := 0;
      while k < |events|
        invariant k <= |events|
        invariant scheme == STANDARD ==> After(deviceInfo, before, events[..k], time, toHandshake, newly)
        invariant scheme != STANDARD ==> deviceInfo == before && AllTaken(events[..k], time, toHandshake, newly)
      {
        assert events[..k + 1] == events[..k] + [events[k]];
        if scheme & IMMEDIATE_NO_MEM == 0 {
          OneMore(deviceInfo, before, events[..k], events[k], time, toHandshake, newly);
          toHandshake, newly := HearDevice(events[k], time, toHandshake, newly);
        } else {
          OneMoreTaken(events[..k], events[k], time, toHandshake, newly);
          newly := newly + [(events[k].id, time)];
          toHandshake := toHandshake + {events[k].id};
        }
        k := k + 1;
      }
      assert events[..k] == events;
    }

    /** What the table holds about a device that has been confirmed. */
    function Met(before: map<DeviceID, DeviceInfo>, id: DeviceID, time: nat): DeviceInfo {
      if id in before then before[id].(state := Encountered) else DeviceInfo(time, time, 0, Encountered)
    }

    ghost predicate AllMet(table: map<DeviceID, DeviceInfo>, before: map<DeviceID, DeviceInfo>, devices: set<DeviceID>,
                           time: nat) {
      && table.Keys == before.Keys + devices
      && (forall id :: id in devices ==> table[id] == Met(before, id, time))
      && (forall id :: id in before && id !in devices ==> table[id] == before[id])
    }

    lemma OneMoreMet(table: map<DeviceID, DeviceInfo>, before: map<DeviceID, DeviceInfo>, met: set<DeviceID>,
                     left: set<DeviceID>, devices: set<DeviceID>, id: DeviceID, time: nat)
      requires left <= devices && id in left && met == devices - left && AllMet(table, before, met, time)
      ensures AllMet(table[id := Met(table, id, time)], before, devices - (left - {id}), time)
    {
      assert devices - (left - {id}) == met + {id};
    }

    /** encountered. */
    method Encounter(devices: set<DeviceID>, time: nat)
      modifies this
      ensures AllMet(deviceInfo, old(deviceInfo), devices, time)
    {
      ghost var before := deviceInfo;
      var left := devices;
      while left != {}
        invariant left <= devices && AllMet(deviceInfo, before, devices - left, time)
        decreases |left|
      {
        HasElement(left);
        var id :| id in left;
        OneMoreMet(deviceInfo, before, devices - left, left, devices, id, time);
        left := left - {id};
        if id !in deviceInfo {
          deviceInfo := deviceInfo[id := DeviceInfo(time, time, 0, Encountered)];
        } else {
          deviceInfo := deviceInfo[id := deviceInfo[id].(state := Encountered)];
        }
      }
      assert devices - left == devices;
    }

    /** A device has not been heard for too long. */
    predicate HasExpired(info: DeviceInfo, time: nat) {
      match info.state
      case Discovered => Elapsed(time, info.lastTime) > maxStartTime
      case Encountered => Elapsed(time, info.lastTime) > endTime
    }

    ghost function ExpiredOf(table: map<DeviceID, DeviceInfo>, time: nat): set<DeviceID> {
      set id | id in table && HasExpired(table[id], time)
    }

    /** The table and the list after all devices but some have been looked at. */
    ghost predicate Expired(table: map<DeviceID, DeviceInfo>, before: map<DeviceID, DeviceInfo>, left: set<DeviceID>,
                            toRemove: seq<(DeviceID, nat)>, time: nat) {
      && NoRepeats(toRemove) && table == before - NewIds(toRemove)
      && NewIds(toRemove) == (set id | id in before && id !in left && HasExpired(before[id], time))
      && (forall p :: p in toRemove ==> p.0 in before && p.1 == before[p.0].lastTime)
    }

    lemma OneMoreExpired(table: map<DeviceID, DeviceInfo>, before: map<DeviceID, DeviceInfo>, left: set<DeviceID>,
                         toRemove: seq<(DeviceID, nat)>, time: nat, id: DeviceID)
      requires Expired(table, before, left, toRemove, time) && id in left && id in before
      ensures id in table && table[id] == before[id]
      ensures if HasExpired(before[id], time)
              then Expired(table - {id}, before, left - {id}, toRemove + [(id, before[id].lastTime)], time)
              else Expired(table, before, left - {id}, toRemove, time)
    {
      assert id !in NewIds(toRemove);
      ListedOnce(toRemove, id, before[id].lastTime);
      assert table - {id} == before - (NewIds(toRemove) + {id});
    }

    /** checkExpired: exactly the devices that have expired are taken out and listed, each of them once. */
    method CheckExpired(time: nat) returns (toRemove: seq<(DeviceID, nat)>)
      modifies this
      ensures NoRepeats(toRemove)
      ensures NewIds(toRemove) == ExpiredOf(old(deviceInfo), time)
      ensures deviceInfo == old(deviceInfo) - NewIds(toRemove)
      ensures forall p :: p in toRemove ==> p.0 in old(deviceInfo) && p.1 == old(deviceInfo)[p.0].lastTime
    {
      toRemove := [];
      ghost var before := deviceInfo;
      var left := deviceInfo.Keys;
      while left != {}
        invariant left <= before.Keys && Expired(deviceInfo, before, left, toRemove, time)
        decreases |left|
      {
        HasElement(left);
        var id :| id in left;
        OneMoreExpired(deviceInfo, before, left, toRemove, time, id);
        left := left - {id};
        if HasExpired(deviceInfo[id], time) {
          toRemove := toRemove + [(id, deviceInfo[id].lastTime)];
          deviceInfo := deviceInfo - {id};
        }
      }
    }
  }

  lemma StrongStep(events: seq<DiscoverEvent>, e: DiscoverEvent, id: DeviceID, threshold: int)
    ensures Strong(events + [e], id, threshold) ==
      Strong(events, id, threshold) + (if e.id == id && e.rssi > threshold then 1 else 0)
  {
    assert (events + [e])[..|events|] == events;
  }

  lemma OneMoreId(events: seq<DiscoverEvent>, e: DiscoverEvent)
    ensures Ids(events + [e]) == Ids(events) + {e.id}
  {
    assert forall x :: x in events + [e] <==> x in events || x == e;
  }

  lemma {:induction false} NotHeard(events: seq<DiscoverEvent>, id: DeviceID, threshold: int)
    requires id !in Ids(events)
    ensures Strong(events, id, threshold) == 0
  {
    if |events| > 0 {
      var front, e := events[..|events| - 1], events[|events| - 1];
      assert e in events && forall x :: x in front ==> x in events;
      NotHeard(front, id, threshold);
    }
  }

  lemma ListedOnce(list: seq<(DeviceID, nat)>, id: DeviceID, time: nat)
    requires NoRepeats(list) && id !in NewIds(list)
    ensures NoRepeats(list + [(id, time)]) && NewIds(list + [(id, time)]) == NewIds(list) + {id}
  {
    assert forall p :: p in list + [(id, time)] <==> p in list || p == (id, time);
    assert forall p :: p in list ==> p.0 in NewIds(list);
  }
}
