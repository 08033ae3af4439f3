/**
 * What the limits of source/EbNHystPolicy.cpp mean over any number of discovery rounds: when a device is in the table
 * of the policy, and when it is an encounter.
 */
module PolicyLimits {
  import opened Device
  import opened HystPolicy

  /** A discovery round: what was discovered, when the policy heard of it, and when it looked for expired devices. */
  datatype Discovery = Discovery(events: seq<DiscoverEvent>, time: nat, expireTime: nat)

  /** Time goes on within and between the rounds. */
  ghost predicate TimeGoesOn(rounds: seq<Discovery>) {
    && (forall i :: 0 <= i < |rounds| ==> rounds[i].time <= rounds[i].expireTime)
    && (forall i, j :: 0 <= i < j < |rounds| ==> rounds[i].expireTime <= rounds[j].time)
  }

  /** The table after the rounds, as the policy makes it. */
  ghost function TableAfterAll(policy: EbNHystPolicy, rounds: seq<Discovery>): map<DeviceID, DeviceInfo> {
    if |rounds| == 0 then map[]
    else
      var r := rounds[|rounds| - 1];
      var table := policy.TableOf(TableAfterAll(policy, rounds[..|rounds| - 1]), r.events, r.time);
      table - policy.ExpiredOf(table, r.expireTime)
  }

  lemma OneMoreRound(policy: EbNHystPolicy, rounds: seq<Discovery>, r: Discovery)
    ensures var table := policy.TableOf(TableAfterAll(policy, rounds), r.events, r.time);
      TableAfterAll(policy, rounds + [r]) == table - policy.ExpiredOf(table, r.expireTime)
  {
    assert (rounds + [r])[..|rounds|] == rounds;
  }

  // ---------------------------------------------------------------- the limits

  /** In a round the device was heard, so often with enough strength. */
  datatype Sighting = Sighting(time: nat, strong: nat)

  function Total(seen: seq<Sighting>): nat {
    if |seen| == 0 then 0 else Total(seen[..|seen| - 1]) + seen[|seen| - 1].strong
  }

  /** The device has been heard well startSeen times, and for minStartTime. */
  predicate LongEnough(policy: EbNHystPolicy, seen: seq<Sighting>)
    requires |seen| > 0
  {
    Total(seen) >= policy.startSeen && seen[|seen| - 1].time - seen[0].time >= policy.minStartTime
  }

  /** How long the device may be silent: an encounter lasts for endTime, and others are forgotten after maxStartTime. */
  function Patience(policy: EbNHystPolicy, seen: seq<Sighting>): nat
    requires |seen| > 0
  {
    if LongEnough(policy, seen) then policy.endTime else policy.maxStartTime
  }

  /** The rounds in which a device was heard since it was silent for too long. */
  function SeenSince(policy: EbNHystPolicy, rounds: seq<Discovery>, id: DeviceID): seq<Sighting> {
    if |rounds| == 0 then []
    else
      AfterRound(policy, SeenSince(policy, rounds[..|rounds| - 1], id), rounds[|rounds| - 1], id)
  }

  /** What the table then holds. */
  function InfoOf(policy: EbNHystPolicy, seen: seq<Sighting>): DeviceInfo
    requires |seen| > 0 && seen[0].time <= seen[|seen| - 1].time
  {
    DeviceInfo(seen[0].time, seen[|seen| - 1].time, Total(seen),
               if LongEnough(policy, seen) then Encountered else Discovered)
  }

  predicate Rising(seen: seq<Sighting>) {
    forall i, j :: 0 <= i < j < |seen| ==> seen[i].time <= seen[j].time
  }

  /** The device is in the table exactly if it has been heard since it was silent for too long. */
  ghost predicate Holds(policy: EbNHystPolicy, table: map<DeviceID, DeviceInfo>, id: DeviceID, seen: seq<Sighting>) {
    && Rising(seen) && (id in table <==> seen != [])
    && (seen != [] ==> table[id] == InfoOf(policy, seen))
  }

  function WithSighting(seen: seq<Sighting>, time: nat, strong: nat): (more: seq<Sighting>)
    ensures |more| > 0 && more[0].time == (if seen == [] then time else seen[0].time)
    ensures more[|more| - 1].time == time && Total(more) == Total(seen) + strong
  {
    var more := seen + [Sighting(time, strong)];
    assert more[..|more| - 1] == seen;
    more
  }

  /** Hearing it once more. */
  lemma OneMoreSighting(policy: EbNHystPolicy, table: map<DeviceID, DeviceInfo>, id: DeviceID, seen: seq<Sighting>,
                        time: nat, strong: nat)
    requires Holds(policy, table, id, seen) && UpTo(seen, time)
    ensures var more := WithSighting(seen, time, strong);
      more[0].time <= time && policy.Heard(table, id, time, strong) == InfoOf(policy, more)
  {
    var more := WithSighting(seen, time, strong);
    if seen != [] { assert seen[0].time <= seen[|seen| - 1].time <= time; }
    assert Elapsed(time, more[0].time) == time - more[0].time;
  }

  predicate UpTo(seen: seq<Sighting>, time: nat) {
    forall i :: 0 <= i < |seen| ==> seen[i].time <= time
  }

  /** A round has been discovered. */
  function AfterEvents(policy: EbNHystPolicy, seen: seq<Sighting>, r: Discovery, id: DeviceID): seq<Sighting> {
    if id in Ids(r.events) then WithSighting(seen, r.time, Strong(r.events, id, policy.rssiThreshold)) else seen
  }

  lemma EventsKeep(policy: EbNHystPolicy, table: map<DeviceID, DeviceInfo>, id: DeviceID, seen: seq<Sighting>,
                   r: Discovery)
    requires Holds(policy, table, id, seen) && UpTo(seen, r.time)
    ensures Holds(policy, policy.TableOf(table, r.events, r.time), id, AfterEvents(policy, seen, r, id))
    ensures UpTo(AfterEvents(policy, seen, r, id), r.time)
  {
    if id in Ids(r.events) {
      OneMoreSighting(policy, table, id, seen, r.time, Strong(r.events, id, policy.rssiThreshold));
    }
  }

  lemma SilentTooLong(policy: EbNHystPolicy, table: map<DeviceID, DeviceInfo>, id: DeviceID, seen: seq<Sighting>,
                      time: nat)
    requires Holds(policy, table, id, seen) && UpTo(seen, time)
    ensures Holds(policy, table - policy.ExpiredOf(table, time), id,
                  if |seen| > 0 && time - seen[|seen| - 1].time > Patience(policy, seen) then [] else seen)
  {}

  /**
   * After any number of rounds a device is in the table exactly if it has been heard and then never been silent for
   * longer than its limit; it is an encounter exactly if it has been heard well often enough and for long enough since
   * then.
   */
  lemma {:induction false} LimitsHold(policy: EbNHystPolicy, rounds: seq<Discovery>, id: DeviceID)
    requires TimeGoesOn(rounds)
    ensures Holds(policy, TableAfterAll(policy, rounds), id, SeenSince(policy, rounds, id))
    ensures |rounds| > 0 ==> UpTo(SeenSince(policy, rounds, id), rounds[|rounds| - 1].time)
  {
    if |rounds| > 0 {
      var front, r := rounds[..|rounds| - 1], rounds[|rounds| - 1];
      LimitsHold(policy, front, id);
      var before, seen := TableAfterAll(policy, front), SeenSince(policy, front, id);
      LastTime(rounds, seen);
      RoundHolds(policy, before, id, seen, r, policy.TableOf(before, r.events, r.time));
    }
  }

  /** What is left when the policy has looked for expired devices. */
  function AfterRound(policy: EbNHystPolicy, before: seq<Sighting>, r: Discovery, id: DeviceID): seq<Sighting> {
    var seen := AfterEvents(policy, before, r, id);
    if |seen| > 0 && r.expireTime - seen[|seen| - 1].time > Patience(policy, seen) then [] else seen
  }

  lemma RoundHolds(policy: EbNHystPolicy, before: map<DeviceID, DeviceInfo>, id: DeviceID, seen: seq<Sighting>,
                   r: Discovery, table: map<DeviceID, DeviceInfo>)
    requires Holds(policy, before, id, seen) && UpTo(seen, r.time) && r.time <= r.expireTime
    requires table == policy.TableOf(before, r.events, r.time)
    ensures Holds(policy, table - policy.ExpiredOf(table, r.expireTime), id, AfterRound(policy, seen, r, id))
    ensures UpTo(AfterRound(policy, seen, r, id), r.time)
  {
    EventsKeep(policy, before, id, seen, r);
    RestHolds(policy, table, id, AfterEvents(policy, seen, r, id), r);
  }

  lemma RestHolds(policy: EbNHystPolicy, table: map<DeviceID, DeviceInfo>, id: DeviceID, seen: seq<Sighting>,
                  r: Discovery)
    requires Holds(policy, table, id, seen) && UpTo(seen, r.time) && r.time <= r.expireTime
    ensures var left :=
        if |seen| > 0 && r.expireTime - seen[|seen| - 1].time > Patience(policy, seen) then [] else seen;
      Holds(policy, table - policy.ExpiredOf(table, r.expireTime), id, left) && UpTo(left, r.time)
  {
    SilentTooLong(policy, table, id, seen, r.expireTime);
  }

  lemma LastTime(rounds: seq<Discovery>, seen: seq<Sighting>)
    requires TimeGoesOn(rounds) && |rounds| > 0 && (|rounds| == 1 ==> seen == [])
    requires |rounds| > 1 ==> UpTo(seen, rounds[|rounds| - 2].time)
    ensures UpTo(seen, rounds[|rounds| - 1].time)
  {
    if |rounds| > 1 {
      assert rounds[|rounds| - 2].time <= rounds[|rounds| - 2].expireTime <= rounds[|rounds| - 1].time;
    }
  }
}
