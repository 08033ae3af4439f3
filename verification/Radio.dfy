/** What the radios have in common, source/EbNRadio.cpp. */
module Radio {
  import opened BloomFilter
  import opened Device
  import opened Hiding

  datatype ConfirmType = NoConfirm | PassiveConfirm | ActiveConfirm | HybridConfirm

  predicate HasPassive(t: ConfirmType) {
    t == PassiveConfirm || t == HybridConfirm
  }

  const BF_N: nat := 256
  const BF_N_PASSIVE: nat := 128
  const EPOCH_INTERVAL: nat := 900000

  /** How many link values of the advertised set a filter has room for. */
  function Room(t: ConfirmType): nat {
    if HasPassive(t) then BF_N - BF_N_PASSIVE else BF_N
  }

  /** What a key exchange adds to the secrets of a device: without confirmation it counts as confirmed at once. */
  ghost function WithExchanged(t: ConfirmType, a: Secrets, secret: Secret): Secrets {
    if secret.NoSecret? then a
    else WithSecret(a, SharedSecret(secret.value, if t == NoConfirm then 0.0 else 1.0, t == NoConfirm, Nobody))
  }

  datatype Action = ChangeEpoch | DiscoverDevices

  /** A list without the device of an id. */
  function Without<E>(list: seq<EbNDevice<E>>, id: DeviceID): seq<EbNDevice<E>> {
    if |list| == 0 then []
    else if list[0].id == id then Without(list[1..], id)
    else [list[0]] + Without(list[1..], id)
  }

  predicate NoDeviceTwice<E>(list: seq<EbNDevice<E>>) {
    forall i, j :: 0 <= i < j < |list| ==> list[i].id != list[j].id
  }

  lemma {:induction false} WithoutExactly<E>(list: seq<EbNDevice<E>>, id: DeviceID, d: EbNDevice<E>)
    ensures d in Without(list, id) <==> d in list && d.id != id
  {
    if |list| > 0 { WithoutExactly(list[1..], id, d); }
  }

  lemma {:induction false} WithoutNotThere<E>(list: seq<EbNDevice<E>>, id: DeviceID)
    requires forall d :: d in list ==> d.id != id
    ensures Without(list, id) == list
  {
    if |list| > 0 { WithoutNotThere(list[1..], id); }
  }

  /** Taking out the one element that has the id. */
  lemma {:induction false} WithoutOne<E>(list: seq<EbNDevice<E>>, k: nat)
    requires NoDeviceTwice(list) && k < |list|
    ensures Without(list, list[k].id) == list[..k] + list[k + 1..]
  {
    var rest := list[1..];
    if k == 0 {
      WithoutNotThere(rest, list[0].id);
      assert list[..0] + rest == rest;
    } else {
      assert list[0].id != list[k].id && rest[k - 1] == list[k];
      WithoutOne(rest, k - 1);
      assert list[..k] == [list[0]] + rest[..k - 1] && list[k + 1..] == rest[k..];
    }
  }

  // ---------------------------------------------------------------- the secrets for passive confirmation

  /** The secrets of a device that are not actively confirmed, in their order. */
  function NotActive(secrets: seq<SharedSecret>): seq<SharedSecret> {
    if |secrets| == 0 then []
    else
      var last := secrets[|secrets| - 1];
      NotActive(secrets[..|secrets| - 1]) + (if last.confirmedBy != Active then [last] else [])
  }

  /** Those of several devices, one device after the other. */
  function AllNotActive<E>(devices: seq<EbNDevice<E>>): seq<SharedSecret>
    reads devices`sharedSecrets
    decreases |devices|
  {
    if |devices| == 0 then []
    else AllNotActive(devices[..|devices| - 1]) + NotActive(devices[|devices| - 1].sharedSecrets)
  }

  /** No secret has a larger probability of being wrong: this is the one that the queue yields. */
  predicate IsTop(queue: seq<SharedSecret>, j: nat) {
    j < |queue| && forall i :: 0 <= i < |queue| ==> queue[i].pFalse <= queue[j].pFalse
  }

  method Top(queue: seq<SharedSecret>) returns (j: nat)
    requires |queue| > 0
    ensures IsTop(queue, j)
  {
    j := 0;
    for i := 1 to |queue|
      invariant j < i && forall h :: 0 <= h < i ==> queue[h].pFalse <= queue[j].pFalse
    {
      if queue[i].pFalse > queue[j].pFalse { j := i; }
    }
  }

  /** All of the chosen secrets are at least as likely to be wrong as all of the others. */
  ghost predicate TopOf(chosen: seq<SharedSecret>, others: seq<SharedSecret>) {
    forall i, j :: 0 <= i < |chosen| && 0 <= j < |others| ==> others[j].pFalse <= chosen[i].pFalse
  }

  lemma TakeTop(chosen: seq<SharedSecret>, queue: seq<SharedSecret>, j: nat)
    requires TopOf(chosen, queue) && IsTop(queue, j)
    ensures TopOf(chosen + [queue[j]], queue[..j] + queue[j + 1..])
    ensures multiset(queue) == multiset(queue[..j] + queue[j + 1..]) + multiset{queue[j]}
  {
    var rest := queue[..j] + queue[j + 1..];
    forall i | 0 <= i < |rest| ensures rest[i] == queue[if i < j then i else i + 1] {}
    assert queue == queue[..j] + [queue[j]] + queue[j + 1..];
  }

  function ValuesOf(secrets: seq<SharedSecret>): (values: seq<LinkValue>)
    ensures |values| == |secrets|
  {
    seq(|secrets|, i requires 0 <= i < |secrets| => secrets[i].value)
  }

  /** What has been put into a filter: link values that are advertised, secrets, and a number of draws. */
  datatype Filling = Filling(advertised: seq<LinkValue>, secrets: seq<SharedSecret>, draws: nat)

  /** The bits that are set are exactly those of what has been put in. */
  ghost predicate FilledWith(bits: Bits, words: nat, hash: Hash, prefix: Bits, random: nat -> nat, f: Filling) {
    && |bits| > 0
    && forall i :: 0 <= i < |bits| ==>
      (bits[i] <==> SetByAny(|bits|, words, hash, prefix, f.advertised + ValuesOf(f.secrets), i)
                    || SetByDraw(|bits|, words * f.draws, random, i))
  }

  /** So the filter may contain each of the values. */
  lemma FillingIsContained(bits: Bits, words: nat, hash: Hash, prefix: Bits, random: nat -> nat, f: Filling,
                           v: LinkValue)
    requires FilledWith(bits, words, hash, prefix, random, f) && v in f.advertised + ValuesOf(f.secrets)
    ensures MayContain(bits, words, hash, prefix, v)
  {
    var values := f.advertised + ValuesOf(f.secrets);
    var j :| 0 <= j < |values| && values[j] == v;
    forall k: nat | k < words ensures bits[hash(prefix, v, k) % |bits|] {
      assert SetBy(|bits|, words, hash, prefix, values[j], hash(prefix, v, k) % |bits|);
    }
  }

  class EbNRadio<E> {
    const confirmType: ConfirmType
    const threshold: real
    var nextDeviceID: DeviceID
    var advertisedSet: seq<LinkValue>
    var listenSet: seq<LinkValue>
    var recentDevices: seq<EbNDevice<E>>
    /** The places in the list, each told by the device that is there. */
    var idToRecentDevices: map<DeviceID, EbNDevice<E>>
    var nextDiscover: int
    var nextChangeEpoch: int

    /** The index has exactly the devices of the list, and the list has each device once. */
    ghost predicate RecentValid()
      reads this`recentDevices, this`idToRecentDevices
    {
      forall k: nat :: Look(OfRecent, k) ==>
        && NoDeviceTwice(recentDevices)
        && (forall d :: d in recentDevices ==> d.id in idToRecentDevices && idToRecentDevices[d.id] == d)
        && (forall id :: id in idToRecentDevices ==>
              idToRecentDevices[id] in recentDevices && idToRecentDevices[id].id == id)
    }

    constructor (confirmType: ConfirmType, threshold: real, now: nat)
      ensures RecentValid() && idToRecentDevices == map[] && nextDeviceID == 0
      ensures this.confirmType == confirmType && this.threshold == threshold
      ensures nextDiscover == now + 10000 && nextChangeEpoch == now + EPOCH_INTERVAL
    {
      this.confirmType, this.threshold := confirmType, threshold;
      nextDeviceID, advertisedSet, listenSet := 0, [], [];
      recentDevices, idToRecentDevices := [], map[];
      nextDiscover, nextChangeEpoch := now + 10000, now + EPOCH_INTERVAL;
    }

    method GenerateDeviceID() returns (id: DeviceID)
      modifies this`nextDeviceID
      ensures id == old(nextDeviceID) && nextDeviceID == id + 1
    {
      id := nextDeviceID;
      nextDeviceID := nextDeviceID + 1;
    }

    /** removeRecentDevice. */
    method RemoveRecentDevice(id: DeviceID)
      requires RecentValid()
      modifies this`recentDevices, this`idToRecentDevices
      ensures RecentValid() && recentDevices == Without(old(recentDevices), id)
      ensures idToRecentDevices == old(idToRecentDevices) - {id}
    {
      assert Look(OfRecent, 0);
      if id in idToRecentDevices {
        var k :| 0 <= k < |recentDevices| && recentDevices[k] == idToRecentDevices[id];
        WithoutOne(recentDevices, k);
        recentDevices := recentDevices[..k] + recentDevices[k + 1..];
        idToRecentDevices := idToRecentDevices - {id};
      } else {
        WithoutNotThere(recentDevices, id);
        assert idToRecentDevices - {id} == idToRecentDevices;
      }
    }

    /** addRecentDevice: the device is the first of the list, and only there. */
    method AddRecentDevice(device: EbNDevice<E>)
      requires RecentValid()
      modifies this`recentDevices, this`idToRecentDevices
      ensures RecentValid() && recentDevices == [device] + Without(old(recentDevices), device.id)
      ensures idToRecentDevices == old(idToRecentDevices)[device.id := device]
    {
      assert Look(OfRecent, 0);
      RemoveRecentDevice(device.id);
      recentDevices := [device] + recentDevices;
      idToRecentDevices := idToRecentDevices[device.id := device];
    }

    /** getNextAction: the action that is due first, and how long it still takes. */
    method GetNextAction(curTime: nat) returns (action: Action, timeUntil: int)
      ensures action == if nextChangeEpoch < nextDiscover then ChangeEpoch else DiscoverDevices
      ensures timeUntil >= 0
      ensures curTime + timeUntil >= nextChangeEpoch || curTime + timeUntil >= nextDiscover
      ensures timeUntil > 0 ==> curTime + timeUntil <= nextChangeEpoch && curTime + timeUntil <= nextDiscover
    {
      timeUntil := 0;
      if nextChangeEpoch < nextDiscover {
        action := ChangeEpoch;
        if nextChangeEpoch > curTime { timeUntil := nextChangeEpoch - curTime; }
      } else {
        action := DiscoverDevices;
        if nextDiscover > curTime { timeUntil := nextDiscover - curTime; }
      }
    }

    /** The recent device of an id, if there is one. */
    ghost function Recent(id: DeviceID): set<EbNDevice<E>>
      reads this`idToRecentDevices
    {
      if id in idToRecentDevices then {idToRecentDevices[id]} else {}
    }

    /** getDeviceEvent: the news of a recent device. */
    method GetDeviceEvent(event: EncounterEvent, id: DeviceID, interval: nat, now: nat, later: nat)
      returns (success: bool, dest: EncounterEvent)
      requires RecentValid() && (id in idToRecentDevices ==> idToRecentDevices[id].Valid())
      modifies Recent(id)`updatedMatching, Recent(id)`secretsToReport, Recent(id)`rssiToReport, Recent(id)`reported
      modifies Recent(id)`lastReportTime, Recent(id)`secretsReported, Recent(id)`rssiReported
      modifies Recent(id)`matchingReported
      ensures id !in idToRecentDevices ==> !success
      ensures id in idToRecentDevices ==>
        var d := idToRecentDevices[id];
        && d.Valid() && success == old(d.HasNews(now, interval))
        && (if success then d.Told(event, dest) && d.lastReportTime == later else unchanged(d))
    {
      success, dest := false, event;
      if id in idToRecentDevices {
        var device := idToRecentDevices[id];
        success, dest := device.GetEncounterInfo(event, interval, now, later);
      }
    }

    /** setAdvertisedSet and setListenSet. */
    method SetAdvertisedSet(advertisedSet: seq<LinkValue>)
      modifies this`advertisedSet
      ensures this.advertisedSet == advertisedSet
    {
      this.advertisedSet := advertisedSet;
    }

    method SetListenSet(listenSet: seq<LinkValue>)
      modifies this`listenSet
      ensures this.listenSet == listenSet
    {
      this.listenSet := listenSet;
    }

    /** The secrets of all recent devices that may be confirmed passively. */
    method CollectSecrets() returns (queue: seq<SharedSecret>)
      ensures queue == AllNotActive(recentDevices)
    {
      queue := [];
      var i := 0;
      while i < |recentDevices|
        invariant i <= |recentDevices| && queue == AllNotActive(recentDevices[..i])
      {
        assert recentDevices[..i + 1][..i] == recentDevices[..i];
        queue := queue + NotActive(recentDevices[i].sharedSecrets);
        i := i + 1;
      }
      assert recentDevices[..i] == recentDevices;
    }

    /** The link values of the advertised set go in, as many as there is room for. */
    method AddAdvertised(bloom: BloomFilter, prefix: Bits, maxAdvert: nat) returns (numAdvert: nat)
      requires bloom.Valid()
      modifies bloom`bits
      ensures bloom.Valid()
      ensures numAdvert == if |advertisedSet| < maxAdvert then |advertisedSet| else maxAdvert
      ensures Adds(bloom, old(bloom.bits), prefix, advertisedSet[..numAdvert])
    {
      numAdvert := 0;
      NoneSets(bloom.M, bloom.K, bloom.hash, prefix);
      while numAdvert < |advertisedSet| && numAdvert < maxAdvert
        invariant numAdvert <= |advertisedSet| && numAdvert <= maxAdvert && bloom.Valid()
        invariant Adds(bloom, old(bloom.bits), prefix, advertisedSet[..numAdvert])
      {
        ghost var values, before := advertisedSet[..numAdvert], bloom.bits;
        bloom.Add(prefix, advertisedSet[numAdvert]);
        OneMoreAdded(bloom, old(bloom.bits), before, prefix, values, advertisedSet[numAdvert]);
        assert values + [advertisedSet[numAdvert]] == advertisedSet[..numAdvert + 1];
        numAdvert := numAdvert + 1;
      }
    }

    /** Besides the bits that were set before, the filter has exactly those of the values. */
    ghost predicate Adds(bloom: BloomFilter, before: Bits, prefix: Bits, values: seq<LinkValue>)
      reads bloom
    {
      && bloom.Valid() && |before| == bloom.M
      && forall i :: 0 <= i < bloom.M ==>
        (bloom.bits[i] <==> before[i] || SetByAny(bloom.M, bloom.K, bloom.hash, prefix, values, i))
    }

    lemma OneMoreAdded(bloom: BloomFilter, before: Bits, between: Bits, prefix: Bits, values: seq<LinkValue>,
                       v: LinkValue)
      requires bloom.Valid() && |before| == |between| == bloom.M
      requires forall i :: 0 <= i < bloom.M ==>
        (between[i] <==> before[i] || SetByAny(bloom.M, bloom.K, bloom.hash, prefix, values, i))
      requires forall i :: 0 <= i < bloom.M ==>
        (bloom.bits[i] <==> between[i] || SetBy(bloom.M, bloom.K, bloom.hash, prefix, v, i))
      ensures Adds(bloom, before, prefix, values + [v])
    {
      forall i | 0 <= i < bloom.M
        ensures bloom.bits[i] <==> before[i] || SetByAny(bloom.M, bloom.K, bloom.hash, prefix, values + [v], i)
      {
        OneMoreSets(bloom.M, bloom.K, bloom.hash, prefix, values, v, i);
      }
    }

    /** The secrets that the queue yields go in, as many as there is room for: those most likely to be wrong. */
    method AddPassive(bloom: BloomFilter, prefix: Bits, secrets: seq<SharedSecret>)
      returns (numPassive: nat, ghost chosen: seq<SharedSecret>, ghost left: seq<SharedSecret>)
      requires bloom.Valid()
      modifies bloom`bits
      ensures bloom.Valid() && Adds(bloom, old(bloom.bits), prefix, ValuesOf(chosen))
      ensures numPassive == |chosen| == if |secrets| < BF_N_PASSIVE then |secrets| else BF_N_PASSIVE
      ensures multiset(chosen) + multiset(left) == multiset(secrets) && TopOf(chosen, left)
    {
      numPassive, chosen := 0, [];
      NoneSets(bloom.M, bloom.K, bloom.hash, prefix);
      var queue := secrets;
      while queue != [] && numPassive < BF_N_PASSIVE
        invariant numPassive == |chosen| <= BF_N_PASSIVE && |chosen| + |queue| == |secrets|
        invariant bloom.Valid() && Adds(bloom, old(bloom.bits), prefix, ValuesOf(chosen))
        invariant multiset(chosen) + multiset(queue) == multiset(secrets) && TopOf(chosen, queue)
        decreases |queue|
      {
        var j := Top(queue);
        ghost var before := bloom.bits;
        bloom.Add(prefix, queue[j].value);
        OneMoreAdded(bloom, old(bloom.bits), before, prefix, ValuesOf(chosen), queue[j].value);
        assert ValuesOf(chosen) + [queue[j].value] == ValuesOf(chosen + [queue[j]]);
        TakeTop(chosen, queue, j);
        chosen := chosen + [queue[j]];
        queue := queue[..j] + queue[j + 1..];
        numPassive := numPassive + 1;
      }
      left := queue;
    }

    /** These are the secrets of the recent devices that are most likely to be wrong, as many as there is room for. */
    ghost predicate Chosen(secrets: seq<SharedSecret>)
      reads this`recentDevices, recentDevices`sharedSecrets
    {
      var all := AllNotActive(recentDevices);
      && |secrets| == (if |all| < BF_N_PASSIVE then |all| else BF_N_PASSIVE)
      && exists left :: multiset(secrets) + multiset(left) == multiset(all) && TopOf(secrets, left)
    }

    /**
     * The first link values of the advertised set and, if they are wanted, the secrets; it is always the same number of
     * entries: random ones make up for what is missing.
     */
    ghost predicate RightFilling(f: Filling, includePassive: bool)
      reads this`advertisedSet, this`recentDevices, recentDevices`sharedSecrets
    {
      && f.advertised
           == advertisedSet[..if |advertisedSet| < Room(confirmType) then |advertisedSet| else Room(confirmType)]
      && (if includePassive && HasPassive(confirmType) then Chosen(f.secrets) else f.secrets == [])
      && |f.advertised| + |f.secrets| + f.draws == if includePassive then BF_N else Room(confirmType)
    }

    /** Besides the bits that were set before, the filter has exactly those of what has been put in. */
    ghost predicate AddsFilling(bloom: BloomFilter, before: Bits, prefix: Bits, random: nat -> nat, f: Filling)
      reads bloom
    {
      && bloom.Valid() && |before| == bloom.M
      && forall i :: 0 <= i < bloom.M ==>
        (bloom.bits[i] <==>
           || before[i]
           || SetByAny(bloom.M, bloom.K, bloom.hash, prefix, f.advertised + ValuesOf(f.secrets), i)
           || SetByDraw(bloom.M, bloom.K * f.draws, random, i))
    }

    lemma FilledFromEmpty(bloom: BloomFilter, before: Bits, prefix: Bits, random: nat -> nat, f: Filling)
      requires AddsFilling(bloom, before, prefix, random, f) && forall i :: 0 <= i < |before| ==> !before[i]
      ensures FilledWith(bloom.bits, bloom.K, bloom.hash, prefix, random, f)
    {}

    /**
     * fillBloomFilter: besides the bits that were set, the filter gets exactly those of the right entries.
     */
    method FillBloomFilter(bloom: BloomFilter, prefix: Bits, includePassive: bool, random: nat -> nat)
      returns (numAdvert: nat, numPassive: nat, numRandom: int, ghost f: Filling)
      requires bloom.Valid()
      modifies bloom`bits
      ensures bloom.Valid() && RightFilling(f, includePassive)
      ensures numAdvert == |f.advertised| && numPassive == |f.secrets| && numRandom == f.draws
      ensures AddsFilling(bloom, old(bloom.bits), prefix, random, f)
    {
      numRandom := 0;
      var maxAdvert := BF_N;
      if HasPassive(confirmType) { maxAdvert := BF_N - BF_N_PASSIVE; }
      numAdvert := AddAdvertised(bloom, prefix, maxAdvert);
      ghost var advertised, chosen, left := bloom.bits, [], [];
      numRandom := numRandom + (maxAdvert - numAdvert);
      numPassive := 0;
      if includePassive && HasPassive(confirmType) {
        var secrets := CollectSecrets();
        numPassive, chosen, left := AddPassive(bloom, prefix, secrets);
        numRandom := numRandom + (BF_N_PASSIVE - numPassive);
      } else {
        NoneSets(bloom.M, bloom.K, bloom.hash, prefix);
      }
      assert Adds(bloom, advertised, prefix, ValuesOf(chosen));
      bloom.AddRandom(numRandom, random);
      f := Filling(advertisedSet[..numAdvert], chosen, numRandom);
      forall i | 0 <= i < bloom.M
        ensures SetByAny(bloom.M, bloom.K, bloom.hash, prefix, f.advertised + ValuesOf(f.secrets), i)
          <==> SetByAny(bloom.M, bloom.K, bloom.hash, prefix, f.advertised, i)
               || SetByAny(bloom.M, bloom.K, bloom.hash, prefix, ValuesOf(f.secrets), i)
      {
        BothSet(bloom.M, bloom.K, bloom.hash, prefix, f.advertised, ValuesOf(f.secrets), i);
      }
    }
  }
}
