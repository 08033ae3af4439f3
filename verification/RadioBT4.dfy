/**
 * The Bluetooth 4 radio, source/EbNRadioBT4.cpp: what scan responses do to the devices, and what a new epoch of the
 * radio does. A key exchange with the public key of another device is a function of the exchange.
 */
module RadioBT4 {
  import opened Address
  import opened BloomFilter
  import opened BT4Advert
  import opened BT4Decoding
  import opened BT4Matching
  import opened BT4Receiver
  import opened BT4Secrets
  import opened Device
  import opened DeviceMap
  import opened ErasureDecoder
  import opened Hiding
  import opened HystPolicy
  import opened KnownDevices
  import opened Radio

  const ADVERT_BYTES: nat := 31

  datatype ScanResponse = ScanResponse(time: nat, address: Address, rssi: int, length: nat, data: Bits)

  class EbNRadioBT4 {
    const c: Code
    const base: EbNRadio<Epoch>
    const deviceMap: EbNDeviceMap<Epoch>
    const sender: Sender<Epoch>
    /** The secret of a key exchange with a public key and its other coordinate. */
    const computeSharedSecret: (int, Symbol, bool) -> Secret
    const publicX: int -> Symbol
    var dhExchange: int

    constructor (c: Code, base: EbNRadio<Epoch>, deviceMap: EbNDeviceMap<Epoch>,
                 computeSharedSecret: (int, Symbol, bool) -> Secret, publicX: int -> Symbol, exchange: int)
      requires CodeOk(c) && Indexed(base, deviceMap) && deviceMap.idToDevice == map[]
      ensures Valid() && SenderValid() && fresh(sender) && fresh(sender.advertBloom) && fresh(sender.advertBloom.base)
      ensures this.c == c && this.base == base && this.deviceMap == deviceMap && dhExchange == exchange
      ensures this.computeSharedSecret == computeSharedSecret && this.publicX == publicX
      ensures sender.advertNum == 0 && sender.epoch.filters == map[]
    {
      this.c, this.base, this.deviceMap := c, base, deviceMap;
      this.computeSharedSecret, this.publicX, dhExchange := computeSharedSecret, publicX, exchange;
      sender := new Sender<Epoch>(c, base, publicX(exchange));
    }

    /** The devices are known in all indices, and at most two of their epochs are kept. */
    ghost predicate Valid()
      reads this, base, deviceMap, deviceMap.addressToDevice.Values, deviceMap.idToDevice.Values
    {
      forall k: nat :: Look(OfRadio, k) ==>
        CodeOk(c) && Indexed(base, deviceMap) && DevicesValid(deviceMap) && AllAtRest()
    }

    ghost predicate AllAtRest()
      reads this, deviceMap, deviceMap.idToDevice.Values
    {
      forall id :: id in deviceMap.idToDevice ==> AtRest(c, deviceMap.idToDevice[id].epochs)
    }

    /** What is sent has the key of the exchange of the radio. */
    ghost predicate SenderValid()
      reads this, sender, sender.advertBloom, sender.advertBloom.base
    {
      sender.c == c && sender.radio == base && sender.Valid() && sender.key == publicX(dhExchange)
    }

    /** The number of an advertisement, read bit by bit. */
    method ReadNumber(bits: Bits) returns (num: nat)
      ensures num == BitsNum(bits)
    {
      num := 0;
      var b := |bits|;
      while b > 0
        invariant 0 <= b <= |bits| && num == BitsNum(bits[b..])
      {
        b := b - 1;
        assert bits[b..][1..] == bits[b + 1..];
        num := 2 * num + (if bits[b] then 1 else 0);
      }
      assert bits[0..] == bits;
    }

    /** The filter at the end takes the segment, or a new one does. */
    method TakeBloom(blooms: seq<(nat, Filter)>, a: Advert) returns (r: seq<(nat, Filter)>)
      requires WellSized(c, a) && BloomsOk(c, blooms)
      ensures r == WithBloom(c, blooms, a)
    {
      var bloomNum, last := a.num / BF_B, |blooms| - 1;
      if blooms != [] && blooms[last].0 == bloomNum {
        var f := TakeSegment(c, blooms[last].1, a);
        r := blooms[last := (bloomNum, f)];
      } else {
        var f := TakeSegment(c, AllOnes(SegmentSizes(c, bloomNum)), a);
        r := blooms + [(bloomNum, f)];
      }
    }

    /** An epoch takes the symbol and the segment. */
    method TakeInto(epoch: Epoch, a: Advert) returns (e: Epoch)
      requires WellSized(c, a) && BloomsOk(c, epoch.blooms)
      ensures e == Take(c, epoch, a)
    {
      e := epoch.(dhDecoder := WithSymbol(epoch.dhDecoder, a.num, a.symbol));
      var blooms := TakeBloom(e.blooms, a);
      e := e.(blooms := blooms);
    }

    /** The epoch at a place takes them. */
    method TakeAt(device: EbNDevice<Epoch>, i: nat, a: Advert)
      requires WellSized(c, a) && i < |device.epochs| && BloomsOk(c, device.epochs[i].blooms)
      modifies device`epochs
      ensures device.epochs == old(device.epochs)[i := Take(c, old(device.epochs)[i], a)]
    {
      var e := TakeInto(device.epochs[i], a);
      device.epochs := device.epochs[i := e];
    }

    /** An epoch that is not decoded takes the symbol that was left over. */
    method LeaveWith(epoch: Epoch, a: Advert) returns (e: Epoch)
      ensures e == TakeLeftover(c, epoch, a)
    {
      e := epoch;
      if a.num < c.rsK - 1 {
        if !e.dhDecoder.isDecoded {
          var dhDecoder := WithSymbol(e.dhDecoder, a.num + ADV_N, a.leftover);
          e := e.(dhDecoder := dhDecoder);
        }
      }
    }

    /** The epoch before, if there is one, takes the symbol that was left over. */
    method TakeLeftoverAt(device: EbNDevice<Epoch>, i: int, a: Advert)
      requires i < |device.epochs|
      modifies device`epochs
      ensures device.epochs == if i >= 0 then old(device.epochs)[i := TakeLeftover(c, old(device.epochs)[i], a)]
                               else old(device.epochs)
    {
      if i >= 0 {
        var e := LeaveWith(device.epochs[i], a);
        device.epochs := device.epochs[i := e];
      }
    }

    /** Which epoch the advertisement belongs to. */
    method Assign(device: EbNDevice<Epoch>, advertNum: nat, time: nat) returns (isDuplicate: bool, isNew: bool)
      ensures isDuplicate == (Classify(device.epochs, advertNum, time) == ToDuplicate)
      ensures isNew == (Classify(device.epochs, advertNum, time) == ToNew)
    {
      isDuplicate, isNew := false, true;
      if device.epochs != [] {
        var curEpoch := device.epochs[|device.epochs| - 1];
        var diffAdvertTime := Elapsed(time, curEpoch.lastAdvertTime);
        if curEpoch.lastAdvertNum == advertNum || curEpoch.lastAdvertNum == advertNum + 1 {
          if diffAdvertTime < ADV_N / 2 * SCAN_INTERVAL {
            isDuplicate, isNew := true, false;
          }
        } else if curEpoch.lastAdvertNum < advertNum
                  && diffAdvertTime < (advertNum - curEpoch.lastAdvertNum + 6) * SCAN_INTERVAL / 2 {
          isNew := false;
        }
      }
    }

    /** The current epoch takes an advertisement. */
    method ProcessCurrent(device: EbNDevice<Epoch>, a: Advert)
      requires WellSized(c, a) && |device.epochs| > 0 && BloomsOk(c, device.epochs[|device.epochs| - 1].blooms)
      modifies device`epochs
      ensures device.epochs == AfterCurrent(c, old(device.epochs), a)
    {
      var prev := if |device.epochs| > 1 then 0 else -1;
      TakeAt(device, |device.epochs| - 1, a);
      TakeLeftoverAt(device, prev, a);
    }

    /** A new epoch begins with an advertisement. */
    method ProcessNew(device: EbNDevice<Epoch>, a: Advert, e: Epoch)
      requires WellSized(c, a) && BloomsOk(c, e.blooms)
      modifies device`epochs
      ensures device.epochs == AfterNew(c, old(device.epochs), a, e)
    {
      var prev := |device.epochs| - 1;
      device.epochs := device.epochs + [e];
      TakeAt(device, |device.epochs| - 1, a);
      TakeLeftoverAt(device, prev, a);
    }

    /** An advertisement is taken into the epoch that it belongs to. */
    method ProcessAssigned(device: EbNDevice<Epoch>, time: nat, a: Advert, yCoord: bool) returns (processed: bool)
      requires WellSized(c, a) && EpochsValid(c, device.epochs)
      modifies device`epochs
      ensures processed == (Classify(old(device.epochs), a.num, time) != ToDuplicate)
      ensures device.epochs == AfterAdvert(c, old(device.epochs), a, time, dhExchange, yCoord)
    {
      var isDuplicate, isNew := Assign(device, a.num, time);
      processed := !isDuplicate;
      if !isDuplicate {
        if isNew {
          ProcessNew(device, a, Epoch(a.num, time, EMPTY, [dhExchange], yCoord, [], 0));
        } else {
          LastIsOk(device.epochs);
          ProcessCurrent(device, a);
        }
      }
    }

    /** processAdvert: nothing changes for a number that is too large or for a duplicate. */
    method ProcessAdvert(device: EbNDevice<Epoch>, time: nat, advert: Bits) returns (processed: bool)
      requires CodeOk(c) && |advert| == ADVERT_BITS && EpochsValid(c, device.epochs)
      modifies device`epochs
      ensures EpochsValid(c, device.epochs)
      ensures var num := ReadNum(advert);
        && processed == (num < ADV_N && Classify(old(device.epochs), num, time) != ToDuplicate)
        && device.epochs == (if num < ADV_N then AfterAdvert(c, old(device.epochs), Read(c, advert), time, dhExchange,
                                                             device.address[0] & 0x20 != 0)
                             else old(device.epochs))
    {
      processed := false;
      var advertNum := ReadNumber(advert[1..1 + ADV_N_LOG2]);
      if advertNum < ADV_N {
        var a := Read(c, advert);
        var yCoord := device.address[0] & 0x20 != 0;
        AdvertKeepsValid(c, device.epochs, a, time, dhExchange, yCoord);
        processed := ProcessAssigned(device, time, a, yCoord);
      }
    }

    lemma LastIsOk(epochs: seq<Epoch>)
      requires EpochsValid(c, epochs) && |epochs| > 0
      ensures BloomsOk(c, epochs[|epochs| - 1].blooms)
    {
      assert Look(OfEpoch, 0);
      assert EpochValid(c, epochs[|epochs| - 1]);
    }

    // -------------------------------------------------------------- processing the epochs

    /** How the radio confirms secrets. */
    ghost function Confirming(): ConfirmScheme {
      ConfirmScheme(c, base.confirmType, base.threshold, computeSharedSecret)
    }

    method AddSecrets(device: EbNDevice<Epoch>, e: Epoch)
      requires device.Valid()
      modifies device`sharedSecrets, device`secretsToReport, device`confirmed
      ensures device.Valid()
      ensures device.Account() == WithSecretsOf(Confirming(), old(device.Account()), e, |e.dhExchanges|)
    {
      var i := 0;
      while i < |e.dhExchanges|
        invariant device.Valid() && i <= |e.dhExchanges|
        invariant device.Account() == WithSecretsOf(Confirming(), old(device.Account()), e, i)
      {
        var secret := computeSharedSecret(e.dhExchanges[i], e.dhDecoder.data, e.yCoord);
        if secret.Computed? {
          var confirmed := base.confirmType == NoConfirm;
          device.AddSharedSecret(SharedSecret(secret.value, if confirmed then 0.0 else 1.0, confirmed, Nobody));
        }
        i := i + 1;
      }
    }

    /** An epoch is decoded when there are enough symbols; it then has a filter. */
    method DecodeEpoch(device: EbNDevice<Epoch>, e: Epoch) returns (r: Epoch)
      requires device.Valid() && EpochValid(c, e)
      modifies device`sharedSecrets, device`secretsToReport, device`confirmed
      ensures device.Valid() && r == DecodedEpoch(c, e)
      ensures device.Account() == AfterDecoding(Confirming(), old(device.Account()), e)
    {
      assert Look(OfEpoch, 0);
      r := e;
      if !e.dhDecoder.isDecoded && CanDecode(e.dhDecoder, c.rsK) {
        r := e.(dhDecoder := Decoded(e.dhDecoder, c.rsK, c.rebuild), decodeBloomNum := e.blooms[|e.blooms| - 1].0);
        if base.confirmType == NoConfirm || base.confirmType == PassiveConfirm {
          AddSecrets(device, r);
        }
      }
    }

    /** One filter of a decoded epoch: if it has a new segment, its answers are used. */
    method UseBloom(device: EbNDevice<Epoch>, e: Epoch, bloomNum: nat, f: Filter) returns (r: Filter)
      requires device.Valid() && |f.bits| > 0
      modifies device`matching, device`updatedMatching, device`matchingPFalse
      modifies device`sharedSecrets, device`secretsToReport, device`confirmed
      ensures device.Valid() && r == f.(pFalse := 1.0)
      ensures var key := e.dhDecoder.data;
        && device.matching == (if f.pFalse == 1.0 then old(device.matching)
                               else Filtered(old(device.matching), Answers(c, bloomNum, f, key)))
        && device.Account()
             == WithTests(old(device.Account()), NewTest(Confirming(), bloomNum, f, key, e.decodeBloomNum),
                          base.threshold)
    {
      r := f;
      if f.pFalse != 1.0 {
        var answers := Answers(c, bloomNum, f, e.dhDecoder.data);
        var bloomPFalse := f.pFalse;
        r := f.(pFalse := 1.0);
        device.UpdateMatching(answers, bloomPFalse);
        if HasPassive(base.confirmType) && bloomNum > e.decodeBloomNum {
          ghost var tests := [Test(answers, bloomPFalse)];
          assert tests[..0] == [];
          device.ConfirmPassive(answers, base.threshold, bloomPFalse);
        }
      }
    }

    /** The first n filters have been looked at; those that are still needed are at the front. */
    ghost predicate BloomsLeft(all: seq<(nat, Filter)>, n: nat, blooms: seq<(nat, Filter)>, at: nat, lastNum: nat) {
      && TwoSegments(all) && n <= |all| && at <= |blooms| && |blooms| - at == |all| - n
      && forall k: nat :: Look(OfStep, k) ==>
        blooms[at..] == all[n..] && blooms[..at] + Kept(all[n..], lastNum) == Kept(all, lastNum)
    }

    lemma AllBlooms(all: seq<(nat, Filter)>, lastNum: nat)
      requires TwoSegments(all)
      ensures BloomsLeft(all, 0, all, 0, lastNum)
    {
      assert all[0..] == all && all[..0] == [];
    }

    lemma NoBlooms(all: seq<(nat, Filter)>, n: nat, blooms: seq<(nat, Filter)>, at: nat, lastNum: nat)
      requires BloomsLeft(all, n, blooms, at, lastNum) && at == |blooms|
      ensures blooms == Kept(all, lastNum) && n == |all|
    {
      assert Look(OfStep, 0);
      assert all[n..] == [] && blooms[..at] == blooms;
    }

    lemma NextBloom(all: seq<(nat, Filter)>, n: nat, blooms: seq<(nat, Filter)>, at: nat, lastNum: nat)
      requires BloomsLeft(all, n, blooms, at, lastNum) && at < |blooms|
      ensures n < |all| && all[n] == blooms[at]
      ensures var (num, f) := all[n];
        if num != lastNum || f.filled[BF_B - 1] then
          BloomsLeft(all, n + 1, blooms[..at] + blooms[at + 1..], at, lastNum)
        else BloomsLeft(all, n + 1, blooms[at := (num, f.(pFalse := 1.0))], at + 1, lastNum)
    {
      assert Look(OfStep, 0);
      var left := all[n..];
      assert left[0] == blooms[at..][0] == blooms[at] && left[1..] == all[n + 1..];
      assert blooms[at..][1..] == blooms[at + 1..];
      var (num, f) := all[n];
      var kept := blooms[..at] + blooms[at + 1..];
      assert kept[..at] == blooms[..at] && kept[at..] == blooms[at + 1..];
      var updated := blooms[at := (num, f.(pFalse := 1.0))];
      assert updated[..at + 1] == blooms[..at] + [(num, f.(pFalse := 1.0))] && updated[at + 1..] == blooms[at + 1..];
    }

    lemma SiftStep(all: seq<(nat, Filter)>, n: nat, key: Symbol, matching: seq<LinkValue>)
      requires BloomsOk(c, all) && n < |all| && |all[n].1.bits| > 0
      ensures var (num, f) := all[n];
        SiftedByBlooms(c, all[n..], key, matching) == SiftedByBlooms(c, all[n + 1..], key,
          if f.pFalse == 1.0 then matching
          else Filtered(matching, Answers(c, num, f, key)))
    {
      assert all[n..][0] == all[n] && all[n..][1..] == all[n + 1..];
    }

    /** What the first n filters have done and what the others will do make up the whole. */
    ghost predicate BloomsUsed(e: Epoch, n: nat, matching: seq<LinkValue>, secrets: Secrets,
                               matching0: seq<LinkValue>, secrets0: Secrets)
      requires BloomsOk(c, e.blooms) && n <= |e.blooms|
    {
      var key, all := e.dhDecoder.data, e.blooms;
      forall k: nat :: Look(OfPart, k) ==>
        && SiftedByBlooms(c, all[n..], key, matching) == SiftedByBlooms(c, all, key, matching0)
        && WithTests(secrets, TestsOf(Confirming(), all[n..], key, e.decodeBloomNum), base.threshold)
             == WithTests(secrets0, TestsOf(Confirming(), all, key, e.decodeBloomNum), base.threshold)
    }

    lemma NoneUsed(e: Epoch, matching: seq<LinkValue>, secrets: Secrets)
      requires BloomsOk(c, e.blooms)
      ensures BloomsUsed(e, 0, matching, secrets, matching, secrets)
    {
      assert e.blooms[0..] == e.blooms;
    }

    lemma AllUsed(e: Epoch, matching: seq<LinkValue>, secrets: Secrets, matching0: seq<LinkValue>, secrets0: Secrets)
      requires BloomsOk(c, e.blooms) && BloomsUsed(e, |e.blooms|, matching, secrets, matching0, secrets0)
      ensures matching == SiftedByBlooms(c, e.blooms, e.dhDecoder.data, matching0)
      ensures secrets == WithTests(secrets0, TestsOf(Confirming(), e.blooms, e.dhDecoder.data, e.decodeBloomNum),
                                   base.threshold)
    {
      assert Look(OfPart, 0);
      assert e.blooms[|e.blooms|..] == [];
    }

    lemma OneMoreUsed(e: Epoch, n: nat, matching: seq<LinkValue>, secrets: Secrets, matching0: seq<LinkValue>,
                      secrets0: Secrets)
      requires BloomsOk(c, e.blooms) && n < |e.blooms| && |e.blooms[n].1.bits| > 0
      requires BloomsUsed(e, n, matching, secrets, matching0, secrets0)
      ensures var (num, f) := e.blooms[n];
        var key := e.dhDecoder.data;
        BloomsUsed(e, n + 1, if f.pFalse == 1.0 then matching else Filtered(matching, Answers(c, num, f, key)),
                   WithTests(secrets, NewTest(Confirming(), num, f, key, e.decodeBloomNum), base.threshold),
                   matching0, secrets0)
    {
      assert Look(OfPart, 0);
      var (num, f) := e.blooms[n];
      var key, rest := e.dhDecoder.data, e.blooms[n..];
      SiftStep(e.blooms, n, key, matching);
      assert rest[0] == e.blooms[n] && rest[1..] == e.blooms[n + 1..];
      TestsInTurn(secrets, NewTest(Confirming(), num, f, key, e.decodeBloomNum),
                  TestsOf(Confirming(), e.blooms[n + 1..], key, e.decodeBloomNum), base.threshold);
    }

    /** One filter is used, with what is then left to do. */
    method UseNext(device: EbNDevice<Epoch>, e: Epoch, bloomNum: nat, f: Filter, ghost n: nat,
                   ghost matching0: seq<LinkValue>, ghost secrets0: Secrets)
      returns (r: Filter)
      requires device.Valid() && BloomsOk(c, e.blooms) && n < |e.blooms| && e.blooms[n] == (bloomNum, f)
      requires BloomsUsed(e, n, device.matching, device.Account(), matching0, secrets0)
      modifies device`matching, device`updatedMatching, device`matchingPFalse
      modifies device`sharedSecrets, device`secretsToReport, device`confirmed
      ensures device.Valid() && r == f.(pFalse := 1.0)
      ensures BloomsUsed(e, n + 1, device.matching, device.Account(), matching0, secrets0)
    {
      SizesSum(c, bloomNum);
      OneMoreUsed(e, n, device.matching, device.Account(), matching0, secrets0);
      r := UseBloom(device, e, bloomNum, f);
    }

    /** The loop over the filters of a decoded epoch. */
    method ProcessBlooms(device: EbNDevice<Epoch>, e: Epoch) returns (blooms: seq<(nat, Filter)>)
      requires device.Valid() && BloomsOk(c, e.blooms) && e.blooms != []
      modifies device`matching, device`updatedMatching, device`matchingPFalse
      modifies device`sharedSecrets, device`secretsToReport, device`confirmed
      ensures device.Valid() && blooms == KeptOfAll(e.blooms)
      ensures device.matching == SiftedByBlooms(c, e.blooms, e.dhDecoder.data, old(device.matching))
      ensures device.Account()
        == WithTests(old(device.Account()), TestsOf(Confirming(), e.blooms, e.dhDecoder.data, e.decodeBloomNum),
                     base.threshold)
    {
      blooms := e.blooms;
      var at := 0;
      ghost var n, matching0, secrets0 := 0, device.matching, device.Account();
      var lastNum := e.blooms[|e.blooms| - 1].0;
      AllBlooms(e.blooms, lastNum);
      NoneUsed(e, matching0, secrets0);
      while at < |blooms|
        invariant device.Valid() && BloomsLeft(e.blooms, n, blooms, at, lastNum)
        invariant BloomsUsed(e, n, device.matching, device.Account(), matching0, secrets0)
        decreases |blooms| - at
      {
        NextBloom(e.blooms, n, blooms, at, lastNum);
        var bloomNum, f := blooms[at].0, blooms[at].1;
        f := UseNext(device, e, bloomNum, f, n, matching0, secrets0);
        if bloomNum != lastNum || f.filled[BF_B - 1] {
          blooms := blooms[..at] + blooms[at + 1..];
        } else {
          blooms := blooms[at := (bloomNum, f)];
          at := at + 1;
        }
        n := n + 1;
      }
      NoBlooms(e.blooms, n, blooms, at, lastNum);
      AllUsed(e, device.matching, device.Account(), matching0, secrets0);
    }

    /** An epoch is decoded if that is possible, and its filters are used. */
    method SettleEpoch(device: EbNDevice<Epoch>, e: Epoch) returns (r: Epoch)
      requires device.Valid() && EpochValid(c, e)
      modifies device`matching, device`updatedMatching, device`matchingPFalse
      modifies device`sharedSecrets, device`secretsToReport, device`confirmed
      ensures device.Valid() && r == Settled(c, e) && device.matching == SiftedByEpoch(c, e, old(device.matching))
      ensures device.Account() == AfterEpoch(Confirming(), old(device.Account()), e)
    {
      assert Look(OfEpoch, 0);
      r := DecodeEpoch(device, e);
      if r.dhDecoder.isDecoded && r.blooms != [] {
        var blooms := ProcessBlooms(device, r);
        r := r.(blooms := blooms);
      }
    }

    /** What is left to do when some epochs have been processed. */
    ghost predicate EpochsLeft(all: seq<Epoch>, i: nat, n: nat, epochs: seq<Epoch>) {
      && EpochsValid(c, all) && n <= |all| && i <= |epochs| && |epochs| - i == |all| - n && EpochsValid(c, all[n..])
      && forall k: nat :: Look(OfStep, k) ==>
        epochs[i..] == all[n..] && Processed(c, epochs[..i], all[n..]) == Processed(c, [], all)
    }

    lemma AllEpochs(all: seq<Epoch>)
      requires EpochsValid(c, all)
      ensures EpochsLeft(all, 0, 0, all)
    {
      assert all[0..] == all && all[..0] == [];
    }

    lemma NoEpochs(all: seq<Epoch>, i: nat, n: nat, epochs: seq<Epoch>)
      requires EpochsLeft(all, i, n, epochs) && i == |epochs|
      ensures epochs == Processed(c, [], all) && n == |all|
    {
      assert Look(OfStep, 0);
      assert all[n..] == [] && epochs[..i] == epochs;
    }

    lemma NextEpoch(all: seq<Epoch>, i: nat, n: nat, epochs: seq<Epoch>)
      requires EpochsLeft(all, i, n, epochs) && i < |epochs|
      ensures n < |all| && all[n] == epochs[i] && EpochValid(c, all[n])
      ensures var e := Settled(c, all[n]);
        if |epochs| - i > 1 && (e.dhDecoder.isDecoded || |epochs| > 2) then
          EpochsLeft(all, i, n + 1, epochs[..i] + epochs[i + 1..])
        else EpochsLeft(all, i + 1, n + 1, epochs[i := e])
    {
      assert Look(OfStep, 0);
      var todo := all[n..];
      assert todo[0] == epochs[i..][0] == epochs[i] && todo[1..] == all[n + 1..] && epochs[i..][1..] == epochs[i + 1..];
      RestIsValid(c, todo);
      var e := Settled(c, all[n]);
      var removed, kept := epochs[..i] + epochs[i + 1..], epochs[i := e];
      assert removed[..i] == epochs[..i] && removed[i..] == epochs[i + 1..];
      assert kept[..i + 1] == epochs[..i] + [e] && kept[i + 1..] == epochs[i + 1..];
    }

    lemma SiftNext(all: seq<Epoch>, n: nat, matching: seq<LinkValue>, a: Secrets)
      requires n < |all| && EpochsValid(c, all[n..]) && EpochValid(c, all[n])
      ensures EpochsValid(c, all[n + 1..])
      ensures SiftedByAll(c, all[n..], matching) == SiftedByAll(c, all[n + 1..], SiftedByEpoch(c, all[n], matching))
      ensures AfterEpochs(Confirming(), a, all[n..])
        == AfterEpochs(Confirming(), AfterEpoch(Confirming(), a, all[n]), all[n + 1..])
    {
      assert all[n..][0] == all[n] && all[n..][1..] == all[n + 1..];
      RestIsValid(c, all[n..]);
    }

    /** One round of processEpochs: the epoch is settled, and goes if it is a past one that is not needed any more. */
    method ProcessEpochAt(device: EbNDevice<Epoch>, i: nat) returns (removed: bool)
      requires device.Valid() && i < |device.epochs| && EpochValid(c, device.epochs[i])
      modifies device`epochs, device`matching, device`updatedMatching, device`matchingPFalse
      modifies device`sharedSecrets, device`secretsToReport, device`confirmed
      ensures device.Valid() && device.matching == SiftedByEpoch(c, old(device.epochs)[i], old(device.matching))
      ensures device.Account() == AfterEpoch(Confirming(), old(device.Account()), old(device.epochs)[i])
      ensures var e, before := Settled(c, old(device.epochs)[i]), old(device.epochs);
        && removed == (|before| - i > 1 && (e.dhDecoder.isDecoded || |before| > 2))
        && device.epochs == if removed then before[..i] + before[i + 1..] else before[i := e]
    {
      var epoch := SettleEpoch(device, device.epochs[i]);
      removed := DropIfDone(device, i, epoch);
    }

    /** The epoch is put back, or taken out if it is a past one that is not needed any more. */
    method DropIfDone(device: EbNDevice<Epoch>, i: nat, epoch: Epoch) returns (removed: bool)
      requires i < |device.epochs|
      modifies device`epochs
      ensures var before := old(device.epochs);
        && removed == (|before| - i > 1 && (epoch.dhDecoder.isDecoded || |before| > 2))
        && device.epochs == if removed then before[..i] + before[i + 1..] else before[i := epoch]
    {
      device.epochs := device.epochs[i := epoch];
      removed := false;
      if |device.epochs| - i > 1 {
        var isDecoded := epoch.dhDecoder.isDecoded;
        var isBeforePrevious := |device.epochs| > 2;
        if isDecoded || isBeforePrevious {
          device.epochs := device.epochs[..i] + device.epochs[i + 1..];
          removed := true;
        }
      }
    }

    /** What has been done and what is left to do make up the whole: to the matching set, and to the secrets. */
    ghost predicate PartDone(all: seq<Epoch>, n: nat, matching: seq<LinkValue>, secrets: Secrets,
                             matching0: seq<LinkValue>, secrets0: Secrets)
      requires n <= |all| && EpochsValid(c, all)
    {
      && EpochsValid(c, all[n..]) && SiftedByAll(c, all[n..], matching) == SiftedByAll(c, all, matching0)
      && AfterEpochs(Confirming(), secrets, all[n..]) == AfterEpochs(Confirming(), secrets0, all)
    }

    lemma NothingDone(all: seq<Epoch>, matching: seq<LinkValue>, secrets: Secrets)
      requires EpochsValid(c, all)
      ensures PartDone(all, 0, matching, secrets, matching, secrets)
    {
      assert all[0..] == all;
    }

    lemma AllDone(all: seq<Epoch>, matching: seq<LinkValue>, secrets: Secrets, matching0: seq<LinkValue>,
                  secrets0: Secrets)
      requires EpochsValid(c, all) && PartDone(all, |all|, matching, secrets, matching0, secrets0)
      ensures matching == SiftedByAll(c, all, matching0) && secrets == AfterEpochs(Confirming(), secrets0, all)
    {
      assert all[|all|..] == [];
    }

    lemma OneMoreDone(all: seq<Epoch>, n: nat, matching: seq<LinkValue>, secrets: Secrets,
                      matching0: seq<LinkValue>, secrets0: Secrets)
      requires n < |all| && EpochsValid(c, all) && EpochValid(c, all[n])
      requires PartDone(all, n, matching, secrets, matching0, secrets0)
      ensures PartDone(all, n + 1, SiftedByEpoch(c, all[n], matching), AfterEpoch(Confirming(), secrets, all[n]),
                       matching0, secrets0)
    {
      SiftNext(all, n, matching, secrets);
    }

    /** One round of processEpochs, with what is then left to do. */
    method ProcessNext(device: EbNDevice<Epoch>, i: nat, ghost all: seq<Epoch>, ghost n: nat,
                       ghost matching0: seq<LinkValue>, ghost secrets0: Secrets) returns (removed: bool)
      requires device.Valid() && EpochsLeft(all, i, n, device.epochs) && i < |device.epochs|
      requires PartDone(all, n, device.matching, device.Account(), matching0, secrets0)
      modifies device`epochs, device`matching, device`updatedMatching, device`matchingPFalse
      modifies device`sharedSecrets, device`secretsToReport, device`confirmed
      ensures device.Valid() && n < |all| && EpochsLeft(all, if removed then i else i + 1, n + 1, device.epochs)
      ensures PartDone(all, n + 1, device.matching, device.Account(), matching0, secrets0)
    {
      NextEpoch(all, i, n, device.epochs);
      OneMoreDone(all, n, device.matching, device.Account(), matching0, secrets0);
      removed := ProcessEpochAt(device, i);
    }

    /** processEpochs. */
    method ProcessEpochs(device: EbNDevice<Epoch>)
      requires device.Valid() && EpochsValid(c, device.epochs)
      modifies device`epochs, device`matching, device`updatedMatching, device`matchingPFalse
      modifies device`sharedSecrets, device`secretsToReport, device`confirmed
      ensures device.Valid() && device.epochs == Processed(c, [], old(device.epochs))
      ensures device.matching == SiftedByAll(c, old(device.epochs), old(device.matching))
      ensures device.Account() == AfterEpochs(Confirming(), old(device.Account()), old(device.epochs))
    {
      ghost var all, n, matching, secrets := device.epochs, 0, device.matching, device.Account();
      var i := 0;
      AllEpochs(all);
      NothingDone(all, matching, secrets);
      while i < |device.epochs|
        invariant device.Valid() && EpochsLeft(all, i, n, device.epochs)
        invariant PartDone(all, n, device.matching, device.Account(), matching, secrets)
        decreases |all| - n
      {
        var removed := ProcessNext(device, i, all, n, matching, secrets);
        if !removed { i := i + 1; }
        n := n + 1;
      }
      NoEpochs(all, i, n, device.epochs);
      AllDone(all, device.matching, device.Account(), matching, secrets);
    }

    // -------------------------------------------------------------- the steps of a device

    /** What a scan response is to its device: bits with the number of an advertisement, or with another number. */
    function StepOf(r: ScanResponse, exchange: int): Step
      requires 1 <= c.rsW <= 14 && |r.data| == ADVERT_BITS && |r.address| > 0
    {
      if ReadNum(r.data) < ADV_N then Hear(Air(Read(c, r.data), r.time), exchange, r.address[0] & 0x20 != 0)
      else BadNumber
    }

    /** processAdvert and processEpochs: the device takes a step of a run. */
    method HearAdvert(device: EbNDevice<Epoch>, r: ScanResponse) returns (processed: bool, ghost now: seq<Epoch>)
      requires CodeOk(c) && |r.data| == ADVERT_BITS && device.Valid() && AtRest(c, device.epochs)
      requires device.address == r.address && |r.address| > 0
      modifies device`epochs, device`matching, device`updatedMatching, device`matchingPFalse
      modifies device`sharedSecrets, device`secretsToReport, device`confirmed
      ensures device.Valid() && AtRest(c, device.epochs)
      ensures var step := StepOf(r, dhExchange);
        && Moves(c, step, old(device.epochs), now, device.epochs)
        && Sifts(c, step, now, old(device.matching), device.matching)
        && Accounts(Confirming(), step, old(device.epochs), now, old(device.Account()), device.Account())
    {
      processed := ProcessAdvert(device, r.time, r.data);
      now := device.epochs;
      ProcessEpochs(device);
      MovingRests(c, StepOf(r, dhExchange), old(device.epochs), now, device.epochs);
    }

    /**
     * The step has led from these epochs, this matching set, these secrets and these measurements to those of the
     * device: the epochs take a step of a run, those that are decoded by it add their secrets, and their filters test
     * them.
     */
    ghost predicate SteppedFrom(device: EbNDevice<Epoch>, r: ScanResponse, exchange: int, now: seq<Epoch>,
                                epochs: seq<Epoch>, matching: seq<LinkValue>, secrets: Secrets,
                                measurements: seq<RSSIEvent>)
      requires 1 <= c.rsW <= 14 && |r.data| == ADVERT_BITS && |r.address| > 0
      reads device
    {
      var step := StepOf(r, exchange);
      && Moves(c, step, epochs, now, device.epochs) && Sifts(c, step, now, matching, device.matching)
      && Accounts(Confirming(), step, epochs, now, secrets, device.Account())
      && device.rssiToReport == measurements + [RSSIEvent(r.time, r.rssi)]
    }

    /** The step of the device, its measurement, and its place in the list of recent devices. */
    method HearDevice(device: EbNDevice<Epoch>, r: ScanResponse) returns (ghost now: seq<Epoch>)
      requires CodeOk(c) && |r.data| == ADVERT_BITS && device.Valid() && AtRest(c, device.epochs)
      requires device.address == r.address && |r.address| > 0 && base.RecentValid()
      modifies base`recentDevices, base`idToRecentDevices, device`rssiToReport, device`measured
      modifies device`epochs, device`matching, device`updatedMatching, device`matchingPFalse
      modifies device`sharedSecrets, device`secretsToReport, device`confirmed
      ensures device.Valid() && AtRest(c, device.epochs)
      ensures base.RecentValid() && base.recentDevices == [device] + Without(old(base.recentDevices), device.id)
      ensures base.idToRecentDevices == old(base.idToRecentDevices)[device.id := device]
      ensures SteppedFrom(device, r, dhExchange, now, old(device.epochs), old(device.matching),
                          old(device.Account()), old(device.rssiToReport))
    {
      device.AddRSSIMeasurement(r.time, r.rssi);
      base.AddRecentDevice(device);
      var processed;
      processed, now := HearAdvert(device, r);
    }

    /** A device has taken the step of a scan response; it was known, or it is new and had no epochs. */
    twostate predicate Stepped(new device: EbNDevice<Epoch>, r: ScanResponse, now: seq<Epoch>)
      requires 1 <= c.rsW <= 14 && |r.data| == ADVERT_BITS && |r.address| > 0
      reads this, base, deviceMap, device
    {
      && device.address == r.address && AtRest(c, device.epochs) && device.Valid()
      && deviceMap.idToDevice == old(deviceMap.idToDevice)[device.id := device]
      && base.recentDevices == [device] + Without(old(base.recentDevices), device.id)
      && (device.id in old(deviceMap.idToDevice) <==> old(IsKnown(deviceMap, r.address)))
      && (device.id in old(deviceMap.idToDevice) ==>
            && device == old(deviceMap.idToDevice)[device.id] && base.nextDeviceID == old(base.nextDeviceID)
            && SteppedFrom(device, r, old(dhExchange), now, old(device.epochs), old(device.matching),
                           old(device.Account()), old(device.rssiToReport)))
      && (device.id !in old(deviceMap.idToDevice) ==>
            && fresh(device) && device.id == old(base.nextDeviceID) && base.nextDeviceID == device.id + 1
            && SteppedFrom(device, r, old(dhExchange), now, [], base.listenSet, Secrets([], []), []))
    }

    /** The response is heard, and then every known device is a recent one again. */
    method HearAndIndex(device: EbNDevice<Epoch>, r: ScanResponse) returns (ghost now: seq<Epoch>)
      requires CodeOk(c) && |r.data| == ADVERT_BITS && device.Valid() && AtRest(c, device.epochs)
      requires device.address == r.address && |r.address| > 0
      requires deviceMap.Agree() && IdsUsed(base, deviceMap) && base.RecentValid()
      requires deviceMap.idToDevice == base.idToRecentDevices[device.id := device]
      modifies base`recentDevices, base`idToRecentDevices, device`rssiToReport, device`measured
      modifies device`epochs, device`matching, device`updatedMatching, device`matchingPFalse
      modifies device`sharedSecrets, device`secretsToReport, device`confirmed
      ensures Indexed(base, deviceMap) && device.Valid() && AtRest(c, device.epochs)
      ensures base.recentDevices == [device] + Without(old(base.recentDevices), device.id)
      ensures SteppedFrom(device, r, dhExchange, now, old(device.epochs), old(device.matching),
                          old(device.Account()), old(device.rssiToReport))
    {
      now := HearDevice(device, r);
    }

    /** What is known about a device, besides where it is. */
    ghost function Remembered(device: EbNDevice<Epoch>)
        : (seq<Epoch>, seq<LinkValue>, Secrets, seq<RSSIEvent>)
      reads device
    {
      (device.epochs, device.matching, device.Account(), device.rssiToReport)
    }

    /** The device of a scan response is found or made, and has not taken the step yet. */
    twostate predicate Found(new device: EbNDevice<Epoch>, address: Address)
      reads base, deviceMap, device
    {
      && device.address == address && AtRest(c, device.epochs) && device.Valid()
      && deviceMap.idToDevice == old(deviceMap.idToDevice)[device.id := device]
      && base.recentDevices == old(base.recentDevices)
      && (device.id in old(deviceMap.idToDevice) <==> old(IsKnown(deviceMap, address)))
      && (device.id in old(deviceMap.idToDevice) ==>
            && device == old(deviceMap.idToDevice)[device.id] && base.nextDeviceID == old(base.nextDeviceID)
            && Remembered(device) == old(Remembered(device)))
      && (device.id !in old(deviceMap.idToDevice) ==>
            && fresh(device) && device.id == old(base.nextDeviceID) && base.nextDeviceID == device.id + 1
            && IsNew(device, address, base.listenSet))
    }

    method FindDevice(address: Address) returns (device: EbNDevice<Epoch>)
      requires CodeOk(c) && Indexed(base, deviceMap) && DevicesValid(deviceMap) && AllAtRest()
      requires |address| == deviceMap.addressSize
      modifies base`nextDeviceID, deviceMap, deviceMap.idToDevice.Values`address
      ensures Found(device, address) && deviceMap.Agree() && IdsUsed(base, deviceMap) && base.RecentValid()
      ensures deviceMap.idToDevice == base.idToRecentDevices[device.id := device]
      ensures forall d :: d in old(deviceMap.idToDevice.Values) && d != device ==> unchanged(d)
    {
      deviceMap.SameDevices();
      device := FindOrAdd(base, deviceMap, address);
      assert device.Valid() && AtRest(c, device.epochs);
    }

    /** A scan response that is accepted. */
    method AcceptResponse(r: ScanResponse) returns (device: EbNDevice<Epoch>, ghost now: seq<Epoch>)
      requires CodeOk(c) && Indexed(base, deviceMap) && DevicesValid(deviceMap) && AllAtRest()
      requires |r.address| == deviceMap.addressSize > 0 && |r.data| == ADVERT_BITS
      modifies base`nextDeviceID, base`recentDevices, base`idToRecentDevices, deviceMap, deviceMap.idToDevice.Values
      ensures Indexed(base, deviceMap) && Stepped(device, r, now)
      ensures forall d :: d in old(deviceMap.idToDevice.Values) && d != device ==> unchanged(d)
    {
      device := FindDevice(r.address);
      now := HearAndIndex(device, r);
    }

    /** The other devices are as they were. */
    twostate lemma OthersStay(new device: EbNDevice<Epoch>)
      requires deviceMap.idToDevice == old(deviceMap.idToDevice)[device.id := device]
      requires old(DevicesValid(deviceMap)) && old(AllAtRest()) && device.Valid() && AtRest(c, device.epochs)
      requires forall d :: d in old(deviceMap.idToDevice.Values) && d != device ==> unchanged(d)
      ensures DevicesValid(deviceMap) && AllAtRest()
    {
      forall id | id in deviceMap.idToDevice
        ensures deviceMap.idToDevice[id].Valid() && AtRest(c, deviceMap.idToDevice[id].epochs)
      {
        if id != device.id { assert old(deviceMap.idToDevice[id]) in old(deviceMap.idToDevice.Values); }
      }
    }

    /**
     * processScanResponse: with correct checksums and length, the device of the address takes the step and is listed;
     * nothing changes otherwise.
     */
    method ProcessScanResponse(r: ScanResponse, discovered: seq<DiscoverEvent>)
      returns (found: seq<DiscoverEvent>, device: EbNDevice?<Epoch>, ghost now: seq<Epoch>)
      requires Valid() && |r.address| == deviceMap.addressSize > 0 && |r.data| == ADVERT_BITS
      modifies base`nextDeviceID, base`recentDevices, base`idToRecentDevices, deviceMap, deviceMap.idToDevice.Values
      ensures Valid() && 1 <= c.rsW <= 14
      ensures device != null
        <==> Checked(First(r.address)) && Checked(Second(r.address)) && r.length == ADVERT_BYTES
      ensures device != null ==>
        Stepped(device, r, now) && found == discovered + [DiscoverEvent(r.time, device.id, r.rssi)]
      ensures device == null ==>
        found == discovered && unchanged(base) && unchanged(deviceMap)
      ensures forall d :: d in old(deviceMap.idToDevice.Values) && d != device ==> unchanged(d)
    {
      assert Look(OfRadio, 0);
      found, device, now := discovered, null, [];
      var addressOK := VerifyChecksum(r.address);
      var lengthOK := r.length == ADVERT_BYTES;
      if addressOK && lengthOK {
        var heard;
        heard, now := AcceptResponse(r);
        OthersStay(heard);
        device := heard;
        found := discovered + [DiscoverEvent(r.time, heard.id, r.rssi)];
      }
    }

    // -------------------------------------------------------------- a new epoch of the radio

    /** The device has taken the step of a new epoch of the radio. */
    twostate predicate GotExchange(device: EbNDevice<Epoch>, exchange: int)
      reads device
    {
      && device.epochs == WithExchange(true, old(device.epochs), exchange)
      && device.Account() == WithExchanged(base.confirmType, old(device.Account()),
                                           SecretAtOnce(Confirming(), old(device.epochs), exchange))
    }

    method AddExchange(device: EbNDevice<Epoch>, exchange: int)
      requires HasPassive(base.confirmType) && device.Valid() && AtRest(c, device.epochs)
      modifies device`epochs, device`sharedSecrets, device`secretsToReport, device`confirmed
      ensures device.Valid() && AtRest(c, device.epochs) && GotExchange(device, exchange)
    {
      ExchangeKeepsValid(c, true, device.epochs, exchange);
      if device.epochs != [] {
        var last := |device.epochs| - 1;
        var curEpoch := device.epochs[last];
        if curEpoch.dhDecoder.isDecoded {
          UnconfirmedIsExchanged(base.confirmType, device.Account(),
                                 SecretAtOnce(Confirming(), device.epochs, exchange));
          device.AddUnconfirmed(computeSharedSecret(exchange, curEpoch.dhDecoder.data, curEpoch.yCoord));
        } else {
          curEpoch := curEpoch.(dhExchanges := curEpoch.dhExchanges + [exchange]);
          device.epochs := device.epochs[last := curEpoch];
        }
      }
    }

    method AddExchangeTo(id: DeviceID, exchange: int)
      requires HasPassive(base.confirmType) && Valid() && id in deviceMap.idToDevice
      modifies {deviceMap.idToDevice[id]}`epochs, {deviceMap.idToDevice[id]}`sharedSecrets
      modifies {deviceMap.idToDevice[id]}`secretsToReport, {deviceMap.idToDevice[id]}`confirmed
      ensures Valid() && GotExchange(deviceMap.idToDevice[id], exchange)
      ensures forall i :: i in deviceMap.idToDevice && i != id ==> deviceMap.idToDevice[i] != deviceMap.idToDevice[id]
    {
      assert Look(OfRadio, 0);
      IdsDiffer(deviceMap);
      AddExchange(deviceMap.idToDevice[id], exchange);
    }

    /** The loop of changeEpoch. */
    method AddExchanges(exchange: int)
      requires HasPassive(base.confirmType) && Valid()
      modifies deviceMap.idToDevice.Values`epochs, deviceMap.idToDevice.Values`sharedSecrets
      modifies deviceMap.idToDevice.Values`secretsToReport, deviceMap.idToDevice.Values`confirmed
      ensures Valid()
      ensures forall id :: id in deviceMap.idToDevice ==> GotExchange(deviceMap.idToDevice[id], exchange)
    {
      var left := deviceMap.idToDevice.Keys;
      while left != {}
        invariant left <= deviceMap.idToDevice.Keys && Valid()
        invariant forall id :: id in deviceMap.idToDevice && id !in left ==>
          GotExchange(deviceMap.idToDevice[id], exchange)
        invariant forall id :: id in left ==>
          var d := deviceMap.idToDevice[id];
          d.epochs == old(d.epochs) && d.Account() == old(d.Account())
        decreases |left|
      {
        HasElement(left);
        var id :| id in left;
        AddExchangeTo(id, exchange);
        left := left - {id};
      }
    }

    /** The key of the new exchange is what is sent from now on. */
    method RenewKey(exchange: int)
      requires Valid() && SenderValid()
      modifies this`dhExchange, sender`advertNum, sender`key, sender`symbols, sender`dhPrevSymbols, sender`epoch
      ensures Valid() && SenderValid() && dhExchange == exchange && sender.advertNum == 0
      ensures sender.epoch
        == SentEpoch(publicX(exchange), c.encode(publicX(exchange)), old(sender.epoch).codeword, map[])
    {
      assert Look(OfRadio, 0);
      dhExchange := exchange;
      sender.ChangeEpoch(publicX(dhExchange));
    }

    /**
     * changeEpoch: the symbols of a new key are sent from now on, and the devices take the step of a new epoch of the
     * radio; with passive confirmation the newest epoch of each will complete the new exchange, or has completed it.
     */
    method ChangeEpoch(exchange: int)
      requires Valid() && SenderValid()
      modifies this`dhExchange, base`nextChangeEpoch
      modifies sender`advertNum, sender`key, sender`symbols, sender`dhPrevSymbols, sender`epoch
      modifies deviceMap.idToDevice.Values`epochs, deviceMap.idToDevice.Values`sharedSecrets
      modifies deviceMap.idToDevice.Values`secretsToReport, deviceMap.idToDevice.Values`confirmed
      ensures Valid() && SenderValid() && dhExchange == exchange && sender.advertNum == 0
      ensures base.nextChangeEpoch == old(base.nextChangeEpoch) + EPOCH_INTERVAL
      ensures sender.epoch
        == SentEpoch(publicX(exchange), c.encode(publicX(exchange)), old(sender.epoch).codeword, map[])
      ensures EpochBegan(exchange)
    {
      RenewKey(exchange);
      BeginEpoch(exchange);
      Postpone();
    }

    /** The devices have taken the step of a new epoch of the radio, and nothing else has changed. */
    twostate predicate EpochBegan(exchange: int)
      reads deviceMap, deviceMap.idToDevice.Values
    {
      && deviceMap.idToDevice == old(deviceMap.idToDevice)
      && forall id :: id in deviceMap.idToDevice ==>
        var d := deviceMap.idToDevice[id];
        && Moves(c, OwnEpoch(HasPassive(base.confirmType), exchange), old(d.epochs), old(d.epochs), d.epochs)
        && d.matching == old(d.matching)
        && if HasPassive(base.confirmType) then GotExchange(d, exchange)
           else d.Account() == old(d.Account())
    }

    method BeginEpoch(exchange: int)
      requires Valid()
      modifies deviceMap.idToDevice.Values`epochs, deviceMap.idToDevice.Values`sharedSecrets
      modifies deviceMap.idToDevice.Values`secretsToReport, deviceMap.idToDevice.Values`confirmed
      ensures Valid() && EpochBegan(exchange)
    {
      if HasPassive(base.confirmType) { AddExchanges(exchange); }
    }

    method Postpone()
      requires Valid()
      modifies base`nextChangeEpoch
      ensures Valid() && base.nextChangeEpoch == old(base.nextChangeEpoch) + EPOCH_INTERVAL
    {
      assert Look(OfRadio, 0);
      base.nextChangeEpoch := base.nextChangeEpoch + EPOCH_INTERVAL;
    }
  }
}
