# SDDR encounters and their arithmetic, modelled in Dafny

SDDR lets mobile devices notice each other over Bluetooth without being tracked. A device changes its address and its
key exchange every epoch, advertises Bloom filters of link values instead of the values, and reports encounters to the
application. This project models the parts of it that are hard to get right and proves what they are for. The bundled
big-number and prime code in `third-party/gmp` is modelled as well.

| files | what they model |
|---|---|
| `Controller.dfy`, `Stories.dfy`, `EventLog.dfy`, `HystPolicy.dfy`, `PolicyLimits.dfy`, `RadioBT2.dfy`, `Radio.dfy` | the controller loop, what its log tells, the hysteresis policy and its limits, and the Bluetooth 2.1 radio |
| `Device.dfy`, `DeviceMap.dfy`, `KnownDevices.dfy`, `Address.dfy` | what is known about a device, the two indices of devices, what both radios do with them, and addresses that shift |
| `BT4Advert.dfy`, `BT4Receiver.dfy`, `BT4Decoding.dfy`, `BT4Matching.dfy`, `BT4OneEpoch.dfy`, `BT4Erasing.dfy`, `BT4Secrets.dfy`, `BT4Network.dfy`, `RadioBT4.dfy`, `RadioBT4Runs.dfy` | the Bluetooth 4 radio: sender, receiver, decoding across epochs, what matches and what is erased, any part of one epoch, how secrets are confirmed, all that a sender sends, and the whole life of a radio |
| `BloomFilter.dfy`, `ErasureDecoder.dfy` | Bloom filters in segments, and the state of the erasure decoder |
| `BitMap.dfy`, `BinaryToUTF8.dfy`, `SipHash.dfy`, `SipHashVector.dfy` | bit copies, the text encoding, the two SipHash implementations, and a published digest worked out round by round |
| `NextPrime.dfy`, `Wheel.dfy`, `Primes.dfy` | the segmented sieve |
| `LongLong.dfy` | multiplication and division of two words |
| `Limbs.dfy`, `Mpz.dfy`, `MpzMul.dfy`, `MpzShift.dfy`, `MpzBits.dfy`, `MpzDiv.dfy`, `MpzRoot.dfy`, `MpzInvert.dfy`, `TrialDivision.dfy` | the small bignum library |
| `MangleSeed.dfy` | the seed mangling of the Mersenne twister |
| `Arith.dfy`, `Hiding.dfy` | integer facts, and the predicate behind which invariants are kept |

`dafny verify dfyconfig.toml` checks everything.

## How the model reads the source

- **Objects.** Devices, maps, radios, policy, controller, filters, decoders, sieve and bignums are classes whose methods
  change their fields. Epochs are values in a list, as they are in the source. Loops are loops.
- **What comes from outside.** Clock readings, random numbers, the contents of the air, the callback and the results of key exchanges are
  parameters. SHA-256, key exchanges and the field arithmetic of the erasure code are functions; that a code
  recovers its data is the condition `Recovers`. Probabilities are real numbers.
- **Wrap-around.** Words are numbers with explicit `%`, and time differences are 64-bit unsigned (`Elapsed`). In the
  sieve the window start that the source lets wrap around once is negative here, and its test `s0 < 3` is
  `0 <= s0 < 3`. The window has at least two positions.
- **Limbs.** A limb is half of a 64-bit word, 32 bits. A result may be the same object as an operand.
- **Invariants behind `Look`.** Some invariants are quantified over `Look`, a predicate of `Hiding.dfy` that is always
  true. This says no more than the invariant itself; the verifier opens it only where a proof mentions `Look` for the
  same kind of invariant, which keeps the other proofs short.
- **Runs of a Bluetooth 4 receiver.** What happens to a device is a sequence of steps: an advertisement is heard, with the
  exchange of the receiver and the bit of the address at that time; bits with another number are heard; or the receiver
  begins an epoch of its own. `ProcessScanResponse` and `ChangeEpoch` take these steps, and whatever happens to a radio,
  each of its devices has a run (`RadioBT4Runs.Live`).
- **Images.** What the controller proves over a round compares its devices at several times; each is then given by its
  `Image`, a value with all that it has to say and all that has been said of it.
- **Bits and bytes.** `BitMap.dfy` has bytes of eight booleans. `bitcpy` reads one source byte after the range, so the
  source array has one to spare; the result does not depend on it.

## Where the code differs from its description

- `mpz_tdiv_qr` compares with `>` where `>=` is meant: equal operands give q = 0 and r = b
  (`MpzDiv.WrongExactlyForEqualOperands`). `mpz_root`, which uses it, is right all the same, except for y = z = 2
  (`MpzRoot.SquareRootOfTwoFails`).
- `mpz_sub` gives the difference exactly when a >= b.
- `BinaryToUTF8::encode` writes one byte more than `getNumEncodedBits` promises exactly when the last full group is zero
  and has no partner, which needs a length that is a multiple of seven.
- `lastAdvertNum` and `lastAdvertTime` of an epoch are those of its first advertisement; they are never updated.
- A receiver that first heard advert 0 or 1 of an epoch takes the first advert of the next epoch for a duplicate, unless it
  comes much later. So when an epoch ends before rsK of its adverts were sent, a row across its end does not decode
  (`BT4Decoding.AnyRowDecodes`, `BT4Decoding.ShortEpochIsMissed`).
- The queue of `fillBloomFilter` yields the secrets that are most likely to be wrong first, although the comment
  calls them the most confident ones.
- The scheme `Immediate` takes the branch without memory too, because of the bit that it has in common with
  `ImmediateNoMem`; the order of events is proved for `Standard`.

## Model

| member | source | states |
|---|---|---|
| Controller.EbNController.Run | source/EbNController.cpp:35-105 | Whatever the air, the clocks and the key exchanges bring, after any number of rounds the events of every device id are one UnconfirmedStarted, then perhaps one Started and any number of Updated, then perhaps one Ended, and nothing after; the policy table and the device map hold the same ids; for every known encounter that is confirmed the log has told each of its confirmed secrets exactly once and its matching set as it is, and for every known device all measurements that are not pending; the table is the one that the limits of the policy describe (`PolicyLimits.LimitsHold`) |
| Controller.EbNController.DiscoverRound | source/EbNController.cpp:63-99 | The events of a round are, in this order: one UnconfirmedStarted for exactly the heard ids that were not in the table; one Started or Updated for exactly the heard devices that had news when they were asked, with all that was pending, after which nothing but measurements is pending for any confirmed encounter; one Ended, with its last time and the measurements that were left, for exactly the devices whose limit has passed. Table, map, recent list and log agree afterwards |
| Controller.EbNController.EpochRound | source/EbNController.cpp:59-61 | An epoch change reports nothing, leaves the table alone and keeps the agreement |
| Controller.EbNController.Announce | source/EbNController.cpp:72-76 | Every newly discovered id gets exactly one first event, at the time of its discovery |
| Controller.EbNController.CollectNews | source/EbNController.cpp:78-85 | Exactly the devices with news tell it, in one event each and completely, also when a device was heard several times in the round; the others are as they were |
| Controller.EbNController.EndExpired | source/EbNController.cpp:87-93 | Exactly the expired devices end, each once, with its last time and the measurements that were left, and are forgotten |
| Controller.EbNController.Completeness | source/EbNController.cpp:63-99 | After any round the log accounts for all measurements, and of every confirmed encounter it has told each confirmed secret once and the matching set that holds |
| Stories.HeardOn | source/EbNController.cpp:65-65 | Hearing devices changes nothing that has been reported, and those that were not heard have nothing more to tell |
| Stories.OneMoreAsked | source/EbNController.cpp:78-85 | Asking about one more device of the list: if it has news it tells all of it in one event and has none when it is listed again, and the log goes on with what is reported |
| Stories.NewsAreTold | source/EbNController.cpp:78-85 | After the last question no confirmed encounter has secrets or matches that were not told |
| Stories.StoriesAreOrderly | source/EbNController.cpp:63-99 | The relation between log and devices implies that the events of every id are in order |
| Stories.Announced | source/EbNController.cpp:72-76 | The relation is kept when a device that has not been announced is |
| Stories.ReportedOn | source/EbNController.cpp:78-85 | The relation is kept when a known device starts or is updated |
| Stories.OverNow | source/EbNController.cpp:87-93 | The relation is kept when a known device ends |
| EventLog.PhaseIsOrder | include/EbNEvents.h:50-56 | The phase automaton reaches its error phase exactly for the logs in which the events of an id are out of order |
| HystPolicy.EbNHystPolicy.Discover | source/EbNHystPolicy.cpp:20-78 | With the Standard scheme each heard device has the last time, the count of strong signals and the state that follow from all its events, the new ones are listed once, and exactly the encounters among the heard ones are to be handshaken; every other scheme leaves the table alone and lists every event |
| HystPolicy.EbNHystPolicy.Encounter | source/EbNHystPolicy.cpp:80-103 | Confirmed devices become encounters, also when they were not in the table; nothing else changes |
| HystPolicy.EbNHystPolicy.CheckExpired | source/EbNHystPolicy.cpp:105-146 | Exactly the devices that were not heard for longer than the limit of their state leave the table, each listed once with its last time |
| HystPolicy.EbNHystPolicy.OneMoreHeard | source/EbNHystPolicy.cpp:31-64 | Handling the events one at a time gives what the counts over all of them say |
| PolicyLimits.LimitsHold | source/EbNHystPolicy.cpp:20-146 | Over any number of rounds in which time goes on, a device is in the table exactly if it has been heard and then never been silent for longer than maxStartTime, or endTime once it is an encounter; it is one exactly if since then it was heard well startSeen times and at least minStartTime lies between first and last hearing; the table holds these times and this count |
| Device.EbNDevice.UpdateMatching | source/EbNDevice.cpp:32-56 | Exactly the link values for which the filter answers yes stay, in their order; an update is pending exactly when one was pending or something was erased; the invariant of the device is kept |
| Device.EbNDevice.AddSharedSecret | source/EbNDevice.cpp:58-94 | A new value is appended, a known one is confirmed at most once; a report is added exactly when a secret becomes confirmed; secrets stay distinct and accounted for |
| Device.EbNDevice.ConfirmPassive | source/EbNDevice.cpp:96-133 | Every secret becomes what its test says, and exactly the newly confirmed ones are added to the reports, in their order |
| Device.EbNDevice.GetEncounterInfo | source/EbNDevice.cpp:140-210 | An event is filled in exactly when there is news of a confirmed, handshaken device; it holds exactly what was pending, and nothing is pending afterwards |
| Device.EbNDevice.GetExpiredInfo | source/EbNDevice.cpp:144-158 | The last event is an Ended with id, address and all measurements that were not reported yet; after it all have been |
| Device.ReportedOrPending | source/EbNDevice.cpp:58-133 | Over any mix of the operations a secret is confirmed exactly when it has been delivered or is pending, never both, and never twice |
| Device.FlagMeansConfirmed | source/EbNDevice.cpp:71-88 | `confirmed_` holds exactly when one of the secrets is confirmed |
| Device.EbNDevice.ToldIsComplete | source/EbNDevice.cpp:161-206 | When nothing is pending for a confirmed encounter, its reports hold each confirmed secret once and its matching set |
| Device.ConfirmedAndReported | source/EbNDevice.cpp:69-73 | Confirming a secret and pushing its report keeps secrets and reports accounted for |
| Device.AddedSecret | source/EbNDevice.cpp:83-90 | Adding a new secret keeps them accounted for |
| Device.FilteredExactly | source/EbNDevice.cpp:39-52 | A value stays in the matching set exactly when it was there and the filter answers yes |
| Device.ConfirmedByStreak | source/EbNDevice.cpp:105-132 | Over any sequence of filters, passive confirmation confirms a secret exactly when at some time the answers since the last no make a mistake as unlikely as the threshold asks for |
| Device.TestsAge | source/EbNDevice.cpp:101-132 | Any sequence of filters makes of each secret what its own tests make of it, whatever the others are |
| Device.ConfirmedIsAdded | source/EbNDevice.cpp:58-94 | Adding a confirmed secret makes exactly its value confirmed besides, and reports it exactly if it was not before |
| Device.UnconfirmedAges | source/EbNDevice.cpp:58-94 | Adding an unconfirmed secret confirms nothing, reports nothing and leaves all others as they are |
| DeviceMap.EbNDeviceMap.Get | include/EbNDeviceMap.h:111-121 | A device is found exactly when a scan of all addresses would find an equal or a shifted one; it then has the new address, and the two indices and the devices agree one to one |
| DeviceMap.EbNDeviceMap.FindShiftedMatch | include/EbNDeviceMap.h:76-97 | The device of a shifted address moves to the new one; without one nothing changes |
| DeviceMap.EbNDeviceMap.SearchBucket | include/EbNDeviceMap.h:76-97 | Searching one bucket finds a shifted address exactly when there is one at all |
| DeviceMap.ShiftsShareBucket | include/Address.h:13-21 | The half-address hash puts every address that could have been shifted to this one in the searched bucket, for any hash |
| DeviceMap.EbNDeviceMap.Add | include/EbNDeviceMap.h:123-128 | Keys that are there stay; for a new address and id the indices agree afterwards, also if the insertion makes the index grow |
| DeviceMap.EbNDeviceMap.RemoveId | include/EbNDeviceMap.h:148-164 | Both entries of the device go, and no other |
| DeviceMap.EbNDeviceMap.RemoveAddress | include/EbNDeviceMap.h:130-146 | Both entries of the device go, and no other |
| DeviceMap.EbNDeviceMap.Clear | include/EbNDeviceMap.h:166-171 | Both indices are empty |
| KnownDevices.FindOrAdd | source/EbNRadioBT4.cpp:404-413 | A device is made exactly when none has the address or one that was shifted to it; a new one may match the whole listen set |
| Address.ShiftWithPartial | source/Address.cpp:41-65 | The result is the shifted address of one of the draws and differs from the old address |
| Address.ShiftIsRecognized | source/Address.cpp:41-65 | A shifted address is recognized as a shift, its new half has a correct checksum, and its other half has one exactly when the old first half had |
| Address.GenerateWithPartial | source/Address.cpp:23-39 | Both halves are random bytes with the bits from outside and their checksums |
| Address.GeneratedIsChecked | source/Address.cpp:23-39 | A generated address passes `verifyChecksum` |
| Address.PartialReadsBack | source/Address.cpp:32-34 | The bits from outside can be read back, also in halves of one byte if the checksum spares them |
| Address.VerifyChecksum | source/Address.cpp:122-134 | True exactly when each half ends in its own checksum |
| Address.ComputeChecksum | source/Address.cpp:136-148 | The low half of the wrapped sum of all half bytes but the last |
| Address.ChecksumIsSum | source/Address.cpp:136-148 | That is the natural sum of all half bytes but the last, modulo 16 |
| Address.IsShift | source/Address.cpp:107-120 | True exactly when the second half is the first half of the other address |
| Address.Unshift | source/Address.cpp:67-78 | The second half becomes the first one |
| Address.Swap | source/Address.cpp:80-90 | The bytes in reverse order |
| Radio.EbNRadio.AddRecentDevice | source/EbNRadio.cpp:138-144 | The device is at the front of the recent list and only there; list and index agree |
| Radio.EbNRadio.RemoveRecentDevice | source/EbNRadio.cpp:146-154 | The device is out of list and index, the others keep their order |
| Radio.EbNRadio.GetDeviceEvent | source/EbNRadio.cpp:204-217 | Only a recent device can have an event, and exactly when it has news |
| Radio.EbNRadio.GetNextAction | source/EbNRadio.cpp:156-177 | The action that is due first, and a time that is not negative and does not pass it |
| Radio.EbNRadio.FillBloomFilter | source/EbNRadio.cpp:81-136 | A bit is set afterwards exactly if it was before, or is one of the first link values of the advertised set for which there is room, of one of the chosen secrets, or of one of the random draws; the chosen secrets are, with passive confirmation, as many of the not actively confirmed secrets of all recent devices as there is room for, and none that is left out is more likely to be wrong; the number of entries is always the same |
| Radio.EbNRadio.AddPassive | source/EbNRadio.cpp:121-127 | The secrets that go in are those with the largest probability of being wrong, and no bits but theirs are set |
| Radio.FillingIsContained | source/EbNRadio.cpp:81-136 | A filter with exactly these bits contains every value that was put in |
| Radio.EbNRadio.CollectSecrets | source/EbNRadio.cpp:107-119 | The secrets that were not confirmed actively, of all recent devices |
| RadioBT2.EbNRadioBT2.Discover | source/EbNRadioBT2.cpp:49-65 | Exactly the accepted responses are listed, with their times and strengths; what is listed is known, nothing else has become known or has changed, ids are fresh, nothing is reported, and the next inquiry is due 60 seconds later, give or take one |
| RadioBT2.EbNRadioBT2.ProcessResponse | source/EbNRadioBT2.cpp:171-207 | Exactly the responses with correct checksums, length and type are heard: the device of the address, found or new, gets the epochs, matching set, secrets and measurement that follow from its state before, and is listed with time, id and strength; no other device changes |
| RadioBT2.EbNRadioBT2.ProcessAdvert | source/EbNRadioBT2.cpp:248-341 | A duplicate or a number that is too large changes nothing; a new epoch adds exactly the secret of its exchange, confirmed at once without confirmation and unsupported otherwise; an epoch that goes on lets the filter test every secret with passive confirmation, and none without; the matching set keeps what the filter contains with the key of the epoch |
| RadioBT2.EbNRadioBT2.ProcessEpochs | source/EbNRadioBT2.cpp:343-358 | Only the newest epoch stays |
| RadioBT2.OneEpochHeard | source/EbNRadioBT2.cpp:271-358 | However often and in whatever order the adverts of an epoch are heard in time, the device has this one epoch, whatever it had before |
| RadioBT2.OneEpochTests | source/EbNRadioBT2.cpp:248-341 | Over the adverts of an epoch, exactly those after the first number test the secrets, in their order |
| RadioBT2.ConfirmedInEpoch | source/EbNRadioBT2.cpp:331-334 | With passive confirmation an unconfirmed secret becomes confirmed in the course of an epoch exactly if at some time the answers of these adverts since the last no make a mistake as unlikely as the threshold asks for |
| RadioBT2.ConfirmedAtOnce | source/EbNRadioBT2.cpp:299-308 | Without confirmation the secret of a new epoch is confirmed, and reported if it was not before |
| RadioBT2.EbNRadioBT2.Handshake | source/EbNRadioBT2.cpp:110-139 | Every device asked for has shaken hands; exactly the confirmed ones that have are returned |
| RadioBT2.EbNRadioBT2.DoneWithDevice | source/EbNRadioBT2.cpp:141-152 | A known device is out of all indices, no other device changes, and its Ended event holds the measurements that were left, so that all have been reported |
| RadioBT2.EbNRadioBT2.ChangeEpoch | source/EbNRadioBT2.cpp:67-108 | With passive confirmation every device with an epoch gets the secret of the new exchange, unconfirmed, if the exchange works; nothing is confirmed or to be reported by that, and nothing else changes |
| RadioBT2.EbNRadioBT2.DeviceEvent | source/EbNRadio.cpp:204-217 | Exactly a known device with news tells, in one event, the pending secrets, the matching set if it was updated and the pending measurements; Started the first time and Updated afterwards; no other device changes |
| BT4Decoding.AnyRowDecodes | source/EbNRadioBT4.cpp:83-105 | Any rsK adverts in a row that a new receiver hears in time, inside one epoch or across its end, after whatever number of adverts the sender ends it, give the decoder of one epoch the rsK different symbols of the codeword that are the direct and the leftover ones of the row, all with valid indices, and the epoch decodes to that key: exactly if the crossing is seen; the bit of the address may change with the epoch, and in between the receiver may begin epochs of its own and hear bits with other numbers |
| BT4Decoding.CrossingAdvert | source/EbNRadioBT4.cpp:487-516 | The first advert of the next epoch begins a new one, after whatever number of adverts of the old epoch, and its leftover symbol continues the codeword of the old one |
| BT4Decoding.CrossingIsSeen | source/EbNRadioBT4.cpp:463-483 | The first advert of the next epoch begins one exactly if the first advert heard has a number above 1 or was heard long enough ago; otherwise it is taken for a duplicate |
| BT4Decoding.ShortEpochIsMissed | source/EbNRadioBT4.cpp:467-476 | An input for which it is: advert 0 of an epoch, and one scan interval later advert 0 of the next epoch |
| BT4Decoding.MissedRow | source/EbNRadioBT4.cpp:467-483 | After a crossing that is not seen every epoch has fewer symbols than adverts were heard, so rsK in a row do not decode |
| BT4Decoding.NextOfTwo | source/EbNRadioBT4.cpp:458-516 | Later adverts go to the new epoch and their leftover symbols to the old one, after whatever number of adverts it was ended |
| BT4Decoding.RunIsAtRest | source/EbNRadioBT4.cpp:396-426 | After every step of every run, with any exchanges, address bits and epochs of the receiver itself, there are at most two epochs, the older one undecoded, the counts of the decoders are right and undecoded epochs have a filter |
| BT4Decoding.StepExtendsRun | source/EbNRadioBT4.cpp:396-426 | What a radio does to a device, step by step, is a run |
| BT4Decoding.MovingRests | source/EbNRadioBT4.cpp:396-426 | Each of the three kinds of step brings the epochs to rest |
| BT4Decoding.ProcessedLeavesTwo | source/EbNRadioBT4.cpp:552-649 | However many epochs there are, processing leaves at most two, the older undecoded, and never drops the newest |
| BT4Decoding.AdvertKeepsValid | source/EbNRadioBT4.cpp:428-550 | An advert keeps the counts, the index bounds and the filters of all epochs |
| BT4Matching.NoMatchIsLost | source/EbNRadioBT4.cpp:518-543 | In any run over any number of epochs of the sender and of the receiver in which every advert is taken for one of the epoch that it was sent in, a link value in the listen set and in all filters sent is never erased from the matching set |
| BT4OneEpoch.NoMatchIsLostInOneEpoch | source/EbNRadioBT4.cpp:587-613 | For any part of the adverts of one epoch, in any order after the first one heard, no match is lost, if they have higher numbers and are heard in time or repeat the first pair; the receiver may begin epochs of its own meanwhile |
| BT4OneEpoch.FollowsExactly | source/EbNRadioBT4.cpp:463-483 | These numbers and times are exactly those that do not begin another epoch |
| BT4OneEpoch.AnyEnoughDecode | source/EbNRadioBT4.cpp:508-516 | In such a run the epoch is decoded, to the sender's key, exactly when rsK different adverts have been heard, in any order after the first and with any repeats |
| BT4Erasing.MatchesExactly | source/EbNRadioBT4.cpp:550-640 | Whatever part of the adverts of an epoch is heard, in any order after the first and with repeats: once rsK different ones are there exactly those link values still match that no heard segment rules out, and before nothing is erased |
| BT4Erasing.OthersAreErased | source/EbNRadioBT4.cpp:585-613 | So a link value that is not in a filter of the sender does not match any more when both segments of that filter and enough adverts have been heard |
| BT4Erasing.ErasedForGood | source/EbNRadioBT4.cpp:585-613 | In any run, what a new filter of a decoded epoch denies leaves the matching set in that step and never comes back |
| BT4Erasing.SiftedExactly | source/EbNRadioBT4.cpp:587-613 | Exactly the values for which every new filter says yes stay |
| BT4Erasing.TakenIsHeard | source/SegmentedBloomFilter.cpp:65-78 | A filter of the receiver lacks only bits that the filter that is sent lacks, in segments that have been heard, and all of those |
| BT4Matching.RightRunIsOwned | source/EbNRadioBT4.cpp:488-543 | Every epoch of the receiver holds symbols and filters of one epoch of the sender only |
| BT4Matching.SettledIsFaithful | source/EbNRadioBT4.cpp:559-627 | Decoding and dropping filters keeps an epoch faithful to its sender |
| BT4Network.SendEpoch | source/EbNRadioBT4.cpp:336-394 | The adverts of an epoch come with the numbers in order up to the last one, and a link value for which there is room in every advertised set, however the set changes, is in all filters |
| BT4Network.SendEpochs | source/EbNRadioBT4.cpp:83-105 | The same over any number of epochs, each with the leftover symbols of the one before |
| BT4Network.SendToReceivers | source/EbNRadioBT4.cpp:587-613 | From sender to receivers: if the code recovers the keys that are sent, what is always offered is never erased by any receiver that listens for it, whatever part of the adverts it hears and in whatever order, as long as they are taken for ones of their epochs |
| BT4Network.RepetitionRecovers | source/RSErasureDecoder.cpp:99-142 | What is asked of a code can be met: a code that repeats the key recovers it from any symbol |
| RadioBT4.EbNRadioBT4.ProcessAdvert | source/EbNRadioBT4.cpp:428-550 | The epochs become what the specification of a step says; duplicates and numbers that are too large change nothing |
| RadioBT4.EbNRadioBT4.ProcessEpochs | source/EbNRadioBT4.cpp:552-649 | Decoding, using the filters and dropping past epochs give the epochs of `Processed`, the matching set of `SiftedByAll` and the secrets of `AfterEpochs`, whose meaning the lemmas of `BT4Secrets.dfy` and `BT4Erasing.dfy` state |
| RadioBT4.EbNRadioBT4.ProcessScanResponse | source/EbNRadioBT4.cpp:396-426 | Exactly a response with correct checksums and length makes the device of its address, found or new, take the step of a run: its epochs, matching set and secrets are those that the step gives, it is listed and measured, and no other device changes |
| RadioBT4.EbNRadioBT4.ProcessBlooms | source/EbNRadioBT4.cpp:587-627 | Every new filter is used once, on the matching set, and with passive confirmation on the secrets if it is a later one than those with which the key came; exactly the filters that are still needed stay |
| BT4Secrets.EpochsAddSecrets | source/EbNRadioBT4.cpp:561-583 | Processing makes known exactly the secrets of the exchanges of the epochs that it decodes |
| BT4Secrets.DecodedIsConfirmed | source/EbNRadioBT4.cpp:564-577 | Without confirmation exactly these become confirmed, and are reported if they were not before |
| BT4Secrets.DecodedIsUnsure | source/EbNRadioBT4.cpp:564-577 | With confirmation decoding confirms and reports nothing: new secrets begin with a probability of 1, the others stay |
| BT4Secrets.EpochAges | source/EbNRadioBT4.cpp:585-613 | The filters of an epoch that are later than the one with which its key came, and no others, then test every secret of the device |
| BT4Secrets.AllTestsCount | source/EbNRadioBT4.cpp:550-640 | In the life of a device every secret is what all the tests since it was added, over all steps and epochs, make of it |
| BT4Secrets.ConfirmedInLife | source/EbNRadioBT4.cpp:550-640 | With confirmation a secret is confirmed exactly if the threshold is below 1 and at some time since it was added the answers since the last no make a mistake as unlikely as the threshold |
| BT4Secrets.AllConfirmedInLife | source/EbNRadioBT4.cpp:550-640 | Without confirmation all secrets of a device are confirmed at all times |
| RadioBT4.EbNRadioBT4.ChangeEpoch | source/EbNRadioBT4.cpp:83-135 | The sender sends the key of the new exchange with the old leftover symbols; with passive confirmation the newest epoch of every device gets the exchange if it is not decoded, and its unconfirmed secret at once if it is; otherwise epochs and secrets stay as they are |
| RadioBT4Runs.Live | source/EbNRadioBT4.cpp:83-137 | Whatever scan responses, epochs and listen sets come, every known device has a run that has led to its epochs, its matching set and its secrets; if the run is right for epochs of a sender that has a link value in all its filters, a value that is always listened for still matches; and every secret of every device is confirmed exactly if there is no confirmation or the tests since it was added speak for it long enough |
| RadioBT4Runs.HearResponse | source/EbNRadioBT4.cpp:396-426 | A scan response goes on with the run of its device, or begins one, and leaves all other runs alone |
| RadioBT4Runs.BeginEpoch | source/EbNRadioBT4.cpp:83-137 | A new epoch of the radio goes on with the runs of all devices |
| BT4Advert.Sender.ChangeAdvert | source/EbNRadioBT4.cpp:367-394 | Two adverts of the epoch are sent, with the two segments of one filter, until all ADV_N are sent; the set bits of that filter are exactly those of the advertised link values for which there is room, of the chosen secrets and of the random draws; what was sent before stays part of the epoch |
| BT4Advert.Sender.GenerateAdvert | source/EbNRadioBT4.cpp:307-365 | The bits are those of an advert of the epoch: number, symbol, leftover symbol and segment |
| BT4Advert.Sender.ChangeEpoch | source/EbNRadioBT4.cpp:83-105 | The symbols left over from the old codeword are the ones that the next epoch sends first |
| BT4Advert.ReadsBack | source/EbNRadioBT4.cpp:307-365 | Reading a packed advert gives its parts back, for all parameters that fit |
| BT4Advert.SentStays | source/EbNRadioBT4.cpp:307-365 | An advert of an epoch stays one while more of its filters are made |
| BT4Advert.NumReadsBack | source/EbNRadioBT4.cpp:436-444 | The bits of a number give the number back |
| BT4Advert.PrefixIsOwn | source/EbNRadioBT4.cpp:340-358 | Entries are hashed with a prefix that no other filter number and no other key has |
| ErasureDecoder.RSErasureDecoder.SetSymbol | source/RSErasureDecoder.cpp:79-97 | The first symbol of an index counts and is kept, later ones are ignored; the count is that of the received bits; the answer says if there are enough |
| ErasureDecoder.RSErasureDecoder.Decode | source/RSErasureDecoder.cpp:99-142 | The data is rebuilt once, exactly when there are enough symbols |
| ErasureDecoder.SymbolKeepsHonest | source/RSErasureDecoder.cpp:79-97 | A symbol of the codeword keeps the decoder true to it |
| ErasureDecoder.DecodingKeepsHonest | source/RSErasureDecoder.cpp:99-142 | With a code that recovers, the decoded data is that of the codeword |
| BloomFilter.BloomFilter.Add | source/BloomFilter.cpp:73-91 | The value is contained afterwards; a bit is set exactly if it was before or is one of the value |
| BloomFilter.BloomFilter.Query | source/BloomFilter.cpp:108-131 | Yes exactly when all bits of the value are set |
| BloomFilter.BloomFilter.AddRandom | source/BloomFilter.cpp:93-99 | A bit is set exactly if it was before or is one of the K*count draws |
| BloomFilter.CoverKeepsValue | source/BloomFilter.cpp:115-131 | A filter with more bits answers yes at least as often |
| BloomFilter.SegmentedBloomFilter.SetSegment | source/SegmentedBloomFilter.cpp:65-78 | Exactly the bits of the segment are replaced, and its probability counts the first time only |
| BloomFilter.SegmentedBloomFilter.constructor | source/SegmentedBloomFilter.cpp:41-63 | The offsets are the sums of the sizes before, all bits are ones if asked for |
| BloomFilter.SegmentedBloomFilter.GetSegment | include/SegmentedBloomFilter.h:64-67 | The bits of the segment |
| BloomFilter.SegmentKeepsCover | source/SegmentedBloomFilter.cpp:65-78 | Receiving segments of a filter loses none of its bits, whatever part and order |
| BloomFilter.SegmentReadsBack | source/SegmentedBloomFilter.cpp:65-78 | A segment that was set is read again, and the others are as before |
| BloomFilter.SegmentBits | source/SegmentedBloomFilter.cpp:65-67 | Exactly the bits at the place of the segment are those of the source |
| BloomFilter.SegmentFits | source/SegmentedBloomFilter.cpp:49-56 | Every segment lies within the filter |
| BitMap.Bitcpy | source/BitMap.cpp:48-98 | For all offsets and lengths destination bit destOffset+i is source bit sourceOffset+i for i < length, and every other bit is as before |
| BitMap.CopiedIsUnique | source/BitMap.cpp:48-98 | Only one result has this property, so it is that of a copy of one bit at a time |
| BitMap.MergeExtends | source/BitMap.cpp:59-74 | The masked exclusive-or of one byte copies exactly the bits asked for |
| BitMap.FullByte | source/BitMap.cpp:79-83 | A byte put together from two source bytes copies eight bits |
| BinaryToUTF8.Encode | source/BinaryToUTF8.cpp:7-84 | The buffer holds the text that the specification gives for the input bits, and is as before after it |
| BinaryToUTF8.Decode | source/BinaryToUTF8.cpp:93-135 | The buffer holds the bytes of the bits that the text carries, and is as before after them |
| BinaryToUTF8.RoundTrip | source/BinaryToUTF8.cpp:7-135 | Decoding an encoded input gives back its first length/8 bytes, for all inputs and lengths |
| BinaryToUTF8.TextIsUtf8 | source/BinaryToUTF8.cpp:58-82 | The text is valid UTF-8 by the grammar of section 4 of RFC 3629, and has no zero byte |
| BinaryToUTF8.EncodingLength | include/BinaryToUTF8.h:24-27 | The text has ceil(length/7) bytes, and one more exactly when the last full group is zero and has no partner |
| BinaryToUTF8.LastGroupIsFull | include/BinaryToUTF8.h:24-27 | That byte more can only occur when the length is a multiple of seven |
| BinaryToUTF8.ZeroGroupIsLonger | include/BinaryToUTF8.h:24-27 | An input for which it does: seven zero bits become two bytes |
| BinaryToUTF8.EncodingProper | source/BinaryToUTF8.cpp:36-82 | No one-byte character is zero, also with padding |
| BinaryToUTF8.EncodingKeepsBits | source/BinaryToUTF8.cpp:36-70 | The characters carry the input bits and after them nothing but ones |
| BinaryToUTF8.PayloadOfText | source/BinaryToUTF8.cpp:101-118 | The decoder collects exactly the bits that the characters carry |
| BinaryToUTF8.ChunksOfInput | source/BinaryToUTF8.cpp:120-134 | Cutting these bits into bytes gives the input bytes |
| SipHash.SipHash24 | source/SipHash.cpp:78-114 | For every key and every message the digest is that of section 2 of the SipHash paper, from the padded message |
| SipHash.CSipHash24 | third-party/csiphash/csiphash.c:77-115 | The same digest, for every key and every message |
| SipHash.Hasher.SipRound | source/SipHash.cpp:10-28 | One SipRound of the paper |
| SipHash.Hasher.DoubleRound | third-party/csiphash/csiphash.c:64-74 | Four half rounds are two SipRounds |
| SipHash.SipLast | source/SipHash.cpp:65-76 | The last word is that of the padded last block |
| SipHash.LastWord | third-party/csiphash/csiphash.c:100-111 | The fall-through tail with the length in the top byte is the same word, for lengths of any size |
| SipHash.Get64le | source/SipHash.cpp:40-51 | The word of eight bytes, lowest first |
| SipHash.Put64le | source/SipHash.cpp:53-61 | Bytes that stand for the word again |
| SipHash.Rotl64 | source/SipHash.cpp:5-8 | Rotation by s bits is s rotations by one bit |
| SipHash.RotatedParts | source/SipHash.cpp:5-8 | After s rotations the upper s bits are at the lower end |
| SipHash.XorAssoc | third-party/csiphash/csiphash.c:115-115 | The two ways to combine the last four words agree |
| SipHash.XorIsBitwise | source/SipHash.cpp:10-28 | Each bit of the exclusive-or is the sum of the two bits modulo 2, for numbers of any size |
| SipHash.XorTwice | source/SipHash.cpp:97-100 | Exclusive-or with the same word again gives the word back |
| SipHash.AddUndone | source/SipHash.cpp:12-26 | Addition of words can be undone |
| SipHashVector.TestVector | source/SipHash.cpp:5-114 | The digest of the bytes 0 to 14 under the key of the bytes 0 to 15 is 0xa129ca6149be45e5, as in appendix A of the SipHash paper |
| NextPrime.PrimeSieve.Next | third-party/gmp/nextprime.c:49-147 | The n-th call returns the n-th prime, none skipped or repeated; the recursion ends |
| NextPrime.FirstPrimes | third-party/gmp/nextprime.c:49-156 | Any number of calls after the initialization gives the primes in order from the first on |
| NextPrime.PrimeSieve.constructor | third-party/gmp/nextprime.c:149-156 | The initialization, from which the first call goes to 2 |
| NextPrime.PrimeSieve.Resieve | third-party/gmp/nextprime.c:82-145 | Exactly the composite positions of the window are struck out |
| NextPrime.PrimeSieve.MarkMultiples | third-party/gmp/nextprime.c:132-141 | Exactly the positions of multiples of p other than p are struck out as well |
| NextPrime.CompositeIsHit | third-party/gmp/nextprime.c:91-93 | Every composite in the window has a sieving prime up to the root |
| NextPrime.FirstMultiple | third-party/gmp/nextprime.c:95-99 | The starting position is that of the first multiple of p |
| Primes.LargerPrime | third-party/gmp/nextprime.c:146-146 | There is a prime above every number, so the recursion on an empty window ends |
| Primes.EveryPrimeIsNth | third-party/gmp/nextprime.c:49-147 | Every prime is among those that are enumerated |
| Primes.NthPrimeIncreasing | third-party/gmp/nextprime.c:49-147 | The enumeration is strictly increasing |
| Wheel.PassesOver | third-party/gmp/nextprime.c:128-144 | Every number that a step of the wheel passes over has a factor 2, 3, 5 or 7 |
| Wheel.Turn | third-party/gmp/nextprime.c:142-143 | A step leads to the next position of the wheel, also across its end |
| Wheel.AddTab | third-party/gmp/nextprime.c:54-56 | The table leads through exactly the numbers that are coprime to 210: each position is one, and none is passed over |
| LongLong.UdivQrnnd | third-party/gmp/longlong.h:1968-2006 | For every even word size, d with its top bit set and n1 < d: q*d + r = n1*2^W + n0 with r < d and one-word q, although intermediate values wrap around |
| LongLong.Correct | third-party/gmp/longlong.h:1976-1986 | At most two corrections make the half digit and the remainder right, wrapped comparisons included |
| LongLong.HalfDigit | third-party/gmp/longlong.h:1973-1987 | One half digit of the quotient with its remainder |
| LongLong.GuessBounds | third-party/gmp/longlong.h:1973-1977 | The guess times the low half of d does not overflow a word |
| LongLong.UmulPpmm | third-party/gmp/longlong.h:1928-1951 | w1*2^W + w0 = u*v for every even word size |
| LongLong.AddCross | third-party/gmp/longlong.h:1941-1946 | At most one carry out of the cross products, which is accounted for |
| Mpz.Add | third-party/gmp/dumbmp.c:354-394 | The exact sum, normalized, also when the result is an operand |
| Mpz.Sub | third-party/gmp/dumbmp.c:407-460 | The exact difference if and only if a >= b, normalized, also when the result is an operand |
| Mpz.BorrowMeansLess | third-party/gmp/dumbmp.c:425-442 | The last borrow is one exactly when a < b |
| MpzMul.Mul | third-party/gmp/dumbmp.c:473-506 | The exact product of numbers of any sign, normalized, also when the result is an operand |
| MpzMul.MulLimbs | third-party/gmp/dumbmp.c:484-500 | Schoolbook multiplication of limbs gives the product of the values |
| MpzMul.MulAddLimb | third-party/gmp/dumbmp.c:490-495 | A limb step does not overflow the word |
| MpzMul.Mul2exp | third-party/gmp/dumbmp.c:519-528 | The exact product with a power of two |
| MpzMul.PowUi | third-party/gmp/dumbmp.c:866-877 | The exact power of a number of any sign |
| MpzMul.AddmulUi | third-party/gmp/dumbmp.c:879-888 | x becomes x + y*z, also when x is y |
| MpzMul.Set | third-party/gmp/dumbmp.c:254-260 | The value of the operand |
| MpzMul.SetUi | third-party/gmp/dumbmp.c:269-279 | The value of two limbs |
| MpzShift.TdivQ2exp | third-party/gmp/dumbmp.c:546-594 | The magnitude shifted down, with the sign of the operand, normalized |
| MpzShift.Cmp | third-party/gmp/dumbmp.c:615-638 | The order of the values |
| MpzBits.TdivR2exp | third-party/gmp/dumbmp.c:596-613 | The low bits of the magnitude, with the sign of the operand |
| MpzBits.SetBit | third-party/gmp/dumbmp.c:288-309 | 2^bit is added exactly when the bit is not set |
| MpzBits.TstBit | third-party/gmp/dumbmp.c:311-325 | The bit of the value |
| MpzBits.SizeInBase2 | third-party/gmp/dumbmp.c:234-252 | The number of bits: the value is below 2^n and not below 2^(n-1) |
| MpzDiv.TdivQr | third-party/gmp/dumbmp.c:651-685 | Quotient and remainder for all a >= 0, b > 0 with a != b; for equal operands q = 0 and r = b, as the comparison in the source has it |
| MpzDiv.WrongExactlyForEqualOperands | third-party/gmp/dumbmp.c:664-664 | The result is that of the division exactly when the operands differ |
| MpzDiv.DivisionIs | third-party/gmp/dumbmp.c:651-685 | Any q and r with a = q*b + r and r < b are the ones computed, for a != b |
| MpzDiv.QuotientStep | third-party/gmp/dumbmp.c:669-679 | Every round keeps a = q*b' + r with r < b', with b' halved, so the assertion after the subtraction holds |
| MpzDiv.AlignedDivisor | third-party/gmp/dumbmp.c:666-667 | The divisor is shifted far enough |
| MpzRoot.Root | third-party/gmp/dumbmp.c:890-922 | The loop ends with floor(y^(1/z)) for all y >= 0 and z >= 1 but y = z = 2, although the division answers 0 for equal operands |
| MpzRoot.StepKeepsAbove | third-party/gmp/dumbmp.c:908-916 | An iterate never falls below the root, and one that does not fall is the root |
| MpzRoot.Bernoulli | third-party/gmp/dumbmp.c:908-916 | The inequality between arithmetic and geometric mean that this needs, over the integers |
| MpzRoot.RootIsUnique | third-party/gmp/dumbmp.c:889-889 | There is one root only |
| MpzRoot.SquareRootOfTwoFails | third-party/gmp/dumbmp.c:890-922 | For y = z = 2 the iteration falls to 0, and would then divide by 0 |
| MpzInvert.Invert2exp | third-party/gmp/dumbmp.c:826-853 | For odd a and n >= 1 the result is below 2^n and the inverse of a modulo 2^n |
| MpzInvert.NextBit | third-party/gmp/dumbmp.c:838-848 | Each round makes one more bit right, and the bit that is set was not set before |
| MpzInvert.InverseIsInverse | third-party/gmp/dumbmp.c:852-852 | The product leaves the remainder 1 |
| TrialDivision.IsPrimeNumber | third-party/gmp/dumbmp.c:104-139 | True exactly for the primes |
| TrialDivision.TableFrom | third-party/gmp/dumbmp.c:109-110 | The bit table is right for all numbers below 32 |
| TrialDivision.NoMoreDivisors | third-party/gmp/dumbmp.c:124-135 | Without a divisor below d, a quotient below d means that t is prime |
| MangleSeed.Mangle | third-party/gmp/randmts.c:27-65 | r is congruent to b^1074888996 modulo 2^n - 20023 and below 2^n, for n = 19937 and every other n that is large enough |
| MangleSeed.Reduce | third-party/gmp/randmts.c:42-50 | Reducing ends, keeps the residue and leaves r below 2^n |
| MangleSeed.Fold | third-party/gmp/randmts.c:45-49 | Each pass keeps the residue and makes r strictly smaller |
| MangleSeed.PowerBit | third-party/gmp/randmts.c:38-60 | One bit of the exponent: square, and one more factor exactly when the bit is set |

## Left out

- Bluetooth HCI, sockets, wake locks, logging, threads and locks, the command line: plumbing. A handshake is one step.
- The address of the radio itself, which lies with the Bluetooth controller: `Address.ShiftWithPartial` is what is done to it. In `RadioBT4.dfy` handshakes and `doneWithDevice` are left out; they are those of `RadioBT2.dfy`.
- OpenSSL, jerasure and jl10psi internals: they appear as functions with the conditions that are stated.
- The `NoMemory` memory scheme and the schemes `Immediate` and `ImmediateNoMem` in the run of the controller: without memory the ids of policy and map do not agree, and events repeat.
- The active and the PSI handshake, BT2NR, BT2PSI and BT4AR: unfinished in the source or dependent on code that is not visible.
- That BT2 loses no match: it sends all but the last 16 bits of its filter, so this is true of BT4 only. The answers of a BT2 filter are a function.
- `computeRSSymbolSize` and `computePFalse`: floating point. The symbol size is any that leaves room for a segment, the factors of probabilities are any reals; `BT4Erasing.MatchesExactly` needs them to be below 1, as a power of 1 - exp(-x) is.
- BT4Decoding.AnyRowDecodes: receptions that come later than the time windows of `processAdvert` allow are not covered, because the source then begins a new epoch.
- BT4Matching.NoMatchIsLost: an advert that is taken for one of another epoch is not covered; the source cannot tell it apart, and it may then decode a wrong key.
- Controller.EbNController.Run: device ids are unbounded; the source counts them in 32 bits.
- Address.ShiftWithPartial: the draws are a sequence whose last element makes the address differ; that random draws do so at some time is not modelled.
- MangleSeed.Mangle: GMP's integers are natural numbers here, the limb code of GMP itself is not part of this model.
- NextPrime.PrimeSieve.Next: the numbers of the sieve are unbounded, overflow of `unsigned long` is not modelled.
- MpzMul.AddmulUi: only non-negative operands, which is all that `mpz_root` passes.
- The copy constructor and the assignment of `RSErasureDecoder`: they copy values.
- `mpz_get_str`, `mpz_preinv_invert`, `mpz_tdiv_r` and the other wrappers of dumbmp.c: they add only calls of what is modelled.
- The default constructor of `SipHash`, Base64, hexadecimal printing and getters: easy.
