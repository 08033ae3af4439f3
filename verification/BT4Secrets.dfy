/**
 * What the Bluetooth 4 radio of source/EbNRadioBT4.cpp makes of the shared secrets of a device: decoding an epoch
 * completes its key exchanges, and filters that come later test what is not confirmed yet.
 */
module BT4Secrets {
  import opened BT4Advert
  import opened BT4Decoding
  import opened BT4Receiver
  import opened BloomFilter
  import opened Device
  import opened ErasureDecoder
  import opened Hiding
  import opened Radio

  /** How a radio confirms secrets, and what a key exchange with a public key and its other coordinate gives. */
  datatype ConfirmScheme = ConfirmScheme(
    c: Code, confirmType: ConfirmType, threshold: real, computeSharedSecret: (int, Symbol, bool) -> Secret)

  // ---------------------------------------------------------------- decoding

  /** The secret of one of the key exchanges that an epoch has been through. */
  function SecretAt(s: ConfirmScheme, e: Epoch, i: nat): Secret
    requires i < |e.dhExchanges|
  {
    s.computeSharedSecret(e.dhExchanges[i], e.dhDecoder.data, e.yCoord)
  }

  /** The secrets of the first n of them. */
  ghost function SecretsOf(s: ConfirmScheme, e: Epoch, n: nat): set<LinkValue>
    requires n <= |e.dhExchanges|
  {
    if n == 0 then {}
    else
      var secret := SecretAt(s, e, n - 1);
      SecretsOf(s, e, n - 1) + (if secret.Computed? then {secret.value} else {})
  }

  ghost function WithSecretsOf(s: ConfirmScheme, a: Secrets, e: Epoch, n: nat): Secrets
    requires n <= |e.dhExchanges|
  {
    if n == 0 then a else WithExchanged(s.confirmType, WithSecretsOf(s, a, e, n - 1), SecretAt(s, e, n - 1))
  }

  /** The epoch is decoded now, and the radio does not confirm actively. */
  ghost predicate Completes(s: ConfirmScheme, e: Epoch)
    requires EpochValid(s.c, e)
  {
    && DecodedEpoch(s.c, e).dhDecoder.isDecoded && !e.dhDecoder.isDecoded
    && s.confirmType in {NoConfirm, PassiveConfirm}
  }

  /** Decoding an epoch completes all its key exchanges. */
  ghost function NewSecrets(s: ConfirmScheme, e: Epoch): set<LinkValue>
    requires EpochValid(s.c, e)
  {
    var r := DecodedEpoch(s.c, e);
    if Completes(s, e) then SecretsOf(s, r, |r.dhExchanges|) else {}
  }

  ghost function AfterDecoding(s: ConfirmScheme, a: Secrets, e: Epoch): Secrets
    requires EpochValid(s.c, e)
  {
    var r := DecodedEpoch(s.c, e);
    if Completes(s, e) then WithSecretsOf(s, a, r, |r.dhExchanges|) else a
  }

  // ---------------------------------------------------------------- testing

  /** A filter tests the secrets if it has a new segment, and is a later one than those with which the key came. */
  function NewTest(s: ConfirmScheme, num: nat, f: Filter, key: Symbol, decodeBloomNum: nat): seq<Test>
    requires |f.bits| > 0
  {
    if f.pFalse != 1.0 && HasPassive(s.confirmType) && num > decodeBloomNum then
      [Test(Answers(s.c, num, f, key), f.pFalse)]
    else []
  }

  function TestsOf(s: ConfirmScheme, blooms: seq<(nat, Filter)>, key: Symbol, decodeBloomNum: nat): seq<Test>
    requires BloomsOk(s.c, blooms)
  {
    if |blooms| == 0 then []
    else
      SizesSum(s.c, blooms[0].0);
      NewTest(s, blooms[0].0, blooms[0].1, key, decodeBloomNum) + TestsOf(s, blooms[1..], key, decodeBloomNum)
  }

  /** The tests of an epoch, if it is or can be decoded. */
  ghost function TestsOfEpoch(s: ConfirmScheme, e: Epoch): seq<Test>
    requires EpochValid(s.c, e)
  {
    assert Look(OfEpoch, 0);
    var d := DecodedEpoch(s.c, e);
    if d.dhDecoder.isDecoded then TestsOf(s, e.blooms, d.dhDecoder.data, d.decodeBloomNum) else []
  }

  /** What an epoch makes of the secrets: its own ones are added, and then its filters test all of them. */
  ghost function AfterEpoch(s: ConfirmScheme, a: Secrets, e: Epoch): Secrets
    requires EpochValid(s.c, e)
  {
    WithTests(AfterDecoding(s, a, e), TestsOfEpoch(s, e), s.threshold)
  }

  ghost function AfterEpochs(s: ConfirmScheme, a: Secrets, todo: seq<Epoch>): Secrets
    requires EpochsValid(s.c, todo)
    decreases |todo|
  {
    if |todo| == 0 then a else AfterEpochs(s, AfterEpoch(s, a, todo[0]), todo[1..])
  }

  ghost function AllNewSecrets(s: ConfirmScheme, todo: seq<Epoch>): set<LinkValue>
    requires EpochsValid(s.c, todo)
    decreases |todo|
  {
    if |todo| == 0 then {} else NewSecrets(s, todo[0]) + AllNewSecrets(s, todo[1..])
  }

  ghost function TestsOfAll(s: ConfirmScheme, todo: seq<Epoch>): seq<Test>
    requires EpochsValid(s.c, todo)
    decreases |todo|
  {
    if |todo| == 0 then [] else TestsOfEpoch(s, todo[0]) + TestsOfAll(s, todo[1..])
  }

  // ---------------------------------------------------------------- what this means

  lemma {:induction false} TestsKeepValues(a: Secrets, tests: seq<Test>, threshold: real)
    ensures Values(WithTests(a, tests, threshold).known) == Values(a.known)
  {
    if tests != [] {
      var front, last := tests[..|tests| - 1], tests[|tests| - 1];
      TestsKeepValues(a, front, threshold);
      var before := WithTests(a, front, threshold);
      TestedValues(before.known, WithTests(a, tests, threshold).known, last.query, threshold, last.pFalse);
    }
  }

  lemma ExchangedValues(t: ConfirmType, a: Secrets, secret: Secret)
    ensures Values(WithExchanged(t, a, secret).known)
      == Values(a.known) + (if secret.Computed? then {secret.value} else {})
  {
    if secret.Computed? {
      var s := SharedSecret(secret.value, if t == NoConfirm then 0.0 else 1.0, t == NoConfirm, Nobody);
      var now := WithSecret(a, s).known;
      if s.value in Values(a.known) {
        SameValues(a.known, now);
      } else {
        assert forall x :: x in now <==> x in a.known || x == s;
      }
    }
  }

  lemma SameValues(before: seq<SharedSecret>, now: seq<SharedSecret>)
    requires |now| == |before| && forall i :: 0 <= i < |now| ==> now[i].value == before[i].value
    ensures Values(now) == Values(before)
  {
    forall i | 0 <= i < |now| ensures now[i] in now && before[i] in before {}
    assert forall s :: s in now ==> s.value in Values(before);
    assert forall s :: s in before ==> s.value in Values(now);
  }

  lemma {:induction false} AllExchangedValues(s: ConfirmScheme, a: Secrets, e: Epoch, n: nat)
    requires n <= |e.dhExchanges|
    ensures Values(WithSecretsOf(s, a, e, n).known) == Values(a.known) + SecretsOf(s, e, n)
  {
    if n > 0 {
      AllExchangedValues(s, a, e, n - 1);
      ExchangedValues(s.confirmType, WithSecretsOf(s, a, e, n - 1), SecretAt(s, e, n - 1));
    }
  }

  /** The secrets of the epochs that are decoded become known, and no others. */
  lemma {:induction false} EpochsAddSecrets(s: ConfirmScheme, a: Secrets, todo: seq<Epoch>)
    requires EpochsValid(s.c, todo)
    ensures Values(AfterEpochs(s, a, todo).known) == Values(a.known) + AllNewSecrets(s, todo)
    decreases |todo|
  {
    if |todo| > 0 {
      var r := DecodedEpoch(s.c, todo[0]);
      AllExchangedValues(s, a, r, |r.dhExchanges|);
      TestsKeepValues(AfterDecoding(s, a, todo[0]), TestsOfEpoch(s, todo[0]), s.threshold);
      EpochsAddSecrets(s, AfterEpoch(s, a, todo[0]), todo[1..]);
    }
  }

  /** Without confirmation there are no tests. */
  lemma {:induction false} NothingTests(s: ConfirmScheme, blooms: seq<(nat, Filter)>, key: Symbol, decodeBloomNum: nat)
    requires s.confirmType == NoConfirm && BloomsOk(s.c, blooms)
    ensures TestsOf(s, blooms, key, decodeBloomNum) == []
  {
    if |blooms| > 0 { NothingTests(s, blooms[1..], key, decodeBloomNum); }
  }

  /** Secrets have been added that are confirmed, and those of them that were not before are to be reported. */
  ghost predicate ConfirmedBesides(a: Secrets, added: set<LinkValue>, r: Secrets) {
    && ConfirmedValues(r.known) == ConfirmedValues(a.known) + added
    && Values(r.toReport) == Values(a.toReport) + (added - ConfirmedValues(a.known))
  }

  lemma ConfirmedInTurn(a: Secrets, first: set<LinkValue>, between: Secrets, second: set<LinkValue>, r: Secrets)
    requires ConfirmedBesides(a, first, between) && ConfirmedBesides(between, second, r)
    ensures ConfirmedBesides(a, first + second, r)
  {}

  lemma NothingConfirmed(a: Secrets)
    ensures ConfirmedBesides(a, {}, a)
  {}

  lemma ExchangedIsConfirmed(a: Secrets, secret: Secret)
    ensures ConfirmedBesides(a, if secret.Computed? then {secret.value} else {}, WithExchanged(NoConfirm, a, secret))
  {
    if secret.Computed? { ConfirmedIsAdded(a, SharedSecret(secret.value, 0.0, true, Nobody)); }
  }

  lemma {:induction false} AllConfirmed(s: ConfirmScheme, a: Secrets, e: Epoch, n: nat)
    requires s.confirmType == NoConfirm && n <= |e.dhExchanges|
    ensures ConfirmedBesides(a, SecretsOf(s, e, n), WithSecretsOf(s, a, e, n))
  {
    if n == 0 {
      NothingConfirmed(a);
    } else {
      var secret, before := SecretAt(s, e, n - 1), WithSecretsOf(s, a, e, n - 1);
      AllConfirmed(s, a, e, n - 1);
      ExchangedIsConfirmed(before, secret);
      ConfirmedInTurn(a, SecretsOf(s, e, n - 1), before, if secret.Computed? then {secret.value} else {},
                      WithSecretsOf(s, a, e, n));
    }
  }

  lemma EpochIsConfirmed(s: ConfirmScheme, a: Secrets, e: Epoch)
    requires s.confirmType == NoConfirm && EpochValid(s.c, e)
    ensures ConfirmedBesides(a, NewSecrets(s, e), AfterEpoch(s, a, e))
  {
    assert Look(OfEpoch, 0);
    var d := DecodedEpoch(s.c, e);
    NothingTests(s, e.blooms, d.dhDecoder.data, d.decodeBloomNum);
    AllConfirmed(s, a, d, |d.dhExchanges|);
    NothingConfirmed(a);
  }

  /** Without confirmation, what decoding gives is confirmed and reported at once. */
  lemma {:induction false} DecodedIsConfirmed(s: ConfirmScheme, a: Secrets, todo: seq<Epoch>)
    requires s.confirmType == NoConfirm && EpochsValid(s.c, todo)
    ensures ConfirmedBesides(a, AllNewSecrets(s, todo), AfterEpochs(s, a, todo))
    decreases |todo|
  {
    if |todo| == 0 {
      NothingConfirmed(a);
    } else {
      EpochIsConfirmed(s, a, todo[0]);
      DecodedIsConfirmed(s, AfterEpoch(s, a, todo[0]), todo[1..]);
      ConfirmedInTurn(a, NewSecrets(s, todo[0]), AfterEpoch(s, a, todo[0]), AllNewSecrets(s, todo[1..]),
                      AfterEpochs(s, a, todo));
    }
  }

  /** A secret that nothing speaks for yet. */
  function Fresh(value: LinkValue): SharedSecret {
    SharedSecret(value, 1.0, false, Nobody)
  }

  /** Secrets have been added that are as unsure as can be, and nothing else has changed. */
  ghost predicate UnsureBesides(a: Secrets, r: Secrets) {
    && a.known <= r.known && r.toReport == a.toReport
    && forall i :: |a.known| <= i < |r.known| ==>
      r.known[i] == Fresh(r.known[i].value) && r.known[i].value !in Values(a.known)
  }

  lemma {:induction false} AllUnsure(s: ConfirmScheme, a: Secrets, e: Epoch, n: nat)
    requires s.confirmType != NoConfirm && n <= |e.dhExchanges|
    ensures UnsureBesides(a, WithSecretsOf(s, a, e, n))
  {
    if n > 0 {
      AllUnsure(s, a, e, n - 1);
      var before, secret := WithSecretsOf(s, a, e, n - 1), SecretAt(s, e, n - 1);
      if secret.Computed? {
        UnconfirmedAges(before, Fresh(secret.value), s.threshold);
        assert forall x :: x in a.known ==> x in before.known;
      }
    }
  }

  /** With passive confirmation decoding confirms nothing: what it gives has all of its tests before it. */
  lemma DecodedIsUnsure(s: ConfirmScheme, a: Secrets, e: Epoch)
    requires s.confirmType != NoConfirm && EpochValid(s.c, e)
    ensures UnsureBesides(a, AfterDecoding(s, a, e))
    ensures ConfirmedValues(AfterDecoding(s, a, e).known) == ConfirmedValues(a.known)
    ensures Values(AfterDecoding(s, a, e).known) == Values(a.known) + NewSecrets(s, e)
  {
    var d := DecodedEpoch(s.c, e);
    AllUnsure(s, a, d, |d.dhExchanges|);
    AllExchangedValues(s, a, d, |d.dhExchanges|);
    NoneConfirmed(a, AfterDecoding(s, a, e));
  }

  lemma NoneConfirmed(a: Secrets, r: Secrets)
    requires UnsureBesides(a, r)
    ensures ConfirmedValues(r.known) == ConfirmedValues(a.known)
  {
    forall v | v in ConfirmedValues(r.known) ensures v in ConfirmedValues(a.known) {
      var x :| x in r.known && x.confirmed && x.value == v;
      var i :| 0 <= i < |r.known| && r.known[i] == x;
      assert a.known[i] in a.known;
    }
    forall v | v in ConfirmedValues(a.known) ensures v in ConfirmedValues(r.known) {
      var x :| x in a.known && x.confirmed && x.value == v;
      var i :| 0 <= i < |a.known| && a.known[i] == x;
      assert r.known[i] == x && x in r.known;
    }
  }

  /** The filters of an epoch then make of every secret, old or new, what their tests make of it. */
  lemma EpochAges(s: ConfirmScheme, a: Secrets, e: Epoch)
    requires s.confirmType != NoConfirm && EpochValid(s.c, e)
    ensures Aged(AfterDecoding(s, a, e).known, TestsOfEpoch(s, e), s.threshold, AfterEpoch(s, a, e).known)
    ensures |AfterEpoch(s, a, e).known| == |AfterDecoding(s, a, e).known|
    ensures Aged(a.known, TestsOfEpoch(s, e), s.threshold, AfterEpoch(s, a, e).known)
  {
    var d := AfterDecoding(s, a, e);
    DecodedIsUnsure(s, a, e);
    TestsAge(d, TestsOfEpoch(s, e), s.threshold);
    forall i | 0 <= i < |a.known| ensures a.known[i] == d.known[i] {}
  }

  lemma {:induction false} EpochsAge(s: ConfirmScheme, a: Secrets, todo: seq<Epoch>)
    requires s.confirmType != NoConfirm && EpochsValid(s.c, todo)
    ensures Aged(a.known, TestsOfAll(s, todo), s.threshold, AfterEpochs(s, a, todo).known)
    decreases |todo|
  {
    if |todo| > 0 {
      var between := AfterEpoch(s, a, todo[0]);
      EpochAges(s, a, todo[0]);
      EpochsAge(s, between, todo[1..]);
      AgedInTurn(a.known, TestsOfEpoch(s, todo[0]), between.known, TestsOfAll(s, todo[1..]),
                 AfterEpochs(s, a, todo).known, s.threshold);
    }
  }

  // ---------------------------------------------------------------- whole runs

  /** What a new exchange of the radio gives at once: a secret with the key of the newest epoch, if it is decoded. */
  function SecretAtOnce(s: ConfirmScheme, epochs: seq<Epoch>, exchange: int): Secret {
    var last := |epochs| - 1;
    if last >= 0 && epochs[last].dhDecoder.isDecoded then
      s.computeSharedSecret(exchange, epochs[last].dhDecoder.data, epochs[last].yCoord)
    else NoSecret
  }

  lemma UnconfirmedIsExchanged(t: ConfirmType, a: Secrets, secret: Secret)
    requires t != NoConfirm
    ensures WithExchanged(t, a, secret) == Secrets(WithUnconfirmed(a.known, secret), a.toReport)
  {
    if secret.Computed? { UnconfirmedAges(a, Fresh(secret.value), 0.0); }
  }

  /** What a step makes of the secrets. */
  ghost predicate Accounts(s: ConfirmScheme, step: Step, epochs: seq<Epoch>, now: seq<Epoch>, a: Secrets, r: Secrets) {
    && EpochsValid(s.c, now)
    && r == match step
            case OwnEpoch(passive, exchange) =>
              if passive then WithExchanged(s.confirmType, a, SecretAtOnce(s, epochs, exchange)) else a
            case Hear(_, _, _) => AfterEpochs(s, a, now)
            case BadNumber => AfterEpochs(s, a, now)
  }

  ghost predicate SecretsRun(s: ConfirmScheme, r: Run, secrets: seq<Secrets>) {
    && |secrets| == |r.steps| + 1 && |r.now| == |r.steps| && |r.rest| == |r.steps| + 1
    && forall i :: 0 <= i < |r.steps| ==>
      Accounts(s, r.steps[i], r.rest[i], r.now[i], secrets[i], secrets[i + 1])
  }

  lemma StepAges(s: ConfirmScheme, step: Step, epochs: seq<Epoch>, now: seq<Epoch>, a: Secrets, r: Secrets)
    requires s.confirmType != NoConfirm && Accounts(s, step, epochs, now, a, r)
    ensures Aged(a.known, if step.OwnEpoch? then [] else TestsOfAll(s, now), s.threshold, r.known)
  {
    match step
    case OwnEpoch(passive, exchange) =>
      var secret := SecretAtOnce(s, epochs, exchange);
      if passive && secret.Computed? { UnconfirmedAges(a, Fresh(secret.value), s.threshold); }
    case Hear(_, _, _) => EpochsAge(s, a, now);
    case BadNumber => EpochsAge(s, a, now);
  }

  /** The tests of the epochs since the one that added the secret with number i. */
  ghost function TestsOn(s: ConfirmScheme, a: Secrets, todo: seq<Epoch>, i: nat): seq<Test>
    requires EpochsValid(s.c, todo)
    decreases |todo|
  {
    if |todo| == 0 then []
    else if i < |AfterDecoding(s, a, todo[0]).known| then TestsOfAll(s, todo)
    else TestsOn(s, AfterEpoch(s, a, todo[0]), todo[1..], i)
  }

  /** A secret that is added is made what it is by the tests since then. */
  lemma {:induction false} AddedAndTested(s: ConfirmScheme, a: Secrets, todo: seq<Epoch>, i: nat)
    requires s.confirmType != NoConfirm && EpochsValid(s.c, todo)
    requires |a.known| <= i < |AfterEpochs(s, a, todo).known|
    ensures var secret := AfterEpochs(s, a, todo).known[i];
      secret == TestedByAll(Fresh(secret.value), TestsOn(s, a, todo, i), s.threshold)
    decreases |todo|
  {
    var d, between, tests := AfterDecoding(s, a, todo[0]), AfterEpoch(s, a, todo[0]), TestsOfEpoch(s, todo[0]);
    if i < |d.known| {
      DecodedIsUnsure(s, a, todo[0]);
      EpochAges(s, a, todo[0]);
      EpochsAge(s, between, todo[1..]);
      AgedInTurn(d.known, tests, between.known, TestsOfAll(s, todo[1..]), AfterEpochs(s, a, todo).known, s.threshold);
      TestsKeepValue(d.known[i], TestsOfAll(s, todo), s.threshold);
    } else {
      EpochAges(s, a, todo[0]);
      AddedAndTested(s, between, todo[1..], i);
    }
  }

  lemma {:induction false} TestsKeepValue(secret: SharedSecret, tests: seq<Test>, threshold: real)
    ensures TestedByAll(secret, tests, threshold).value == secret.value
  {
    if tests != [] {
      TestsKeepValue(secret, tests[..|tests| - 1], threshold);
    }
  }

  /** The tests of the first n steps since the one that added the secret with number i. */
  ghost function TestsSince(s: ConfirmScheme, r: Run, secrets: seq<Secrets>, n: nat, i: nat): seq<Test>
    requires SecretsRun(s, r, secrets) && n <= |r.steps|
    decreases n
  {
    if n == 0 then []
    else
      var k := n - 1;
      assert Accounts(s, r.steps[k], r.rest[k], r.now[k], secrets[k], secrets[k + 1]);
      if i < |secrets[k].known| then
        TestsSince(s, r, secrets, k, i) + (if r.steps[k].OwnEpoch? then [] else TestsOfAll(s, r.now[k]))
      else if r.steps[k].OwnEpoch? then []
      else TestsOn(s, secrets[k], r.now[k], i)
  }

  lemma StepAdds(s: ConfirmScheme, step: Step, epochs: seq<Epoch>, now: seq<Epoch>, a: Secrets, r: Secrets, i: nat)
    requires s.confirmType != NoConfirm && Accounts(s, step, epochs, now, a, r) && |a.known| <= i < |r.known|
    ensures r.known[i]
      == TestedByAll(Fresh(r.known[i].value), if step.OwnEpoch? then [] else TestsOn(s, a, now, i), s.threshold)
  {
    match step
    case OwnEpoch(passive, exchange) =>
      var secret := SecretAtOnce(s, epochs, exchange);
      UnconfirmedIsExchanged(s.confirmType, a, secret);
    case Hear(_, _, _) => AddedAndTested(s, a, now, i);
    case BadNumber => AddedAndTested(s, a, now, i);
  }

  /** In the life of a device, every secret is what all the tests since it was added have made of it. */
  lemma {:induction false} AllTestsCount(s: ConfirmScheme, r: Run, secrets: seq<Secrets>, n: nat, i: nat)
    requires s.confirmType != NoConfirm && SecretsRun(s, r, secrets) && secrets[0].known == []
    requires n <= |r.steps| && i < |secrets[n].known|
    ensures var secret := secrets[n].known[i];
      secret == TestedByAll(Fresh(secret.value), TestsSince(s, r, secrets, n, i), s.threshold)
    decreases n
  {
    if n > 0 {
      var k := n - 1;
      assert Accounts(s, r.steps[k], r.rest[k], r.now[k], secrets[k], secrets[k + 1]);
      if i < |secrets[k].known| {
        var value, before := secrets[k].known[i].value, TestsSince(s, r, secrets, k, i);
        var more := if r.steps[k].OwnEpoch? then [] else TestsOfAll(s, r.now[k]);
        AllTestsCount(s, r, secrets, k, i);
        StepAges(s, r.steps[k], r.rest[k], r.now[k], secrets[k], secrets[n]);
        TestedInTurn(Fresh(value), before, more, s.threshold);
        TestsKeepValue(Fresh(value), before + more, s.threshold);
      } else {
        StepAdds(s, r.steps[k], r.rest[k], r.now[k], secrets[k], secrets[n], i);
      }
    }
  }

  lemma {:induction false} NeverTested(value: LinkValue, tests: seq<Test>, threshold: real)
    requires threshold >= 1.0
    ensures TestedByAll(Fresh(value), tests, threshold) == Fresh(value)
  {
    if tests != [] { NeverTested(value, tests[..|tests| - 1], threshold); }
  }

  /**
   * With confirmation, a secret is confirmed exactly if at some time since it was added the answers of the filters that
   * came after the key have been yes so often that this is unlikely enough to be a mistake.
   */
  lemma ConfirmedInLife(s: ConfirmScheme, r: Run, secrets: seq<Secrets>, n: nat, i: nat)
    requires s.confirmType != NoConfirm && SecretsRun(s, r, secrets) && secrets[0].known == []
    requires n <= |r.steps| && i < |secrets[n].known|
    ensures var secret := secrets[n].known[i];
      secret.confirmed
      <==> s.threshold < 1.0 && LongStreak(TestsSince(s, r, secrets, n, i), secret.value, s.threshold)
  {
    AllTestsCount(s, r, secrets, n, i);
    if s.threshold >= 1.0 {
      NeverTested(secrets[n].known[i].value, TestsSince(s, r, secrets, n, i), s.threshold);
      return;
    }
    ConfirmedByStreak(Fresh(secrets[n].known[i].value), TestsSince(s, r, secrets, n, i), s.threshold);
  }

  /** Without confirmation, all secrets are confirmed, at all times. */
  lemma {:induction false} AllConfirmedInLife(s: ConfirmScheme, r: Run, secrets: seq<Secrets>, n: nat)
    requires s.confirmType == NoConfirm && SecretsRun(s, r, secrets) && secrets[0].known == [] && n <= |r.steps|
    ensures ConfirmedValues(secrets[n].known) == Values(secrets[n].known)
  {
    if n > 0 {
      var k := n - 1;
      AllConfirmedInLife(s, r, secrets, k);
      assert Accounts(s, r.steps[k], r.rest[k], r.now[k], secrets[k], secrets[k + 1]);
      match r.steps[k]
      case OwnEpoch(passive, exchange) =>
        var secret := SecretAtOnce(s, r.rest[k], exchange);
        if passive && secret.Computed? {
          ConfirmedIsAdded(secrets[k], SharedSecret(secret.value, 0.0, true, Nobody));
          ExchangedValues(s.confirmType, secrets[k], secret);
        }
      case Hear(_, _, _) =>
        DecodedIsConfirmed(s, secrets[k], r.now[k]);
        EpochsAddSecrets(s, secrets[k], r.now[k]);
      case BadNumber =>
        DecodedIsConfirmed(s, secrets[k], r.now[k]);
        EpochsAddSecrets(s, secrets[k], r.now[k]);
    }
  }
}
