/**
 * What the radio knows about a device nearby, source/EbNDevice.cpp: the link values that still match, the shared
 * secrets, and what is still to be reported about them.
 */
module Device {
  import opened Address
  import opened Hiding

  type DeviceID = int
  type LinkValue = seq<Byte>

  /** Time differences are unsigned numbers of 64 bits. */
  function Elapsed(now: nat, before: nat): int {
    if now >= before then now - before else now - before + 0x1_0000_0000_0000_0000
  }

  lemma HasElement(ids: set<DeviceID>)
    requires ids != {}
    ensures exists id :: id in ids
  {
    assert (forall id :: id !in ids) ==> ids == {};
  }

  datatype ConfirmedBy = Nobody | Passive | Active

  datatype SharedSecret = SharedSecret(value: LinkValue, pFalse: real, confirmed: bool, confirmedBy: ConfirmedBy)

  /** What a key exchange gives. */
  datatype Secret = NoSecret | Computed(value: LinkValue)

  datatype RSSIEvent = RSSIEvent(time: nat, rssi: int)

  datatype EventType = Unset | Started | Updated | Ended | UnconfirmedStarted

  datatype EncounterEvent = EncounterEvent(
    kind: EventType, time: nat, id: DeviceID, address: Address, rssiEvents: seq<RSSIEvent>, matching: seq<LinkValue>,
    sharedSecrets: seq<SharedSecret>, matchingSetUpdated: bool, sharedSecretsUpdated: bool)

  /** An event that has not been filled in yet. */
  function Blank(time: nat): EncounterEvent {
    EncounterEvent(Unset, time, 0, [0, 0], [], [], [], false, false)
  }

  // ---------------------------------------------------------------- matching

  /** The link values that a filter may contain, in their order. */
  function Filtered(matching: seq<LinkValue>, query: LinkValue -> bool): seq<LinkValue> {
    if |matching| == 0 then []
    else
      Filtered(matching[..|matching| - 1], query)
      + (if query(matching[|matching| - 1]) then [matching[|matching| - 1]] else [])
  }

  /** Exactly the values for which the filter answers yes stay. */
  lemma {:induction false} FilteredExactly(matching: seq<LinkValue>, query: LinkValue -> bool, v: LinkValue)
    ensures v in Filtered(matching, query) <==> v in matching && query(v)
    ensures |Filtered(matching, query)| <= |matching|
  {
    if |matching| > 0 {
      FilteredExactly(matching[..|matching| - 1], query, v);
      assert matching == matching[..|matching| - 1] + [matching[|matching| - 1]];
    }
  }

  lemma FilteredFrom(matching: seq<LinkValue>, query: LinkValue -> bool)
    ensures forall v :: v in Filtered(matching, query) ==> v in matching
  {
    forall v | v in Filtered(matching, query) ensures v in matching { FilteredExactly(matching, query, v); }
  }

  /** Nothing is lost when nothing is removed. */
  lemma {:induction false} FilteredKeepsAll(matching: seq<LinkValue>, query: LinkValue -> bool)
    ensures |Filtered(matching, query)| <= |matching|
    ensures |Filtered(matching, query)| == |matching| ==> Filtered(matching, query) == matching
  {
    if |matching| > 0 {
      var front, last := matching[..|matching| - 1], matching[|matching| - 1];
      FilteredExactly(front, query, last);
      FilteredKeepsAll(front, query);
      assert matching == front + [last];
    }
  }

  /** The first n values have been tested, and the ones of them that match are at the front. */
  ghost predicate Sifted(matching: seq<LinkValue>, before: seq<LinkValue>, n: nat, at: nat, query: LinkValue -> bool) {
    && n <= |before| && at == |Filtered(before[..n], query)| <= n
    && matching == Filtered(before[..n], query) + before[n..]
  }

  lemma SiftStep(matching: seq<LinkValue>, before: seq<LinkValue>, n: nat, at: nat, query: LinkValue -> bool)
    requires Sifted(matching, before, n, at, query) && at < |matching|
    ensures n < |before|
    ensures if query(matching[at]) then Sifted(matching, before, n + 1, at + 1, query)
            else Sifted(matching[..at] + matching[at + 1..], before, n + 1, at, query)
  {
    var kept := Filtered(before[..n], query);
    assert before[..n + 1][..n] == before[..n];
    assert matching[at] == before[n] && matching == (kept + [before[n]]) + before[n + 1..];
    assert matching[..at] + matching[at + 1..] == kept + before[n + 1..];
  }

  // ---------------------------------------------------------------- secrets

  predicate Distinct(secrets: seq<SharedSecret>) {
    forall i, j :: 0 <= i < j < |secrets| ==> secrets[i].value != secrets[j].value
  }

  ghost function Values(secrets: seq<SharedSecret>): set<LinkValue> {
    set s | s in secrets :: s.value
  }

  ghost function ConfirmedValues(secrets: seq<SharedSecret>): set<LinkValue> {
    set s | s in secrets && s.confirmed :: s.value
  }

  /**
   * The secrets are distinct; the reports, both the ones made and the ones to be made, are about the confirmed ones,
   * each of them once; and the flag says if there are any.
   */
  ghost predicate Accounted(secrets: seq<SharedSecret>, reports: seq<SharedSecret>, confirmed: bool) {
    && Distinct(secrets) && Distinct(reports)
    && Values(reports) == ConfirmedValues(secrets)
    && (confirmed <==> ConfirmedValues(secrets) != {})
  }

  /** A confirmed secret has been reported or is going to be, not both, and not twice; an unconfirmed one has not. */
  lemma ReportedOrPending(secrets: seq<SharedSecret>, done: seq<SharedSecret>, pending: seq<SharedSecret>, flag: bool,
                          s: SharedSecret)
    requires Accounted(secrets, done + pending, flag) && s in secrets
    ensures s.confirmed <==> s.value in Values(done) || s.value in Values(pending)
    ensures Values(done) !! Values(pending) && Distinct(done) && Distinct(pending)
  {
    var all := done + pending;
    assert forall x :: x in all <==> x in done || x in pending;
    assert Values(all) == Values(done) + Values(pending);
    if s.value in ConfirmedValues(secrets) {
      var t :| t in secrets && t.confirmed && t.value == s.value;
      SameSecret(secrets, s, t);
    }
    forall v | v in Values(done) ensures v !in Values(pending) {
      var x :| x in done && x.value == v;
      var i :| 0 <= i < |done| && done[i] == x;
      forall y | y in pending ensures y.value != v {
        var j :| 0 <= j < |pending| && pending[j] == y;
        assert all[i] == x && all[|done| + j] == y;
      }
    }
    assert all[..|done|] == done && all[|done|..] == pending;
    forall i, j | 0 <= i < j < |done| ensures done[i].value != done[j].value {
      assert all[i] == done[i] && all[j] == done[j];
    }
    forall i, j | 0 <= i < j < |pending| ensures pending[i].value != pending[j].value {
      assert all[|done| + i] == pending[i] && all[|done| + j] == pending[j];
    }
  }

  lemma SameSecret(secrets: seq<SharedSecret>, s: SharedSecret, t: SharedSecret)
    requires Distinct(secrets) && s in secrets && t in secrets && s.value == t.value
    ensures s == t
  {
    var i :| 0 <= i < |secrets| && secrets[i] == s;
    var j :| 0 <= j < |secrets| && secrets[j] == t;
    assert i == j;
  }

  /** The flag says if any of the secrets is confirmed. */
  lemma FlagMeansConfirmed(secrets: seq<SharedSecret>, reports: seq<SharedSecret>, confirmed: bool)
    requires Accounted(secrets, reports, confirmed)
    ensures confirmed <==> exists s :: s in secrets && s.confirmed
  {
    if confirmed {
      var v :| v in ConfirmedValues(secrets);
    }
    forall s | s in secrets && s.confirmed ensures confirmed {
      assert s.value in ConfirmedValues(secrets);
    }
  }

  function Confirm(s: SharedSecret, scheme: ConfirmedBy): SharedSecret {
    s.(confirmed := true, confirmedBy := scheme)
  }

  lemma InUpdated(secrets: seq<SharedSecret>, i: nat, s: SharedSecret, x: SharedSecret)
    requires i < |secrets| && x in secrets[i := s]
    ensures x == s || exists j :: 0 <= j < |secrets| && j != i && secrets[j] == x
  {
    var k :| 0 <= k < |secrets| && secrets[i := s][k] == x;
    if k != i { assert secrets[k] == x; }
  }

  lemma StaysIn(secrets: seq<SharedSecret>, i: nat, s: SharedSecret, j: nat)
    requires i < |secrets| && j < |secrets| && i != j
    ensures secrets[j] in secrets[i := s]
  {
    assert secrets[i := s][j] == secrets[j];
  }

  lemma NoneMoreConfirmed(secrets: seq<SharedSecret>, i: nat, s: SharedSecret)
    requires i < |secrets| && s.value == secrets[i].value && s.confirmed == secrets[i].confirmed
    ensures ConfirmedValues(secrets[i := s]) <= ConfirmedValues(secrets)
  {
    forall v | v in ConfirmedValues(secrets[i := s]) ensures v in ConfirmedValues(secrets) {
      var x :| x in secrets[i := s] && x.confirmed && x.value == v;
      InUpdated(secrets, i, s, x);
      assert secrets[i] in secrets;
    }
  }

  /** A secret that stays as it is, as far as its value and its confirmation go. */
  lemma ChangedSilently(secrets: seq<SharedSecret>, reports: seq<SharedSecret>, confirmed: bool, i: nat,
                        s: SharedSecret)
    requires Accounted(secrets, reports, confirmed) && i < |secrets|
    requires s.value == secrets[i].value && s.confirmed == secrets[i].confirmed
    ensures Accounted(secrets[i := s], reports, confirmed)
  {
    NoneMoreConfirmed(secrets, i, s);
    NoneMoreConfirmed(secrets[i := s], i, secrets[i]);
    assert secrets[i := s][i := secrets[i]] == secrets;
  }

  /** A secret becomes confirmed, and is reported. */
  lemma ConfirmedAndReported(secrets: seq<SharedSecret>, reports: seq<SharedSecret>, confirmed: bool, i: nat,
                             s: SharedSecret, report: SharedSecret)
    requires Accounted(secrets, reports, confirmed) && i < |secrets| && !secrets[i].confirmed
    requires s.value == secrets[i].value == report.value && s.confirmed
    ensures Accounted(secrets[i := s], reports + [report], true)
  {
    var now := secrets[i := s];
    assert now[i] == s && s in now;
    forall x | x in secrets && x.confirmed ensures x.value != s.value && x in now {
      var j :| 0 <= j < |secrets| && secrets[j] == x;
      StaysIn(secrets, i, s, j);
    }
    assert forall x :: x in now && x.confirmed ==> x == s || (x in secrets && x.confirmed) by {
      forall x | x in now && x.confirmed ensures x == s || x in secrets { InUpdated(secrets, i, s, x); }
    }
    assert ConfirmedValues(now) == ConfirmedValues(secrets) + {s.value};
    ReportedOnce(reports, report);
  }

  lemma ReportedOnce(reports: seq<SharedSecret>, report: SharedSecret)
    requires Distinct(reports) && report.value !in Values(reports)
    ensures Distinct(reports + [report]) && Values(reports + [report]) == Values(reports) + {report.value}
  {
    var now := reports + [report];
    forall i, j | 0 <= i < j < |now| ensures now[i].value != now[j].value {
      if j == |reports| { assert reports[i] in reports; }
    }
    assert forall x :: x in now <==> x in reports || x == report;
  }

  /** A secret whose value is new. */
  lemma AddedSecret(secrets: seq<SharedSecret>, reports: seq<SharedSecret>, confirmed: bool, s: SharedSecret)
    requires Accounted(secrets, reports, confirmed) && s.value !in Values(secrets)
    ensures Accounted(secrets + [s], if s.confirmed then reports + [s] else reports, confirmed || s.confirmed)
  {
    var now := secrets + [s];
    ReportedOnce(secrets, s);
    assert forall x :: x in now <==> x in secrets || x == s;
    assert ConfirmedValues(secrets) <= Values(secrets);
    if s.confirmed {
      ReportedOnce(reports, s);
      assert ConfirmedValues(now) == ConfirmedValues(secrets) + {s.value};
    } else {
      assert ConfirmedValues(now) == ConfirmedValues(secrets);
    }
  }

  /** A secret that is not confirmed yet changes nothing if its value is known already. */
  ghost function WithUnconfirmed(secrets: seq<SharedSecret>, secret: Secret): seq<SharedSecret> {
    if secret.NoSecret? || secret.value in Values(secrets) then secrets
    else secrets + [SharedSecret(secret.value, 1.0, false, Nobody)]
  }

  /** What a filter of the device makes of a secret: its confidence grows, or starts again. */
  function Tested(s: SharedSecret, query: LinkValue -> bool, threshold: real, pFalseDelta: real): SharedSecret {
    if s.confirmed || s.pFalse <= threshold then s
    else if !query(s.value) then s.(pFalse := 1.0)
    else if s.pFalse * pFalseDelta <= threshold then Confirm(s.(pFalse := s.pFalse * pFalseDelta), Passive)
    else s.(pFalse := s.pFalse * pFalseDelta)
  }

  /** Only a secret that the filter may contain is confirmed, and no confirmation is taken back. */
  lemma TestedConfirms(s: SharedSecret, query: LinkValue -> bool, threshold: real, pFalseDelta: real)
    ensures var t := Tested(s, query, threshold, pFalseDelta);
      && t.value == s.value
      && (t.confirmed <==>
            s.confirmed || (s.pFalse > threshold && query(s.value) && s.pFalse * pFalseDelta <= threshold))
      && (!t.confirmed ==> (t.pFalse > threshold <==> s.pFalse > threshold && (query(s.value) || 1.0 > threshold)))
  {}

  lemma TestedValues(before: seq<SharedSecret>, now: seq<SharedSecret>, query: LinkValue -> bool, threshold: real,
                     pFalseDelta: real)
    requires |now| == |before|
    requires forall i :: 0 <= i < |now| ==> now[i] == Tested(before[i], query, threshold, pFalseDelta)
    ensures Values(now) == Values(before)
  {
    forall i | 0 <= i < |now| ensures now[i].value == before[i].value && now[i] in now && before[i] in before {
      TestedConfirms(before[i], query, threshold, pFalseDelta);
    }
    assert forall s :: s in now ==> s.value in Values(before);
    assert forall s :: s in before ==> s.value in Values(now);
  }

  /** A filter of the device: its answers, and how likely it is to answer yes by mistake. */
  datatype Test = Test(query: LinkValue -> bool, pFalse: real)

  /** What all the filters of a device make of a secret, one after the other. */
  function TestedByAll(s: SharedSecret, tests: seq<Test>, threshold: real): SharedSecret {
    if |tests| == 0 then s
    else
      var test := tests[|tests| - 1];
      Tested(TestedByAll(s, tests[..|tests| - 1], threshold), test.query, threshold, test.pFalse)
  }

  /** How likely it is that all the answers since the last one that was no are mistakes. */
  function Streak(tests: seq<Test>, v: LinkValue): real {
    if |tests| == 0 || !tests[|tests| - 1].query(v) then 1.0
    else Streak(tests[..|tests| - 1], v) * tests[|tests| - 1].pFalse
  }

  /** At some time the last answers were yes so often that this is unlikely enough to be a mistake. */
  ghost predicate LongStreak(tests: seq<Test>, v: LinkValue, threshold: real) {
    exists n :: 0 <= n <= |tests| && Streak(tests[..n], v) <= threshold
  }

  lemma StreakGoesOn(tests: seq<Test>, v: LinkValue, threshold: real)
    requires |tests| > 0
    ensures LongStreak(tests, v, threshold)
      <==> LongStreak(tests[..|tests| - 1], v, threshold) || Streak(tests, v) <= threshold
  {
    var front := tests[..|tests| - 1];
    assert forall n :: 0 <= n < |tests| ==> tests[..n] == front[..n];
    assert tests[..|tests|] == tests;
  }

  /**
   * Passive confirmation confirms a secret that is not confirmed yet exactly when at some time the answers since the
   * last no make a mistake as unlikely as the threshold asks for.
   */
  lemma {:induction false} ConfirmedByStreak(s: SharedSecret, tests: seq<Test>, threshold: real)
    requires !s.confirmed && s.pFalse == 1.0 > threshold
    ensures var r := TestedByAll(s, tests, threshold);
      && r.value == s.value && (r.confirmed <==> LongStreak(tests, s.value, threshold))
      && (!r.confirmed ==> r.pFalse == Streak(tests, s.value) > threshold)
  {
    if |tests| == 0 {
      assert forall n :: 0 <= n <= |tests| ==> tests[..n] == [];
    } else {
      ConfirmedByStreak(s, tests[..|tests| - 1], threshold);
      StreakGoesOn(tests, s.value, threshold);
    }
  }

  // ---------------------------------------------------------------- what becomes of all the secrets

  /** The secrets of a device, and those of them that are confirmed and have not been reported yet. */
  datatype Secrets = Secrets(known: seq<SharedSecret>, toReport: seq<SharedSecret>)

  /** A secret that is known already is confirmed by one that has its value and is confirmed. */
  function ConfirmedBySame(known: seq<SharedSecret>, secret: SharedSecret): (r: seq<SharedSecret>)
    ensures |r| == |known|
  {
    seq(|known|, i requires 0 <= i < |known| =>
      var s := known[i];
      if s.value == secret.value && !s.confirmed && secret.confirmed then Confirm(s, secret.confirmedBy) else s)
  }

  /** A secret is added, or confirms the one that has its value; what is confirmed the first time is to be reported. */
  ghost function WithSecret(a: Secrets, s: SharedSecret): Secrets {
    Secrets(if s.value in Values(a.known) then ConfirmedBySame(a.known, s) else a.known + [s],
            a.toReport + (if s.confirmed && s.value !in ConfirmedValues(a.known) then [s] else []))
  }

  function AllTested(known: seq<SharedSecret>, test: Test, threshold: real): (r: seq<SharedSecret>)
    ensures |r| == |known|
  {
    seq(|known|, i requires 0 <= i < |known| => Tested(known[i], test.query, threshold, test.pFalse))
  }

  /** The secrets that a test confirms, in their order. */
  function NewlyConfirmed(known: seq<SharedSecret>, test: Test, threshold: real): seq<SharedSecret> {
    if |known| == 0 then []
    else
      var last := known[|known| - 1];
      var t := Tested(last, test.query, threshold, test.pFalse);
      NewlyConfirmed(known[..|known| - 1], test, threshold) + (if t.confirmed && !last.confirmed then [t] else [])
  }

  /** Every secret is tested, and those that this confirms are to be reported. */
  function WithTest(a: Secrets, test: Test, threshold: real): Secrets {
    Secrets(AllTested(a.known, test, threshold), a.toReport + NewlyConfirmed(a.known, test, threshold))
  }

  function WithTests(a: Secrets, tests: seq<Test>, threshold: real): Secrets {
    if |tests| == 0 then a
    else WithTest(WithTests(a, tests[..|tests| - 1], threshold), tests[|tests| - 1], threshold)
  }

  /** Every secret that was there becomes what the tests make of it, and others may be there besides. */
  ghost predicate Aged(before: seq<SharedSecret>, tests: seq<Test>, threshold: real, now: seq<SharedSecret>) {
    |before| <= |now| && forall i :: 0 <= i < |before| ==> now[i] == TestedByAll(before[i], tests, threshold)
  }

  lemma {:induction false} TestedInTurn(s: SharedSecret, first: seq<Test>, second: seq<Test>, threshold: real)
    ensures TestedByAll(s, first + second, threshold)
      == TestedByAll(TestedByAll(s, first, threshold), second, threshold)
  {
    if second == [] {
      assert first + second == first;
    } else {
      var front := second[..|second| - 1];
      assert (first + second)[..|first + second| - 1] == first + front;
      TestedInTurn(s, first, front, threshold);
    }
  }

  /** Ageing goes on. */
  lemma AgedInTurn(before: seq<SharedSecret>, first: seq<Test>, between: seq<SharedSecret>, second: seq<Test>,
                   now: seq<SharedSecret>, threshold: real)
    requires Aged(before, first, threshold, between) && Aged(between, second, threshold, now)
    ensures Aged(before, first + second, threshold, now)
  {
    forall i | 0 <= i < |before| ensures now[i] == TestedByAll(before[i], first + second, threshold) {
      TestedInTurn(before[i], first, second, threshold);
    }
  }

  lemma {:induction false} TestsInTurn(a: Secrets, first: seq<Test>, second: seq<Test>, threshold: real)
    ensures WithTests(a, first + second, threshold) == WithTests(WithTests(a, first, threshold), second, threshold)
  {
    if second == [] {
      assert first + second == first;
    } else {
      var front := second[..|second| - 1];
      assert (first + second)[..|first + second| - 1] == first + front;
      TestsInTurn(a, first, front, threshold);
    }
  }

  lemma {:induction false} TestsAge(a: Secrets, tests: seq<Test>, threshold: real)
    ensures Aged(a.known, tests, threshold, WithTests(a, tests, threshold).known)
    ensures |WithTests(a, tests, threshold).known| == |a.known|
  {
    if tests != [] { TestsAge(a, tests[..|tests| - 1], threshold); }
  }

  /** A secret that is not confirmed leaves all others as they are. */
  lemma UnconfirmedAges(a: Secrets, s: SharedSecret, threshold: real)
    requires !s.confirmed
    ensures Aged(a.known, [], threshold, WithSecret(a, s).known) && WithSecret(a, s).toReport == a.toReport
    ensures ConfirmedValues(WithSecret(a, s).known) == ConfirmedValues(a.known)
    ensures WithSecret(a, s).known == if s.value in Values(a.known) then a.known else a.known + [s]
  {
    var now := WithSecret(a, s).known;
    if s.value in Values(a.known) {
      assert now == a.known;
    } else {
      assert forall x :: x in now <==> x in a.known || x == s;
    }
  }

  /** A secret that is confirmed is a confirmed one from then on, and none is lost. */
  lemma ConfirmedIsAdded(a: Secrets, s: SharedSecret)
    requires s.confirmed
    ensures var r := WithSecret(a, s);
      && ConfirmedValues(r.known) == ConfirmedValues(a.known) + {s.value}
      && Values(r.toReport) == Values(a.toReport) + ({s.value} - ConfirmedValues(a.known))
  {
    var r := WithSecret(a, s);
    if s.value in Values(a.known) {
      forall i | 0 <= i < |a.known|
        ensures a.known[i] in a.known && r.known[i] in r.known
        ensures r.known[i].value == a.known[i].value
        ensures r.known[i].confirmed == (a.known[i].confirmed || a.known[i].value == s.value)
      {}
      forall v | v in ConfirmedValues(a.known) + {s.value} ensures v in ConfirmedValues(r.known) {
        var x :| x in a.known && x.value == v && (x.confirmed || v == s.value);
        var i :| 0 <= i < |a.known| && a.known[i] == x;
        assert r.known[i] in r.known && r.known[i].confirmed;
      }
      forall v | v in ConfirmedValues(r.known) ensures v in ConfirmedValues(a.known) + {s.value} {
        var x :| x in r.known && x.confirmed && x.value == v;
        var i :| 0 <= i < |r.known| && r.known[i] == x;
        assert a.known[i] in a.known;
      }
    } else {
      assert forall x :: x in r.known <==> x in a.known || x == s;
    }
    assert forall x :: x in a.toReport + [s] <==> x in a.toReport || x == s;
  }

  // ---------------------------------------------------------------- what has been reported

  /** All that has been reported of a device: if anything has, its secrets and measurements, and what matches. */
  datatype Reports = Reports(
    started: bool, secrets: seq<SharedSecret>, measurements: seq<RSSIEvent>, matching: seq<LinkValue>)

  /** What one more event adds to the reports. */
  function WithEvent(r: Reports, e: EncounterEvent): Reports {
    Reports(r.started || e.kind == Started || e.kind == Updated,
            r.secrets + (if e.sharedSecretsUpdated then e.sharedSecrets else []),
            r.measurements + e.rssiEvents,
            if e.matchingSetUpdated then e.matching else r.matching)
  }

  // ---------------------------------------------------------------- the device

  /** A device, with the epochs that the radio keeps for it. */
  class EbNDevice<E> {
    const id: DeviceID
    var address: Address
    var epochs: seq<E>
    var matching: seq<LinkValue>
    var updatedMatching: bool
    var matchingPFalse: real
    var sharedSecrets: seq<SharedSecret>
    var secretsToReport: seq<SharedSecret>
    var rssiToReport: seq<RSSIEvent>
    var lastReportTime: nat
    var confirmed: bool
    var shakenHands: bool
    var reported: bool

    /** The secrets and the measurements that have been reported, and the matching set that the reports add up to. */
    ghost var secretsReported: seq<SharedSecret>
    ghost var measured: seq<RSSIEvent>
    ghost var rssiReported: seq<RSSIEvent>
    ghost var matchingReported: seq<LinkValue>
    /** What was listened for when the device was found. */
    ghost const listened: seq<LinkValue>

    ghost predicate SecretsValid()
      reads this`sharedSecrets, this`secretsReported, this`secretsToReport, this`confirmed
    {
      Accounted(sharedSecrets, secretsReported + secretsToReport, confirmed)
    }

    ghost predicate RSSIValid()
      reads this`measured, this`rssiReported, this`rssiToReport
    {
      measured == rssiReported + rssiToReport
    }

    ghost predicate MatchingValid()
      reads this`matching, this`matchingReported, this`updatedMatching
    {
      && (updatedMatching || matchingReported == matching)
      && (forall v :: v in matching ==> v in matchingReported)
    }

    ghost predicate Valid()
      reads this`sharedSecrets, this`secretsReported, this`secretsToReport, this`measured, this`rssiReported
      reads this`rssiToReport, this`matching, this`matchingReported, this`updatedMatching
      reads this`reported, this`confirmed, this`shakenHands
    {
      forall k: nat :: Look(OfDevice, k) ==>
        && SecretsValid() && RSSIValid() && MatchingValid() && (reported ==> confirmed && shakenHands)
        && (secretsReported != [] ==> reported)
    }

    /** The secrets, and those of them that are to be reported. */
    ghost function Account(): Secrets
      reads this`sharedSecrets, this`secretsToReport
    {
      Secrets(sharedSecrets, secretsToReport)
    }

    /** What has been reported so far. */
    ghost function AllReports(): Reports
      reads this`reported, this`secretsReported, this`rssiReported, this`matchingReported
    {
      Reports(reported, secretsReported, rssiReported, matchingReported)
    }

    /** An encounter has been reported, with all that is known of its secrets and its matching set. */
    predicate AllTold()
      reads this`confirmed, this`shakenHands, this`reported, this`secretsToReport, this`updatedMatching
    {
      confirmed && shakenHands ==> reported && secretsToReport == [] && !updatedMatching
    }

    lemma MeasurementsAreTold()
      requires Valid()
      ensures measured == AllReports().measurements + rssiToReport
    {
      assert Look(OfDevice, 0);
    }

    lemma ConfirmedIsTold()
      requires Valid() && confirmed && secretsToReport == []
      ensures reported
    {
      assert Look(OfDevice, 0);
      assert secretsReported + [] == secretsReported;
      assert secretsReported == [] ==> Values(secretsReported) == {};
    }

    /**
     * If all has been told, then what has been reported of an encounter is each of its confirmed secrets once, and its
     * matching set as it is now.
     */
    lemma ToldIsComplete()
      requires Valid() && AllTold() && confirmed && shakenHands
      ensures Distinct(AllReports().secrets) && Values(AllReports().secrets) == ConfirmedValues(sharedSecrets)
      ensures AllReports().started && AllReports().matching == matching
    {
      assert Look(OfDevice, 0);
      assert secretsReported + secretsToReport == secretsReported;
    }

    constructor (id: DeviceID, address: Address, listenSet: seq<LinkValue>)
      ensures Valid() && this.id == id && this.address == address && epochs == []
      ensures matching == listenSet == matchingReported && !updatedMatching && matchingPFalse == 1.0
      ensures sharedSecrets == secretsToReport == secretsReported == []
      ensures rssiToReport == rssiReported == measured == []
      ensures !confirmed && !shakenHands && !reported && lastReportTime == 0 && listened == listenSet
    {
      listened := listenSet;
      this.id, this.address, epochs := id, address, [];
      matching, matchingReported, updatedMatching, matchingPFalse := listenSet, listenSet, false, 1.0;
      sharedSecrets, secretsToReport, secretsReported := [], [], [];
      rssiToReport, rssiReported, measured := [], [], [];
      lastReportTime, confirmed, shakenHands, reported := 0, false, false, false;
    }

    /** The loop of updateMatching. */
    method EraseNotMatching(query: LinkValue -> bool)
      modifies this`matching, this`updatedMatching
      ensures matching == Filtered(old(matching), query)
      ensures updatedMatching <==> old(updatedMatching) || |matching| < |old(matching)|
    {
      ghost var before := matching;
      ghost var n := 0;
      var at := 0;
      while at < |matching|
        invariant Sifted(matching, before, n, at, query)
        invariant updatedMatching <==> old(updatedMatching) || at < n
        decreases |matching| - at
      {
        SiftStep(matching, before, n, at, query);
        if !query(matching[at]) {
          matching := matching[..at] + matching[at + 1..];
          updatedMatching := true;
        } else {
          at := at + 1;
        }
        n := n + 1;
      }
      assert n == |before| && before[..n] == before;
    }

    /** updateMatching, given how the filter answers. */
    method UpdateMatching(query: LinkValue -> bool, pFalseDelta: real)
      requires Valid()
      modifies this`matching, this`updatedMatching, this`matchingPFalse
      ensures Valid() && matching == Filtered(old(matching), query)
      ensures updatedMatching <==> old(updatedMatching) || matching != old(matching)
      ensures matchingPFalse == old(matchingPFalse) * pFalseDelta
    {
      assert Look(OfDevice, 0);
      FilteredKeepsAll(matching, query);
      FilteredFrom(matching, query);
      EraseNotMatching(query);
      matchingPFalse := matchingPFalse * pFalseDelta;
    }

    /** The place of the secret with a value, or the end. */
    method Find(value: LinkValue) returns (i: nat)
      ensures i <= |sharedSecrets| && (i < |sharedSecrets| ==> sharedSecrets[i].value == value)
      ensures i == |sharedSecrets| <==> value !in Values(sharedSecrets)
    {
      i := 0;
      while i < |sharedSecrets| && sharedSecrets[i].value != value
        invariant i <= |sharedSecrets| && forall j :: 0 <= j < i ==> sharedSecrets[j].value != value
        decreases |sharedSecrets| - i
      {
        i := i + 1;
      }
      if i < |sharedSecrets| { assert sharedSecrets[i] in sharedSecrets; }
    }

    /** A secret that is known is confirmed, and is to be reported. */
    method ConfirmKnown(i: nat, secret: SharedSecret)
      requires Valid() && i < |sharedSecrets| && sharedSecrets[i].value == secret.value
      requires !sharedSecrets[i].confirmed && secret.confirmed
      modifies this`sharedSecrets, this`secretsToReport, this`confirmed
      ensures Valid() && confirmed && secretsToReport == old(secretsToReport) + [secret]
      ensures sharedSecrets == old(sharedSecrets)[i := Confirm(old(sharedSecrets)[i], secret.confirmedBy)]
    {
      assert Look(OfDevice, 0);
      ghost var reports := secretsReported + secretsToReport;
      ConfirmedAndReported(sharedSecrets, reports, confirmed, i, Confirm(sharedSecrets[i], secret.confirmedBy), secret);
      assert reports + [secret] == secretsReported + (secretsToReport + [secret]);
      confirmed := true;
      sharedSecrets := sharedSecrets[i := Confirm(sharedSecrets[i], secret.confirmedBy)];
      secretsToReport := secretsToReport + [secret];
    }

    /** A secret that is not known is added, and is to be reported if it is confirmed. */
    method AddUnknown(secret: SharedSecret)
      requires Valid() && secret.value !in Values(sharedSecrets)
      modifies this`sharedSecrets, this`secretsToReport, this`confirmed
      ensures Valid() && confirmed == (old(confirmed) || secret.confirmed)
      ensures sharedSecrets == old(sharedSecrets) + [secret]
      ensures secretsToReport == old(secretsToReport) + (if secret.confirmed then [secret] else [])
    {
      assert Look(OfDevice, 0);
      ghost var reports := secretsReported + secretsToReport;
      AddedSecret(sharedSecrets, reports, confirmed, secret);
      assert reports + [secret] == secretsReported + (secretsToReport + [secret]);
      sharedSecrets := sharedSecrets + [secret];
      if secret.confirmed {
        confirmed := true;
        secretsToReport := secretsToReport + [secret];
      }
    }

    /** addSharedSecret. */
    method AddSharedSecret(secret: SharedSecret)
      requires Valid()
      modifies this`sharedSecrets, this`secretsToReport, this`confirmed
      ensures Valid() && confirmed == (old(confirmed) || secret.confirmed)
      ensures Values(sharedSecrets) == old(Values(sharedSecrets)) + {secret.value}
      ensures secret.value !in old(Values(sharedSecrets)) ==> sharedSecrets == old(sharedSecrets) + [secret]
      ensures secret.value in old(Values(sharedSecrets)) ==>
        && |sharedSecrets| == |old(sharedSecrets)|
        && forall i :: 0 <= i < |sharedSecrets| ==>
             sharedSecrets[i] == var s := old(sharedSecrets)[i];
               if s.value == secret.value && !s.confirmed && secret.confirmed then Confirm(s, secret.confirmedBy) else s
      ensures secretsToReport ==
        old(secretsToReport)
        + (if secret.confirmed && secret.value !in old(ConfirmedValues(sharedSecrets)) then [secret] else [])
      ensures Account() == WithSecret(old(Account()), secret)
    {
      ghost var before := sharedSecrets;
      DistinctSecrets();
      var i := Find(secret.value);
      if i < |sharedSecrets| {
        assert before[i] in before;
        OnlyOne(before, i);
        if sharedSecrets[i].confirmed { ConfirmedFlag(i); }
        if !sharedSecrets[i].confirmed && secret.confirmed {
          UpdatedSecret(before, i, Confirm(before[i], secret.confirmedBy));
          ConfirmKnown(i, secret);
        }
      } else {
        ReportedOnce(before, secret);
        assert ConfirmedValues(before) <= Values(before);
        AddUnknown(secret);
      }
    }

    /** addSharedSecret, for what a key exchange gives when it is to be confirmed later. */
    method AddUnconfirmed(secret: Secret)
      requires Valid()
      modifies this`sharedSecrets, this`secretsToReport, this`confirmed
      ensures Valid() && sharedSecrets == WithUnconfirmed(old(sharedSecrets), secret)
      ensures secretsToReport == old(secretsToReport) && confirmed == old(confirmed)
    {
      if secret.Computed? {
        AddSharedSecret(SharedSecret(secret.value, 1.0, false, Nobody));
      }
    }

    lemma DistinctSecrets()
      requires Valid()
      ensures Distinct(sharedSecrets)
    {
      assert Look(OfDevice, 0);
    }

    lemma ConfirmedFlag(i: nat)
      requires Valid() && i < |sharedSecrets| && sharedSecrets[i].confirmed
      ensures confirmed
    {
      assert Look(OfDevice, 0);
      assert sharedSecrets[i] in sharedSecrets;
      assert sharedSecrets[i].value in ConfirmedValues(sharedSecrets);
    }

    /** confirmPassive, given how the filter answers. */
    method ConfirmPassive(query: LinkValue -> bool, threshold: real, pFalseDelta: real)
      requires Valid()
      modifies this`sharedSecrets, this`secretsToReport, this`confirmed
      ensures Valid() && |sharedSecrets| == |old(sharedSecrets)| && (old(confirmed) ==> confirmed)
      ensures forall i :: 0 <= i < |sharedSecrets| ==>
        sharedSecrets[i] == Tested(old(sharedSecrets)[i], query, threshold, pFalseDelta)
      ensures Values(sharedSecrets) == old(Values(sharedSecrets))
      ensures Account() == WithTest(old(Account()), Test(query, pFalseDelta), threshold)
    {
      ghost var before, test := sharedSecrets, Test(query, pFalseDelta);
      var i := 0;
      while i < |sharedSecrets|
        invariant i <= |sharedSecrets| == |before| && Valid() && (old(confirmed) ==> confirmed)
        invariant secretsToReport == old(secretsToReport) + NewlyConfirmed(before[..i], test, threshold)
        invariant forall j :: 0 <= j < i ==> sharedSecrets[j] == Tested(before[j], query, threshold, pFalseDelta)
        invariant forall j :: i <= j < |before| ==> sharedSecrets[j] == before[j]
      {
        assert before[..i + 1][..i] == before[..i];
        TestSecret(i, query, threshold, pFalseDelta);
        i := i + 1;
      }
      assert before[..i] == before && sharedSecrets == AllTested(before, test, threshold);
      TestedValues(before, sharedSecrets, query, threshold, pFalseDelta);
    }

    /** The confidence in a secret that is not confirmed changes. */
    method SetConfidence(i: nat, pFalse: real)
      requires Valid() && i < |sharedSecrets|
      modifies this`sharedSecrets
      ensures Valid() && sharedSecrets == old(sharedSecrets)[i := old(sharedSecrets)[i].(pFalse := pFalse)]
    {
      assert Look(OfDevice, 0);
      var secret := sharedSecrets[i].(pFalse := pFalse);
      ChangedSilently(sharedSecrets, secretsReported + secretsToReport, confirmed, i, secret);
      sharedSecrets := sharedSecrets[i := secret];
    }

    /** One round of confirmPassive. */
    method TestSecret(i: nat, query: LinkValue -> bool, threshold: real, pFalseDelta: real)
      requires Valid() && i < |sharedSecrets|
      modifies this`sharedSecrets, this`secretsToReport, this`confirmed
      ensures Valid() && (old(confirmed) ==> confirmed)
      ensures sharedSecrets == old(sharedSecrets)[i := Tested(old(sharedSecrets)[i], query, threshold, pFalseDelta)]
      ensures secretsToReport == old(secretsToReport)
        + (if sharedSecrets[i].confirmed && !old(sharedSecrets)[i].confirmed then [sharedSecrets[i]] else [])
    {
      ghost var before := sharedSecrets;
      var secret := sharedSecrets[i];
      if !secret.confirmed && secret.pFalse > threshold {
        if query(secret.value) {
          var pFalse := secret.pFalse * pFalseDelta;
          SetConfidence(i, pFalse);
          assert sharedSecrets == before[i := secret.(pFalse := pFalse)];
          if pFalse <= threshold {
            secret := Confirm(sharedSecrets[i], Passive);
            ConfirmKnown(i, secret);
            assert sharedSecrets == before[i := secret];
          }
        } else {
          SetConfidence(i, 1.0);
        }
      } else {
        assert before[i := secret] == before;
      }
      assert sharedSecrets[i] == Tested(before[i], query, threshold, pFalseDelta);
    }

    /** addRSSIMeasurement. */
    method AddRSSIMeasurement(time: nat, rssi: int)
      requires Valid()
      modifies this`rssiToReport, this`measured
      ensures Valid() && rssiToReport == old(rssiToReport) + [RSSIEvent(time, rssi)]
      ensures measured == old(measured) + [RSSIEvent(time, rssi)]
    {
      assert Look(OfDevice, 0);
      rssiToReport := rssiToReport + [RSSIEvent(time, rssi)];
      measured := measured + [RSSIEvent(time, rssi)];
    }

    method SetShakenHands(value: bool)
      requires Valid() && (reported ==> value)
      modifies this`shakenHands
      ensures Valid() && shakenHands == value
    {
      assert Look(OfDevice, 0);
      shakenHands := value;
    }

    method SetAddress(address: Address)
      modifies this`address
      ensures this.address == address
    {
      this.address := address;
    }

    /** There is something to tell about a device that is known to be an encounter. */
    predicate HasNews(now: nat, interval: nat)
      reads this
    {
      && confirmed && shakenHands
      && (secretsToReport != [] || updatedMatching || (rssiToReport != [] && Elapsed(now, lastReportTime) > interval))
    }

    method TakeMatching(before: seq<LinkValue>) returns (updated: bool, reports: seq<LinkValue>)
      requires MatchingValid()
      modifies this`updatedMatching, this`matchingReported
      ensures MatchingValid() && updated == old(updatedMatching) && reports == if updated then matching else before
      ensures !updatedMatching && matchingReported == if updated then matching else old(matchingReported)
    {
      updated, reports := updatedMatching, before;
      if updatedMatching {
        reports := matching;
        updatedMatching := false;
        matchingReported := matching;
      }
    }

    method TakeSecrets(before: seq<SharedSecret>) returns (updated: bool, reports: seq<SharedSecret>)
      requires SecretsValid()
      modifies this`secretsToReport, this`secretsReported
      ensures SecretsValid() && updated == (old(secretsToReport) != [])
      ensures reports == if updated then old(secretsToReport) else before
      ensures secretsToReport == [] && secretsReported == old(secretsReported) + old(secretsToReport)
    {
      updated, reports := secretsToReport != [], before;
      if secretsToReport != [] {
        reports := secretsToReport;
        secretsReported := secretsReported + secretsToReport;
        secretsToReport := [];
        assert secretsReported + [] == secretsReported;
      }
    }

    method TakeRSSI(before: seq<RSSIEvent>) returns (reports: seq<RSSIEvent>)
      requires RSSIValid()
      modifies this`rssiToReport, this`rssiReported
      ensures RSSIValid() && reports == if old(rssiToReport) != [] then old(rssiToReport) else before
      ensures rssiToReport == [] && rssiReported == old(rssiReported) + old(rssiToReport)
    {
      reports := before;
      if rssiToReport != [] {
        reports := rssiToReport;
        rssiReported := rssiReported + rssiToReport;
        rssiToReport := [];
        assert rssiReported + [] == rssiReported;
      }
    }

    /** The event holds exactly what was to be reported, and nothing is left to report. */
    twostate predicate Told(event: EncounterEvent, dest: EncounterEvent)
      reads this
    {
      && dest.kind == (if old(reported) then Updated else Started) && reported
      && dest.id == id && dest.address == address && dest.time == event.time
      && dest.matchingSetUpdated == old(updatedMatching) && !updatedMatching
      && (dest.matchingSetUpdated ==> dest.matching == matching) && matchingReported == matching
      && (!dest.matchingSetUpdated ==> matchingReported == old(matchingReported))
      && dest.sharedSecretsUpdated == (old(secretsToReport) != []) && secretsToReport == []
      && (dest.sharedSecretsUpdated ==> dest.sharedSecrets == old(secretsToReport))
      && secretsReported == old(secretsReported) + old(secretsToReport)
      && (dest.rssiEvents == if old(rssiToReport) != [] then old(rssiToReport) else event.rssiEvents)
      && rssiToReport == []
      && rssiReported == old(rssiReported) + old(rssiToReport) == measured
    }

    method TakeNews(event: EncounterEvent) returns (dest: EncounterEvent)
      requires Valid() && confirmed && shakenHands
      modifies this`updatedMatching, this`secretsToReport, this`rssiToReport, this`reported
      modifies this`secretsReported, this`rssiReported, this`matchingReported
      ensures Valid() && Told(event, dest)
    {
      assert Look(OfDevice, 0);
      var kind := if reported then Updated else Started;
      var updatedMatching, matching, updatedSecrets, secrets, rssiEvents := TakeLists(event);
      reported := true;
      dest := EncounterEvent(kind, event.time, id, address, rssiEvents, matching, secrets, updatedMatching,
                             updatedSecrets);
    }

    method TakeLists(event: EncounterEvent)
      returns (updatedMatching: bool, matching: seq<LinkValue>, updatedSecrets: bool, secrets: seq<SharedSecret>,
               rssiEvents: seq<RSSIEvent>)
      requires SecretsValid() && RSSIValid() && MatchingValid()
      modifies this`updatedMatching, this`secretsToReport, this`rssiToReport
      modifies this`secretsReported, this`rssiReported, this`matchingReported
      ensures SecretsValid() && RSSIValid() && MatchingValid()
      ensures updatedMatching == old(this.updatedMatching)
      ensures matching == if updatedMatching then this.matching else event.matching
      ensures !this.updatedMatching && matchingReported == this.matching
      ensures !updatedMatching ==> matchingReported == old(matchingReported)
      ensures updatedSecrets == (old(secretsToReport) != []) && secretsToReport == []
      ensures secrets == if updatedSecrets then old(secretsToReport) else event.sharedSecrets
      ensures secretsReported == old(secretsReported) + old(secretsToReport)
      ensures rssiEvents == if old(rssiToReport) != [] then old(rssiToReport) else event.rssiEvents
      ensures rssiToReport == [] && rssiReported == old(rssiReported) + old(rssiToReport) == measured
    {
      updatedMatching, matching := TakeMatching(event.matching);
      updatedSecrets, secrets := TakeSecrets(event.sharedSecrets);
      rssiEvents := TakeRSSI(event.rssiEvents);
    }

    /** getEncounterInfo of a device that is still there. */
    method GetEncounterInfo(event: EncounterEvent, interval: nat, now: nat, later: nat)
      returns (success: bool, dest: EncounterEvent)
      requires Valid()
      modifies this`updatedMatching, this`secretsToReport, this`rssiToReport, this`reported, this`lastReportTime
      modifies this`secretsReported, this`rssiReported, this`matchingReported
      ensures Valid() && success == old(HasNews(now, interval))
      ensures !success ==> dest == event && unchanged(this)
      ensures success ==> Told(event, dest) && lastReportTime == later
    {
      assert Look(OfDevice, 0);
      dest := event;
      var reportSecrets := secretsToReport != [];
      var reportMatching := updatedMatching;
      var reportRSSI := rssiToReport != [] && Elapsed(now, lastReportTime) > interval;
      success := confirmed && shakenHands && (reportSecrets || reportMatching || reportRSSI);
      if success {
        dest := TakeNews(event);
        lastReportTime := later;
      }
    }

    /** An event that was empty before tells exactly what has been reported then, besides what was before. */
    twostate lemma ToldIsReported(new time: nat, new dest: EncounterEvent)
      requires Told(Blank(time), dest)
      ensures AllReports() == WithEvent(old(AllReports()), dest)
    {
      assert old(secretsReported) + [] == old(secretsReported) && old(rssiReported) + [] == old(rssiReported);
    }

    /** getEncounterInfo of a device that has expired: it ends, with the measurements that are left. */
    method GetExpiredInfo(event: EncounterEvent) returns (dest: EncounterEvent)
      requires Valid()
      modifies this`rssiToReport, this`rssiReported
      ensures Valid() && dest == event.(
        kind := Ended, id := id, address := address, matchingSetUpdated := false,
        rssiEvents := if old(rssiToReport) != [] then old(rssiToReport) else event.rssiEvents)
      ensures rssiToReport == [] && rssiReported == measured == old(rssiReported) + old(rssiToReport)
    {
      assert Look(OfDevice, 0);
      var rssiEvents := TakeRSSI(event.rssiEvents);
      dest := event.(kind := Ended, id := id, address := address, matchingSetUpdated := false,
                     rssiEvents := rssiEvents);
      assert rssiReported + [] == rssiReported;
    }
  }

  lemma OnlyOne(secrets: seq<SharedSecret>, i: nat)
    requires Distinct(secrets) && i < |secrets|
    ensures forall s :: s in secrets && s.value == secrets[i].value ==> s == secrets[i]
    ensures secrets[i].value in ConfirmedValues(secrets) <==> secrets[i].confirmed
  {
    assert secrets[i] in secrets;
  }

  lemma UpdatedSecret(secrets: seq<SharedSecret>, i: nat, s: SharedSecret)
    requires i < |secrets| && s.value == secrets[i].value && s.confirmed
    ensures Values(secrets[i := s]) == Values(secrets) && s.value in ConfirmedValues(secrets[i := s])
    ensures forall x :: x in secrets && x.value != s.value ==> x in secrets[i := s]
  {
    var now := secrets[i := s];
    assert now[i] == s && s in now && secrets[i] in secrets;
    forall x | x in secrets ensures x.value == s.value || x in now {
      var j :| 0 <= j < |secrets| && secrets[j] == x;
      if j != i { StaysIn(secrets, i, s, j); }
    }
    forall x | x in now ensures x == s || x in secrets { InUpdated(secrets, i, s, x); }
  }
}
