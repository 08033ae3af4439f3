/**
 * From what is advertised to what is matched: all that a sender of source/EbNRadioBT4.cpp sends, over any number of its
 * epochs and whatever receivers there are.
 */
module BT4Network {
  import opened BloomFilter
  import opened BT4Advert
  import opened BT4Decoding
  import opened BT4Matching
  import opened BT4Receiver
  import opened Device
  import opened ErasureDecoder
  import opened Hiding
  import opened Radio

  /** The link value is advertised, and there is room for it. */
  ghost predicate Offered(t: ConfirmType, advertisedSet: seq<LinkValue>, v: LinkValue) {
    exists i :: 0 <= i < |advertisedSet| && i < Room(t) && advertisedSet[i] == v
  }

  ghost predicate AlwaysOffered(t: ConfirmType, sets: seq<seq<LinkValue>>, v: LinkValue) {
    forall i :: 0 <= i < |sets| ==> Offered(t, sets[i], v)
  }

  /** The adverts have the first numbers, in their order. */
  ghost predicate Numbered(sent: seq<Advert>) {
    forall k :: 0 <= k < |sent| ==> sent[k].num == k
  }

  lemma TwoMoreNumbers(sent: seq<Advert>, a: Advert, b: Advert)
    requires Numbered(sent) && a.num == |sent| && b.num == |sent| + 1
    ensures Numbered(sent + [a, b])
  {}

  lemma ContinuesOn(e: SentEpoch, between: SentEpoch, next: SentEpoch)
    requires Continues(e, between) && Continues(between, next)
    ensures Continues(e, next)
  {}

  ghost predicate AllSentIn(c: Code, e: SentEpoch, sent: seq<Advert>)
    requires EpochOk(c, e)
  {
    forall i :: 0 <= i < |sent| ==> SentIn(c, e, sent[i])
  }

  lemma FilterAdded(c: Code, e: SentEpoch, next: SentEpoch, num: nat, v: LinkValue)
    requires InAllFilters(c, e, v) && Continues(e, next) && next.filters.Keys == e.filters.Keys + {num}
    requires |next.filters[num]| > 0 && MayContain(next.filters[num], BF_K, c.hash, Prefix(num, next.key), v)
    ensures InAllFilters(c, next, v)
  {
    forall b | b in next.filters
      ensures |next.filters[b]| > 0 && MayContain(next.filters[b], BF_K, c.hash, Prefix(b, next.key), v)
    {
      assert b in next.filters.Keys;
      if b != num { assert b in e.filters; }
    }
  }

  lemma AllStaySent(c: Code, e: SentEpoch, next: SentEpoch, sent: seq<Advert>)
    requires EpochOk(c, e) && EpochOk(c, next) && Continues(e, next) && AllSentIn(c, e, sent)
    ensures AllSentIn(c, next, sent)
  {
    forall i | 0 <= i < |sent| ensures SentIn(c, next, sent[i]) { SentStays(c, e, next, sent[i]); }
  }

  /** A change of the advertisement, after the application may have changed the advertised set. */
  method SendNext<E>(sender: Sender<E>, advertisedSet: seq<LinkValue>, random: nat -> nat, pFalse: real,
                     ghost sent: seq<Advert>, ghost v: LinkValue)
    returns (ghost now: seq<Advert>)
    requires sender.Valid() && InAllFilters(sender.c, sender.epoch, v) && AllSentIn(sender.c, sender.epoch, sent)
    requires Offered(sender.radio.confirmType, advertisedSet, v) && Numbered(sent) && sender.advertNum == |sent|
    modifies sender`advertNum, sender`advertBloom, sender`advertBloomNum, sender`epoch, sender`filling
    modifies sender.radio`advertisedSet
    ensures sender.Valid() && InAllFilters(sender.c, sender.epoch, v) && Continues(old(sender.epoch), sender.epoch)
    ensures AllSentIn(sender.c, sender.epoch, now) && Numbered(now) && sent <= now
    ensures sender.advertNum == |now| == if |sent| < ADV_N then |sent| + 2 else |sent|
  {
    ghost var before := sender.epoch;
    sender.radio.SetAdvertisedSet(advertisedSet);
    now := sent;
    var changed, advert, scanResponse;
    ghost var a, b;
    changed, advert, scanResponse, a, b := sender.ChangeAdvert(random, pFalse);
    AllStaySent(sender.c, before, sender.epoch, sent);
    if changed {
      now := sent + [a, b];
      TwoMoreNumbers(sent, a, b);
      sender.ExactlyHolds(sender.epoch.filters[a.num / BF_B], a.num / BF_B, random);
      ghost var i :| 0 <= i < |advertisedSet| && i < Room(sender.radio.confirmType) && advertisedSet[i] == v;
      FilterAdded(sender.c, before, sender.epoch, a.num / BF_B, v);
    }
  }

  /**
   * A number of changes of the advertisement within an epoch: the adverts come with the next numbers, up to the last
   * one, and a link value that is always offered is in all of the filters.
   */
  method SendEpoch<E>(sender: Sender<E>, sets: seq<seq<LinkValue>>, random: nat -> nat, pFalse: real,
                      ghost v: LinkValue)
    returns (ghost sent: seq<Advert>)
    requires sender.Valid() && InAllFilters(sender.c, sender.epoch, v) && sender.advertNum == 0
    requires AlwaysOffered(sender.radio.confirmType, sets, v)
    modifies sender`advertNum, sender`advertBloom, sender`advertBloomNum, sender`epoch, sender`filling
    modifies sender.radio`advertisedSet
    ensures sender.Valid() && InAllFilters(sender.c, sender.epoch, v) && Continues(old(sender.epoch), sender.epoch)
    ensures AllSentIn(sender.c, sender.epoch, sent) && Numbered(sent)
    ensures |sent| == if 2 * |sets| < ADV_N then 2 * |sets| else ADV_N
  {
    sent := [];
    var i := 0;
    while i < |sets|
      invariant i <= |sets| && sender.Valid() && InAllFilters(sender.c, sender.epoch, v)
      invariant Continues(old(sender.epoch), sender.epoch) && AllSentIn(sender.c, sender.epoch, sent)
      invariant sender.advertNum == |sent| == if 2 * i < ADV_N then 2 * i else ADV_N
      invariant Numbered(sent)
    {
      ghost var between := sender.epoch;
      sent := SendNext(sender, sets[i], random, pFalse, sent, v);
      ContinuesOn(old(sender.epoch), between, sender.epoch);
      i := i + 1;
    }
  }

  /** The epochs so far, the last one of which is the one at hand, and what has been sent in them. */
  ghost predicate SentSoFar(c: Code, es: seq<SentEpoch>, sent: seq<seq<Advert>>, keys: seq<Symbol>, v: LinkValue) {
    forall k: nat :: Look(OfLife, k) ==>
      && Sequel(c, es) && AlwaysSent(c, es, v) && |sent| == |es| == |keys|
      && forall s :: 0 <= s < |es| ==> es[s].key == keys[s] && AllSentIn(c, es[s], sent[s])
  }

  lemma OneMoreEpoch(c: Code, es: seq<SentEpoch>, sent: seq<seq<Advert>>, keys: seq<Symbol>, e: SentEpoch,
                     adverts: seq<Advert>, v: LinkValue)
    requires SentSoFar(c, es, sent, keys, v) && EpochOk(c, e) && InAllFilters(c, e, v) && AllSentIn(c, e, adverts)
    requires |es| > 0 ==> e.before == es[|es| - 1].codeword
    ensures SentSoFar(c, es + [e], sent + [adverts], keys + [e.key], v)
  {
    assert Look(OfLife, 0);
  }

  lemma NoEpochYet(c: Code, v: LinkValue)
    ensures SentSoFar(c, [], [], [], v)
  {}

  lemma OneMoreKey(all: seq<Symbol>, k: nat)
    requires k < |all|
    ensures all[..k] + [all[k]] == all[..k + 1]
  {}

  lemma WholeKeys(all: seq<Symbol>)
    ensures all[..|all|] == all
  {}

  /** The next epoch of a sender. */
  method SendNextEpoch<E>(sender: Sender<E>, key: Symbol, sets: seq<seq<LinkValue>>, random: nat -> nat, pFalse: real,
                          ghost v: LinkValue)
    returns (ghost sent: seq<Advert>)
    requires sender.Valid() && AlwaysOffered(sender.radio.confirmType, sets, v)
    modifies sender, sender.radio`advertisedSet
    ensures sender.Valid() && InAllFilters(sender.c, sender.epoch, v) && AllSentIn(sender.c, sender.epoch, sent)
    ensures sender.epoch.key == key && sender.epoch.before == old(sender.epoch).codeword
  {
    sender.ChangeEpoch(key);
    sent := SendEpoch(sender, sets, random, pFalse, v);
  }

  /** All the epochs of a sender, from its first one on, with any number of changes of the advertisement in each. */
  method SendEpochs<E>(sender: Sender<E>, keys: seq<Symbol>, sets: seq<seq<seq<LinkValue>>>, random: nat -> nat,
                       pFalse: real, ghost v: LinkValue)
    returns (ghost es: seq<SentEpoch>, ghost sent: seq<seq<Advert>>)
    requires sender.Valid() && sender.advertNum == 0 && sender.epoch.filters == map[] && |sets| == |keys| + 1
    requires forall s :: 0 <= s < |sets| ==> AlwaysOffered(sender.radio.confirmType, sets[s], v)
    modifies sender, sender.radio`advertisedSet
    ensures SentSoFar(sender.c, es, sent, [old(sender.key)] + keys, v)
  {
    ghost var all := [sender.key] + keys;
    ghost var adverts := SendEpoch(sender, sets[0], random, pFalse, v);
    NoEpochYet(sender.c, v);
    OneMoreEpoch(sender.c, [], [], [], sender.epoch, adverts, v);
    es, sent := [sender.epoch], [adverts];
    assert [] + es == es && [] + sent == sent && [] + [sender.epoch.key] == all[..1];
    var k := 0;
    while k < |keys|
      invariant k <= |keys| && |es| == k + 1 && sender.Valid() && es[k] == sender.epoch
      invariant SentSoFar(sender.c, es, sent, all[..k + 1], v)
    {
      adverts := SendNextEpoch(sender, keys[k], sets[k + 1], random, pFalse, v);
      OneMoreEpoch(sender.c, es, sent, all[..k + 1], sender.epoch, adverts, v);
      OneMoreKey(all, k + 1);
      es, sent := es + [sender.epoch], sent + [adverts];
      k := k + 1;
    }
    WholeKeys(all);
  }

  /**
   * From sender to receivers: a link value that is offered in every advertised set, over all the epochs of a sender, is
   * never erased by a receiver that listens for it, whatever part of the advertisements it hears and in whatever order,
   * as long as it takes them for ones of their epochs. The code has to recover the keys that are sent.
   */
  method SendToReceivers<E>(sender: Sender<E>, keys: seq<Symbol>, sets: seq<seq<seq<LinkValue>>>, random: nat -> nat,
                            pFalse: real, ghost v: LinkValue)
    returns (ghost es: seq<SentEpoch>, ghost sent: seq<seq<Advert>>)
    requires sender.Valid() && sender.advertNum == 0 && sender.epoch.filters == map[] && |sets| == |keys| + 1
    requires forall s :: 0 <= s < |sets| ==> AlwaysOffered(sender.radio.confirmType, sets[s], v)
    requires forall key :: key in [sender.key] + keys ==>
      Recovers(sender.c.rebuild, sender.c.rsK, sender.c.encode(key), key)
    modifies sender, sender.radio`advertisedSet
    ensures SenderEpochs(sender.c, es) && SentSoFar(sender.c, es, sent, [old(sender.key)] + keys, v)
    ensures forall r: Run, senders, owners, matching, n: nat ::
      RightRun(sender.c, es, r, senders, owners) && MatchingRun(sender.c, r, matching) && v in matching[0] ==>
      n <= |r.steps| ==> v in matching[n]
  {
    ghost var c, first := sender.c, sender.key;
    es, sent := SendEpochs(sender, keys, sets, random, pFalse, v);
    assert Look(OfLife, 0);
    forall s | 0 <= s < |es| ensures Recovers(c.rebuild, c.rsK, es[s].codeword, es[s].key) {
      assert es[s].key == ([first] + keys)[s];
    }
    forall r: Run, senders, owners, matching, n: nat |
      RightRun(c, es, r, senders, owners) && MatchingRun(c, r, matching) && n <= |r.steps| && v in matching[0]
      ensures v in matching[n]
    {
      NoMatchIsLost(c, es, r, senders, owners, matching, v, n);
    }
  }

  // ---------------------------------------------------------------- what is asked of a code can be met

  ghost function AnyOf(m: map<nat, Symbol>): Symbol {
    if m == map[] then [] else var i :| i in m; m[i]
  }

  /** A code that repeats a key as it is, for as long as a key has the size of a symbol. */
  ghost function Repetition(): Code {
    Code(1, 1, (key: Symbol) => seq(ADV_N, _ => if |key| == 8 then key else seq(8, _ => false)),
         (m: map<nat, Symbol>) => AnyOf(m), (prefix, value, k) => 0, (sizes, s) => 0.5)
  }

  lemma RepetitionRecovers(key: Symbol)
    requires |key| == SymbolBits(Repetition())
    ensures var c := Repetition(); CodeOk(c) && Recovers(c.rebuild, c.rsK, c.encode(key), key)
  {
    var c := Repetition();
    forall m: map<nat, Symbol> | PartOf(m, c.encode(key)) && |m| >= c.rsK ensures c.rebuild(m) == key {
      assert m != map[];
    }
  }
}
