/** The events that are reported about a device, in the order in which include/EbNEvents.h and their users put them. */
module EventLog {
  import opened Device

  /** How far the story of a device has got. */
  datatype Phase = Unknown | Seen | Running | Over | Broken

  function Next(phase: Phase, kind: EventType): Phase {
    match (phase, kind)
    case (Unknown, UnconfirmedStarted) => Seen
    case (Seen, Started) => Running
    case (Running, Updated) => Running
    case (Seen, Ended) => Over
    case (Running, Ended) => Over
    case _ => Broken
  }

  /** The phase of a device after the events of a log. */
  function PhaseOf(log: seq<EncounterEvent>, id: DeviceID): Phase {
    if |log| == 0 then Unknown
    else
      var e := log[|log| - 1];
      if e.id == id then Next(PhaseOf(log[..|log| - 1], id), e.kind) else PhaseOf(log[..|log| - 1], id)
  }

  lemma PhaseStep(log: seq<EncounterEvent>, e: EncounterEvent, id: DeviceID)
    ensures PhaseOf(log + [e], id) == if e.id == id then Next(PhaseOf(log, id), e.kind) else PhaseOf(log, id)
  {
    assert (log + [e])[..|log|] == log;
  }

  /** The kinds of the events of one device. */
  function Kinds(log: seq<EncounterEvent>, id: DeviceID): seq<EventType> {
    if |log| == 0 then []
    else
      var e := log[|log| - 1];
      Kinds(log[..|log| - 1], id) + (if e.id == id then [e.kind] else [])
  }

  /** What the events of a log report about an id, if this was listened for when its device was found. */
  function ReportsIn(log: seq<EncounterEvent>, id: DeviceID, listened: seq<LinkValue>): Reports {
    if |log| == 0 then Reports(false, [], [], listened)
    else
      var e := log[|log| - 1];
      var r := ReportsIn(log[..|log| - 1], id, listened);
      if e.id == id then WithEvent(r, e) else r
  }

  lemma ReportsStep(log: seq<EncounterEvent>, e: EncounterEvent, id: DeviceID, listened: seq<LinkValue>)
    ensures var r := ReportsIn(log, id, listened);
      ReportsIn(log + [e], id, listened) == if e.id == id then WithEvent(r, e) else r
  {
    assert (log + [e])[..|log|] == log;
  }

  /** Nothing is reported about an id without events. */
  lemma {:induction false} NothingReported(log: seq<EncounterEvent>, id: DeviceID, listened: seq<LinkValue>)
    requires PhaseOf(log, id) == Unknown
    ensures ReportsIn(log, id, listened) == Reports(false, [], [], listened)
  {
    if |log| > 0 {
      assert Next(PhaseOf(log[..|log| - 1], id), log[|log| - 1].kind) != Unknown;
      NothingReported(log[..|log| - 1], id, listened);
    }
  }

  /** One UnconfirmedStarted, then perhaps one Started and any Updated, then perhaps one Ended, and nothing after it. */
  predicate Orderly(kinds: seq<EventType>) {
    && (forall i :: 0 <= i < |kinds| ==> (kinds[i] == UnconfirmedStarted <==> i == 0))
    && (forall i :: 0 <= i < |kinds| && kinds[i] == Ended ==> i == |kinds| - 1)
    && (forall i :: 1 < i < |kinds| && kinds[i] != Ended ==> kinds[i] == Updated)
    && (|kinds| > 1 && kinds[1] != Ended ==> kinds[1] == Started)
  }

  predicate Ends(kinds: seq<EventType>, phase: Phase) {
    match phase
    case Unknown => |kinds| == 0
    case Seen => |kinds| == 1
    case Running => |kinds| > 1 && kinds[|kinds| - 1] != Ended
    case Over => |kinds| > 1 && kinds[|kinds| - 1] == Ended
    case Broken => false
  }

  /** The phases tell exactly the logs in which the events of a device are in order. */
  lemma {:induction false} PhaseIsOrder(log: seq<EncounterEvent>, id: DeviceID)
    ensures Orderly(Kinds(log, id)) <==> PhaseOf(log, id) != Broken
    ensures PhaseOf(log, id) != Broken ==> Ends(Kinds(log, id), PhaseOf(log, id))
  {
    if |log| > 0 {
      var front, e := log[..|log| - 1], log[|log| - 1];
      PhaseIsOrder(front, id);
      if e.id == id {
        OrderStep(Kinds(front, id), PhaseOf(front, id), e.kind);
        assert Kinds(log, id) == Kinds(front, id) + [e.kind];
      } else {
        assert Kinds(log, id) == Kinds(front, id);
      }
    }
  }

  lemma OrderStep(kinds: seq<EventType>, phase: Phase, kind: EventType)
    requires Orderly(kinds) <==> phase != Broken
    requires phase != Broken ==> Ends(kinds, phase)
    ensures Orderly(kinds + [kind]) <==> Next(phase, kind) != Broken
    ensures Next(phase, kind) != Broken ==> Ends(kinds + [kind], Next(phase, kind))
  {
    var next := kinds + [kind];
    assert next[|kinds|] == kind && forall i :: 0 <= i < |kinds| ==> next[i] == kinds[i];
    if phase == Broken && Orderly(next) {
      OrderlyFront(kinds, kind);
    }
  }

  lemma OrderlyFront(kinds: seq<EventType>, kind: EventType)
    requires Orderly(kinds + [kind])
    ensures Orderly(kinds)
  {
    var next := kinds + [kind];
    assert forall i :: 0 <= i < |kinds| ==> next[i] == kinds[i];
  }
}
