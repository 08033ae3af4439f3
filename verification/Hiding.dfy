/**
 * Invariants that the verifier does not look into by itself. An invariant that is quantified over Look says no more
 * than without it, because Look is always true; but its meaning is used only where a proof mentions Look.
 */
module Hiding {
  /** What the invariant is about; a proof opens those of one kind at a time. */
  datatype Kind =
    OfDevice | OfMap | OfEvents | OfRecent | OfRadio | OfEpoch | OfStep | OfMove | OfRow | OfPart | OfRun | OfLife
    | OfImages | OfFilling

  predicate Look(kind: Kind, k: nat) {
    true
  }
}
