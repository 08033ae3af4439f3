/**
 * The wheel of size 210 that third-party/gmp/nextprime.c steps its sieving numbers through: a table of 48
 * increments that passes, from 11 on, over nothing but multiples of 2, 3, 5 and 7.
 */
module Wheel {
  import opened Arith

  predicate HasSmallFactor(n: nat) {
    n % 2 == 0 || n % 3 == 0 || n % 5 == 0 || n % 7 == 0
  }

  // The increments of the table, in four quarters, and the positions they lead through.
  function Add0(): seq<nat> { [2, 4, 2, 4, 6, 2, 6, 4, 2, 4, 6, 6] }
  function Add1(): seq<nat> { [2, 6, 4, 2, 6, 4, 6, 8, 4, 2, 4, 2] }
  function Add2(): seq<nat> { [4, 8, 6, 4, 6, 2, 4, 6, 2, 6, 6, 4] }
  function Add3(): seq<nat> { [2, 4, 6, 2, 6, 4, 2, 4, 2, 10, 2, 10] }

  function Pos0(): seq<nat> { [11, 13, 17, 19, 23, 29, 31, 37, 41, 43, 47, 53, 59] }
  function Pos1(): seq<nat> { [59, 61, 67, 71, 73, 79, 83, 89, 97, 101, 103, 107, 109] }
  function Pos2(): seq<nat> { [109, 113, 121, 127, 131, 137, 139, 143, 149, 151, 157, 163, 167] }
  function Pos3(): seq<nat> { [167, 169, 173, 179, 181, 187, 191, 193, 197, 199, 209, 211, 221] }

  function Increment(ai: nat): nat
    requires ai < 48
  {
    if ai < 12 then Add0()[ai] else if ai < 24 then Add1()[ai - 12]
    else if ai < 36 then Add2()[ai - 24] else Add3()[ai - 36]
  }

  /** The wheel position at table index ai, counted from 11. */
  function Position(ai: nat): nat
    requires ai <= 48
  {
    if ai < 12 then Pos0()[ai] else if ai < 24 then Pos1()[ai - 12]
    else if ai < 36 then Pos2()[ai - 24] else Pos3()[ai - 36]
  }

  lemma Quarter0(i: nat, j: nat)
    requires i < 12
    ensures Add0()[i] > 0 && Pos0()[i] + Add0()[i] == Pos0()[i + 1]
    ensures Pos0()[i] < j < Pos0()[i + 1] ==> HasSmallFactor(j)
  {
    if i < 6 { FirstHalf0(i, j); } else { SecondHalf0(i, j); }
  }

  lemma FirstHalf0(i: nat, j: nat)
    requires i < 6
    ensures Pos0()[i] < j < Pos0()[i + 1] ==> HasSmallFactor(j)
  {}

  lemma SecondHalf0(i: nat, j: nat)
    requires 6 <= i < 12
    ensures Pos0()[i] < j < Pos0()[i + 1] ==> HasSmallFactor(j)
  {}

  lemma Quarter1(i: nat, j: nat)
    requires i < 12
    ensures Add1()[i] > 0 && Pos1()[i] + Add1()[i] == Pos1()[i + 1]
    ensures Pos1()[i] < j < Pos1()[i + 1] ==> HasSmallFactor(j)
  {
    if i < 6 { FirstHalf1(i, j); } else { SecondHalf1(i, j); }
  }

  lemma FirstHalf1(i: nat, j: nat)
    requires i < 6
    ensures Pos1()[i] < j < Pos1()[i + 1] ==> HasSmallFactor(j)
  {}

  lemma SecondHalf1(i: nat, j: nat)
    requires 6 <= i < 12
    ensures Pos1()[i] < j < Pos1()[i + 1] ==> HasSmallFactor(j)
  {}

  lemma Quarter2(i: nat, j: nat)
    requires i < 12
    ensures Add2()[i] > 0 && Pos2()[i] + Add2()[i] == Pos2()[i + 1]
    ensures Pos2()[i] < j < Pos2()[i + 1] ==> HasSmallFactor(j)
  {
    if i < 6 { FirstHalf2(i, j); } else { SecondHalf2(i, j); }
  }

  lemma FirstHalf2(i: nat, j: nat)
    requires i < 6
    ensures Pos2()[i] < j < Pos2()[i + 1] ==> HasSmallFactor(j)
  {}

  lemma SecondHalf2(i: nat, j: nat)
    requires 6 <= i < 12
    ensures Pos2()[i] < j < Pos2()[i + 1] ==> HasSmallFactor(j)
  {}

  lemma Quarter3(i: nat, j: nat)
    requires i < 12
    ensures Add3()[i] > 0 && Pos3()[i] + Add3()[i] == Pos3()[i + 1]
    ensures Pos3()[i] < j < Pos3()[i + 1] ==> HasSmallFactor(j)
  {
    if i < 6 { FirstHalf3(i, j); } else { SecondHalf3(i, j); }
  }

  lemma FirstHalf3(i: nat, j: nat)
    requires i < 6
    ensures Pos3()[i] < j < Pos3()[i + 1] ==> HasSmallFactor(j)
  {}

  lemma SecondHalf3(i: nat, j: nat)
    requires 6 <= i < 12
    ensures Pos3()[i] < j < Pos3()[i + 1] ==> HasSmallFactor(j)
  {}

  /** The quarters join up, and one turn of the wheel is 210. */
  lemma Joints()
    ensures Pos0()[0] == 11 && Pos3()[12] == 11 + 210
    ensures Pos0()[12] == Pos1()[0] && Pos1()[12] == Pos2()[0] && Pos2()[12] == Pos3()[0]
  {}

  lemma PositionIsCoprime(ai: nat)
    requires ai <= 48
    ensures !HasSmallFactor(Position(ai))
  {}

  lemma Step(ai: nat, j: nat)
    requires ai < 48
    ensures Increment(ai) > 0 && Position(ai) + Increment(ai) == Position(ai + 1)
    ensures Position(ai) < j < Position(ai + 1) ==> HasSmallFactor(j)
  {
    Joints();
    if ai < 12 { Quarter0(ai, j); } else if ai < 24 { Quarter1(ai - 12, j); }
    else if ai < 36 { Quarter2(ai - 24, j); } else { Quarter3(ai - 36, j); }
  }

  /** Entry i leads from one number that is coprime to 210 to the next: every number between shares a factor with it. */
  ghost predicate Entry(add: seq<nat>, pos: seq<nat>, i: nat, j: nat)
    requires |add| == 48 && |pos| == 49 && i < 48
  {
    && !HasSmallFactor(pos[i]) && add[i] > 0 && pos[i] + add[i] == pos[i + 1]
    && (pos[i] < j < pos[i + 1] ==> HasSmallFactor(j))
  }

  /** add is a table of increments for one full turn, from 11 to 11 + 210. */
  ghost predicate IsWheel(add: seq<nat>, pos: seq<nat>) {
    && |add| == 48 && |pos| == 49 && pos[0] == 11 && pos[48] == 11 + 210
    && forall i: nat, j: nat :: i < 48 ==> Entry(add, pos, i, j)
  }

  lemma TableEntry(add: seq<nat>, pos: seq<nat>, i: nat, j: nat)
    requires |add| == 48 && |pos| == 49 && i < 48
    requires add[i] == Increment(i) && pos[i] == Position(i) && pos[i + 1] == Position(i + 1)
    ensures Entry(add, pos, i, j)
  {
    Step(i, j);
    PositionIsCoprime(i);
  }

  method AddTab() returns (add: seq<nat>, ghost pos: seq<nat>)
    ensures IsWheel(add, pos) && forall i :: 0 <= i < 48 ==> add[i] == Increment(i)
  {
    add := seq(48, i requires 0 <= i < 48 => Increment(i));
    pos := seq(49, i requires 0 <= i < 49 => Position(i));
    Joints();
    forall i: nat, j: nat | i < 48
      ensures Entry(add, pos, i, j)
    {
      TableEntry(add, pos, i, j);
    }
  }

  /** After a number of full turns of the wheel the number p stands at table index ai. */
  ghost predicate OnWheel(pos: seq<nat>, p: nat, ai: nat, turns: nat) {
    ai < |pos| && p == pos[ai] + 210 * turns
  }

  lemma TurnKeepsFactors(n: nat, turns: nat)
    ensures HasSmallFactor(n + 210 * turns) == HasSmallFactor(n)
  {
    ModAddMultiple(n, 105 * turns, 2);
    ModAddMultiple(n, 70 * turns, 3);
    ModAddMultiple(n, 42 * turns, 5);
    ModAddMultiple(n, 30 * turns, 7);
  }

  lemma Turn(add: seq<nat>, pos: seq<nat>, p: nat, ai: nat, turns: nat) returns (turns': nat)
    requires IsWheel(add, pos) && ai < 48 && OnWheel(pos, p, ai, turns)
    ensures !HasSmallFactor(p) && add[ai] > 0
    ensures OnWheel(pos, p + add[ai], (ai + 1) % 48, turns')
  {
    assert Entry(add, pos, ai, 0);
    TurnKeepsFactors(pos[ai], turns);
    if ai == 47 { turns' := turns + 1; } else { turns' := turns; }
  }

  lemma PassesOver(add: seq<nat>, pos: seq<nat>, p: nat, ai: nat, turns: nat, k: nat)
    requires IsWheel(add, pos) && ai < 48 && OnWheel(pos, p, ai, turns)
    requires p < k < p + add[ai]
    ensures HasSmallFactor(k)
  {
    var n: nat := k - 210 * turns;
    assert Entry(add, pos, ai, n);
    TurnKeepsFactors(n, turns);
  }
}
