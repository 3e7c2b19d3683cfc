/** The generator of scripts/solidity-port/cover.ts: three shift-xor steps on a 32-bit word. */
module Xorshift {
  function Left13(x: bv32): bv32 { x ^ (x << 13) }
  function Right17(x: bv32): bv32 { x ^ (x >> 17) }
  function Left5(x: bv32): bv32 { x ^ (x << 5) }

  function Advance(x: bv32): bv32 {
    Left5(Right17(Left13(x)))
  }

  function FirstState(seed: bv32): bv32 {
    if seed ^ 0x9e3779b9 == 0 then 0x1234567 else seed ^ 0x9e3779b9
  }

  function After(seed: bv32, n: nat): bv32 {
    if n == 0 then FirstState(seed) else Advance(After(seed, n - 1))
  }

  // ---------- each step undone ----------

  function Undo13(y: bv32): bv32 { y ^ (y << 13) ^ (y << 26) }

  function Undo17(y: bv32): bv32 { y ^ (y >> 17) }

  function Undo5(y: bv32): bv32 {
    var y1 := y ^ (y << 5);
    var y2 := y1 ^ (y1 << 10);
    y2 ^ (y2 << 20)
  }

  /** The state a state came from. */
  function Rewind(y: bv32): bv32 {
    Undo13(Undo17(Undo5(y)))
  }

  lemma Undone(x: bv32)
    ensures Undo13(x ^ (x << 13)) == x && Undo17(x ^ (x >> 17)) == x && Undo5(x ^ (x << 5)) == x
  {
  }

  lemma Redone(y: bv32)
    ensures Left13(y ^ (y << 13) ^ (y << 26)) == y && Right17(y ^ (y >> 17)) == y
    ensures var y1 := y ^ (y << 5); var y2 := y1 ^ (y1 << 10); Left5(y2 ^ (y2 << 20)) == y
  {
  }

  lemma StepsUndone(x: bv32)
    ensures Undo13(Left13(x)) == x && Undo17(Right17(x)) == x && Undo5(Left5(x)) == x
  {
    hide Undo13;
    hide Undo17;
    hide Undo5;
    Undone(x);
  }

  lemma StepsRedone(y: bv32)
    ensures Left13(Undo13(y)) == y && Right17(Undo17(y)) == y && Left5(Undo5(y)) == y
  {
    hide Left13;
    hide Right17;
    hide Left5;
    Redone(y);
  }

  /** The step is a bijection on 32-bit words. */
  lemma AdvanceIsBijective(x: bv32)
    ensures Rewind(Advance(x)) == x && Advance(Rewind(x)) == x
  {
    hide Left13;
    hide Right17;
    hide Left5;
    hide Undo13;
    hide Undo17;
    hide Undo5;
    StepsUndone(x);
    StepsUndone(Left13(x));
    StepsUndone(Right17(Left13(x)));
    StepsRedone(x);
    StepsRedone(Undo5(x));
    StepsRedone(Undo17(Undo5(x)));
  }

  /** Zero is the one state the generator could be stuck in, and no other state leads to it. */
  lemma OnlyZeroLeadsToZero(x: bv32)
    ensures Advance(x) == 0 <==> x == 0
  {
    AdvanceIsBijective(x);
    assert Rewind(0) == 0 && Advance(0) == 0;
  }

  /** From any seed, after any number of draws, the state is never zero. */
  lemma {:induction false} NeverZero(seed: bv32, n: nat)
    ensures After(seed, n) != 0
  {
    if n != 0 {
      NeverZero(seed, n - 1);
      OnlyZeroLeadsToZero(After(seed, n - 1));
    }
  }

  class Generator {
    var state: bv32

    constructor (seed: bv32)
      ensures state == FirstState(seed) != 0
    {
      state := if seed ^ 0x9e3779b9 == 0 then 0x1234567 else seed ^ 0x9e3779b9;
    }

    method Next() returns (r: bv32)
      modifies this
      ensures r == state == Advance(old(state))
      ensures old(state) != 0 ==> r != 0
      ensures Rewind(r) == old(state)
    {
      OnlyZeroLeadsToZero(state);
      AdvanceIsBijective(state);
      state := Left13(state);
      state := Right17(state);
      state := Left5(state);
      r := state;
    }
  }
}
