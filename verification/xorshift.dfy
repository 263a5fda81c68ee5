/** The random number generator of the tests (asmjit-testing/commons/random.h). */
module Xorshift {

  type State = (bv64, bv64)

  const ZERO: State := (0, 0)

  function Shl23(v: bv64): bv64 {
    v ^ (v << 23)
  }

  function Shr18(v: bv64): bv64 {
    v ^ (v >> 18)
  }

  function Shr5(v: bv64): bv64 {
    v ^ (v >> 5)
  }

  function Xor(a: bv64, b: bv64): bv64 {
    a ^ b
  }

  function Plus(a: bv64, b: bv64): bv64 {
    a + b
  }

  function Step(s: State): State {
    var y := Shr5(s.1);
    (y, Xor(Shr18(Shl23(s.0)), y))
  }

  // --- A step can be undone ---

  function UndoShl23(v: bv64): bv64 {
    v ^ (v << 23) ^ (v << 46)
  }

  function UndoShr18(v: bv64): bv64 {
    v ^ (v >> 18) ^ (v >> 36) ^ (v >> 54)
  }

  function UndoShr5(v: bv64): bv64 {
    v ^ (v >> 5) ^ (v >> 10) ^ (v >> 15) ^ (v >> 20) ^ (v >> 25) ^ (v >> 30)
      ^ (v >> 35) ^ (v >> 40) ^ (v >> 45) ^ (v >> 50) ^ (v >> 55) ^ (v >> 60)
  }

  function Undo(s: State): State {
    (UndoShl23(UndoShr18(Xor(s.1, s.0))), UndoShr5(s.0))
  }

  lemma {:induction false} Shl23Of(v: bv64)
    ensures Shl23(v) == v ^ (v << 23) && UndoShl23(v ^ (v << 23)) == v
  {
  }

  lemma {:induction false} UndoShl23Of(v: bv64)
    ensures UndoShl23(v) == v ^ (v << 23) ^ (v << 46)
    ensures Shl23(v ^ (v << 23) ^ (v << 46)) == v
  {
  }

  lemma {:induction false} Shl23Undone(v: bv64)
    ensures UndoShl23(Shl23(v)) == v && Shl23(UndoShl23(v)) == v
  {
    hide Shl23, UndoShl23;
    Shl23Of(v);
    UndoShl23Of(v);
  }

  lemma {:induction false} Shr18Of(v: bv64)
    ensures Shr18(v) == v ^ (v >> 18) && UndoShr18(v ^ (v >> 18)) == v
  {
  }

  lemma {:induction false} UndoShr18Of(v: bv64)
    ensures UndoShr18(v) == v ^ (v >> 18) ^ (v >> 36) ^ (v >> 54)
    ensures Shr18(v ^ (v >> 18) ^ (v >> 36) ^ (v >> 54)) == v
  {
  }

  lemma {:induction false} Shr18Undone(v: bv64)
    ensures UndoShr18(Shr18(v)) == v && Shr18(UndoShr18(v)) == v
  {
    hide Shr18, UndoShr18;
    Shr18Of(v);
    UndoShr18Of(v);
  }

  lemma {:induction false} Shr5Of(v: bv64)
    ensures Shr5(v) == v ^ (v >> 5) && UndoShr5(v ^ (v >> 5)) == v
  {
  }

  lemma {:induction false} UndoShr5Of(v: bv64)
    ensures UndoShr5(v) == v ^ (v >> 5) ^ (v >> 10) ^ (v >> 15) ^ (v >> 20) ^ (v >> 25) ^ (v >> 30) ^ (v >> 35) ^ (v >> 40) ^ (v >> 45) ^ (v >> 50) ^ (v >> 55) ^ (v >> 60)
    ensures Shr5(v ^ (v >> 5) ^ (v >> 10) ^ (v >> 15) ^ (v >> 20) ^ (v >> 25) ^ (v >> 30) ^ (v >> 35) ^ (v >> 40) ^ (v >> 45) ^ (v >> 50) ^ (v >> 55) ^ (v >> 60)) == v
  {
  }

  lemma {:induction false} Shr5Undone(v: bv64)
    ensures UndoShr5(Shr5(v)) == v && Shr5(UndoShr5(v)) == v
  {
    hide Shr5, UndoShr5;
    Shr5Of(v);
    UndoShr5Of(v);
  }

  lemma {:induction false} XorUndone(a: bv64, b: bv64)
    ensures Xor(Xor(a, b), b) == a
  {
  }

  /** A step maps the states one to one onto the states. */
  lemma {:induction false} StepIsABijection(s: State)
    ensures Undo(Step(s)) == s && Step(Undo(s)) == s
  {
    hide Shl23, Shr18, Shr5, Xor, UndoShl23, UndoShr18, UndoShr5;
    var (x, y) := s;
    Shl23Undone(x);
    Shr18Undone(Shl23(x));
    Shr5Undone(y);
    XorUndone(Shr18(Shl23(x)), Shr5(y));
    var w := Xor(y, x);
    Shr18Undone(w);
    Shl23Undone(UndoShr18(w));
    Shr5Undone(x);
    XorUndone(y, x);
  }

  function Run(s: State, n: nat): State {
    if n == 0 then s else Step(Run(s, n - 1))
  }

  /** Different states stay different, however long both run. */
  lemma {:induction false} RunsStayApart(s: State, t: State, n: nat)
    ensures Run(s, n) == Run(t, n) <==> s == t
  {
    if n > 0 {
      RunsStayApart(s, t, n - 1);
      StepIsABijection(Run(s, n - 1));
      StepIsABijection(Run(t, n - 1));
    }
  }

  lemma {:induction false} ZeroStaysZero(n: nat)
    ensures Run(ZERO, n) == ZERO
  {
    if n > 0 { ZeroStaysZero(n - 1); }
  }

  /** A run is in the state of zeros exactly when it began there. */
  lemma {:induction false} ZeroIsNeverReached(s: State, n: nat)
    ensures Run(s, n) == ZERO <==> s == ZERO
  {
    ZeroStaysZero(n);
    RunsStayApart(s, ZERO, n);
  }

  const ZERO_SEED: bv64 := 0x1F0A2BE71D163FA0
  const GAMMA: bv64 := 0x9E3779B97F4A7C15

  function Mix(seed: bv64): bv64 {
    var x := (seed ^ (seed >> 30)) * 0xBF58476D1CE4E5B9;
    var y := (x ^ (x >> 27)) * 0x94D049BB133111EB;
    y ^ (y >> 31)
  }

  function Word(seed: bv64): (w: bv64)
    ensures w != 0
  {
    if Mix(seed) != 0 then Mix(seed) else ZERO_SEED
  }

  function Seeded(seed: bv64): State {
    (Word(Plus(seed, GAMMA)), Word(Plus(Plus(seed, GAMMA), GAMMA)))
  }

  class Random {
    const state: array<bv64>

    function View(): State
      requires state.Length == 2
      reads state
    {
      (state[0], state[1])
    }

    constructor (seed: bv64)
      ensures fresh(state) && state.Length == 2 && View() == Seeded(seed)
    {
      state := new bv64[2];
      new;
      Reset(seed);
    }

    /** Both words of the state become different from zero. */
    method Reset(seed: bv64)
      requires state.Length == 2
      modifies state
      ensures View() == Seeded(seed) && state[0] != 0 && state[1] != 0
    {
      hide Mix, Plus;
      var s := seed;
      var i := 0;
      while i < 2
        invariant i <= 2 && s == (if i == 0 then seed else if i == 1 then Plus(seed, GAMMA) else Plus(Plus(seed, GAMMA), GAMMA))
        invariant i > 0 ==> state[0] == Word(Plus(seed, GAMMA))
        invariant i > 1 ==> state[1] == Word(Plus(Plus(seed, GAMMA), GAMMA))
      {
        s := Plus(s, GAMMA);
        var x := Mix(s);
        state[i] := if x != 0 then x else ZERO_SEED;
        i := i + 1;
      }
    }

    method NextUInt64() returns (r: bv64)
      requires state.Length == 2
      modifies state
      ensures View() == Step(old(View())) && r == Plus(View().1, View().0)
    {
      hide Shl23, Shr18, Shr5, Xor;
      var x, y := state[0], state[1];
      x := Shl23(x);
      y := Shr5(y);
      x := Shr18(x);
      x := Xor(x, y);
      state[0] := y;
      state[1] := x;
      r := Plus(x, y);
    }
  }

  /** From any seed, no number of steps leads to the state of zeros. */
  lemma {:induction false} SeededRunsAreSafe(seed: bv64, n: nat)
    ensures Run(Seeded(seed), n) != ZERO
  {
    hide Mix;
    assert Seeded(seed).0 != 0;
    ZeroIsNeverReached(Seeded(seed), n);
  }

  /** The numbers that begin the run of the seed 0; its first state has the words of splitmix64. */
  lemma {:induction false} FirstNumbers()
    ensures Seeded(0) == (0xE220A8397B1DCDAF, 0x6E789E6AA1B965F4)
    ensures var s := Step((0xE220A8397B1DCDAF, 0x6E789E6AA1B965F4));
            s == (0x6D0B5A99F4B4AEDB, 0x939643E1119E8853) && Plus(s.1, s.0) == 0x00A19E7B0653372E
  {
  }
}
