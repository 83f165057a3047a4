/**
  The computation of an epoch of a rolling machine: inputs, instructions and uarch cycles
  (doc/README.md, "Rolling verification game").

  `IsRolling` lists what the emulator promises about the machine; every result of the rolling game rests
  on these promises and on nothing else about it.
 */
module RollingMachine {
  import opened Merkle
  import opened Emulator
  import opened Bisection

  /** Feeding records the hash of the machine the input arrives in, or is a no-op; only it records one. */
  ghost predicate FeedRecords<S(!new), T, D(!new)>(m: Machine<S, T, D>) {
    && (forall s: S, d: D :: if m.CanSend(s, d) then m.revertHash(m.feed(s, d)) == m.hash(s) else m.feed(s, d) == s)
    && (forall s: S, d: D :: m.mcycle(m.feed(s, d)) == m.mcycle(s) && (m.Pristine(s) ==> m.Pristine(m.feed(s, d))))
    && (forall s: S {:trigger Instruction(m, s)} :: m.Pristine(s) ==>
          m.revertHash(Instruction(m, s)) == m.revertHash(s))
  }

  ghost predicate IsRolling<S(!new), T, D(!new)>(m: Machine<S, T, D>) {
    && m.uarchCycles >= 2 && m.mcyclesPerInput >= 1
    && InstructionsCount(m) && StepsCount(m) && FeedRecords(m)
  }

  // ---------------------------------------------------------------------------------------------
  // Positions within an input
  // ---------------------------------------------------------------------------------------------

  /** The boundary once the input, if there is one, has been included. */
  function Fed<S, T, D>(m: Machine<S, T, D>, boundary: S, data: Option<D>): S {
    if data.Some? then m.feed(boundary, data.value) else boundary
  }

  /** The boundary, fed and run for `n` mcycles; once the input is rejected, the boundary again. */
  function AtOffset<S, T, D>(m: Machine<S, T, D>, boundary: S, data: Option<D>, n: nat): S {
    if n == 0 then boundary
    else
      var s := Instructions(m, Fed(m, boundary, data), n);
      if m.rejected(s) then boundary else s
  }

  /** The state an instruction at offset `n` starts from; the first one includes the input. */
  function StartOf<S, T, D>(m: Machine<S, T, D>, boundary: S, data: Option<D>, n: nat): S {
    if n == 0 then Fed(m, boundary, data) else AtOffset(m, boundary, data, n)
  }

  function AtCycle<S, T, D>(m: Machine<S, T, D>, boundary: S, data: Option<D>, n: nat, c: nat): S {
    if c == 0 then AtOffset(m, boundary, data, n) else Steps(m, StartOf(m, boundary, data, n), c)
  }

  // ---------------------------------------------------------------------------------------------
  // The epoch
  // ---------------------------------------------------------------------------------------------

  function DataOf<D>(inputs: seq<D>, i: nat): Option<D> {
    if i < |inputs| then Some(inputs[i]) else None
  }

  /** The state in which the first `i` inputs, and no others, are done processing. */
  function Boundary<S, T, D>(m: Machine<S, T, D>, s: S, inputs: seq<D>, i: nat): S {
    if i == 0 then s
    else AtOffset(m, Boundary(m, s, inputs, i - 1), DataOf(inputs, i - 1), m.mcyclesPerInput)
  }

  /** The epoch starts at a boundary, and every input is done within its mcycles. */
  ghost predicate IsEpoch<S, T, D>(m: Machine<S, T, D>, s: S, inputs: seq<D>) {
    && m.Stopped(s) && !m.rejected(s) && m.Pristine(s)
    && forall i: nat :: i < |inputs| ==>
         m.Stopped(Instructions(m, Fed(m, Boundary(m, s, inputs, i), DataOf(inputs, i)), m.mcyclesPerInput))
  }

  function StateAt<S, T, D>(m: Machine<S, T, D>, s: S, inputs: seq<D>, p: Position): S {
    AtCycle(m, Boundary(m, s, inputs, p.input), DataOf(inputs, p.input), p.mcycle, p.uarchCycle)
  }

  /** The true hash at a position; the end of an instruction is the start of the next. */
  function HashAt<S, T, D>(m: Machine<S, T, D>, s: S, inputs: seq<D>, p: Position): T {
    if p.uarchCycle == m.uarchCycles then
      m.hash(AtOffset(m, Boundary(m, s, inputs, p.input), DataOf(inputs, p.input), p.mcycle + 1))
    else m.hash(StateAt(m, s, inputs, p))
  }

  // ---------------------------------------------------------------------------------------------
  // Boundaries are fixed points
  // ---------------------------------------------------------------------------------------------

  ghost predicate IsBoundary<S, T, D>(m: Machine<S, T, D>, b: S) {
    m.Stopped(b) && !m.rejected(b) && m.Pristine(b)
  }

  /** A fed boundary has a pristine uarch too. */
  lemma FedIsPristine<S(!new), T, D(!new)>(m: Machine<S, T, D>, b: S, data: Option<D>)
    requires FeedRecords(m) && m.Pristine(b)
    ensures m.Pristine(Fed(m, b, data)) && m.mcycle(Fed(m, b, data)) == m.mcycle(b)
  {
  }

  /** Processing an input that is done in time leads from one boundary to another. */
  lemma InputEndsAtBoundary<S(!new), T, D(!new)>(m: Machine<S, T, D>, b: S, data: Option<D>)
    requires IsRolling(m) && IsBoundary(m, b)
    requires data.Some? ==> m.Stopped(Instructions(m, Fed(m, b, data), m.mcyclesPerInput))
    ensures IsBoundary(m, AtOffset(m, b, data, m.mcyclesPerInput))
    ensures data.None? ==> AtOffset(m, b, data, m.mcyclesPerInput) == b
  {
    hide InstructionsCount, StepsCount, FeedRecords, Instruction;
    FedIsPristine(m, b, data);
    PristineBetween(m, Fed(m, b, data), m.mcyclesPerInput);
    if data.None? {
      StoppedStays(m, b, 0, m.mcyclesPerInput);
    }
  }

  lemma {:induction false} BoundaryIsFixed<S(!new), T, D(!new)>(m: Machine<S, T, D>, s: S, inputs: seq<D>, i: nat)
    requires IsRolling(m) && IsEpoch(m, s, inputs)
    ensures IsBoundary(m, Boundary(m, s, inputs, i))
  {
    hide IsRolling, AtOffset, Instructions;
    if i > 0 {
      BoundaryIsFixed(m, s, inputs, i - 1);
      InputEndsAtBoundary(m, Boundary(m, s, inputs, i - 1), DataOf(inputs, i - 1));
    }
  }

  /** Past the last input nothing changes. */
  lemma {:induction false} NothingAfterLastInput<S(!new), T, D(!new)>(m: Machine<S, T, D>, s: S, inputs: seq<D>, i: nat)
    requires IsRolling(m) && IsEpoch(m, s, inputs) && i >= |inputs|
    ensures Boundary(m, s, inputs, i) == Boundary(m, s, inputs, |inputs|)
    decreases i
  {
    hide IsRolling, IsEpoch, AtOffset, Instructions, IsBoundary;
    if i > |inputs| {
      NothingAfterLastInput(m, s, inputs, i - 1);
      BoundaryIsFixed(m, s, inputs, i - 1);
      InputEndsAtBoundary(m, Boundary(m, s, inputs, i - 1), DataOf(inputs, i - 1));
    }
  }

  // ---------------------------------------------------------------------------------------------
  // Epochs whose inputs can be fed
  // ---------------------------------------------------------------------------------------------

  /** Crossing an input raises no error: it can be sent, and processing it ends with a request. */
  ghost predicate Advances<S, T, D>(m: Machine<S, T, D>, b: S, data: D) {
    m.CanSend(b, data) && m.HasRequest(Instructions(m, m.feed(b, data), m.mcyclesPerInput))
  }

  ghost predicate EpochIsFed<S, T, D>(m: Machine<S, T, D>, s: S, inputs: seq<D>) {
    forall i: nat :: i < |inputs| ==> Advances(m, Boundary(m, s, inputs, i), inputs[i])
  }

  /** Every input fits the receive buffer and the guest accepts or rejects it. */
  ghost predicate EndsWithVerdicts<S, T, D>(m: Machine<S, T, D>, s: S, inputs: seq<D>) {
    forall i: nat :: i < |inputs| ==>
      m.fitsBuffer(inputs[i]) &&
      var e := Instructions(m, Fed(m, Boundary(m, s, inputs, i), DataOf(inputs, i)), m.mcyclesPerInput);
      m.accepting(e) || m.rejected(e)
  }

  /** Between verdicts every boundary waits for the next input, so the whole epoch can be fed. */
  lemma VerdictsFeedTheEpoch<S(!new), T, D(!new)>(m: Machine<S, T, D>, s: S, inputs: seq<D>)
    requires IsRolling(m) && IsEpoch(m, s, inputs)
    requires m.accepting(s) && EndsWithVerdicts(m, s, inputs)
    ensures EpochIsFed(m, s, inputs)
    ensures forall i: nat :: m.accepting(Boundary(m, s, inputs, i))
  {
    hide IsRolling, IsEpoch, EndsWithVerdicts, Boundary, Instructions;
    forall i: nat
      ensures m.accepting(Boundary(m, s, inputs, i))
    {
      BoundaryAccepts(m, s, inputs, i);
    }
    forall i: nat | i < |inputs|
      ensures Advances(m, Boundary(m, s, inputs, i), inputs[i])
    {
      VerdictIsRequest(m, s, inputs, i);
    }
  }

  lemma VerdictIsRequest<S(!new), T, D(!new)>(m: Machine<S, T, D>, s: S, inputs: seq<D>, i: nat)
    requires IsRolling(m) && EndsWithVerdicts(m, s, inputs) && i < |inputs|
    requires m.accepting(Boundary(m, s, inputs, i))
    ensures Advances(m, Boundary(m, s, inputs, i), inputs[i])
  {
    hide Boundary, Instructions;
    var e := Instructions(m, Fed(m, Boundary(m, s, inputs, i), DataOf(inputs, i)), m.mcyclesPerInput);
    assert m.accepting(e) || m.rejected(e);
  }

  lemma {:induction false} BoundaryAccepts<S(!new), T, D(!new)>(m: Machine<S, T, D>, s: S, inputs: seq<D>, i: nat)
    requires IsRolling(m) && IsEpoch(m, s, inputs)
    requires m.accepting(s) && EndsWithVerdicts(m, s, inputs)
    ensures m.accepting(Boundary(m, s, inputs, i))
  {
    hide IsRolling, IsEpoch, Instructions, IsBoundary;
    if i > 0 {
      BoundaryAccepts(m, s, inputs, i - 1);
      if i > |inputs| {
        BoundaryIsFixed(m, s, inputs, i - 1);
        InputEndsAtBoundary(m, Boundary(m, s, inputs, i - 1), DataOf(inputs, i - 1));
      } else {
        var e := Instructions(m, Fed(m, Boundary(m, s, inputs, i - 1), DataOf(inputs, i - 1)), m.mcyclesPerInput);
        assert m.accepting(e) || m.rejected(e);
        assert Boundary(m, s, inputs, i)
            == AtOffset(m, Boundary(m, s, inputs, i - 1), DataOf(inputs, i - 1), m.mcyclesPerInput);
        MoreThanNoCycles(m);
      }
    }
  }

  lemma MoreThanNoCycles<S(!new), T, D(!new)>(m: Machine<S, T, D>)
    requires IsRolling(m)
    ensures m.mcyclesPerInput > 0
  {
  }

  // ---------------------------------------------------------------------------------------------
  // One instruction within an input
  // ---------------------------------------------------------------------------------------------

  lemma {:induction false} RevertHashSurvives<S(!new), T, D(!new)>(m: Machine<S, T, D>, s: S, n: nat)
    requires FeedRecords(m) && StepsCount(m) && m.Pristine(s)
    ensures m.revertHash(Instructions(m, s, n)) == m.revertHash(s)
    decreases n
  {
    hide Instruction;
    if n > 0 {
      RevertHashSurvives(m, s, n - 1);
      PristineBetween(m, s, n - 1);
      assert Instructions(m, s, n) == Instruction(m, Instructions(m, s, n - 1));
    }
  }

  /** Once an input is rejected it stays rejected, and the offset answers with the boundary. */
  lemma RejectedStays<S(!new), T, D(!new)>(m: Machine<S, T, D>, b: S, data: Option<D>, n: nat, n': nat)
    requires IsRolling(m) && m.Pristine(b) && 1 <= n <= n'
    requires m.rejected(Instructions(m, Fed(m, b, data), n))
    ensures AtOffset(m, b, data, n') == b
  {
    FedIsPristine(m, b, data);
    StoppedStays(m, Fed(m, b, data), n, n');
  }

  /**
    The transition that ends an instruction: where the guest has rejected, the recorded revert hash is
    the hash of the boundary, and everywhere else the reset machine is the start of the next instruction.
   */
  lemma ResetReachesNext<S(!new), T, D(!new)>(m: Machine<S, T, D>, b: S, data: Option<D>, n: nat)
    requires IsRolling(m) && IsBoundary(m, b)
    ensures var r := Instruction(m, StartOf(m, b, data, n));
            (if m.rejected(r) then m.revertHash(r) else m.hash(r)) == m.hash(AtOffset(m, b, data, n + 1))
  {
    hide Instruction;
    var fed := Fed(m, b, data);
    FedIsPristine(m, b, data);
    if n > 0 && m.rejected(Instructions(m, fed, n)) {
      RejectedStays(m, b, data, n, n + 1);
      assert Instruction(m, b) == b;
    } else {
      assert StartOf(m, b, data, n) == Instructions(m, fed, n);
      assert Instructions(m, fed, n + 1) == Instruction(m, Instructions(m, fed, n));
      RevertHashSurvives(m, fed, n + 1);
      if fed == b {
        StoppedStays(m, b, 0, n + 1);
      }
    }
  }
}
