/**
  A machine that keeps every promise the rolling game asks for, with the real cycle constants: each input
  is the verdict the guest reaches on it, in one instruction. It shows that the promises, the epoch, the
  verifiers and the loggers can be had together, with accepted, rejected and throwing inputs in any order,
  and which of these epochs the player can play.
 */
module RollingExample {
  import opened Merkle
  import opened Emulator
  import opened RollingMachine
  import opened RollingGame

  datatype Verdict = Accept | Reject | Throw

  datatype Toy = Toy(busy: bool, verdict: Verdict, mcycle: nat, cycle: nat, revert: Option<Toy>)

  type Hash = Option<Toy>

  const START: Toy := Toy(false, Accept, 0, 0, None)

  function Step(s: Toy): Toy {
    if s.cycle > 0 then s
    else if s.busy then s.(busy := false, mcycle := s.mcycle + 1, cycle := 1)
    else s.(cycle := 1)
  }

  function Reset(s: Toy): Toy { s.(cycle := 0) }

  predicate Accepting(s: Toy) { !s.busy && s.verdict == Accept }

  function Feed(s: Toy, verdict: Verdict): Toy {
    if Accepting(s) then s.(busy := true, verdict := verdict, revert := Some(s)) else s
  }

  function ExampleMachine(): Machine<Toy, Hash, Verdict> {
    Machine(Step, Reset, Feed, (s: Toy) => Some(s), (s: Toy) => s.revert,
            (s: Toy) => false, (s: Toy) => !s.busy, Accepting, (s: Toy) => !s.busy && s.verdict == Reject,
            (s: Toy) => false, (v: Verdict) => true,
            (s: Toy) => s.cycle > 0, (s: Toy) => s.mcycle, (s: Toy) => s.cycle, UARCH_CYCLE_MAX, MCYCLES_PER_INPUT)
  }

  function ExampleVerifier(): Verifier<Hash, Verdict, ()> {
    Verifier((t: Hash, v: Verdict, revert: Hash, log: ()) => if t.Some? then Some(Some(Feed(t.value, v))) else None,
             (t: Hash, log: ()) => if t.Some? then Some(Some(Step(t.value))) else None,
             (t: Hash, log: ()) => if t.Some? then Some(ResetHash(ExampleMachine(), t.value)) else None)
  }

  function ExampleLogger(): Logger<Toy, Verdict, ()> {
    Logger((s: Toy, v: Verdict) => (), (s: Toy) => (), (s: Toy) => ())
  }

  /** After its first step the uarch has halted. */
  lemma {:induction false} StepsOnce(s: Toy, n: nat)
    requires n > 0
    ensures Steps(ExampleMachine(), s, n) == Step(s)
  {
    if n > 1 {
      StepsOnce(s, n - 1);
    } else {
      assert Steps(ExampleMachine(), s, 0) == s;
    }
  }

  /** What one instruction does to any state. */
  lemma OneInstruction(s: Toy)
    ensures Instruction(ExampleMachine(), s) == Reset(Step(s))
  {
    StepsOnce(s, UARCH_CYCLE_MAX);
  }

  lemma PromisesAreKept()
    ensures IsRolling(ExampleMachine())
  {
    hide Instruction;
    var m := ExampleMachine();
    forall s: Toy {:trigger Instruction(m, s)} | m.Pristine(s)
      ensures if m.Stopped(s) then Instruction(m, s) == s else m.mcycle(Instruction(m, s)) == m.mcycle(s) + 1
      ensures m.revertHash(Instruction(m, s)) == m.revertHash(s)
    {
      OneInstruction(s);
    }
    assert InstructionsCount(m);
    assert StepsCount(m);
  }

  /** One instruction is enough for an input. */
  lemma InputIsDone(s: Toy, data: Option<Verdict>, n: nat)
    requires n > 0 && !s.busy && s.cycle == 0
    ensures var fed := Fed(ExampleMachine(), s, data);
            Instructions(ExampleMachine(), fed, n)
            == if fed.busy then fed.(busy := false, mcycle := fed.mcycle + 1) else fed
  {
    var m, fed := ExampleMachine(), Fed(ExampleMachine(), s, data);
    PromisesAreKept();
    OneInstruction(fed);
    assert Instructions(m, fed, 0) == fed;
    assert Instructions(m, fed, 1) == Instruction(m, Instructions(m, fed, 0)) == Reset(Step(fed));
    StoppedStays(m, fed, 1, n);
  }

  /** A boundary accepts the next input exactly when no input before it has thrown. */
  lemma {:induction false} BoundaryVerdict(inputs: seq<Verdict>, i: nat)
    ensures var b := Boundary(ExampleMachine(), START, inputs, i);
            && !b.busy && b.cycle == 0 && b.verdict != Reject
            && (Accepting(b) <==> forall j :: 0 <= j < i && j < |inputs| ==> inputs[j] != Throw)
  {
    hide Instructions;
    if i > 0 {
      BoundaryVerdict(inputs, i - 1);
      InputIsDone(Boundary(ExampleMachine(), START, inputs, i - 1), DataOf(inputs, i - 1), MCYCLES_PER_INPUT);
    }
  }

  /** Everything the rolling game assumes holds together, for every sequence of verdicts. */
  lemma AssumptionsHoldTogether(inputs: seq<Verdict>)
    ensures var m, v := ExampleMachine(), ExampleVerifier();
            && IsRolling(m) && IsEpoch(m, START, inputs)
            && Sound(m, v, START, inputs) && Complete(m, v, ExampleLogger(), START, inputs)
            && m.uarchCycles == UARCH_CYCLE_MAX && m.mcyclesPerInput == MCYCLES_PER_INPUT
  {
    hide IsRolling, Boundary, AtOffset, Instructions, ResetHash, StepFrom;
    PromisesAreKept();
    var m := ExampleMachine();
    assert m.Pristine(START);
    forall i: nat | i < |inputs|
      ensures m.Stopped(Instructions(m, Fed(m, Boundary(m, START, inputs, i), DataOf(inputs, i)), m.mcyclesPerInput))
    {
      BoundaryVerdict(inputs, i);
      InputIsDone(Boundary(m, START, inputs, i), DataOf(inputs, i), MCYCLES_PER_INPUT);
    }
  }

  /**
    The epochs whose player can feed every input are those in which no input but the last throws; of the
    others, two inputs of which the first throws is one.
   */
  lemma FedUnlessOneThrows(inputs: seq<Verdict>)
    ensures EpochIsFed(ExampleMachine(), START, inputs) <==> forall j :: 0 <= j < |inputs| - 1 ==> inputs[j] != Throw
    ensures !EpochIsFed(ExampleMachine(), START, [Throw, Accept])
  {
    FedUntilOneThrows(inputs);
    FedUntilOneThrows([Throw, Accept]);
    assert [Throw, Accept][0] == Throw;
  }

  lemma FedUntilOneThrows(inputs: seq<Verdict>)
    ensures EpochIsFed(ExampleMachine(), START, inputs) <==> forall j :: 0 <= j < |inputs| - 1 ==> inputs[j] != Throw
  {
    hide Boundary, Instructions;
    var m := ExampleMachine();
    forall i: nat | i < |inputs|
      ensures Advances(m, Boundary(m, START, inputs, i), inputs[i]) <==> forall j :: 0 <= j < i ==> inputs[j] != Throw
    {
      BoundaryVerdict(inputs, i);
      InputIsDone(Boundary(m, START, inputs, i), DataOf(inputs, i), MCYCLES_PER_INPUT);
    }
    if EpochIsFed(m, START, inputs) && |inputs| > 0 {
      assert Advances(m, Boundary(m, START, inputs, |inputs| - 1), inputs[|inputs| - 1]);
    }
  }
}
