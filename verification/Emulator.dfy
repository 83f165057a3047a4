/**
  The emulator as the players and referees of both games use it: a machine whose instructions are runs of
  uarch steps ended by a reset, and the host calls that run one.

  The machine is abstract. `InstructionsCount` and `StepsCount` list what the emulator promises about its
  cycle counters; nothing else is assumed of them.
 */
module Emulator {
  const UARCH_CYCLE_MAX: nat := 0x10_0000

  /**
    `step` and `reset` are those of the uarch, `feed` is the core `send_cmio_response` with an advance-state
    input, `revertHash` the recorded revert root hash. `accepting` and `rejected` are manual yields with
    those reasons, and `fitsBuffer` says that an input is no longer than the receive buffer.
   */
  datatype Machine<!S, !T, !D> = Machine(
    step: S -> S, reset: S -> S, feed: (S, D) -> S, hash: S -> T, revertHash: S -> T,
    halted: S -> bool, yieldedManually: S -> bool, accepting: S -> bool, rejected: S -> bool,
    yieldedAutomatically: S -> bool, fitsBuffer: D -> bool,
    uarchHalted: S -> bool, mcycle: S -> nat, uarchCycle: S -> nat, uarchCycles: nat, mcyclesPerInput: nat)
  {
    predicate Stopped(s: S) { halted(s) || yieldedManually(s) }

    /** The uarch is as a reset leaves it, which is how every instruction starts and ends. */
    ghost predicate Pristine(s: S) { reset(s) == s }

    /** What the host-facing `send_cmio_response` checks before it changes anything. */
    predicate CanSend(s: S, data: D) { accepting(s) && fitsBuffer(data) }

    /** What `receive_cmio_request` checks. */
    predicate HasRequest(s: S) { yieldedManually(s) || yieldedAutomatically(s) }
  }

  function Steps<S, T, D>(m: Machine<S, T, D>, s: S, n: nat): S {
    if n == 0 then s else m.step(Steps(m, s, n - 1))
  }

  /** One instruction of the main processor. */
  function Instruction<S, T, D>(m: Machine<S, T, D>, s: S): S {
    m.reset(Steps(m, s, m.uarchCycles))
  }

  function Instructions<S, T, D>(m: Machine<S, T, D>, s: S, n: nat): S {
    if n == 0 then s else Instruction(m, Instructions(m, s, n - 1))
  }

  /** A whole instruction leaves a stopped machine as it is, and counts on any other. */
  ghost predicate InstructionsCount<S(!new), T, D>(m: Machine<S, T, D>) {
    && (forall s: S :: m.rejected(s) ==> m.yieldedManually(s) && !m.halted(s))
    && (forall s: S :: m.accepting(s) ==> m.yieldedManually(s) && !m.rejected(s))
    && (forall s: S {:trigger Instruction(m, s)} ::
          m.Pristine(s) ==>
            if m.Stopped(s) then Instruction(m, s) == s else m.mcycle(Instruction(m, s)) == m.mcycle(s) + 1)
  }

  /** A halted uarch stays as it is, otherwise a step counts; a reset starts over and may be repeated. */
  ghost predicate StepsCount<S(!new), T, D>(m: Machine<S, T, D>) {
    && (forall s: S {:trigger m.step(s)} ::
          if m.uarchHalted(s) then m.step(s) == s else m.uarchCycle(m.step(s)) == m.uarchCycle(s) + 1)
    && (forall s: S :: m.uarchCycle(m.reset(s)) == 0 && m.Pristine(m.reset(s)))
  }

  // ---------------------------------------------------------------------------------------------
  // Fixed points and counters
  // ---------------------------------------------------------------------------------------------

  lemma NoInstructions<S, T, D>(m: Machine<S, T, D>, s: S)
    ensures Instructions(m, s, 0) == s
  {
  }

  /** Instructions start and end with a pristine uarch, at cycle zero. */
  lemma PristineBetween<S(!new), T, D>(m: Machine<S, T, D>, s: S, n: nat)
    requires StepsCount(m) && m.Pristine(s)
    ensures m.Pristine(Instructions(m, s, n)) && m.uarchCycle(Instructions(m, s, n)) == 0
  {
    var r := Instructions(m, s, n);
    assert n == 0 ==> r == m.reset(s);
  }

  /** A stopped machine is where it was after any further instructions. */
  lemma {:induction false} StoppedStays<S(!new), T, D>(m: Machine<S, T, D>, s: S, k: nat, n: nat)
    requires InstructionsCount(m) && StepsCount(m) && m.Pristine(s)
    requires k <= n && m.Stopped(Instructions(m, s, k))
    ensures Instructions(m, s, n) == Instructions(m, s, k)
    decreases n
  {
    if k < n {
      StoppedStays(m, s, k, n - 1);
      PristineBetween(m, s, k);
    }
  }

  /** The next instruction of a computation. */
  lemma NextInstruction<S(!new), T, D>(m: Machine<S, T, D>, s: S, n: nat)
    requires InstructionsCount(m) && StepsCount(m) && m.Pristine(s)
    ensures var x, y := Instructions(m, s, n), Instructions(m, s, n + 1);
            y == Instruction(m, x) && if m.Stopped(x) then y == x else m.mcycle(y) == m.mcycle(x) + 1
  {
    PristineBetween(m, s, n);
    hide Instruction, StepsCount;
    assert Instructions(m, s, n + 1) == Instruction(m, Instructions(m, s, n));
  }

  /** The counter never runs ahead, and as long as the machine has not stopped every instruction counts. */
  lemma {:induction false} OffsetCount<S(!new), T, D>(m: Machine<S, T, D>, s: S, n: nat)
    requires InstructionsCount(m) && StepsCount(m) && m.Pristine(s)
    ensures m.mcycle(s) <= m.mcycle(Instructions(m, s, n)) <= m.mcycle(s) + n
    ensures !m.Stopped(Instructions(m, s, n)) ==> m.mcycle(Instructions(m, s, n)) == m.mcycle(s) + n
  {
    hide Instruction, InstructionsCount, StepsCount;
    if n > 0 {
      OffsetCount(m, s, n - 1);
      NextInstruction(m, s, n - 1);
    }
  }

  lemma {:induction false} CycleCount<S(!new), T, D>(m: Machine<S, T, D>, s: S, n: nat)
    requires StepsCount(m) && m.uarchCycle(s) == 0
    ensures m.uarchCycle(Steps(m, s, n)) <= n
    ensures !m.uarchHalted(Steps(m, s, n)) ==> m.uarchCycle(Steps(m, s, n)) == n
  {
    if n > 0 {
      CycleCount(m, s, n - 1);
    }
  }

  lemma {:induction false} UarchHaltStays<S(!new), T, D>(m: Machine<S, T, D>, s: S, k: nat, n: nat)
    requires StepsCount(m) && k <= n && m.uarchHalted(Steps(m, s, k))
    ensures Steps(m, s, n) == Steps(m, s, k)
    decreases n
  {
    if k < n {
      UarchHaltStays(m, s, k, n - 1);
    }
  }

  // ---------------------------------------------------------------------------------------------
  // Running
  // ---------------------------------------------------------------------------------------------

  datatype BreakReason = Halted | YieldedManually | YieldedAutomatically | ReachedTarget

  function Reason<S, T, D>(m: Machine<S, T, D>, s: S): BreakReason {
    if m.halted(s) then Halted else if m.yieldedManually(s) then YieldedManually else ReachedTarget
  }

  /** `machine:run`: stops at the target, when the machine stops, or after an automatic yield. */
  method RunUntil<S(!new), T, D>(m: Machine<S, T, D>, s: S, target: nat, ghost from: S, ghost n: nat)
    returns (s': S, reason: BreakReason)
    requires InstructionsCount(m) && StepsCount(m) && m.Pristine(from) && s == Instructions(m, from, n)
    requires m.mcycle(s) <= target
    ensures m.mcycle(s) <= m.mcycle(s') <= target
    ensures s' == Instructions(m, from, n + (m.mcycle(s') - m.mcycle(s)))
    ensures m.Stopped(s) ==> s' == s
    ensures forall j: nat :: n < j < n + (m.mcycle(s') - m.mcycle(s)) ==>
              !m.yieldedAutomatically(Instructions(m, from, j))
    ensures if reason == YieldedAutomatically
            then m.mcycle(s) < m.mcycle(s') && m.yieldedAutomatically(s') && !m.Stopped(s')
            else reason == Reason(m, s') && (m.Stopped(s') || m.mcycle(s') == target)
  {
    hide Instruction, Instructions, InstructionsCount, StepsCount;
    s' := s;
    ghost var n' := n;
    while !m.Stopped(s') && m.mcycle(s') < target
      invariant n <= n' && s' == Instructions(m, from, n') && m.mcycle(s') == m.mcycle(s) + (n' - n) <= target
      invariant m.Stopped(s) ==> n' == n && s' == s
      invariant forall j: nat :: n < j < n' ==> !m.yieldedAutomatically(Instructions(m, from, j))
      invariant n < n' && !m.Stopped(s') ==> !m.yieldedAutomatically(s')
      decreases target - m.mcycle(s')
    {
      NextInstruction(m, from, n');
      s', n' := Instruction(m, s'), n' + 1;
      if m.yieldedAutomatically(s') && !m.Stopped(s') {
        return s', YieldedAutomatically;
      }
    }
    reason := Reason(m, s');
  }

  /** `machine:run_uarch`: steps until the target uarch cycle or the uarch's halt. */
  method RunUarch<S(!new), T, D>(m: Machine<S, T, D>, machine: S, target: nat, ghost base: S, ghost c: nat)
    returns (s: S)
    requires StepsCount(m) && m.uarchCycle(base) == 0
    requires machine == Steps(m, base, c) && c <= target
    ensures s == Steps(m, base, target)
  {
    s := machine;
    ghost var k := c;
    CycleCount(m, base, k);
    while m.uarchCycle(s) < target && !m.uarchHalted(s)
      invariant s == Steps(m, base, k) && k <= target && (!m.uarchHalted(s) ==> m.uarchCycle(s) == k)
      decreases target - k
    {
      s, k := m.step(s), k + 1;
      CycleCount(m, base, k);
    }
    if m.uarchHalted(s) {
      UarchHaltStays(m, base, k, target);
    }
  }
}
