/**
  The verification game (doc/recipes/verification-game.lua): two bisections and one verified transition
  name the truthful player.

  A log verifier takes a state hash and a log to the next state hash, or rejects.
 */
module VerificationGame {
  import opened Merkle
  import opened Uint64
  import opened Emulator
  import opened Bisection

  const MCYCLE_MAX: nat := TWO_TO_64 - 1

  /** The bisections range below these: no inputs, the mcycle ceiling and the uarch cycle ceiling. */
  const TOPS: Position := Position(0, MCYCLE_MAX, UARCH_CYCLE_MAX)

  datatype Verifier<!T, !L> = Verifier(step: (T, L) -> Option<T>, reset: (T, L) -> Option<T>)

  // ---------------------------------------------------------------------------------------------
  // The computation
  // ---------------------------------------------------------------------------------------------

  /** The state at a position, before any reset that ends its instruction. */
  function StateAt<S, T, D>(m: Machine<S, T, D>, s: S, p: Position): S {
    Steps(m, Instructions(m, s, p.mcycle), p.uarchCycle)
  }

  /** On the states the computation goes through, an accepted step log proves the step really made. */
  ghost predicate StepsAreSound<S, T, D, L(!new)>(m: Machine<S, T, D>, v: Verifier<T, L>, s: S) {
    forall p: Position, l: L :: p.uarchCycle < m.uarchCycles ==>
      v.step(m.hash(StateAt(m, s, p)), l) in {None, Some(m.hash(m.step(StateAt(m, s, p))))}
  }

  ghost predicate ResetsAreSound<S, T, D, L(!new)>(m: Machine<S, T, D>, v: Verifier<T, L>, s: S) {
    forall p: Position, l: L :: p.uarchCycle == m.uarchCycles ==>
      v.reset(m.hash(StateAt(m, s, p)), l) in {None, Some(m.hash(m.reset(StateAt(m, s, p))))}
  }

  ghost predicate Sound<S, T, D, L(!new)>(m: Machine<S, T, D>, v: Verifier<T, L>, s: S) {
    StepsAreSound(m, v, s) && ResetsAreSound(m, v, s)
  }

  /** A halted machine stays as it is. */
  ghost predicate HaltsAt<S, T, D>(m: Machine<S, T, D>, s: S, mcycle: nat) {
    Instruction(m, Instructions(m, s, mcycle)) == Instructions(m, s, mcycle)
  }

  lemma {:induction false} FixedPoint<S, T, D>(m: Machine<S, T, D>, s: S, halt: nat, n: nat)
    requires HaltsAt(m, s, halt) && halt <= n
    ensures Instructions(m, s, n) == Instructions(m, s, halt)
    decreases n
  {
    if halt < n {
      FixedPoint(m, s, halt, n - 1);
    }
  }

  /** The true hash at a position; the end of an instruction is the start of the next. */
  function HashAt<S, T, D>(m: Machine<S, T, D>, s: S, p: Position): T {
    if p.uarchCycle == m.uarchCycles then m.hash(Instructions(m, s, p.mcycle + 1)) else m.hash(StateAt(m, s, p))
  }

  // ---------------------------------------------------------------------------------------------
  // The verdict
  // ---------------------------------------------------------------------------------------------

  /** The logs player 1 posts; only the transition that ends an instruction carries a reset log. */
  datatype LogCommitment<L> = LogCommitment(stepLog: L, resetLog: Option<L>)

  function VerifyStateTransition<T(==), L>(v: Verifier<T, L>, uarchCycles: nat, uarchCycle: nat, before: T,
                                           log: LogCommitment<L>, after: T): bool
  {
    match v.step(before, log.stepLog)
    case None => false
    case Some(hash) =>
      if uarchCycle == uarchCycles - 1 then
        log.resetLog.Some? && v.reset(hash, log.resetLog.value) == Some(after)
      else hash == after
  }

  /** The logs a truthful player posts verify. */
  ghost predicate PostsTrueLogs<S, T, D, L>(m: Machine<S, T, D>, v: Verifier<T, L>, s: S,
                                            p: Player<T, LogCommitment<L>>)
  {
    forall t: Transcript, branch: Branch {:trigger p.log(t, branch, Agreed(t, branch))} ::
      WellFormed(TOPS, t) ==>
        var at := Agreed(t, branch);
        VerifyStateTransition(v, m.uarchCycles, at.uarchCycle, HashAt(m, s, at), p.log(t, branch, at),
                              HashAt(m, s, at.With(UarchCycle, at.uarchCycle + 1)))
  }

  /** One transition leads from a position to the next. */
  lemma TransitionIsTrue<S, T, D>(m: Machine<S, T, D>, s: S, p: Position)
    requires p.uarchCycle < m.uarchCycles
    ensures var x, next := StateAt(m, s, p), p.With(UarchCycle, p.uarchCycle + 1);
            && HashAt(m, s, p) == m.hash(x) && StateAt(m, s, next) == m.step(x)
            && HashAt(m, s, next) == m.hash(if next.uarchCycle == m.uarchCycles then m.reset(m.step(x)) else m.step(x))
  {
  }

  /** No log carries the verifier from the true hash before a transition to a wrong hash after it. */
  lemma WrongHashIsRejected<S, T, D, L(!new)>(m: Machine<S, T, D>, v: Verifier<T, L>, s: S, p: Position,
                                              log: LogCommitment<L>, after: T)
    requires Sound(m, v, s) && p.uarchCycle < m.uarchCycles
    requires after != HashAt(m, s, p.With(UarchCycle, p.uarchCycle + 1))
    ensures !VerifyStateTransition(v, m.uarchCycles, p.uarchCycle, HashAt(m, s, p), log, after)
  {
    hide HashAt, StateAt;
    TransitionIsTrue(m, s, p);
    var x, next := StateAt(m, s, p), p.With(UarchCycle, p.uarchCycle + 1);
    assert v.step(m.hash(x), log.stepLog) in {None, Some(m.hash(m.step(x)))};
    if log.resetLog.Some? && next.uarchCycle == m.uarchCycles {
      assert v.reset(m.hash(StateAt(m, s, next)), log.resetLog.value)
          in {None, Some(m.hash(m.reset(StateAt(m, s, next))))};
    }
  }

  /** Logs the verifiers accept for the transition out of a position, and the hash they prove after it. */
  datatype Fault<T, L> = Fault(at: Position, log: LogCommitment<L>, after: T)

  /** The verifiers accept a wrong hash. */
  ghost predicate AcceptsWrong<S, T, D, L>(m: Machine<S, T, D>, v: Verifier<T, L>, s: S, f: Fault<T, L>) {
    && f.at.uarchCycle < m.uarchCycles
    && f.after != HashAt(m, s, f.at.With(UarchCycle, f.at.uarchCycle + 1))
    && VerifyStateTransition(v, m.uarchCycles, f.at.uarchCycle, HashAt(m, s, f.at), f.log, f.after)
  }

  /** Player 1 posts such logs. */
  ghost predicate WinsWrongly<S, T, D, L>(m: Machine<S, T, D>, v: Verifier<T, L>, s: S,
                                          first: Player<T, LogCommitment<L>>, f: Fault<T, L>)
  {
    AcceptsWrong(m, v, s, f) && Posts(first, TOPS, f.at, f.log)
  }

  // ---------------------------------------------------------------------------------------------
  // Honest play
  // ---------------------------------------------------------------------------------------------

  /** The player that computed honestly: true answers, true logs, and the hash of the halted machine. */
  ghost predicate Honest<S, T, D, L>(m: Machine<S, T, D>, v: Verifier<T, L>, s: S, halt: nat,
                                     p: Player<T, LogCommitment<L>>)
  {
    && Truthful(p, TOPS, x => HashAt(m, s, x))
    && PostsTrueLogs(m, v, s, p)
    && p.finalHash == m.hash(Instructions(m, s, halt))
  }

  /** The loggers of the machine an honest player holds; each log performs what it records. */
  datatype Logger<!S, !L> = Logger(step: S -> L, reset: S -> L)

  /** A recorded log verifies. */
  ghost predicate Complete<S, T, D, L>(m: Machine<S, T, D>, v: Verifier<T, L>, logger: Logger<S, L>, s: S) {
    && (forall p: Position {:trigger StateAt(m, s, p)} :: p.uarchCycle < m.uarchCycles ==>
          v.step(m.hash(StateAt(m, s, p)), logger.step(StateAt(m, s, p))) == Some(m.hash(m.step(StateAt(m, s, p)))))
    && (forall p: Position {:trigger StateAt(m, s, p)} :: p.uarchCycle == m.uarchCycles ==>
          v.reset(m.hash(StateAt(m, s, p)), logger.reset(StateAt(m, s, p))) == Some(m.hash(m.reset(StateAt(m, s, p)))))
  }

  /** The logs of the transition out of a state: a step, and out of the last uarch cycle the reset as well. */
  function LogsFrom<S, T, D, L>(m: Machine<S, T, D>, logger: Logger<S, L>, x: S, uarchCycle: nat): LogCommitment<L> {
    LogCommitment(logger.step(x), if uarchCycle == m.uarchCycles - 1 then Some(logger.reset(m.step(x))) else None)
  }

  function LogsAt<S, T, D, L>(m: Machine<S, T, D>, logger: Logger<S, L>, s: S, p: Position): LogCommitment<L> {
    LogsFrom(m, logger, StateAt(m, s, p), p.uarchCycle)
  }

  lemma LogsVerify<S, T, D, L>(m: Machine<S, T, D>, v: Verifier<T, L>, logger: Logger<S, L>, s: S, p: Position)
    requires Complete(m, v, logger, s) && p.uarchCycle < m.uarchCycles
    ensures VerifyStateTransition(v, m.uarchCycles, p.uarchCycle, HashAt(m, s, p), LogsAt(m, logger, s, p),
                                  HashAt(m, s, p.With(UarchCycle, p.uarchCycle + 1)))
  {
    hide HashAt, StateAt;
    TransitionIsTrue(m, s, p);
  }

  /** The strategy of answering from the computation itself; `HaltingPlayer` says which players follow it. */
  function HonestPlayer<S, T, D, L>(m: Machine<S, T, D>, logger: Logger<S, L>, s: S, halt: nat)
    : Player<T, LogCommitment<L>>
  {
    Player(m.hash(Instructions(m, s, halt)),
           (t: Transcript) => if t == [] then m.hash(s) else HashAt(m, s, Asked(t[..|t| - 1], t[|t| - 1])),
           (t: Transcript, branch: Branch, p: Position) => LogsAt(m, logger, s, p))
  }

  /** That strategy, with complete loggers, is honest play. */
  lemma HonestPlayerIsHonest<S, T, D, L>(m: Machine<S, T, D>, v: Verifier<T, L>, logger: Logger<S, L>, s: S, halt: nat)
    requires Complete(m, v, logger, s) && m.uarchCycles == UARCH_CYCLE_MAX
    ensures Honest(m, v, s, halt, HonestPlayer(m, logger, s, halt))
  {
    hide HashAt, LogsAt, Complete, Asked;
    var p := HonestPlayer(m, logger, s, halt);
    forall t: Transcript, r: Request {:trigger Asked(t, r)} | WellFormed(TOPS, t) && Follows(TOPS, t, r)
      ensures p.answer(t + [r]) == HashAt(m, s, Asked(t, r))
    {
      assert (t + [r])[..|t|] == t;
    }
    forall t: Transcript, branch: Branch {:trigger p.log(t, branch, Agreed(t, branch))} | WellFormed(TOPS, t)
      ensures var at := Agreed(t, branch);
              VerifyStateTransition(v, m.uarchCycles, at.uarchCycle, HashAt(m, s, at), p.log(t, branch, at),
                                    HashAt(m, s, at.With(UarchCycle, at.uarchCycle + 1)))
    {
      AgreedIsBelowTops(TOPS, t, branch, UarchCycle);
      LogsVerify(m, v, logger, s, Agreed(t, branch));
    }
  }

  // ---------------------------------------------------------------------------------------------
  // The referee
  // ---------------------------------------------------------------------------------------------

  /**
    Settles a dispute over the final hash. The winner is the honest player, in either seat, unless the other
    one posted logs that the verifiers accept for a wrong hash, which sound verifiers never do.
   */
  method SettleDispute<S, T(==), D, L(!new)>(ghost m: Machine<S, T, D>, v: Verifier<T, L>,
                                             first: Player<T, LogCommitment<L>>, second: Player<T, LogCommitment<L>>,
                                             initialHash: T, ghost s: S, ghost halt: nat, ghost firstIsHonest: bool)
    returns (winner: nat, ghost fault: Fault<T, L>)
    requires m.uarchCycles == UARCH_CYCLE_MAX
    requires HaltsAt(m, s, halt) && halt <= MCYCLE_MAX
    requires initialHash == m.hash(s) && first.finalHash != second.finalHash
    requires Honest(m, v, s, halt, if firstIsHonest then first else second)
    ensures winner == (if firstIsHonest then 1 else 2) || WinsWrongly(m, v, s, first, fault)
    ensures Sound(m, v, s) ==> winner == if firstIsHonest then 1 else 2
  {
    hide Instructions, Instruction, Steps, CeilLog2, Sound, Truthful, HashAt, StateAt;
    ghost var hashAt := x => HashAt(m, s, x);
    var state, t := State(initialHash, first.finalHash, Start), [];
    StartOfGame(m, s, halt);
    var mcycle, rounds, uarchCycle, rounds';
    mcycle, state, t, rounds := BisectLevel(first, second, Mcycle, MCYCLE_MAX, state, t, TOPS, hashAt, firstIsHonest);
    ghost var at := Position(0, mcycle, 0);
    EndOfInstruction(m, s, mcycle);
    uarchCycle, state, t, rounds' :=
      BisectLevel(first, second, UarchCycle, UARCH_CYCLE_MAX, state, t, TOPS, hashAt, firstIsHonest);
    at := at.With(UarchCycle, uarchCycle);
    assert Agreed(t, state.branch) == at;
    var log := first.log(t, state.branch, Position(0, mcycle, uarchCycle));
    fault := Fault(at, log, state.hashAfter);
    assert Posts(first, TOPS, at, log) by { assert first.log(t, state.branch, Agreed(t, state.branch)) == log; }
    if !firstIsHonest && Sound(m, v, s) {
      WrongHashIsRejected(m, v, s, at, log, state.hashAfter);
    }
    var verified := VerifyStateTransition(v, UARCH_CYCLE_MAX, uarchCycle, state.lastAgreedHash, log, state.hashAfter);
    winner := if verified then 1 else 2;
  }

  lemma StartOfGame<S, T, D>(m: Machine<S, T, D>, s: S, halt: nat)
    requires m.uarchCycles > 0 && HaltsAt(m, s, halt) && halt <= MCYCLE_MAX
    ensures HashAt(m, s, Position(0, 0, 0)) == m.hash(s)
    ensures HashAt(m, s, Position(0, MCYCLE_MAX, 0)) == m.hash(Instructions(m, s, halt))
  {
    FixedPoint(m, s, halt, MCYCLE_MAX);
  }

  lemma EndOfInstruction<S, T, D>(m: Machine<S, T, D>, s: S, mcycle: nat)
    requires m.uarchCycles > 0
    ensures HashAt(m, s, Position(0, mcycle, m.uarchCycles)) == HashAt(m, s, Position(0, mcycle + 1, 0))
  {
  }

  /** The final hash the referee accepts is the true one, whether or not there was a dispute, or the same fault. */
  method RunReferee<S, T(==), D, L(!new)>(ghost m: Machine<S, T, D>, v: Verifier<T, L>,
                                          first: Player<T, LogCommitment<L>>, second: Player<T, LogCommitment<L>>,
                                          initialHash: T, ghost s: S, ghost halt: nat, ghost firstIsHonest: bool)
    returns (finalHash: T, ghost fault: Option<Fault<T, L>>)
    requires m.uarchCycles == UARCH_CYCLE_MAX
    requires HaltsAt(m, s, halt) && halt <= MCYCLE_MAX
    requires initialHash == m.hash(s)
    requires Honest(m, v, s, halt, if firstIsHonest then first else second)
    ensures finalHash == m.hash(Instructions(m, s, halt)) || (fault.Some? && WinsWrongly(m, v, s, first, fault.value))
    ensures Sound(m, v, s) ==> finalHash == m.hash(Instructions(m, s, halt))
  {
    var winner := 1;
    fault := None;
    if first.finalHash != second.finalHash {
      ghost var f;
      winner, f := SettleDispute(m, v, first, second, initialHash, s, halt, firstIsHonest);
      fault := Some(f);
    }
    finalHash := if winner == 1 then first.finalHash else second.finalHash;
  }
}
