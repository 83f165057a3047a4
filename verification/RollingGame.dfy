/**
  The rolling verification game (doc/recipes/rolling-verification-game.lua): three bisections, over the
  epoch's inputs, the mcycles of one input and the uarch cycles of one instruction, and one verified
  transition.
 */
module RollingGame {
  import opened Merkle
  import opened Emulator
  import opened Bisection
  import opened RollingMachine

  const INPUTS_PER_EPOCH: nat := 0x1_0000
  const MCYCLES_PER_INPUT: nat := 0x1_0000_0000_0000

  const TOPS: Position := Position(INPUTS_PER_EPOCH, MCYCLES_PER_INPUT, UARCH_CYCLE_MAX)

  /** The log verifiers: the input inclusion, the uarch step and the uarch reset. */
  datatype Verifier<!T, !D, !L> = Verifier(
    sendCmio: (T, D, T, L) -> Option<T>, step: (T, L) -> Option<T>, reset: (T, L) -> Option<T>)

  /** The hash a reset log proves: the recorded revert hash once the input has been rejected. */
  function ResetHash<S, T, D>(m: Machine<S, T, D>, s: S): T {
    var r := m.reset(s);
    if m.rejected(r) then m.revertHash(r) else m.hash(r)
  }

  datatype LogCommitment<L> = LogCommitment(sendCmioLog: Option<L>, stepLog: L, resetLog: Option<L>)

  /** The referee's check, with the contract's own copy of the epoch's inputs. */
  function VerifyStateTransition<T(==), D, L>(v: Verifier<T, D, L>, uarchCycles: nat, inputs: seq<D>, at: Position,
                                              before: T, log: LogCommitment<L>, after: T): bool
  {
    var data := DataOf(inputs, at.input);
    var included :=
      if at.mcycle == 0 && at.uarchCycle == 0 && data.Some? then
        if log.sendCmioLog.Some? then v.sendCmio(before, data.value, before, log.sendCmioLog.value) else None
      else Some(before);
    var stepped := if included.Some? then v.step(included.value, log.stepLog) else None;
    var last :=
      if at.uarchCycle == uarchCycles - 1 && stepped.Some? then
        if log.resetLog.Some? then v.reset(stepped.value, log.resetLog.value) else None
      else stepped;
    last == Some(after)
  }

  /** The state the step of a transition starts from: the input, when this transition includes it, fed. */
  function StepFrom<S, T, D>(m: Machine<S, T, D>, s: S, inputs: seq<D>, p: Position): S {
    if p.uarchCycle == 0 then StartOf(m, Boundary(m, s, inputs, p.input), DataOf(inputs, p.input), p.mcycle)
    else StateAt(m, s, inputs, p)
  }

  /** On the states the epoch goes through, an accepted log proves the transition really made. */
  ghost predicate Sound<S, T, D, L(!new)>(m: Machine<S, T, D>, v: Verifier<T, D, L>, s: S, inputs: seq<D>) {
    && (forall i: nat, l: L :: i < |inputs| ==>
          v.sendCmio(m.hash(Boundary(m, s, inputs, i)), inputs[i], m.hash(Boundary(m, s, inputs, i)), l)
          in {None, Some(m.hash(m.feed(Boundary(m, s, inputs, i), inputs[i])))})
    && (forall p: Position, l: L :: p.uarchCycle < m.uarchCycles ==>
          v.step(m.hash(StepFrom(m, s, inputs, p)), l) in {None, Some(m.hash(m.step(StepFrom(m, s, inputs, p))))})
    && (forall p: Position, l: L :: p.uarchCycle == m.uarchCycles - 1 ==>
          v.reset(m.hash(m.step(StepFrom(m, s, inputs, p))), l)
          in {None, Some(ResetHash(m, m.step(StepFrom(m, s, inputs, p))))})
  }

  /** What a verified transition proves is the hash at the next position. */
  lemma TransitionReachesNext<S(!new), T, D(!new)>(m: Machine<S, T, D>, s: S, inputs: seq<D>, p: Position)
    requires IsRolling(m) && IsEpoch(m, s, inputs) && p.uarchCycle < m.uarchCycles
    ensures var y := m.step(StepFrom(m, s, inputs, p));
            HashAt(m, s, inputs, p.With(UarchCycle, p.uarchCycle + 1))
            == if p.uarchCycle == m.uarchCycles - 1 then ResetHash(m, y) else m.hash(y)
  {
    hide IsRolling, IsEpoch, Boundary, DataOf, AtOffset, IsBoundary;
    var b, data := Boundary(m, s, inputs, p.input), DataOf(inputs, p.input);
    BoundaryIsFixed(m, s, inputs, p.input);
    ResetReachesNext(m, b, data, p.mcycle);
    assert m.step(StepFrom(m, s, inputs, p)) == Steps(m, StartOf(m, b, data, p.mcycle), p.uarchCycle + 1);
  }

  /** The hash before a transition, with the input included when this transition includes it. */
  lemma HashBefore<S, T, D>(m: Machine<S, T, D>, s: S, inputs: seq<D>, p: Position)
    requires p.uarchCycle < m.uarchCycles
    ensures var data, x := DataOf(inputs, p.input), StateAt(m, s, inputs, p);
            && HashAt(m, s, inputs, p) == m.hash(x)
            && (p.mcycle == 0 && p.uarchCycle == 0 ==> x == Boundary(m, s, inputs, p.input))
            && StepFrom(m, s, inputs, p)
            == if p.mcycle == 0 && p.uarchCycle == 0 && data.Some? then m.feed(x, data.value) else x
  {
  }

  /** No log carries the referee from the true hash before a transition to a wrong hash after it. */
  lemma WrongHashIsRejected<S(!new), T, D(!new), L(!new)>(m: Machine<S, T, D>, v: Verifier<T, D, L>, s: S,
                                                          inputs: seq<D>, p: Position, log: LogCommitment<L>, after: T)
    requires IsRolling(m) && IsEpoch(m, s, inputs) && Sound(m, v, s, inputs) && p.uarchCycle < m.uarchCycles
    requires after != HashAt(m, s, inputs, p.With(UarchCycle, p.uarchCycle + 1))
    ensures !VerifyStateTransition(v, m.uarchCycles, inputs, p, HashAt(m, s, inputs, p), log, after)
  {
    hide IsRolling, IsEpoch, HashAt, StateAt, StepFrom, ResetHash, Boundary;
    TransitionReachesNext(m, s, inputs, p);
    HashBefore(m, s, inputs, p);
    var x, from := StateAt(m, s, inputs, p), StepFrom(m, s, inputs, p);
    assert v.step(m.hash(from), log.stepLog) in {None, Some(m.hash(m.step(from)))};
    if log.resetLog.Some? && p.uarchCycle == m.uarchCycles - 1 {
      assert v.reset(m.hash(m.step(from)), log.resetLog.value) in {None, Some(ResetHash(m, m.step(from)))};
    }
    if log.sendCmioLog.Some? && p.mcycle == 0 && p.uarchCycle == 0 && p.input < |inputs| {
      assert v.sendCmio(m.hash(x), inputs[p.input], m.hash(x), log.sendCmioLog.value)
          in {None, Some(m.hash(m.feed(x, inputs[p.input])))};
    }
  }

  /** Logs the verifiers accept for the transition out of a position, and the hash they prove after it. */
  datatype Fault<T, L> = Fault(at: Position, log: LogCommitment<L>, after: T)

  /** The verifiers accept a wrong hash. */
  ghost predicate AcceptsWrong<S, T, D, L>(m: Machine<S, T, D>, v: Verifier<T, D, L>, s: S, inputs: seq<D>,
                                           f: Fault<T, L>)
  {
    && f.at.uarchCycle < m.uarchCycles
    && f.after != HashAt(m, s, inputs, f.at.With(UarchCycle, f.at.uarchCycle + 1))
    && VerifyStateTransition(v, m.uarchCycles, inputs, f.at, HashAt(m, s, inputs, f.at), f.log, f.after)
  }

  /** Player 1 posts such logs. */
  ghost predicate WinsWrongly<S, T, D, L>(m: Machine<S, T, D>, v: Verifier<T, D, L>, s: S, inputs: seq<D>,
                                          first: Player<T, LogCommitment<L>>, f: Fault<T, L>)
  {
    AcceptsWrong(m, v, s, inputs, f) && Posts(first, TOPS, f.at, f.log)
  }

  // ---------------------------------------------------------------------------------------------
  // The referee
  // ---------------------------------------------------------------------------------------------

  ghost predicate PostsTrueLogs<S, T, D, L>(m: Machine<S, T, D>, v: Verifier<T, D, L>, s: S, inputs: seq<D>,
                                            p: Player<T, LogCommitment<L>>)
  {
    forall t: Transcript, branch: Branch {:trigger p.log(t, branch, Agreed(t, branch))} ::
      WellFormed(TOPS, t) ==>
        var at := Agreed(t, branch);
        VerifyStateTransition(v, m.uarchCycles, inputs, at, HashAt(m, s, inputs, at), p.log(t, branch, at),
                              HashAt(m, s, inputs, at.With(UarchCycle, at.uarchCycle + 1)))
  }

  /** The player that processed the epoch's inputs honestly. */
  ghost predicate Honest<S, T, D, L>(m: Machine<S, T, D>, v: Verifier<T, D, L>, s: S, inputs: seq<D>,
                                     p: Player<T, LogCommitment<L>>)
  {
    && Truthful(p, TOPS, x => HashAt(m, s, inputs, x))
    && PostsTrueLogs(m, v, s, inputs, p)
    && p.finalHash == m.hash(Boundary(m, s, inputs, |inputs|))
  }

  /** The loggers of the machine an honest player holds; each log performs what it records. */
  datatype Logger<!S, !D, !L> = Logger(sendCmio: (S, D) -> L, step: S -> L, reset: S -> L)

  /** A recorded log verifies. */
  ghost predicate Complete<S, T, D, L>(m: Machine<S, T, D>, v: Verifier<T, D, L>, logger: Logger<S, D, L>, s: S,
                                       inputs: seq<D>)
  {
    && (forall i: nat {:trigger Boundary(m, s, inputs, i)} :: i < |inputs| ==>
          var b := Boundary(m, s, inputs, i);
          v.sendCmio(m.hash(b), inputs[i], m.hash(b), logger.sendCmio(b, inputs[i]))
           == Some(m.hash(m.feed(b, inputs[i]))))
    && (forall p: Position {:trigger StepFrom(m, s, inputs, p)} :: p.uarchCycle < m.uarchCycles ==>
          var x := StepFrom(m, s, inputs, p);
          v.step(m.hash(x), logger.step(x)) == Some(m.hash(m.step(x))))
    && (forall p: Position {:trigger StepFrom(m, s, inputs, p)} :: p.uarchCycle == m.uarchCycles - 1 ==>
          var y := m.step(StepFrom(m, s, inputs, p));
          v.reset(m.hash(y), logger.reset(y)) == Some(ResetHash(m, y)))
  }

  /** The logs of the transition out of a position, from the state the player stands at. */
  function LogsFrom<S, T, D, L>(m: Machine<S, T, D>, logger: Logger<S, D, L>, x: S, data: Option<D>,
                                mcycle: nat, uarchCycle: nat): LogCommitment<L>
  {
    if mcycle == 0 && uarchCycle == 0 && data.Some? then
      LogCommitment(Some(logger.sendCmio(x, data.value)), logger.step(m.feed(x, data.value)), None)
    else if uarchCycle == m.uarchCycles - 1 then
      LogCommitment(None, logger.step(x), Some(logger.reset(m.step(x))))
    else LogCommitment(None, logger.step(x), None)
  }

  function LogsAt<S, T, D, L>(m: Machine<S, T, D>, logger: Logger<S, D, L>, s: S, inputs: seq<D>, p: Position)
    : LogCommitment<L>
  {
    LogsFrom(m, logger, StateAt(m, s, inputs, p), DataOf(inputs, p.input), p.mcycle, p.uarchCycle)
  }

  /** The logs of the true state verify, in every form a transition takes. */
  lemma LogsVerify<S(!new), T, D(!new), L>(m: Machine<S, T, D>, v: Verifier<T, D, L>, logger: Logger<S, D, L>, s: S,
                                           inputs: seq<D>, p: Position)
    requires IsRolling(m) && IsEpoch(m, s, inputs) && Complete(m, v, logger, s, inputs) && p.uarchCycle < m.uarchCycles
    ensures VerifyStateTransition(v, m.uarchCycles, inputs, p, HashAt(m, s, inputs, p), LogsAt(m, logger, s, inputs, p),
                                  HashAt(m, s, inputs, p.With(UarchCycle, p.uarchCycle + 1)))
  {
    hide IsEpoch, HashAt, StateAt, StepFrom, ResetHash, Boundary, InstructionsCount, StepsCount, FeedRecords;
    TransitionReachesNext(m, s, inputs, p);
    HashBefore(m, s, inputs, p);
  }

  /** The strategy of the player that processes the epoch. */
  function HonestPlayer<S, T, D, L>(m: Machine<S, T, D>, logger: Logger<S, D, L>, s: S, inputs: seq<D>)
    : Player<T, LogCommitment<L>>
  {
    Player(m.hash(Boundary(m, s, inputs, |inputs|)),
           (t: Transcript) => if t == [] then m.hash(s) else HashAt(m, s, inputs, Asked(t[..|t| - 1], t[|t| - 1])),
           (t: Transcript, branch: Branch, p: Position) => LogsAt(m, logger, s, inputs, p))
  }

  /** Processing the epoch with complete loggers is honest play. */
  lemma HonestPlayerIsHonest<S(!new), T, D(!new), L>(m: Machine<S, T, D>, v: Verifier<T, D, L>, logger: Logger<S, D, L>,
                                                     s: S, inputs: seq<D>)
    requires IsRolling(m) && IsEpoch(m, s, inputs) && Complete(m, v, logger, s, inputs)
    requires m.uarchCycles == UARCH_CYCLE_MAX
    ensures Honest(m, v, s, inputs, HonestPlayer(m, logger, s, inputs))
  {
    hide HashAt, LogsAt, Complete, Asked, IsEpoch, Boundary, IsRolling;
    var p := HonestPlayer(m, logger, s, inputs);
    forall t: Transcript, r: Request {:trigger Asked(t, r)} | WellFormed(TOPS, t) && Follows(TOPS, t, r)
      ensures p.answer(t + [r]) == HashAt(m, s, inputs, Asked(t, r))
    {
      assert (t + [r])[..|t|] == t;
    }
    forall t: Transcript, branch: Branch {:trigger p.log(t, branch, Agreed(t, branch))} | WellFormed(TOPS, t)
      ensures var at := Agreed(t, branch);
              VerifyStateTransition(v, m.uarchCycles, inputs, at, HashAt(m, s, inputs, at), p.log(t, branch, at),
                                    HashAt(m, s, inputs, at.With(UarchCycle, at.uarchCycle + 1)))
    {
      AgreedIsBelowTops(TOPS, t, branch, UarchCycle);
      LogsVerify(m, v, logger, s, inputs, Agreed(t, branch));
    }
  }

  /**
    Settles a dispute over an epoch. The winner is the honest player, in either seat, unless the other one
    posted logs that the verifiers accept for a wrong hash, which sound verifiers never do.
   */
  method SettleDispute<S(!new), T(==), D(!new), L(!new)>(ghost m: Machine<S, T, D>, v: Verifier<T, D, L>,
                                                         inputs: seq<D>, first: Player<T, LogCommitment<L>>,
                                                         second: Player<T, LogCommitment<L>>,
                                                         initialHash: T, ghost s: S, ghost firstIsHonest: bool)
    returns (winner: nat, ghost fault: Fault<T, L>)
    requires m.uarchCycles == UARCH_CYCLE_MAX && m.mcyclesPerInput == MCYCLES_PER_INPUT
    requires IsRolling(m) && IsEpoch(m, s, inputs) && |inputs| <= INPUTS_PER_EPOCH
    requires initialHash == m.hash(s) && first.finalHash != second.finalHash
    requires Honest(m, v, s, inputs, if firstIsHonest then first else second)
    ensures winner == (if firstIsHonest then 1 else 2) || WinsWrongly(m, v, s, inputs, first, fault)
    ensures Sound(m, v, s, inputs) ==> winner == if firstIsHonest then 1 else 2
  {
    hide IsRolling, IsEpoch, Boundary, HashAt, Sound, CeilLog2, Truthful;
    ghost var hashAt := x => HashAt(m, s, inputs, x);
    var state, t := State(initialHash, first.finalHash, Start), [];
    StartOfGame(m, s, inputs, INPUTS_PER_EPOCH);
    var input, mcycle, uarchCycle, rounds;
    input, state, t, rounds :=
      BisectLevel(first, second, Input, INPUTS_PER_EPOCH, state, t, TOPS, hashAt, firstIsHonest);
    EndOfInput(m, s, inputs, input);
    mcycle, state, t, rounds :=
      BisectLevel(first, second, Mcycle, MCYCLES_PER_INPUT, state, t, TOPS, hashAt, firstIsHonest);
    EndOfInstruction(m, s, inputs, input, mcycle);
    uarchCycle, state, t, rounds :=
      BisectLevel(first, second, UarchCycle, UARCH_CYCLE_MAX, state, t, TOPS, hashAt, firstIsHonest);
    var at := Position(input, mcycle, uarchCycle);
    assert Agreed(t, state.branch) == at;
    var log := first.log(t, state.branch, at);
    fault := Fault(at, log, state.hashAfter);
    assert Posts(first, TOPS, at, log) by { assert first.log(t, state.branch, Agreed(t, state.branch)) == log; }
    if !firstIsHonest && Sound(m, v, s, inputs) {
      WrongHashIsRejected(m, v, s, inputs, at, log, state.hashAfter);
    }
    var verified := VerifyStateTransition(v, UARCH_CYCLE_MAX, inputs, at, state.lastAgreedHash, log, state.hashAfter);
    winner := if verified then 1 else 2;
  }

  lemma StartOfGame<S(!new), T, D(!new)>(m: Machine<S, T, D>, s: S, inputs: seq<D>, n: nat)
    requires IsRolling(m) && IsEpoch(m, s, inputs) && |inputs| <= n
    ensures HashAt(m, s, inputs, Position(0, 0, 0)) == m.hash(s)
    ensures HashAt(m, s, inputs, Position(n, 0, 0)) == m.hash(Boundary(m, s, inputs, |inputs|))
  {
    NothingAfterLastInput(m, s, inputs, n);
  }

  lemma EndOfInput<S, T, D>(m: Machine<S, T, D>, s: S, inputs: seq<D>, i: nat)
    requires m.uarchCycles > 0
    ensures HashAt(m, s, inputs, Position(i, m.mcyclesPerInput, 0)) == HashAt(m, s, inputs, Position(i + 1, 0, 0))
  {
  }

  lemma EndOfInstruction<S, T, D>(m: Machine<S, T, D>, s: S, inputs: seq<D>, i: nat, n: nat)
    requires m.uarchCycles > 0
    ensures HashAt(m, s, inputs, Position(i, n, m.uarchCycles)) == HashAt(m, s, inputs, Position(i, n + 1, 0))
  {
  }
}
