/**
  The emulator as programs over its memory: their recorded logs and the replay of logs are the loggers and
  the verifiers of both games.

  Nothing is assumed about the hash function, nor is it assumed that the verifiers are sound. A dispute is
  won by the honest player, or two clashing inputs of the hash function are returned, or, with the replay
  as the source has it, player 1 posts a write of a node without a full path.
 */
module MemoryMachine {
  import opened Merkle
  import opened Emulator
  import opened Bisection
  import opened MemoryTree
  import opened AccessReplay
  import opened ReplaySoundness
  import G = VerificationGame
  import R = RollingMachine
  import RG = RollingGame

  type Log<T> = seq<Access<T>>

  /**
    The operations of the machine: the uarch step, the uarch reset, and the inclusion of an input, which
    also takes the root hash to revert to.
   */
  datatype Code<!T, !D> = Code(step: Program, reset: Program, send: (D, T) -> Program, depth: nat)

  /** The replay; with `checks` it also rejects writes of nodes without full paths, as the source does not. */
  ghost function Verified<T>(h: Hasher<T>, p: Program, root: T, log: Log<T>, depth: nat, checks: bool): Option<T>
    requires Fits(p, depth)
  {
    if checks && !NodeWritesHaveFullPaths(log, depth) then None else Replay(h, p, root, log, depth, [])
  }

  /** An accepted log is true or exhibits a clash, when its paths are full or have been checked. */
  lemma VerifiedIsTrue<T(!new)>(h: Hasher<T>, p: Program, mem: Memory, depth: nat, log: Log<T>, checks: bool)
    returns (c: Clash<T>)
    requires IsMemory(mem, depth) && Fits(p, depth)
    requires checks || NodeWritesHaveFullPaths(log, depth)
    requires Verified(h, p, MemoryRoot(h, mem, depth), log, depth, checks).Some?
    ensures || Verified(h, p, MemoryRoot(h, mem, depth), log, depth, checks)
               == Some(RootOf(h, Run(p, mem, depth, []), depth))
            || Clashes(h, c)
  {
    hide Replay, Run, RootOf, MemoryRoot, Clashes, NodeWritesHaveFullPaths;
    c := AcceptedLogIsTrue(h, p, mem, log, depth, []);
  }

  lemma RecordIsVerified<T(!new)>(h: Hasher<T>, p: Program, mem: Memory, depth: nat, large: bool, checks: bool)
    requires IsMemory(mem, depth) && Fits(p, depth)
    ensures Verified(h, p, MemoryRoot(h, mem, depth), Record(h, p, mem, depth, large, []), depth, checks)
         == Some(RootOf(h, Run(p, mem, depth, []), depth))
  {
    hide Replay, Run, RootOf, MemoryRoot, Record, NodeWritesHaveFullPaths;
    RecordedPathsAreFull(h, p, mem, depth, large, []);
    RecordedLogReplays(h, p, mem, depth, large, []);
  }

  /** The log of a program, on the states that are memories of the machine. */
  ghost function LogOf<T>(h: Hasher<T>, p: Program, depth: nat, large: bool, mem: Memory): Log<T>
    requires Fits(p, depth)
  {
    if IsMemory(mem, depth) then Record(h, p, mem, depth, large, []) else []
  }

  // ---------------------------------------------------------------------------------------------
  // The machine of both games
  // ---------------------------------------------------------------------------------------------

  /** The step and the reset of the uarch are their programs; the step never reverts. */
  ghost predicate RunsPrograms<T, D>(m: Machine<Memory, T, D>, h: Hasher<T>, code: Code<T, D>) {
    && Fits(code.step, code.depth) && Fits(code.reset, code.depth)
    && (forall mem: Memory {:trigger m.step(mem)} :: IsMemory(mem, code.depth) ==>
          Run(code.step, mem, code.depth, []) == Final(m.step(mem), None))
    && (forall mem: Memory {:trigger m.reset(mem)} :: IsMemory(mem, code.depth) ==>
          Run(code.reset, mem, code.depth, []).mem == m.reset(mem))
    && (forall mem: Memory {:trigger m.hash(mem)} :: IsMemory(mem, code.depth) ==>
          m.hash(mem) == MemoryRoot(h, mem, code.depth))
  }

  lemma ProgramsFit<T, D>(m: Machine<Memory, T, D>, h: Hasher<T>, code: Code<T, D>)
    requires RunsPrograms(m, h, code)
    ensures Fits(code.step, code.depth) && Fits(code.reset, code.depth)
  {
  }

  /** What one operation of the machine does, and that it keeps a memory a memory. */
  lemma OneOperation<T, D>(m: Machine<Memory, T, D>, h: Hasher<T>, code: Code<T, D>, mem: Memory)
    requires RunsPrograms(m, h, code) && IsMemory(mem, code.depth)
    ensures IsMemory(m.step(mem), code.depth) && IsMemory(m.reset(mem), code.depth)
    ensures Fits(code.step, code.depth) && Fits(code.reset, code.depth)
    ensures Run(code.step, mem, code.depth, []) == Final(m.step(mem), None)
    ensures Run(code.reset, mem, code.depth, []).mem == m.reset(mem)
    ensures m.hash(mem) == MemoryRoot(h, mem, code.depth)
    ensures m.hash(m.step(mem)) == MemoryRoot(h, m.step(mem), code.depth)
    ensures m.hash(m.reset(mem)) == MemoryRoot(h, m.reset(mem), code.depth)
  {
    hide IsMemory, Run, MemoryRoot, Fits;
    assert Run(code.step, mem, code.depth, []) == Final(m.step(mem), None);
  }

  lemma {:induction false} StepsKeepMemory<T, D>(m: Machine<Memory, T, D>, h: Hasher<T>, code: Code<T, D>,
                                                 mem: Memory, n: nat)
    requires RunsPrograms(m, h, code) && IsMemory(mem, code.depth)
    ensures IsMemory(Steps(m, mem, n), code.depth)
    decreases n
  {
    hide IsMemory, RunsPrograms, Run, MemoryRoot, Fits;
    if n > 0 {
      StepsKeepMemory(m, h, code, mem, n - 1);
      OneOperation(m, h, code, Steps(m, mem, n - 1));
    }
  }

  lemma {:induction false} InstructionsKeepMemory<T, D>(m: Machine<Memory, T, D>, h: Hasher<T>, code: Code<T, D>,
                                                        mem: Memory, n: nat)
    requires RunsPrograms(m, h, code) && IsMemory(mem, code.depth)
    ensures IsMemory(Instructions(m, mem, n), code.depth)
    decreases n
  {
    hide IsMemory, RunsPrograms, Run, MemoryRoot, Fits, Steps;
    if n > 0 {
      var before := Instructions(m, mem, n - 1);
      InstructionsKeepMemory(m, h, code, mem, n - 1);
      StepsKeepMemory(m, h, code, before, m.uarchCycles);
      OneOperation(m, h, code, Steps(m, before, m.uarchCycles));
    }
  }

  lemma StateIsMemory<T, D>(m: Machine<Memory, T, D>, h: Hasher<T>, code: Code<T, D>, mem: Memory, at: Position)
    requires RunsPrograms(m, h, code) && IsMemory(mem, code.depth)
    ensures IsMemory(G.StateAt(m, mem, at), code.depth)
  {
    hide IsMemory, RunsPrograms, Steps, Instructions;
    InstructionsKeepMemory(m, h, code, mem, at.mcycle);
    StepsKeepMemory(m, h, code, Instructions(m, mem, at.mcycle), at.uarchCycle);
  }

  // ---------------------------------------------------------------------------------------------
  // The verification game
  // ---------------------------------------------------------------------------------------------

  ghost predicate VerifiesLogs<T(!new), D>(v: G.Verifier<T, Log<T>>, h: Hasher<T>, code: Code<T, D>, checks: bool) {
    && Fits(code.step, code.depth) && Fits(code.reset, code.depth)
    && (forall root: T, log: Log<T> {:trigger v.step(root, log)} ::
          v.step(root, log) == Verified(h, code.step, root, log, code.depth, checks))
    && (forall root: T, log: Log<T> {:trigger v.reset(root, log)} ::
          v.reset(root, log) == Verified(h, code.reset, root, log, code.depth, checks))
  }

  /** The computation of the verification game has no input to reject, so its resets never revert. */
  ghost predicate NeverReverts<T, D>(m: Machine<Memory, T, D>, code: Code<T, D>, mem: Memory)
    requires Fits(code.reset, code.depth)
  {
    forall at: Position {:trigger G.StateAt(m, mem, at)} :: at.uarchCycle == m.uarchCycles ==>
      IsMemory(G.StateAt(m, mem, at), code.depth) ==>
        Run(code.reset, G.StateAt(m, mem, at), code.depth, []).revert.None?
  }

  predicate PathsAreFull<T>(log: G.LogCommitment<Log<T>>, depth: nat) {
    && NodeWritesHaveFullPaths(log.stepLog, depth)
    && (log.resetLog.Some? ==> NodeWritesHaveFullPaths(log.resetLog.value, depth))
  }

  /** An accepted step log proves the step. */
  lemma StepIsTrue<T(!new), D>(m: Machine<Memory, T, D>, v: G.Verifier<T, Log<T>>, h: Hasher<T>, code: Code<T, D>,
                               checks: bool, x: Memory, log: Log<T>)
    returns (c: Clash<T>)
    requires RunsPrograms(m, h, code) && VerifiesLogs(v, h, code, checks) && IsMemory(x, code.depth)
    requires checks || NodeWritesHaveFullPaths(log, code.depth)
    ensures v.step(m.hash(x), log) in {None, Some(m.hash(m.step(x)))} || Clashes(h, c)
  {
    hide IsMemory, Verified, MemoryRoot, Run, Clashes, NodeWritesHaveFullPaths, RunsPrograms, Fits;
    OneOperation(m, h, code, x);
    c := NoClash;
    if v.step(m.hash(x), log).Some? {
      c := VerifiedIsTrue(h, code.step, x, code.depth, log, checks);
    }
  }

  /** An accepted reset log proves the reset, or the revert it ends with. */
  lemma ResetIsTrue<T(!new), D>(m: Machine<Memory, T, D>, v: G.Verifier<T, Log<T>>, h: Hasher<T>, code: Code<T, D>,
                                checks: bool, x: Memory, log: Log<T>)
    returns (c: Clash<T>)
    requires RunsPrograms(m, h, code) && VerifiesLogs(v, h, code, checks) && IsMemory(x, code.depth)
    requires checks || NodeWritesHaveFullPaths(log, code.depth)
    ensures Fits(code.reset, code.depth)
    ensures || v.reset(m.hash(x), log) in {None, Some(RootOf(h, Run(code.reset, x, code.depth, []), code.depth))}
            || Clashes(h, c)
  {
    hide IsMemory, Verified, MemoryRoot, Run, RootOf, Clashes, NodeWritesHaveFullPaths, RunsPrograms, Fits;
    OneOperation(m, h, code, x);
    c := NoClash;
    if v.reset(m.hash(x), log).Some? {
      c := VerifiedIsTrue(h, code.reset, x, code.depth, log, checks);
    }
  }

  lemma ResetRootIsHash<T, D>(m: Machine<Memory, T, D>, h: Hasher<T>, code: Code<T, D>, mem: Memory, at: Position)
    requires RunsPrograms(m, h, code) && IsMemory(mem, code.depth) && Fits(code.reset, code.depth)
    requires NeverReverts(m, code, mem) && at.uarchCycle == m.uarchCycles
    ensures IsMemory(G.StateAt(m, mem, at), code.depth)
    ensures var x := G.StateAt(m, mem, at);
            RootOf(h, Run(code.reset, x, code.depth, []), code.depth) == m.hash(m.reset(x))
  {
    hide IsMemory, G.StateAt, MemoryRoot, Run, RunsPrograms, Fits;
    StateIsMemory(m, h, code, mem, at);
    OneOperation(m, h, code, G.StateAt(m, mem, at));
  }

  /** Logs accepted for a wrong hash, with full or checked paths, exhibit a clash. */
  lemma FaultClashes<T(!new), D>(m: Machine<Memory, T, D>, v: G.Verifier<T, Log<T>>, h: Hasher<T>, code: Code<T, D>,
                                 checks: bool, mem: Memory, f: G.Fault<T, Log<T>>)
    returns (c: Clash<T>)
    requires RunsPrograms(m, h, code) && VerifiesLogs(v, h, code, checks) && IsMemory(mem, code.depth)
    requires NeverReverts(m, code, mem) && G.AcceptsWrong(m, v, mem, f)
    requires checks || PathsAreFull(f.log, code.depth)
    ensures Clashes(h, c)
  {
    hide IsMemory, G.StateAt, G.HashAt, Run, RootOf, Clashes, NodeWritesHaveFullPaths, RunsPrograms, VerifiesLogs,
         NeverReverts;
    var x, next := G.StateAt(m, mem, f.at), f.at.With(UarchCycle, f.at.uarchCycle + 1);
    G.TransitionIsTrue(m, mem, f.at);
    StateIsMemory(m, h, code, mem, f.at);
    c := StepIsTrue(m, v, h, code, checks, x, f.log.stepLog);
    if !Clashes(h, c) {
      assert next.uarchCycle == m.uarchCycles;
      ProgramsFit(m, h, code);
      ResetRootIsHash(m, h, code, mem, next);
      c := ResetIsTrue(m, v, h, code, checks, m.step(x), f.log.resetLog.value);
    }
  }

  /** Some log the player posts has a write of a node without a full path. */
  ghost predicate PostsShortPath<T>(p: Player<T, G.LogCommitment<Log<T>>>, depth: nat) {
    exists t: Transcript, branch: Branch {:trigger p.log(t, branch, Agreed(t, branch))} ::
      WellFormed(G.TOPS, t) && !PathsAreFull(p.log(t, branch, Agreed(t, branch)), depth)
  }

  /**
    The dispute over the memory of the machine, its logs verified by replay: the honest player wins, or the
    clash is returned, or the paths were not checked and player 1 posts one that is not full.
   */
  method SettleMachineDispute<T(==,!new), D>(ghost m: Machine<Memory, T, D>, v: G.Verifier<T, Log<T>>,
                                             ghost h: Hasher<T>, ghost code: Code<T, D>, ghost checks: bool,
                                             first: Player<T, G.LogCommitment<Log<T>>>,
                                             second: Player<T, G.LogCommitment<Log<T>>>,
                                             initialHash: T, ghost mem: Memory, ghost halt: nat,
                                             ghost firstIsHonest: bool)
    returns (winner: nat, ghost c: Clash<T>)
    requires RunsPrograms(m, h, code) && VerifiesLogs(v, h, code, checks) && IsMemory(mem, code.depth)
    requires m.uarchCycles == UARCH_CYCLE_MAX && NeverReverts(m, code, mem)
    requires G.HaltsAt(m, mem, halt) && halt <= G.MCYCLE_MAX
    requires initialHash == m.hash(mem) && first.finalHash != second.finalHash
    requires G.Honest(m, v, mem, halt, if firstIsHonest then first else second)
    ensures || winner == (if firstIsHonest then 1 else 2)
            || Clashes(h, c)
            || (!checks && PostsShortPath(first, code.depth))
  {
    hide RunsPrograms, VerifiesLogs, NeverReverts, G.HaltsAt, G.Honest, G.AcceptsWrong, IsMemory, PathsAreFull, Fits;
    ghost var fault;
    winner, fault := G.SettleDispute(m, v, first, second, initialHash, mem, halt, firstIsHonest);
    c := NoClash;
    if winner != (if firstIsHonest then 1 else 2) && (checks || PathsAreFull(fault.log, code.depth)) {
      c := FaultClashes(m, v, h, code, checks, mem, fault);
    }
  }

  /** The loggers of the machine that records. */
  ghost function Recorder<T, D>(h: Hasher<T>, code: Code<T, D>, large: bool): G.Logger<Memory, Log<T>>
    requires Fits(code.step, code.depth) && Fits(code.reset, code.depth)
  {
    G.Logger((x: Memory) => LogOf(h, code.step, code.depth, large, x),
             (x: Memory) => LogOf(h, code.reset, code.depth, large, x))
  }

  /** Recorded logs verify, whatever the hash function and whether or not paths are checked. */
  lemma RecordIsComplete<T(!new), D>(m: Machine<Memory, T, D>, v: G.Verifier<T, Log<T>>, h: Hasher<T>,
                                     code: Code<T, D>, checks: bool, mem: Memory, large: bool)
    requires RunsPrograms(m, h, code) && VerifiesLogs(v, h, code, checks)
    requires IsMemory(mem, code.depth) && NeverReverts(m, code, mem)
    ensures G.Complete(m, v, Recorder(h, code, large), mem)
  {
    hide IsMemory, G.StateAt, Verified, MemoryRoot, Run, RootOf, Record, RunsPrograms, Fits, NeverReverts;
    forall at: Position
      ensures var x := G.StateAt(m, mem, at);
              && v.step(m.hash(x), LogOf(h, code.step, code.depth, large, x)) == Some(m.hash(m.step(x)))
              && (at.uarchCycle == m.uarchCycles ==>
                    v.reset(m.hash(x), LogOf(h, code.reset, code.depth, large, x)) == Some(m.hash(m.reset(x))))
    {
      var x := G.StateAt(m, mem, at);
      StateIsMemory(m, h, code, mem, at);
      OneOperation(m, h, code, x);
      StepRoot(m, h, code, x);
      RecordIsVerified(h, code.step, x, code.depth, large, checks);
      RecordIsVerified(h, code.reset, x, code.depth, large, checks);
      if at.uarchCycle == m.uarchCycles {
        ResetRootIsHash(m, h, code, mem, at);
      }
    }
  }

  lemma StepRoot<T, D>(m: Machine<Memory, T, D>, h: Hasher<T>, code: Code<T, D>, x: Memory)
    requires RunsPrograms(m, h, code) && IsMemory(x, code.depth)
    ensures Fits(code.step, code.depth)
    ensures RootOf(h, Run(code.step, x, code.depth, []), code.depth) == m.hash(m.step(x))
  {
    hide IsMemory, MemoryRoot, Run, RunsPrograms, Fits;
    OneOperation(m, h, code, x);
  }

  /** So the player that runs the machine and records its logs is honest. */
  lemma RecordingPlayerIsHonest<T(!new), D>(m: Machine<Memory, T, D>, v: G.Verifier<T, Log<T>>, h: Hasher<T>,
                                            code: Code<T, D>, checks: bool, mem: Memory, large: bool, halt: nat)
    requires RunsPrograms(m, h, code) && VerifiesLogs(v, h, code, checks)
    requires IsMemory(mem, code.depth) && NeverReverts(m, code, mem) && m.uarchCycles == UARCH_CYCLE_MAX
    ensures G.Honest(m, v, mem, halt, G.HonestPlayer(m, Recorder(h, code, large), mem, halt))
  {
    hide IsMemory, RunsPrograms, NeverReverts, Verified, G.Complete, G.Honest, Fits;
    RecordIsComplete(m, v, h, code, checks, mem, large);
    G.HonestPlayerIsHonest(m, v, Recorder(h, code, large), mem, halt);
  }

  // ---------------------------------------------------------------------------------------------
  // The rolling game
  // ---------------------------------------------------------------------------------------------

  /** Including an input is its program, given the machine's own root hash; a reset may revert. */
  ghost predicate RunsInputs<T, D(!new)>(m: Machine<Memory, T, D>, h: Hasher<T>, code: Code<T, D>)
    requires Fits(code.reset, code.depth)
  {
    && (forall mem: Memory, d: D {:trigger m.feed(mem, d)} :: IsMemory(mem, code.depth) ==>
          Fits(code.send(d, m.hash(mem)), code.depth) &&
          Run(code.send(d, m.hash(mem)), mem, code.depth, []) == Final(m.feed(mem, d), None))
    && (forall mem: Memory {:trigger RG.ResetHash(m, mem)} :: IsMemory(mem, code.depth) ==>
          RootOf(h, Run(code.reset, mem, code.depth, []), code.depth) == RG.ResetHash(m, mem))
  }

  ghost predicate RunsEpoch<T, D(!new)>(m: Machine<Memory, T, D>, h: Hasher<T>, code: Code<T, D>) {
    RunsPrograms(m, h, code) && RunsInputs(m, h, code)
  }

  /** What including an input does. */
  lemma OneInclusion<T, D(!new)>(m: Machine<Memory, T, D>, h: Hasher<T>, code: Code<T, D>, mem: Memory, d: D)
    requires RunsEpoch(m, h, code) && IsMemory(mem, code.depth)
    ensures IsMemory(m.feed(mem, d), code.depth) && Fits(code.send(d, m.hash(mem)), code.depth)
    ensures Run(code.send(d, m.hash(mem)), mem, code.depth, []) == Final(m.feed(mem, d), None)
    ensures RootOf(h, Run(code.send(d, m.hash(mem)), mem, code.depth, []), code.depth) == m.hash(m.feed(mem, d))
    ensures m.hash(mem) == MemoryRoot(h, mem, code.depth)
  {
    hide IsMemory, Run, Fits, MemoryRoot, RG.ResetHash, RootOf;
    InclusionRuns(m, h, code, mem, d);
    RootOfFinal(h, m.feed(mem, d), code.depth);
    HashIsRoot(m, h, code, mem);
    HashIsRoot(m, h, code, m.feed(mem, d));
  }

  lemma InclusionRuns<T, D(!new)>(m: Machine<Memory, T, D>, h: Hasher<T>, code: Code<T, D>, mem: Memory, d: D)
    requires RunsEpoch(m, h, code) && IsMemory(mem, code.depth)
    ensures IsMemory(m.feed(mem, d), code.depth) && Fits(code.send(d, m.hash(mem)), code.depth)
    ensures Run(code.send(d, m.hash(mem)), mem, code.depth, []) == Final(m.feed(mem, d), None)
  {
    assert RunsInputs(m, h, code) && RunsPrograms(m, h, code);
    hide IsMemory, Run, Fits, RG.ResetHash, RootOf, RunsPrograms;
    var fed := m.feed(mem, d);
    assert Fits(code.send(d, m.hash(mem)), code.depth);
    assert Run(code.send(d, m.hash(mem)), mem, code.depth, []) == Final(fed, None);
  }

  lemma HashIsRoot<T, D>(m: Machine<Memory, T, D>, h: Hasher<T>, code: Code<T, D>, mem: Memory)
    requires RunsPrograms(m, h, code) && IsMemory(mem, code.depth)
    ensures m.hash(mem) == MemoryRoot(h, mem, code.depth)
  {
  }

  lemma RootOfFinal<T>(h: Hasher<T>, mem: Memory, depth: nat)
    requires IsMemory(mem, depth)
    ensures RootOf(h, Final(mem, None), depth) == MemoryRoot(h, mem, depth)
  {
  }

  lemma ResetHashIsRoot<T, D(!new)>(m: Machine<Memory, T, D>, h: Hasher<T>, code: Code<T, D>, mem: Memory)
    requires RunsEpoch(m, h, code) && IsMemory(mem, code.depth)
    ensures Fits(code.reset, code.depth)
    ensures RootOf(h, Run(code.reset, mem, code.depth, []), code.depth) == RG.ResetHash(m, mem)
  {
    hide IsMemory, Run, RootOf, Fits, RG.ResetHash;
  }

  ghost predicate VerifiesInputs<T(!new), D(!new)>(v: RG.Verifier<T, D, Log<T>>, h: Hasher<T>, code: Code<T, D>,
                                                   checks: bool)
  {
    && VerifiesLogs(G.Verifier(v.step, v.reset), h, code, checks)
    && (forall root: T, d: D, t: T, log: Log<T> {:trigger v.sendCmio(root, d, t, log)} ::
          Fits(code.send(d, t), code.depth) &&
          v.sendCmio(root, d, t, log) == Verified(h, code.send(d, t), root, log, code.depth, checks))
  }

  lemma OffsetIsMemory<T, D(!new)>(m: Machine<Memory, T, D>, h: Hasher<T>, code: Code<T, D>, b: Memory,
                                   data: Option<D>, n: nat)
    requires RunsEpoch(m, h, code) && IsMemory(b, code.depth)
    ensures IsMemory(R.AtOffset(m, b, data, n), code.depth) && IsMemory(R.StartOf(m, b, data, n), code.depth)
  {
    assert RunsPrograms(m, h, code);
    hide IsMemory, RunsEpoch, RunsPrograms, Instructions, Run, RootOf, Fits;
    if data.Some? {
      OneInclusion(m, h, code, b, data.value);
    }
    InstructionsKeepMemory(m, h, code, R.Fed(m, b, data), n);
  }

  lemma {:induction false} BoundaryIsMemory<T, D(!new)>(m: Machine<Memory, T, D>, h: Hasher<T>, code: Code<T, D>,
                                                        mem: Memory, inputs: seq<D>, i: nat)
    requires RunsEpoch(m, h, code) && IsMemory(mem, code.depth)
    ensures IsMemory(R.Boundary(m, mem, inputs, i), code.depth)
    decreases i
  {
    hide IsMemory, RunsEpoch, R.AtOffset;
    if i > 0 {
      BoundaryIsMemory(m, h, code, mem, inputs, i - 1);
      OffsetIsMemory(m, h, code, R.Boundary(m, mem, inputs, i - 1), R.DataOf(inputs, i - 1), m.mcyclesPerInput);
    }
  }

  lemma StepFromIsMemory<T, D(!new)>(m: Machine<Memory, T, D>, h: Hasher<T>, code: Code<T, D>, mem: Memory,
                                     inputs: seq<D>, at: Position)
    requires RunsEpoch(m, h, code) && IsMemory(mem, code.depth)
    ensures IsMemory(RG.StepFrom(m, mem, inputs, at), code.depth)
  {
    assert RunsPrograms(m, h, code);
    hide IsMemory, RunsEpoch, RunsPrograms, R.AtOffset, R.StartOf, R.Boundary, Steps;
    var b, data := R.Boundary(m, mem, inputs, at.input), R.DataOf(inputs, at.input);
    BoundaryIsMemory(m, h, code, mem, inputs, at.input);
    OffsetIsMemory(m, h, code, b, data, at.mcycle);
    StepsKeepMemory(m, h, code, R.StartOf(m, b, data, at.mcycle), at.uarchCycle);
  }

  predicate RollingPathsAreFull<T>(log: RG.LogCommitment<Log<T>>, depth: nat) {
    && (log.sendCmioLog.Some? ==> NodeWritesHaveFullPaths(log.sendCmioLog.value, depth))
    && NodeWritesHaveFullPaths(log.stepLog, depth)
    && (log.resetLog.Some? ==> NodeWritesHaveFullPaths(log.resetLog.value, depth))
  }

  /** An accepted log of including an input proves the inclusion. */
  lemma InclusionIsTrue<T(!new), D(!new)>(m: Machine<Memory, T, D>, v: RG.Verifier<T, D, Log<T>>, h: Hasher<T>,
                                          code: Code<T, D>, checks: bool, b: Memory, d: D, log: Log<T>)
    returns (c: Clash<T>)
    requires RunsEpoch(m, h, code) && VerifiesInputs(v, h, code, checks) && IsMemory(b, code.depth)
    requires checks || NodeWritesHaveFullPaths(log, code.depth)
    ensures v.sendCmio(m.hash(b), d, m.hash(b), log) in {None, Some(m.hash(m.feed(b, d)))} || Clashes(h, c)
  {
    hide IsMemory, Verified, MemoryRoot, Run, RootOf, Clashes, NodeWritesHaveFullPaths, RunsEpoch, Fits, VerifiesLogs;
    var root := m.hash(b);
    OneInclusion(m, h, code, b, d);
    assert v.sendCmio(root, d, root, log) == Verified(h, code.send(d, root), root, log, code.depth, checks);
    c := NoClash;
    if v.sendCmio(root, d, root, log).Some? {
      c := VerifiedIsTrue(h, code.send(d, root), b, code.depth, log, checks);
    }
  }

  /** Accepted logs of the step and the reset out of a state prove what they reach. */
  lemma RollingTransitionIsTrue<T(!new), D(!new)>(m: Machine<Memory, T, D>, v: RG.Verifier<T, D, Log<T>>,
                                                  h: Hasher<T>, code: Code<T, D>, checks: bool, x: Memory,
                                                  stepLog: Log<T>, resetLog: Log<T>)
    returns (c: Clash<T>)
    requires RunsEpoch(m, h, code) && VerifiesInputs(v, h, code, checks) && IsMemory(x, code.depth)
    requires checks || (NodeWritesHaveFullPaths(stepLog, code.depth) && NodeWritesHaveFullPaths(resetLog, code.depth))
    ensures || (&& v.step(m.hash(x), stepLog) in {None, Some(m.hash(m.step(x)))}
                && v.reset(m.hash(m.step(x)), resetLog) in {None, Some(RG.ResetHash(m, m.step(x)))})
            || Clashes(h, c)
  {
    assert RunsPrograms(m, h, code);
    hide IsMemory, Run, RootOf, Clashes, NodeWritesHaveFullPaths, RunsEpoch, RunsPrograms, Fits, VerifiesLogs,
         RG.ResetHash;
    var w := G.Verifier(v.step, v.reset);
    c := StepIsTrue(m, w, h, code, checks, x, stepLog);
    if !Clashes(h, c) {
      OneOperation(m, h, code, x);
      ResetHashIsRoot(m, h, code, m.step(x));
      c := ResetIsTrue(m, w, h, code, checks, m.step(x), resetLog);
    }
  }

  /** Logs accepted for a wrong hash exhibit a clash in the rolling game too, whichever form they take. */
  lemma RollingFaultClashes<T(!new), D(!new)>(m: Machine<Memory, T, D>, v: RG.Verifier<T, D, Log<T>>, h: Hasher<T>,
                                              code: Code<T, D>, checks: bool, mem: Memory, inputs: seq<D>,
                                              f: RG.Fault<T, Log<T>>)
    returns (c: Clash<T>)
    requires R.IsRolling(m) && R.IsEpoch(m, mem, inputs)
    requires RunsEpoch(m, h, code) && VerifiesInputs(v, h, code, checks) && IsMemory(mem, code.depth)
    requires RG.AcceptsWrong(m, v, mem, inputs, f)
    requires checks || RollingPathsAreFull(f.log, code.depth)
    ensures Clashes(h, c)
  {
    hide R.IsRolling, R.IsEpoch, IsMemory, RunsEpoch, VerifiesInputs, Clashes, NodeWritesHaveFullPaths,
         R.StateAt, RG.StepFrom, R.HashAt, R.Boundary, RG.ResetHash;
    var at, data := f.at, R.DataOf(inputs, f.at.input);
    RG.TransitionReachesNext(m, mem, inputs, at);
    RG.HashBefore(m, mem, inputs, at);
    StepFromIsMemory(m, h, code, mem, inputs, at);
    BoundaryIsMemory(m, h, code, mem, inputs, at.input);
    c := NoClash;
    if at.mcycle == 0 && at.uarchCycle == 0 && data.Some? {
      c := InclusionIsTrue(m, v, h, code, checks, R.Boundary(m, mem, inputs, at.input), data.value,
                           f.log.sendCmioLog.value);
    }
    if !Clashes(h, c) {
      var resetLog := if f.log.resetLog.Some? then f.log.resetLog.value else f.log.stepLog;
      c := RollingTransitionIsTrue(m, v, h, code, checks, RG.StepFrom(m, mem, inputs, at), f.log.stepLog, resetLog);
    }
  }

  ghost predicate PostsShortRollingPath<T>(p: Player<T, RG.LogCommitment<Log<T>>>, depth: nat) {
    exists t: Transcript, branch: Branch {:trigger p.log(t, branch, Agreed(t, branch))} ::
      WellFormed(RG.TOPS, t) && !RollingPathsAreFull(p.log(t, branch, Agreed(t, branch)), depth)
  }

  /** The rolling dispute over the memory of the machine, input inclusion and revert included. */
  method SettleRollingDispute<T(==,!new), D(!new)>(ghost m: Machine<Memory, T, D>, v: RG.Verifier<T, D, Log<T>>,
                                                   ghost h: Hasher<T>, ghost code: Code<T, D>, ghost checks: bool,
                                                   inputs: seq<D>, first: Player<T, RG.LogCommitment<Log<T>>>,
                                                   second: Player<T, RG.LogCommitment<Log<T>>>,
                                                   initialHash: T, ghost mem: Memory, ghost firstIsHonest: bool)
    returns (winner: nat, ghost c: Clash<T>)
    requires RunsEpoch(m, h, code) && VerifiesInputs(v, h, code, checks) && IsMemory(mem, code.depth)
    requires m.uarchCycles == UARCH_CYCLE_MAX && m.mcyclesPerInput == RG.MCYCLES_PER_INPUT
    requires R.IsRolling(m) && R.IsEpoch(m, mem, inputs) && |inputs| <= RG.INPUTS_PER_EPOCH
    requires initialHash == m.hash(mem) && first.finalHash != second.finalHash
    requires RG.Honest(m, v, mem, inputs, if firstIsHonest then first else second)
    ensures || winner == (if firstIsHonest then 1 else 2)
            || Clashes(h, c)
            || (!checks && PostsShortRollingPath(first, code.depth))
  {
    hide RunsEpoch, VerifiesInputs, R.IsRolling, R.IsEpoch, RG.Honest, RG.AcceptsWrong, IsMemory, RollingPathsAreFull;
    ghost var fault;
    winner, fault := RG.SettleDispute(m, v, inputs, first, second, initialHash, mem, firstIsHonest);
    c := NoClash;
    if winner != (if firstIsHonest then 1 else 2) && (checks || RollingPathsAreFull(fault.log, code.depth)) {
      c := RollingFaultClashes(m, v, h, code, checks, mem, inputs, fault);
    }
  }

  /** The recorded log of including an input; the root hash to revert to is that of the machine itself. */
  ghost function InputLogOf<T, D>(m: Machine<Memory, T, D>, h: Hasher<T>, code: Code<T, D>, large: bool, mem: Memory,
                                  d: D): Log<T>
  {
    if Fits(code.send(d, m.hash(mem)), code.depth) then LogOf(h, code.send(d, m.hash(mem)), code.depth, large, mem)
    else []
  }

  ghost function RollingRecorder<T, D>(m: Machine<Memory, T, D>, h: Hasher<T>, code: Code<T, D>, large: bool)
    : RG.Logger<Memory, D, Log<T>>
    requires Fits(code.step, code.depth) && Fits(code.reset, code.depth)
  {
    RG.Logger((x: Memory, d: D) => InputLogOf(m, h, code, large, x, d),
              (x: Memory) => LogOf(h, code.step, code.depth, large, x),
              (x: Memory) => LogOf(h, code.reset, code.depth, large, x))
  }

  /** Recorded logs verify in the rolling game too. */
  lemma RollingRecordIsComplete<T(!new), D(!new)>(m: Machine<Memory, T, D>, v: RG.Verifier<T, D, Log<T>>, h: Hasher<T>,
                                                  code: Code<T, D>, checks: bool, mem: Memory, inputs: seq<D>,
                                                  large: bool)
    requires RunsEpoch(m, h, code) && VerifiesInputs(v, h, code, checks) && IsMemory(mem, code.depth)
    ensures RG.Complete(m, v, RollingRecorder(m, h, code, large), mem, inputs)
  {
    ProgramsFit(m, h, code);
    hide IsMemory, R.Boundary, RG.StepFrom, RG.ResetHash, Run, RootOf, Fits, LogOf, InputLogOf, RunsEpoch,
         VerifiesInputs;
    forall i: nat | i < |inputs|
      ensures var b := R.Boundary(m, mem, inputs, i);
              v.sendCmio(m.hash(b), inputs[i], m.hash(b), InputLogOf(m, h, code, large, b, inputs[i]))
              == Some(m.hash(m.feed(b, inputs[i])))
    {
      BoundaryIsMemory(m, h, code, mem, inputs, i);
      InclusionIsComplete(m, v, h, code, checks, R.Boundary(m, mem, inputs, i), inputs[i], large);
    }
    forall at: Position
      ensures var x := RG.StepFrom(m, mem, inputs, at);
              && v.step(m.hash(x), LogOf(h, code.step, code.depth, large, x)) == Some(m.hash(m.step(x)))
              && v.reset(m.hash(m.step(x)), LogOf(h, code.reset, code.depth, large, m.step(x)))
              == Some(RG.ResetHash(m, m.step(x)))
    {
      StepFromIsMemory(m, h, code, mem, inputs, at);
      TransitionIsComplete(m, v, h, code, checks, RG.StepFrom(m, mem, inputs, at), large);
    }
  }

  lemma InclusionIsComplete<T(!new), D(!new)>(m: Machine<Memory, T, D>, v: RG.Verifier<T, D, Log<T>>, h: Hasher<T>,
                                              code: Code<T, D>, checks: bool, b: Memory, d: D, large: bool)
    requires RunsEpoch(m, h, code) && VerifiesInputs(v, h, code, checks) && IsMemory(b, code.depth)
    ensures v.sendCmio(m.hash(b), d, m.hash(b), InputLogOf(m, h, code, large, b, d)) == Some(m.hash(m.feed(b, d)))
  {
    hide IsMemory, Verified, MemoryRoot, Run, RootOf, Record, Fits, RunsEpoch, VerifiesLogs;
    var root := m.hash(b);
    OneInclusion(m, h, code, b, d);
    RecordIsVerified(h, code.send(d, root), b, code.depth, large, checks);
    var l := InputLogOf(m, h, code, large, b, d);
    assert v.sendCmio(root, d, root, l) == Verified(h, code.send(d, root), root, l, code.depth, checks);
  }

  lemma TransitionIsComplete<T(!new), D(!new)>(m: Machine<Memory, T, D>, v: RG.Verifier<T, D, Log<T>>, h: Hasher<T>,
                                               code: Code<T, D>, checks: bool, x: Memory, large: bool)
    requires RunsEpoch(m, h, code) && VerifiesInputs(v, h, code, checks) && IsMemory(x, code.depth)
    ensures Fits(code.step, code.depth) && Fits(code.reset, code.depth)
    ensures v.step(m.hash(x), LogOf(h, code.step, code.depth, large, x)) == Some(m.hash(m.step(x)))
    ensures v.reset(m.hash(m.step(x)), LogOf(h, code.reset, code.depth, large, m.step(x)))
         == Some(RG.ResetHash(m, m.step(x)))
  {
    assert RunsPrograms(m, h, code);
    hide IsMemory, Verified, MemoryRoot, Run, RootOf, Record, Fits, RunsEpoch, RunsPrograms, RG.ResetHash;
    var w := G.Verifier(v.step, v.reset);
    OneOperation(m, h, code, x);
    StepRoot(m, h, code, x);
    ResetHashIsRoot(m, h, code, m.step(x));
    RecordIsVerified(h, code.step, x, code.depth, large, checks);
    RecordIsVerified(h, code.reset, m.step(x), code.depth, large, checks);
    var l, l' := LogOf(h, code.step, code.depth, large, x), LogOf(h, code.reset, code.depth, large, m.step(x));
    assert v.step(m.hash(x), l) == w.step(m.hash(x), l);
    assert v.reset(m.hash(m.step(x)), l') == w.reset(m.hash(m.step(x)), l');
  }

  /** So the player that processes the epoch and records its logs is honest. */
  lemma RollingRecorderIsHonest<T(!new), D(!new)>(m: Machine<Memory, T, D>, v: RG.Verifier<T, D, Log<T>>, h: Hasher<T>,
                                                  code: Code<T, D>, checks: bool, mem: Memory, inputs: seq<D>,
                                                  large: bool)
    requires RunsEpoch(m, h, code) && VerifiesInputs(v, h, code, checks) && IsMemory(mem, code.depth)
    requires R.IsRolling(m) && R.IsEpoch(m, mem, inputs) && m.uarchCycles == UARCH_CYCLE_MAX
    ensures RG.Honest(m, v, mem, inputs, RG.HonestPlayer(m, RollingRecorder(m, h, code, large), mem, inputs))
  {
    hide IsMemory, VerifiesInputs, Verified, R.IsRolling, R.IsEpoch, RG.Complete, RG.Honest, Fits, RunsInputs;
    RollingRecordIsComplete(m, v, h, code, checks, mem, inputs, large);
    RG.HonestPlayerIsHonest(m, v, RollingRecorder(m, h, code, large), mem, inputs);
  }
}
