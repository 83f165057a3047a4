/**
  The player of the rolling game, which answers each request by running a fork of its last agreed machine
  (doc/recipes/rolling-verification-game.lua, doc/recipes/vgu.lua).

  Forking a machine is copying its state. The host calls the player makes can raise an error: an input can
  only be sent to a machine that accepts it, and only a yielded machine has a request to receive. `None` is
  such an error, which ends the player. Otherwise, whatever branches the referee reports, the answer is the
  hash the computation has from scratch at the position asked about.
 */
module RollingPlayer {
  import opened Merkle
  import opened Emulator
  import opened Bisection
  import opened RollingMachine
  import opened RollingGame

  /** `run_to`: resumes through automatic yields until the target or the machine's stop. */
  method RunTo<S(!new), T, D>(m: Machine<S, T, D>, s: S, target: nat, ghost from: S, ghost n: nat, ghost goal: nat)
    returns (s': S, reason: BreakReason)
    requires InstructionsCount(m) && StepsCount(m) && m.Pristine(from)
    requires s == Instructions(m, from, n) && n <= goal && m.mcycle(s) <= target
    requires !m.Stopped(s) ==> m.mcycle(s) == m.mcycle(from) + n && target == m.mcycle(from) + goal
    ensures s' == Instructions(m, from, goal) && reason == Reason(m, s')
  {
    hide Instruction, Instructions, InstructionsCount, StepsCount;
    s' := s;
    ghost var k := n;
    while true
      invariant n <= k && s' == Instructions(m, from, k) && m.mcycle(s') == m.mcycle(s) + (k - n) <= target
      invariant m.Stopped(s) ==> k == n
      decreases target - m.mcycle(s')
    {
      ghost var before := m.mcycle(s');
      s', reason := RunUntil(m, s', target, from, k);
      k := k + (m.mcycle(s') - before);
      if reason != YieldedAutomatically {
        if m.Stopped(s') && k <= goal {
          StoppedStays(m, from, k, goal);
        }
        return;
      }
    }
  }

  /** The position the player's fork stands at: `offset` is missing exactly at an input boundary. */
  datatype Entry<S> = Entry(machine: S, inputIndex: nat, offset: Option<nat>)

  /** The boundary of the disputed input, kept from the first round below the input level. */
  datatype BoundaryRecord<S, D> = BoundaryRecord(machine: S, mcycle: nat, data: Option<D>)

  class EpochPlayer<S(!new), T, D(!new)> {
    const m: Machine<S, T, D>
    const inputs: seq<D>
    var agreed: Option<Entry<S>>
    var tentative: Option<Entry<S>>
    var boundary: Option<BoundaryRecord<S, D>>
    ghost const start: S
    ghost const tops: Position
    ghost var history: Transcript

    ghost predicate StandsAt(e: Entry<S>, p: Position) {
      && e.machine == StateAt(m, start, inputs, p)
      && e.inputIndex == p.input
      && e.offset == if p.mcycle == 0 && p.uarchCycle == 0 then None else Some(p.mcycle)
    }

    ghost function BoundaryOf(i: nat): BoundaryRecord<S, D> {
      var b := Boundary(m, start, inputs, i);
      BoundaryRecord(b, m.mcycle(b), DataOf(inputs, i))
    }

    /** The host calls a round makes from the agreed position succeed. */
    ghost predicate CallsSucceed(p: Position, r: Request) {
      if r.level == Input then
        forall i: nat :: p.input <= i < r.target && i < |inputs| ==>
          Advances(m, Boundary(m, start, inputs, i), inputs[i])
      else
        p.mcycle == 0 && p.uarchCycle == 0 && p.input < |inputs| ==>
          m.CanSend(Boundary(m, start, inputs, p.input), inputs[p.input])
    }

    ghost predicate Valid()
      reads this
    {
      && IsRolling(m) && IsEpoch(m, start, inputs) && tops.uarchCycle <= m.uarchCycles
      && WellFormed(tops, history)
      && (history == [] ==>
            agreed.Some? && StandsAt(agreed.value, Position(0, 0, 0)) && tentative == None && boundary == None)
      && (history != [] ==>
            var before, last := history[..|history| - 1], history[|history| - 1];
            var p := Agreed(before, last.branch);
            && agreed.Some? && StandsAt(agreed.value, p)
            && tentative.Some? && StandsAt(tentative.value, Asked(before, last))
            && boundary == if last.level == Input then None else Some(BoundaryOf(p.input)))
    }

    constructor (m: Machine<S, T, D>, machine: S, inputs: seq<D>, ghost tops: Position)
      requires IsRolling(m) && IsEpoch(m, machine, inputs) && tops.uarchCycle <= m.uarchCycles
      ensures Valid() && history == []
      ensures this.m == m && this.inputs == inputs && this.start == machine && this.tops == tops
    {
      this.m, this.inputs, this.start, this.tops := m, inputs, machine, tops;
      agreed, tentative, boundary := Some(Entry(machine, 0, None)), None, None;
      history := [];
    }

    method TakeBranch(branch: Branch) returns (ok: bool)
      modifies `agreed, `tentative
      ensures ok <==> old(Taken(Forks(agreed, tentative), branch)).Some?
      ensures ok ==> Forks(agreed, tentative) == old(Taken(Forks(agreed, tentative), branch)).value
    {
      if branch == Agree {
        if agreed.None? {
          return false;
        }
        agreed := tentative;
      }
      tentative := None;
      ok := true;
    }

    /** A machine that rejected its input trades places with a fork of the machine it reverts to. */
    method RevertIfRejected(machine: S, revertMachine: S) returns (s: Option<S>)
      ensures s == if !m.HasRequest(machine) then None
                   else if m.rejected(machine) then Some(revertMachine)
                   else Some(machine)
    {
      if !m.HasRequest(machine) {
        return None;
      }
      s := Some(if m.rejected(machine) then revertMachine else machine);
    }

    /** Feeds one input and runs it out to the next boundary. */
    method Advance(machine: S, data: Option<D>) returns (s: Option<S>)
      requires IsRolling(m) && IsBoundary(m, machine)
      ensures s.Some? <==> (data.Some? ==> Advances(m, machine, data.value))
      ensures s.Some? ==> s.value == AtOffset(m, machine, data, m.mcyclesPerInput)
    {
      hide Instructions;
      if data.None? {
        InputEndsAtBoundary(m, machine, data);
        return Some(machine);
      }
      if !m.CanSend(machine, data.value) {
        return None;
      }
      var fed := m.feed(machine, data.value);
      NoInstructions(m, fed);
      FedIsPristine(m, machine, data);
      var end, reason := RunTo(m, fed, m.mcycle(fed) + m.mcyclesPerInput, fed, 0, m.mcyclesPerInput);
      s := RevertIfRejected(end, machine);
    }

    /** Crosses whole inputs from the agreed boundary. */
    method CrossInputs(from: Entry<S>, target: nat) returns (machine: Option<S>)
      requires IsRolling(m) && IsEpoch(m, start, inputs)
      requires from.inputIndex <= target && from.machine == Boundary(m, start, inputs, from.inputIndex)
      ensures machine.Some? <==>
                forall i: nat :: from.inputIndex <= i < target && i < |inputs| ==>
                  Advances(m, Boundary(m, start, inputs, i), inputs[i])
      ensures machine.Some? ==> machine.value == Boundary(m, start, inputs, target)
    {
      hide IsRolling, IsEpoch, AtOffset, IsBoundary, Advances;
      var current := from.machine;
      for index := from.inputIndex to target
        invariant current == Boundary(m, start, inputs, index)
        invariant forall i: nat :: from.inputIndex <= i < index && i < |inputs| ==>
                    Advances(m, Boundary(m, start, inputs, i), inputs[i])
      {
        BoundaryIsFixed(m, start, inputs, index);
        var next := Advance(current, DataOf(inputs, index));
        if next.None? {
          return None;
        }
        current := next.value;
      }
      machine := Some(current);
    }

    /** Runs a fork of the agreed machine to an offset of the disputed input. */
    method RunToOffset(machine: S, b: BoundaryRecord<S, D>, ghost n: nat, target: nat) returns (s: S)
      requires IsRolling(m) && IsBoundary(m, b.machine) && b.mcycle == m.mcycle(b.machine)
      requires n <= target && target > 0 && machine == StartOf(m, b.machine, b.data, n)
      ensures s == AtOffset(m, b.machine, b.data, target)
    {
      hide InstructionsCount, StepsCount, FeedRecords;
      ghost var from, k, goal := Fed(m, b.machine, b.data), n, target;
      NoInstructions(m, from);
      FedIsPristine(m, b.machine, b.data);
      OffsetCount(m, from, n);
      if n > 0 && m.rejected(Instructions(m, from, n)) {
        RejectedStays(m, b.machine, b.data, n, target);
        from, k, goal := machine, 0, 0;
        NoInstructions(m, from);
      }
      var reason;
      s, reason := RunTo(m, machine, b.mcycle + target, from, k, goal);
      if reason == YieldedManually {
        var reverted := RevertIfRejected(s, b.machine);
        s := reverted.value;
      } else {
        OnlyYieldsReject(s);
      }
    }

    lemma OnlyYieldsReject(s: S)
      requires InstructionsCount(m) && Reason(m, s) != YieldedManually
      ensures !m.rejected(s)
    {
    }

    /** The machine a round below the input level starts from, with the input fed exactly at the boundary. */
    ghost predicate StartsFrom(machine: S, p: Position) {
      var b, data := Boundary(m, start, inputs, p.input), DataOf(inputs, p.input);
      machine == Steps(m, StartOf(m, b, data, p.mcycle), p.uarchCycle)
    }

    lemma FedOnce(e: Entry<S>, p: Position)
      requires StandsAt(e, p)
      ensures StartsFrom(Fed(m, e.machine, if e.offset.None? then DataOf(inputs, p.input) else None), p)
    {
    }

    /** A round of the input level: crosses whole inputs from the agreed boundary. */
    method AnswerInput(from: Entry<S>, target: nat, ghost p: Position) returns (e: Option<Entry<S>>)
      requires IsRolling(m) && IsEpoch(m, start, inputs) && StandsAt(from, p)
      requires p == Position(p.input, 0, 0) && p.input < target
      ensures e.Some? <==> CallsSucceed(p, Request(Start, Input, target))
      ensures e.Some? ==> StandsAt(e.value, p.With(Input, target))
    {
      hide IsRolling, IsEpoch, Boundary, StateAt, Advances;
      BoundaryAtZero(m, start, inputs, p.input);
      BoundaryAtZero(m, start, inputs, target);
      var machine := CrossInputs(from, target);
      if machine.None? {
        return None;
      }
      e := Some(Entry(machine.value, target, None));
    }

    /** A round below the input level: the fork includes the input when it still stands at the boundary. */
    method AnswerWithinInput(from: Entry<S>, level: Level, target: nat, ghost p: Position) returns (e: Option<Entry<S>>)
      requires IsRolling(m) && IsEpoch(m, start, inputs) && StandsAt(from, p)
      requires level != Input && p.Get(level) < target && (level == Mcycle ==> p.uarchCycle == 0)
      requires boundary == None ==> p == Position(p.input, 0, 0)
      requires boundary.Some? ==> boundary == Some(BoundaryOf(p.input))
      modifies `boundary
      ensures boundary == Some(BoundaryOf(p.input))
      ensures e.Some? <==> CallsSucceed(p, Request(Start, level, target))
      ensures e.Some? ==> StandsAt(e.value, p.With(level, target))
    {
      hide IsEpoch, Boundary, Instructions, InstructionsCount, FeedRecords;
      BoundaryAtZero(m, start, inputs, p.input);
      var b := if boundary.Some? then boundary.value
               else BoundaryRecord(from.machine, m.mcycle(from.machine), DataOf(inputs, from.inputIndex));
      boundary := Some(b);
      BoundaryIsFixed(m, start, inputs, p.input);
      var machine := from.machine;
      if from.offset.None? && b.data.Some? {
        if !m.CanSend(machine, b.data.value) {
          return None;
        }
        machine := m.feed(machine, b.data.value);
      }
      FedOnce(from, p);
      var offset := if from.offset.Some? then from.offset.value else 0;
      if level == Mcycle {
        offset := target;
        machine := RunToOffset(machine, b, p.mcycle, target);
      } else {
        StartOfCycles(m, b.machine, b.data, p.mcycle);
        machine := RunUarch(m, machine, target, StartOf(m, b.machine, b.data, p.mcycle), p.uarchCycle);
      }
      e := Some(Entry(machine, from.inputIndex, Some(offset)));
    }

    /** A fork that stands where it is asked about answers with the hash there. */
    lemma AnswerOf(e: Entry<S>, t: Transcript, r: Request)
      requires IsRolling(m) && tops.uarchCycle <= m.uarchCycles
      requires WellFormed(tops, t) && Follows(tops, t, r) && StandsAt(e, Asked(t, r))
      ensures HashAt(m, start, inputs, Asked(t, r)) == m.hash(e.machine)
    {
      hide StateAt, WellFormed, InstructionsCount, StepsCount, FeedRecords;
      FinerAreZero(tops, t, r.branch);
    }

    /**
      One round: takes the branch of the previous one, forks the agreed machine and runs the fork to the
      target. It answers exactly when its host calls succeed, and then with the hash of the computation at
      the position asked about.
     */
    method CommitBisection(r: Request) returns (hash: Option<T>)
      requires Valid() && Follows(tops, history, r)
      modifies this
      ensures hash.Some? <==> old(CallsSucceed(Agreed(history, r.branch), r))
      ensures hash.Some? ==> Valid() && history == old(history) + [r]
      ensures hash.Some? ==> hash.value == HashAt(m, start, inputs, Asked(old(history), r))
    {
      hide WellFormed, IsRolling, IsEpoch, StateAt, HashAt, BoundaryOf, StandsAt, Advances;
      ghost var t, p := history, Agreed(history, r.branch);
      FinerAreZero(tops, history, r.branch);
      var ok := TakeBranch(r.branch);
      assert ok && agreed.Some? && StandsAt(agreed.value, p);
      var e;
      if r.level == Input {
        e := AnswerInput(agreed.value, r.target, p);
      } else {
        e := AnswerWithinInput(agreed.value, r.level, r.target, p);
      }
      if e.None? {
        return None;
      }
      AnswerOf(e.value, history, r);
      tentative := e;
      Extends(tops, history, r);
      history := history + [r];
      assert history[..|history| - 1] == t;
      hash := Some(m.hash(e.value.machine));
    }

    /** The claimed final state: the whole epoch processed from its start, when every input can be fed. */
    method CommitFinalHash() returns (hash: Option<T>)
      requires Valid() && history == []
      ensures hash.Some? <==> EpochIsFed(m, start, inputs)
      ensures hash.Some? ==> hash.value == m.hash(Boundary(m, start, inputs, |inputs|))
    {
      hide IsRolling, IsEpoch, Advances, AtOffset, Instructions;
      BoundaryAtZero(m, start, inputs, 0);
      var machine := CrossInputs(agreed.value, |inputs|);
      if machine.None? {
        return None;
      }
      hash := Some(m.hash(machine.value));
    }

    /** The logs of the transition the bisections converged on, out of the agreed machine. */
    method CommitLog<L>(logger: Logger<S, D, L>, branch: Branch, mcycle: nat, uarchCycle: nat)
      returns (log: LogCommitment<L>)
      requires Valid() && history != [] && history[|history| - 1].level != Input
      requires Agreed(history, branch) == Position(Agreed(history, branch).input, mcycle, uarchCycle)
      modifies `agreed, `tentative
      ensures log == LogsAt(m, logger, start, inputs, Agreed(history, branch))
    {
      hide IsRolling, IsEpoch, WellFormed, StateAt;
      var ok := TakeBranch(branch);
      assert ok && agreed.Some? && StandsAt(agreed.value, Agreed(history, branch));
      var x, data := agreed.value.machine, boundary.value.data;
      if mcycle == 0 && uarchCycle == 0 && data.Some? {
        return LogCommitment(Some(logger.sendCmio(x, data.value)), logger.step(m.feed(x, data.value)), None);
      }
      if uarchCycle == m.uarchCycles - 1 {
        return LogCommitment(None, logger.step(x), Some(logger.reset(m.step(x))));
      }
      return LogCommitment(None, logger.step(x), None);
    }
  }

  /** Every instruction starts with the uarch at cycle zero. */
  lemma StartOfCycles<S(!new), T, D(!new)>(m: Machine<S, T, D>, b: S, data: Option<D>, n: nat)
    requires IsRolling(m) && IsBoundary(m, b)
    ensures m.uarchCycle(StartOf(m, b, data, n)) == 0
  {
    FedIsPristine(m, b, data);
    PristineBetween(m, b, 0);
    PristineBetween(m, Fed(m, b, data), n);
  }

  lemma BoundaryAtZero<S, T, D>(m: Machine<S, T, D>, s: S, inputs: seq<D>, i: nat)
    ensures StateAt(m, s, inputs, Position(i, 0, 0)) == Boundary(m, s, inputs, i)
  {
  }

  // ---------------------------------------------------------------------------------------------
  // A whole game
  // ---------------------------------------------------------------------------------------------

  datatype Played<T, L> = Played(finalHash: T, answers: seq<T>, log: LogCommitment<L>)

  /** In an epoch that can be fed, every round of every game is answered truly. */
  method PlayRounds<S(!new), T, D(!new)>(player: EpochPlayer<S, T, D>, t: Transcript) returns (answers: seq<T>)
    requires player.Valid() && player.history == [] && WellFormed(player.tops, t)
    requires EpochIsFed(player.m, player.start, player.inputs)
    modifies player
    ensures player.Valid() && player.history == t && |answers| == |t|
    ensures forall i :: 0 <= i < |t| ==>
              answers[i] == HashAt(player.m, player.start, player.inputs, Asked(t[..i], t[i]))
  {
    hide *;
    answers := [];
    assert t[..0] == [];
    for i := 0 to |t|
      invariant player.Valid() && player.history == t[..i] && |answers| == i
      invariant forall j :: 0 <= j < i ==>
                  answers[j] == HashAt(player.m, player.start, player.inputs, Asked(t[..j], t[j]))
    {
      PrefixFollows(player.tops, t, i);
      FedEpochSucceeds(player, Agreed(t[..i], t[i].branch), t[i]);
      var hash := player.CommitBisection(t[i]);
      assert t[..i] + [t[i]] == t[..i + 1];
      answers := answers + [hash.value];
    }
    assert t[..|t|] == t;
  }

  lemma FedEpochSucceeds<S(!new), T, D(!new)>(player: EpochPlayer<S, T, D>, p: Position, r: Request)
    requires EpochIsFed(player.m, player.start, player.inputs)
    ensures player.CallsSucceed(p, r)
  {
    hide Boundary, Instructions;
    if r.level != Input && p.input < |player.inputs| {
      assert Advances(player.m, Boundary(player.m, player.start, player.inputs, p.input), player.inputs[p.input]);
    }
  }

  /**
    A whole game: the final hash, every round and the logs. The player plays it exactly when every input of
    the epoch can be fed, and then it plays as `HonestPlayer`.
   */
  method PlayGame<S(!new), T, D(!new), L>(m: Machine<S, T, D>, machine: S, inputs: seq<D>, logger: Logger<S, D, L>,
                                          t: Transcript, branch: Branch, mcycle: nat, uarchCycle: nat,
                                          ghost tops: Position)
    returns (played: Option<Played<T, L>>)
    requires IsRolling(m) && IsEpoch(m, machine, inputs) && tops.uarchCycle <= m.uarchCycles
    requires WellFormed(tops, t) && t != [] && t[|t| - 1].level != Input
    requires Agreed(t, branch) == Position(Agreed(t, branch).input, mcycle, uarchCycle)
    ensures played.Some? <==> EpochIsFed(m, machine, inputs)
    ensures played.Some? ==>
              var honest := HonestPlayer(m, logger, machine, inputs);
              && played.value.finalHash == honest.finalHash
              && |played.value.answers| == |t|
              && (forall i :: 0 <= i < |t| ==> played.value.answers[i] == honest.answer(t[..i + 1]))
              && played.value.log == honest.log(t, branch, Agreed(t, branch))
  {
    hide WellFormed, IsRolling, IsEpoch, EpochIsFed, HashAt, LogsAt, Boundary, Asked, Agreed, HonestPlayer, StateAt;
    var player := new EpochPlayer(m, machine, inputs, tops);
    var finalHash := player.CommitFinalHash();
    if finalHash.None? {
      return None;
    }
    var answers := PlayRounds(player, t);
    forall i | 0 <= i < |t|
      ensures answers[i] == HonestPlayer(m, logger, machine, inputs).answer(t[..i + 1])
    {
      HonestAnswer(m, logger, machine, inputs, t, i);
    }
    HonestCommitments(m, logger, machine, inputs, t, branch);
    var log := player.CommitLog(logger, branch, mcycle, uarchCycle);
    played := Some(Played(finalHash.value, answers, log));
  }

  lemma HonestAnswer<S, T, D, L>(m: Machine<S, T, D>, logger: Logger<S, D, L>, s: S, inputs: seq<D>, t: Transcript,
                                 i: nat)
    requires i < |t|
    ensures HonestPlayer(m, logger, s, inputs).answer(t[..i + 1]) == HashAt(m, s, inputs, Asked(t[..i], t[i]))
  {
    assert t[..i + 1][..i] == t[..i];
  }

  lemma HonestCommitments<S, T, D, L>(m: Machine<S, T, D>, logger: Logger<S, D, L>, s: S, inputs: seq<D>, t: Transcript,
                                      branch: Branch)
    ensures HonestPlayer(m, logger, s, inputs).finalHash == m.hash(Boundary(m, s, inputs, |inputs|))
    ensures HonestPlayer(m, logger, s, inputs).log(t, branch, Agreed(t, branch))
         == LogsAt(m, logger, s, inputs, Agreed(t, branch))
  {
  }
}
