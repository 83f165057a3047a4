/**
  The player of the verification game, which answers by forking machines and keeps the hash of its halted
  one (doc/recipes/verification-game.lua, doc/recipes/vgu.lua).

  A round at or past the halt is answered from the cache and leaves no fork behind. When the next request
  reports that such a round was agreed, the player promotes a fork it does not have, and the first round
  after that which needs one is an error. `keepsFork` is the player corrected to fork on those rounds too.

  The player runs its machines with a single call, which also returns at an automatic yield. On a computation
  that yields before it stops, it claims the state of the first yield.
 */
module HaltingPlayer {
  import opened Merkle
  import opened Uint64
  import opened Emulator
  import opened Bisection
  import opened VerificationGame

  /** A round answered from the cache; the target compares as a signed integer. */
  predicate Cached(halt: nat, r: Request) {
    r.level == Mcycle && Signed(r.target) >= halt
  }

  /** Some cached round of the transcript was agreed, `branch` being the one its last round took. */
  predicate AgreesPastHalt(halt: nat, t: Transcript, branch: Branch) {
    t != [] &&
    var last := t[|t| - 1];
    AgreesPastHalt(halt, t[..|t| - 1], last.branch) || (branch == Agree && Cached(halt, last))
  }

  /** The computation of a player: it stops first after `halt` instructions. */
  ghost predicate IsComputation<S(!new), T, D>(m: Machine<S, T, D>, s: S, halt: nat) {
    && InstructionsCount(m) && StepsCount(m) && m.uarchCycles == UARCH_CYCLE_MAX
    && m.Pristine(s) && m.mcycle(s) == 0 && halt < TWO_TO_63
    && m.Stopped(Instructions(m, s, halt))
    && (forall n: nat :: n < halt ==> !m.Stopped(Instructions(m, s, n)))
  }

  /** It does not yield automatically before it stops. */
  ghost predicate RunsThrough<S, T, D>(m: Machine<S, T, D>, s: S, halt: nat) {
    forall n: nat :: 0 < n < halt ==> !m.yieldedAutomatically(Instructions(m, s, n))
  }

  /** Where a run from instruction `n` on returns: at the first automatic yield after the start, or at the stop. */
  ghost function FirstBreak<S, T, D>(m: Machine<S, T, D>, s: S, n: nat, halt: nat): (r: nat)
    requires n <= halt
    ensures n <= r <= halt
    decreases halt - n
  {
    if n == halt || (n > 0 && m.yieldedAutomatically(Instructions(m, s, n))) then n
    else FirstBreak(m, s, n + 1, halt)
  }

  lemma {:induction false} FirstBreakIs<S, T, D>(m: Machine<S, T, D>, s: S, n: nat, halt: nat, b: nat)
    requires n <= b <= halt
    requires b == halt || (b > 0 && m.yieldedAutomatically(Instructions(m, s, b)))
    requires forall j: nat :: n <= j < b && j > 0 ==> !m.yieldedAutomatically(Instructions(m, s, j))
    ensures FirstBreak(m, s, n, halt) == b
    decreases halt - n
  {
    if n < b {
      FirstBreakIs(m, s, n + 1, halt, b);
    }
  }

  lemma {:induction false} NothingBefore<S, T, D>(m: Machine<S, T, D>, s: S, n: nat, halt: nat)
    requires n <= halt
    ensures var b := FirstBreak(m, s, n, halt);
            && (b == halt || (b > 0 && m.yieldedAutomatically(Instructions(m, s, b))))
            && forall j: nat :: n <= j < b && j > 0 ==> !m.yieldedAutomatically(Instructions(m, s, j))
    decreases halt - n
  {
    if n < halt && !(n > 0 && m.yieldedAutomatically(Instructions(m, s, n))) {
      NothingBefore(m, s, n + 1, halt);
    }
  }

  /** The first break is the stop exactly when the computation runs through; an earlier one is another state. */
  lemma BreaksEarlyOrStops<S(!new), T, D>(m: Machine<S, T, D>, s: S, halt: nat)
    requires IsComputation(m, s, halt)
    ensures var b := FirstBreak(m, s, 0, halt);
            && (b == halt <==> RunsThrough(m, s, halt))
            && (b < halt ==> Instructions(m, s, b) != Instructions(m, s, halt))
  {
    NothingBefore(m, s, 0, halt);
  }

  datatype Cache<+T> = Cache(finalHash: T, haltMcycle: nat)

  class HaltingPlayer<S(!new), T, D> {
    const m: Machine<S, T, D>
    const keepsFork: bool
    var agreed: Option<S>
    var tentative: Option<S>
    var cache: Option<Cache<T>>
    ghost const start: S
    ghost const halt: nat
    ghost const stop: nat
    ghost var history: Transcript

    /** Whether the agreed fork is gone once the branch of the last round has been taken. */
    ghost predicate Lost(t: Transcript, branch: Branch) {
      !keepsFork && AgreesPastHalt(stop, t, branch)
    }

    /** A fork that was run to a position; it is the state there if the computation runs through. */
    ghost predicate RunTowards(x: S, p: Position) {
      && (exists n: nat :: n <= p.mcycle && x == Steps(m, Instructions(m, start, n), p.uarchCycle))
      && (RunsThrough(m, start, halt) ==> x == StateAt(m, start, p))
    }

    /** Where the forks stand once the last request has been answered. */
    ghost predicate ForksStand(f: Forks<S>, t: Transcript) {
      && (t == [] ==> f == Forks(Some(start), None))
      && (t != [] ==>
            var before, last := t[..|t| - 1], t[|t| - 1];
            && (f.agreed.None? <==> Lost(before, last.branch))
            && (f.agreed.Some? ==> RunTowards(f.agreed.value, Agreed(before, last.branch)))
            && (f.tentative.None? <==> Lost(before, last.branch) || (!keepsFork && Cached(stop, last)))
            && (f.tentative.Some? ==> RunTowards(f.tentative.value, Asked(before, last))))
    }

    lemma ForksStandAfter(f: Forks<S>, t: Transcript, r: Request)
      requires f.agreed.None? <==> Lost(t, r.branch)
      requires f.agreed.Some? ==> RunTowards(f.agreed.value, Agreed(t, r.branch))
      requires f.tentative.None? <==> Lost(t, r.branch) || (!keepsFork && Cached(stop, r))
      requires f.tentative.Some? ==> RunTowards(f.tentative.value, Asked(t, r))
      ensures ForksStand(f, t + [r])
    {
      hide RunTowards, Lost, Cached;
      assert (t + [r])[..|t|] == t;
    }

    lemma LostMeans(t: Transcript, branch: Branch)
      requires Lost(t, branch)
      ensures !keepsFork && AgreesPastHalt(stop, t, branch)
    {
    }

    ghost predicate Valid()
      reads this
    {
      && IsComputation(m, start, halt) && stop == FirstBreak(m, start, 0, halt) && WellFormed(TOPS, history)
      && (cache.Some? ==> cache.value == Cache(m.hash(Instructions(m, start, stop)), stop))
      && (history != [] ==> cache.Some?) && ForksStand(Forks(agreed, tentative), history)
    }

    constructor (m: Machine<S, T, D>, machine: S, keepsFork: bool, ghost halt: nat)
      requires IsComputation(m, machine, halt)
      ensures Valid() && history == [] && cache == None
      ensures this.m == m && this.start == machine && this.keepsFork == keepsFork && this.halt == halt
      ensures stop == FirstBreak(m, machine, 0, halt)
    {
      this.m, this.keepsFork, this.start, this.halt := m, keepsFork, machine, halt;
      this.stop := FirstBreak(m, machine, 0, halt);
      agreed, tentative, cache := Some(machine), None, None;
      history := [];
    }

    /**
      `machine:run` on a fork of the agreed machine, wherever it stands. It reaches the state at the target
      exactly when the computation does not yield in between, before its stop.
     */
    method RunFork(machine: S, target: nat, ghost n: nat) returns (fork: S)
      requires IsComputation(m, start, halt) && machine == Instructions(m, start, n) && n <= target
      ensures exists n': nat :: n <= n' <= target && fork == Instructions(m, start, n')
      ensures fork == Instructions(m, start, target) <==>
                forall j: nat :: n < j < target && j < halt ==> !m.yieldedAutomatically(Instructions(m, start, j))
    {
      hide Instruction, Instructions, InstructionsCount, StepsCount;
      OffsetCount(m, start, n);
      var reason;
      fork, reason := RunUntil(m, machine, target, start, n);
      ghost var n' := n + (m.mcycle(fork) - m.mcycle(machine));
      CountsToStop();
      if reason == YieldedAutomatically && n' < target {
        YieldIsEarly(n', target);
        assert m.yieldedAutomatically(Instructions(m, start, n'));
      } else if m.Stopped(fork) && n' < target {
        StoppedStays(m, start, n', target);
      }
    }

    /** The counter counts every instruction up to the stop and none after it. */
    lemma CountsToStop()
      requires IsComputation(m, start, halt)
      ensures forall n: nat :: n < halt ==> m.mcycle(Instructions(m, start, n)) == n
      ensures forall n: nat :: n >= halt ==> Instructions(m, start, n) == Instructions(m, start, halt)
      ensures m.mcycle(Instructions(m, start, halt)) == halt
    {
      hide Instructions, Instruction, InstructionsCount, StepsCount;
      NoInstructions(m, start);
      forall n: nat | n < halt
        ensures m.mcycle(Instructions(m, start, n)) == n
      {
        OffsetCount(m, start, n);
      }
      if halt > 0 {
        NextInstruction(m, start, halt - 1);
      }
      forall n: nat | n >= halt
        ensures Instructions(m, start, n) == Instructions(m, start, halt)
      {
        StoppedStays(m, start, halt, n);
      }
    }

    /** A state before the stop is not the state of any later instruction. */
    lemma YieldIsEarly(n: nat, target: nat)
      requires IsComputation(m, start, halt) && n < target && !m.Stopped(Instructions(m, start, n))
      ensures n < halt && Instructions(m, start, n) != Instructions(m, start, target)
    {
      hide Instructions, InstructionsCount, StepsCount;
      CountsToStop();
      assert n < halt;
    }

    /**
      The claimed hash, of the state in which a single run returns, and the cache of that machine. It is the
      final state exactly when the computation runs through.
     */
    method CommitFinalHash() returns (hash: T)
      requires Valid() && history == []
      modifies `cache
      ensures Valid() && cache.Some? && hash == m.hash(Instructions(m, start, stop))
      ensures Instructions(m, start, stop) == Instructions(m, start, halt) <==> RunsThrough(m, start, halt)
    {
      hide Instructions, InstructionsCount, StepsCount, WellFormed;
      NoInstructions(m, start);
      CountsToStop();
      var machine, reason := RunUntil(m, agreed.value, TWO_TO_63 - 1, start, 0);
      ghost var b := m.mcycle(machine);
      if reason == YieldedAutomatically {
        YieldIsEarly(b, TWO_TO_63);
      } else {
        assert b == halt;
      }
      FirstBreakIs(m, start, 0, halt, b);
      BreaksEarlyOrStops(m, start, halt);
      cache := Some(Cache(m.hash(machine), m.mcycle(machine)));
      hash := cache.value.finalHash;
    }

    method TakeBranch(branch: Branch) returns (ok: bool)
      modifies `agreed, `tentative
      ensures ok <==> old(Taken(Forks(agreed, tentative), branch)).Some?
      ensures ok ==> Forks(agreed, tentative) == old(Taken(Forks(agreed, tentative), branch)).value
    {
      if branch == Agree {
        if agreed.None? {
          return false;
        }
        agreed := tentative;
      }
      tentative := None;
      ok := true;
    }

    /** Taking the branch leaves the fork at the agreed position, unless it is lost. */
    lemma ForksAfter(branch: Branch)
      requires Valid() && (history == [] ==> branch != Agree)
      ensures var f := Taken(Forks(agreed, tentative), branch);
              && (f.None? ==> Lost(history, branch))
              && (f.None? <==> branch == Agree && agreed.None?)
              && (f.Some? ==>
                    && f.value.tentative == None
                    && (f.value.agreed.None? <==> Lost(history, branch))
                    && (f.value.agreed.Some? ==> RunTowards(f.value.agreed.value, Agreed(history, branch))))
    {
      StartsThere();
      hide IsComputation, WellFormed, RunTowards;
    }

    lemma StartsThere()
      ensures RunTowards(start, Position(0, 0, 0))
    {
      assert StateAt(m, start, Position(0, 0, 0)) == start;
      assert start == Steps(m, Instructions(m, start, 0), 0);
    }

    /**
      One round. A player that keeps its fork always answers; the one that does not answers unless it needs
      a fork it has lost. On a computation that runs through, every answer is the hash at the position asked
      about.
     */
    method CommitBisection(r: Request) returns (hash: Option<T>)
      requires Valid() && cache.Some? && Follows(TOPS, history, r)
      modifies this
      ensures !Lost(old(history), r.branch) ==> hash.Some?
      ensures Lost(old(history), r.branch) && !Cached(stop, r) ==> hash == None
      ensures hash.Some? ==> Valid() && cache.Some? && history == old(history) + [r]
      ensures hash.Some? && RunsThrough(m, start, halt) ==> hash.value == HashAt(m, start, Asked(old(history), r))
    {
      hide WellFormed, StateAt, HashAt, Instructions, IsComputation, RunTowards, RunsThrough, Follows, ForksStand,
           AgreesPastHalt, Agreed;
      ghost var t, p := history, Agreed(history, r.branch);
      RequestIsAhead(t, r);
      ForksAfter(r.branch);
      var ok := TakeBranch(r.branch);
      if !ok {
        return None;
      }
      Extends(TOPS, t, r);
      if r.level == Mcycle && Signed(r.target) >= cache.value.haltMcycle {
        if keepsFork {
          var fork := RunForkTo(agreed.value, r, p);
          tentative := Some(fork);
        }
        history := history + [r];
        ForksStandAfter(Forks(agreed, tentative), t, r);
        if RunsThrough(m, start, halt) {
          CachedAnswer(p, r.target);
        }
        return Some(cache.value.finalHash);
      }
      if agreed.None? {
        return None;
      }
      var fork := RunForkTo(agreed.value, r, p);
      tentative := Some(fork);
      history := history + [r];
      ForksStandAfter(Forks(agreed, tentative), t, r);
      hash := Some(m.hash(fork));
    }

    /** A request asks for a position ahead of the agreed one, on one of the two levels of the game. */
    lemma RequestIsAhead(t: Transcript, r: Request)
      requires WellFormed(TOPS, t) && Follows(TOPS, t, r)
      ensures var p := Agreed(t, r.branch);
              && r.level != Input && p.Get(r.level) <= r.target
              && (r.level == Mcycle ==> p.uarchCycle == 0)
              && (r.level == UarchCycle ==> r.target < UARCH_CYCLE_MAX)
      ensures t == [] ==> r.branch != Agree
    {
      FinerAreZero(TOPS, t, r.branch);
    }

    /** A fork of the agreed machine, run to the position asked about. */
    method RunForkTo(machine: S, r: Request, ghost p: Position) returns (fork: S)
      requires IsComputation(m, start, halt) && RunTowards(machine, p)
      requires r.level != Input && p.Get(r.level) <= r.target
      requires r.level == Mcycle ==> p.uarchCycle == 0
      requires r.level == UarchCycle ==> r.target < UARCH_CYCLE_MAX
      ensures RunTowards(fork, p.With(r.level, r.target))
      ensures RunsThrough(m, start, halt) ==> m.hash(fork) == HashAt(m, start, p.With(r.level, r.target))
    {
      hide IsComputation, RunTowards, RunsThrough, HashAt;
      if r.level == Mcycle {
        fork := RunToMcycle(machine, r.target, p);
      } else {
        fork := RunToCycle(machine, r.target, p);
      }
      HashOfState(fork, p.With(r.level, r.target));
    }

    method RunToMcycle(machine: S, target: nat, ghost p: Position) returns (fork: S)
      requires IsComputation(m, start, halt)
      requires RunTowards(machine, p) && p.uarchCycle == 0 && p.mcycle <= target
      ensures RunTowards(fork, p.With(Mcycle, target))
    {
      hide IsComputation, Instructions;
      ghost var n: nat :| n <= p.mcycle && machine == Steps(m, Instructions(m, start, n), p.uarchCycle);
      if RunsThrough(m, start, halt) {
        n := p.mcycle;
      }
      fork := RunFork(machine, target, n);
      ghost var n': nat :| n <= n' <= target && fork == Instructions(m, start, n');
      assert fork == Steps(m, Instructions(m, start, n'), 0);
    }

    method RunToCycle(machine: S, target: nat, ghost p: Position) returns (fork: S)
      requires IsComputation(m, start, halt)
      requires RunTowards(machine, p) && p.uarchCycle <= target
      ensures RunTowards(fork, p.With(UarchCycle, target))
    {
      hide InstructionsCount, Instructions;
      ghost var n: nat :| n <= p.mcycle && machine == Steps(m, Instructions(m, start, n), p.uarchCycle);
      if RunsThrough(m, start, halt) {
        n := p.mcycle;
      }
      PristineBetween(m, start, n);
      fork := RunUarch(m, machine, target, Instructions(m, start, n), p.uarchCycle);
      assert fork == Steps(m, Instructions(m, start, n), target);
    }

    lemma CachedAnswer(p: Position, target: nat)
      requires IsComputation(m, start, halt) && stop == FirstBreak(m, start, 0, halt) && RunsThrough(m, start, halt)
      requires p.uarchCycle == 0 && Signed(target) >= stop
      ensures HashAt(m, start, p.With(Mcycle, target)) == m.hash(Instructions(m, start, stop))
    {
      hide InstructionsCount, StepsCount, Instructions;
      BreaksEarlyOrStops(m, start, halt);
      CountsToStop();
    }

    lemma HashOfState(x: S, p: Position)
      requires IsComputation(m, start, halt) && RunTowards(x, p) && p.uarchCycle < UARCH_CYCLE_MAX
      ensures RunsThrough(m, start, halt) ==> HashAt(m, start, p) == m.hash(x)
    {
    }

    /** The logs of the transition the bisections converged on, out of the agreed machine. */
    method CommitLog<L>(logger: Logger<S, L>, branch: Branch, uarchCycle: nat)
      returns (log: Option<LogCommitment<L>>)
      requires Valid() && (history == [] ==> branch != Agree) && Agreed(history, branch).uarchCycle == uarchCycle
      modifies `agreed, `tentative
      ensures log.Some? <==> !Lost(history, branch)
      ensures log.Some? && RunsThrough(m, start, halt) ==>
                log.value == LogsAt(m, logger, start, Agreed(history, branch))
    {
      hide WellFormed, IsComputation, StateAt, RunsThrough;
      ForksAfter(branch);
      var ok := TakeBranch(branch);
      if !ok || agreed.None? {
        return None;
      }
      var x := agreed.value;
      if uarchCycle == m.uarchCycles - 1 {
        assert m.uarchCycles == UARCH_CYCLE_MAX by { UarchCyclesOf(); }
        return Some(LogCommitment(logger.step(x), Some(logger.reset(m.step(x)))));
      }
      return Some(LogCommitment(logger.step(x), None));
    }

    lemma UarchCyclesOf()
      requires IsComputation(m, start, halt)
      ensures m.uarchCycles == UARCH_CYCLE_MAX
    {
    }
  }

  datatype Played<T, L> = Played(finalHash: T, answers: seq<T>, log: LogCommitment<L>)

  /** Every round of a game, as long as the player answers. */
  method PlayRounds<S(!new), T, D>(player: HaltingPlayer<S, T, D>, t: Transcript, ghost branch: Branch)
    returns (answers: Option<seq<T>>)
    requires player.Valid() && player.history == [] && player.cache.Some? && WellFormed(TOPS, t)
    modifies player
    ensures player.keepsFork || !AgreesPastHalt(player.stop, t, branch) ==> answers.Some?
    ensures answers.Some? ==> player.Valid() && player.cache.Some? && player.history == t && |answers.value| == |t|
    ensures answers.Some? && RunsThrough(player.m, player.start, player.halt) ==>
              forall i :: 0 <= i < |t| ==> answers.value[i] == HashAt(player.m, player.start, Asked(t[..i], t[i]))
  {
    hide *;
    var hashes := [];
    assert t[..0] == [];
    for i := 0 to |t|
      invariant player.Valid() && player.cache.Some? && player.history == t[..i] && |hashes| == i
      invariant RunsThrough(player.m, player.start, player.halt) ==>
                  forall j :: 0 <= j < i ==> hashes[j] == HashAt(player.m, player.start, Asked(t[..j], t[j]))
    {
      PrefixFollows(TOPS, t, i);
      if player.Lost(t[..i], t[i].branch) {
        player.LostMeans(t[..i], t[i].branch);
        PrefixAgrees(player.stop, t, branch, i);
      }
      var hash := player.CommitBisection(t[i]);
      if hash.None? {
        return None;
      }
      assert t[..i] + [t[i]] == t[..i + 1];
      hashes := hashes + [hash.value];
    }
    assert t[..|t|] == t;
    answers := Some(hashes);
  }

  /**
    A whole game: the final hash, every round and the logs. The player plays it to the end exactly when no
    round it answered from its cache was agreed, or it keeps its fork. It then plays as `HonestPlayer` if the
    computation runs through, and otherwise has claimed the hash of a state that is not the final one.
   */
  method PlayGame<S(!new), T, D, L>(m: Machine<S, T, D>, machine: S, keepsFork: bool, logger: Logger<S, L>,
                                    t: Transcript, branch: Branch, uarchCycle: nat, ghost halt: nat)
    returns (played: Option<Played<T, L>>)
    requires IsComputation(m, machine, halt) && WellFormed(TOPS, t)
    requires (t == [] ==> branch == Start) && Agreed(t, branch).uarchCycle == uarchCycle
    ensures played.Some? <==> keepsFork || !AgreesPastHalt(FirstBreak(m, machine, 0, halt), t, branch)
    ensures played.Some? && !RunsThrough(m, machine, halt) ==>
              var claimed := Instructions(m, machine, FirstBreak(m, machine, 0, halt));
              played.value.finalHash == m.hash(claimed) && claimed != Instructions(m, machine, halt)
    ensures played.Some? && RunsThrough(m, machine, halt) ==>
              var honest := HonestPlayer(m, logger, machine, halt);
              && played.value.finalHash == honest.finalHash
              && |played.value.answers| == |t|
              && (forall i :: 0 <= i < |t| ==> played.value.answers[i] == honest.answer(t[..i + 1]))
              && played.value.log == honest.log(t, branch, Agreed(t, branch))
  {
    hide WellFormed, IsComputation, HashAt, LogsAt, Instructions, Asked, Follows, Agreed, HonestPlayer, AgreesPastHalt,
         StateAt, RunsThrough;
    var player := new HaltingPlayer(m, machine, keepsFork, halt);
    var finalHash := player.CommitFinalHash();
    var answers := PlayRounds(player, t, branch);
    if answers.None? {
      return None;
    }
    forall i | 0 <= i < |t| && RunsThrough(m, machine, halt)
      ensures answers.value[i] == HonestPlayer(m, logger, machine, halt).answer(t[..i + 1])
    {
      HonestAnswer(m, logger, machine, halt, t, i);
    }
    HonestCommitments(m, logger, machine, halt, t, branch);
    var log := player.CommitLog(logger, branch, uarchCycle);
    if log.None? {
      return None;
    }
    played := Some(Played(finalHash, answers.value, log.value));
  }

  lemma HonestAnswer<S, T, D, L>(m: Machine<S, T, D>, logger: Logger<S, L>, s: S, halt: nat, t: Transcript, i: nat)
    requires i < |t|
    ensures t[..i] + [t[i]] == t[..i + 1]
    ensures HonestPlayer(m, logger, s, halt).answer(t[..i + 1]) == HashAt(m, s, Asked(t[..i], t[i]))
  {
    assert t[..i + 1][..i] == t[..i];
  }

  lemma HonestCommitments<S, T, D, L>(m: Machine<S, T, D>, logger: Logger<S, L>, s: S, halt: nat, t: Transcript,
                                      branch: Branch)
    ensures HonestPlayer(m, logger, s, halt).finalHash == m.hash(Instructions(m, s, halt))
    ensures HonestPlayer(m, logger, s, halt).log(t, branch, Agreed(t, branch))
         == LogsAt(m, logger, s, Agreed(t, branch))
  {
  }

  /** Once a cached round was agreed, it stays so in every longer transcript. */
  lemma {:induction false} PrefixAgrees(halt: nat, t: Transcript, branch: Branch, i: nat)
    requires i < |t| && AgreesPastHalt(halt, t[..i], t[i].branch)
    ensures AgreesPastHalt(halt, t, branch)
    decreases |t|
  {
    if i < |t| - 1 {
      assert t[..|t| - 1][..i] == t[..i];
      PrefixAgrees(halt, t[..|t| - 1], t[|t| - 1].branch, i);
    }
  }

  /**
    The first two requests of the mcycle bisection, when the first round is agreed: the middle of the whole
    range is at or past every halt and cached, and the middle of the upper half compares as negative.
   */
  lemma AgreedFirstRound(halt: nat)
    requires halt < TWO_TO_63
    ensures var mid := MCYCLE_MAX / 2;
            var next := mid + (MCYCLE_MAX - mid) / 2;
            var first, second := Request(Start, Mcycle, mid), Request(Agree, Mcycle, next);
            && WellFormed(TOPS, [first]) && Follows(TOPS, [first], second)
            && Cached(halt, first) && AgreesPastHalt(halt, [first], Agree) && !Cached(halt, second)
  {
    var mid := MCYCLE_MAX / 2;
    var first := Request(Start, Mcycle, mid);
    assert [first][..0] == [];
    assert Agreed([first], Agree) == Position(0, mid, 0);
  }

  /** With that opponent the player answers the first round, truly if it can, and the second not at all. */
  method LoseTheFork<S(!new), T, D>(m: Machine<S, T, D>, machine: S, ghost halt: nat)
    returns (first: Option<T>, second: Option<T>)
    requires IsComputation(m, machine, halt)
    ensures first.Some? && second == None
    ensures RunsThrough(m, machine, halt) ==> first == Some(m.hash(Instructions(m, machine, halt)))
  {
    hide WellFormed, IsComputation, HashAt, Instructions, RunsThrough;
    AgreedFirstRound(FirstBreak(m, machine, 0, halt)) by { BelowTop(m, machine, halt); }
    var player := new HaltingPlayer(m, machine, false, halt);
    var finalHash := player.CommitFinalHash();
    var mid := MCYCLE_MAX / 2;
    var r := Request(Start, Mcycle, mid);
    assert [] + [r] == [r];
    first := player.CommitBisection(r);
    if RunsThrough(m, machine, halt) {
      player.CachedAnswer(Position(0, 0, 0), mid);
    }
    second := player.CommitBisection(Request(Agree, Mcycle, mid + (MCYCLE_MAX - mid) / 2));
  }

  lemma BelowTop<S(!new), T, D>(m: Machine<S, T, D>, s: S, halt: nat)
    requires IsComputation(m, s, halt)
    ensures FirstBreak(m, s, 0, halt) < TWO_TO_63
  {
  }
}
