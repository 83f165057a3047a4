/**
  A machine of four words whose step, reset and input inclusion are programs over its memory and which keeps
  every promise the rolling game asks for, with the real cycle constants and a hash of 32 bytes.

  The first word holds whether an input is being processed, the verdict on it and the mcycle; the second
  the uarch cycle; the third the root hash to revert to. The reset reverts once the input is rejected.
 */
module RollingMemoryExample {
  import opened Merkle
  import opened Emulator
  import opened RollingMachine
  import RollingGame
  import opened MemoryTree
  import opened AccessReplay
  import opened MemoryMachine

  const DEPTH: nat := 2
  const CYCLE: nat := 32
  const REVERT: nat := 64
  const ZERO: Bytes := [0, 0, 0, 0, 0, 0, 0, 0]
  const ONE: Bytes := [1, 0, 0, 0, 0, 0, 0, 0]
  const ZEROS: Bytes := Repeat<byte>(0, 32)
  const START: Memory := Repeat<byte>(0, 128)

  /** A hash of 32 bytes, with many clashes. */
  function Mix(l: Bytes, r: Bytes): (m: Bytes)
    ensures |m| == 32
  {
    if |l| == |r| == 32 then seq(32, i requires 0 <= i < 32 => (l[i] as int + r[i]) % 256) else ZEROS
  }

  function MixHasher(): Hasher<Bytes> {
    Hasher((data: Bytes) => if |data| == 32 then data else ZEROS, Mix, (word: Bytes) => word)
  }

  // ---------------------------------------------------------------------------------------------
  // The machine
  // ---------------------------------------------------------------------------------------------

  predicate IsToy(s: Memory) { |s| == 128 }

  predicate Busy(st: Bytes) { |st| >= 8 && st[0] == 1 }

  predicate Accepting(st: Bytes) { |st| >= 8 && st[0] != 1 && st[1] == 0 && st[2] < 255 }

  predicate Rejected(st: Bytes) { |st| >= 8 && st[0] != 1 && st[1] == 1 }

  predicate Advances(st: Bytes) { Busy(st) && st[2] < 255 }

  /** The state word once its input has been processed, and once an input has been included. */
  function Processed(st: Bytes): (r: Bytes)
    requires Advances(st)
    ensures |st| == 8 ==> |r| == 8
  {
    [0, st[1], st[2] + 1] + st[3..]
  }

  function Included(st: Bytes, verdict: byte): (r: Bytes)
    requires Accepting(st)
    ensures |st| == 8 ==> |r| == 8
  {
    [1, verdict, st[2]] + st[3..]
  }

  function State(s: Memory): Bytes requires IsToy(s) { s[..8] }

  function Cycle(s: Memory): Bytes requires IsToy(s) { s[32..40] }

  function WithState(s: Memory, st: Bytes): Memory requires IsToy(s) && |st| == 8 { st + s[8..] }

  function Marked(s: Memory): Memory requires IsToy(s) { s[..32] + ONE + s[40..] }

  function WithRevert(s: Memory, hash: Bytes): Memory requires IsToy(s) && |hash| == 32 { s[..64] + hash + s[96..] }

  function StepOf(s: Memory): Memory {
    if !IsToy(s) || Cycle(s) != ZERO then s
    else if Advances(State(s)) then WithState(Marked(s), Processed(State(s)))
    else Marked(s)
  }

  function ResetOf(s: Memory): Memory {
    if IsToy(s) then s[..32] + ZEROS + s[64..] else s
  }

  ghost function HashOf(s: Memory): Bytes {
    if IsMemory(s, DEPTH) then MemoryRoot(MixHasher(), s, DEPTH) else ZEROS
  }

  ghost function FeedOf(s: Memory, verdict: byte): Memory {
    if IsToy(s) && Accepting(State(s)) && |HashOf(s)| == 32
    then WithState(WithRevert(s, HashOf(s)), Included(State(s), verdict)) else s
  }

  ghost function ExampleMachine(): Machine<Memory, Bytes, byte> {
    Machine(StepOf, ResetOf, FeedOf, HashOf, (s: Memory) => if IsToy(s) then s[64..96] else ZEROS,
            (s: Memory) => !IsToy(s) || (Busy(State(s)) && !Advances(State(s))),
            (s: Memory) => IsToy(s) && !Busy(State(s)), (s: Memory) => IsToy(s) && Accepting(State(s)),
            (s: Memory) => IsToy(s) && Rejected(State(s)), (s: Memory) => false, (d: byte) => true,
            (s: Memory) => !IsToy(s) || Cycle(s) != ZERO, (s: Memory) => if IsToy(s) then s[2] else 0,
            (s: Memory) => if IsToy(s) && Cycle(s) != ZERO then 1 else 0, UARCH_CYCLE_MAX,
            RollingGame.MCYCLES_PER_INPUT)
  }

  // ---------------------------------------------------------------------------------------------
  // The programs
  // ---------------------------------------------------------------------------------------------

  function StepProgram(): Program {
    Program((seen: seq<Bytes>) =>
              if |seen| == 0 then ReadWord(CYCLE)
              else if seen[0] != ZERO then Done
              else if |seen| == 1 then WriteWord(CYCLE, ONE)
              else if |seen| == 2 then ReadWord(0)
              else if |seen[2]| == 8 && Advances(seen[2]) then WriteWord(0, Processed(seen[2]))
              else Done, 4)
  }

  function ResetProgram(): Program {
    Program((seen: seq<Bytes>) =>
              if |seen| == 0 then WriteNode(CYCLE, 0, ZEROS)
              else if |seen| == 1 then ReadWord(0)
              else if Rejected(seen[1]) then Revert(REVERT)
              else Done, 3)
  }

  function SendProgram(verdict: byte, revert: Bytes): Program {
    Program((seen: seq<Bytes>) =>
              if |seen| == 0 then ReadWord(0)
              else if |seen[0]| != 8 || !Accepting(seen[0]) then Done
              else if |seen| == 1 then WriteNode(REVERT, 0, if |revert| == 32 then revert else ZEROS)
              else WriteWord(0, Included(seen[0], verdict)), 3)
  }

  function ExampleCode(): Code<Bytes, byte> {
    Code(StepProgram(), ResetProgram(), (d: byte, t: Bytes) => SendProgram(d, t), DEPTH)
  }

  /** The verifiers of the source: the replay alone, without a check of paths. */
  ghost function ExampleVerifier(): RollingGame.Verifier<Bytes, byte, Log<Bytes>> {
    ProgramsAllFit();
    RollingGame.Verifier((root: Bytes, d: byte, t: Bytes, log: Log<Bytes>) =>
                  if Fits(SendProgram(d, t), DEPTH)
                  then Verified(MixHasher(), SendProgram(d, t), root, log, DEPTH, false)
                  else None,
                (root: Bytes, log: Log<Bytes>) => Verified(MixHasher(), StepProgram(), root, log, DEPTH, false),
                (root: Bytes, log: Log<Bytes>) => Verified(MixHasher(), ResetProgram(), root, log, DEPTH, false))
  }

  lemma Layout()
    ensures Pow2(0) == 1 && Pow2(1) == 2 && Pow2(2) == 4 && Span(0) == 32 && Span(2) == 128
    ensures NodeIndex(0, 0) == 0 && NodeIndex(CYCLE, 0) == 1 && NodeIndex(REVERT, 0) == 2
    ensures BlockStart(0, 0) == 0 && BlockStart(0, 1) == 32 && BlockStart(0, 2) == 64
    ensures AddressInTree(DEPTH, 0, 0) && AddressInTree(DEPTH, 0, CYCLE) && AddressInTree(DEPTH, 0, REVERT)
    ensures Offset(0) == 0 && Offset(CYCLE) == 0
  {
  }

  lemma ProgramsAllFit()
    ensures Fits(StepProgram(), DEPTH) && Fits(ResetProgram(), DEPTH)
  {
    Layout();
  }

  lemma SendFits(d: byte, t: Bytes)
    ensures Fits(SendProgram(d, t), DEPTH)
  {
    Layout();
  }

  lemma WordsOf(s: Memory)
    requires IsToy(s)
    ensures IsMemory(s, DEPTH)
    ensures AddressInTree(DEPTH, 0, 0) && AddressInTree(DEPTH, 0, CYCLE) && AddressInTree(DEPTH, 0, REVERT)
    ensures Load(s, DEPTH, 0) == State(s) && Load(s, DEPTH, CYCLE) == Cycle(s)
    ensures NodeAt(s, DEPTH, 0, REVERT) == s[64..96]
    ensures Store(s, DEPTH, CYCLE, ONE) == Marked(s)
    ensures Span(0) == 32 && StoreNode(s, DEPTH, 0, CYCLE, ZEROS) == ResetOf(s)
  {
    Layout();
    hide Pow2, Span, BlockStart, NodeIndex, Offset;
  }

  lemma StoresOf(s: Memory, st: Bytes, hash: Bytes)
    requires IsToy(s) && |st| == 8 && |hash| == 32
    ensures IsMemory(s, DEPTH) && AddressInTree(DEPTH, 0, 0) && AddressInTree(DEPTH, 0, REVERT) && Span(0) == 32
    ensures Store(s, DEPTH, 0, st) == WithState(s, st)
    ensures StoreNode(s, DEPTH, 0, REVERT, hash) == WithRevert(s, hash)
  {
    Layout();
    hide Pow2, Span, BlockStart, NodeIndex, Offset;
  }

  lemma ToysAreMemories(s: Memory)
    ensures IsMemory(s, DEPTH) <==> IsToy(s)
  {
    Layout();
  }

  lemma HashIs32Bytes(s: Memory)
    ensures |HashOf(s)| == 32
  {
    hide IsMemory;
    if IsMemory(s, DEPTH) {
      var h, leaves := MixHasher(), LeafHashes(MixHasher(), s, DEPTH);
      hide LeafHashes;
      assert Node(h, ZeroWordHash(h), leaves, 2, 0)
          == Mix(Node(h, ZeroWordHash(h), leaves, 1, 0), Node(h, ZeroWordHash(h), leaves, 1, 1));
    }
  }

  lemma StepAsks(c: Bytes, st: Bytes, next: Bytes)
    requires |st| == 8
    ensures var p := StepProgram();
            && p.Next([]) == ReadWord(CYCLE)
            && p.Next([c]) == (if c == ZERO then WriteWord(CYCLE, ONE) else Done)
            && (c == ZERO ==> p.Next([c, ONE]) == ReadWord(0))
            && (c == ZERO ==> p.Next([c, ONE, st]) == if Advances(st) then WriteWord(0, Processed(st)) else Done)
            && p.Next([c, ONE, st, next]) == Done
  {
  }

  lemma StepRuns(s: Memory)
    requires IsToy(s)
    ensures IsMemory(s, DEPTH) && Fits(StepProgram(), DEPTH)
    ensures AccessReplay.Run(StepProgram(), s, DEPTH, []) == Final(StepOf(s), None)
  {
    ProgramsAllFit();
    WordsOf(s);
    var p, c, st := StepProgram(), Cycle(s), State(s);
    StepAsks(c, st, st);
    hide Load, Store, IsMemory, AddressInTree, Fits, StepProgram, AccessReplay.Run, Program.Next;
    RunRead(p, s, DEPTH, [], CYCLE);
    assert [] + [c] == [c];
    if c == ZERO {
      RunWrite(p, s, DEPTH, [c], CYCLE, ONE);
      assert [c] + [ONE] == [c, ONE];
      StepProcesses(s, c, st);
    } else {
      RunDone(p, s, DEPTH, [c]);
    }
  }

  lemma StepProcesses(s: Memory, c: Bytes, st: Bytes)
    requires IsToy(s) && c == Cycle(s) == ZERO && st == State(s)
    ensures IsMemory(Marked(s), DEPTH) && Fits(StepProgram(), DEPTH)
    ensures AccessReplay.Run(StepProgram(), Marked(s), DEPTH, [c, ONE]) == Final(StepOf(s), None)
  {
    ProgramsAllFit();
    var p, s1 := StepProgram(), Marked(s);
    WordsOf(s1);
    assert State(s1) == st;
    var next := if Advances(st) then Processed(st) else st;
    StepAsks(c, st, next);
    StoresOf(s1, next, ZEROS);
    hide Load, Store, IsMemory, AddressInTree, Fits, StepProgram, AccessReplay.Run, Program.Next, Processed;
    RunRead(p, s1, DEPTH, [c, ONE], 0);
    assert [c, ONE] + [st] == [c, ONE, st];
    if Advances(st) {
      RunWrite(p, s1, DEPTH, [c, ONE, st], 0, next);
      assert [c, ONE, st] + [next] == [c, ONE, st, next];
      WordsOf(WithState(s1, next));
      RunDone(p, WithState(s1, next), DEPTH, [c, ONE, st, next]);
    } else {
      RunDone(p, s1, DEPTH, [c, ONE, st]);
    }
  }

  lemma ResetAsks(st: Bytes)
    ensures var p := ResetProgram();
            && p.Next([]) == WriteNode(CYCLE, 0, ZEROS) && p.Next([ZEROS]) == ReadWord(0)
            && p.Next([ZEROS, st]) == if Rejected(st) then Revert(REVERT) else Done
  {
  }

  lemma ResetRuns(s: Memory)
    requires IsToy(s)
    ensures IsMemory(s, DEPTH) && Fits(ResetProgram(), DEPTH)
    ensures AccessReplay.Run(ResetProgram(), s, DEPTH, [])
         == Final(ResetOf(s), if Rejected(State(s)) then Some(s[64..96]) else None)
  {
    ProgramsAllFit();
    WordsOf(s);
    ResetAsks(State(s));
    ResetReverts(s);
    hide Load, StoreNode, NodeAt, IsMemory, AddressInTree, Fits, ResetProgram, AccessReplay.Run, Program.Next, ResetOf,
         Rejected, State;
    RunNode(ResetProgram(), s, DEPTH, [], CYCLE, 0, ZEROS);
    assert [] + [ZEROS] == [ZEROS];
  }

  /** After its node write the reset reverts once the input is rejected. */
  lemma ResetReverts(s: Memory)
    requires IsToy(s)
    ensures IsMemory(ResetOf(s), DEPTH) && Fits(ResetProgram(), DEPTH)
    ensures AccessReplay.Run(ResetProgram(), ResetOf(s), DEPTH, [ZEROS])
         == Final(ResetOf(s), if Rejected(State(s)) then Some(s[64..96]) else None)
  {
    ProgramsAllFit();
    var p, r, st := ResetProgram(), ResetOf(s), State(s);
    WordsOf(r);
    ResetAsks(st);
    assert State(r) == st && r[64..96] == s[64..96];
    hide Load, StoreNode, NodeAt, IsMemory, AddressInTree, Fits, ResetProgram, AccessReplay.Run, Program.Next, ResetOf,
         Rejected, State;
    RunRead(p, r, DEPTH, [ZEROS], 0);
    assert [ZEROS] + [st] == [ZEROS, st];
    if Rejected(st) {
      RunRevert(p, r, DEPTH, [ZEROS, st], REVERT);
    } else {
      RunDone(p, r, DEPTH, [ZEROS, st]);
    }
  }

  lemma SendAsks(d: byte, t: Bytes, st: Bytes)
    requires |st| == 8 && |t| == 32
    ensures var p := SendProgram(d, t);
            && p.Next([]) == ReadWord(0)
            && p.Next([st]) == (if Accepting(st) then WriteNode(REVERT, 0, t) else Done)
            && (Accepting(st) ==> p.Next([st, t]) == WriteWord(0, Included(st, d))
                                  && p.Next([st, t, Included(st, d)]) == Done)
  {
  }

  lemma SendRuns(s: Memory, d: byte)
    requires IsToy(s)
    ensures IsMemory(s, DEPTH) && Fits(SendProgram(d, HashOf(s)), DEPTH)
    ensures AccessReplay.Run(SendProgram(d, HashOf(s)), s, DEPTH, []) == Final(FeedOf(s, d), None)
  {
    var t, st := HashOf(s), State(s);
    var p := SendProgram(d, t);
    HashIs32Bytes(s);
    SendFits(d, t);
    SendAsks(d, t, st);
    WordsOf(s);
    if Accepting(st) {
      SendIncludes(s, d, t);
    }
    hide HashOf, Load, IsMemory, AddressInTree, Fits, SendProgram, AccessReplay.Run, Program.Next, Accepting;
    RunRead(p, s, DEPTH, [], 0);
    assert [] + [st] == [st];
    if !Accepting(st) {
      RunDone(p, s, DEPTH, [st]);
    }
  }

  lemma SendIncludes(s: Memory, d: byte, t: Bytes)
    requires IsToy(s) && Accepting(State(s)) && |t| == 32
    ensures IsMemory(s, DEPTH) && Fits(SendProgram(d, t), DEPTH)
    ensures AccessReplay.Run(SendProgram(d, t), s, DEPTH, [State(s)])
         == Final(WithState(WithRevert(s, t), Included(State(s), d)), None)
  {
    var p, st := SendProgram(d, t), State(s);
    var s1, next := WithRevert(s, t), Included(st, d);
    SendFits(d, t);
    SendAsks(d, t, st);
    StoresOf(s, st, t);
    StoresOf(s1, next, t);
    WordsOf(WithState(s1, next));
    hide Store, StoreNode, IsMemory, AddressInTree, Fits, SendProgram, AccessReplay.Run, Program.Next, Included;
    RunNode(p, s, DEPTH, [st], REVERT, 0, t);
    assert [st] + [t] == [st, t];
    RunWrite(p, s1, DEPTH, [st, t], 0, next);
    assert [st, t] + [next] == [st, t, next];
    RunDone(p, WithState(s1, next), DEPTH, [st, t, next]);
  }

  // ---------------------------------------------------------------------------------------------
  // The promises
  // ---------------------------------------------------------------------------------------------

  lemma FieldsOf(s: Memory, d: byte)
    ensures var m := ExampleMachine();
            m.step(s) == StepOf(s) && m.reset(s) == ResetOf(s) && m.feed(s, d) == FeedOf(s, d) && m.hash(s) == HashOf(s)
  {
    hide StepOf, ResetOf, FeedOf, HashOf;
  }

  lemma MachineRunsPrograms()
    ensures RunsPrograms(ExampleMachine(), MixHasher(), ExampleCode())
  {
    hide AccessReplay.Run, MemoryRoot, StepProgram, ResetProgram, SendProgram, Fits, StepOf, ResetOf, FeedOf, IsMemory,
         IsToy, ExampleMachine, MixHasher, Rejected, State;
    ProgramsAllFit();
    var m := ExampleMachine();
    forall mem: Memory | IsMemory(mem, DEPTH)
      ensures AccessReplay.Run(StepProgram(), mem, DEPTH, []) == Final(m.step(mem), None)
      ensures AccessReplay.Run(ResetProgram(), mem, DEPTH, []).mem == m.reset(mem)
      ensures m.hash(mem) == MemoryRoot(MixHasher(), mem, DEPTH)
    {
      ToysAreMemories(mem);
      FieldsOf(mem, 0);
      StepRuns(mem);
      ResetRuns(mem);
    }
  }

  lemma MachineRunsEpoch()
    ensures RunsEpoch(ExampleMachine(), MixHasher(), ExampleCode())
  {
    hide AccessReplay.Run, MemoryRoot, StepProgram, ResetProgram, SendProgram, Fits, StepOf, ResetOf, FeedOf, IsMemory,
         IsToy, RunsPrograms, RollingGame.ResetHash, RootOf, HashOf, MixHasher;
    MachineRunsPrograms();
    ProgramsAllFit();
    var m, h := ExampleMachine(), MixHasher();
    forall mem: Memory, d: byte | IsMemory(mem, DEPTH)
      ensures Fits(SendProgram(d, m.hash(mem)), DEPTH)
      ensures AccessReplay.Run(SendProgram(d, m.hash(mem)), mem, DEPTH, []) == Final(m.feed(mem, d), None)
    {
      ToysAreMemories(mem);
      SendRuns(mem, d);
    }
    forall mem: Memory | IsMemory(mem, DEPTH)
      ensures RootOf(h, AccessReplay.Run(ResetProgram(), mem, DEPTH, []), DEPTH) == RollingGame.ResetHash(m, mem)
    {
      ToysAreMemories(mem);
      ResetRuns(mem);
      ResetRoot(mem);
    }
  }

  lemma ResetRoot(s: Memory)
    requires IsToy(s)
    ensures IsMemory(ResetOf(s), DEPTH)
    ensures RootOf(MixHasher(), Final(ResetOf(s), if Rejected(State(s)) then Some(s[64..96]) else None), DEPTH)
         == RollingGame.ResetHash(ExampleMachine(), s)
  {
    hide MemoryRoot, IsMemory;
    var r := ResetOf(s);
    ToysAreMemories(r);
    assert State(r) == State(s) && r[64..96] == s[64..96];
  }

  lemma VerifierReplays()
    ensures VerifiesInputs(ExampleVerifier(), MixHasher(), ExampleCode(), false)
  {
    hide Verified, StepProgram, ResetProgram, SendProgram, Fits;
    ProgramsAllFit();
    forall d: byte, t: Bytes
      ensures Fits(SendProgram(d, t), DEPTH)
    {
      SendFits(d, t);
    }
  }

  lemma {:induction false} StepsOnce(s: Memory, n: nat)
    requires n > 0
    ensures Steps(ExampleMachine(), s, n) == StepOf(s)
  {
    if n > 1 {
      StepsOnce(s, n - 1);
      StepTwice(s);
    } else {
      assert Steps(ExampleMachine(), s, 0) == s;
    }
  }

  /** After its first step the uarch has halted. */
  lemma StepTwice(s: Memory)
    ensures StepOf(StepOf(s)) == StepOf(s)
    ensures IsToy(s) && Cycle(s) == ZERO ==> IsToy(StepOf(s)) && Cycle(StepOf(s)) == ONE
  {
  }

  lemma OneInstruction(s: Memory)
    ensures Instruction(ExampleMachine(), s) == ResetOf(StepOf(s))
  {
    hide StepOf;
    StepsOnce(s, UARCH_CYCLE_MAX);
  }

  /** What one instruction does to a machine with a pristine uarch. */
  lemma InstructionOf(s: Memory)
    requires ResetOf(s) == s
    ensures ResetOf(StepOf(s))
         == if IsToy(s) && Advances(State(s)) then WithState(s, Processed(State(s))) else s
  {
    if IsToy(s) {
      assert s[32..64] == ZEROS;
      assert Cycle(s) == ZERO;
    }
  }

  lemma InstructionsAreCounted()
    ensures InstructionsCount(ExampleMachine())
  {
    hide Instruction, HashOf, StepOf, ResetOf, FeedOf;
    var m := ExampleMachine();
    forall s: Memory {:trigger Instruction(m, s)} | m.Pristine(s)
      ensures if m.Stopped(s) then Instruction(m, s) == s else m.mcycle(Instruction(m, s)) == m.mcycle(s) + 1
    {
      OneInstruction(s);
      InstructionOf(s);
    }
  }

  lemma FeedsAreRecorded()
    ensures FeedRecords(ExampleMachine())
  {
    hide Instruction, HashOf, StepOf, ResetOf, FeedOf;
    var m := ExampleMachine();
    forall s: Memory {:trigger Instruction(m, s)} | m.Pristine(s)
      ensures m.revertHash(Instruction(m, s)) == m.revertHash(s)
    {
      OneInstruction(s);
      InstructionOf(s);
    }
    forall s: Memory, d: byte
      ensures if m.CanSend(s, d) then m.revertHash(m.feed(s, d)) == m.hash(s) else m.feed(s, d) == s
      ensures m.mcycle(m.feed(s, d)) == m.mcycle(s) && (m.Pristine(s) ==> m.Pristine(m.feed(s, d)))
    {
      FeedingOf(s, d);
    }
  }

  lemma PromisesAreKept()
    ensures IsRolling(ExampleMachine())
  {
    hide InstructionsCount, StepsCount, FeedRecords;
    InstructionsAreCounted();
    CyclesCount();
    FeedsAreRecorded();
  }

  lemma CyclesCount()
    ensures StepsCount(ExampleMachine())
  {
    var m := ExampleMachine();
    hide HashOf, FeedOf;
    forall s: Memory
      ensures if m.uarchHalted(s) then m.step(s) == s else m.uarchCycle(m.step(s)) == m.uarchCycle(s) + 1
      ensures m.uarchCycle(m.reset(s)) == 0 && m.Pristine(m.reset(s))
    {
      StepTwice(s);
      ResetTwice(s);
    }
  }

  lemma ResetTwice(s: Memory)
    ensures ResetOf(ResetOf(s)) == ResetOf(s) && (IsToy(s) ==> IsToy(ResetOf(s)) && Cycle(ResetOf(s)) == ZERO)
  {
  }

  lemma FeedLayout(s: Memory, st: Bytes, hash: Bytes)
    requires IsToy(s) && |st| == 8 && |hash| == 32
    ensures var r := WithState(WithRevert(s, hash), st);
            IsToy(r) && r[64..96] == hash && r[32..64] == s[32..64] && State(r) == st && r[2] == st[2]
  {
  }

  lemma FeedingOf(s: Memory, d: byte)
    ensures if IsToy(s) && Accepting(State(s)) then IsToy(FeedOf(s, d)) && FeedOf(s, d)[64..96] == HashOf(s)
            else FeedOf(s, d) == s
    ensures IsToy(s) ==> FeedOf(s, d)[2] == s[2]
    ensures ResetOf(s) == s ==> ResetOf(FeedOf(s, d)) == FeedOf(s, d)
    ensures IsToy(s) && Busy(State(FeedOf(s, d))) && !Busy(State(s)) ==> Advances(State(FeedOf(s, d)))
  {
    HashIs32Bytes(s);
    hide HashOf;
    if IsToy(s) && Accepting(State(s)) {
      FeedLayout(s, Included(State(s), d), HashOf(s));
    }
  }

  /** One instruction is enough for an input. */
  lemma InputIsDone(b: Memory, data: Option<byte>, n: nat)
    requires n > 0 && IsBoundary(ExampleMachine(), b) && IsToy(b)
    ensures ExampleMachine().Stopped(Instructions(ExampleMachine(), Fed(ExampleMachine(), b, data), n))
    ensures IsToy(Instructions(ExampleMachine(), Fed(ExampleMachine(), b, data), n))
  {
    hide HashOf, StepOf, ResetOf, FeedOf, InstructionsCount, StepsCount, FeedRecords;
    var m, fed := ExampleMachine(), Fed(ExampleMachine(), b, data);
    PromisesAreKept();
    if data.Some? {
      FeedingOf(b, data.value);
    }
    FedIsPristine(m, b, data);
    OneInstruction(fed);
    InstructionOf(fed);
    NoInstructions(m, fed);
    assert Instructions(m, fed, 1) == Instruction(m, Instructions(m, fed, 0));
    StoppedStays(m, fed, 1, n);
  }

  lemma {:induction false} BoundaryIsToy(inputs: seq<byte>, i: nat)
    ensures var b := Boundary(ExampleMachine(), START, inputs, i);
            IsBoundary(ExampleMachine(), b) && IsToy(b)
  {
    hide IsRolling, Instructions, IsBoundary, HashOf, FeedOf, StepOf;
    var m := ExampleMachine();
    PromisesAreKept();
    if i > 0 {
      var b, data := Boundary(m, START, inputs, i - 1), DataOf(inputs, i - 1);
      BoundaryIsToy(inputs, i - 1);
      InputIsDone(b, data, RollingGame.MCYCLES_PER_INPUT);
      InputEndsAtBoundary(m, b, data);
    } else {
      StartIsBoundary();
    }
  }

  lemma StartIsBoundary()
    ensures IsBoundary(ExampleMachine(), START) && IsToy(START)
  {
    assert ResetOf(START) == START;
  }

  /** Everything the rolling game assumes of a machine over its memory holds together, for all inputs. */
  lemma AssumptionsHoldTogether(inputs: seq<byte>)
    ensures var m, v, h, code := ExampleMachine(), ExampleVerifier(), MixHasher(), ExampleCode();
            && RunsEpoch(m, h, code) && VerifiesInputs(v, h, code, false) && IsMemory(START, DEPTH)
            && IsRolling(m) && IsEpoch(m, START, inputs)
            && m.uarchCycles == UARCH_CYCLE_MAX && m.mcyclesPerInput == RollingGame.MCYCLES_PER_INPUT
  {
    hide IsRolling, Boundary, Instructions, RunsEpoch, VerifiesInputs, HashOf, FeedOf, StepOf, ResetOf, IsMemory;
    PromisesAreKept();
    MachineRunsEpoch();
    VerifierReplays();
    StartIsBoundary();
    ToysAreMemories(START);
    var m := ExampleMachine();
    forall i: nat | i < |inputs|
      ensures m.Stopped(Instructions(m, Fed(m, Boundary(m, START, inputs, i), DataOf(inputs, i)), m.mcyclesPerInput))
    {
      BoundaryIsToy(inputs, i);
      InputIsDone(Boundary(m, START, inputs, i), DataOf(inputs, i), RollingGame.MCYCLES_PER_INPUT);
    }
    StartIsPristine();
  }

  lemma StartIsPristine()
    ensures var m := ExampleMachine(); m.Stopped(START) && !m.rejected(START) && m.Pristine(START)
  {
    StartIsBoundary();
  }
}
