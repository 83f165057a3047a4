/**
  A machine of two words that meets everything the verification game assumes, with the real cycle constants
  and a hash without collisions: a step marks the second word and, the first time, the first one; a reset
  clears the second with a write of a node. It halts after one instruction.
 */
module GameExample {
  import opened Merkle
  import opened Emulator
  import opened Bisection
  import opened VerificationGame
  import opened HaltingPlayer
  import opened MemoryTree
  import opened AccessReplay
  import opened ReplaySoundness
  import opened MemoryMachine
  import opened GameResult

  /** Hashes that are the trees of what was hashed. */
  datatype Free = Word(data: Bytes) | Pair(left: Free, right: Free)

  function FreeHasher(): Hasher<Free> {
    Hasher((data: Bytes) => Word(data), (l: Free, r: Free) => Pair(l, r), (word: Bytes) => Word(word))
  }

  lemma FreeNeverClashes(c: Clash<Free>)
    ensures !Clashes(FreeHasher(), c)
  {
  }

  const DEPTH: nat := 1
  const SECOND: nat := 32
  const ZERO: Bytes := [0, 0, 0, 0, 0, 0, 0, 0]
  const ONE: Bytes := [1, 0, 0, 0, 0, 0, 0, 0]
  const ZEROS: Bytes := Repeat<byte>(0, 32)
  const START: Memory := Repeat<byte>(0, 64)

  function StepProgram(): Program {
    Program((seen: seq<Bytes>) =>
              if |seen| == 0 then ReadWord(SECOND)
              else if seen[0] != ZERO then Done
              else if |seen| == 1 then WriteWord(SECOND, ONE)
              else if |seen| == 2 then ReadWord(0)
              else if seen[2] == ZERO then WriteWord(0, ONE)
              else Done, 4)
  }

  function ResetProgram(): Program {
    Program((seen: seq<Bytes>) => WriteNode(SECOND, 0, ZEROS), 1)
  }

  /** The two words as slices of the memory. */
  predicate IsToy(s: Memory) { |s| == 64 }

  function First(s: Memory): Bytes requires IsToy(s) { s[..8] }

  function Second(s: Memory): Bytes requires IsToy(s) { s[32..40] }

  function StepOf(s: Memory): Memory {
    if !IsToy(s) || Second(s) != ZERO then s
    else if First(s) == ZERO then ONE + s[8..32] + ONE + s[40..]
    else s[..32] + ONE + s[40..]
  }

  function ResetOf(s: Memory): Memory {
    if IsToy(s) then s[..32] + ZEROS else s
  }

  ghost function ExampleMachine(): Machine<Memory, Free, ()> {
    Machine(StepOf, ResetOf, (s: Memory, d: ()) => s,
            (s: Memory) => if IsMemory(s, DEPTH) then MemoryRoot(FreeHasher(), s, DEPTH) else Word([]),
            (s: Memory) => Word([]),
            (s: Memory) => !IsToy(s) || First(s) != ZERO, (s: Memory) => false, (s: Memory) => false,
            (s: Memory) => false,
            (s: Memory) => false, (d: ()) => false,
            (s: Memory) => !IsToy(s) || Second(s) != ZERO,
            (s: Memory) => if IsToy(s) && First(s) != ZERO then 1 else 0,
            (s: Memory) => if IsToy(s) && Second(s) != ZERO then 1 else 0, UARCH_CYCLE_MAX, 1)
  }

  ghost function ExampleVerifier(): Verifier<Free, Log<Free>> {
    ProgramsFit();
    Verifier((root: Free, log: Log<Free>) => Verified(FreeHasher(), StepProgram(), root, log, DEPTH, true),
             (root: Free, log: Log<Free>) => Verified(FreeHasher(), ResetProgram(), root, log, DEPTH, true))
  }

  function ExampleCode(): Code<Free, ()> {
    Code(StepProgram(), ResetProgram(), (d: (), t: Free) => StepProgram(), DEPTH)
  }

  // ---------------------------------------------------------------------------------------------
  // The programs
  // ---------------------------------------------------------------------------------------------

  lemma Layout()
    ensures Pow2(0) == 1 && Pow2(1) == 2 && Span(0) == 32 && Span(1) == 64
    ensures NodeIndex(0, 0) == 0 && NodeIndex(SECOND, 0) == 1
    ensures BlockStart(0, 0) == 0 && BlockStart(0, 1) == 32
    ensures AddressInTree(DEPTH, 0, 0) && AddressInTree(DEPTH, 0, SECOND)
    ensures Offset(0) == 0 && Offset(SECOND) == 0
  {
  }

  lemma ProgramsFit()
    ensures Fits(StepProgram(), DEPTH) && Fits(ResetProgram(), DEPTH)
  {
    Layout();
  }

  lemma WordsOf(s: Memory)
    requires IsToy(s)
    ensures IsMemory(s, DEPTH) && AddressInTree(DEPTH, 0, 0) && AddressInTree(DEPTH, 0, SECOND)
    ensures Load(s, DEPTH, 0) == First(s) && Load(s, DEPTH, SECOND) == Second(s)
    ensures Store(s, DEPTH, 0, ONE) == ONE + s[8..]
    ensures Store(s, DEPTH, SECOND, ONE) == s[..32] + ONE + s[40..]
    ensures StoreNode(s, DEPTH, 0, SECOND, ZEROS) == s[..32] + ZEROS
  {
    Layout();
    hide Pow2, Span, BlockStart, NodeIndex, Offset;
  }

  /** What the step program asks for after the data it has seen. */
  lemma StepAsks(c: Bytes, w: Bytes)
    ensures var p := StepProgram();
            && p.Next([]) == ReadWord(SECOND)
            && p.Next([c]) == (if c == ZERO then WriteWord(SECOND, ONE) else Done)
            && (c == ZERO ==> p.Next([c, ONE]) == ReadWord(0))
            && (c == ZERO ==> p.Next([c, ONE, w]) == if w == ZERO then WriteWord(0, ONE) else Done)
            && p.Next([c, ONE, w, ONE]) == Done
  {
  }

  lemma StepRuns(s: Memory)
    requires IsToy(s)
    ensures IsMemory(s, DEPTH) && Fits(StepProgram(), DEPTH)
    ensures AccessReplay.Run(StepProgram(), s, DEPTH, []) == Final(StepOf(s), None)
  {
    ProgramsFit();
    WordsOf(s);
    var p, c, w := StepProgram(), Second(s), First(s);
    StepAsks(c, w);
    hide Load, Store, IsMemory, AddressInTree, Fits, StepProgram, AccessReplay.Run, Program.Next;
    RunRead(p, s, DEPTH, [], SECOND);
    assert [] + [c] == [c];
    if c == ZERO {
      RunWrite(p, s, DEPTH, [c], SECOND, ONE);
      assert [c] + [ONE] == [c, ONE];
      StepMarksFirst(s, p, c, w);
    } else {
      RunDone(p, s, DEPTH, [c]);
    }
  }

  lemma StepMarksFirst(s: Memory, p: Program, c: Bytes, w: Bytes)
    requires IsToy(s) && p == StepProgram() && c == Second(s) == ZERO && w == First(s)
    ensures var s1 := s[..32] + ONE + s[40..];
            && IsMemory(s1, DEPTH) && Fits(p, DEPTH)
            && AccessReplay.Run(p, s1, DEPTH, [c, ONE]) == Final(StepOf(s), None)
  {
    ProgramsFit();
    StepAsks(c, w);
    var s1 := s[..32] + ONE + s[40..];
    var s2 := ONE + s1[8..];
    WordsOf(s1);
    WordsOf(s2);
    assert First(s1) == w;
    hide Load, Store, IsMemory, AddressInTree, Fits, StepProgram, AccessReplay.Run, Program.Next;
    RunRead(p, s1, DEPTH, [c, ONE], 0);
    assert [c, ONE] + [w] == [c, ONE, w];
    if w == ZERO {
      RunWrite(p, s1, DEPTH, [c, ONE, w], 0, ONE);
      assert [c, ONE, w] + [ONE] == [c, ONE, w, ONE];
      RunDone(p, s2, DEPTH, [c, ONE, w, ONE]);
      assert s2 == StepOf(s);
    } else {
      RunDone(p, s1, DEPTH, [c, ONE, w]);
    }
  }

  lemma ResetRuns(s: Memory)
    requires IsToy(s)
    ensures IsMemory(s, DEPTH) && Fits(ResetProgram(), DEPTH)
    ensures AccessReplay.Run(ResetProgram(), s, DEPTH, []) == Final(ResetOf(s), None)
  {
    ProgramsFit();
    WordsOf(s);
    var p := ResetProgram();
    hide Load, Store, StoreNode, IsMemory, AddressInTree, Fits;
    assert [] + [ZEROS] == [ZEROS];
    assert p.Next([]) == WriteNode(SECOND, 0, ZEROS) && p.Next([ZEROS]) == Done;
    WordsOf(ResetOf(s));
    assert AccessReplay.Run(p, s, DEPTH, []) == AccessReplay.Run(p, ResetOf(s), DEPTH, [ZEROS]);
  }

  lemma ToysAreMemories(s: Memory)
    ensures IsMemory(s, DEPTH) <==> IsToy(s)
  {
    Layout();
  }

  lemma MachineRunsPrograms()
    ensures RunsPrograms(ExampleMachine(), FreeHasher(), ExampleCode())
  {
    hide AccessReplay.Run, MemoryRoot, StepProgram, ResetProgram;
    ProgramsFit();
    var m := ExampleMachine();
    forall mem: Memory | IsMemory(mem, DEPTH)
      ensures AccessReplay.Run(StepProgram(), mem, DEPTH, []) == Final(m.step(mem), None)
      ensures AccessReplay.Run(ResetProgram(), mem, DEPTH, []).mem == m.reset(mem)
    {
      ToysAreMemories(mem);
      StepRuns(mem);
      ResetRuns(mem);
    }
  }

  lemma MachineNeverReverts(s: Memory)
    ensures Fits(ResetProgram(), DEPTH) && NeverReverts(ExampleMachine(), ExampleCode(), s)
  {
    hide AccessReplay.Run, StateAt;
    ProgramsFit();
    forall at: Position | IsMemory(StateAt(ExampleMachine(), s, at), DEPTH)
      ensures AccessReplay.Run(ResetProgram(), StateAt(ExampleMachine(), s, at), DEPTH, []).revert.None?
    {
      ToysAreMemories(StateAt(ExampleMachine(), s, at));
      ResetRuns(StateAt(ExampleMachine(), s, at));
    }
  }

  // ---------------------------------------------------------------------------------------------
  // The computation
  // ---------------------------------------------------------------------------------------------

  /** After its first step the uarch has halted. */
  lemma {:induction false} StepsOnce(s: Memory, n: nat)
    requires n > 0
    ensures Steps(ExampleMachine(), s, n) == StepOf(s)
  {
    if n > 1 {
      StepsOnce(s, n - 1);
    } else {
      assert Steps(ExampleMachine(), s, 0) == s;
    }
  }

  lemma OneInstruction(s: Memory)
    ensures Instruction(ExampleMachine(), s) == ResetOf(StepOf(s))
  {
    StepsOnce(s, UARCH_CYCLE_MAX);
  }

  lemma PromisesAreKept()
    ensures InstructionsCount(ExampleMachine()) && StepsCount(ExampleMachine())
  {
    var m := ExampleMachine();
    hide Instruction, MemoryRoot;
    forall s: Memory {:trigger Instruction(m, s)} | m.Pristine(s)
      ensures if m.Stopped(s) then Instruction(m, s) == s else m.mcycle(Instruction(m, s)) == m.mcycle(s) + 1
    {
      OneInstruction(s);
      InstructionOf(s);
    }
  }

  lemma InstructionOf(s: Memory)
    requires ResetOf(s) == s
    ensures !IsToy(s) || First(s) != ZERO ==> ResetOf(StepOf(s)) == s
    ensures IsToy(s) && First(s) == ZERO ==> IsToy(ResetOf(StepOf(s))) && First(ResetOf(StepOf(s))) == ONE
  {
    if IsToy(s) {
      assert s[32..] == ZEROS;
      assert Second(s) == ZERO;
      assert StepOf(s)[8..32] == s[8..32];
    }
  }

  lemma MachineComputes()
    ensures IsComputation(ExampleMachine(), START, 1)
    ensures HaltsAt(ExampleMachine(), START, 1) && !HaltsAt(ExampleMachine(), START, 0)
  {
    PromisesAreKept();
    var m := ExampleMachine();
    hide Instruction, InstructionsCount, StepsCount;
    assert ResetOf(START) == START;
    assert First(START) == ZERO;
    InstructionOf(START);
    OneInstruction(START);
    assert Instructions(m, START, 0) == START;
    var x := ResetOf(StepOf(START));
    assert Instructions(m, START, 1) == Instruction(m, START) == x;
    PristineBetween(m, START, 1);
    InstructionOf(x);
    OneInstruction(x);
  }

  lemma VerifierReplays()
    ensures VerifiesLogs(ExampleVerifier(), FreeHasher(), ExampleCode(), true)
  {
    hide Verified, StepProgram, ResetProgram, FreeHasher;
    ProgramsFit();
  }

  /** The verifiers are sound, since nothing clashes. */
  lemma VerifiersAreSound()
    ensures Sound(ExampleMachine(), ExampleVerifier(), START)
  {
    hide AccessReplay.Run, Verified, RunsPrograms, NeverReverts, Clashes, StateAt, RootOf, FreeHasher, Fits, IsMemory;
    MachineRunsPrograms();
    MachineNeverReverts(START);
    VerifierReplays();
    ToysAreMemories(START);
    var m, v, h, code := ExampleMachine(), ExampleVerifier(), FreeHasher(), ExampleCode();
    hide VerifiesLogs;
    forall at: Position, log: Log<Free>
      ensures var x := StateAt(m, START, at);
              && v.step(m.hash(x), log) in {None, Some(m.hash(m.step(x)))}
              && (at.uarchCycle == m.uarchCycles ==> v.reset(m.hash(x), log) in {None, Some(m.hash(m.reset(x)))})
    {
      var x := StateAt(m, START, at);
      StateIsMemory(m, h, code, START, at);
      var c := StepIsTrue(m, v, h, code, true, x, log);
      FreeNeverClashes(c);
      if at.uarchCycle == m.uarchCycles {
        ResetRootIsHash(m, h, code, START, at);
        var c' := ResetIsTrue(m, v, h, code, true, x, log);
        FreeNeverClashes(c');
      }
    }
  }

  /** Everything the verification game and its player assume holds together. */
  lemma AssumptionsHoldTogether()
    ensures var m, v, h, code := ExampleMachine(), ExampleVerifier(), FreeHasher(), ExampleCode();
            && IsMemory(START, DEPTH) && RunsPrograms(m, h, code) && VerifiesLogs(v, h, code, true)
            && NeverReverts(m, code, START)
            && Sound(m, v, START)
            && (exists logger: Logger<Memory, Log<Free>> :: Complete(m, v, logger, START))
            && HaltsAt(m, START, 1) && !HaltsAt(m, START, 0)
            && IsComputation(m, START, 1) && RunsThrough(m, START, 1)
  {
    hide Verified, RunsPrograms, NeverReverts, Sound, Complete, HaltsAt, IsComputation, Fits, FreeHasher, StepProgram,
         ResetProgram, LogOf;
    MachineRunsPrograms();
    MachineNeverReverts(START);
    MachineComputes();
    VerifiersAreSound();
    VerifierReplays();
    ProgramsFit();
    ToysAreMemories(START);
    var m, v, h, code := ExampleMachine(), ExampleVerifier(), FreeHasher(), ExampleCode();
    RecordIsComplete(m, v, h, code, true, START, false);
    assert Complete(m, v, Recorder(h, code, false), START);
  }

  // ---------------------------------------------------------------------------------------------
  // The whole game
  // ---------------------------------------------------------------------------------------------

  /** The first word as both drives; the computation of the empty expression leaves the line it was given. */
  const DRIVE: Drive := Drive(0, 5)
  const LINE: Memory := [NEWLINE] + Repeat<byte>(0, 63)

  lemma DriveLayout(s: Memory)
    requires IsToy(s)
    ensures IsMemory(s, DEPTH) && IsDrive(DRIVE, DEPTH) && Pow2(5) == 32 && Contents(s, DEPTH, DRIVE) == s[..32]
  {
    Layout();
    ToysAreMemories(s);
    assert Pow2(5) == 2 * Pow2(4) == 4 * Pow2(3) == 32;
    assert Height(5) == 0 && Shr(0, 5) == 0 by { ShrSmall(0, 5); }
    ContentsAreBytes(s, DEPTH, DRIVE);
  }

  lemma LineIsInstantiated()
    ensures IsMemory(START, DEPTH) && IsDrive(DRIVE, DEPTH) && PristineAfter(START, DEPTH, DRIVE, 1)
    ensures 1 <= Pow2(5) && Instantiated(START, DEPTH, DRIVE, []) == LINE && HoldsText(LINE, DEPTH, DRIVE)
  {
    DriveLayout(START);
    DriveLayout(LINE);
    hide IsMemory, IsDrive, Contents, Pow2;
    assert [] + [NEWLINE] == [NEWLINE];
    assert START[..32][1..] == Repeat<byte>(0, 31);
    var text := Text(LINE[..32]);
    assert LINE[..32][0] == NEWLINE && LINE[..32][1] == 0;
    assert LINE[..32][1..][0] == 0;
    assert Text(LINE[..32][1..]) == Some([]);
    assert LINE[..32][1..] == Repeat<byte>(0, 31);
  }

  lemma LineHalts()
    ensures HaltsAt(ExampleMachine(), LINE, 0) && Instructions(ExampleMachine(), LINE, 0) == LINE
  {
    hide Instruction;
    assert ResetOf(LINE) == LINE;
    assert First(LINE)[0] == NEWLINE;
    InstructionOf(LINE);
    OneInstruction(LINE);
  }

  /** So does everything the referee's guarantee asks for, and the honest player has a text to post. */
  lemma RefereeIsReady()
    ensures var m, v, h, code := ExampleMachine(), ExampleVerifier(), FreeHasher(), ExampleCode();
            && IsMemory(START, DEPTH) && IsDrive(DRIVE, DEPTH) && PristineAfter(START, DEPTH, DRIVE, 1)
            && 1 <= Pow2(DRIVE.log2Size) && Instantiated(START, DEPTH, DRIVE, []) == LINE
            && RunsPrograms(m, h, code) && VerifiesLogs(v, h, code, true) && NeverReverts(m, code, LINE)
            && HaltsAt(m, LINE, 0) && Instructions(m, LINE, 0) == LINE && HoldsText(LINE, DEPTH, DRIVE)
            && Honest(m, v, LINE, 0, HonestPlayer(m, Recorder(h, code, false), LINE, 0))
  {
    hide Verified, RunsPrograms, NeverReverts, Honest, HaltsAt, Fits, FreeHasher, StepProgram, ResetProgram,
         Instructions;
    MachineRunsPrograms();
    MachineNeverReverts(LINE);
    VerifierReplays();
    LineIsInstantiated();
    LineHalts();
    ToysAreMemories(LINE);
    RecordingPlayerIsHonest(ExampleMachine(), ExampleVerifier(), FreeHasher(), ExampleCode(), true, LINE, false, 0);
  }
}
