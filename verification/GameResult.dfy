/**
  The two ends of the verification game (doc/recipes/verification-game.lua): the root hash the computation
  starts from, which the referee obtains from the expression and a proof of the template's input drive, and
  the result, which the referee checks against the final hash it has accepted.
 */
module GameResult {
  import opened Merkle
  import opened Proofs
  import opened DataRoot
  import opened Emulator
  import opened Bisection
  import opened MemoryTree
  import opened ReplaySoundness
  import opened MemoryMachine
  import opened VerificationGame

  const NEWLINE: byte := 10

  /** An NVRAM drive. */
  datatype Drive = Drive(start: nat, log2Size: nat)

  /** A drive is an aligned power of two of bytes, so it is a node of the hash tree. */
  predicate IsDrive(d: Drive, depth: nat) {
    && WORD_LOG2_SIZE <= d.log2Size < 63
    && d.start % Pow2(d.log2Size) == 0
    && InTree(depth, Height(d.log2Size), Shr(d.start, d.log2Size))
  }

  function Contents(mem: Memory, depth: nat, d: Drive): (r: Bytes)
    requires IsMemory(mem, depth) && IsDrive(d, depth)
    ensures |r| == Span(Height(d.log2Size))
  {
    Block(mem, depth, Height(d.log2Size), Shr(d.start, d.log2Size))
  }

  function WriteDrive(mem: Memory, depth: nat, d: Drive, data: Bytes): (r: Memory)
    requires IsMemory(mem, depth) && IsDrive(d, depth) && |data| == Span(Height(d.log2Size))
    ensures IsMemory(r, depth)
  {
    WriteBlock(mem, depth, Height(d.log2Size), Shr(d.start, d.log2Size), data)
  }

  /** `write_memory` at the base of a drive. */
  function WriteBytes(mem: Memory, at: nat, data: Bytes): (r: Memory)
    requires at + |data| <= |mem|
    ensures |r| == |mem|
  {
    mem[..at] + data + mem[at + |data|..]
  }

  /** The data and zeros after it. */
  function Padded(data: Bytes, n: nat): (r: Bytes)
    requires |data| <= n
    ensures |r| == n
  {
    data + Repeat<byte>(0, n - |data|)
  }

  /** The string before the first zero byte; without one there is none (`string.unpack("z", ...)`). */
  function Text(data: Bytes): (r: Option<Bytes>)
    ensures r.Some? ==> |r.value| < |data| && data[..|r.value|] == r.value && data[|r.value|] == 0 && 0 !in r.value
    ensures r.None? ==> 0 !in data
  {
    if data == [] then None
    else if data[0] == 0 then Some([])
    else
      var rest := Text(data[1..]);
      if rest.Some? then Some([data[0]] + rest.value) else None
  }

  // ---------------------------------------------------------------------------------------------
  // Drives and their hashes
  // ---------------------------------------------------------------------------------------------

  lemma SpanOfDrive(d: Drive, depth: nat)
    requires IsDrive(d, depth)
    ensures Span(Height(d.log2Size)) == Pow2(d.log2Size)
    ensures BlockStart(Height(d.log2Size), Shr(d.start, d.log2Size)) == d.start
    ensures d.start + Pow2(d.log2Size) <= Span(depth)
    ensures ShiftedOne(d.log2Size) == Pow2(d.log2Size)
  {
    var k, q := Height(d.log2Size), Shr(d.start, d.log2Size);
    BlockFits(depth, k, q);
    ShrIsDivision(d.start, d.log2Size);
    SpanIsPower(k);
    hide Pow2, Shr, InTree, Span;
    ExactQuotient(d.start, Pow2(d.log2Size), q);
  }

  lemma SpanIsPower(k: nat)
    ensures Span(k) == Pow2(k + WORD_LOG2_SIZE)
  {
    PowersMultiply(WORD_LOG2_SIZE, k);
    assert Pow2(WORD_LOG2_SIZE) == WORD_SIZE;
  }

  lemma ExactQuotient(n: nat, d: nat, q: nat)
    requires d > 0 && n % d == 0 && q * d <= n < (q + 1) * d
    ensures q * d == n
  {
    var p := n / d;
    assert n == p * d;
    if p < q {
      Ordered(p, q, d);
    } else if q < p {
      Ordered(q, p, d);
    }
  }

  lemma Ordered(a: nat, b: nat, d: nat)
    requires a < b
    ensures (a + 1) * d <= b * d && (a + 1) * d == a * d + d
  {
  }

  /** The contents of a drive are the bytes from its start on. */
  lemma ContentsAreBytes(mem: Memory, depth: nat, d: Drive)
    requires IsMemory(mem, depth) && IsDrive(d, depth)
    ensures d.start + Pow2(d.log2Size) <= |mem|
    ensures Contents(mem, depth, d) == mem[d.start..d.start + Pow2(d.log2Size)]
  {
    SpanOfDrive(d, depth);
    hide Pow2, Span, BlockStart, Shr;
  }

  /** Both ways of hashing agree: `get_root_hash` of data is the hash of the node it lies in, zeros after it. */
  lemma DataRootIsDataHash<T>(h: Hasher<T>, data: Bytes, k: nat)
    requires |data| <= Span(k)
    ensures Root(h, ZeroWordHash(h), WordHashes(h, data), k) == DataHash(h, Padded(data, Span(k)), k)
  {
    hide Node, WordHashes, DataHash, Span;
    var x := Padded(data, Span(k));
    ZeroExtension(h, data, Span(k) - |data|, k);
    FullRootIsDataHash(h, x, k);
  }

  lemma FullRootIsDataHash<T>(h: Hasher<T>, x: Bytes, k: nat)
    requires |x| == Span(k)
    ensures Root(h, ZeroWordHash(h), WordHashes(h, x), k) == DataHash(h, x, k)
  {
    hide Node, DataHash, WordHashes;
    var z, s, s' := ZeroWordHash(h), WordHashes(h, x), LeafHashes(h, x, k);
    forall i: nat
      ensures At(s, z, i) == At(s', z, i)
    {
      WordAt(h, x, i);
      LeafAt(h, x, k, i);
    }
    NodeDependsOnBlock(h, z, s, z, s', k, 0);
    RootIsDataHash(h, x, k);
  }

  lemma LeafAt<T>(h: Hasher<T>, x: Bytes, k: nat, i: nat)
    requires IsMemory(x, k)
    ensures At(LeafHashes(h, x, k), ZeroWordHash(h), i) == h.Hash(Word(x, i))
  {
    if i < Pow2(k) {
      BlockFits(k, 0, i);
      assert Block(x, k, 0, i) == Word(x, i);
    } else {
      assert Word(x, i) == Repeat<byte>(0, WORD_SIZE);
    }
  }

  /** Different data of one height with the same hash exhibits a clash. */
  lemma {:induction false} DataBinds<T>(h: Hasher<T>, x: Bytes, y: Bytes, k: nat) returns (c: Clash<T>)
    requires |x| == |y| == Span(k) && DataHash(h, x, k) == DataHash(h, y, k)
    ensures x == y || Clashes(h, c)
    decreases k
  {
    c := NoClash;
    if k == 0 {
      c := Words(x, y);
    } else {
      var n := Span(k - 1);
      HalfSpan(k, 0);
      var a := (DataHash(h, x[..n], k - 1), DataHash(h, x[n..], k - 1));
      var b := (DataHash(h, y[..n], k - 1), DataHash(h, y[n..], k - 1));
      DataHashOfHalves(h, x, k);
      DataHashOfHalves(h, y, k);
      if a != b {
        c := Pairs(a, b);
      } else {
        hide DataHash, Span;
        c := DataBinds(h, x[..n], y[..n], k - 1);
        if !Clashes(h, c) {
          c := DataBinds(h, x[n..], y[n..], k - 1);
        }
        assert x == x[..n] + x[n..] && y == y[..n] + y[n..];
      }
    }
  }

  /** `get_proof` of a drive. */
  ghost function DriveProof<T>(h: Hasher<T>, mem: Memory, depth: nat, d: Drive): Proof<T>
    requires IsMemory(mem, depth) && IsDrive(d, depth)
  {
    Proof(d.start, d.log2Size, depth + WORD_LOG2_SIZE, DataHash(h, Contents(mem, depth, d), Height(d.log2Size)),
          MemoryRoot(h, mem, depth), PathSiblings(h, mem, depth, Height(d.log2Size), Shr(d.start, d.log2Size)))
  }

  /** Rolling any hash up the proof of a drive. */
  lemma DriveProofRolls<T>(h: Hasher<T>, mem: Memory, depth: nat, d: Drive, hash: T)
    requires IsMemory(mem, depth) && IsDrive(d, depth)
    ensures var k, q := Height(d.log2Size), Shr(d.start, d.log2Size);
            RollProof(h, DriveProof(h, mem, depth, d), hash)
            == Some(Roll(h, hash, q, PathSiblings(h, mem, depth, k, q)))
  {
    hide Roll, MemoryRoot, DataHash, Contents, Shr;
    var p := DriveProof(h, mem, depth, d);
    assert p.siblings[..|p.siblings|] == p.siblings;
  }

  // ---------------------------------------------------------------------------------------------
  // The initial hash
  // ---------------------------------------------------------------------------------------------

  /** What `new_referee` computes; an expression that does not fit in the drive is an error. */
  method InitialHash<T>(h: Hasher<T>, inputProof: Proof<T>, input: Drive, expression: Bytes) returns (r: Option<T>)
    ensures |expression| + 1 > ShiftedOne(input.log2Size) ==> r.None?
    ensures |expression| + 1 <= ShiftedOne(input.log2Size) ==>
              r == RollProof(h, inputProof, Root(h, ZeroWordHash(h), WordHashes(h, expression + [NEWLINE]),
                                                 Height(input.log2Size)))
  {
    var root := GetRootHash(h, expression + [NEWLINE], input.log2Size);
    if root.DoesNotFit? {
      return None;
    }
    r := RollHashUpTree(h, inputProof, root.hash);
  }

  /** The template with the expression written into its input drive, as the players instantiate it. */
  function Instantiated(template: Memory, depth: nat, input: Drive, expression: Bytes): (r: Memory)
    requires IsMemory(template, depth) && IsDrive(input, depth) && |expression| + 1 <= Pow2(input.log2Size)
    ensures IsMemory(r, depth)
  {
    ContentsAreBytes(template, depth, input);
    WriteBytes(template, input.start, expression + [NEWLINE])
  }

  /** The template's input drive is pristine where the expression does not reach. */
  predicate PristineAfter(template: Memory, depth: nat, input: Drive, n: nat)
    requires IsMemory(template, depth) && IsDrive(input, depth)
  {
    var bytes := Contents(template, depth, input);
    n <= |bytes| && bytes[n..] == Repeat<byte>(0, |bytes| - n)
  }

  lemma InstantiatedIff(template: Memory, depth: nat, input: Drive, expression: Bytes)
    requires IsMemory(template, depth) && IsDrive(input, depth) && |expression| + 1 <= Pow2(input.log2Size)
    ensures |expression| + 1 <= Span(Height(input.log2Size))
    ensures var n := Span(Height(input.log2Size));
            WriteDrive(template, depth, input, Padded(expression + [NEWLINE], n))
            == Instantiated(template, depth, input, expression)
            <==> PristineAfter(template, depth, input, |expression| + 1)
  {
    SpanOfDrive(input, depth);
    ContentsAreBytes(template, depth, input);
    hide Pow2, Span, BlockStart, Shr, Height, Contents;
    var n, data, at := Pow2(input.log2Size), expression + [NEWLINE], input.start;
    var x := WriteDrive(template, depth, input, Padded(data, n));
    var y := Instantiated(template, depth, input, expression);
    assert x == template[..at] + (data + Repeat<byte>(0, n - |data|)) + template[at + n..];
    assert y == template[..at] + data + template[at + |data|..];
    TailsDecide(template, at, data, n);
  }

  lemma TailsDecide(mem: Memory, at: nat, data: Bytes, n: nat)
    requires |data| <= n && at + n <= |mem|
    ensures mem[..at] + (data + Repeat<byte>(0, n - |data|)) + mem[at + n..] == mem[..at] + data + mem[at + |data|..]
            <==> mem[at..at + n][|data|..] == Repeat<byte>(0, n - |data|)
  {
    var zeros, tail := Repeat<byte>(0, n - |data|), mem[at..at + n][|data|..];
    var x := mem[..at] + (data + zeros) + mem[at + n..];
    var y := mem[..at] + data + mem[at + |data|..];
    assert y == mem[..at] + (data + tail) + mem[at + n..];
    assert x[at + |data|..at + n] == zeros && y[at + |data|..at + n] == tail;
  }

  /**
    The hash the referee starts from is that of the instantiated template exactly when the rest of the
    template's input drive is pristine.
   */
  lemma InitialHashIsTrueIff<T(!new)>(h: Hasher<T>, template: Memory, depth: nat, input: Drive, expression: Bytes)
    returns (c: Clash<T>)
    requires IsMemory(template, depth) && IsDrive(input, depth) && |expression| + 1 <= Pow2(input.log2Size)
    ensures var root := Root(h, ZeroWordHash(h), WordHashes(h, expression + [NEWLINE]), Height(input.log2Size));
            || (RollProof(h, DriveProof(h, template, depth, input), root)
                == Some(MemoryRoot(h, Instantiated(template, depth, input, expression), depth))
                <==> PristineAfter(template, depth, input, |expression| + 1))
            || Clashes(h, c)
    ensures PristineAfter(template, depth, input, |expression| + 1) ==>
              RollProof(h, DriveProof(h, template, depth, input),
                        Root(h, ZeroWordHash(h), WordHashes(h, expression + [NEWLINE]), Height(input.log2Size)))
              == Some(MemoryRoot(h, Instantiated(template, depth, input, expression), depth))
  {
    var k, q, data := Height(input.log2Size), Shr(input.start, input.log2Size), expression + [NEWLINE];
    InstantiatedIff(template, depth, input, expression);
    hide Roll, RollProof, MemoryRoot, DataHash, Node, Contents, WordHashes, WriteBlock, PathSiblings, Clashes,
         Instantiated, PristineAfter, Height, Shr, Span;
    DataRootIsDataHash(h, data, k);
    var padded := Padded(data, Span(k));
    DriveProofRolls(h, template, depth, input, DataHash(h, padded, k));
    WriteRolls(h, template, depth, k, q, padded);
    var x, y := WriteDrive(template, depth, input, padded), Instantiated(template, depth, input, expression);
    c := NoClash;
    if x != y && MemoryRoot(h, x, depth) == MemoryRoot(h, y, depth) {
      RootIsDataHash(h, x, depth);
      RootIsDataHash(h, y, depth);
      c := DataBinds(h, x, y, depth);
    }
  }

  // ---------------------------------------------------------------------------------------------
  // The result
  // ---------------------------------------------------------------------------------------------

  /** What a player posts: bytes, and a proof of the node they are said to fill. */
  datatype Submission<T> = Submission(value: Bytes, proof: Proof<T>)

  /** `Raised` is the failed assertion of `get_root_hash`, which nothing catches. */
  datatype Verdict = Accepted | Rejected | Raised

  predicate ProvesDrive<T(==)>(proof: Proof<T>, output: Drive, log2Root: nat, finalHash: T) {
    && proof.rootHash == finalHash && proof.log2RootSize == log2Root
    && proof.targetAddress == output.start && proof.log2TargetSize == output.log2Size
  }

  ghost function Judged<T>(h: Hasher<T>, output: Drive, log2Root: nat, s: Submission<T>, finalHash: T): Verdict {
    if !ProvesDrive(s.proof, output, log2Root, finalHash) then Rejected
    else if |s.value| > ShiftedOne(output.log2Size) then Raised
    else if s.value == [] then Rejected
    else if Root(h, ZeroWordHash(h), WordHashes(h, s.value), Height(output.log2Size)) != s.proof.targetHash
    then Rejected
    else if VerifySlice(h, s.proof) then Accepted
    else Rejected
  }

  method VerifyOutput<T(==)>(h: Hasher<T>, output: Drive, log2Root: nat, s: Submission<T>, finalHash: T)
    returns (v: Verdict)
    ensures v == Judged(h, output, log2Root, s, finalHash)
  {
    if !ProvesDrive(s.proof, output, log2Root, finalHash) {
      return Rejected;
    }
    var root := GetRootHash(h, s.value, output.log2Size);
    match root
    case DoesNotFit =>
      v := Raised;
    case Nil =>
      v := Rejected;
    case RootHash(hash) =>
      var rolled := RollHashUpTree(h, s.proof, s.proof.targetHash);
      v := if hash == s.proof.targetHash && rolled == Some(s.proof.rootHash) then Accepted else Rejected;
  }

  /** The bytes, and zeros after them, are what the machine left in its output drive. */
  predicate IsResult(mem: Memory, depth: nat, output: Drive, value: Bytes)
    requires IsMemory(mem, depth) && IsDrive(output, depth)
  {
    var n := |Contents(mem, depth, output)|;
    |value| <= n && Padded(value, n) == Contents(mem, depth, output)
  }

  /** A result accepted against the hash of a machine is the machine's, or exhibits a clash. */
  lemma AcceptedResultIsTrue<T>(h: Hasher<T>, mem: Memory, depth: nat, output: Drive, s: Submission<T>)
    returns (c: Clash<T>)
    requires IsMemory(mem, depth) && IsDrive(output, depth)
    requires Judged(h, output, depth + WORD_LOG2_SIZE, s, MemoryRoot(h, mem, depth)) == Accepted
    ensures IsResult(mem, depth, output, s.value) || Clashes(h, c)
  {
    var k, q, p := Height(output.log2Size), Shr(output.start, output.log2Size), s.proof;
    SpanOfDrive(output, depth);
    DataRootIsDataHash(h, s.value, k);
    hide Roll, MemoryRoot, DataHash, Node, Block, WordHashes, PathSiblings, Clashes, Shr, Span, Pow2;
    assert p.log2RootSize - p.log2TargetSize == depth - k;
    c := OpenAt(h, mem, depth, k, q, p.targetHash, p.siblings[..depth - k]);
    if !Clashes(h, c) {
      c := DataBinds(h, Padded(s.value, Span(k)), Contents(mem, depth, output), k);
    }
  }

  /** With the machine's own proof, exactly the non-empty results are accepted, or there is a clash. */
  lemma ProvenResultIff<T>(h: Hasher<T>, mem: Memory, depth: nat, output: Drive, value: Bytes) returns (c: Clash<T>)
    requires IsMemory(mem, depth) && IsDrive(output, depth) && |value| <= |Contents(mem, depth, output)|
    ensures var s := Submission(value, DriveProof(h, mem, depth, output));
            var v := Judged(h, output, depth + WORD_LOG2_SIZE, s, MemoryRoot(h, mem, depth));
            && v != Raised
            && (value != [] && IsResult(mem, depth, output, value) ==> v == Accepted)
            && (v == Accepted ==> value != [] && (IsResult(mem, depth, output, value) || Clashes(h, c)))
  {
    var k, q := Height(output.log2Size), Shr(output.start, output.log2Size);
    var s := Submission(value, DriveProof(h, mem, depth, output));
    SpanOfDrive(output, depth);
    DataRootIsDataHash(h, value, k);
    hide Roll, RollProof, MemoryRoot, DataHash, Node, Block, WordHashes, PathSiblings, Clashes, Shr, Span, Pow2;
    DriveProofRolls(h, mem, depth, output, s.proof.targetHash);
    BlockRolls(h, mem, depth, k, q);
    c := NoClash;
    if Judged(h, output, depth + WORD_LOG2_SIZE, s, MemoryRoot(h, mem, depth)) == Accepted {
      c := AcceptedResultIsTrue(h, mem, depth, output, s);
    }
  }

  /** A result that is not empty, with the machine's own proof. */
  ghost predicate ProvesResult<T>(h: Hasher<T>, mem: Memory, depth: nat, output: Drive, s: Submission<T>)
    requires IsMemory(mem, depth) && IsDrive(output, depth)
  {
    s.value != [] && IsResult(mem, depth, output, s.value) && s.proof == DriveProof(h, mem, depth, output)
  }

  lemma ProofsAreAccepted<T>(h: Hasher<T>, mem: Memory, depth: nat, output: Drive, s: Submission<T>)
    requires IsMemory(mem, depth) && IsDrive(output, depth) && ProvesResult(h, mem, depth, output, s)
    ensures Judged(h, output, depth + WORD_LOG2_SIZE, s, MemoryRoot(h, mem, depth)) == Accepted
  {
    hide Judged, MemoryRoot, DriveProof, Contents, Clashes;
    var c := ProvenResultIff(h, mem, depth, output, s.value);
    assert s == Submission(s.value, DriveProof(h, mem, depth, output));
  }

  /** What the player of the source captures from its halted machine and posts, when it can capture it. */
  ghost function Captured<T>(h: Hasher<T>, mem: Memory, depth: nat, output: Drive): Option<Submission<T>>
    requires IsMemory(mem, depth) && IsDrive(output, depth)
  {
    var text := Text(Contents(mem, depth, output));
    if text.Some? then Some(Submission(text.value, DriveProof(h, mem, depth, output))) else None
  }

  /** The drive holds a string that is not empty, a zero byte, and nothing but zeros after it. */
  ghost predicate HoldsText(mem: Memory, depth: nat, output: Drive)
    requires IsMemory(mem, depth) && IsDrive(output, depth)
  {
    var bytes := Contents(mem, depth, output);
    var text := Text(bytes);
    text.Some? && text.value != [] && bytes[|text.value|..] == Repeat<byte>(0, |bytes| - |text.value|)
  }

  /** The captured result is accepted exactly when the output drive holds a text, or there is a clash. */
  lemma CapturedIsAcceptedIff<T>(h: Hasher<T>, mem: Memory, depth: nat, output: Drive) returns (c: Clash<T>)
    requires IsMemory(mem, depth) && IsDrive(output, depth)
    ensures var s := Captured(h, mem, depth, output);
            var accepted := s.Some?
              && Judged(h, output, depth + WORD_LOG2_SIZE, s.value, MemoryRoot(h, mem, depth)) == Accepted;
            && (HoldsText(mem, depth, output) ==> accepted && ProvesResult(h, mem, depth, output, s.value))
            && (accepted ==> HoldsText(mem, depth, output) || Clashes(h, c))
  {
    var bytes := Contents(mem, depth, output);
    hide Judged, MemoryRoot, DriveProof, Contents, Clashes, Span, Height;
    c := NoClash;
    var text := Text(bytes);
    if text.Some? {
      var value := text.value;
      c := ProvenResultIff(h, mem, depth, output, value);
      var zeros := Repeat<byte>(0, |bytes| - |value|);
      assert bytes == value + bytes[|value|..];
      assert (value + zeros)[|value|..] == zeros;
    }
  }

  /** A machine that leaves its output drive empty: the text captured is empty, and never accepted. */
  lemma EmptyResultIsRejected<T>(h: Hasher<T>, mem: Memory, depth: nat, output: Drive)
    requires IsMemory(mem, depth) && IsDrive(output, depth) && Contents(mem, depth, output)[0] == 0
    ensures var s := Captured(h, mem, depth, output);
            && s.Some? && s.value.value == []
            && Judged(h, output, depth + WORD_LOG2_SIZE, s.value, MemoryRoot(h, mem, depth)) == Rejected
  {
    SpanOfDrive(output, depth);
    hide MemoryRoot, DataHash, Node, Contents, WordHashes, PathSiblings, RollProof, Span, Pow2;
  }

  // ---------------------------------------------------------------------------------------------
  // The whole game
  // ---------------------------------------------------------------------------------------------

  datatype Awaited = Posted(value: Bytes) | Failed | Waiting

  /** `wait_for_result` on the results posted so far, in the order they arrive. */
  method WaitForResult<T(==)>(h: Hasher<T>, output: Drive, log2Root: nat, posts: seq<Submission<T>>, finalHash: T)
    returns (r: Awaited, ghost i: nat)
    ensures i <= |posts| && (r == Waiting <==> i == |posts|)
    ensures forall j :: 0 <= j < i ==> Judged(h, output, log2Root, posts[j], finalHash) == Rejected
    ensures r.Posted? ==> Judged(h, output, log2Root, posts[i], finalHash) == Accepted && posts[i].value == r.value
    ensures r.Failed? ==> Judged(h, output, log2Root, posts[i], finalHash) == Raised
  {
    hide Judged;
    var n := 0;
    while n < |posts|
      invariant n <= |posts|
      invariant forall j :: 0 <= j < n ==> Judged(h, output, log2Root, posts[j], finalHash) == Rejected
    {
      var v := VerifyOutput(h, output, log2Root, posts[n], finalHash);
      if v == Accepted {
        return Posted(posts[n].value), n;
      }
      if v == Raised {
        return Failed, n;
      }
      n := n + 1;
    }
    return Waiting, n;
  }

  /**
    The referee from the expression to the result. The result it takes is what the computation left in its
    output drive, and it does not go on waiting once anyone has posted that with its proof; or a clash is
    returned, or player 1 posted a path that is not full and was not checked. It fails only on a post that is
    larger than the drive.
   */
  method RunGame<T(==,!new), D>(ghost m: Machine<Memory, T, D>, v: Verifier<T, Log<T>>, h: Hasher<T>,
                                ghost code: Code<T, D>, ghost checks: bool, log2Root: nat,
                                input: Drive, output: Drive, inputProof: Proof<T>, expression: Bytes,
                                first: Player<T, LogCommitment<Log<T>>>, second: Player<T, LogCommitment<Log<T>>>,
                                posts: seq<Submission<T>>,
                                ghost template: Memory, ghost halt: nat, ghost firstIsHonest: bool)
    returns (r: Awaited, ghost c: Clash<T>)
    requires log2Root == code.depth + WORD_LOG2_SIZE && IsMemory(template, code.depth)
    requires IsDrive(input, code.depth) && IsDrive(output, code.depth)
    requires inputProof == DriveProof(h, template, code.depth, input)
    requires |expression| + 1 <= Pow2(input.log2Size)
    requires PristineAfter(template, code.depth, input, |expression| + 1)
    requires RunsPrograms(m, h, code) && VerifiesLogs(v, h, code, checks) && m.uarchCycles == UARCH_CYCLE_MAX
    requires var mem := Instantiated(template, code.depth, input, expression);
             && NeverReverts(m, code, mem) && HaltsAt(m, mem, halt) && halt <= MCYCLE_MAX
             && Honest(m, v, mem, halt, if firstIsHonest then first else second)
    ensures var end := Instructions(m, Instantiated(template, code.depth, input, expression), halt);
            && IsMemory(end, code.depth)
            && (|| ((r.Posted? ==> IsResult(end, code.depth, output, r.value))
                    && (r.Waiting? ==> forall s :: s in posts ==> !ProvesResult(h, end, code.depth, output, s)))
                || Clashes(h, c)
                || (!checks && PostsShortPath(first, code.depth)))
    ensures r.Failed? ==> exists s :: s in posts && |s.value| > Pow2(output.log2Size)
  {
    hide RunsPrograms, VerifiesLogs, NeverReverts, HaltsAt, IsMemory, IsDrive, PristineAfter, RollProof, DriveProof,
         MemoryRoot, Node, WordHashes, Judged, ProvesResult, IsResult, Instantiated, Instructions, Clashes,
         PostsShortPath, Truthful, PostsTrueLogs;
    ghost var depth, mem := code.depth, Instantiated(template, code.depth, input, expression);
    ghost var end := Instructions(m, mem, halt);
    EndIsMemory(m, h, code, mem, halt);
    c := InitialHashIsTrueIff(h, template, depth, input, expression);
    var initialHash := InitialHash(h, inputProof, input, expression);
    ExpressionFits(input, depth, expression);
    var winner := 1;
    c := NoClash;
    if first.finalHash != second.finalHash {
      winner, c := SettleMachineDispute(m, v, h, code, checks, first, second, initialHash.value, mem, halt,
                                        firstIsHonest);
    }
    var finalHash := if winner == 1 then first.finalHash else second.finalHash;
    ghost var i;
    r, i := WaitForResult(h, output, log2Root, posts, finalHash);
    if r.Failed? {
      RaisedIsTooLarge(h, output, depth, posts[i], finalHash);
    } else if finalHash == m.hash(end) && !Clashes(h, c) {
      if r.Posted? {
        c := AcceptedResultIsTrue(h, end, depth, output, posts[i]);
      } else {
        forall s | s in posts && ProvesResult(h, end, depth, output, s)
          ensures false
        {
          ProofsAreAccepted(h, end, depth, output, s);
        }
      }
    }
  }

  lemma EndIsMemory<T, D>(m: Machine<Memory, T, D>, h: Hasher<T>, code: Code<T, D>, mem: Memory, halt: nat)
    requires RunsPrograms(m, h, code) && IsMemory(mem, code.depth)
    ensures m.hash(mem) == MemoryRoot(h, mem, code.depth)
    ensures IsMemory(Instructions(m, mem, halt), code.depth)
    ensures m.hash(Instructions(m, mem, halt)) == MemoryRoot(h, Instructions(m, mem, halt), code.depth)
  {
    hide IsMemory, RunsPrograms, Instructions, MemoryRoot;
    InstructionsKeepMemory(m, h, code, mem, halt);
    OneOperation(m, h, code, mem);
    OneOperation(m, h, code, Instructions(m, mem, halt));
  }

  lemma RaisedIsTooLarge<T>(h: Hasher<T>, output: Drive, depth: nat, s: Submission<T>, finalHash: T)
    requires IsDrive(output, depth) && Judged(h, output, depth + WORD_LOG2_SIZE, s, finalHash) == Raised
    ensures |s.value| > Pow2(output.log2Size)
  {
    SpanOfDrive(output, depth);
  }

  lemma ExpressionFits(input: Drive, depth: nat, expression: Bytes)
    requires IsDrive(input, depth) && |expression| + 1 <= Pow2(input.log2Size)
    ensures |expression| + 1 <= ShiftedOne(input.log2Size)
  {
    SpanOfDrive(input, depth);
  }
}
