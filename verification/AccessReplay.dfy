/**
  Recording the accesses of an operation on the machine and replaying the log from a root hash alone
  (src/access-log.hpp, src/uarch-record-state-access.hpp, src/uarch-replay-state-access.hpp).

  An operation is code that reads and writes through an accessor: 8-byte words, whole nodes of the hash
  tree, and at its end possibly the recorded revert root hash. Here it is a `Program`: a function from the
  data seen so far to the next access. The same program runs on the memory, under the recorder and under
  the replayer, as the source instantiates one template with each accessor.
 */
module AccessReplay {
  import opened Merkle
  import opened Proofs
  import opened MemoryTree

  const ACCESS_LOG2_SIZE: nat := 3
  const ACCESS_SIZE: nat := 8

  datatype AccessType = Read | Write

  datatype Access<T> = Access(kind: AccessType, address: nat, log2Size: nat, read: Option<Bytes>, readHash: T,
                              written: Option<Bytes>, writtenHash: Option<T>, siblings: Option<seq<T>>)

  // ---------------------------------------------------------------------------------------------
  // Words and nodes
  // ---------------------------------------------------------------------------------------------

  /** The node of height `k` that holds an address. */
  function NodeIndex(address: nat, k: nat): nat { Quotient(address, Span(k)) }

  function Quotient(n: nat, d: nat): nat
    requires d > 0
  {
    n / d
  }

  predicate AddressInTree(depth: nat, k: nat, address: nat) { InTree(depth, k, NodeIndex(address, k)) }

  /** Where in its tree word the 8-byte word starts, once aligned down. */
  function Offset(address: nat): (r: nat)
    ensures r + ACCESS_SIZE <= WORD_SIZE
  {
    (address - address % ACCESS_SIZE) % WORD_SIZE
  }

  function GetWord(data: Bytes, offset: nat): (r: Bytes)
    requires offset + ACCESS_SIZE <= |data|
    ensures |r| == ACCESS_SIZE
  {
    data[offset..offset + ACCESS_SIZE]
  }

  function ReplaceWord(data: Bytes, offset: nat, value: Bytes): (r: Bytes)
    requires offset + ACCESS_SIZE <= |data| && |value| == ACCESS_SIZE
    ensures |r| == |data|
  {
    data[..offset] + value + data[offset + ACCESS_SIZE..]
  }

  function NodeAt(mem: Memory, depth: nat, k: nat, address: nat): (r: Bytes)
    requires IsMemory(mem, depth) && AddressInTree(depth, k, address)
    ensures |r| == Span(k)
  {
    Block(mem, depth, k, NodeIndex(address, k))
  }

  function StoreNode(mem: Memory, depth: nat, k: nat, address: nat, data: Bytes): (r: Memory)
    requires IsMemory(mem, depth) && AddressInTree(depth, k, address) && |data| == Span(k)
    ensures IsMemory(r, depth)
  {
    WriteBlock(mem, depth, k, NodeIndex(address, k), data)
  }

  function Load(mem: Memory, depth: nat, address: nat): Bytes
    requires IsMemory(mem, depth) && AddressInTree(depth, 0, address)
  {
    GetWord(NodeAt(mem, depth, 0, address), Offset(address))
  }

  /** The tree word of an address, with the 8-byte word there replaced. */
  function Replaced(mem: Memory, depth: nat, address: nat, value: Bytes): (r: Bytes)
    requires IsMemory(mem, depth) && AddressInTree(depth, 0, address) && |value| == ACCESS_SIZE
    ensures |r| == Span(0)
  {
    ReplaceWord(NodeAt(mem, depth, 0, address), Offset(address), value)
  }

  function Store(mem: Memory, depth: nat, address: nat, value: Bytes): (r: Memory)
    requires IsMemory(mem, depth) && AddressInTree(depth, 0, address) && |value| == ACCESS_SIZE
    ensures IsMemory(r, depth)
  {
    StoreNode(mem, depth, 0, address, Replaced(mem, depth, address, value))
  }

  // ---------------------------------------------------------------------------------------------
  // The proof of an access
  // ---------------------------------------------------------------------------------------------

  ghost predicate MayMakeProof<T>(a: Access<T>) {
    var size := Pow2(Max(a.log2Size, WORD_LOG2_SIZE));
    && a.siblings.Some?
    && (a.read.Some? ==> |a.read.value| == size)
    && (a.written.Some? ==> |a.written.value| == size)
  }

  ghost function ProofOfAccess<T>(a: Access<T>, rootHash: T): Proof<T>
    requires MayMakeProof(a)
  {
    var k := Max(a.log2Size, WORD_LOG2_SIZE);
    Proof(a.address - a.address % WORD_SIZE, k, k + |a.siblings.value|, a.readHash, rootHash, a.siblings.value)
  }

  method MakeProof<T(0)>(a: Access<T>, rootHash: T) returns (r: Option<Proof<T>>)
    ensures r == if MayMakeProof(a) then Some(ProofOfAccess(a, rootHash)) else None
  {
    var k := Max(a.log2Size, WORD_LOG2_SIZE);
    if a.siblings.None? {
      return None;
    }
    var siblings := a.siblings.value;
    var log2Root := k + |siblings|;
    if a.read.Some? && |a.read.value| != Pow2(k) {
      return None;
    }
    if a.written.Some? && |a.written.value| != Pow2(k) {
      return None;
    }
    var hashes := new T[|siblings|];
    var log2Size := k;
    while log2Size < log2Root
      invariant k <= log2Size <= log2Root && hashes[..log2Size - k] == siblings[..log2Size - k]
    {
      hashes[log2Size - k] := siblings[log2Size - k];
      log2Size := log2Size + 1;
    }
    assert hashes[..|siblings|] == hashes[..] && siblings[..|siblings|] == siblings;
    r := Some(Proof(a.address - a.address % WORD_SIZE, k, log2Root, a.readHash, rootHash, hashes[..]));
  }

  // ---------------------------------------------------------------------------------------------
  // The checks of one replayed access
  // ---------------------------------------------------------------------------------------------

  /** The checks common to every access: the entry is of the right kind and range, and its proof holds. */
  ghost predicate SiblingsHold<T>(h: Hasher<T>, root: T, a: Access<T>, kind: AccessType, address: nat, log2Size: nat) {
    && a.kind == kind
    && (kind == Read ==> a.written.None? && a.writtenHash.None?)
    && a.address == address && a.log2Size == log2Size
    && MayMakeProof(a) && VerifySlice(h, ProofOfAccess(a, root))
  }

  ghost predicate HashesTo<T>(h: Hasher<T>, data: Bytes, k: nat, hash: T) {
    |data| == Span(k) && DataHash(h, data, k) == hash
  }

  ghost predicate ReadDataHolds<T>(h: Hasher<T>, a: Access<T>) {
    a.read.Some? && HashesTo(h, a.read.value, Height(a.log2Size), a.readHash)
  }

  /** The tree word behind a replayed read, of 8 or of 32 bytes. */
  ghost function CheckRead<T>(h: Hasher<T>, root: T, a: Access<T>, address: nat, log2Size: nat): (r: Option<Bytes>)
    requires log2Size <= WORD_LOG2_SIZE
    ensures r.Some? ==> |r.value| == WORD_SIZE
  {
    if SiblingsHold(h, root, a, Read, address, log2Size) && ReadDataHolds(h, a) then a.read else None
  }

  /** The root hash after a replayed write of a word. */
  ghost function CheckWrite<T>(h: Hasher<T>, root: T, a: Access<T>, address: nat, value: Bytes): Option<T>
    requires |value| == ACCESS_SIZE
  {
    if SiblingsHold(h, root, a, Write, address, ACCESS_LOG2_SIZE) && ReadDataHolds(h, a) then
      var writtenHash := h.Hash(ReplaceWord(a.read.value, Offset(address), value));
      if a.writtenHash == Some(writtenHash) && (a.written.Some? ==> HashesTo(h, a.written.value, 0, writtenHash))
      then RollProof(h, ProofOfAccess(a, root), writtenHash) else None
    else None
  }

  /** The root hash after a replayed write of a node, whose data need not be on the log. */
  ghost function CheckWriteNode<T>(h: Hasher<T>, root: T, a: Access<T>, address: nat, k: nat, data: Bytes): Option<T>
    requires |data| == Span(k)
  {
    var writtenHash := DataHash(h, data, k);
    if SiblingsHold(h, root, a, Write, address, k + WORD_LOG2_SIZE)
       && a.writtenHash == Some(writtenHash)
       && (a.read.Some? ==> HashesTo(h, a.read.value, k, a.readHash))
       && (a.written.Some? ==> HashesTo(h, a.written.value, k, writtenHash))
    then RollProof(h, ProofOfAccess(a, root), writtenHash) else None
  }

  // ---------------------------------------------------------------------------------------------
  // Programs
  // ---------------------------------------------------------------------------------------------

  /** `Revert` ends an operation by reading the root hash to revert to. */
  datatype Op = ReadWord(address: nat) | WriteWord(address: nat, value: Bytes)
              | WriteNode(address: nat, height: nat, data: Bytes) | Revert(address: nat) | Done

  /** The data seen so far decides the next access; there are at most `bound` of them before the last. */
  datatype Program = Program(next: seq<Bytes> -> Op, bound: nat)
  {
    function Next(seen: seq<Bytes>): Op {
      if |seen| < bound then next(seen) else Done
    }
  }

  /** The access is inside the address space of the tree, and writes as much as it says. */
  predicate OpFits(op: Op, depth: nat) {
    match op
    case ReadWord(address) => AddressInTree(depth, 0, address)
    case WriteWord(address, value) => AddressInTree(depth, 0, address) && |value| == ACCESS_SIZE
    case WriteNode(address, k, data) => AddressInTree(depth, k, address) && |data| == Span(k)
    case Revert(address) => AddressInTree(depth, 0, address)
    case Done => true
  }

  ghost predicate Fits(p: Program, depth: nat) {
    forall seen: seq<Bytes> :: OpFits(p.Next(seen), depth)
  }

  /** The memory an operation leaves, and the root hash it reverts to when it does. */
  datatype Final = Final(mem: Memory, revert: Option<Bytes>)

  ghost function RootOf<T>(h: Hasher<T>, f: Final, depth: nat): T
    requires IsMemory(f.mem, depth)
  {
    if f.revert.Some? then h.FromBytes(f.revert.value) else MemoryRoot(h, f.mem, depth)
  }

  /** Running the program on the memory. */
  ghost function Run(p: Program, mem: Memory, depth: nat, seen: seq<Bytes>): (f: Final)
    requires IsMemory(mem, depth) && Fits(p, depth)
    ensures IsMemory(f.mem, depth)
    decreases p.bound - |seen|
  {
    assert OpFits(p.Next(seen), depth);
    match p.Next(seen)
    case Done => Final(mem, None)
    case Revert(address) => Final(mem, Some(NodeAt(mem, depth, 0, address)))
    case ReadWord(address) => Run(p, mem, depth, seen + [Load(mem, depth, address)])
    case WriteWord(address, value) => Run(p, Store(mem, depth, address, value), depth, seen + [value])
    case WriteNode(address, k, data) => Run(p, StoreNode(mem, depth, k, address, data), depth, seen + [data])
  }

  // One access of a run at a time.

  lemma RunRead(p: Program, mem: Memory, depth: nat, seen: seq<Bytes>, address: nat)
    requires IsMemory(mem, depth) && Fits(p, depth) && p.Next(seen) == ReadWord(address)
    ensures AddressInTree(depth, 0, address)
    ensures Run(p, mem, depth, seen) == Run(p, mem, depth, seen + [Load(mem, depth, address)])
  {
    hide IsMemory, Load, AddressInTree;
    assert OpFits(p.Next(seen), depth);
  }

  lemma RunWrite(p: Program, mem: Memory, depth: nat, seen: seq<Bytes>, address: nat, value: Bytes)
    requires IsMemory(mem, depth) && Fits(p, depth) && p.Next(seen) == WriteWord(address, value)
    ensures AddressInTree(depth, 0, address) && |value| == ACCESS_SIZE
    ensures Run(p, mem, depth, seen) == Run(p, Store(mem, depth, address, value), depth, seen + [value])
  {
    hide IsMemory, Store, AddressInTree;
    assert OpFits(p.Next(seen), depth);
  }

  lemma RunNode(p: Program, mem: Memory, depth: nat, seen: seq<Bytes>, address: nat, k: nat, data: Bytes)
    requires IsMemory(mem, depth) && Fits(p, depth) && p.Next(seen) == WriteNode(address, k, data)
    ensures AddressInTree(depth, k, address) && |data| == Span(k)
    ensures Run(p, mem, depth, seen) == Run(p, StoreNode(mem, depth, k, address, data), depth, seen + [data])
  {
    hide IsMemory, StoreNode, AddressInTree;
    assert OpFits(p.Next(seen), depth);
  }

  lemma RunRevert(p: Program, mem: Memory, depth: nat, seen: seq<Bytes>, address: nat)
    requires IsMemory(mem, depth) && Fits(p, depth) && p.Next(seen) == Revert(address)
    ensures AddressInTree(depth, 0, address)
    ensures Run(p, mem, depth, seen) == Final(mem, Some(NodeAt(mem, depth, 0, address)))
  {
    hide IsMemory, NodeAt, AddressInTree;
    assert OpFits(p.Next(seen), depth);
  }

  lemma RunDone(p: Program, mem: Memory, depth: nat, seen: seq<Bytes>)
    requires IsMemory(mem, depth) && Fits(p, depth) && p.Next(seen) == Done
    ensures Run(p, mem, depth, seen) == Final(mem, None)
  {
  }

  /** Replaying the rest of a log; every access must be used. */
  ghost function Replay<T>(h: Hasher<T>, p: Program, root: T, log: seq<Access<T>>, depth: nat, seen: seq<Bytes>)
    : Option<T>
    requires Fits(p, depth)
    decreases p.bound - |seen|
  {
    assert OpFits(p.Next(seen), depth);
    match p.Next(seen)
    case Done => if log == [] then Some(root) else None
    case Revert(address) =>
      if |log| != 1 then None
      else
        var word := CheckRead(h, root, log[0], address, WORD_LOG2_SIZE);
        if word.None? then None else Some(h.FromBytes(word.value))
    case ReadWord(address) =>
      if log == [] then None
      else
        var word := CheckRead(h, root, log[0], address, ACCESS_LOG2_SIZE);
        if word.None? then None
        else Replay(h, p, root, log[1..], depth, seen + [GetWord(word.value, Offset(address))])
    case WriteWord(address, value) =>
      if log == [] then None
      else
        var after := CheckWrite(h, root, log[0], address, value);
        if after.None? then None else Replay(h, p, after.value, log[1..], depth, seen + [value])
    case WriteNode(address, k, data) =>
      if log == [] then None
      else
        var after := CheckWriteNode(h, root, log[0], address, k, data);
        if after.None? then None else Replay(h, p, after.value, log[1..], depth, seen + [data])
  }

  // ---------------------------------------------------------------------------------------------
  // Recording
  // ---------------------------------------------------------------------------------------------

  /** A recorded read of the tree word of an address. */
  function ReadAccess<T>(h: Hasher<T>, mem: Memory, depth: nat, address: nat, log2Size: nat): Access<T>
    requires IsMemory(mem, depth) && AddressInTree(depth, 0, address)
  {
    var word := NodeAt(mem, depth, 0, address);
    Access(Read, address, log2Size, Some(word), h.Hash(word), None, None,
           Some(PathSiblings(h, mem, depth, 0, NodeIndex(address, 0))))
  }

  function WriteAccess<T>(h: Hasher<T>, mem: Memory, depth: nat, address: nat, value: Bytes): Access<T>
    requires IsMemory(mem, depth) && AddressInTree(depth, 0, address) && |value| == ACCESS_SIZE
  {
    var word, written := NodeAt(mem, depth, 0, address), Replaced(mem, depth, address, value);
    Access(Write, address, ACCESS_LOG2_SIZE, Some(word), h.Hash(word), Some(written), Some(h.Hash(written)),
           Some(PathSiblings(h, mem, depth, 0, NodeIndex(address, 0))))
  }

  /** The data before and after a write of a node are on the log only when large data is asked for. */
  function NodeAccess<T>(h: Hasher<T>, mem: Memory, depth: nat, address: nat, k: nat, data: Bytes, large: bool)
    : Access<T>
    requires IsMemory(mem, depth) && AddressInTree(depth, k, address) && |data| == Span(k)
  {
    var block := NodeAt(mem, depth, k, address);
    Access(Write, address, k + WORD_LOG2_SIZE, if large then Some(block) else None, DataHash(h, block, k),
           if large then Some(data) else None, Some(DataHash(h, data, k)),
           Some(PathSiblings(h, mem, depth, k, NodeIndex(address, k))))
  }

  ghost function Record<T>(h: Hasher<T>, p: Program, mem: Memory, depth: nat, large: bool, seen: seq<Bytes>)
    : seq<Access<T>>
    requires IsMemory(mem, depth) && Fits(p, depth)
    decreases p.bound - |seen|
  {
    assert OpFits(p.Next(seen), depth);
    match p.Next(seen)
    case Done => []
    case Revert(address) => [ReadAccess(h, mem, depth, address, WORD_LOG2_SIZE)]
    case ReadWord(address) =>
      [ReadAccess(h, mem, depth, address, ACCESS_LOG2_SIZE)]
      + Record(h, p, mem, depth, large, seen + [Load(mem, depth, address)])
    case WriteWord(address, value) =>
      [WriteAccess(h, mem, depth, address, value)]
      + Record(h, p, Store(mem, depth, address, value), depth, large, seen + [value])
    case WriteNode(address, k, data) =>
      [NodeAccess(h, mem, depth, address, k, data, large)]
      + Record(h, p, StoreNode(mem, depth, k, address, data), depth, large, seen + [data])
  }

  // ---------------------------------------------------------------------------------------------
  // The node a proof opens
  // ---------------------------------------------------------------------------------------------

  lemma SpanOfSize(k: nat)
    ensures Pow2(k + WORD_LOG2_SIZE) == Span(k)
  {
    PowersMultiply(k, WORD_LOG2_SIZE);
    assert Pow2(5) == 2 * (2 * (2 * Pow2(2)));
  }

  lemma ShrOfAddress(address: nat, k: nat)
    ensures Shr(address - address % WORD_SIZE, k + WORD_LOG2_SIZE) == NodeIndex(address, k)
  {
    var n := address - address % WORD_SIZE;
    ShrIsDivision(n, k + WORD_LOG2_SIZE);
    SpanOfSize(k);
    SameQuotient(address, n, Pow2(k), Shr(n, k + WORD_LOG2_SIZE));
  }

  lemma SameQuotient(address: nat, n: nat, p: nat, q: nat)
    requires p > 0 && n == address - address % WORD_SIZE
    requires q * (WORD_SIZE * p) <= n < (q + 1) * (WORD_SIZE * p)
    ensures address / (WORD_SIZE * p) == q
  {
    assert q * (WORD_SIZE * p) == WORD_SIZE * (q * p) && (q + 1) * (WORD_SIZE * p) == WORD_SIZE * (q * p + p);
    assert n == WORD_SIZE * (n / WORD_SIZE);
    assert address < WORD_SIZE * (q * p + p);
    QuotientUnique(address, WORD_SIZE * p, q);
  }

  lemma QuotientUnique(n: nat, d: nat, q: nat)
    requires d > 0 && q * d <= n < (q + 1) * d
    ensures n / d == q
  {
    var r := n / d;
    assert n == r * d + n % d;
    if r < q {
      MultiplyKeepsOrder(r + 1, q, d);
      assert false;
    } else if r > q {
      MultiplyKeepsOrder(q + 1, r, d);
      assert false;
    }
  }

  lemma MultiplyKeepsOrder(a: nat, b: nat, d: nat)
    requires a <= b
    ensures a * d <= b * d
  {
  }

  /** The proof of an access rolls a hash up from the node the access falls in. */
  lemma RolledAccess<T>(h: Hasher<T>, a: Access<T>, root: T, hash: T)
    requires MayMakeProof(a)
    ensures RollProof(h, ProofOfAccess(a, root), hash)
         == Some(Roll(h, hash, NodeIndex(a.address, Height(a.log2Size)), a.siblings.value))
  {
    hide Roll, NodeIndex, Shr;
    ShrOfAddress(a.address, Height(a.log2Size));
    assert a.siblings.value[..|a.siblings.value|] == a.siblings.value;
  }

  // ---------------------------------------------------------------------------------------------
  // Completeness: the recorded log replays to the root of the final memory
  // ---------------------------------------------------------------------------------------------

  lemma ReadReplays<T>(h: Hasher<T>, mem: Memory, depth: nat, address: nat, log2Size: nat)
    requires IsMemory(mem, depth) && AddressInTree(depth, 0, address) && log2Size <= WORD_LOG2_SIZE
    ensures CheckRead(h, MemoryRoot(h, mem, depth), ReadAccess(h, mem, depth, address, log2Size), address, log2Size)
         == Some(NodeAt(mem, depth, 0, address))
  {
    hide Roll, MemoryRoot, PathSiblings, Block, RollProof, NodeIndex;
    var a, root := ReadAccess(h, mem, depth, address, log2Size), MemoryRoot(h, mem, depth);
    SpanOfSize(0);
    RolledAccess(h, a, root, a.readHash);
    BlockRolls(h, mem, depth, 0, NodeIndex(address, 0));
  }

  lemma WriteReplays<T(!new)>(h: Hasher<T>, mem: Memory, depth: nat, address: nat, value: Bytes)
    requires IsMemory(mem, depth) && AddressInTree(depth, 0, address) && |value| == ACCESS_SIZE
    ensures CheckWrite(h, MemoryRoot(h, mem, depth), WriteAccess(h, mem, depth, address, value), address, value)
         == Some(MemoryRoot(h, Store(mem, depth, address, value), depth))
  {
    hide Roll, MemoryRoot, PathSiblings, Block, WriteBlock, RollProof, NodeIndex;
    var a, root := WriteAccess(h, mem, depth, address, value), MemoryRoot(h, mem, depth);
    SpanOfSize(0);
    RolledAccess(h, a, root, a.readHash);
    RolledAccess(h, a, root, a.writtenHash.value);
    BlockRolls(h, mem, depth, 0, NodeIndex(address, 0));
    WriteRolls(h, mem, depth, 0, NodeIndex(address, 0), a.written.value);
  }

  lemma NodeWriteReplays<T(!new)>(h: Hasher<T>, mem: Memory, depth: nat, address: nat, k: nat, data: Bytes, large: bool)
    requires IsMemory(mem, depth) && AddressInTree(depth, k, address) && |data| == Span(k)
    ensures CheckWriteNode(h, MemoryRoot(h, mem, depth), NodeAccess(h, mem, depth, address, k, data, large),
                           address, k, data)
         == Some(MemoryRoot(h, StoreNode(mem, depth, k, address, data), depth))
  {
    hide Roll, MemoryRoot, PathSiblings, Block, WriteBlock, RollProof, NodeIndex, DataHash;
    var a, root := NodeAccess(h, mem, depth, address, k, data, large), MemoryRoot(h, mem, depth);
    SpanOfSize(k);
    RolledAccess(h, a, root, a.readHash);
    RolledAccess(h, a, root, a.writtenHash.value);
    BlockRolls(h, mem, depth, k, NodeIndex(address, k));
    WriteRolls(h, mem, depth, k, NodeIndex(address, k), data);
  }

  /** Replaying the log of a run from the first root hash returns the root hash the run ends at. */
  lemma {:induction false} RecordedLogReplays<T(!new)>(h: Hasher<T>, p: Program, mem: Memory, depth: nat, large: bool,
                                                       seen: seq<Bytes>)
    requires IsMemory(mem, depth) && Fits(p, depth)
    ensures Replay(h, p, MemoryRoot(h, mem, depth), Record(h, p, mem, depth, large, seen), depth, seen)
         == Some(RootOf(h, Run(p, mem, depth, seen), depth))
    decreases p.bound - |seen|
  {
    hide MemoryRoot, CheckRead, CheckWrite, CheckWriteNode, ReadAccess, WriteAccess, NodeAccess, NodeAt, Store,
         StoreNode;
    assert OpFits(p.Next(seen), depth);
    match p.Next(seen)
    case Done =>
    case Revert(address) =>
      ReadReplays(h, mem, depth, address, WORD_LOG2_SIZE);
    case ReadWord(address) =>
      ReadReplays(h, mem, depth, address, ACCESS_LOG2_SIZE);
      RecordedLogReplays(h, p, mem, depth, large, seen + [Load(mem, depth, address)]);
    case WriteWord(address, value) =>
      WriteReplays(h, mem, depth, address, value);
      RecordedLogReplays(h, p, Store(mem, depth, address, value), depth, large, seen + [value]);
    case WriteNode(address, k, data) =>
      NodeWriteReplays(h, mem, depth, address, k, data, large);
      RecordedLogReplays(h, p, StoreNode(mem, depth, k, address, data), depth, large, seen + [data]);
  }
}
