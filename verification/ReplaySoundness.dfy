/**
  What an accepted log proves, whoever wrote it.

  Nothing is assumed about the hash function: where an accepted log does not tell the truth, the lemmas
  return two inputs of the hash function with the same hash.

  A word access carries its data, which pins it to a leaf. A write of a node need not, and nothing in the
  replay compares the number of its siblings with the depth of the tree: its root hash is the true one
  exactly when there are as many siblings as levels above the node.
 */
module ReplaySoundness {
  import opened Merkle
  import opened Proofs
  import opened MemoryTree
  import opened AccessReplay

  /** Two different inputs of the hash function with the same hash; words are 32 bytes, pairs are 64. */
  datatype Clash<T> = Pairs(p: (T, T), q: (T, T)) | Words(x: Bytes, y: Bytes) | Mixed(x: Bytes, p: (T, T)) | NoClash

  ghost predicate Clashes<T>(h: Hasher<T>, c: Clash<T>) {
    match c
    case Pairs(p, q) => Collision(h, p, q)
    case Words(x, y) => |x| == |y| == WORD_SIZE && x != y && h.Hash(x) == h.Hash(y)
    case Mixed(x, p) => |x| == WORD_SIZE && h.Hash(x) == h.Concat(p.0, p.1)
    case NoClash => false
  }

  // ---------------------------------------------------------------------------------------------
  // Hashes bind the height they are hashes at
  // ---------------------------------------------------------------------------------------------

  /** Data of different heights with the same hash. */
  lemma {:induction false} HeightsBind<T>(h: Hasher<T>, x: Bytes, j: nat, y: Bytes, k: nat) returns (c: Clash<T>)
    requires |x| == Span(j) && |y| == Span(k) && j < k
    requires DataHash(h, x, j) == DataHash(h, y, k)
    ensures Clashes(h, c)
    decreases j
  {
    var b := (DataHash(h, y[..Span(k - 1)], k - 1), DataHash(h, y[Span(k - 1)..], k - 1));
    if j == 0 {
      c := Mixed(x, b);
    } else {
      var a := (DataHash(h, x[..Span(j - 1)], j - 1), DataHash(h, x[Span(j - 1)..], j - 1));
      if a != b {
        c := Pairs(a, b);
      } else {
        c := HeightsBind(h, x[..Span(j - 1)], j - 1, y[..Span(k - 1)], k - 1);
      }
    }
  }

  /** A hash that rolls up to a root through another number of siblings than there are levels above it. */
  lemma {:induction false} DepthBinds<T>(h: Hasher<T>, x: Bytes, j: nat, q: nat, siblings: seq<T>, y: Bytes, k: nat)
    returns (c: Clash<T>)
    requires |x| == Span(j) && |y| == Span(k) && j + |siblings| != k
    requires Roll(h, DataHash(h, x, j), q, siblings) == DataHash(h, y, k)
    ensures Clashes(h, c)
    decreases |siblings|
  {
    hide Roll, DataHash;
    if siblings == [] {
      assert Roll(h, DataHash(h, x, j), q, siblings) == DataHash(h, x, j) by { RollNothing(h, DataHash(h, x, j), q); }
      if j < k {
        c := HeightsBind(h, x, j, y, k);
      } else {
        c := HeightsBind(h, y, k, x, j);
      }
    } else {
      var n := |siblings| - 1;
      var top, inner := Shr(q, n), Roll(h, DataHash(h, x, j), q, siblings[..n]);
      RollOneMore(h, DataHash(h, x, j), q, siblings, n);
      assert siblings[..n + 1] == siblings;
      var a := Children(top, inner, siblings[n]);
      if k == 0 {
        assert DataHash(h, y, 0) == h.Hash(y) by { DataHashOfWord(h, y); }
        c := Mixed(y, a);
      } else {
        var left, right := y[..Span(k - 1)], y[Span(k - 1)..];
        DataHashOfHalves(h, y, k);
        var b := (DataHash(h, left, k - 1), DataHash(h, right, k - 1));
        if a != b {
          c := Pairs(a, b);
        } else {
          c := DepthBinds(h, x, j, q, siblings[..n], if top % 2 == 1 then right else left, k - 1);
        }
      }
    }
  }

  lemma RollNothing<T>(h: Hasher<T>, hash: T, q: nat)
    ensures Roll(h, hash, q, []) == hash
  {
  }

  lemma DataHashOfWord<T>(h: Hasher<T>, data: Bytes)
    requires |data| == Span(0)
    ensures DataHash(h, data, 0) == h.Hash(data)
  {
  }

  lemma DataHashOfHalves<T>(h: Hasher<T>, data: Bytes, k: nat)
    requires k > 0 && |data| == Span(k)
    ensures |data[..Span(k - 1)]| == |data[Span(k - 1)..]| == Span(k - 1)
    ensures DataHash(h, data, k)
         == h.Concat(DataHash(h, data[..Span(k - 1)], k - 1), DataHash(h, data[Span(k - 1)..], k - 1))
  {
  }

  /** An opening of node `q` of height `k` with all its siblings is the true one. */
  lemma OpenAt<T>(h: Hasher<T>, mem: Memory, depth: nat, k: nat, q: nat, t: T, siblings: seq<T>) returns (c: Clash<T>)
    requires IsMemory(mem, depth) && InTree(depth, k, q) && k + |siblings| == depth
    requires Roll(h, t, q, siblings) == MemoryRoot(h, mem, depth)
    ensures || (t == DataHash(h, Block(mem, depth, k, q), k) && siblings == PathSiblings(h, mem, depth, k, q))
            || Clashes(h, c)
  {
    hide PathSiblings, Roll, Block, MemoryRoot, DataHash;
    BlockRolls(h, mem, depth, k, q);
    var t', siblings' := DataHash(h, Block(mem, depth, k, q), k), PathSiblings(h, mem, depth, k, q);
    if (t, siblings) == (t', siblings') {
      c := NoClash;
    } else {
      var r := FindCollision(h, q, t, siblings, t', siblings');
      c := Pairs(r.0, r.1);
    }
  }

  /** Data that rolls up to the memory's root does so from its own height, or exhibits a clash. */
  lemma OpenData<T>(h: Hasher<T>, mem: Memory, depth: nat, k: nat, q: nat, data: Bytes, siblings: seq<T>)
    returns (c: Clash<T>)
    requires IsMemory(mem, depth) && |data| == Span(k)
    requires Roll(h, DataHash(h, data, k), q, siblings) == MemoryRoot(h, mem, depth)
    ensures k + |siblings| == depth || Clashes(h, c)
  {
    hide Roll, MemoryRoot, DataHash;
    c := NoClash;
    if k + |siblings| != depth {
      RootIsDataHash(h, mem, depth);
      c := DepthBinds(h, data, k, q, siblings, mem, depth);
    }
  }

  /**
    A word whose hash rolls up to the memory's root, through any number of siblings, is the word of the
    memory at that index with its true siblings, or it exhibits a clash.
   */
  lemma OpenWord<T>(h: Hasher<T>, mem: Memory, depth: nat, q: nat, word: Bytes, siblings: seq<T>) returns (c: Clash<T>)
    requires IsMemory(mem, depth) && InTree(depth, 0, q) && |word| == WORD_SIZE
    requires Roll(h, h.Hash(word), q, siblings) == MemoryRoot(h, mem, depth)
    ensures || (word == Block(mem, depth, 0, q) && siblings == PathSiblings(h, mem, depth, 0, q))
            || Clashes(h, c)
  {
    hide PathSiblings, Roll, MemoryRoot, Block;
    c := OpenData(h, mem, depth, 0, q, word, siblings);
    if !Clashes(h, c) {
      c := OpenAt(h, mem, depth, 0, q, h.Hash(word), siblings);
      if !Clashes(h, c) && word != Block(mem, depth, 0, q) {
        c := Words(word, Block(mem, depth, 0, q));
      }
    }
  }

  // ---------------------------------------------------------------------------------------------
  // Accepted accesses of words
  // ---------------------------------------------------------------------------------------------

  /** The opening behind an accepted access that carries the tree word it falls in. */
  lemma AccessOpens<T>(h: Hasher<T>, mem: Memory, depth: nat, a: Access<T>, kind: AccessType, address: nat,
                       log2Size: nat)
    returns (c: Clash<T>)
    requires IsMemory(mem, depth) && AddressInTree(depth, 0, address) && log2Size <= WORD_LOG2_SIZE
    requires SiblingsHold(h, MemoryRoot(h, mem, depth), a, kind, address, log2Size) && ReadDataHolds(h, a)
    ensures || (&& a.read.value == NodeAt(mem, depth, 0, address)
                && a.siblings.value == PathSiblings(h, mem, depth, 0, NodeIndex(address, 0)))
            || Clashes(h, c)
  {
    hide Roll, PathSiblings, MemoryRoot, Clashes, NodeIndex, Block, RollProof;
    RolledAccess(h, a, MemoryRoot(h, mem, depth), a.readHash);
    c := OpenWord(h, mem, depth, NodeIndex(address, 0), a.read.value, a.siblings.value);
  }

  lemma WriteIsTrue<T(!new)>(h: Hasher<T>, mem: Memory, depth: nat, a: Access<T>, address: nat, value: Bytes)
    returns (c: Clash<T>)
    requires IsMemory(mem, depth) && AddressInTree(depth, 0, address) && |value| == ACCESS_SIZE
    requires CheckWrite(h, MemoryRoot(h, mem, depth), a, address, value).Some?
    ensures || CheckWrite(h, MemoryRoot(h, mem, depth), a, address, value)
            == Some(MemoryRoot(h, Store(mem, depth, address, value), depth))
            || Clashes(h, c)
  {
    hide Roll, PathSiblings, MemoryRoot, Clashes, RollProof, MayMakeProof, VerifySlice, ReadDataHolds, NodeIndex, Block,
         WriteBlock;
    c := AccessOpens(h, mem, depth, a, Write, address, ACCESS_LOG2_SIZE);
    if !Clashes(h, c) {
      var word := Replaced(mem, depth, address, value);
      RolledAccess(h, a, MemoryRoot(h, mem, depth), h.Hash(word));
      WriteRolls(h, mem, depth, 0, NodeIndex(address, 0), word);
    }
  }

  // ---------------------------------------------------------------------------------------------
  // Accepted writes of nodes
  // ---------------------------------------------------------------------------------------------

  /** As many siblings as there are levels above the node. */
  predicate HasFullPath<T>(a: Access<T>, depth: nat) {
    a.siblings.Some? && Height(a.log2Size) + |a.siblings.value| == depth
  }

  /** An accepted write of a node leads to the true root exactly when its entry has a full path. */
  lemma NodeWriteIsTrueIff<T(!new)>(h: Hasher<T>, mem: Memory, depth: nat, a: Access<T>, address: nat, k: nat,
                                    data: Bytes)
    returns (c: Clash<T>)
    requires IsMemory(mem, depth) && AddressInTree(depth, k, address) && |data| == Span(k)
    requires CheckWriteNode(h, MemoryRoot(h, mem, depth), a, address, k, data).Some?
    ensures || (CheckWriteNode(h, MemoryRoot(h, mem, depth), a, address, k, data)
                == Some(MemoryRoot(h, StoreNode(mem, depth, k, address, data), depth))
                <==> HasFullPath(a, depth))
            || Clashes(h, c)
  {
    hide Roll, PathSiblings, MemoryRoot, Clashes, RollProof, MayMakeProof, NodeIndex, Block, WriteBlock, DataHash,
         HashesTo;
    var root, q, mem' := MemoryRoot(h, mem, depth), NodeIndex(address, k), StoreNode(mem, depth, k, address, data);
    RolledAccess(h, a, root, a.readHash);
    RolledAccess(h, a, root, DataHash(h, data, k));
    assert a.siblings.Some? by { MakesProof(a); }
    if HasFullPath(a, depth) {
      c := OpenAt(h, mem, depth, k, q, a.readHash, a.siblings.value);
      WriteRolls(h, mem, depth, k, q, data);
    } else if Roll(h, DataHash(h, data, k), q, a.siblings.value) == MemoryRoot(h, mem', depth) {
      c := OpenData(h, mem', depth, k, q, data, a.siblings.value);
    } else {
      c := NoClash;
    }
  }

  lemma MakesProof<T>(a: Access<T>)
    requires MayMakeProof(a)
    ensures a.siblings.Some?
  {
  }

  /** An entry that carries the data it overwrites has a full path. */
  lemma ReadDataGivesFullPath<T>(h: Hasher<T>, mem: Memory, depth: nat, a: Access<T>, address: nat, k: nat, data: Bytes)
    returns (c: Clash<T>)
    requires IsMemory(mem, depth) && |data| == Span(k) && a.read.Some?
    requires CheckWriteNode(h, MemoryRoot(h, mem, depth), a, address, k, data).Some?
    ensures HasFullPath(a, depth) || Clashes(h, c)
  {
    hide Roll, MemoryRoot, Clashes, RollProof, NodeIndex, DataHash;
    RolledAccess(h, a, MemoryRoot(h, mem, depth), a.readHash);
    c := OpenData(h, mem, depth, k, NodeIndex(address, k), a.read.value, a.siblings.value);
  }

  /** The entry with no path at all, whose hash before the write is the root hash itself. */
  function PathlessEntry<T>(h: Hasher<T>, root: T, address: nat, k: nat, data: Bytes): Access<T>
    requires |data| == Span(k)
  {
    Access(Write, address, k + WORD_LOG2_SIZE, None, root, None, Some(DataHash(h, data, k)), Some([]))
  }

  /** It is accepted against every root, and leads to the hash of the written data alone. */
  lemma PathlessEntryIsAccepted<T>(h: Hasher<T>, root: T, address: nat, k: nat, data: Bytes)
    requires |data| == Span(k)
    ensures CheckWriteNode(h, root, PathlessEntry(h, root, address, k, data), address, k, data)
         == Some(DataHash(h, data, k))
  {
    hide DataHash, NodeIndex, RollProof;
    var a := PathlessEntry(h, root, address, k, data);
    RolledAccess(h, a, root, root);
    RolledAccess(h, a, root, DataHash(h, data, k));
  }

  /** Rolling looks only at as many bits of the index as there are siblings. */
  lemma {:induction false} RollModulo<T>(h: Hasher<T>, hash: T, q: nat, m: nat, n: nat, siblings: seq<T>)
    requires n == q + m * Pow2(|siblings|)
    ensures Roll(h, hash, n, siblings) == Roll(h, hash, q, siblings)
    decreases |siblings|
  {
    if siblings != [] {
      var p := Pow2(|siblings| - 1);
      DoubleBlock(m, p);
      assert n / 2 == q / 2 + m * p && n % 2 == q % 2;
      RollModulo(h, Parent(h, q, hash, siblings[0]), q / 2, m, n / 2, siblings[1..]);
    }
  }

  /** The index of the tree word of an address, once the address is taken modulo 2^k words. */
  function IndexWithin(k: nat, address: nat): nat { NodeIndex(address, 0) % Pow2(k) }

  /** That word in data of 2^k words. */
  function WordWithin(data: Bytes, k: nat, address: nat): (r: Bytes)
    requires |data| == Span(k)
    ensures |r| == WORD_SIZE
  {
    WordWithinFits(k, address);
    Block(data, k, 0, IndexWithin(k, address))
  }

  lemma WordWithinFits(k: nat, address: nat)
    ensures InTree(k, 0, IndexWithin(k, address))
  {
  }

  /** A read of that word, opened against the data alone. */
  function ReadWithin<T>(h: Hasher<T>, data: Bytes, k: nat, address: nat): Access<T>
    requires |data| == Span(k)
  {
    var word := WordWithin(data, k, address);
    Access(Read, address, ACCESS_LOG2_SIZE, Some(word), h.Hash(word), None, None,
           Some(PathSiblings(h, data, k, 0, IndexWithin(k, address))))
  }

  lemma ReadWithinRolls<T>(h: Hasher<T>, data: Bytes, k: nat, address: nat)
    requires |data| == Span(k)
    ensures var a := ReadWithin(h, data, k, address);
            Roll(h, a.readHash, NodeIndex(address, 0), a.siblings.value) == DataHash(h, data, k)
  {
    var a, q := ReadWithin(h, data, k, address), IndexWithin(k, address);
    WordWithinFits(k, address);
    RollWithin(h, a.readHash, k, address, a.siblings.value);
    DataHashOfWord(h, Block(data, k, 0, q));
    hide Roll, MemoryRoot, PathSiblings, Block, NodeIndex, IndexWithin;
    RootIsDataHash(h, data, k);
    BlockRolls(h, data, k, 0, q);
  }

  lemma RollWithin<T>(h: Hasher<T>, hash: T, k: nat, address: nat, siblings: seq<T>)
    requires |siblings| == k
    ensures Roll(h, hash, NodeIndex(address, 0), siblings) == Roll(h, hash, IndexWithin(k, address), siblings)
  {
    hide Roll, NodeIndex, Pow2, IndexWithin;
    var m := Above(k, address);
    RollModulo(h, hash, IndexWithin(k, address), m, NodeIndex(address, 0), siblings);
  }

  lemma Above(k: nat, address: nat) returns (m: nat)
    ensures NodeIndex(address, 0) == IndexWithin(k, address) + m * Pow2(k)
  {
    hide NodeIndex, Pow2;
    m := NodeIndex(address, 0) / Pow2(k);
  }

  /** Against the hash of the data it is accepted, whichever bits of the address lie above the data. */
  lemma ReadWithinIsAccepted<T>(h: Hasher<T>, data: Bytes, k: nat, address: nat)
    requires |data| == Span(k)
    ensures CheckRead(h, DataHash(h, data, k), ReadWithin(h, data, k, address), address, ACCESS_LOG2_SIZE)
         == Some(WordWithin(data, k, address))
  {
    var a, root := ReadWithin(h, data, k, address), DataHash(h, data, k);
    SpanOfSize(0);
    ReadWithinRolls(h, data, k, address);
    assert HashesTo(h, WordWithin(data, k, address), 0, a.readHash);
    hide Roll, PathSiblings, RollProof, NodeIndex, WordWithin, DataHash, HashesTo;
    RolledAccess(h, a, root, a.readHash);
  }

  /**
    So is a whole log of an operation that writes a node and then reads a word, as the reset of the uarch
    does: after the entry without siblings, reads open against the written data alone. The log ends at the
    hash of that data, which is not the true root unless the operation reverts, or exhibits a clash.
   */
  lemma PathlessLogIsAccepted<T(!new)>(h: Hasher<T>, p: Program, mem: Memory, depth: nat, address: nat, k: nat,
                                       data: Bytes, y: nat)
    returns (c: Clash<T>)
    requires IsMemory(mem, depth) && Fits(p, depth) && k < depth && |data| == Span(k)
    requires p.Next([]) == WriteNode(address, k, data) && p.Next([data]) == ReadWord(y)
    requires p.Next([data, GetWord(WordWithin(data, k, y), Offset(y))]) == Done
    ensures var root := MemoryRoot(h, mem, depth);
            Replay(h, p, root, [PathlessEntry(h, root, address, k, data), ReadWithin(h, data, k, y)], depth, [])
            == Some(DataHash(h, data, k))
    ensures var f := Run(p, mem, depth, []);
            f.revert.Some? || DataHash(h, data, k) != RootOf(h, f, depth) || Clashes(h, c)
  {
    hide DataHash, MemoryRoot, CheckWriteNode, CheckRead, Clashes, PathlessEntry, ReadWithin, WordWithin, Run;
    var root, a, b := MemoryRoot(h, mem, depth), PathlessEntry(h, MemoryRoot(h, mem, depth), address, k, data),
                      ReadWithin(h, data, k, y);
    var w := GetWord(WordWithin(data, k, y), Offset(y));
    PathlessEntryIsAccepted(h, root, address, k, data);
    ReadWithinIsAccepted(h, data, k, y);
    assert [] + [data] == [data] && [data] + [w] == [data, w];
    assert [a, b][1..] == [b] && [b][1..] == [];
    assert Replay(h, p, DataHash(h, data, k), [], depth, [data, w]) == Some(DataHash(h, data, k));
    assert Replay(h, p, DataHash(h, data, k), [b], depth, [data]) == Some(DataHash(h, data, k));
    c := NoClash;
    var f := Run(p, mem, depth, []);
    if f.revert.None? && DataHash(h, data, k) == MemoryRoot(h, f.mem, depth) {
      RollNothing(h, DataHash(h, data, k), 0);
      c := OpenData(h, f.mem, depth, k, 0, data, []);
    }
  }

  // ---------------------------------------------------------------------------------------------
  // Accepted logs
  // ---------------------------------------------------------------------------------------------

  /** The check the replay leaves out: every write of a node has a full path. */
  predicate NodeWritesHaveFullPaths<T>(log: seq<Access<T>>, depth: nat) {
    forall i :: 0 <= i < |log| && log[i].kind == Write && log[i].log2Size >= WORD_LOG2_SIZE ==>
      HasFullPath(log[i], depth)
  }

  /**
    Replaying any log whose writes of nodes have full paths, from the memory's root, either is rejected,
    or returns the root hash the program really leads to, or exhibits a clash.
   */
  lemma {:induction false} AcceptedLogIsTrue<T(!new)>(h: Hasher<T>, p: Program, mem: Memory, log: seq<Access<T>>,
                                                     depth: nat, seen: seq<Bytes>)
    returns (c: Clash<T>)
    requires IsMemory(mem, depth) && Fits(p, depth) && NodeWritesHaveFullPaths(log, depth)
    requires Replay(h, p, MemoryRoot(h, mem, depth), log, depth, seen).Some?
    ensures || Replay(h, p, MemoryRoot(h, mem, depth), log, depth, seen)
               == Some(RootOf(h, Run(p, mem, depth, seen), depth))
            || Clashes(h, c)
    decreases p.bound - |seen|
  {
    hide MemoryRoot, Clashes, CheckWrite, CheckWriteNode, SiblingsHold, ReadDataHolds, PathSiblings, NodeAt, Store,
         StoreNode, HasFullPath, AddressInTree;
    c := NoClash;
    assert OpFits(p.Next(seen), depth);
    if log != [] {
      RestHasFullPaths(log, depth);
    }
    match p.Next(seen)
    case Done =>
    case Revert(address) =>
      c := AccessOpens(h, mem, depth, log[0], Read, address, WORD_LOG2_SIZE);
    case ReadWord(address) =>
      c := AccessOpens(h, mem, depth, log[0], Read, address, ACCESS_LOG2_SIZE);
      if !Clashes(h, c) {
        c := AcceptedLogIsTrue(h, p, mem, log[1..], depth, seen + [Load(mem, depth, address)]);
      }
    case WriteWord(address, value) =>
      c := WriteIsTrue(h, mem, depth, log[0], address, value);
      if !Clashes(h, c) {
        c := AcceptedLogIsTrue(h, p, Store(mem, depth, address, value), log[1..], depth, seen + [value]);
      }
    case WriteNode(address, k, data) =>
      WritesNode(h, MemoryRoot(h, mem, depth), log[0], address, k, data);
      c := NodeWriteIsTrueIff(h, mem, depth, log[0], address, k, data);
      if !Clashes(h, c) {
        c := AcceptedLogIsTrue(h, p, StoreNode(mem, depth, k, address, data), log[1..], depth, seen + [data]);
      }
  }

  lemma RestHasFullPaths<T>(log: seq<Access<T>>, depth: nat)
    requires log != [] && NodeWritesHaveFullPaths(log, depth)
    ensures NodeWritesHaveFullPaths(log[1..], depth)
    ensures log[0].kind == Write && log[0].log2Size >= WORD_LOG2_SIZE ==> HasFullPath(log[0], depth)
  {
    hide HasFullPath;
    assert forall i :: 0 <= i < |log| - 1 ==> log[1..][i] == log[i + 1];
  }

  lemma WritesNode<T>(h: Hasher<T>, root: T, a: Access<T>, address: nat, k: nat, data: Bytes)
    requires |data| == Span(k) && CheckWriteNode(h, root, a, address, k, data).Some?
    ensures a.kind == Write && a.log2Size >= WORD_LOG2_SIZE
  {
    hide DataHash, MayMakeProof, RollProof;
  }

  /** A recorded log passes the check. */
  lemma {:induction false} RecordedPathsAreFull<T>(h: Hasher<T>, p: Program, mem: Memory, depth: nat, large: bool,
                                                   seen: seq<Bytes>)
    requires IsMemory(mem, depth) && Fits(p, depth)
    ensures NodeWritesHaveFullPaths(Record(h, p, mem, depth, large, seen), depth)
    decreases p.bound - |seen|
  {
    hide DataHash, PathSiblings, Block, WriteBlock;
    assert OpFits(p.Next(seen), depth);
    match p.Next(seen)
    case Done =>
    case Revert(address) =>
    case ReadWord(address) =>
      RecordedPathsAreFull(h, p, mem, depth, large, seen + [Load(mem, depth, address)]);
    case WriteWord(address, value) =>
      RecordedPathsAreFull(h, p, Store(mem, depth, address, value), depth, large, seen + [value]);
    case WriteNode(address, k, data) =>
      RecordedPathsAreFull(h, p, StoreNode(mem, depth, k, address, data), depth, large, seen + [data]);
  }

  /** A program that writes words only. */
  ghost predicate WritesWordsOnly(p: Program) {
    forall seen: seq<Bytes> :: !p.Next(seen).WriteNode?
  }

  /** Of such a program every accepted log passes the check, so its replay needs none. */
  lemma {:induction false} WordLogsNeedNoCheck<T>(h: Hasher<T>, p: Program, root: T, log: seq<Access<T>>, depth: nat,
                                                  seen: seq<Bytes>)
    requires Fits(p, depth) && WritesWordsOnly(p) && Replay(h, p, root, log, depth, seen).Some?
    ensures NodeWritesHaveFullPaths(log, depth)
    decreases p.bound - |seen|
  {
    hide ReadDataHolds, HasFullPath, MayMakeProof, VerifySlice, RollProof;
    assert OpFits(p.Next(seen), depth) && !p.Next(seen).WriteNode?;
    match p.Next(seen)
    case Done =>
    case Revert(address) =>
    case ReadWord(address) =>
      var word := CheckRead(h, root, log[0], address, ACCESS_LOG2_SIZE);
      WordLogsNeedNoCheck(h, p, root, log[1..], depth, seen + [GetWord(word.value, Offset(address))]);
      assert log == [log[0]] + log[1..];
    case WriteWord(address, value) =>
      var after := CheckWrite(h, root, log[0], address, value);
      WordLogsNeedNoCheck(h, p, after.value, log[1..], depth, seen + [value]);
      assert log == [log[0]] + log[1..];
  }
}
