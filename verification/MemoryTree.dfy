/**
  The machine's memory and its hash tree.

  Memory is a string of bytes whose words of 32 bytes are the leaves of the tree. A block is the memory
  under one node of the tree, and writing a block is what every access that changes the memory does.
 */
module MemoryTree {
  import opened Merkle
  import opened Proofs

  type Memory = Bytes

  /** The number of bytes under a node of height `k`. */
  function Span(k: nat): (r: nat)
    ensures r > 0
  {
    WORD_SIZE * Pow2(k)
  }

  /** Where the block of node `q` of height `k` starts. */
  function BlockStart(k: nat, q: nat): nat { q * Span(k) }

  predicate IsMemory(mem: Memory, depth: nat) { |mem| == Span(depth) }

  /** `get_merkle_tree_hash`: the root hash of a string of 2^k words. */
  function DataHash<T>(h: Hasher<T>, data: Bytes, k: nat): T
    requires |data| == Span(k)
  {
    if k == 0 then h.Hash(data)
    else h.Concat(DataHash(h, data[..Span(k - 1)], k - 1), DataHash(h, data[Span(k - 1)..], k - 1))
  }

  /** Node `q` of height `k` lies inside a tree of the given depth. */
  predicate InTree(depth: nat, k: nat, q: nat) {
    k <= depth && q < Pow2(depth - k)
  }

  lemma BlockFits(depth: nat, k: nat, q: nat)
    requires InTree(depth, k, q)
    ensures BlockStart(k, q) + Span(k) <= Span(depth)
  {
    PowersMultiply(depth - k, k);
    SpanFits(q, Pow2(k), Pow2(depth - k));
  }

  lemma SpanFits(q: nat, p: nat, r: nat)
    requires q + 1 <= r
    ensures q * (WORD_SIZE * p) + WORD_SIZE * p <= WORD_SIZE * (r * p)
  {
    assert (q + 1) * p <= r * p;
    WordsOfSpan(q, p);
  }

  lemma WordsOfSpan(q: nat, p: nat)
    ensures q * (WORD_SIZE * p) == WORD_SIZE * (q * p) && (q + 1) * p == q * p + p
  {
  }

  function Block(mem: Memory, depth: nat, k: nat, q: nat): (r: Bytes)
    requires IsMemory(mem, depth) && InTree(depth, k, q)
    ensures |r| == Span(k)
  {
    BlockFits(depth, k, q);
    mem[BlockStart(k, q)..BlockStart(k, q) + Span(k)]
  }

  function WriteBlock(mem: Memory, depth: nat, k: nat, q: nat, data: Bytes): (r: Memory)
    requires IsMemory(mem, depth) && InTree(depth, k, q) && |data| == Span(k)
    ensures IsMemory(r, depth)
  {
    BlockFits(depth, k, q);
    mem[..BlockStart(k, q)] + data + mem[BlockStart(k, q) + Span(k)..]
  }

  function LeafHashes<T>(h: Hasher<T>, mem: Memory, depth: nat): (r: seq<T>)
    requires IsMemory(mem, depth)
    ensures |r| == Pow2(depth)
    ensures forall i :: 0 <= i < |r| ==> r[i] == h.Hash(Block(mem, depth, 0, i))
  {
    seq(Pow2(depth), i requires 0 <= i < Pow2(depth) => h.Hash(Block(mem, depth, 0, i)))
  }

  /** The root hash of the machine. */
  function MemoryRoot<T>(h: Hasher<T>, mem: Memory, depth: nat): T
    requires IsMemory(mem, depth)
  {
    Root(h, ZeroWordHash(h), LeafHashes(h, mem, depth), depth)
  }

  /** The siblings on the path from node `q` of height `k` to the root. */
  function PathSiblings<T>(h: Hasher<T>, mem: Memory, depth: nat, k: nat, q: nat): (r: seq<T>)
    requires IsMemory(mem, depth) && k <= depth
    ensures |r| == depth - k
  {
    SiblingsOf(h, ZeroWordHash(h), LeafHashes(h, mem, depth), k, q, depth - k)
  }

  // ---------------------------------------------------------------------------------------------
  // Nodes are the hashes of their blocks
  // ---------------------------------------------------------------------------------------------

  lemma ChildrenInTree(depth: nat, k: nat, q: nat)
    requires k > 0 && InTree(depth, k, q)
    ensures InTree(depth, k - 1, 2 * q) && InTree(depth, k - 1, 2 * q + 1)
  {
    assert Pow2(depth - (k - 1)) == 2 * Pow2(depth - k);
  }

  lemma Halves(mem: Memory, depth: nat, k: nat, q: nat)
    requires IsMemory(mem, depth) && k > 0 && InTree(depth, k, q)
    ensures InTree(depth, k - 1, 2 * q) && InTree(depth, k - 1, 2 * q + 1)
    ensures Span(k - 1) <= Span(k)
    ensures Block(mem, depth, k, q)[..Span(k - 1)] == Block(mem, depth, k - 1, 2 * q)
    ensures Block(mem, depth, k, q)[Span(k - 1)..] == Block(mem, depth, k - 1, 2 * q + 1)
  {
    ChildrenInTree(depth, k, q);
    BlockFits(depth, k, q);
    BlockFits(depth, k - 1, 2 * q);
    BlockFits(depth, k - 1, 2 * q + 1);
    HalfSpan(k, q);
    hide Pow2, Span, InTree, BlockStart;
  }

  lemma HalfSpan(k: nat, q: nat)
    requires k > 0
    ensures Span(k) == 2 * Span(k - 1)
    ensures BlockStart(k, q) == BlockStart(k - 1, 2 * q)
    ensures BlockStart(k - 1, 2 * q + 1) == BlockStart(k - 1, 2 * q) + Span(k - 1)
  {
  }

  /** The hash of a node is the hash of the block under it. */
  lemma {:induction false} BlockIsNode<T>(h: Hasher<T>, mem: Memory, depth: nat, k: nat, q: nat)
    requires IsMemory(mem, depth) && InTree(depth, k, q)
    ensures Node(h, ZeroWordHash(h), LeafHashes(h, mem, depth), k, q) == DataHash(h, Block(mem, depth, k, q), k)
    decreases k
  {
    hide LeafHashes, Block;
    if k > 0 {
      Halves(mem, depth, k, q);
      BlockIsNode(h, mem, depth, k - 1, 2 * q);
      BlockIsNode(h, mem, depth, k - 1, 2 * q + 1);
    }
  }

  lemma WholeBlock(mem: Memory, depth: nat)
    requires IsMemory(mem, depth)
    ensures InTree(depth, depth, 0) && Block(mem, depth, depth, 0) == mem
  {
  }

  lemma RootIsDataHash<T>(h: Hasher<T>, mem: Memory, depth: nat)
    requires IsMemory(mem, depth)
    ensures MemoryRoot(h, mem, depth) == DataHash(h, mem, depth)
  {
    WholeBlock(mem, depth);
    BlockIsNode(h, mem, depth, depth, 0);
  }

  /** The hash of a block rolls up its true siblings to the root. */
  lemma BlockRolls<T>(h: Hasher<T>, mem: Memory, depth: nat, k: nat, q: nat)
    requires IsMemory(mem, depth) && InTree(depth, k, q)
    ensures Roll(h, DataHash(h, Block(mem, depth, k, q), k), q, PathSiblings(h, mem, depth, k, q))
         == MemoryRoot(h, mem, depth)
  {
    hide Node, Roll, SiblingsOf, LeafHashes, Block, DataHash;
    BlockIsNode(h, mem, depth, k, q);
    TrueProofRolls(h, ZeroWordHash(h), LeafHashes(h, mem, depth), k, q, depth - k);
    ShrSmall(q, depth - k);
  }

  // ---------------------------------------------------------------------------------------------
  // Writing a block changes one node
  // ---------------------------------------------------------------------------------------------

  lemma WrittenBlock(mem: Memory, depth: nat, k: nat, q: nat, data: Bytes)
    requires IsMemory(mem, depth) && InTree(depth, k, q) && |data| == Span(k)
    ensures Block(WriteBlock(mem, depth, k, q, data), depth, k, q) == data
  {
    BlockFits(depth, k, q);
  }

  /** A word outside the written block stays as it is. */
  lemma OtherWord(mem: Memory, depth: nat, k: nat, q: nat, data: Bytes, i: nat)
    requires IsMemory(mem, depth) && InTree(depth, k, q) && |data| == Span(k) && i < Pow2(depth)
    requires i < q * Pow2(k) || i >= (q + 1) * Pow2(k)
    ensures Block(WriteBlock(mem, depth, k, q, data), depth, 0, i) == Block(mem, depth, 0, i)
  {
    BlockFits(depth, k, q);
    BlockFits(depth, 0, i);
    BytesApart(q, k, i);
    hide Pow2, Span, InTree, BlockStart;
    SliceOutside(mem, BlockStart(k, q), data, BlockStart(0, i), BlockStart(0, i) + Span(0));
  }

  lemma BytesApart(q: nat, k: nat, i: nat)
    requires i < q * Pow2(k) || i >= (q + 1) * Pow2(k)
    ensures BlockStart(0, i) + Span(0) <= BlockStart(k, q) || BlockStart(0, i) >= BlockStart(k, q) + Span(k)
  {
    WordsOfSpan(q, Pow2(k));
  }

  lemma SliceOutside(mem: Memory, at: nat, data: Bytes, lo: nat, hi: nat)
    requires at + |data| <= |mem| && lo <= hi <= |mem|
    requires hi <= at || lo >= at + |data|
    ensures (mem[..at] + data + mem[at + |data|..])[lo..hi] == mem[lo..hi]
  {
  }

  lemma OtherNodes<T(!new)>(h: Hasher<T>, mem: Memory, depth: nat, k: nat, q: nat, data: Bytes)
    requires IsMemory(mem, depth) && InTree(depth, k, q) && |data| == Span(k)
    ensures DifferOnlyAt(h, ZeroWordHash(h), LeafHashes(h, mem, depth),
                         LeafHashes(h, WriteBlock(mem, depth, k, q, data), depth), k, q)
  {
    hide Block, WriteBlock, Node;
    var z, s := ZeroWordHash(h), LeafHashes(h, mem, depth);
    var s' := LeafHashes(h, WriteBlock(mem, depth, k, q, data), depth);
    forall p: nat {:trigger Node(h, z, s, k, p)} | p != q
      ensures Node(h, z, s, k, p) == Node(h, z, s', k, p)
    {
      forall i: nat | p * Pow2(k) <= i < (p + 1) * Pow2(k)
        ensures At(s, z, i) == At(s', z, i)
      {
        if i < Pow2(depth) {
          Apart(p, q, Pow2(k), i);
          OtherWord(mem, depth, k, q, data, i);
        }
      }
      NodeDependsOnBlock(h, z, s, z, s', k, p);
    }
  }

  lemma Apart(p: nat, q: nat, n: nat, i: nat)
    requires p != q && p * n <= i < (p + 1) * n
    ensures i < q * n || i >= (q + 1) * n
  {
    if p < q {
      assert (p + 1) * n <= q * n;
    } else {
      assert (q + 1) * n <= p * n;
    }
  }

  /** The hash of new data rolls up the old siblings to the root of the memory after the write. */
  lemma WriteRolls<T(!new)>(h: Hasher<T>, mem: Memory, depth: nat, k: nat, q: nat, data: Bytes)
    requires IsMemory(mem, depth) && InTree(depth, k, q) && |data| == Span(k)
    ensures Roll(h, DataHash(h, data, k), q, PathSiblings(h, mem, depth, k, q))
         == MemoryRoot(h, WriteBlock(mem, depth, k, q, data), depth)
  {
    hide Node, Roll, SiblingsOf, DifferOnlyAt, LeafHashes, Block, WriteBlock, DataHash;
    var mem' := WriteBlock(mem, depth, k, q, data);
    WrittenBlock(mem, depth, k, q, data);
    BlockIsNode(h, mem', depth, k, q);
    OtherNodes(h, mem, depth, k, q, data);
    ShrSmall(q, depth - k);
    SpliceRolls(h, ZeroWordHash(h), LeafHashes(h, mem, depth), LeafHashes(h, mem', depth), k, q, depth - k);
  }
}
