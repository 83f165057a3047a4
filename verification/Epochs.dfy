/**
  The pieces put together: epochs resumed from nothing but the last proof of the one before, and the two
  implementations of the incremental tree side by side.
 */
module Epochs {
  import opened Merkle
  import opened BinaryCounter
  import opened FrontierProofs
  import F = Frontier
  import TreeHash
  import opened DataRoot

  /** Proving an epoch's outputs and resuming from the last proof is pushing them one by one. */
  method ResumeEpoch<T>(h: Hasher<T>, z: T, f: Slots<T>, next: seq<T>, ghost earlier: seq<T>)
    returns (f': Slots<T>)
    requires next != [] && f == SlotsOf(h, earlier, |f|) && |earlier| + |next| < Pow2(|f|)
    ensures f' == PushAll(h, f, next) && f' == SlotsOf(h, earlier + next, |f|)
  {
    hide SlotsOf, PushAll;
    var frontier := new F.Frontier(h, f);
    var count := frontier.LeafCount();
    SlotsOfCount(h, earlier, |f|);
    var proofs := NextProofs(h, z, f, count, next, earlier);
    f' := FrontierOf(h, proofs[|proofs| - 1], z, earlier + next);
    PushAllKeepsSlots(h, earlier, |f|, next);
  }

  function Concat<T>(epochs: seq<seq<T>>): seq<T> {
    if epochs == [] then [] else Concat(epochs[..|epochs| - 1]) + epochs[|epochs| - 1]
  }

  /** However the outputs fall into epochs, resuming from proofs alone keeps the one tree from genesis. */
  method ResumeEpochs<T>(h: Hasher<T>, z: T, log2: nat, epochs: seq<seq<T>>) returns (f: Slots<T>, root: T)
    requires |Concat(epochs)| < Pow2(log2)
    ensures f == PushAll(h, Empty(log2), Concat(epochs)) && root == Root(h, z, Concat(epochs), log2)
  {
    hide SlotsOf, PushAll, Node, RootOfSlots;
    f := Empty(log2);
    NoLeavesNoSlots(h, log2);
    for i := 0 to |epochs|
      invariant f == SlotsOf(h, Concat(epochs[..i]), log2)
    {
      assert epochs[..i + 1][..i] == epochs[..i];
      ConcatPrefix(epochs, i + 1);
      if epochs[i] != [] {
        f := ResumeEpoch(h, z, f, epochs[i], Concat(epochs[..i]));
      } else {
        assert Concat(epochs[..i]) + epochs[i] == Concat(epochs[..i]);
      }
    }
    assert epochs[..|epochs|] == epochs;
    var frontier := new F.Frontier(h, f);
    root := frontier.GetRootHash(z);
    var leaves := Concat(epochs);
    PushAllKeepsSlots(h, [], log2, leaves);
    F.PushedRoot(h, z, [], log2, leaves);
    assert [] + leaves == leaves;
  }

  lemma {:induction false} ConcatPrefix<T>(epochs: seq<seq<T>>, i: nat)
    requires i <= |epochs|
    ensures |Concat(epochs[..i])| <= |Concat(epochs)|
    decreases |epochs| - i
  {
    if i == |epochs| {
      assert epochs[..i] == epochs;
    } else {
      assert epochs[..i + 1][..i] == epochs[..i];
      ConcatPrefix(epochs, i + 1);
    }
  }

  /**
    The Lua table of height `log2` and the C++ tree of the same height, after the same leaves: the same
    hash at every level, the extra C++ slot empty, and the Lua root is the C++ root after padding with
    the pristine leaf.
   */
  lemma ImplementationsAgree<T>(h: Hasher<T>, z: T, log2: nat, leaves: seq<T>)
    requires |leaves| < Pow2(log2)
    ensures var lua, cpp := PushAll(h, Empty(log2), leaves), PushAll(h, Empty(log2 + 1), leaves);
            && cpp == lua + [None]
            && |Pad(h, cpp, z, Pow2(log2) - |leaves|)| == log2 + 1
            && Pad(h, cpp, z, Pow2(log2) - |leaves|)[log2] == Some(RootOfSlots(h, lua, z, z))
  {
    hide SlotsOf, PushAll, Node, RootOfSlots, Pad;
    var m := Pow2(log2);
    assert Pow2(log2 + 1) == 2 * m;
    NoLeavesNoSlots(h, log2);
    NoLeavesNoSlots(h, log2 + 1);
    assert [] + leaves == leaves;
    PushAllKeepsSlots(h, [], log2, leaves);
    PushAllKeepsSlots(h, [], log2 + 1, leaves);
    WiderSlots(h, leaves, log2);
    F.PushedRoot(h, z, [], log2, leaves);
    TreeHash.PushedThenPadded(h, z, log2, leaves);
  }

  /**
    Hashing the words of some data with the C++ tree, padded with the hash of a zero word, gives the same
    root as the Lua `get_root_hash`.
   */
  method BothRoots<T(0,==)>(h: Hasher<T>, data: Bytes, log2Root: nat) returns (lua: T, cpp: T)
    requires WORD_LOG2_SIZE <= log2Root < 63 && 0 < |data| <= Pow2(log2Root)
    ensures lua == cpp == Root(h, ZeroWordHash(h), WordHashes(h, data), log2Root - WORD_LOG2_SIZE)
  {
    hide Node, WordHashes;
    var outcome := DataRoot.GetRootHash(h, data, log2Root);
    lua := outcome.hash;
    var words := HashWords(h, data);
    WordsFit(|data|, log2Root);
    var result := TreeHash.HashLeaves(words, log2Root, WORD_LOG2_SIZE, WORD_LOG2_SIZE, h);
    WordSize();
    cpp := result.value;
  }

  lemma WordSize()
    ensures Pow2(WORD_LOG2_SIZE) == WORD_SIZE
  {
    assert Pow2(5) == 2 * (2 * (2 * Pow2(2)));
  }

  lemma WordsFit(n: nat, log2: nat)
    requires n <= Pow2(log2) && log2 >= 5
    ensures (n + 31) / 32 <= Pow2(log2 - 5)
  {
    assert Pow2(log2) == 2 * Pow2(log2 - 1) && Pow2(log2 - 1) == 2 * Pow2(log2 - 2);
    assert Pow2(log2 - 2) == 2 * Pow2(log2 - 3) && Pow2(log2 - 3) == 2 * Pow2(log2 - 4);
    assert Pow2(log2 - 4) == 2 * Pow2(log2 - 5);
  }
}
