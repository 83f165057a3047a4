/**
  Around the C++ incremental tree: the arrays of pad hashes, carrying a tree over to another process by
  its leaf count and context, and the command-line program that hashes a file with it.
 */
module TreeHash {
  import opened Merkle
  import opened BinaryCounter
  import opened CounterView
  import opened TreeSpec
  import opened BackMerkleTree

  method ValidateLog2MaxLeavesSize(log2Root: int, log2Leaf: int, log2Word: int) returns (r: Result<nat>)
    ensures r.Ok? <==> 0 <= log2Word <= log2Leaf <= log2Root < log2Leaf + 64
    ensures r.Ok? ==> r.value == log2Root - log2Leaf
  {
    if log2Root < 0 || log2Leaf < 0 || log2Word < 0 {
      return Err(NegativeSize);
    }
    if log2Leaf > log2Root {
      return Err(LeafLargerThanRoot);
    }
    if log2Word > log2Leaf {
      return Err(WordLargerThanLeaf);
    }
    if log2Root - log2Leaf >= 64 {
      return Err(SizeTooLarge);
    }
    return Ok(log2Root - log2Leaf);
  }

  /** The hash at index `k` is the root of a subtree of 2^k equal leaves. */
  ghost predicate IsPadHashes<T>(h: Hasher<T>, leaf: T, log2: nat, pads: seq<T>) {
    |pads| == log2 + 1 && IsPadChain(h, pads) &&
    forall k :: 0 <= k <= log2 ==> pads[k] == Pristine(h, leaf, k)
  }

  method MakePadHashes<T(0)>(leaf: T, log2MaxLeaves: nat, h: Hasher<T>) returns (pads: seq<T>)
    ensures IsPadHashes(h, leaf, log2MaxLeaves, pads)
  {
    var hashes := new T[log2MaxLeaves + 1];
    hashes[0] := leaf;
    for i := 1 to hashes.Length
      invariant forall k: nat :: k < i ==> hashes[k] == Pristine(h, leaf, k)
    {
      hashes[i] := h.Concat(hashes[i - 1], hashes[i - 1]);
    }
    pads := hashes[..];
    assert forall k :: 0 <= k <= log2MaxLeaves ==> pads[k] == Pristine(h, leaf, k);
  }

  lemma {:induction false} PristineOfPristine<T>(h: Hasher<T>, z: T, j: nat, k: nat)
    ensures Pristine(h, Pristine(h, z, j), k) == Pristine(h, z, j + k)
  {
    if k > 0 {
      PristineOfPristine(h, z, j, k - 1);
    }
  }

  /** The pad hashes for zeroed leaves that are themselves trees of zeroed words. */
  method MakePristinePadHashes<T(0)>(log2Root: int, log2Leaf: int, log2Word: int, h: Hasher<T>)
    returns (r: Result<seq<T>>)
    ensures r.Ok? <==> 0 <= log2Word <= log2Leaf <= log2Root < log2Leaf + 64
    ensures r.Ok? ==>
              var zeroWord := h.Hash(Repeat<byte>(0, Pow2(log2Word)));
              IsPadHashes(h, Pristine(h, zeroWord, log2Leaf - log2Word), log2Root - log2Leaf, r.value)
  {
    var size := ValidateLog2MaxLeavesSize(log2Root, log2Leaf, log2Word);
    if size.Err? {
      return Err(size.error);
    }
    var zeroWord := h.Hash(Repeat<byte>(0, Pow2(log2Word)));
    var pads := MakePadHashes(zeroWord, log2Root - log2Word, h);
    var erased := log2Leaf - log2Word;
    forall k | 0 <= k <= log2Root - log2Leaf
      ensures pads[erased..][k] == Pristine(h, Pristine(h, zeroWord, erased), k)
    {
      PristineOfPristine(h, zeroWord, erased, k);
    }
    r := Ok(pads[erased..]);
  }

  /** A tree that is not full is rebuilt from its leaf count and context with the same slots. */
  method Rebuild<T(0)>(tree: BackMerkleTree<T>) returns (r: Result<BackMerkleTree<T>>)
    requires tree.Valid()
    ensures r.Ok? <==> !tree.Full()
    ensures r.Ok? ==> r.value.Valid() && r.value.Slots() == tree.Slots() && r.value.hasher == tree.hasher
  {
    var packed := tree.GetContext();
    PackedLength(tree.leafCount, tree.context[..]);
    r := BackMerkleTree.Create(tree.Log2MaxLeaves(), tree.hasher, tree.leafCount, packed);
    if r.Ok? {
      r.value.SlotsCount();
      tree.SlotsCount();
      PackDeterminesSlots(r.value.Slots(), tree.Slots());
    }
  }

  lemma PackedLength<T>(n: nat, c: seq<T>)
    requires c != [] && n <= Pow2(|c| - 1)
    ensures |Pack(View(n, c))| == PopCount(n)
  {
    PackedLengthBelow(n, c, |c|);
    PopBelowAll(n, |c|);
    assert c[..|c|] == c;
  }

  lemma {:induction false} PackedLengthBelow<T>(n: nat, c: seq<T>, i: nat)
    requires i <= |c|
    ensures |Pack(View(n, c[..i]))| == PopBelow(n, i)
    decreases i
  {
    if i > 0 {
      PackedLengthBelow(n, c, i - 1);
      PackOneMore(n, c, i - 1);
      PopBelowStep(n, i - 1);
    }
  }

  /** Pushes leaves one by one; every push after which the count keeps its set bits costs no hash. */
  method PushBackAll<T(0)>(tree: BackMerkleTree<T>, leaves: seq<T>) returns (r: Result<()>)
    requires tree.Valid()
    modifies tree, tree.context
    ensures tree.Valid()
    ensures r.Ok? <==> old(tree.leafCount) + |leaves| <= Pow2(tree.Log2MaxLeaves())
    ensures r.Ok? ==>
              && tree.Slots() == PushAll(tree.hasher, old(tree.Slots()), leaves)
              && tree.leafCount == old(tree.leafCount) + |leaves|
              && tree.hashCalls + PopCount(tree.leafCount)
              == old(tree.hashCalls + PopCount(tree.leafCount)) + |leaves|
  {
    hide PushAll, Push, PopCount;
    assert leaves[0..] == leaves;
    for i := 0 to |leaves|
      invariant tree.Valid() && tree.leafCount == old(tree.leafCount) + i
      invariant PushAll(tree.hasher, tree.Slots(), leaves[i..]) == PushAll(tree.hasher, old(tree.Slots()), leaves)
      invariant tree.hashCalls + PopCount(tree.leafCount) == old(tree.hashCalls + PopCount(tree.leafCount)) + i
    {
      tree.SlotsCount();
      PushAllStep(tree.hasher, tree.Slots(), leaves, i);
      var pushed := tree.PushBack(leaves[i]);
      if pushed.Err? {
        return pushed;
      }
    }
    PushAllNothing(tree.hasher, tree.Slots(), leaves[|leaves|..]);
    r := Ok(());
  }

  lemma PushAllStep<T>(h: Hasher<T>, f: Slots<T>, xs: seq<T>, i: nat)
    requires i < |xs|
    ensures PushAll(h, f, xs[i..]) == PushAll(h, Push(h, f, xs[i]), xs[i + 1..])
  {
    assert xs[i..][1..] == xs[i + 1..];
  }

  lemma PushAllNothing<T>(h: Hasher<T>, f: Slots<T>, xs: seq<T>)
    requires xs == []
    ensures PushAll(h, f, xs) == f
  {
  }

  /**
    The program: pushes the leaf hashes of the file, pads the rest with pristine leaves, and returns the
    root hash, which is the root of the file extended with pristine leaves.
   */
  method HashLeaves<T(0)>(leaves: seq<T>, log2Root: int, log2Leaf: int, log2Word: int, h: Hasher<T>)
    returns (r: Result<T>)
    requires 0 <= log2Word <= log2Leaf <= log2Root < 64
    ensures r.Ok? <==> |leaves| <= Pow2(log2Root - log2Leaf)
    ensures r.Ok? ==>
              var pristine := Pristine(h, h.Hash(Repeat<byte>(0, Pow2(log2Word))), log2Leaf - log2Word);
              r.value == Root(h, pristine, leaves, log2Root - log2Leaf)
  {
    hide View, PushAll, Pad, PadWith, SlotsOf, Count, Root, Pristine, Repeat;
    var log2: nat := log2Root - log2Leaf;
    var pads := MakePristinePadHashes(log2Root, log2Leaf, log2Word, h);
    ghost var z := Pristine(h, h.Hash(Repeat<byte>(0, Pow2(log2Word))), log2Leaf - log2Word);
    PadChainStarts(h, z, log2, pads.value);
    var tree := new BackMerkleTree<T>.Unpacked(h, log2);
    EmptyTreeSlots(h, tree.context[..]);
    var pushed := PushBackAll(tree, leaves);
    if pushed.Err? {
      return Err(pushed.error);
    }
    PushedThenPadded(h, z, log2, leaves);
    PowersFit(log2);
    RoomCheckIsExact(log2, tree.leafCount, Pow2(log2) - tree.leafCount);
    assert Pow2(log2 + 1) == 2 * Pow2(log2);
    PadWithChain(h, tree.Slots(), pads.value, Pow2(log2) - tree.leafCount);
    var padded := tree.PadBack(Pow2(log2) - tree.leafCount, pads.value);
    PadNothing(h, PushAll(h, SlotsOf(h, [], log2 + 1), leaves), z);
    r := tree.GetRootHash();
  }

  lemma PadChainStarts<T>(h: Hasher<T>, leaf: T, log2: nat, pads: seq<T>)
    requires IsPadHashes(h, leaf, log2, pads)
    ensures pads[0] == leaf
  {
    assert pads[0] == Pristine(h, leaf, 0);
  }

  lemma PadNothing<T>(h: Hasher<T>, f: Slots<T>, x: T)
    ensures Pad(h, f, x, 0) == f
  {
  }

  lemma EmptyTreeSlots<T>(h: Hasher<T>, c: seq<T>)
    ensures View(0, c) == SlotsOf(h, [], |c|)
  {
    ViewOfZero(c);
    NoLeavesNoSlots(h, |c|);
  }

  lemma {:induction false} ManyPaddingsAreInvisible<T>(h: Hasher<T>, z: T, s: seq<T>, k: nat, n: nat)
    ensures Root(h, z, s + Repeat(z, n), k) == Root(h, z, s, k)
    decreases n
  {
    if n == 0 {
      assert s + Repeat(z, 0) == s;
    } else {
      ManyPaddingsAreInvisible(h, z, s, k, n - 1);
      PaddingIsInvisible(h, z, s + Repeat(z, n - 1), k, 0);
      assert s + Repeat(z, n - 1) + [z] == s + Repeat(z, n);
    }
  }

  /** Pushing the leaves and padding up to the full tree puts the padded root in the last slot. */
  lemma PushedThenPadded<T>(h: Hasher<T>, z: T, log2: nat, leaves: seq<T>)
    requires |leaves| <= Pow2(log2)
    ensures var f, n := PushAll(h, SlotsOf(h, [], log2 + 1), leaves), Pow2(log2) - |leaves|;
            Count(f) == |leaves| && |f| == log2 + 1 &&
            Pad(h, f, z, n) == SlotsOf(h, leaves + Repeat(z, n), log2 + 1) &&
            SlotsOf(h, leaves + Repeat(z, n), log2 + 1)[log2] == Some(Root(h, z, leaves, log2))
  {
    hide PushAll, Pad, SlotsOf, Count, Node;
    var n, m := Pow2(log2) - |leaves|, Pow2(log2);
    var full := leaves + Repeat(z, n);
    assert Pow2(log2 + 1) == 2 * m;
    PushAllKeepsSlots(h, [], log2 + 1, leaves);
    assert [] + leaves == leaves;
    SlotsOfCount(h, leaves, log2 + 1);
    PadKeepsSlots(h, leaves, log2 + 1, z, n);
    FullSlotIsRoot(h, z, full, log2);
    ManyPaddingsAreInvisible(h, z, leaves, log2, n);
  }
}
