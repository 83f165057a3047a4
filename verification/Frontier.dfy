/**
  The Lua accumulator (src/cartesi/hash-tree.lua): the frontier of an epoch, the proofs of the outputs of
  an epoch, and the frontier recovered from the last of those proofs.
 */
module Frontier {
  import opened Merkle
  import opened BinaryCounter

  /** The table of `hash | false`, one entry per level, updated in place. */
  class Frontier<T> {
    const hasher: Hasher<T>
    var levels: Slots<T>

    constructor (hasher: Hasher<T>, levels: Slots<T>)
      ensures this.hasher == hasher && this.levels == levels
    {
      this.hasher := hasher;
      this.levels := levels;
    }

    /** Folds one leaf into the table; only a table with every level present grows by one. */
    method PushBack(hash: T)
      modifies this
      ensures levels == Push(hasher, old(levels), hash)
    {
      hide Push;
      var right, level := hash, 0;
      ghost var f := levels;
      assert levels == Empty(0) + f;
      while level < |levels| && levels[level].Some?
        invariant 0 <= level <= |f| && levels == Empty(level) + f[level..]
        invariant Push(hasher, f, hash) == Empty(level) + Push(hasher, f[level..], right)
      {
        PushCarry(hasher, f, level, right);
        right := hasher.Concat(levels[level].value, right);
        levels := levels[level := None];
        level := level + 1;
      }
      PushStop(hasher, f, level, right);
      if level < |levels| {
        levels := levels[level := Some(right)];
      } else {
        levels := levels + [Some(right)];
      }
    }

    method LeafCount() returns (count: nat)
      ensures count == Count(levels)
    {
      count := 0;
      var level := 0;
      while level < |levels|
        invariant 0 <= level <= |levels| && Count(levels) == count + Pow2(level) * Count(levels[level..])
      {
        CountStep(levels, level);
        if levels[level].Some? {
          count := count + Pow2(level);
        }
        level := level + 1;
      }
    }

    method GetRootHash(pristineLeaf: T) returns (root: T)
      ensures root == RootOfSlots(hasher, levels, pristineLeaf, pristineLeaf)
    {
      root := pristineLeaf;
      var pristine, level := pristineLeaf, 0;
      assert levels[0..] == levels;
      while level < |levels|
        invariant 0 <= level <= |levels|
        invariant RootOfSlots(hasher, levels[level..], root, pristine)
               == RootOfSlots(hasher, levels, pristineLeaf, pristineLeaf)
      {
        assert levels[level..][1..] == levels[level + 1..];
        if levels[level].Some? {
          root := hasher.Concat(levels[level].value, root);
        } else {
          root := hasher.Concat(root, pristine);
        }
        pristine := hasher.Concat(pristine, pristine);
        level := level + 1;
      }
    }
  }

  lemma PushCarry<T>(h: Hasher<T>, f: Slots<T>, level: nat, right: T)
    requires level < |f| && f[level].Some?
    ensures Push(h, f[level..], right) == [None] + Push(h, f[level + 1..], h.Concat(f[level].value, right))
    ensures (Empty(level) + f[level..])[level := None] == Empty(level + 1) + f[level + 1..]
    ensures Empty<T>(level) + [None] == Empty(level + 1)
  {
    assert f[level..][1..] == f[level + 1..];
  }

  lemma PushStop<T>(h: Hasher<T>, f: Slots<T>, level: nat, right: T)
    requires level <= |f| && (level < |f| ==> f[level].None?)
    ensures level < |f| ==>
              Empty(level) + Push(h, f[level..], right) == (Empty(level) + f[level..])[level := Some(right)]
    ensures level == |f| ==> Empty(level) + Push(h, f[level..], right) == Empty(level) + f[level..] + [Some(right)]
  {
    if level < |f| {
      assert f[level..][1..] == f[level + 1..];
    }
  }

  lemma CountStep<T>(f: Slots<T>, level: nat)
    requires level < |f|
    ensures Pow2(level) * Count(f[level..])
         == (if f[level].Some? then Pow2(level) else 0) + Pow2(level + 1) * Count(f[level + 1..])
  {
    assert f[level..][1..] == f[level + 1..];
    Distribute(Pow2(level), if f[level].Some? then 1 else 0, Count(f[level + 1..]));
  }

  lemma Distribute(p: nat, b: nat, c: nat)
    ensures p * (b + 2 * c) == p * b + (2 * p) * c
  {
  }

  /** Pushing leaves onto the frontier of earlier leaves and rooting it gives the padded root of all. */
  lemma PushedRoot<T>(h: Hasher<T>, z: T, s: seq<T>, log2: nat, xs: seq<T>)
    requires |s| + |xs| < Pow2(log2)
    ensures RootOfSlots(h, PushAll(h, SlotsOf(h, s, log2), xs), z, z) == Root(h, z, s + xs, log2)
  {
    hide SlotsOf, PushAll, RootOfSlots, Node;
    PushAllKeepsSlots(h, s, log2, xs);
    RootOfSlotsIsRoot(h, s + xs, log2, z, z);
    PaddingIsInvisible(h, z, s + xs, log2, 0);
  }
}
