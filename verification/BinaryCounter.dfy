/**
  The incremental tree as a binary counter.

  Both implementations in the repository keep one hash per set bit of the leaf count: the root of the
  complete subtree that ends where the lower bits of the count begin. Here that state is a sequence of
  slots, the lowest level first, and each operation is the plain recursion over the levels. The
  imperative code of both implementations is proved against these functions, and the functions are
  proved against the reference tree.
 */
module BinaryCounter {
  import opened Merkle

  type Slots<T> = seq<Option<T>>

  /** `n` empty slots. */
  function Empty<T>(n: nat): Slots<T> { Repeat(None, n) }

  /** The leaf count read back from the slots. */
  function Count<T>(f: Slots<T>): nat {
    if f == [] then 0 else (if f[0].Some? then 1 else 0) + 2 * Count(f[1..])
  }

  /** One leaf: the carry combines it with the occupied slots up to the first empty one. */
  function Push<T>(h: Hasher<T>, f: Slots<T>, x: T): (r: Slots<T>)
    ensures |f| <= |r| <= |f| + 1
  {
    if f == [] then [Some(x)]
    else if f[0].None? then [Some(x)] + f[1..]
    else [None] + Push(h, f[1..], h.Concat(f[0].value, x))
  }

  function PushAll<T>(h: Hasher<T>, f: Slots<T>, xs: seq<T>): Slots<T>
    decreases |xs|
  {
    if xs == [] then f else PushAll(h, Push(h, f, xs[0]), xs[1..])
  }

  /** `n` copies of one leaf, one level at a time: an occupied slot takes one copy, the rest pair up. */
  function Pad<T>(h: Hasher<T>, f: Slots<T>, x: T, n: nat): Slots<T>
    decreases n
  {
    if n == 0 then f
    else
      var taken := f != [] && f[0].Some?;
      var left := if taken then n - 1 else n;
      var rest := if f == [] then [] else if taken then Push(h, f[1..], h.Concat(f[0].value, x)) else f[1..];
      [if left % 2 == 1 then Some(x) else None] + Pad(h, rest, h.Concat(x, x), left / 2)
  }

  /** The same with the pad subtree of every height given: `pads[0]` for this level, and so on up. */
  function PadWith<T>(h: Hasher<T>, f: Slots<T>, pads: seq<T>, n: nat): Slots<T>
    decreases |pads|
  {
    if n == 0 || pads == [] then f
    else
      var x, taken := pads[0], f != [] && f[0].Some?;
      var left := if taken then n - 1 else n;
      var rest := if f == [] then [] else if taken then Push(h, f[1..], h.Concat(f[0].value, x)) else f[1..];
      [if left % 2 == 1 then Some(x) else None] + PadWith(h, rest, pads[1..], left / 2)
  }

  /** The pad hashes of `make_pad_hashes`: each is the hash of the previous one with itself. */
  ghost predicate IsPadChain<T>(h: Hasher<T>, pads: seq<T>) {
    forall k :: 0 <= k < |pads| - 1 ==> pads[k + 1] == h.Concat(pads[k], pads[k])
  }

  /** The slots that stand for `leaves`: at each level, the last node when their number is odd. */
  function SlotsOf<T>(h: Hasher<T>, leaves: seq<T>, n: nat): (r: Slots<T>)
    ensures |r| == n
    decreases n
  {
    if n == 0 then []
    else [LastIfOdd(leaves)] + SlotsOf(h, Up(h, leaves), n - 1)
  }

  function LastIfOdd<T>(s: seq<T>): Option<T> {
    if |s| % 2 == 1 then Some(s[|s| - 1]) else None
  }

  /** Pads the slots with pristine nodes on the right up to the root, `root` being the partial node. */
  function RootOfSlots<T>(h: Hasher<T>, f: Slots<T>, root: T, z: T): T {
    if f == [] then root
    else
      var next := if f[0].Some? then h.Concat(f[0].value, root) else h.Concat(root, z);
      RootOfSlots(h, f[1..], next, h.Concat(z, z))
  }

  // ---------------------------------------------------------------------------------------------
  // The count
  // ---------------------------------------------------------------------------------------------

  lemma {:induction false} CountBound<T>(f: Slots<T>)
    ensures Count(f) < Pow2(|f|)
  {
    if f != [] {
      CountBound(f[1..]);
    }
  }

  lemma CountHalves<T>(f: Slots<T>)
    requires f != []
    ensures Count(f) % 2 == 1 <==> f[0].Some?
    ensures Count(f) / 2 == Count(f[1..])
  {
  }

  /** Slot `i` is occupied exactly when bit `i` of the count is set. */
  lemma {:induction false} SlotIsBit<T>(f: Slots<T>, i: nat)
    requires i < |f|
    ensures f[i].Some? <==> Bit(Count(f), i)
  {
    CountHalves(f);
    if i > 0 {
      SlotIsBit(f[1..], i - 1);
      assert Shr(Count(f), i) == Shr(Count(f[1..]), i - 1);
    }
  }

  /** A push adds one to the count, and adds a slot only when every slot was occupied. */
  lemma {:induction false} PushCounts<T>(h: Hasher<T>, f: Slots<T>, x: T)
    ensures Count(Push(h, f, x)) == Count(f) + 1
    ensures |Push(h, f, x)| == |f| <==> Count(f) + 1 < Pow2(|f|)
  {
    if f == [] {
      assert Push(h, f, x)[1..] == [];
    } else if f[0].None? {
      CountBound(f[1..]);
      assert Push(h, f, x)[1..] == f[1..];
    } else {
      var y := h.Concat(f[0].value, x);
      PushCounts(h, f[1..], y);
      assert Push(h, f, x)[1..] == Push(h, f[1..], y);
    }
  }

  lemma {:induction false} PushAllCounts<T>(h: Hasher<T>, f: Slots<T>, xs: seq<T>)
    ensures Count(PushAll(h, f, xs)) == Count(f) + |xs|
    ensures Count(f) + |xs| < Pow2(|f|) ==> |PushAll(h, f, xs)| == |f|
    decreases |xs|
  {
    if xs != [] {
      PushCounts(h, f, xs[0]);
      PushAllCounts(h, Push(h, f, xs[0]), xs[1..]);
    }
  }

  lemma {:induction false} EmptyCounts<T>(n: nat)
    ensures Count<T>(Empty(n)) == 0
  {
    if n > 0 {
      EmptyCounts<T>(n - 1);
      assert Empty<T>(n)[1..] == Empty<T>(n - 1);
    }
  }

  // ---------------------------------------------------------------------------------------------
  // Padding is repeated pushing
  // ---------------------------------------------------------------------------------------------

  lemma {:induction false} PadAfterPush<T>(h: Hasher<T>, f: Slots<T>, x: T, n: nat)
    ensures Pad(h, f, x, n + 1) == Pad(h, Push(h, f, x), x, n)
    decreases n
  {
    var g, xx := Push(h, f, x), h.Concat(x, x);
    if f != [] && f[0].Some? {
      assert g[1..] == Push(h, f[1..], h.Concat(f[0].value, x));
      assert n == 0 ==> Pad(h, f, x, 1) == [None] + g[1..];
    } else {
      var rest := if f == [] then [] else f[1..];
      assert g[1..] == rest;
      if n > 0 {
        PadAfterPush(h, rest, xx, (n - 1) / 2);
      } else {
        assert Pad(h, f, x, 1) == [Some(x)] + rest;
      }
    }
  }

  /** Padding with `n` copies is pushing `n` copies, from every state of the slots. */
  lemma {:induction false} PadIsPushAll<T>(h: Hasher<T>, f: Slots<T>, x: T, n: nat)
    ensures Pad(h, f, x, n) == PushAll(h, f, Repeat(x, n))
    decreases n
  {
    if n > 0 {
      PadAfterPush(h, f, x, n - 1);
      PadIsPushAll(h, Push(h, f, x), x, n - 1);
      assert Repeat(x, n)[1..] == Repeat(x, n - 1);
    }
  }

  /** With pad hashes made of one leaf, padding is padding with that leaf. */
  lemma {:induction false} PadWithChain<T>(h: Hasher<T>, f: Slots<T>, pads: seq<T>, n: nat)
    requires pads != [] && IsPadChain(h, pads) && n < Pow2(|pads|)
    ensures PadWith(h, f, pads, n) == Pad(h, f, pads[0], n)
    decreases |pads|
  {
    if n > 0 {
      var x, taken := pads[0], f != [] && f[0].Some?;
      var left := if taken then n - 1 else n;
      var rest := if f == [] then [] else if taken then Push(h, f[1..], h.Concat(f[0].value, x)) else f[1..];
      if |pads| > 1 {
        assert pads[1] == h.Concat(x, x);
        PadWithChain(h, rest, pads[1..], left / 2);
      }
    }
  }

  /** Whatever the pad hashes, an occupied slot takes one subtree by a push. */
  lemma PadWithAfterPush<T>(h: Hasher<T>, f: Slots<T>, pads: seq<T>, n: nat)
    requires f != [] && f[0].Some? && pads != []
    ensures PadWith(h, f, pads, n + 1) == PadWith(h, Push(h, f, pads[0]), pads, n)
  {
    var g := Push(h, f, pads[0]);
    assert g[1..] == Push(h, f[1..], h.Concat(f[0].value, pads[0]));
    assert n == 0 ==> PadWith(h, f, pads, 1) == [None] + g[1..];
  }

  // ---------------------------------------------------------------------------------------------
  // The slots stand for the leaves
  // ---------------------------------------------------------------------------------------------

  lemma UpOfAppend<T>(h: Hasher<T>, s: seq<T>, x: T)
    ensures Up(h, s + [x]) == if |s| % 2 == 0 then Up(h, s) else Up(h, s) + [h.Concat(s[|s| - 1], x)]
  {
  }

  lemma PadUpOfAppend<T>(h: Hasher<T>, z: T, s: seq<T>, x: T)
    ensures PadUp(h, z, s + [x])
         == Up(h, s) + [if |s| % 2 == 0 then h.Concat(x, z) else h.Concat(s[|s| - 1], x)]
  {
  }

  lemma {:induction false} PushKeepsSlots<T>(h: Hasher<T>, s: seq<T>, n: nat, x: T)
    requires |s| + 1 < Pow2(n)
    ensures Push(h, SlotsOf(h, s, n), x) == SlotsOf(h, s + [x], n)
    decreases n
  {
    if n > 0 {
      UpOfAppend(h, s, x);
      if |s| % 2 == 1 {
        PushKeepsSlots(h, Up(h, s), n - 1, h.Concat(s[|s| - 1], x));
      }
    }
  }

  /** Pushing leaves one by one onto the slots of earlier leaves gives the slots of them all. */
  lemma {:induction false} PushAllKeepsSlots<T>(h: Hasher<T>, s: seq<T>, n: nat, xs: seq<T>)
    requires |s| + |xs| < Pow2(n)
    ensures PushAll(h, SlotsOf(h, s, n), xs) == SlotsOf(h, s + xs, n)
    decreases |xs|
  {
    hide SlotsOf, Push, Up;
    if xs == [] {
      assert s + xs == s;
    } else {
      PushKeepsSlots(h, s, n, xs[0]);
      PushAllKeepsSlots(h, s + [xs[0]], n, xs[1..]);
      assert s + [xs[0]] + xs[1..] == s + xs;
    }
  }

  lemma PadKeepsSlots<T>(h: Hasher<T>, s: seq<T>, n: nat, x: T, count: nat)
    requires |s| + count < Pow2(n)
    ensures Pad(h, SlotsOf(h, s, n), x, count) == SlotsOf(h, s + Repeat(x, count), n)
  {
    PadIsPushAll(h, SlotsOf(h, s, n), x, count);
    PushAllKeepsSlots(h, s, n, Repeat(x, count));
  }

  lemma {:induction false} NoLeavesNoSlots<T>(h: Hasher<T>, n: nat)
    ensures SlotsOf(h, [], n) == Empty(n)
    decreases n
  {
    if n > 0 {
      NoLeavesNoSlots(h, n - 1);
      assert Up(h, []) == [];
    }
  }

  lemma {:induction false} SlotsOfCount<T>(h: Hasher<T>, s: seq<T>, n: nat)
    requires |s| < Pow2(n)
    ensures Count(SlotsOf(h, s, n)) == |s|
    decreases n
  {
    if n > 0 {
      SlotsOfCount(h, Up(h, s), n - 1);
      assert SlotsOf(h, s, n)[1..] == SlotsOf(h, Up(h, s), n - 1);
    }
  }

  // ---------------------------------------------------------------------------------------------
  // Occupied slots are nodes of the reference tree
  // ---------------------------------------------------------------------------------------------

  /** A node all of whose leaves have been seen does not depend on what follows them. */
  lemma {:induction false} CompleteNode<T>(h: Hasher<T>, z: T, w: T, s: seq<T>, t: seq<T>, k: nat, p: nat)
    requires p < Shr(|s|, k)
    ensures Node(h, z, s + t, k, p) == Node(h, w, s, k, p)
  {
    if k > 0 {
      ShrStep(|s|, k - 1);
      CompleteNode(h, z, w, s, t, k - 1, 2 * p);
      CompleteNode(h, z, w, s, t, k - 1, 2 * p + 1);
    }
  }

  /** A complete node over a level is a complete node over the complete parents alone. */
  lemma NodeOfCompleteParents<T>(h: Hasher<T>, z: T, s: seq<T>, k: nat, p: nat)
    requires p < Shr(|s|, k + 1)
    ensures Node(h, z, s, k + 1, p) == Node(h, h.Concat(z, z), Up(h, s), k, p)
  {
    var u, parents := Up(h, s), PadUp(h, z, s);
    NodeOfParents(h, z, s, k, p);
    assert parents == u + parents[|u|..];
    CompleteNode(h, h.Concat(z, z), h.Concat(z, z), u, parents[|u|..], k, p);
  }

  /** The slot at a set bit `i` is the node of height `i` that ends at the count without its lower bits. */
  lemma {:induction false} SlotIsNode<T>(h: Hasher<T>, z: T, s: seq<T>, n: nat, i: nat)
    requires i < n
    ensures SlotsOf(h, s, n)[i].Some? <==> Bit(|s|, i)
    ensures Bit(|s|, i) ==> SlotsOf(h, s, n)[i] == Some(Node(h, z, s, i, Shr(|s|, i) - 1))
    decreases n
  {
    hide Up;
    if i > 0 {
      SlotIsNode(h, h.Concat(z, z), Up(h, s), n - 1, i - 1);
      assert SlotsOf(h, s, n)[i] == SlotsOf(h, Up(h, s), n - 1)[i - 1];
      assert Shr(|s|, i) == Shr(|Up(h, s)|, i - 1);
      if Bit(|s|, i) {
        NodeOfCompleteParents(h, z, s, i - 1, Shr(|s|, i) - 1);
      }
    }
  }

  lemma RootOfSlotsStep<T>(h: Hasher<T>, s: seq<T>, n: nat, partial: T, z: T)
    requires n > 0
    ensures RootOfSlots(h, SlotsOf(h, s, n), partial, z)
         == RootOfSlots(h, SlotsOf(h, Up(h, s), n - 1), PadUp(h, z, s + [partial])[|s| / 2], h.Concat(z, z))
  {
    PadUpOfAppend(h, z, s, partial);
  }

  /** Rooting the slots pads the leaves they stand for with pristine leaves. */
  lemma {:induction false} RootOfSlotsIsRoot<T>(h: Hasher<T>, s: seq<T>, n: nat, partial: T, z: T)
    requires |s| < Pow2(n)
    ensures RootOfSlots(h, SlotsOf(h, s, n), partial, z) == Root(h, z, s + [partial], n)
    decreases n
  {
    if n > 0 {
      var next := PadUp(h, z, s + [partial])[|s| / 2];
      RootOfSlotsStep(h, s, n, partial, z);
      RootOfSlotsIsRoot(h, Up(h, s), n - 1, next, h.Concat(z, z));
      NodeOfParents(h, z, s + [partial], n - 1, 0);
      PadUpOfAppend(h, z, s, partial);
    }
  }

  /** A slot above a number of slots that hold the leaves is empty. */
  lemma {:induction false} WiderSlots<T>(h: Hasher<T>, s: seq<T>, n: nat)
    requires |s| < Pow2(n)
    ensures SlotsOf(h, s, n + 1) == SlotsOf(h, s, n) + [None]
    decreases n
  {
    if n > 0 {
      WiderSlots(h, Up(h, s), n - 1);
    }
  }
}
