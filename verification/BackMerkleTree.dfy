/**
  The C++ incremental tree (src/back-merkle-tree.hpp and src/back-merkle-tree.cpp), updated in place.
  Its methods are proved to do to the slots exactly what `TreeSpec.Apply` says, error cases included.
 */
module BackMerkleTree {
  import opened Merkle
  import opened Uint64
  import opened BinaryCounter
  import opened CounterView
  import opened TreeSpec

  lemma {:induction false} ClearOfZero(i: nat)
    ensures ClearBelow(0, i)
  {
    if i > 0 {
      ClearOfZero(i - 1);
    }
  }

  class BackMerkleTree<T(0)> {
    const hasher: Hasher<T>
    var leafCount: nat
    const context: array<T>
    ghost var hashCalls: nat

    ghost predicate Valid()
      reads this, context
    {
      1 <= context.Length <= 64 && leafCount <= Pow2(context.Length - 1)
    }

    function Log2MaxLeaves(): nat
      requires context.Length >= 1
    {
      context.Length - 1
    }

    /** The abstract state: one slot per level. */
    ghost function Slots(): (f: Slots<T>)
      reads this, context
      ensures |f| == context.Length
    {
      View(leafCount, context[..])
    }

    constructor Unpacked(hasher: Hasher<T>, log2MaxLeaves: nat)
      requires log2MaxLeaves <= 63
      ensures Valid() && fresh(context) && this.hasher == hasher && context.Length == log2MaxLeaves + 1
      ensures leafCount == 0 && hashCalls == 0
    {
      this.hasher := hasher;
      leafCount := 0;
      context := new T[log2MaxLeaves + 1];
      hashCalls := 0;
    }

    lemma SlotsCount()
      requires Valid()
      ensures Count(Slots()) == leafCount
    {
      ViewCount(leafCount, context[..]);
    }

    /** The carry shared by `push_back` and `pad_back`: `x` is a complete subtree of height `j`. */
    method Carry(j: nat, x: T) returns (i: nat)
      requires Valid() && j < context.Length && ClearBelow(leafCount, j)
      modifies context, `hashCalls
      ensures j <= i <= context.Length && SetBetween(leafCount, j, i)
      ensures hashCalls == old(hashCalls) + (i - j)
      ensures i == context.Length ==> context[..] == old(context[..])
      ensures i < context.Length ==>
                && !Bit(leafCount, i)
                && context[..] == old(context[..])[i := context[i]]
                && Carrying(hasher, leafCount, old(context[..]), j, i, x, context[i])
    {
      var right := x;
      i := j;
      ghost var s := context[..];
      CarryStarts(hasher, leafCount, s, j, x);
      while i < context.Length
        invariant j <= i <= context.Length && context[..] == s
        invariant hashCalls == old(hashCalls) + (i - j)
        invariant Carrying(hasher, leafCount, s, j, i, x, right)
      {
        if Bit(leafCount, i) {
          CarryContinues(hasher, leafCount, s, j, i, x, right);
          right := hasher.Concat(context[i], right);
          hashCalls := hashCalls + 1;
          i := i + 1;
        } else {
          context[i] := right;
          return;
        }
      }
    }

    /** At the wrap point only the last level is occupied, and the carry out of it is lost. */
    lemma CarryAtWrapPoint(j: nat, i: nat)
      requires Valid() && WrapPoint(Log2MaxLeaves(), leafCount, leafCount) && j < context.Length
      requires j <= i <= context.Length && Bit(leafCount, j) && SetBetween(leafCount, j, i)
      requires i < context.Length ==> !Bit(leafCount, i)
      ensures j == 63 && i == context.Length && Wrap64(leafCount + Pow2(j)) == 0
      ensures Pow2(j) == leafCount && ClearBelow(0, j)
    {
      PowersFit(63);
      PowerBits(63);
      if j < 63 {
        ClearBit(leafCount, 63, j);
      }
      ClearOfZero(j);
    }

    /** No level above the last one is left to look at while the wrapped count is still owed. */
    lemma WrapPointReachesItsBit(j: nat)
      requires Valid() && WrapPoint(Log2MaxLeaves(), leafCount, leafCount)
      requires j <= context.Length && ClearBelow(leafCount, j)
      ensures j < context.Length && Pow2(j) <= leafCount
    {
      PowersFit(63);
      if j <= 63 {
        Pow2Monotonic(j, 63);
      } else {
        assert leafCount < Pow2(64) == 2 * Pow2(63);
        ClearIsZero(leafCount, 64);
      }
    }

    method PushBack(leaf: T) returns (r: Result<()>)
      requires Valid()
      modifies this, context
      ensures Valid()
      ensures (Slots(), r) == Apply(hasher, Log2MaxLeaves(), old(Slots()), Op.PushBack(leaf))
      ensures r.Ok? ==> leafCount == old(leafCount) + 1
      ensures r.Ok? ==> hashCalls - old(hashCalls) + PopCount(leafCount) == PopCount(old(leafCount)) + 1
    {
      hide View, Push, Carrying, SetBetween, Bit, PopCount, Count;
      SlotsCount();
      if leafCount >= Pow2(Log2MaxLeaves()) {
        return Err(TooManyLeaves);
      }
      ghost var c, s := leafCount, context[..];
      var i := Carry(0, leaf);
      if i == context.Length {
        SetRunIsLarge(c, 0, i);
      }
      CarryFromLeaf(hasher, c, s, i, leaf, context[i]);
      PopCountOfCarry(c, i);
      SumFits(Log2MaxLeaves(), leafCount + 1);
      leafCount := Wrap64(leafCount + 1);
      r := Ok(());
    }

    /** What is left to do before a round of the first loop: it fits, or the room check has wrapped. */
    ghost predicate Fits(rest: nat)
      requires context.Length >= 1
      reads this
    {
      leafCount + rest <= Pow2(Log2MaxLeaves()) || WrapPoint(Log2MaxLeaves(), leafCount, rest)
    }

    /** One round of the first loop of `pad_back`: level `j` still takes a pad subtree. */
    method MergeLevel(j: nat, rest: nat, pads: seq<T>) returns (j': nat, rest': nat)
      requires Valid() && |pads| == context.Length
      requires j < context.Length && ClearBelow(leafCount, j) && Pow2(j) <= rest && Fits(rest)
      modifies this, context
      ensures Valid() && ClearBelow(leafCount, j') && rest' <= rest && j <= j' <= context.Length
      ensures hashCalls - old(hashCalls) <= j' - j || (rest' == 0 && hashCalls == old(hashCalls) + 1)
      ensures j' < context.Length || hashCalls == old(hashCalls)
      ensures !WrapPoint(Log2MaxLeaves(), old(leafCount), rest) ==>
                && j < j' && leafCount + rest' == old(leafCount) + rest
                && hashCalls - old(hashCalls) <= j' - j
                && Owed(hasher, leafCount, context[..], rest', pads, j')
                == old(Owed(hasher, leafCount, context[..], rest, pads, j))
      ensures WrapPoint(Log2MaxLeaves(), old(leafCount), rest) ==>
                context[..] == old(context[..]) &&
                ((leafCount, rest', j', hashCalls) == (old(leafCount), rest, j + 1, old(hashCalls)) ||
                 (leafCount, rest', j', hashCalls) == (0, 0, 63, old(hashCalls) + 1))
    {
      hide Owed, Carrying, SetBetween, ClearBelow, Bit;
      ghost var c, s := leafCount, context[..];
      if Bit(leafCount, j) {
        var i := Carry(j, pads[j]);
        if WrapPoint(Log2MaxLeaves(), c, rest) {
          CarryAtWrapPoint(j, i);
        } else {
          if i == context.Length {
            SetRunIsLarge(c, j, i);
          }
          OwedAfterCarry(hasher, c, s, rest, pads, j, i, context[i]);
          SumFits(Log2MaxLeaves(), leafCount + Pow2(j));
        }
        leafCount := Wrap64(leafCount + Pow2(j));
        j', rest' := if i < context.Length then i else j, rest - Pow2(j);
      } else {
        ClearOneMore(c, j);
        OwedAfterEmpty(hasher, c, s, rest, pads, j);
        j', rest' := j + 1, rest;
      }
    }

    /** First loop of `pad_back`: merges pad subtrees into the occupied slots while they fit. */
    method MergePads(n: nat, pads: seq<T>) returns (j: nat, rest: nat)
      requires Valid() && |pads| == context.Length
      requires 0 < n && Fits(n)
      modifies this, context
      ensures Valid() && j <= context.Length && ClearBelow(leafCount, j) && rest < Pow2(j)
      ensures hashCalls <= old(hashCalls) + Log2MaxLeaves()
      ensures !WrapPoint(Log2MaxLeaves(), old(leafCount), n) ==>
                && leafCount + rest == old(leafCount) + n
                && Owed(hasher, leafCount, context[..], rest, pads, j) == PadWith(hasher, old(Slots()), pads, n)
      ensures WrapPoint(Log2MaxLeaves(), old(leafCount), n) ==> leafCount == rest == 0
    {
      hide Owed, View, PadWith;
      j, rest := 0, n;
      ghost var wraps := WrapPoint(Log2MaxLeaves(), leafCount, n);
      OwedAtStart(hasher, leafCount, context[..], n, pads);
      PowersFit(Log2MaxLeaves());
      while j < context.Length
        invariant Valid() && Fits(rest) && rest <= n
        invariant j <= context.Length && ClearBelow(leafCount, j)
        invariant hashCalls <= old(hashCalls) + Log2MaxLeaves()
        invariant hashCalls <= old(hashCalls) + j
        invariant !wraps ==>
                    && leafCount + rest == old(leafCount) + n
                    && Owed(hasher, leafCount, context[..], rest, pads, j) == PadWith(hasher, old(Slots()), pads, n)
        invariant wraps ==> (WrapPoint(Log2MaxLeaves(), leafCount, rest) && hashCalls == old(hashCalls))
                            || leafCount == rest == 0
        decreases context.Length - j + rest
      {
        if wraps && rest != 0 {
          WrapPointReachesItsBit(j);
        }
        if Pow2(j) > rest {
          break;
        }
        j, rest := MergeLevel(j, rest, pads);
      }
      if wraps && rest != 0 {
        WrapPointReachesItsBit(j);
      }
    }

    /** Second loop of `pad_back`: places the remaining pad subtrees below the lowest occupied slot. */
    method PlacePads(n: nat, pads: seq<T>, ghost j: nat)
      requires Valid() && |pads| == context.Length && j <= context.Length
      requires ClearBelow(leafCount, j) && n < Pow2(j) && leafCount + n <= Pow2(Log2MaxLeaves())
      modifies context, `leafCount
      ensures Valid() && leafCount == old(leafCount) + n
      ensures Slots() == View(n, pads[..j]) + View(Shr(old(leafCount), j), old(context[..])[j..])
    {
      hide View;
      var i: nat, rest: nat := 0, n;
      ghost var c, s := leafCount, context[..];
      while i < context.Length && rest > 0
        invariant i <= context.Length && leafCount + rest == c + n
        invariant ClearBelow(rest, i) && Shr(rest, i) == Shr(n, i)
        invariant Placed(n, s, context[..], pads, i)
      {
        ShrStep(rest, i);
        ShrStep(n, i);
        if Bit(rest, i) {
          TakeBit(rest, i);
          SumFits(Log2MaxLeaves(), leafCount + Pow2(i));
          context[i] := pads[i];
          leafCount, rest := Wrap64(leafCount + Pow2(i)), rest - Pow2(i);
        } else {
          ClearOneMore(rest, i);
        }
        i := i + 1;
      }
      if i == context.Length {
        Pow2Monotonic(j, i);
        ClearIsZero(rest, i);
      }
      ShrSmall(0, i);
      PlacedAll(n, s, context[..], pads, i);
      PlaceBits(c, n, s, context[..], pads, j);
    }

    method PadBack(n: nat, pads: seq<T>) returns (r: Result<()>)
      requires Valid()
      modifies this, context
      ensures Valid()
      ensures (Slots(), r) == Apply(hasher, Log2MaxLeaves(), old(Slots()), Op.PadBack(n, pads))
      ensures leafCount == if r.Err? then old(leafCount)
                           else if WrapPoint(Log2MaxLeaves(), old(leafCount), n) then 0
                           else old(leafCount) + n
      ensures hashCalls <= old(hashCalls) + Log2MaxLeaves()
    {
      SlotsCount();
      if n == 0 {
        return Ok(());
      }
      RoomCheckIsExact(Log2MaxLeaves(), leafCount, n);
      if n > Pow2(Log2MaxLeaves()) || Wrap64(leafCount + n) > Pow2(Log2MaxLeaves()) {
        return Err(TooManyLeaves);
      }
      if |pads| != Log2MaxLeaves() + 1 {
        return Err(PadHashesSize);
      }
      ghost var wraps := WrapPoint(Log2MaxLeaves(), leafCount, n);
      var j, rest := MergePads(n, pads);
      OwedBelow(hasher, leafCount, context[..], rest, pads, j);
      PlacePads(rest, pads, j);
      if wraps {
        ViewOfZero(context[..]);
      }
      r := Ok(());
    }

    method Clear()
      requires Valid()
      modifies `leafCount
      ensures Valid() && leafCount == 0
      ensures Slots() == Apply(hasher, Log2MaxLeaves(), old(Slots()), Op.Clear).0
    {
      leafCount := 0;
      ViewOfZero(context[..]);
    }

    predicate Full()
      requires context.Length >= 1
      reads this
    {
      leafCount >= Pow2(Log2MaxLeaves())
    }

    method GetRootHash() returns (r: Result<T>)
      requires Valid()
      ensures Full() ==> r.Ok? && Slots()[Log2MaxLeaves()] == Some(r.value)
      ensures !Full() ==> r == Err(IncompleteTree)
    {
      if !Full() {
        return Err(IncompleteTree);
      }
      ViewCount(leafCount, context[..]);
      SlotIsBit(Slots(), Log2MaxLeaves());
      PowerBits(Log2MaxLeaves());
      ViewOneMore(leafCount, context[..], Log2MaxLeaves());
      assert context[..] == context[..Log2MaxLeaves() + 1];
      r := Ok(context[context.Length - 1]);
    }

    method GetContext() returns (packed: seq<T>)
      requires Valid()
      ensures packed == Pack(Slots())
    {
      packed := [];
      for i := 0 to context.Length
        invariant packed == Pack(View(leafCount, context[..i]))
      {
        PackOneMore(leafCount, context[..], i);
        assert context[..][..i] == context[..i] && context[..][..i + 1] == context[..i + 1];
        if Bit(leafCount, i) {
          packed := packed + [context[i]];
        }
      }
      assert context[..context.Length] == context[..];
    }

    /** The constructor from a packed context, whose exceptions are the error results. */
    static method Create(log2MaxLeaves: int, hasher: Hasher<T>, leafCount: nat, packed: seq<T>)
      returns (r: Result<BackMerkleTree<T>>)
      ensures r.Ok? <==> 0 <= log2MaxLeaves <= 63 && leafCount < Pow2(log2MaxLeaves) && |packed| == PopCount(leafCount)
      ensures r.Err? ==>
                r.error == if log2MaxLeaves < 0 then NegativeSize
                           else if log2MaxLeaves >= 64 then SizeTooLarge
                           else if leafCount >= Pow2(log2MaxLeaves) then LeafCountTooLarge
                           else IncompatibleContext
      ensures r.Ok? ==>
                && fresh(r.value) && fresh(r.value.context) && r.value.Valid()
                && r.value.hasher == hasher && r.value.context.Length == log2MaxLeaves + 1
                && r.value.leafCount == leafCount && r.value.hashCalls == 0
                && Pack(r.value.Slots()) == packed
    {
      if log2MaxLeaves < 0 {
        return Err(NegativeSize);
      }
      if log2MaxLeaves >= 64 {
        return Err(SizeTooLarge);
      }
      if leafCount >= Pow2(log2MaxLeaves) {
        return Err(LeafCountTooLarge);
      }
      hide View, Pack, PopBelow, PopCount, Bit;
      var tree := new BackMerkleTree<T>.Unpacked(hasher, log2MaxLeaves);
      PopBelowAll(leafCount, log2MaxLeaves + 1);
      var j := 0;
      var i := 0;
      while i <= log2MaxLeaves
        invariant 0 <= i <= log2MaxLeaves + 1 && tree.leafCount == 0 && tree.hashCalls == 0
        invariant j == PopBelow(leafCount, i) && j <= |packed|
        invariant Pack(View(leafCount, tree.context[..i])) == packed[..j]
      {
        PopBelowStep(leafCount, i);
        PopBelowMonotonic(leafCount, i + 1, log2MaxLeaves + 1);
        ghost var before, j0 := tree.context[..i], j;
        if Bit(leafCount, i) {
          if j >= |packed| {
            return Err(IncompatibleContext);
          }
          tree.context[i] := packed[j];
          j := j + 1;
        }
        assert tree.context[..i + 1][..i] == before && tree.context[..i + 1][..i + 1] == tree.context[..i + 1];
        UnpackOneMore(leafCount, tree.context[..i + 1], i, packed, j0);
        i := i + 1;
      }
      if j != |packed| {
        return Err(IncompatibleContext);
      }
      assert tree.context[..i] == tree.context[..];
      tree.leafCount := leafCount;
      r := Ok(tree);
    }
  }
}
