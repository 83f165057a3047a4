/**
  The proofs of an epoch's outputs, made in one climb from the frontier, and the frontier of the next
  epoch recovered from the last of them (src/cartesi/hash-tree.lua).

  `earlier` are the leaves under the frontier and `all` are those leaves and the new ones. One level of the
  climb holds the nodes over the new leaves only; its neighbours on the left come from the frontier and
  those on the right are pristine.
 */
module FrontierProofs {
  import opened Merkle
  import opened BinaryCounter
  import opened Proofs

  function FrontierNode<T>(entry: Option<T>, base: nat, active: seq<T>, pristine: T, index: nat): Option<T> {
    if index < base then entry
    else if index >= base + |active| then Some(pristine)
    else Some(active[index - base])
  }

  /** The active region of a level: the nodes over the new leaves. */
  ghost predicate ActiveLevel<T>(h: Hasher<T>, z: T, count: nat, all: seq<T>, level: nat,
                                 base: nat, active: seq<T>, pristine: T)
  {
    && all != [] && active != []
    && base == Shr(count, level) && base + |active| - 1 == Shr(|all| - 1, level)
    && pristine == Pristine(h, z, level)
    && forall j :: 0 <= j < |active| ==> active[j] == Node(h, z, all, level, base + j)
  }

  /** A node after the last leaf is pristine. */
  lemma {:induction false} NodePastLast<T>(h: Hasher<T>, z: T, s: seq<T>, k: nat, p: nat)
    requires s != [] && p > Shr(|s| - 1, k)
    ensures Node(h, z, s, k, p) == Pristine(h, z, k)
  {
    if k > 0 {
      ShrStep(|s| - 1, k - 1);
      NodePastLast(h, z, s, k - 1, 2 * p);
      NodePastLast(h, z, s, k - 1, 2 * p + 1);
    }
  }

  /** Every node the climb reads is the true one; in particular an absent frontier entry is never read. */
  lemma ReadsNode<T>(h: Hasher<T>, z: T, earlier: seq<T>, all: seq<T>, log2: nat, level: nat,
                     base: nat, active: seq<T>, pristine: T, index: nat)
    requires earlier <= all && level < log2 && ActiveLevel(h, z, |earlier|, all, level, base, active, pristine)
    requires index >= base || (index == base - 1 && base % 2 == 1)
    ensures FrontierNode(SlotsOf(h, earlier, log2)[level], base, active, pristine, index)
         == Some(Node(h, z, all, level, index))
  {
    hide Node, SlotsOf, Pristine;
    if index < base {
      SlotIsNode(h, z, earlier, log2, level);
      assert all == earlier + all[|earlier|..];
      CompleteNode(h, z, z, earlier, all[|earlier|..], level, index);
    } else if index >= base + |active| {
      NodePastLast(h, z, all, level, index);
    }
  }

  lemma {:induction false} ShrMonotonic(a: nat, b: nat, i: nat)
    requires a <= b
    ensures Shr(a, i) <= Shr(b, i)
    decreases i
  {
    if i > 0 {
      ShrMonotonic(a / 2, b / 2, i - 1);
    }
  }

  /** The siblings of every new output at one level, added to those of the levels below. */
  method AddSiblings<T>(ghost h: Hasher<T>, ghost z: T, ghost earlier: seq<T>, ghost all: seq<T>, ghost log2: nat,
                        entry: Option<T>, count: nat, level: nat,
                        base: nat, active: seq<T>, pristine: T, siblings: seq<seq<T>>)
    returns (r: seq<seq<T>>)
    requires earlier <= all && |earlier| == count && |all| == count + |siblings| && level < log2
    requires ActiveLevel(h, z, count, all, level, base, active, pristine)
    requires entry == SlotsOf(h, earlier, log2)[level]
    requires forall i :: 0 <= i < |siblings| ==> siblings[i] == SiblingsOf(h, z, all, 0, count + i, level)
    ensures |r| == |siblings|
    ensures forall i :: 0 <= i < |siblings| ==> r[i] == SiblingsOf(h, z, all, 0, count + i, level + 1)
  {
    hide Node, SlotsOf, Pristine, SiblingsOf;
    r := siblings;
    for i := 0 to |siblings|
      invariant |r| == |siblings|
      invariant forall j :: i <= j < |siblings| ==> r[j] == siblings[j]
      invariant forall j :: 0 <= j < i ==> r[j] == SiblingsOf(h, z, all, 0, count + j, level + 1)
    {
      var node := Shr(count + i, level);
      ShrMonotonic(count, count + i, level);
      ReadsNode(h, z, earlier, all, log2, level, base, active, pristine, Sibling(node));
      var sibling := FrontierNode(entry, base, active, pristine, Sibling(node));
      SiblingsOneMore(h, z, all, 0, count + i, level);
      r := r[i := r[i] + [sibling.value]];
    }
  }

  /** The active region one level up. */
  method Climb<T>(h: Hasher<T>, ghost z: T, ghost earlier: seq<T>, ghost all: seq<T>, ghost log2: nat,
                  entry: Option<T>, level: nat, base: nat, active: seq<T>, pristine: T)
    returns (parents: seq<T>)
    requires earlier <= all && level < log2
    requires ActiveLevel(h, z, |earlier|, all, level, base, active, pristine)
    requires entry == SlotsOf(h, earlier, log2)[level]
    ensures ActiveLevel(h, z, |earlier|, all, level + 1, base / 2, parents, h.Concat(pristine, pristine))
  {
    hide SlotsOf;
    parents := [];
    var last := (base + |active| - 1) / 2;
    var p := base / 2;
    while p <= last
      invariant base / 2 <= p <= last + 1 && |parents| == p - base / 2
      invariant forall j :: 0 <= j < |parents| ==> parents[j] == Node(h, z, all, level + 1, base / 2 + j)
    {
      ReadsNode(h, z, earlier, all, log2, level, base, active, pristine, 2 * p);
      ReadsNode(h, z, earlier, all, log2, level, base, active, pristine, 2 * p + 1);
      var left := FrontierNode(entry, base, active, pristine, 2 * p);
      var right := FrontierNode(entry, base, active, pristine, 2 * p + 1);
      parents := parents + [h.Concat(left.value, right.value)];
      p := p + 1;
    }
    ShrStep(|earlier|, level);
    ShrStep(|all| - 1, level);
  }

  /** One proof per new output, all against the root of all the leaves. */
  method NextProofs<T>(h: Hasher<T>, z: T, f: Slots<T>, count: nat, next: seq<T>, ghost earlier: seq<T>)
    returns (proofs: seq<Proof<T>>)
    requires f == SlotsOf(h, earlier, |f|) && count == |earlier| && |earlier| + |next| <= Pow2(|f|)
    ensures |proofs| == |next|
    ensures forall i :: 0 <= i < |next| ==>
              proofs[i] == ProofOf(h, z, earlier + next, |f|, 0, count + i) && VerifySlice(h, proofs[i])
  {
    hide Node, SlotsOf, Pristine, SiblingsOf, VerifySlice;
    if next == [] {
      return [];
    }
    ghost var all := earlier + next;
    var siblings: seq<seq<T>> := seq(|next|, _ => []);
    var active, base, pristine, level := next, count, z, 0;
    StartOfClimb(h, z, earlier, next);
    while level < |f|
      invariant level <= |f| && |siblings| == |next|
      invariant ActiveLevel(h, z, count, all, level, base, active, pristine)
      invariant forall i :: 0 <= i < |next| ==> siblings[i] == SiblingsOf(h, z, all, 0, count + i, level)
    {
      siblings := AddSiblings(h, z, earlier, all, |f|, f[level], count, level, base, active, pristine, siblings);
      active := Climb(h, z, earlier, all, |f|, f[level], level, base, active, pristine);
      base, pristine, level := base / 2, h.Concat(pristine, pristine), level + 1;
    }
    ShrSmall(|all| - 1, |f|);
    assert active[0] == Root(h, z, all, |f|);
    proofs := [];
    for i := 0 to |next|
      invariant |proofs| == i
      invariant forall j :: 0 <= j < i ==>
                  proofs[j] == ProofOf(h, z, all, |f|, 0, count + j) && VerifySlice(h, proofs[j])
    {
      LeafOfNext(h, z, earlier, next, i);
      TrueProofIsAccepted(h, z, all, |f|, 0, count + i);
      proofs := proofs + [Proof(count + i, 0, |f|, next[i], active[0], siblings[i])];
    }
  }

  lemma StartOfClimb<T>(h: Hasher<T>, z: T, earlier: seq<T>, next: seq<T>)
    requires next != []
    ensures ActiveLevel(h, z, |earlier|, earlier + next, 0, |earlier|, next, z)
    ensures forall q: nat :: SiblingsOf(h, z, earlier + next, 0, q, 0) == []
  {
  }

  lemma LeafOfNext<T>(h: Hasher<T>, z: T, earlier: seq<T>, next: seq<T>, i: nat)
    requires i < |next|
    ensures Node(h, z, earlier + next, 0, |earlier| + i) == next[i]
  {
  }

  // ---------------------------------------------------------------------------------------------
  // Resuming from the last proof
  // ---------------------------------------------------------------------------------------------

  /** Subtracting one from a number whose lowest set bit is `low`. */
  lemma {:induction false} BelowLowestBit(n: nat, low: nat, i: nat)
    requires n > 0 && (forall k: nat :: k < low ==> !Bit(n, k)) && Bit(n, low)
    ensures i <= low ==> Shr(n - 1, i) == Shr(n, i) - 1 >= 0
    ensures i > low ==> Shr(n - 1, i) == Shr(n, i)
    decreases i
  {
    if low > 0 {
      assert !Bit(n, 0);
      if i > 0 {
        forall k: nat | k < low - 1
          ensures !Bit(n / 2, k)
        {
          assert !Bit(n, k + 1);
        }
        BelowLowestBit(n / 2, low - 1, i - 1);
        assert (n - 1) / 2 == n / 2 - 1;
      }
    } else if i > 0 {
      assert Bit(n, 0) && (n - 1) / 2 == n / 2;
    }
  }

  /** The slot of level `i`, as the frontier is recovered from the proof of the last leaf. */
  lemma RecoveredSlot<T>(h: Hasher<T>, z: T, leaves: seq<T>, log2: nat, low: nat, i: nat)
    requires 0 < |leaves| && i < log2
    requires (forall k: nat :: k < low ==> !Bit(|leaves|, k)) && Bit(|leaves|, low)
    ensures var n, siblings := |leaves|, SiblingsOf(h, z, leaves, 0, |leaves| - 1, log2);
            SlotsOf(h, leaves, log2)[i]
            == if i < low then None
               else if i == low then Some(Node(h, z, leaves, i, Shr(n - 1, i)))
               else if Bit(n, i) then Some(siblings[i]) else None
  {
    hide Node, SlotsOf, SiblingsOf, Shr;
    SlotIsNode(h, z, leaves, log2, i);
    BelowLowestBit(|leaves|, low, i);
    SiblingAt(h, z, leaves, 0, |leaves| - 1, log2, i);
  }

  lemma {:induction false} SiblingAt<T>(h: Hasher<T>, z: T, s: seq<T>, k: nat, q: nat, n: nat, i: nat)
    requires i < n
    ensures SiblingsOf(h, z, s, k, q, n)[i] == Node(h, z, s, k + i, Sibling(Shr(q, i)))
    decreases i
  {
    hide Node;
    if i > 0 {
      SiblingAt(h, z, s, k + 1, q / 2, n - 1, i - 1);
    }
  }

  /** A positive number below 2^n has a set bit below `n`. */
  lemma {:induction false} LowestBitBelow(count: nat, n: nat, low: nat)
    requires 0 < count < Pow2(n) && low <= n
    requires forall k: nat :: k < low ==> !Bit(count, k)
    ensures low < n
    decreases n
  {
    if low > 0 {
      assert !Bit(count, 0);
      forall k: nat | k < low - 1
        ensures !Bit(count / 2, k)
      {
        assert !Bit(count, k + 1);
      }
      LowestBitBelow(count / 2, n - 1, low - 1);
    }
  }

  /** The frontier after the leaf of the given proof, the last leaf so far. */
  method FrontierOf<T>(h: Hasher<T>, proof: Proof<T>, ghost z: T, ghost leaves: seq<T>) returns (f: Slots<T>)
    requires 0 < |leaves| < Pow2(proof.log2RootSize)
    requires proof == ProofOf(h, z, leaves, proof.log2RootSize, 0, |leaves| - 1)
    ensures f == SlotsOf(h, leaves, proof.log2RootSize)
  {
    hide Node, SlotsOf, SiblingsOf, Root;
    var log2 := proof.log2RootSize;
    f := Repeat(None, log2);
    var count: nat, low: nat := proof.targetAddress + 1, 0;
    LowestBitBelow(count, log2, 0);
    while !Bit(count, low)
      invariant low < log2 && forall k: nat :: k < low ==> !Bit(count, k)
      decreases log2 - low
    {
      low := low + 1;
      LowestBitBelow(count, log2, low);
    }
    for level := low + 1 to log2
      invariant |f| == log2 && forall i :: 0 <= i < log2 ==>
                  f[i] == if low < i < level && Bit(count, i) then Some(proof.siblings[i]) else None
    {
      if Bit(count, level) {
        f := f[level := Some(proof.siblings[level])];
      }
    }
    var hash := proof.targetHash;
    for level := 0 to low
      invariant hash == Node(h, z, leaves, level, Shr(count - 1, level))
    {
      BelowLowestBit(count, low, level);
      SiblingAt(h, z, leaves, 0, count - 1, log2, level);
      ParentIsNode(h, z, leaves, level, Shr(count - 1, level));
      ShrStep(count - 1, level);
      assert !Bit(count, level);
      hash := h.Concat(proof.siblings[level], hash);
    }
    f := f[low := Some(hash)];
    forall i | 0 <= i < log2
      ensures f[i] == SlotsOf(h, leaves, log2)[i]
    {
      RecoveredSlot(h, z, leaves, log2, low, i);
    }
  }
}
