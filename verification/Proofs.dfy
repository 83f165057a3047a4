/**
  Slicing and splicing proofs: rolling a target hash up the tree through its siblings.

  The results about accepted proofs assume nothing about the hash function. A proof that is accepted
  although it is not the true one is turned into two different pairs of hashes with the same
  concatenated hash, and the lemmas say which pairs.
 */
module Proofs {
  import opened Merkle

  datatype Proof<T> = Proof(targetAddress: nat, log2TargetSize: nat, log2RootSize: nat,
                            targetHash: T, rootHash: T, siblings: seq<T>)

  // ---------------------------------------------------------------------------------------------
  // Rolling up
  // ---------------------------------------------------------------------------------------------

  /** The two children of a parent: an odd node is a right child. */
  function Children<T>(q: nat, hash: T, sibling: T): (T, T) {
    if q % 2 == 1 then (sibling, hash) else (hash, sibling)
  }

  function Parent<T>(h: Hasher<T>, q: nat, hash: T, sibling: T): T {
    h.Concat(Children(q, hash, sibling).0, Children(q, hash, sibling).1)
  }

  /** Rolls the hash of node `q` up through `siblings`. */
  function Roll<T>(h: Hasher<T>, hash: T, q: nat, siblings: seq<T>): T
    decreases |siblings|
  {
    if siblings == [] then hash
    else Roll(h, Parent(h, q, hash, siblings[0]), q / 2, siblings[1..])
  }

  lemma {:induction false} RollOneMore<T>(h: Hasher<T>, hash: T, q: nat, siblings: seq<T>, n: nat)
    requires n < |siblings|
    ensures Roll(h, hash, q, siblings[..n + 1]) == Parent(h, Shr(q, n), Roll(h, hash, q, siblings[..n]), siblings[n])
    decreases n
  {
    if n > 0 {
      RollOneMore(h, Parent(h, q, hash, siblings[0]), q / 2, siblings[1..], n - 1);
      assert siblings[..n + 1][1..] == siblings[1..][..n] && siblings[..n][1..] == siblings[1..][..n - 1];
    } else {
      assert siblings[..1][1..] == [];
    }
  }

  /** `roll_hash_up_tree`; a missing sibling is an assertion failure there and `None` here. */
  method RollHashUpTree<T>(h: Hasher<T>, proof: Proof<T>, targetHash: T) returns (r: Option<T>)
    ensures r == RollProof(h, proof, targetHash)
  {
    var hash := targetHash;
    var log2Size := proof.log2TargetSize;
    ghost var q := Shr(proof.targetAddress, proof.log2TargetSize);
    while log2Size < proof.log2RootSize
      invariant proof.log2TargetSize <= log2Size
      invariant log2Size <= proof.log2RootSize || log2Size == proof.log2TargetSize
      invariant log2Size - proof.log2TargetSize <= |proof.siblings|
      invariant hash == Roll(h, targetHash, q, proof.siblings[..log2Size - proof.log2TargetSize])
    {
      var i := log2Size - proof.log2TargetSize;
      if i >= |proof.siblings| {
        return None;
      }
      var sibling := proof.siblings[i];
      ShrShr(proof.targetAddress, proof.log2TargetSize, i);
      RollOneMore(h, targetHash, q, proof.siblings, i);
      hash := if Bit(proof.targetAddress, log2Size) then h.Concat(sibling, hash) else h.Concat(hash, sibling);
      log2Size := log2Size + 1;
    }
    r := Some(hash);
  }

  function RollProof<T>(h: Hasher<T>, proof: Proof<T>, targetHash: T): Option<T> {
    var depth := if proof.log2RootSize < proof.log2TargetSize then 0 else proof.log2RootSize - proof.log2TargetSize;
    if depth > |proof.siblings| then None
    else Some(Roll(h, targetHash, Shr(proof.targetAddress, proof.log2TargetSize), proof.siblings[..depth]))
  }

  predicate VerifySlice<T(==)>(h: Hasher<T>, proof: Proof<T>) {
    RollProof(h, proof, proof.targetHash) == Some(proof.rootHash)
  }

  predicate VerifySplice<T(==)>(h: Hasher<T>, proof: Proof<T>, newTargetHash: T, newRootHash: T) {
    VerifySlice(h, proof) && RollProof(h, proof, newTargetHash) == Some(newRootHash)
  }

  // ---------------------------------------------------------------------------------------------
  // The true proof
  // ---------------------------------------------------------------------------------------------

  /** `q ~ 1`: the other child of the same parent. */
  function Sibling(q: nat): nat {
    if q % 2 == 0 then q + 1 else q - 1
  }

  /** The siblings on the path of `n` levels up from node `q` of height `k`. */
  function SiblingsOf<T>(h: Hasher<T>, z: T, s: seq<T>, k: nat, q: nat, n: nat): (r: seq<T>)
    ensures |r| == n
    decreases n
  {
    if n == 0 then [] else [Node(h, z, s, k, Sibling(q))] + SiblingsOf(h, z, s, k + 1, q / 2, n - 1)
  }

  lemma {:induction false} SiblingsOneMore<T>(h: Hasher<T>, z: T, s: seq<T>, k: nat, q: nat, n: nat)
    ensures SiblingsOf(h, z, s, k, q, n + 1)
         == SiblingsOf(h, z, s, k, q, n) + [Node(h, z, s, k + n, Sibling(Shr(q, n)))]
    decreases n
  {
    hide Node;
    if n > 0 {
      SiblingsOneMore(h, z, s, k + 1, q / 2, n - 1);
    }
  }

  lemma ParentIsNode<T>(h: Hasher<T>, z: T, s: seq<T>, k: nat, q: nat)
    ensures Parent(h, q, Node(h, z, s, k, q), Node(h, z, s, k, Sibling(q))) == Node(h, z, s, k + 1, q / 2)
  {
  }

  /** The true hash and siblings roll up to the true ancestor. */
  lemma {:induction false} TrueProofRolls<T>(h: Hasher<T>, z: T, s: seq<T>, k: nat, q: nat, n: nat)
    ensures Roll(h, Node(h, z, s, k, q), q, SiblingsOf(h, z, s, k, q, n)) == Node(h, z, s, k + n, Shr(q, n))
    decreases n
  {
    hide Node, Parent;
    if n > 0 {
      var siblings := SiblingsOf(h, z, s, k, q, n);
      ParentIsNode(h, z, s, k, q);
      TrueProofRolls(h, z, s, k + 1, q / 2, n - 1);
      assert siblings[1..] == SiblingsOf(h, z, s, k + 1, q / 2, n - 1);
    }
  }

  /** The proof of node `q` of height `k` in the tree of height `log2`. */
  function ProofOf<T>(h: Hasher<T>, z: T, s: seq<T>, log2: nat, k: nat, q: nat): Proof<T>
    requires k <= log2
  {
    Proof(q * Pow2(k), k, log2, Node(h, z, s, k, q), Root(h, z, s, log2), SiblingsOf(h, z, s, k, q, log2 - k))
  }

  /** Every true proof is accepted. */
  lemma TrueProofIsAccepted<T>(h: Hasher<T>, z: T, s: seq<T>, log2: nat, k: nat, q: nat)
    requires k <= log2 && q < Pow2(log2 - k)
    ensures VerifySlice(h, ProofOf(h, z, s, log2, k, q))
  {
    hide Node;
    var proof := ProofOf(h, z, s, log2, k, q);
    AlignedAddress(q, k);
    TrueProofRolls(h, z, s, k, q, log2 - k);
    ShrSmall(q, log2 - k);
    assert proof.siblings[..log2 - k] == proof.siblings;
  }

  lemma {:induction false} AlignedAddress(q: nat, k: nat)
    ensures Shr(q * Pow2(k), k) == q
  {
    if k > 0 {
      DoubleBlock(q, Pow2(k - 1));
      AlignedAddress(q, k - 1);
    }
  }

  // ---------------------------------------------------------------------------------------------
  // Binding
  // ---------------------------------------------------------------------------------------------

  /** Two different pairs of hashes with the same hash of their concatenation. */
  ghost predicate Collision<T>(h: Hasher<T>, p: (T, T), q: (T, T)) {
    p != q && h.Concat(p.0, p.1) == h.Concat(q.0, q.1)
  }

  /** Where two different openings of the same node to the same root collide. */
  ghost function FindCollision<T>(h: Hasher<T>, q: nat, a: T, as': seq<T>, b: T, bs: seq<T>): (r: ((T, T), (T, T)))
    requires |as'| == |bs| && (a, as') != (b, bs)
    requires Roll(h, a, q, as') == Roll(h, b, q, bs)
    ensures Collision(h, r.0, r.1)
    decreases |bs|
  {
    assert as' != [];
    var p, p' := Parent(h, q, a, as'[0]), Parent(h, q, b, bs[0]);
    assert as' == [as'[0]] + as'[1..] && bs == [bs[0]] + bs[1..];
    if (p, as'[1..]) == (p', bs[1..]) then (Children(q, a, as'[0]), Children(q, b, bs[0]))
    else FindCollision(h, q / 2, p, as'[1..], p', bs[1..])
  }

  /**
    An accepted slice of the expected depth against the true root has the true hash and the true
    siblings, or it exhibits a collision.
   */
  lemma SliceBinds<T>(h: Hasher<T>, z: T, s: seq<T>, log2: nat, proof: Proof<T>)
    returns (collision: ((T, T), (T, T)))
    requires proof.log2TargetSize <= proof.log2RootSize == log2
    requires |proof.siblings| == log2 - proof.log2TargetSize
    requires Shr(proof.targetAddress, proof.log2TargetSize) < Pow2(log2 - proof.log2TargetSize)
    requires proof.rootHash == Root(h, z, s, log2) && VerifySlice(h, proof)
    ensures var k, q := proof.log2TargetSize, Shr(proof.targetAddress, proof.log2TargetSize);
            || (&& proof.targetHash == Node(h, z, s, k, q)
                && proof.siblings == SiblingsOf(h, z, s, k, q, log2 - k))
            || Collision(h, collision.0, collision.1)
  {
    hide Node, SiblingsOf, Roll;
    var k, q := proof.log2TargetSize, Shr(proof.targetAddress, proof.log2TargetSize);
    var t, siblings := Node(h, z, s, k, q), SiblingsOf(h, z, s, k, q, log2 - k);
    TrueProofRolls(h, z, s, k, q, log2 - k);
    ShrSmall(q, log2 - k);
    assert proof.siblings[..log2 - k] == proof.siblings;
    if (proof.targetHash, proof.siblings) != (t, siblings) {
      collision := FindCollision(h, q, proof.targetHash, proof.siblings, t, siblings);
    } else {
      collision := ((t, t), (t, t));
    }
  }

  // ---------------------------------------------------------------------------------------------
  // Splicing
  // ---------------------------------------------------------------------------------------------

  /** The two trees agree at height `k` everywhere but under node `q`. */
  ghost predicate DifferOnlyAt<T(!new)>(h: Hasher<T>, z: T, s: seq<T>, s': seq<T>, k: nat, q: nat) {
    forall p: nat :: p != q ==> Node(h, z, s, k, p) == Node(h, z, s', k, p)
  }

  lemma DifferOnlyAbove<T(!new)>(h: Hasher<T>, z: T, s: seq<T>, s': seq<T>, k: nat, q: nat)
    requires DifferOnlyAt(h, z, s, s', k, q)
    ensures DifferOnlyAt(h, z, s, s', k + 1, q / 2)
  {
    forall p: nat {:trigger Node(h, z, s, k + 1, p)} | p != q / 2
      ensures Node(h, z, s, k + 1, p) == Node(h, z, s', k + 1, p)
    {
      assert 2 * p != q && 2 * p + 1 != q;
    }
  }

  /** The path of the changed node has the same siblings before and after the change. */
  lemma {:induction false} SiblingsUnchanged<T(!new)>(h: Hasher<T>, z: T, s: seq<T>, s': seq<T>, k: nat, q: nat, n: nat)
    requires DifferOnlyAt(h, z, s, s', k, q)
    ensures SiblingsOf(h, z, s, k, q, n) == SiblingsOf(h, z, s', k, q, n)
    decreases n
  {
    if n > 0 {
      assert Sibling(q) != q;
      DifferOnlyAbove(h, z, s, s', k, q);
      SiblingsUnchanged(h, z, s, s', k + 1, q / 2, n - 1);
    }
  }

  /** Rolling the new hash up the old siblings gives the root of the changed tree. */
  lemma SpliceRolls<T(!new)>(h: Hasher<T>, z: T, s: seq<T>, s': seq<T>, k: nat, q: nat, n: nat)
    requires DifferOnlyAt(h, z, s, s', k, q) && Shr(q, n) == 0
    ensures Roll(h, Node(h, z, s', k, q), q, SiblingsOf(h, z, s, k, q, n)) == Root(h, z, s', k + n)
  {
    SiblingsUnchanged(h, z, s, s', k, q, n);
    TrueProofRolls(h, z, s', k, q, n);
  }

  /**
    An accepted splice against the true root, with the hash the node has in a tree changed only there,
    returns the root of that tree, or it exhibits a collision.
   */
  lemma SpliceBinds<T(!new)>(h: Hasher<T>, z: T, s: seq<T>, s': seq<T>, log2: nat, proof: Proof<T>, newRootHash: T)
    returns (collision: ((T, T), (T, T)))
    requires proof.log2TargetSize <= proof.log2RootSize == log2
    requires |proof.siblings| == log2 - proof.log2TargetSize
    requires Shr(proof.targetAddress, proof.log2TargetSize) < Pow2(log2 - proof.log2TargetSize)
    requires var k, q := proof.log2TargetSize, Shr(proof.targetAddress, proof.log2TargetSize);
             && DifferOnlyAt(h, z, s, s', k, q)
             && proof.rootHash == Root(h, z, s, log2)
             && VerifySplice(h, proof, Node(h, z, s', k, q), newRootHash)
    ensures newRootHash == Root(h, z, s', log2) || Collision(h, collision.0, collision.1)
  {
    hide Node, SiblingsOf, Roll, DifferOnlyAt;
    var k, q := proof.log2TargetSize, Shr(proof.targetAddress, proof.log2TargetSize);
    collision := SliceBinds(h, z, s, log2, proof);
    ShrSmall(q, log2 - k);
    SpliceRolls(h, z, s, s', k, q, log2 - k);
    assert proof.siblings[..log2 - k] == proof.siblings;
  }
}
