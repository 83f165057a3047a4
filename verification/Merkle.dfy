/**
  Merkle trees over sequences of hashes.

  The hash function is a parameter: `Hasher` holds the two operations of the source's hashers, hashing
  a byte string and hashing the concatenation of two hashes. Nothing is assumed about either, so every
  result holds for Keccak-256, for SHA-256 and for any other choice.

  The reference is `Node`, the usual top-down recursion. A tree is given by the leaves seen so far and
  the pristine leaf that stands for every leaf after them.
 */
module Merkle {

  datatype Option<+T> = None | Some(value: T)

  type byte = x: int | 0 <= x < 256

  type Bytes = seq<byte>

  /**
    The hash function: `hash` of a byte string and `concat_hash` of two hashes. A hash is 32 bytes, so a
    word of memory can be read as one.
   */
  datatype Hasher<!T> = Hasher(hash: Bytes -> T, concat: (T, T) -> T, fromBytes: Bytes -> T)
  {
    function Hash(data: Bytes): T { hash(data) }

    function Concat(left: T, right: T): T { concat(left, right) }

    function FromBytes(word: Bytes): T { fromBytes(word) }
  }

  /** The words of the hash tree are its leaves. */
  const WORD_LOG2_SIZE: nat := 5
  const WORD_SIZE: nat := 32

  function Max(a: nat, b: nat): nat { if a > b then a else b }

  /** The height of the node over 2^log2Size bytes, which is at least a word of the tree. */
  function Height(log2Size: nat): nat { Max(log2Size, WORD_LOG2_SIZE) - WORD_LOG2_SIZE }

  function ZeroWordHash<T>(h: Hasher<T>): T { h.Hash(Repeat<byte>(0, WORD_SIZE)) }

  function Repeat<T>(x: T, n: nat): (r: seq<T>)
    ensures |r| == n
    ensures forall i :: 0 <= i < n ==> r[i] == x
  {
    seq(n, _ => x)
  }

  // ---------------------------------------------------------------------------------------------
  // Powers of two and shifts
  // ---------------------------------------------------------------------------------------------

  function Pow2(n: nat): (r: nat)
    ensures r >= 1
  {
    if n == 0 then 1 else 2 * Pow2(n - 1)
  }

  /** `n >> i`. */
  function Shr(n: nat, i: nat): nat
    decreases i
  {
    if i == 0 then n else Shr(n / 2, i - 1)
  }

  /** `(n & (1 << i)) != 0`. */
  predicate Bit(n: nat, i: nat) {
    Shr(n, i) % 2 == 1
  }

  lemma ShrStep(n: nat, i: nat)
    ensures Shr(n, i + 1) == Shr(n, i) / 2
    decreases i
  {
    if i > 0 {
      ShrStep(n / 2, i - 1);
    }
  }

  lemma {:induction false} ShrShr(n: nat, j: nat, k: nat)
    ensures Shr(Shr(n, j), k) == Shr(n, j + k)
    decreases j
  {
    if j > 0 {
      ShrShr(n / 2, j - 1, k);
    }
  }

  lemma ShrSmall(n: nat, i: nat)
    requires n < Pow2(i)
    ensures Shr(n, i) == 0
    decreases i
  {
    if i > 0 {
      ShrSmall(n / 2, i - 1);
    }
  }

  /** The shift is division by the power of two, which is what makes `Bit` the machine's bit test. */
  lemma {:induction false} ShrIsDivision(n: nat, i: nat)
    ensures Shr(n, i) * Pow2(i) <= n < (Shr(n, i) + 1) * Pow2(i)
    decreases i
  {
    if i > 0 {
      ShrIsDivision(n / 2, i - 1);
      DoubleBlock(Shr(n, i), Pow2(i - 1));
      DoubleBlock(Shr(n, i) + 1, Pow2(i - 1));
    }
  }

  lemma DoubleBlock(p: nat, q: nat)
    ensures p * (2 * q) == 2 * (p * q)
  {
  }

  lemma {:induction false} PowersMultiply(a: nat, b: nat)
    ensures Pow2(a) * Pow2(b) == Pow2(a + b)
  {
    if b > 0 {
      PowersMultiply(a, b - 1);
      DoubleBlock(Pow2(a), Pow2(b - 1));
    }
  }

  // ---------------------------------------------------------------------------------------------
  // The reference tree
  // ---------------------------------------------------------------------------------------------

  /** Leaf `i` of the tree over `s`: after the leaves of `s` every leaf is the pristine `z`. */
  function At<T>(s: seq<T>, z: T, i: nat): T {
    if i < |s| then s[i] else z
  }

  /** The hash of node `p` of height `k`: it covers the leaves p * 2^k up to (p + 1) * 2^k. */
  function Node<T>(h: Hasher<T>, z: T, s: seq<T>, k: nat, p: nat): T {
    if k == 0 then At(s, z, p)
    else h.Concat(Node(h, z, s, k - 1, 2 * p), Node(h, z, s, k - 1, 2 * p + 1))
  }

  /** The root hash of the tree of height `k`. */
  function Root<T>(h: Hasher<T>, z: T, s: seq<T>, k: nat): T {
    Node(h, z, s, k, 0)
  }

  /** The root hash of a tree of height `k` all of whose leaves are `z`. */
  function Pristine<T>(h: Hasher<T>, z: T, k: nat): T {
    if k == 0 then z else h.Concat(Pristine(h, z, k - 1), Pristine(h, z, k - 1))
  }

  // ---------------------------------------------------------------------------------------------
  // Climbing one level
  // ---------------------------------------------------------------------------------------------

  /** The parents of the complete pairs; an unpaired last node has no parent here. */
  function Up<T>(h: Hasher<T>, s: seq<T>): (r: seq<T>)
    ensures |r| == |s| / 2
    ensures forall i :: 0 <= i < |r| ==> r[i] == h.Concat(s[2 * i], s[2 * i + 1])
  {
    seq(|s| / 2, i requires 0 <= i < |s| / 2 => h.Concat(s[2 * i], s[2 * i + 1]))
  }

  /** The parents of a level that holds `s` and then the pristine node `z`. */
  function PadUp<T>(h: Hasher<T>, z: T, s: seq<T>): (r: seq<T>)
    ensures |r| == (|s| + 1) / 2
    ensures forall i :: 0 <= i < |r| ==> r[i] == h.Concat(s[2 * i], At(s, z, 2 * i + 1))
  {
    seq((|s| + 1) / 2, i requires 0 <= i < (|s| + 1) / 2 => h.Concat(s[2 * i], At(s, z, 2 * i + 1)))
  }

  /** A node over a level is the node one height lower over the level's parents. */
  lemma {:induction false} NodeOfParents<T>(h: Hasher<T>, z: T, s: seq<T>, k: nat, p: nat)
    ensures Node(h, z, s, k + 1, p) == Node(h, h.Concat(z, z), PadUp(h, z, s), k, p)
  {
    if k > 0 {
      NodeOfParents(h, z, s, k - 1, 2 * p);
      NodeOfParents(h, z, s, k - 1, 2 * p + 1);
    }
  }

  lemma {:induction false} PristineOfParents<T>(h: Hasher<T>, z: T, k: nat)
    ensures Pristine(h, z, k + 1) == Pristine(h, h.Concat(z, z), k)
  {
    if k > 0 {
      PristineOfParents(h, z, k - 1);
    }
  }

  /** Appending one pristine leaf does not change any node. */
  lemma {:induction false} PaddingIsInvisible<T>(h: Hasher<T>, z: T, s: seq<T>, k: nat, p: nat)
    ensures Node(h, z, s + [z], k, p) == Node(h, z, s, k, p)
  {
    if k > 0 {
      PaddingIsInvisible(h, z, s, k - 1, 2 * p);
      PaddingIsInvisible(h, z, s, k - 1, 2 * p + 1);
    }
  }

  /** A node to the right of every leaf is pristine. */
  lemma {:induction false} NodeBeyondLeaves<T>(h: Hasher<T>, z: T, s: seq<T>, k: nat, p: nat)
    requires |s| <= p * Pow2(k)
    ensures Node(h, z, s, k, p) == Pristine(h, z, k)
  {
    if k > 0 {
      var q := Pow2(k - 1);
      assert p * (2 * q) == (2 * p) * q && (2 * p + 1) * q == (2 * p) * q + q;
      NodeBeyondLeaves(h, z, s, k - 1, 2 * p);
      NodeBeyondLeaves(h, z, s, k - 1, 2 * p + 1);
    }
  }

  /** Node `p` of height `k` depends only on its block of 2^k leaves. */
  lemma {:induction false} NodeDependsOnBlock<T>(h: Hasher<T>, z: T, s: seq<T>, w: T, t: seq<T>, k: nat, p: nat)
    requires forall i: nat :: p * Pow2(k) <= i < (p + 1) * Pow2(k) ==> At(s, z, i) == At(t, w, i)
    ensures Node(h, z, s, k, p) == Node(h, w, t, k, p)
  {
    if k > 0 {
      var q := Pow2(k - 1);
      assert p * (2 * q) == (2 * p) * q && (2 * p + 1) * q == (2 * p) * q + q;
      assert (p + 1) * (2 * q) == (2 * p + 2) * q == (2 * p + 1) * q + q;
      NodeDependsOnBlock(h, z, s, w, t, k - 1, 2 * p);
      NodeDependsOnBlock(h, z, s, w, t, k - 1, 2 * p + 1);
    } else {
      assert p * Pow2(0) <= p < (p + 1) * Pow2(0);
    }
  }
}
