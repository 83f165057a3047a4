/**
  What the operations of the C++ incremental tree do, as functions of the slots, and what whole runs of
  them keep. Every operation is a function of the slots, so two trees with the same slots cannot be told
  apart by any later run.
 */
module TreeSpec {
  import opened Merkle
  import opened Uint64
  import opened BinaryCounter
  import opened CounterView

  datatype Error = NegativeSize | SizeTooLarge | LeafCountTooLarge | IncompatibleContext
                 | TooManyLeaves | PadHashesSize | IncompleteTree | LeafLargerThanRoot | WordLargerThanLeaf

  datatype Result<+V> = Ok(value: V) | Err(error: Error)

  datatype Op<T> = PushBack(leaf: T) | PadBack(count: nat, padHashes: seq<T>) | Clear

  lemma SumFits(log2: nat, n: nat)
    requires log2 <= 63 && n <= Pow2(log2)
    ensures Wrap64(n) == n
  {
    PowersFit(log2);
  }

  /** The room check of `pad_back`, with the sum computed on 64 bits. */
  predicate NoRoom(log2: nat, count: nat, n: nat) {
    n > Pow2(log2) || Wrap64(count + n) > Pow2(log2)
  }

  /** The one state and count at which that sum wraps. */
  predicate WrapPoint(log2: nat, count: nat, n: nat) {
    log2 == 63 && count == TWO_TO_63 && n == TWO_TO_63
  }

  /** The room check rejects exactly the counts that do not fit, except at the wrap point. */
  lemma RoomCheckIsExact(log2: nat, count: nat, n: nat)
    requires log2 <= 63 && count <= Pow2(log2)
    ensures NoRoom(log2, count, n) <==> count + n > Pow2(log2) && !WrapPoint(log2, count, n)
  {
    PowersFit(log2);
  }

  /** At the wrap point the check lets through twice as many leaves as the tree holds, and the tree ends empty. */
  lemma RoomCheckWraps()
    ensures !NoRoom(63, TWO_TO_63, TWO_TO_63) && TWO_TO_63 + TWO_TO_63 == 2 * Pow2(63)
  {
    PowersFit(63);
  }

  function Apply<T>(h: Hasher<T>, log2: nat, f: Slots<T>, op: Op<T>): (Slots<T>, Result<()>) {
    match op
    case PushBack(leaf) =>
      if Count(f) >= Pow2(log2) then (f, Err(TooManyLeaves)) else (Push(h, f, leaf), Ok(()))
    case PadBack(n, pads) =>
      if n == 0 then (f, Ok(()))
      else if NoRoom(log2, Count(f), n) then (f, Err(TooManyLeaves))
      else if |pads| != log2 + 1 then (f, Err(PadHashesSize))
      else if WrapPoint(log2, Count(f), n) then (Empty(|f|), Ok(()))
      else (PadWith(h, f, pads, n), Ok(()))
    case Clear => (Empty(|f|), Ok(()))
  }

  /** What gives padding its meaning: pad hashes made as `make_pad_hashes` makes them. */
  ghost predicate Admissible<T>(h: Hasher<T>, log2: nat, op: Op<T>) {
    op.PadBack? && |op.padHashes| == log2 + 1 ==> IsPadChain(h, op.padHashes)
  }

  // ---------------------------------------------------------------------------------------------
  // Runs
  // ---------------------------------------------------------------------------------------------

  /** What an operation means for the sequence of leaves. */
  function Meaning<T>(log2: nat, s: seq<T>, op: Op<T>): seq<T> {
    match op
    case PushBack(leaf) => if |s| < Pow2(log2) then s + [leaf] else s
    case PadBack(n, pads) =>
      if n == 0 || |pads| != log2 + 1 then s
      else if |s| + n <= Pow2(log2) then s + Repeat(pads[0], n)
      else if WrapPoint(log2, |s|, n) then []
      else s
    case Clear => []
  }

  function RunSlots<T>(h: Hasher<T>, log2: nat, f: Slots<T>, ops: seq<Op<T>>): Slots<T>
    decreases |ops|
  {
    if ops == [] then f else RunSlots(h, log2, Apply(h, log2, f, ops[0]).0, ops[1..])
  }

  function RunLeaves<T>(log2: nat, s: seq<T>, ops: seq<Op<T>>): seq<T>
    decreases |ops|
  {
    if ops == [] then s else RunLeaves(log2, Meaning(log2, s, ops[0]), ops[1..])
  }

  /** Every padding of the run has real pad hashes. */
  ghost predicate AdmissibleRun<T>(h: Hasher<T>, log2: nat, ops: seq<Op<T>>) {
    forall i :: 0 <= i < |ops| ==> Admissible(h, log2, ops[i])
  }

  lemma PushBackKeepsLeaves<T>(h: Hasher<T>, log2: nat, s: seq<T>, leaf: T)
    requires |s| <= Pow2(log2)
    ensures Apply(h, log2, SlotsOf(h, s, log2 + 1), PushBack(leaf)).0
         == SlotsOf(h, Meaning(log2, s, PushBack(leaf)), log2 + 1)
  {
    assert Pow2(log2 + 1) == 2 * Pow2(log2);
    SlotsOfCount(h, s, log2 + 1);
    if |s| < Pow2(log2) {
      PushKeepsSlots(h, s, log2 + 1, leaf);
      assert Meaning(log2, s, PushBack(leaf)) == s + [leaf];
    } else {
      assert Meaning(log2, s, PushBack(leaf)) == s;
    }
  }

  /** With the room check exact, `pad_back` pads exactly when the arguments are in order, or wraps. */
  lemma PadBackEffect<T>(h: Hasher<T>, log2: nat, f: Slots<T>, n: nat, pads: seq<T>)
    requires log2 <= 63 && Count(f) <= Pow2(log2)
    requires |pads| == log2 + 1 ==> IsPadChain(h, pads)
    ensures Apply(h, log2, f, PadBack(n, pads)).0
         == if n == 0 || |pads| != log2 + 1 then f
            else if Count(f) + n <= Pow2(log2) then Pad(h, f, pads[0], n)
            else if WrapPoint(log2, Count(f), n) then Empty(|f|)
            else f
  {
    hide PadWith, Pad;
    PowersFit(log2);
    RoomCheckIsExact(log2, Count(f), n);
    assert Pow2(log2 + 1) == 2 * Pow2(log2);
    hide Pow2, Count, Repeat;
    if |pads| == log2 + 1 && Count(f) + n <= Pow2(log2) {
      PadWithChain(h, f, pads, n);
    }
  }

  lemma PadBackKeepsLeaves<T>(h: Hasher<T>, log2: nat, s: seq<T>, n: nat, pads: seq<T>)
    requires log2 <= 63 && |s| <= Pow2(log2)
    requires |pads| == log2 + 1 ==> IsPadChain(h, pads)
    ensures Apply(h, log2, SlotsOf(h, s, log2 + 1), PadBack(n, pads)).0
         == SlotsOf(h, Meaning(log2, s, PadBack(n, pads)), log2 + 1)
  {
    hide Apply, Pad, SlotsOf, Count, Repeat;
    var f, m := SlotsOf(h, s, log2 + 1), Pow2(log2);
    assert Pow2(log2 + 1) == 2 * m;
    SlotsOfCount(h, s, log2 + 1);
    PadBackEffect(h, log2, f, n, pads);
    if n > 0 && |s| + n <= m && |pads| == log2 + 1 {
      PadKeepsSlots(h, s, log2 + 1, pads[0], n);
      assert Apply(h, log2, f, PadBack(n, pads)).0 == Pad(h, f, pads[0], n);
      assert Meaning(log2, s, PadBack(n, pads)) == s + Repeat(pads[0], n);
    } else if n > 0 && |pads| == log2 + 1 && WrapPoint(log2, |s|, n) {
      NoLeavesNoSlots(h, log2 + 1);
      assert Apply(h, log2, f, PadBack(n, pads)).0 == Empty(log2 + 1);
      assert Meaning(log2, s, PadBack(n, pads)) == [];
    } else {
      assert Apply(h, log2, f, PadBack(n, pads)).0 == f;
      assert Meaning(log2, s, PadBack(n, pads)) == s;
    }
  }

  lemma ApplyKeepsLeaves<T>(h: Hasher<T>, log2: nat, s: seq<T>, op: Op<T>)
    requires log2 <= 63 && |s| <= Pow2(log2) && Admissible(h, log2, op)
    ensures |Meaning(log2, s, op)| <= Pow2(log2)
    ensures Apply(h, log2, SlotsOf(h, s, log2 + 1), op).0 == SlotsOf(h, Meaning(log2, s, op), log2 + 1)
  {
    match op
    case PushBack(leaf) => PushBackKeepsLeaves(h, log2, s, leaf);
    case PadBack(n, pads) => PadBackKeepsLeaves(h, log2, s, n, pads);
    case Clear => NoLeavesNoSlots(h, log2 + 1);
  }

  /** Over any run, the slots stand for exactly the leaves the run has appended. */
  lemma {:induction false} RunKeepsLeaves<T>(h: Hasher<T>, log2: nat, s: seq<T>, ops: seq<Op<T>>)
    requires log2 <= 63 && |s| <= Pow2(log2) && AdmissibleRun(h, log2, ops)
    ensures |RunLeaves(log2, s, ops)| <= Pow2(log2)
    ensures RunSlots(h, log2, SlotsOf(h, s, log2 + 1), ops) == SlotsOf(h, RunLeaves(log2, s, ops), log2 + 1)
    decreases |ops|
  {
    if ops != [] {
      ApplyKeepsLeaves(h, log2, s, ops[0]);
      RunKeepsLeaves(h, log2, Meaning(log2, s, ops[0]), ops[1..]);
    }
  }

  /** The slots of a tree over `leaves`: at each set bit of their number, the node the class promises. */
  ghost predicate HoldsNodes<T>(h: Hasher<T>, z: T, f: Slots<T>, leaves: seq<T>) {
    Count(f) == |leaves| &&
    forall i :: 0 <= i < |f| ==>
      f[i] == if Bit(|leaves|, i) then Some(Node(h, z, leaves, i, Shr(|leaves|, i) - 1)) else None
  }

  lemma SlotsHoldNodes<T>(h: Hasher<T>, z: T, leaves: seq<T>, n: nat)
    requires |leaves| < Pow2(n)
    ensures HoldsNodes(h, z, SlotsOf(h, leaves, n), leaves)
  {
    hide SlotsOf, Node, Shr, Count;
    SlotsOfCount(h, leaves, n);
    forall i | 0 <= i < n
      ensures SlotsOf(h, leaves, n)[i]
           == if Bit(|leaves|, i) then Some(Node(h, z, leaves, i, Shr(|leaves|, i) - 1)) else None
    {
      SlotIsNode(h, z, leaves, n, i);
    }
  }

  /** After any run from the empty tree, the hash at each set bit is the node the class promises. */
  lemma RunFromEmpty<T>(h: Hasher<T>, z: T, log2: nat, ops: seq<Op<T>>)
    requires log2 <= 63 && AdmissibleRun(h, log2, ops)
    ensures |RunLeaves(log2, [], ops)| <= Pow2(log2)
    ensures HoldsNodes(h, z, RunSlots(h, log2, Empty(log2 + 1), ops), RunLeaves(log2, [], ops))
  {
    hide SlotsOf, HoldsNodes, RunSlots, RunLeaves;
    assert Pow2(log2 + 1) == 2 * Pow2(log2);
    NoLeavesNoSlots(h, log2 + 1);
    RunKeepsLeaves(h, log2, [], ops);
    SlotsHoldNodes(h, z, RunLeaves(log2, [], ops), log2 + 1);
  }

  /** A full tree holds the root of all its leaves in its last slot. */
  lemma FullSlotIsRoot<T>(h: Hasher<T>, z: T, s: seq<T>, log2: nat)
    requires |s| == Pow2(log2)
    ensures SlotsOf(h, s, log2 + 1)[log2] == Some(Root(h, z, s, log2))
  {
    hide SlotsOf, Node, Shr, Pow2;
    PowerShift(log2);
    SlotIsNode(h, z, s, log2 + 1, log2);
  }

  lemma {:induction false} PowerShift(i: nat)
    ensures Shr(Pow2(i), i) == 1
  {
    if i > 0 {
      PowerShift(i - 1);
    }
  }

  // ---------------------------------------------------------------------------------------------
  // Padding is repeated pushing
  // ---------------------------------------------------------------------------------------------

  lemma {:induction false} RunOfPushes<T>(h: Hasher<T>, log2: nat, f: Slots<T>, xs: seq<T>)
    requires Count(f) + |xs| <= Pow2(log2)
    ensures RunSlots(h, log2, f, seq(|xs|, i requires 0 <= i < |xs| => PushBack(xs[i]))) == PushAll(h, f, xs)
    decreases |xs|
  {
    if xs != [] {
      var ops := seq(|xs|, i requires 0 <= i < |xs| => PushBack(xs[i]));
      var rest := xs[1..];
      PushCounts(h, f, xs[0]);
      RunOfPushes(h, log2, Push(h, f, xs[0]), rest);
      assert ops[1..] == seq(|rest|, i requires 0 <= i < |rest| => PushBack(rest[i]));
    }
  }

  /** From every state with room, one `pad_back` leaves the slots that `n` calls of `push_back` leave. */
  lemma PadBackIsPushBacks<T>(h: Hasher<T>, log2: nat, f: Slots<T>, n: nat, pads: seq<T>)
    requires log2 <= 63 && Count(f) + n <= Pow2(log2) && |pads| == log2 + 1 && IsPadChain(h, pads)
    ensures Apply(h, log2, f, PadBack(n, pads)) == (RunSlots(h, log2, f, Repeat(PushBack(pads[0]), n)), Ok(()))
  {
    RoomCheckIsExact(log2, Count(f), n);
    PowersFit(log2);
    assert Pow2(log2 + 1) == 2 * Pow2(log2);
    PadWithChain(h, f, pads, n);
    PadIsPushAll(h, f, pads[0], n);
    var xs := Repeat(pads[0], n);
    RunOfPushes(h, log2, f, xs);
    assert Repeat(PushBack(pads[0]), n) == seq(|xs|, i requires 0 <= i < |xs| => PushBack(xs[i]));
  }

  // ---------------------------------------------------------------------------------------------
  // Contexts
  // ---------------------------------------------------------------------------------------------

  /** The hashes of the occupied slots, lowest level first. */
  function Pack<T>(f: Slots<T>): seq<T> {
    if f == [] then [] else (if f[0].Some? then [f[0].value] else []) + Pack(f[1..])
  }

  function PopCount(n: nat): nat {
    if n == 0 then 0 else n % 2 + PopCount(n / 2)
  }

  /** The number of set bits below `i`. */
  function PopBelow(n: nat, i: nat): nat
    decreases i
  {
    if i == 0 then 0 else n % 2 + PopBelow(n / 2, i - 1)
  }

  lemma {:induction false} PopBelowStep(n: nat, i: nat)
    ensures PopBelow(n, i + 1) == PopBelow(n, i) + if Bit(n, i) then 1 else 0
    decreases i
  {
    if i > 0 {
      PopBelowStep(n / 2, i - 1);
    }
  }

  lemma {:induction false} PopBelowMonotonic(n: nat, i: nat, j: nat)
    requires i <= j
    ensures PopBelow(n, i) <= PopBelow(n, j)
    decreases j
  {
    if i < j {
      PopBelowMonotonic(n, i, j - 1);
      PopBelowStep(n, j - 1);
    }
  }

  lemma {:induction false} PopBelowAll(n: nat, i: nat)
    requires n < Pow2(i)
    ensures PopBelow(n, i) == PopCount(n)
    decreases i
  {
    if i > 0 {
      PopBelowAll(n / 2, i - 1);
    }
  }

  lemma {:induction false} PackAppend<T>(f: Slots<T>, g: Slots<T>)
    ensures Pack(f + g) == Pack(f) + Pack(g)
    decreases |f|
  {
    if f == [] {
      assert f + g == g;
    } else {
      PackAppend(f[1..], g);
      assert (f + g)[0] == f[0] && (f + g)[1..] == f[1..] + g;
      var head := if f[0].Some? then [f[0].value] else [];
      assert Pack(f + g) == head + (Pack(f[1..]) + Pack(g));
      assert Pack(f) == head + Pack(f[1..]);
    }
  }

  /** One level of packing or unpacking. */
  lemma PackOneMore<T>(n: nat, c: seq<T>, i: nat)
    requires i < |c|
    ensures Pack(View(n, c[..i + 1])) == Pack(View(n, c[..i])) + if Bit(n, i) then [c[i]] else []
  {
    var last := [if Bit(n, i) then Some(c[i]) else None];
    ViewOneMore(n, c, i);
    PackAppend(View(n, c[..i]), last);
    assert Pack(last[1..]) == [];
  }

  lemma UnpackOneMore<T>(n: nat, c: seq<T>, i: nat, packed: seq<T>, j: nat)
    requires i < |c| && j <= |packed| && Pack(View(n, c[..i])) == packed[..j]
    requires Bit(n, i) ==> j < |packed| && c[i] == packed[j]
    ensures Pack(View(n, c[..i + 1])) == packed[..if Bit(n, i) then j + 1 else j]
  {
    PackOneMore(n, c, i);
  }

  lemma PackSplits<T>(f: Slots<T>)
    requires f != []
    ensures f[0].Some? ==> Pack(f) == [f[0].value] + Pack(f[1..])
    ensures f[0].None? ==> Pack(f) == Pack(f[1..])
  {
  }

  /** A context together with the count determines the slots. */
  lemma {:induction false} PackDeterminesSlots<T>(f: Slots<T>, g: Slots<T>)
    requires |f| == |g| && Count(f) == Count(g) && Pack(f) == Pack(g)
    ensures f == g
    decreases |f|
  {
    if f != [] {
      CountHalves(f);
      CountHalves(g);
      PackSplits(f);
      PackSplits(g);
      hide Count, Pack;
      if f[0].Some? {
        assert Pack(f)[1..] == Pack(f[1..]) && Pack(g)[1..] == Pack(g[1..]);
        assert f[0].value == Pack(f)[0] == g[0].value;
      }
      PackDeterminesSlots(f[1..], g[1..]);
      assert f == [f[0]] + f[1..] && g == [g[0]] + g[1..];
    }
  }

  /** A carry over `i` set bits turns them off and one bit on. */
  lemma {:induction false} PopCountOfCarry(n: nat, i: nat)
    requires SetBetween(n, 0, i) && !Bit(n, i)
    ensures PopCount(n + 1) + i == PopCount(n) + 1
    decreases i
  {
    if i > 0 {
      PopCountOfCarry(n / 2, i - 1);
      assert (n + 1) / 2 == n / 2 + 1;
    } else {
      assert PopCount(n + 1) == 1 + PopCount(n / 2);
    }
  }
}
