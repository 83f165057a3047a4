/**
  The slots kept as a count and an array of hashes, the way the C++ tree keeps them, and what adding or
  removing one power of two does to them.
 */
module CounterView {
  import opened Merkle
  import opened Uint64
  import opened BinaryCounter

  // ---------------------------------------------------------------------------------------------
  // The slots held by a count and a context
  // ---------------------------------------------------------------------------------------------

  /** The occupied slots are the set bits of the count; what the context holds elsewhere is stale. */
  function View<T>(n: nat, context: seq<T>): (f: Slots<T>)
    ensures |f| == |context|
    decreases |context|
  {
    if context == [] then []
    else [if n % 2 == 1 then Some(context[0]) else None] + View(n / 2, context[1..])
  }

  lemma {:induction false} ViewCount<T>(n: nat, c: seq<T>)
    requires n < Pow2(|c|)
    ensures Count(View(n, c)) == n
    decreases |c|
  {
    if c != [] {
      ViewCount(n / 2, c[1..]);
      assert View(n, c)[1..] == View(n / 2, c[1..]);
    }
  }

  lemma {:induction false} ViewOfZero<T>(c: seq<T>)
    ensures View(0, c) == Empty(|c|)
    decreases |c|
  {
    if c != [] {
      ViewOfZero(c[1..]);
    }
  }

  /** The slots below `i` and the slots from `i` on. */
  lemma {:induction false} ViewSplit<T>(n: nat, c: seq<T>, i: nat)
    requires i <= |c|
    ensures View(n, c) == View(n, c[..i]) + View(Shr(n, i), c[i..])
    decreases i
  {
    if i > 0 {
      ViewSplit(n / 2, c[1..], i - 1);
      assert c[..i][1..] == c[1..][..i - 1];
    } else {
      assert c[0..] == c;
    }
  }

  /** Bits 0 up to `i` of `n` are clear. */
  ghost predicate ClearBelow(n: nat, i: nat)
    decreases i
  {
    i > 0 ==> n % 2 == 0 && ClearBelow(n / 2, i - 1)
  }

  /** Bits `j` up to `i` of `n` are set. */
  ghost predicate SetBetween(n: nat, j: nat, i: nat)
    requires j <= i
    decreases i
  {
    i > 0 ==> if j == 0 then n % 2 == 1 && SetBetween(n / 2, 0, i - 1) else SetBetween(n / 2, j - 1, i - 1)
  }

  lemma {:induction false} ClearOneMore(n: nat, i: nat)
    requires ClearBelow(n, i) && !Bit(n, i)
    ensures ClearBelow(n, i + 1)
    decreases i
  {
    if i > 0 {
      ClearOneMore(n / 2, i - 1);
    }
  }

  lemma {:induction false} SetOneMore(n: nat, j: nat, i: nat)
    requires j <= i && SetBetween(n, j, i) && Bit(n, i)
    ensures SetBetween(n, j, i + 1)
    decreases i
  {
    if i > 0 {
      SetOneMore(n / 2, if j == 0 then 0 else j - 1, i - 1);
    }
  }

  lemma SetNothing(n: nat, j: nat)
    ensures SetBetween(n, j, j)
  {
  }

  lemma {:induction false} ViewClear<T>(n: nat, c: seq<T>)
    requires ClearBelow(n, |c|)
    ensures View(n, c) == Empty(|c|)
    decreases |c|
  {
    if c != [] {
      ViewClear(n / 2, c[1..]);
    }
  }

  // ---------------------------------------------------------------------------------------------
  // Adding and subtracting one power of two
  // ---------------------------------------------------------------------------------------------

  /** Adding one carries through the set bits and stops at the first clear bit `i`. */
  lemma {:induction false} CarryBits<T>(n: nat, c: seq<T>, i: nat, x: T)
    requires i < |c| && SetBetween(n, 0, i) && !Bit(n, i)
    ensures View(n + 1, c[i := x]) == Empty(i) + [Some(x)] + View(Shr(n, i + 1), c[i + 1..])
    decreases i
  {
    if i == 0 {
      assert c[0 := x][1..] == c[1..];
    } else {
      var tail := c[1..];
      CarryBits(n / 2, tail, i - 1, x);
      var above := View(Shr(n, i + 1), c[i + 1..]);
      assert tail[i..] == c[i + 1..];
      assert View(n / 2 + 1, tail[i - 1 := x]) == Empty(i - 1) + [Some(x)] + above;
      assert c[i := x][1..] == tail[i - 1 := x];
      assert View(n + 1, c[i := x]) == [None] + View(n / 2 + 1, tail[i - 1 := x]);
      hide View, Shr;
      assert [None] + Empty<T>(i - 1) == Empty<T>(i);
    }
  }

  lemma {:induction false} SetBetweenShifted(n: nat, j: nat, i: nat)
    requires j <= i && SetBetween(n, j, i)
    ensures SetBetween(Shr(n, j), 0, i - j)
    decreases j
  {
    if j > 0 {
      SetBetweenShifted(n / 2, j - 1, i - 1);
    }
  }

  /** The carry leaves every bit below the one it stops at clear. */
  lemma {:induction false} CarryClears(n: nat, j: nat, i: nat)
    requires j <= i && ClearBelow(n, j) && SetBetween(n, j, i)
    ensures ClearBelow(n + Pow2(j), i)
    decreases i
  {
    if i > 0 {
      var half := if j == 0 then 0 else j - 1;
      CarryClears(n / 2, half, i - 1);
      assert (n + Pow2(j)) / 2 == n / 2 + Pow2(half);
    }
  }

  /** A run of set bits that fills the word from `j` to `i` leaves no room for 2^j more. */
  lemma {:induction false} SetRunIsLarge(n: nat, j: nat, i: nat)
    requires j <= i && SetBetween(n, j, i)
    ensures n + Pow2(j) >= Pow2(i)
    decreases i
  {
    if i > 0 {
      SetRunIsLarge(n / 2, if j == 0 then 0 else j - 1, i - 1);
    }
  }

  lemma {:induction false} AddSpan(n: nat, j: nat)
    requires ClearBelow(n, j)
    ensures Shr(n + Pow2(j), j) == Shr(n, j) + 1
    decreases j
  {
    if j > 0 {
      AddSpan(n / 2, j - 1);
      assert (n + Pow2(j)) / 2 == n / 2 + Pow2(j - 1);
    }
  }

  lemma {:induction false} SubSpan<T>(n: nat, j: nat, pads: seq<T>)
    requires Pow2(j) <= n
    requires |pads| == j
    ensures Shr(n - Pow2(j), j) + 1 == Shr(n, j)
    ensures View(n - Pow2(j), pads) == View(n, pads)
    decreases j
  {
    if j > 0 {
      SubSpan(n / 2, j - 1, pads[1..]);
      assert (n - Pow2(j)) / 2 == n / 2 - Pow2(j - 1);
    }
  }

  lemma {:induction false} ClearBit(n: nat, i: nat, k: nat)
    requires ClearBelow(n, i) && k < i
    ensures !Bit(n, k)
    decreases i
  {
    if k > 0 {
      ClearBit(n / 2, i - 1, k - 1);
    }
  }

  lemma {:induction false} ClearBelowLess(n: nat, i: nat, j: nat)
    requires j <= i && ClearBelow(n, i)
    ensures ClearBelow(n, j)
    decreases j
  {
    if j > 0 {
      ClearBelowLess(n / 2, i - 1, j - 1);
    }
  }

  lemma {:induction false} ClearIsZero(n: nat, i: nat)
    requires ClearBelow(n, i) && n < Pow2(i)
    ensures n == 0
    decreases i
  {
    if i > 0 {
      ClearIsZero(n / 2, i - 1);
    }
  }

  lemma {:induction false} NoBitsAbove(n: nat, i: nat, k: nat)
    requires Shr(n, i) == 0 && i <= k
    ensures !Bit(n, k)
    decreases k
  {
    if i > 0 {
      NoBitsAbove(n / 2, i - 1, k - 1);
    } else if k > 0 {
      NoBitsAbove(0, 0, k - 1);
    }
  }

  lemma {:induction false} TakeBit(n: nat, i: nat)
    requires ClearBelow(n, i) && Bit(n, i)
    ensures Pow2(i) <= n
    ensures ClearBelow(n - Pow2(i), i + 1)
    ensures Shr(n - Pow2(i), i + 1) == Shr(n, i + 1)
    decreases i
  {
    if i > 0 {
      TakeBit(n / 2, i - 1);
      assert (n - Pow2(i)) / 2 == n / 2 - Pow2(i - 1);
    }
  }

  lemma {:induction false} PowerBits(i: nat)
    ensures ClearBelow(Pow2(i), i) && Bit(Pow2(i), i)
  {
    if i > 0 {
      PowerBits(i - 1);
    }
  }

  lemma {:induction false} Pow2Monotonic(i: nat, j: nat)
    requires i <= j
    ensures Pow2(i) <= Pow2(j)
    decreases j
  {
    if i < j {
      Pow2Monotonic(i, j - 1);
    }
  }

  lemma PowersFit(i: nat)
    requires i <= 63
    ensures Pow2(i) <= TWO_TO_63
    ensures i < 63 ==> 2 * Pow2(i) <= TWO_TO_63
    ensures i == 63 ==> Pow2(i) == TWO_TO_63
  {
    Pow2Monotonic(i, 63);
    Pow2Of63();
    if i < 63 {
      Pow2Monotonic(i + 1, 63);
    }
  }

  lemma Pow2Of63()
    ensures Pow2(63) == TWO_TO_63
  {
    Pow2Of16();
    PowersMultiply(16, 16);
    PowersMultiply(16, 15);
    assert Pow2(16) == 2 * Pow2(15);
    PowersMultiply(32, 31);
  }

  lemma Pow2Of16()
    ensures Pow2(16) == 0x1_0000
  {
    assert Pow2(4) == 2 * Pow2(3) == 16;
    PowersMultiply(4, 4);
    PowersMultiply(8, 8);
  }

  // ---------------------------------------------------------------------------------------------
  // Steps of the padding loop
  // ---------------------------------------------------------------------------------------------

  /** What padding still owes: `n` more leaves on a count `c` whose bits below `j` are clear. */
  ghost function Owed<T>(h: Hasher<T>, c: nat, ctx: seq<T>, n: nat, pads: seq<T>, j: nat): Slots<T>
    requires j <= |ctx| == |pads|
  {
    View(n, pads[..j]) + PadWith(h, View(Shr(c, j), ctx[j..]), pads[j..], Shr(n, j))
  }

  lemma {:induction false} ViewOneMore<T>(n: nat, c: seq<T>, j: nat)
    requires j < |c|
    ensures View(n, c[..j + 1]) == View(n, c[..j]) + [if Bit(n, j) then Some(c[j]) else None]
    decreases j
  {
    if j > 0 {
      ViewOneMore(n / 2, c[1..], j - 1);
      assert c[..j + 1][1..] == c[1..][..j] && c[..j][1..] == c[1..][..j - 1];
    }
  }

  /** The slots from level `i` up are the one at `i` and those above it. */
  lemma ViewFrom<T>(c: nat, ctx: seq<T>, i: nat)
    requires i < |ctx|
    ensures View(Shr(c, i), ctx[i..]) == [if Bit(c, i) then Some(ctx[i]) else None] + View(Shr(c, i + 1), ctx[i + 1..])
  {
    ShrStep(c, i);
    assert ctx[i..][1..] == ctx[i + 1..];
  }

  lemma PadOverEmptySlot<T>(h: Hasher<T>, f: Slots<T>, pads: seq<T>, n: nat)
    requires f != [] && f[0].None? && pads != []
    ensures PadWith(h, f, pads, n)
         == [if n % 2 == 1 then Some(pads[0]) else None] + PadWith(h, f[1..], pads[1..], n / 2)
  {
    if n == 0 {
      assert f == [None] + f[1..];
    }
  }

  /** Skipping an empty level. */
  lemma OwedAfterEmpty<T>(h: Hasher<T>, c: nat, ctx: seq<T>, n: nat, pads: seq<T>, j: nat)
    requires j < |ctx| == |pads| && !Bit(c, j)
    ensures Owed(h, c, ctx, n, pads, j + 1) == Owed(h, c, ctx, n, pads, j)
  {
    var f, above := View(Shr(c, j), ctx[j..]), View(Shr(c, j + 1), ctx[j + 1..]);
    ViewOneMore(n, pads, j);
    ViewFrom(c, ctx, j);
    ShrStep(n, j);
    hide View, Shr;
    assert f[1..] == above;
    assert pads[j..][1..] == pads[j + 1..];
    PadOverEmptySlot(h, f, pads[j..], Shr(n, j));
    hide PadWith;
  }

  lemma {:induction false} OwedAfterClearRun<T>(h: Hasher<T>, c: nat, ctx: seq<T>, n: nat, pads: seq<T>, j: nat, i: nat)
    requires j <= i <= |ctx| == |pads|
    requires ClearBelow(c, i)
    ensures Owed(h, c, ctx, n, pads, i) == Owed(h, c, ctx, n, pads, j)
    decreases i - j
  {
    if j < i {
      ClearBit(c, i, j);
      OwedAfterEmpty(h, c, ctx, n, pads, j);
      OwedAfterClearRun(h, c, ctx, n, pads, j + 1, i);
    }
  }

  /** The state of the carry: after the set bits from `j` to `i`, `right` is what is left to push at `i`. */
  ghost predicate Carrying<T>(h: Hasher<T>, c: nat, ctx: seq<T>, j: nat, i: nat, x: T, right: T)
    requires j <= i <= |ctx|
  {
    SetBetween(c, j, i) &&
    Push(h, View(Shr(c, j), ctx[j..]), x) == Empty(i - j) + Push(h, View(Shr(c, i), ctx[i..]), right)
  }

  lemma CarryStarts<T>(h: Hasher<T>, c: nat, ctx: seq<T>, j: nat, x: T)
    requires j <= |ctx|
    ensures Carrying(h, c, ctx, j, j, x, x)
  {
    SetNothing(c, j);
  }

  lemma CarryContinues<T>(h: Hasher<T>, c: nat, ctx: seq<T>, j: nat, i: nat, x: T, right: T)
    requires j <= i < |ctx| && Carrying(h, c, ctx, j, i, x, right) && Bit(c, i)
    ensures Carrying(h, c, ctx, j, i + 1, x, h.Concat(ctx[i], right))
  {
    hide View, SetBetween, Bit;
    SetOneMore(c, j, i);
    ViewFrom(c, ctx, i);
    assert Empty<T>(i + 1 - j) == Empty<T>(i - j) + [None];
  }

  lemma CarryStops<T>(h: Hasher<T>, c: nat, ctx: seq<T>, j: nat, i: nat, x: T, right: T)
    requires j <= i < |ctx| && Carrying(h, c, ctx, j, i, x, right) && !Bit(c, i)
    ensures Push(h, View(Shr(c, j), ctx[j..]), x) == Empty(i - j) + [Some(right)] + View(Shr(c, i + 1), ctx[i + 1..])
  {
    hide View, SetBetween, Bit;
    ViewFrom(c, ctx, i);
  }

  lemma CarryShifted(n: nat, j: nat, i: nat)
    requires j <= i && SetBetween(n, j, i) && !Bit(n, i)
    ensures SetBetween(Shr(n, j), 0, i - j) && !Bit(Shr(n, j), i - j)
    ensures Shr(Shr(n, j), i - j + 1) == Shr(n, i + 1)
  {
    SetBetweenShifted(n, j, i);
    ShrShr(n, j, i - j);
    ShrShr(n, j, i - j + 1);
  }

  lemma CarryResult<T>(c: nat, ctx: seq<T>, j: nat, i: nat, right: T)
    requires j <= i < |ctx|
    requires ClearBelow(c, j) && SetBetween(c, j, i) && !Bit(c, i)
    ensures View(Shr(c + Pow2(j), j), ctx[i := right][j..])
         == Empty(i - j) + [Some(right)] + View(Shr(c, i + 1), ctx[i + 1..])
  {
    hide View, Shr, SetBetween, ClearBelow;
    AddSpan(c, j);
    CarryShifted(c, j, i);
    CarryBits(Shr(c, j), ctx[j..], i - j, right);
    assert ctx[i := right][j..] == ctx[j..][i - j := right];
    assert ctx[j..][i - j + 1..] == ctx[i + 1..];
  }

  /** What the carry leaves in the slots is one push at level `j`. */
  lemma CarryIsPush<T>(h: Hasher<T>, c: nat, ctx: seq<T>, j: nat, i: nat, x: T, right: T)
    requires j <= i < |ctx|
    requires ClearBelow(c, j) && !Bit(c, i)
    requires Carrying(h, c, ctx, j, i, x, right)
    ensures View(Shr(c + Pow2(j), j), ctx[i := right][j..]) == Push(h, View(Shr(c, j), ctx[j..]), x)
  {
    CarryStops(h, c, ctx, j, i, x, right);
    CarryResult(c, ctx, j, i, right);
  }

  lemma CarryFromLeaf<T>(h: Hasher<T>, c: nat, ctx: seq<T>, i: nat, x: T, right: T)
    requires i < |ctx| && !Bit(c, i) && Carrying(h, c, ctx, 0, i, x, right)
    ensures View(c + 1, ctx[i := right]) == Push(h, View(c, ctx), x)
  {
    CarryIsPush(h, c, ctx, 0, i, x, right);
    assert ctx[0..] == ctx && ctx[i := right][0..] == ctx[i := right];
  }

  /** Combining a pad subtree of height `j` with the occupied slot there. */
  lemma OwedAfterCarry<T>(h: Hasher<T>, c: nat, ctx: seq<T>, n: nat, pads: seq<T>, j: nat, i: nat, right: T)
    requires j <= i < |ctx| == |pads|
    requires ClearBelow(c, j) && Bit(c, j) && !Bit(c, i) && Pow2(j) <= n
    requires Carrying(h, c, ctx, j, i, pads[j], right)
    ensures ClearBelow(c + Pow2(j), i)
    ensures Owed(h, c + Pow2(j), ctx[i := right], n - Pow2(j), pads, i) == Owed(h, c, ctx, n, pads, j)
  {
    hide View, Push, PadWith, ClearBelow, Shr;
    var c', n', ctx', f := c + Pow2(j), n - Pow2(j), ctx[i := right], View(Shr(c, j), ctx[j..]);
    CarryIsPush(h, c, ctx, j, i, pads[j], right);
    SubSpan(n, j, pads[..j]);
    ViewFrom(c, ctx, j);
    PadWithAfterPush(h, f, pads[j..], Shr(n', j));
    assert Owed(h, c', ctx', n', pads, j) == Owed(h, c, ctx, n, pads, j);
    CarryClears(c, j, i);
    OwedAfterClearRun(h, c', ctx', n', pads, j, i);
  }

  /** Once fewer leaves than 2^j are owed, the rest of the padding is placed at the bits below `j`. */
  lemma OwedBelow<T>(h: Hasher<T>, c: nat, ctx: seq<T>, n: nat, pads: seq<T>, j: nat)
    requires j <= |ctx| == |pads| && n < Pow2(j)
    ensures Owed(h, c, ctx, n, pads, j) == View(n, pads[..j]) + View(Shr(c, j), ctx[j..])
  {
    ShrSmall(n, j);
  }

  lemma OwedAtStart<T>(h: Hasher<T>, c: nat, ctx: seq<T>, n: nat, pads: seq<T>)
    requires |ctx| == |pads|
    ensures Owed(h, c, ctx, n, pads, 0) == PadWith(h, View(c, ctx), pads, n)
  {
    assert ctx[0..] == ctx && pads[0..] == pads;
  }

  /** The context after the placing loop has passed the bits below `i`. */
  ghost predicate Placed<T>(n: nat, ctx: seq<T>, ctx': seq<T>, pads: seq<T>, i: nat) {
    |ctx| == |ctx'| == |pads| &&
    forall k :: 0 <= k < |ctx| ==> ctx'[k] == if k < i && Bit(n, k) then pads[k] else ctx[k]
  }

  lemma PlacedAll<T>(n: nat, ctx: seq<T>, ctx': seq<T>, pads: seq<T>, i: nat)
    requires Placed(n, ctx, ctx', pads, i)
    requires i >= |ctx| || Shr(n, i) == 0
    ensures Placed(n, ctx, ctx', pads, |ctx|)
  {
    if i < |ctx| {
      forall k | i <= k < |ctx|
        ensures !Bit(n, k)
      {
        NoBitsAbove(n, i, k);
      }
    }
  }

  /** Placing the remaining pad subtrees, all below the lowest set bit of the count. */
  lemma {:induction false} PlaceBits<T>(c: nat, n: nat, ctx: seq<T>, ctx': seq<T>, pads: seq<T>, j: nat)
    requires j <= |ctx| && ClearBelow(c, j) && n < Pow2(j)
    requires Placed(n, ctx, ctx', pads, |ctx|)
    ensures View(c + n, ctx') == View(n, pads[..j]) + View(Shr(c, j), ctx[j..])
    decreases j
  {
    if j == 0 {
      forall k | 0 <= k < |ctx|
        ensures ctx'[k] == ctx[k]
      {
        ShrSmall(0, k);
      }
      assert ctx' == ctx;
    } else {
      assert (c + n) / 2 == c / 2 + n / 2;
      forall k | 0 <= k < |ctx| - 1
        ensures ctx'[1..][k] == if Bit(n / 2, k) then pads[1..][k] else ctx[1..][k]
      {
        assert Bit(n, k + 1) == Bit(n / 2, k);
        assert ctx'[k + 1] == if Bit(n, k + 1) then pads[k + 1] else ctx[k + 1];
      }
      PlaceBits(c / 2, n / 2, ctx[1..], ctx'[1..], pads[1..], j - 1);
      assert pads[..j][1..] == pads[1..][..j - 1];
      assert Bit(n, 0) <==> n % 2 == 1;
    }
  }
}
