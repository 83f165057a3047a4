/**
  The bisection the referee runs between two players (doc/recipes/vgu.lua).

  A player is a strategy: its answer to a request may depend on every request it has received, which
  the referee broadcasts to both. One player answers truthfully; nothing is assumed about the other, so
  it may adapt to what it sees and contradict itself.
 */
module Bisection {
  import opened Merkle
  import opened Uint64

  datatype Branch = Start | Agree | Disagree

  datatype Level = Input | Mcycle | UarchCycle
  {
    function Rank(): nat {
      match this
      case Input => 0
      case Mcycle => 1
      case UarchCycle => 2
    }
  }

  datatype Request = Request(branch: Branch, level: Level, target: nat)

  type Transcript = seq<Request>

  /** A point of the computation: the input, the mcycle within it and the uarch cycle within that. */
  datatype Position = Position(input: nat, mcycle: nat, uarchCycle: nat)
  {
    function Get(level: Level): nat {
      match level
      case Input => input
      case Mcycle => mcycle
      case UarchCycle => uarchCycle
    }

    function With(level: Level, target: nat): Position {
      match level
      case Input => this.(input := target)
      case Mcycle => this.(mcycle := target)
      case UarchCycle => this.(uarchCycle := target)
    }
  }

  /** The last agreed position, once the next request reports the branch its predecessor took. */
  function Agreed(t: Transcript, branch: Branch): Position {
    if t == [] then Position(0, 0, 0)
    else
      var last := t[|t| - 1];
      var before := Agreed(t[..|t| - 1], last.branch);
      if branch == Agree then before.With(last.level, last.target) else before
  }

  /** The position the last request asks about. */
  function Asked(t: Transcript, r: Request): Position {
    Agreed(t, r.branch).With(r.level, r.target)
  }

  /** What the protocol keeps: coarse levels first, above the agreed position and below the level's top. */
  ghost predicate Follows(tops: Position, t: Transcript, r: Request) {
    && (t == [] <==> r.branch == Start)
    && Agreed(t, r.branch).Get(r.level) < r.target < tops.Get(r.level)
    && (t != [] ==> t[|t| - 1].level.Rank() <= r.level.Rank())
  }

  ghost predicate WellFormed(tops: Position, t: Transcript) {
    t != [] ==> WellFormed(tops, t[..|t| - 1]) && Follows(tops, t[..|t| - 1], t[|t| - 1])
  }

  // ---------------------------------------------------------------------------------------------
  // The players' side of a round
  // ---------------------------------------------------------------------------------------------

  /** A player's machines: one at the last agreed position and, while bisecting, one forked from it. */
  datatype Forks<+E> = Forks(agreed: Option<E>, tentative: Option<E>)

  /**
    `take_branch`: an agreement promotes the tentative entry, whether or not there is one. It indexes the
    agreed entry first, which is an error once there is none.
   */
  function Taken<E>(f: Forks<E>, branch: Branch): Option<Forks<E>> {
    match branch
    case Agree => if f.agreed.None? then None else Some(Forks(f.tentative, None))
    case _ => Some(Forks(f.agreed, None))
  }

  datatype Player<!T, !L> = Player(finalHash: T, answer: Transcript -> T, log: (Transcript, Branch, Position) -> L)

  /** The player answers every request the protocol can make with the hash at the position asked about. */
  ghost predicate Truthful<T, L>(p: Player<T, L>, tops: Position, hashAt: Position -> T) {
    forall t: Transcript, r: Request {:trigger Asked(t, r)} ::
      WellFormed(tops, t) && Follows(tops, t, r) ==> p.answer(t + [r]) == hashAt(Asked(t, r))
  }

  /** In some game the player posts this log for the transition out of this position. */
  ghost predicate Posts<T, L>(p: Player<T, L>, tops: Position, at: Position, log: L) {
    exists t: Transcript, branch: Branch {:trigger p.log(t, branch, Agreed(t, branch))} ::
      WellFormed(tops, t) && Agreed(t, branch) == at && p.log(t, branch, Agreed(t, branch)) == log
  }

  datatype State<T> = State(lastAgreedHash: T, hashAfter: T, branch: Branch)

  /**
    The referee knows the agreed hash before the disputed interval, and player 1's hash after it. When
    player 1 is truthful that hash is right; when player 2 is, it is wrong.
   */
  ghost predicate Disputed<T>(s: State<T>, firstIsTruthful: bool, before: T, after: T) {
    s.lastAgreedHash == before && (firstIsTruthful <==> s.hashAfter == after)
  }

  /** The least `k` with n <= 2^k. */
  function CeilLog2(n: nat): nat {
    if n <= 1 then 0 else 1 + CeilLog2((n + 1) / 2)
  }

  lemma CeilLog2Monotonic(m: nat, n: nat)
    requires m <= n
    ensures CeilLog2(m) <= CeilLog2(n)
  {
  }

  lemma CeilLog2Halves(d: nat, half: nat)
    requires d > 1 && half <= (d + 1) / 2
    ensures CeilLog2(half) + 1 <= CeilLog2(d)
  {
    CeilLog2Monotonic(half, (d + 1) / 2);
  }

  /** What each round keeps: the interval is agreed at `lo` and disputed at `hi`, and so are the recorded hashes. */
  ghost predicate Narrowed<T>(s: State<T>, t: Transcript, p: Position, level: Level, lo: nat, hi: nat,
                              tops: Position, hashAt: Position -> T, firstIsTruthful: bool)
  {
    && WellFormed(tops, t) && (t == [] <==> s.branch == Start)
    && (t != [] ==> t[|t| - 1].level.Rank() <= level.Rank())
    && Agreed(t, s.branch) == p.With(level, lo)
    && Disputed(s, firstIsTruthful, hashAt(p.With(level, lo)), hashAt(p.With(level, hi)))
  }

  /** Narrows the disagreement within 0 to `top` to one transition, halving it each round. */
  method BisectLevel<T(==), L>(first: Player<T, L>, second: Player<T, L>, level: Level, top: nat,
                               start: State<T>, before: Transcript,
                               ghost tops: Position, ghost hashAt: Position -> T, ghost firstIsTruthful: bool)
    returns (lo: nat, s: State<T>, t: Transcript, round: nat)
    requires 1 <= top < TWO_TO_64 && top <= tops.Get(level)
    requires Truthful(if firstIsTruthful then first else second, tops, hashAt)
    requires WellFormed(tops, before) && (before == [] <==> start.branch == Start)
    requires before != [] ==> before[|before| - 1].level.Rank() < level.Rank()
    requires Agreed(before, start.branch).Get(level) == 0
    requires var p := Agreed(before, start.branch);
             Disputed(start, firstIsTruthful, hashAt(p), hashAt(p.With(level, top)))
    ensures lo < top && round <= CeilLog2(top)
    ensures WellFormed(tops, t) && (t == [] <==> s.branch == Start)
    ensures t != [] ==> t[|t| - 1].level.Rank() <= level.Rank()
    ensures var p := Agreed(before, start.branch);
            && Agreed(t, s.branch) == p.With(level, lo)
            && Disputed(s, firstIsTruthful, hashAt(p.With(level, lo)), hashAt(p.With(level, lo + 1)))
  {
    hide Truthful, WellFormed, Agreed, CeilLog2, Follows, Asked, Wrap64, Disputed;
    lo, round := 0, 0;
    var hi := top;
    s, t := start, before;
    ghost var p := Agreed(before, start.branch);
    assert p == p.With(level, 0);
    assert Narrowed(s, t, p, level, lo, hi, tops, hashAt, firstIsTruthful);
    while Wrap64(hi - lo) > 1
      invariant lo < hi <= top
      invariant round + CeilLog2(hi - lo) <= CeilLog2(top)
      invariant Narrowed(s, t, p, level, lo, hi, tops, hashAt, firstIsTruthful)
      decreases hi - lo
    {
      hide *;
      NoWrap(hi - lo);
      NoWrap(lo + (hi - lo) / 2);
      var mid := Wrap64(lo + Wrap64(hi - lo) / 2);
      var asked := t + [Request(s.branch, level, mid)];
      var hash1, hash2 := first.answer(asked), second.answer(asked);
      RoundKeeps(first, second, s, t, p, level, lo, mid, hi, tops, hashAt, firstIsTruthful);
      t := asked;
      if hash1 == hash2 {
        CeilLog2Halves(hi - lo, hi - mid);
        lo, s := mid, State(hash1, s.hashAfter, Agree);
      } else {
        CeilLog2Halves(hi - lo, mid - lo);
        hi, s := mid, State(s.lastAgreedHash, hash1, Disagree);
      }
      round := round + 1;
    }
    NoWrap(hi - lo);
    assert hi == lo + 1;
  }

  /** One round keeps the interval agreed below and disputed above, whichever half it goes on with. */
  lemma RoundKeeps<T, L>(first: Player<T, L>, second: Player<T, L>, s: State<T>, t: Transcript, p: Position,
                         level: Level, lo: nat, mid: nat, hi: nat, tops: Position, hashAt: Position -> T,
                         firstIsTruthful: bool)
    requires Truthful(if firstIsTruthful then first else second, tops, hashAt)
    requires lo < mid < hi <= tops.Get(level)
    requires Narrowed(s, t, p, level, lo, hi, tops, hashAt, firstIsTruthful)
    ensures var asked := t + [Request(s.branch, level, mid)];
            var hash1, hash2 := first.answer(asked), second.answer(asked);
            if hash1 == hash2
            then Narrowed(State(hash1, s.hashAfter, Agree), asked, p, level, mid, hi, tops, hashAt, firstIsTruthful)
            else Narrowed(State(s.lastAgreedHash, hash1, Disagree), asked, p, level, lo, mid, tops, hashAt,
                          firstIsTruthful)
  {
    hide Truthful, WellFormed, Agreed, Follows, Asked, Position.With, Position.Get, Level.Rank;
    var r := Request(s.branch, level, mid);
    NextRequest(tops, t, p, level, lo, r);
    Extends(tops, t, r);
    assert (t + [r])[|t + [r]| - 1] == r;
    TruthfulAnswer(if firstIsTruthful then first else second, tops, hashAt, t, r);
  }

  lemma NoWrap(n: int)
    requires 0 <= n < TWO_TO_64
    ensures Wrap64(n) == n
  {
  }

  lemma NextRequest(tops: Position, t: Transcript, p: Position, level: Level, lo: nat, r: Request)
    requires Agreed(t, r.branch) == p.With(level, lo) && r.level == level && lo < r.target < tops.Get(level)
    requires t == [] <==> r.branch == Start
    requires t != [] ==> t[|t| - 1].level.Rank() <= level.Rank()
    ensures Follows(tops, t, r) && Asked(t, r) == p.With(level, r.target)
  {
  }

  lemma TruthfulAnswer<T, L>(p: Player<T, L>, tops: Position, hashAt: Position -> T, t: Transcript, r: Request)
    requires Truthful(p, tops, hashAt) && WellFormed(tops, t) && Follows(tops, t, r)
    ensures p.answer(t + [r]) == hashAt(Asked(t, r))
  {
  }

  lemma Extends(tops: Position, t: Transcript, r: Request)
    requires WellFormed(tops, t) && Follows(tops, t, r)
    ensures WellFormed(tops, t + [r])
    ensures Agreed(t + [r], Agree) == Asked(t, r)
    ensures Agreed(t + [r], Disagree) == Agreed(t, r.branch)
  {
    assert (t + [r])[..|t|] == t;
  }

  /** At every level the bisections range over, the agreed position is below the top. */
  lemma {:induction false} AgreedIsBelowTops(tops: Position, t: Transcript, branch: Branch, level: Level)
    requires WellFormed(tops, t) && tops.Get(level) > 0
    ensures Agreed(t, branch).Get(level) < tops.Get(level)
    decreases |t|
  {
    if t != [] {
      AgreedIsBelowTops(tops, t[..|t| - 1], t[|t| - 1].branch, level);
    }
  }

  /** Every prefix of a transcript is one, and its next request follows it. */
  lemma {:induction false} PrefixFollows(tops: Position, t: Transcript, i: nat)
    requires WellFormed(tops, t) && i < |t|
    ensures WellFormed(tops, t[..i]) && Follows(tops, t[..i], t[i])
    decreases |t|
  {
    if i < |t| - 1 {
      PrefixFollows(tops, t[..|t| - 1], i);
      assert t[..|t| - 1][..i] == t[..i];
    }
  }

  /** Until a level has been asked about, the agreed position is zero there and at every finer level. */
  lemma {:induction false} FinerAreZero(tops: Position, t: Transcript, branch: Branch)
    requires WellFormed(tops, t)
    ensures t == [] || t[|t| - 1].level == Input ==> Agreed(t, branch) == Position(Agreed(t, branch).input, 0, 0)
    ensures t == [] || t[|t| - 1].level != UarchCycle ==> Agreed(t, branch).uarchCycle == 0
    decreases |t|
  {
    if t != [] {
      FinerAreZero(tops, t[..|t| - 1], t[|t| - 1].branch);
    }
  }

  /** The bound on the rounds is the base-2 logarithm, rounded up. */
  lemma {:induction false} CeilLog2IsLogarithm(n: nat)
    requires n >= 1
    ensures n <= Pow2(CeilLog2(n)) && Pow2(CeilLog2(n)) < 2 * n
  {
    if n > 1 {
      CeilLog2IsLogarithm((n + 1) / 2);
      if n % 2 == 1 {
        CeilIsEven((n + 1) / 2);
      }
    }
  }

  lemma CeilIsEven(n: nat)
    requires n > 1
    ensures Pow2(CeilLog2(n)) % 2 == 0
  {
    assert Pow2(CeilLog2(n)) == 2 * Pow2(CeilLog2((n + 1) / 2));
  }
}
