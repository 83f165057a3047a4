/**
  The log of accesses and its bracket bookkeeping (src/access-log.hpp).

  A `std::vector` is its contents and its capacity. Appending past the capacity reallocates to some larger
  capacity; `reserve` raises the capacity when needed.
 */
module AccessLog {

  datatype BracketType = Begin | End

  datatype BracketNote = BracketNote(kind: BracketType, where: nat, text: string)

  class AccessLog<A> {
    var accesses: seq<A>
    var brackets: seq<BracketNote>
    var capacity: nat
    var notes: seq<string>
    const annotations: bool
    var outstandingEnds: nat

    /** What a log built only by pushes keeps. */
    ghost predicate Valid()
      reads this
    {
      && |brackets| + outstandingEnds <= capacity
      && outstandingEnds == OpenBrackets(brackets)
      && |notes| == (if annotations then |accesses| else 0)
      && (forall i :: 0 <= i < |brackets| ==> brackets[i].where <= |accesses|)
      && (forall i, j :: 0 <= i < j < |brackets| ==> brackets[i].where <= brackets[j].where)
    }

    constructor (annotations: bool)
      ensures Valid() && this.annotations == annotations
      ensures accesses == [] && brackets == [] && notes == []
    {
      this.annotations := annotations;
      accesses, brackets, notes, capacity, outstandingEnds := [], [], [], 0, 0;
    }

    method Clear()
      modifies this
      ensures Valid() && accesses == [] && brackets == [] && notes == [] && outstandingEnds == 0
    {
      accesses, brackets, notes, outstandingEnds := [], [], [], 0;
    }

    /** `push_back` on the vector of brackets. */
    method AppendBracket(b: BracketNote)
      requires |brackets| <= capacity
      modifies `brackets, `capacity
      ensures brackets == old(brackets) + [b] && |brackets| <= capacity && old(capacity) <= capacity
      ensures |old(brackets)| < old(capacity) ==> capacity == old(capacity)
    {
      if |brackets| == capacity {
        var grown: nat :| grown > capacity;
        capacity := grown;
      }
      brackets := brackets + [b];
    }

    method PushBeginBracket(text: string)
      requires Valid()
      modifies this
      ensures Valid() && accesses == old(accesses) && notes == old(notes)
      ensures brackets == if annotations then old(brackets) + [BracketNote(Begin, |accesses|, text)] else old(brackets)
      ensures outstandingEnds == old(outstandingEnds) + if annotations then 1 else 0
    {
      if annotations {
        outstandingEnds := outstandingEnds + 1;
        AppendBracket(BracketNote(Begin, |accesses|, text));
        if capacity < |brackets| + outstandingEnds {
          capacity := |brackets| + outstandingEnds;
        }
        OpenAfterBegin(old(brackets), |accesses|, text);
      }
    }

    /** The end of an open bracket fits in the capacity already reserved for it. */
    method PushEndBracket(text: string)
      requires Valid()
      modifies this
      ensures Valid() && accesses == old(accesses) && notes == old(notes)
      ensures brackets == if annotations then old(brackets) + [BracketNote(End, |accesses|, text)] else old(brackets)
      ensures old(outstandingEnds) > 0 ==> capacity == old(capacity)
      ensures outstandingEnds
           == if annotations && old(outstandingEnds) > 0 then old(outstandingEnds) - 1 else old(outstandingEnds)
    {
      if annotations {
        AppendBracket(BracketNote(End, |accesses|, text));
        if outstandingEnds > 0 {
          outstandingEnds := outstandingEnds - 1;
        }
        OpenAfterEnd(old(brackets), |accesses|, text);
      }
    }

    method PushAccess(a: A, text: string)
      requires Valid()
      modifies this
      ensures Valid() && accesses == old(accesses) + [a] && brackets == old(brackets)
      ensures notes == if annotations then old(notes) + [text] else old(notes)
      ensures outstandingEnds == old(outstandingEnds) && capacity == old(capacity)
    {
      accesses := accesses + [a];
      if annotations {
        notes := notes + [text];
      }
    }
  }

  /** The begin brackets still waiting for their end; an end with none open is ignored. */
  ghost function OpenBrackets(brackets: seq<BracketNote>): nat {
    if brackets == [] then 0
    else
      var n, last := OpenBrackets(brackets[..|brackets| - 1]), brackets[|brackets| - 1];
      if last.kind == Begin then n + 1 else if n > 0 then n - 1 else 0
  }

  lemma OpenAfterBegin(brackets: seq<BracketNote>, where: nat, text: string)
    ensures OpenBrackets(brackets + [BracketNote(Begin, where, text)]) == OpenBrackets(brackets) + 1
  {
    var b := brackets + [BracketNote(Begin, where, text)];
    assert b[..|b| - 1] == brackets;
  }

  lemma OpenAfterEnd(brackets: seq<BracketNote>, where: nat, text: string)
    ensures OpenBrackets(brackets + [BracketNote(End, where, text)])
         == if OpenBrackets(brackets) > 0 then OpenBrackets(brackets) - 1 else 0
  {
    var b := brackets + [BracketNote(End, where, text)];
    assert b[..|b| - 1] == brackets;
  }

  /**
    The constructor that takes existing vectors counts the open brackets with one loop; it reserves
    nothing, so the capacity promise holds only for logs built by pushes.
   */
  method CountOpen(brackets: seq<BracketNote>) returns (outstandingEnds: nat)
    ensures outstandingEnds == OpenBrackets(brackets)
  {
    outstandingEnds := 0;
    for i := 0 to |brackets|
      invariant outstandingEnds == OpenBrackets(brackets[..i])
    {
      assert brackets[..i + 1][..i] == brackets[..i];
      if brackets[i].kind == Begin {
        outstandingEnds := outstandingEnds + 1;
      }
      if brackets[i].kind == End && outstandingEnds > 0 {
        outstandingEnds := outstandingEnds - 1;
      }
    }
    assert brackets[..|brackets|] == brackets;
  }
}
