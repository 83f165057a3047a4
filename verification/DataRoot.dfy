/** The root hash of a byte string laid at the base of a subtree (`get_root_hash`). */
module DataRoot {
  import opened Merkle

  /** The hashes of the 32-byte words of the data, the last one zero-padded. */
  function WordHashes<T>(h: Hasher<T>, data: Bytes): (r: seq<T>)
    ensures |r| == (|data| + 31) / 32
    decreases |data|
  {
    if data == [] then []
    else if |data| < WORD_SIZE then [h.Hash(data + Repeat<byte>(0, WORD_SIZE - |data|))]
    else [h.Hash(data[..WORD_SIZE])] + WordHashes(h, data[WORD_SIZE..])
  }

  lemma {:induction false} WordHashesSplit<T>(h: Hasher<T>, data: Bytes, rest: Bytes)
    requires |data| % WORD_SIZE == 0
    ensures WordHashes(h, data + rest) == WordHashes(h, data) + WordHashes(h, rest)
    decreases |data|
  {
    if data == [] {
      assert data + rest == rest;
    } else {
      var d := data[WORD_SIZE..];
      WordHashesSplit(h, d, rest);
      assert (data + rest)[..WORD_SIZE] == data[..WORD_SIZE] && (data + rest)[WORD_SIZE..] == d + rest;
    }
  }

  /** `1 << n` on Lua's signed 64-bit integers. */
  function ShiftedOne(n: nat): int {
    if n < 63 then Pow2(n) else if n == 63 then -0x8000_0000_0000_0000 else 0
  }

  datatype Outcome<+T> = DoesNotFit | Nil | RootHash(hash: T)

  /**
    The root of the data at the base of a subtree of 2^log2Root bytes. The size check rejects everything
    once the shift leaves the signed range, and data without a word leaves nothing to return.
   */
  method GetRootHash<T>(h: Hasher<T>, data: Bytes, log2Root: nat) returns (r: Outcome<T>)
    ensures |data| > ShiftedOne(log2Root) ==> r == DoesNotFit
    ensures |data| <= ShiftedOne(log2Root) && data == [] ==> r == Nil
    ensures |data| <= ShiftedOne(log2Root) && data != [] ==>
              r == RootHash(Root(h, ZeroWordHash(h), WordHashes(h, data), Height(log2Root)))
  {
    if |data| > ShiftedOne(log2Root) {
      return DoesNotFit;
    }
    var level := HashWords(h, data);
    if data == [] {
      assert |level| == 0;
    }
    var pristine := ZeroWordHash(h);
    ghost var z, words, height := ZeroWordHash(h), WordHashes(h, data), Height(log2Root);
    ghost var climbed := 0;
    var size := WORD_LOG2_SIZE;
    while size < log2Root
      invariant size == WORD_LOG2_SIZE + climbed && climbed <= height
      invariant level == [] <==> data == []
      invariant Root(h, pristine, level, height - climbed) == Root(h, z, words, height)
    {
      NodeOfParents(h, pristine, level, height - climbed - 1, 0);
      level := Pair(h, level, pristine);
      pristine := h.Concat(pristine, pristine);
      size, climbed := size + 1, climbed + 1;
    }
    if level == [] {
      return Nil;
    }
    r := RootHash(level[0]);
  }

  method HashWords<T>(h: Hasher<T>, data: Bytes) returns (level: seq<T>)
    ensures level == WordHashes(h, data)
  {
    hide WordHashes;
    level := [];
    EmptyData(h);
    var full := |data| - |data| % WORD_SIZE;
    var i := 0;
    while i < full
      invariant 0 <= i <= full && i % WORD_SIZE == 0
      invariant level == WordHashes(h, data[..i])
    {
      OneWordMore(h, data, i);
      level := level + [h.Hash(data[i..i + WORD_SIZE])];
      i := i + WORD_SIZE;
    }
    LastWord(h, data, full);
    if full < |data| {
      var word := data[full..];
      level := level + [h.Hash(word + Repeat<byte>(0, WORD_SIZE - |word|))];
    }
  }

  lemma EmptyData<T>(h: Hasher<T>)
    ensures WordHashes(h, []) == []
  {
  }

  lemma OneWordMore<T>(h: Hasher<T>, data: Bytes, i: nat)
    requires i % WORD_SIZE == 0 && i + WORD_SIZE <= |data|
    ensures WordHashes(h, data[..i + WORD_SIZE])
         == WordHashes(h, data[..i]) + [h.Hash(data[i..i + WORD_SIZE])]
  {
    var word := data[i..i + WORD_SIZE];
    WordHashesSplit(h, data[..i], word);
    assert data[..i] + word == data[..i + WORD_SIZE];
    assert word[..WORD_SIZE] == word && word[WORD_SIZE..] == [];
  }

  lemma LastWord<T>(h: Hasher<T>, data: Bytes, full: nat)
    requires full == |data| - |data| % WORD_SIZE
    ensures WordHashes(h, data) == WordHashes(h, data[..full])
            + if full < |data| then [h.Hash(data[full..] + Repeat<byte>(0, WORD_SIZE - |data[full..]|))] else []
  {
    WordHashesSplit(h, data[..full], data[full..]);
    assert data[..full] + data[full..] == data;
  }

  /** One level of pairing, the pristine hash standing in for a missing right child. */
  method Pair<T>(h: Hasher<T>, level: seq<T>, pristine: T) returns (parents: seq<T>)
    ensures parents == PadUp(h, pristine, level)
  {
    parents := [];
    var i := 0;
    while i < |level|
      invariant i == 2 * |parents| && |parents| <= (|level| + 1) / 2
      invariant forall j :: 0 <= j < |parents| ==> parents[j] == h.Concat(level[2 * j], At(level, pristine, 2 * j + 1))
    {
      parents := parents + [h.Concat(level[i], At(level, pristine, i + 1))];
      i := i + 2;
    }
  }

  /** Extending the data with zeros changes neither the words' tree nor its root. */
  lemma ZeroExtension<T>(h: Hasher<T>, data: Bytes, zeros: nat, k: nat)
    ensures Root(h, ZeroWordHash(h), WordHashes(h, data + Repeat<byte>(0, zeros)), k)
         == Root(h, ZeroWordHash(h), WordHashes(h, data), k)
  {
    var z := ZeroWordHash(h);
    var long, short := WordHashes(h, data + Repeat<byte>(0, zeros)), WordHashes(h, data);
    forall i: nat
      ensures At(long, z, i) == At(short, z, i)
    {
      WordAt(h, data + Repeat<byte>(0, zeros), i);
      WordAt(h, data, i);
      assert Word(data + Repeat<byte>(0, zeros), i) == Word(data, i);
    }
    NodeDependsOnBlock(h, z, long, z, short, k, 0);
  }

  /** Word `i` of the data followed by zeros for ever. */
  function Word(data: Bytes, i: nat): (w: Bytes)
    ensures |w| == WORD_SIZE
    ensures forall j :: 0 <= j < WORD_SIZE ==> w[j] == At(data, 0, WORD_SIZE * i + j)
  {
    seq(WORD_SIZE, j requires 0 <= j < WORD_SIZE => At(data, 0, WORD_SIZE * i + j))
  }

  lemma {:induction false} WordAt<T>(h: Hasher<T>, data: Bytes, i: nat)
    ensures At(WordHashes(h, data), ZeroWordHash(h), i) == h.Hash(Word(data, i))
    decreases |data|
  {
    if |data| < WORD_SIZE {
      if data == [] || i > 0 {
        assert Word(data, i) == Repeat<byte>(0, WORD_SIZE);
      } else {
        assert Word(data, 0) == data + Repeat<byte>(0, WORD_SIZE - |data|);
      }
    } else if i == 0 {
      assert Word(data, 0) == data[..WORD_SIZE];
    } else {
      WordAt(h, data[WORD_SIZE..], i - 1);
      assert Word(data, i) == Word(data[WORD_SIZE..], i - 1);
    }
  }
}
