/**
  The code that records an operation on a log and the code that verifies one from its root hash, proved to
  be the functions of `AccessReplay` (src/machine.cpp). The operations are the uarch step and the uarch reset.
 */
module StepVerifier {
  import opened Merkle
  import opened Proofs
  import opened MemoryTree
  import opened AccessReplay
  import L = AccessLog

  /** The context of a replay: the log, the next access to use, and the root hash before it. */
  class ReplayContext<T(0,==)> {
    const hasher: Hasher<T>
    const accesses: seq<Access<T>>
    var next: nat
    var rootHash: T

    constructor (hasher: Hasher<T>, accesses: seq<Access<T>>, rootHash: T)
      ensures this.hasher == hasher && this.accesses == accesses && next == 0 && this.rootHash == rootHash
    {
      this.hasher := hasher;
      this.accesses := accesses;
      this.next := 0;
      this.rootHash := rootHash;
    }

    /** The checks shared by all accesses: kind, range, and the proof of the hash before the access. */
    method CheckSiblings(a: Access<T>, kind: AccessType, address: nat, log2Size: nat) returns (proof: Option<Proof<T>>)
      ensures proof.Some? <==> SiblingsHold(hasher, rootHash, a, kind, address, log2Size)
      ensures proof.Some? ==> proof.value == ProofOfAccess(a, rootHash)
    {
      hide RollProof;
      if a.kind != kind || (kind == Read && (a.written.Some? || a.writtenHash.Some?)) {
        return None;
      }
      if a.address != address || a.log2Size != log2Size {
        return None;
      }
      proof := MakeProof(a, rootHash);
      if proof.Some? {
        var rolled := RollHashUpTree(hasher, proof.value, proof.value.targetHash);
        if rolled != Some(proof.value.rootHash) {
          return None;
        }
      }
    }

    /** The data before the access, checked against its hash. */
    method CheckReadData(a: Access<T>) returns (data: Option<Bytes>)
      ensures data.Some? <==> ReadDataHolds(hasher, a)
      ensures data.Some? ==> data == a.read && |data.value| == Span(Height(a.log2Size))
    {
      if a.read.None? || |a.read.value| != Span(Height(a.log2Size)) ||
         DataHash(hasher, a.read.value, Height(a.log2Size)) != a.readHash {
        return None;
      }
      data := a.read;
    }

    method CheckReadWord(address: nat, log2Size: nat) returns (word: Option<Bytes>)
      requires next <= |accesses| && log2Size <= WORD_LOG2_SIZE
      modifies this
      ensures old(next) == |accesses| ==> word == None
      ensures old(next) < |accesses| ==>
                word == CheckRead(hasher, old(rootHash), accesses[old(next)], address, log2Size)
      ensures word.Some? ==> next == old(next) + 1 <= |accesses| && rootHash == old(rootHash)
    {
      hide SiblingsHold, ReadDataHolds;
      if next >= |accesses| {
        return None;
      }
      var a := accesses[next];
      var proof := CheckSiblings(a, Read, address, log2Size);
      if proof.None? {
        return None;
      }
      word := CheckReadData(a);
      if word.None? {
        return None;
      }
      next := next + 1;
    }

    /** The root hash to revert to becomes the root hash. */
    method RevertState(address: nat) returns (ok: bool)
      requires next <= |accesses|
      modifies this
      ensures old(next) == |accesses| ==> !ok
      ensures old(next) < |accesses| ==>
                var word := CheckRead(hasher, old(rootHash), accesses[old(next)], address, WORD_LOG2_SIZE);
                && (ok <==> word.Some?)
                && (ok ==> rootHash == hasher.FromBytes(word.value))
      ensures ok ==> next == old(next) + 1 <= |accesses|
    {
      hide CheckRead;
      var word := CheckReadWord(address, WORD_LOG2_SIZE);
      if word.None? {
        return false;
      }
      rootHash := hasher.FromBytes(word.value);
      ok := true;
    }

    method CheckWriteWord(address: nat, value: Bytes) returns (ok: bool)
      requires next <= |accesses| && |value| == ACCESS_SIZE
      modifies this
      ensures old(next) == |accesses| ==> !ok
      ensures old(next) < |accesses| ==>
                CheckWrite(hasher, old(rootHash), accesses[old(next)], address, value)
                == if ok then Some(rootHash) else None
      ensures ok ==> next == old(next) + 1 <= |accesses|
    {
      hide SiblingsHold, RollProof, ProofOfAccess;
      if next >= |accesses| {
        return false;
      }
      var a := accesses[next];
      var proof := CheckSiblings(a, Write, address, ACCESS_LOG2_SIZE);
      if proof.None? {
        return false;
      }
      var data := CheckReadData(a);
      assert SiblingsHold(hasher, rootHash, a, Write, address, ACCESS_LOG2_SIZE) ==> Height(a.log2Size) == 0 by {
        SizeOf(a, address);
      }
      if data.None? {
        return false;
      }
      var writtenHash := hasher.Hash(ReplaceWord(data.value, Offset(address), value));
      if a.writtenHash != Some(writtenHash) || !WrittenDataHolds(a, 0, writtenHash) {
        return false;
      }
      var after := RollHashUpTree(hasher, proof.value, writtenHash);
      if after.None? {
        return false;
      }
      rootHash, next := after.value, next + 1;
      ok := true;
    }

    lemma SizeOf(a: Access<T>, address: nat)
      ensures SiblingsHold(hasher, rootHash, a, Write, address, ACCESS_LOG2_SIZE) ==> Height(a.log2Size) == 0
    {
    }

    /** The data after the access, when it is there. */
    predicate WrittenDataHolds(a: Access<T>, k: nat, writtenHash: T) {
      a.written.Some? ==> |a.written.value| == Span(k) && DataHash(hasher, a.written.value, k) == writtenHash
    }

    method CheckNodeWrite(address: nat, k: nat, data: Bytes) returns (ok: bool)
      requires next <= |accesses| && |data| == Span(k)
      modifies this
      ensures old(next) == |accesses| ==> !ok
      ensures old(next) < |accesses| ==>
                CheckWriteNode(hasher, old(rootHash), accesses[old(next)], address, k, data)
                == if ok then Some(rootHash) else None
      ensures ok ==> next == old(next) + 1 <= |accesses|
    {
      hide SiblingsHold, RollProof, ProofOfAccess, DataHash;
      if next >= |accesses| {
        return false;
      }
      var a := accesses[next];
      var proof := CheckSiblings(a, Write, address, k + WORD_LOG2_SIZE);
      if proof.None? {
        return false;
      }
      var writtenHash := DataHash(hasher, data, k);
      if a.writtenHash != Some(writtenHash) {
        return false;
      }
      if a.read.Some? && (|a.read.value| != Span(k) || DataHash(hasher, a.read.value, k) != a.readHash) {
        return false;
      }
      if !WrittenDataHolds(a, k, writtenHash) {
        return false;
      }
      var after := RollHashUpTree(hasher, proof.value, writtenHash);
      if after.None? {
        return false;
      }
      rootHash, next := after.value, next + 1;
      ok := true;
    }
  }

  /** Whether a root hash is the one expected, when one is. */
  predicate Matches<T(==)>(expected: Option<T>, root: T) { expected.None? || expected == Some(root) }

  /**
    Runs the program on the log instead of the memory; `None` is a rejected log, or one that ends at
    another root hash than the expected one.
   */
  method VerifyOperation<T(0,==)>(h: Hasher<T>, p: Program, rootBefore: T, log: seq<Access<T>>, expected: Option<T>,
                                  ghost depth: nat)
    returns (rootAfter: Option<T>)
    requires Fits(p, depth)
    ensures var replayed := Replay(h, p, rootBefore, log, depth, []);
            rootAfter == if replayed.Some? && Matches(expected, replayed.value) then replayed else None
  {
    hide CheckRead, CheckWrite, CheckWriteNode, AddressInTree;
    var context := new ReplayContext<T>(h, log, rootBefore);
    var seen: seq<Bytes> := [];
    assert log[0..] == log;
    while |seen| < p.bound && !p.next(seen).Done? && !p.next(seen).Revert?
      invariant context.next <= |log|
      invariant Replay(h, p, context.rootHash, log[context.next..], depth, seen)
             == Replay(h, p, rootBefore, log, depth, [])
      decreases p.bound - |seen|
    {
      assert context.next < |log| ==> log[context.next..][1..] == log[context.next + 1..];
      assert OpFits(p.Next(seen), depth) && p.Next(seen) == p.next(seen);
      match p.next(seen)
      case ReadWord(address) =>
        var word := context.CheckReadWord(address, ACCESS_LOG2_SIZE);
        if word.None? {
          return None;
        }
        seen := seen + [GetWord(word.value, Offset(address))];
      case WriteWord(address, value) =>
        var ok := context.CheckWriteWord(address, value);
        if !ok {
          return None;
        }
        seen := seen + [value];
      case WriteNode(address, k, data) =>
        var ok := context.CheckNodeWrite(address, k, data);
        if !ok {
          return None;
        }
        seen := seen + [data];
    }
    if |seen| < p.bound && p.next(seen).Revert? {
      assert OpFits(p.Next(seen), depth) && p.Next(seen) == p.next(seen);
      var ok := context.RevertState(p.next(seen).address);
      if !ok {
        return None;
      }
    } else {
      assert p.Next(seen) == Done;
    }
    if context.next == |log| && Matches(expected, context.rootHash) {
      rootAfter := Some(context.rootHash);
    } else {
      rootAfter := None;
    }
  }

  /** Runs the program on the memory, logging every access. */
  method RecordOperation<T>(h: Hasher<T>, p: Program, mem: Memory, depth: nat, large: bool, log: L.AccessLog<Access<T>>,
                            text: string)
    returns (f: Final)
    requires IsMemory(mem, depth) && Fits(p, depth) && log.Valid()
    modifies log
    ensures f == Run(p, mem, depth, [])
    ensures log.Valid() && log.accesses == old(log.accesses) + Record(h, p, mem, depth, large, [])
  {
    hide Load, Store, StoreNode, NodeAt, ReadAccess, WriteAccess, NodeAccess, AddressInTree;
    var mem', seen: seq<Bytes> := mem, [];
    log.PushBeginBracket(text);
    assert log.accesses + Record(h, p, mem, depth, large, [])
        == old(log.accesses) + Record(h, p, mem, depth, large, []);
    while |seen| < p.bound && !p.next(seen).Done? && !p.next(seen).Revert?
      invariant IsMemory(mem', depth) && log.Valid()
      invariant Run(p, mem', depth, seen) == Run(p, mem, depth, [])
      invariant log.accesses + Record(h, p, mem', depth, large, seen)
             == old(log.accesses) + Record(h, p, mem, depth, large, [])
      decreases p.bound - |seen|
    {
      assert OpFits(p.Next(seen), depth) && p.Next(seen) == p.next(seen);
      match p.next(seen)
      case ReadWord(address) =>
        var a := ReadAccess(h, mem', depth, address, ACCESS_LOG2_SIZE);
        AppendFront(log.accesses, a, Record(h, p, mem', depth, large, seen + [Load(mem', depth, address)]));
        log.PushAccess(a, "");
        seen := seen + [Load(mem', depth, address)];
      case WriteWord(address, value) =>
        var a := WriteAccess(h, mem', depth, address, value);
        AppendFront(log.accesses, a, Record(h, p, Store(mem', depth, address, value), depth, large, seen + [value]));
        log.PushAccess(a, "");
        mem', seen := Store(mem', depth, address, value), seen + [value];
      case WriteNode(address, k, data) =>
        var a := NodeAccess(h, mem', depth, address, k, data, large);
        AppendFront(log.accesses, a,
                    Record(h, p, StoreNode(mem', depth, k, address, data), depth, large, seen + [data]));
        log.PushAccess(a, "");
        mem', seen := StoreNode(mem', depth, k, address, data), seen + [data];
    }
    if |seen| < p.bound && p.next(seen).Revert? {
      assert OpFits(p.Next(seen), depth) && p.Next(seen) == p.next(seen);
      var address := p.next(seen).address;
      log.PushAccess(ReadAccess(h, mem', depth, address, WORD_LOG2_SIZE), "");
      f := Final(mem', Some(NodeAt(mem', depth, 0, address)));
    } else {
      assert p.Next(seen) == Done;
      assert log.accesses + [] == log.accesses;
      f := Final(mem', None);
    }
    log.PushEndBracket(text);
  }

  lemma AppendFront<A>(a: seq<A>, x: A, b: seq<A>)
    ensures a + ([x] + b) == (a + [x]) + b
  {
  }

  /** Records an operation on a new log and verifies the log before returning it, which never fails. */
  method LogOperation<T(0,==,!new)>(h: Hasher<T>, p: Program, mem: Memory, depth: nat, large: bool, annotations: bool,
                                    text: string)
    returns (log: L.AccessLog<Access<T>>, f: Final, verified: bool)
    requires IsMemory(mem, depth) && Fits(p, depth)
    ensures f == Run(p, mem, depth, []) && verified
    ensures fresh(log) && log.Valid() && log.accesses == Record(h, p, mem, depth, large, [])
  {
    log := new L.AccessLog(annotations);
    f := RecordOperation(h, p, mem, depth, large, log, text);
    assert [] + Record(h, p, mem, depth, large, []) == Record(h, p, mem, depth, large, []);
    RecordedLogReplays(h, p, mem, depth, large, []);
    var root := if f.revert.Some? then h.FromBytes(f.revert.value) else MemoryRoot(h, f.mem, depth);
    var rootAfter := VerifyOperation(h, p, MemoryRoot(h, mem, depth), log.accesses, Some(root), depth);
    verified := rootAfter.Some?;
  }
}
