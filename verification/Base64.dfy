/**
  Streaming base64: the encoder and decoder carry a small input buffer from one
  character to the next (src/base64.cpp) and two drivers feed them a whole range
  (src/base64.hpp).

  The specification is the grouping of section 4 of RFC 4648: three octets are
  four sextets.  It is written field by field, with none of the shifting of an
  accumulated value that the code does.
 */
module Base64 {
  import opened Merkle

  type sextet = x: int | 0 <= x < 64

  const PAD: byte := 61

  /** The standard alphabet: A-Z, a-z, 0-9, '+', '/'. */
  function Base(v: sextet): byte {
    if v < 26 then 65 + v
    else if v < 52 then 97 + (v - 26)
    else if v < 62 then 48 + (v - 52)
    else if v == 62 then 43
    else 47
  }

  /** 255 marks a character outside the alphabet; the pad stands for zero bits. */
  function Unbase(c: byte): byte {
    if 65 <= c <= 90 then c - 65
    else if 97 <= c <= 122 then c - 97 + 26
    else if 48 <= c <= 57 then c - 48 + 52
    else if c == 43 then 62
    else if c == 47 then 63
    else if c == PAD then 0
    else 255
  }

  predicate IsSpace(c: byte) { c == 32 || 9 <= c <= 13 }

  predicate IsSymbol(c: byte) { Unbase(c) <= 64 }

  // ---------------------------------------------------------------------------------------------
  // What the encoder computes
  // ---------------------------------------------------------------------------------------------

  /** One group of up to three octets: four symbols, padded. */
  function Group(x: Bytes): (s: Bytes)
    requires 1 <= |x| <= 3
    ensures |s| == 4
  {
    if |x| == 1 then
      [Base(x[0] / 4), Base(x[0] % 4 * 16), PAD, PAD]
    else if |x| == 2 then
      [Base(x[0] / 4), Base(x[0] % 4 * 16 + x[1] / 16), Base(x[1] % 16 * 4), PAD]
    else
      [Base(x[0] / 4), Base(x[0] % 4 * 16 + x[1] / 16), Base(x[1] % 16 * 4 + x[2] / 64), Base(x[2] % 64)]
  }

  function Encoded(x: Bytes): Bytes {
    if x == [] then []
    else if |x| <= 3 then Group(x)
    else Group(x[..3]) + Encoded(x[3..])
  }

  // ---------------------------------------------------------------------------------------------
  // What the decoder computes
  // ---------------------------------------------------------------------------------------------

  function Strip(s: Bytes): Bytes {
    if s == [] then []
    else if IsSpace(s[0]) then Strip(s[1..])
    else [s[0]] + Strip(s[1..])
  }

  predicate AllSymbols(s: Bytes) { forall i :: 0 <= i < |s| ==> IsSymbol(s[i]) }

  /** One atom of four symbols: one, two or three octets, as the padding says. */
  function Atom(s: Bytes): (r: Bytes)
    requires |s| == 4 && AllSymbols(s)
  {
    var a, b, c, d := Unbase(s[0]), Unbase(s[1]), Unbase(s[2]), Unbase(s[3]);
    var decoded: Bytes := [a * 4 + b / 16, b % 16 * 16 + c / 4, c % 4 * 64 + d];
    if s[2] == PAD then decoded[..1] else if s[3] == PAD then decoded[..2] else decoded
  }

  /** Atom after atom; a last group of fewer than four symbols leaves nothing. */
  function Decoded(s: Bytes): Bytes
    requires AllSymbols(s)
  {
    if |s| < 4 then [] else Atom(s[..4]) + Decoded(s[4..])
  }

  datatype Result = Ok(octets: Bytes) | InvalidCharacter(code: byte)

  // ---------------------------------------------------------------------------------------------
  // The encoder
  // ---------------------------------------------------------------------------------------------

  /** Buffers one byte; a third one turns the buffer into four symbols. */
  method B64Encode(c: byte, input: array<byte>, size: nat, sout: Bytes)
    returns (newSize: nat, newSout: Bytes)
    requires input.Length == 4 && size < 3
    modifies input
    ensures size < 2 ==> newSize == size + 1 && newSout == sout && input[..newSize] == old(input[..size]) + [c]
    ensures size == 2 ==> newSize == 0 && newSout == sout + Encoded(old(input[..2]) + [c])
  {
    newSize, newSout := size, sout;
    ghost var group := input[..size] + [c];
    input[newSize] := c;
    newSize := newSize + 1;
    assert input[..newSize] == group;
    if newSize == 3 {
      assert group == [input[0], input[1], input[2]];
      hide Base;
      var value: int := 0;
      value := value + input[0];
      value := value * 256;
      value := value + input[1];
      value := value * 256;
      value := value + input[2];
      ThreeOctetFields(input[0], input[1], input[2]);
      var code3 := Base(value % 64);
      value := value / 64;
      var code2 := Base(value % 64);
      value := value / 64;
      var code1 := Base(value % 64);
      value := value / 64;
      var code0 := Base(value);
      newSout := newSout + [code0, code1, code2, code3];
      newSize := 0;
    }
  }

  lemma Split64(high: int, low: sextet)
    ensures (high * 64 + low) / 64 == high && (high * 64 + low) % 64 == low
  {
  }

  lemma Split256(high: int, low: byte)
    ensures (high * 256 + low) / 256 == high && (high * 256 + low) % 256 == low
  {
  }

  lemma ThreeOctetFields(x: byte, y: byte, z: byte)
    ensures var v := (x * 256 + y) * 256 + z;
      && v % 64 == z % 64
      && v / 64 % 64 == y % 16 * 4 + z / 64
      && v / 64 / 64 % 64 == x % 4 * 16 + y / 16
      && v / 64 / 64 / 64 == x / 4
  {
    Split64(x * 1024 + y * 4 + z / 64, z % 64);
    Split64(x * 16 + y / 16, y % 16 * 4 + z / 64);
    Split64(x / 4, x % 4 * 16 + y / 16);
  }

  /** Writes out the last one or two octets, padded. */
  method B64Pad(input: array<byte>, size: nat, sout: Bytes) returns (newSize: nat, newSout: Bytes)
    requires input.Length == 4 && size < 3
    ensures newSize == 0 && newSout == sout + Encoded(input[..size])
  {
    newSout := sout;
    if size == 1 {
      hide Base;
      var value := input[0] as int * 16;
      OneOctetFields(input[0]);
      var code1 := Base(value % 64);
      value := value / 64;
      newSout := newSout + [Base(value), code1, PAD, PAD];
      assert input[..1] == [input[0]];
    } else if size == 2 {
      hide Base;
      var value: int := input[0];
      value := value * 256;
      value := value + input[1];
      value := value * 4;
      TwoOctetFields(input[0], input[1]);
      var code2 := Base(value % 64);
      value := value / 64;
      var code1 := Base(value % 64);
      value := value / 64;
      newSout := newSout + [Base(value), code1, code2, PAD];
      assert input[..2] == [input[0], input[1]];
    }
    newSize := 0;
  }

  lemma OneOctetFields(x: byte)
    ensures var v := x as int * 16;
      v % 64 == x % 4 * 16 && v / 64 == x / 4
  {
    Split64(x / 4, x % 4 * 16);
  }

  lemma TwoOctetFields(x: byte, y: byte)
    ensures var v := (x * 256 + y) * 4;
      v % 64 == y % 16 * 4 && v / 64 % 64 == x % 4 * 16 + y / 16 && v / 64 / 64 == x / 4
  {
    Split64(x * 16 + y / 16, y % 16 * 4);
    Split64(x / 4, x % 4 * 16 + y / 16);
  }

  method EncodeBase64(data: Bytes) returns (r: Bytes)
    ensures r == Encoded(data)
  {
    hide Encoded;
    r := [];
    var ctx := new byte[4](_ => 0);
    var ctxlen := 0;
    assert ctx[..0] + data[0..] == data;
    for i := 0 to |data|
      invariant 0 <= ctxlen < 3
      invariant Encoded(data) == r + Encoded(ctx[..ctxlen] + data[i..])
    {
      ghost var before := ctx[..ctxlen];
      ghost var rest := before + data[i..];
      EncodeOnce(before, data[i..]);
      ghost var done := r;
      ctxlen, r := B64Encode(data[i], ctx, ctxlen, r);
      assert |before| < 2 ==> ctx[..ctxlen] + data[i + 1..] == rest;
      if |before| == 2 {
        assert ctx[..ctxlen] + data[i + 1..] == data[i + 1..] == data[i..][1..];
        assert done + (Encoded(before + [data[i]]) + Encoded(data[i + 1..])) == r + Encoded(data[i + 1..]);
      }
    }
    assert ctx[..ctxlen] + data[|data|..] == ctx[..ctxlen];
    ctxlen, r := B64Pad(ctx, ctxlen, r);
  }

  lemma EncodeOnce(buffer: Bytes, rest: Bytes)
    requires |buffer| < 3 && |rest| > 0
    ensures |buffer| == 2 ==> Encoded(buffer + rest) == Encoded(buffer + [rest[0]]) + Encoded(rest[1..])
  {
    hide Group;
    if |buffer| == 2 && |rest| == 1 {
      assert rest == [rest[0]];
    } else if |buffer| == 2 {
      assert (buffer + rest)[..3] == buffer + [rest[0]];
      assert (buffer + rest)[3..] == rest[1..];
    }
  }

  // ---------------------------------------------------------------------------------------------
  // The decoder
  // ---------------------------------------------------------------------------------------------

  datatype Progress = Progress(size: nat, sout: Bytes) | Invalid(code: byte)

  /** Skips white space, refuses what is not a symbol, and turns four buffered symbols into octets. */
  method B64Decode(c: byte, input: array<byte>, size: nat, sout: Bytes) returns (p: Progress)
    requires input.Length == 4 && size < 4
    requires AllSymbols(input[..size])
    modifies input
    ensures !IsSymbol(c) ==> input[..] == old(input[..])
    ensures !IsSymbol(c) ==> p == if IsSpace(c) then Progress(size, sout) else Invalid(c)
    ensures IsSymbol(c) ==> p.Progress? && AllSymbols(old(input[..size]) + [c])
    ensures IsSymbol(c) && size < 3 ==>
      p == Progress(size + 1, sout) && input[..size + 1] == old(input[..size]) + [c]
    ensures IsSymbol(c) && size == 3 ==> p == Progress(0, sout + Atom(old(input[..3]) + [c]))
  {
    if Unbase(c) > 64 {
      if c == 32 || c == 9 || c == 10 || c == 11 || c == 12 || c == 13 {
        return Progress(size, sout);
      }
      return Invalid(c);
    }
    ghost var group := input[..size] + [c];
    input[size] := c;
    assert input[..size + 1] == group;
    if size + 1 == 4 {
      assert group == [input[0], input[1], input[2], input[3]];
      assert forall i :: 0 <= i < 4 ==> IsSymbol(group[i]);
      var value: int := Unbase(input[0]);
      value := value * 64;
      value := value + Unbase(input[1]);
      value := value * 64;
      value := value + Unbase(input[2]);
      value := value * 64;
      value := value + Unbase(input[3]);
      FourSextetFields(Unbase(input[0]), Unbase(input[1]), Unbase(input[2]), Unbase(input[3]));
      var decoded2: byte := value % 256;
      value := value / 256;
      var decoded1: byte := value % 256;
      value := value / 256;
      var decoded0: byte := value % 256;
      var valid;
      if input[2] == PAD {
        valid := 1;
      } else if input[3] == PAD {
        valid := 2;
      } else {
        valid := 3;
      }
      return Progress(0, sout + [decoded0, decoded1, decoded2][..valid]);
    }
    return Progress(size + 1, sout);
  }

  lemma FourSextetFields(a: sextet, b: sextet, c: sextet, d: sextet)
    ensures var v := ((a * 64 + b) * 64 + c) * 64 + d;
      && v % 256 == c % 4 * 64 + d
      && v / 256 % 256 == b % 16 * 16 + c / 4
      && v / 256 / 256 % 256 == a * 4 + b / 16
  {
    Split256(a * 1024 + b * 16 + c / 4, c % 4 * 64 + d);
    Split256(a * 4 + b / 16, b % 16 * 16 + c / 4);
  }

  /**
    After i characters: the buffer, the output and the characters still to come
    make up what the whole text decodes to.
   */
  ghost predicate Tracks(data: Bytes, i: nat, buffer: Bytes, sout: Bytes) {
    && i <= |data|
    && AllSymbols(buffer)
    && AllSymbols(Strip(data[..i]))
    && (AllSymbols(Strip(data)) <==> AllSymbols(Strip(data[i..])))
    && (AllSymbols(Strip(data)) ==>
          AllSymbols(buffer + Strip(data[i..])) &&
          Decoded(Strip(data)) == sout + Decoded(buffer + Strip(data[i..])))
  }

  method DecodeBase64(data: Bytes) returns (r: Result)
    ensures r.Ok? <==> AllSymbols(Strip(data))
    ensures r.Ok? ==> r.octets == Decoded(Strip(data))
    ensures r.InvalidCharacter? ==>
      exists i :: 0 <= i < |data| && AllSymbols(Strip(data[..i]))
               && data[i] == r.code && !IsSymbol(r.code) && !IsSpace(r.code)
  {
    TracksFromStart(data);
    hide Atom, IsSymbol, IsSpace, Strip, Decoded;
    var sout := [];
    var ctx := new byte[4](_ => 0);
    var ctxlen := 0;
    assert ctx[..ctxlen] == [];
    for i := 0 to |data|
      invariant 0 <= ctxlen < 4 && Tracks(data, i, ctx[..ctxlen], sout)
    {
      TracksNext(data, i, ctx[..ctxlen], sout);
      hide Tracks;
      var p := B64Decode(data[i], ctx, ctxlen, sout);
      if p.Invalid? {
        return InvalidCharacter(p.code);
      }
      ctxlen, sout := p.size, p.sout;
      assert ctxlen == 0 ==> ctx[..ctxlen] == [];
    }
    TracksToEnd(data, ctx[..ctxlen], sout);
    return Ok(sout);
  }

  lemma TracksFromStart(data: Bytes)
    ensures Tracks(data, 0, [], [])
  {
    assert data[0..] == data && data[..0] == [];
    assert [] + Strip(data) == Strip(data);
  }

  lemma TracksToEnd(data: Bytes, buffer: Bytes, sout: Bytes)
    requires |buffer| < 4 && Tracks(data, |data|, buffer, sout)
    ensures AllSymbols(Strip(data)) && Decoded(Strip(data)) == sout
  {
    assert data[|data|..] == [];
    assert Decoded(buffer + []) == [];
  }

  lemma TracksNext(data: Bytes, i: nat, buffer: Bytes, sout: Bytes)
    requires i < |data| && |buffer| < 4 && Tracks(data, i, buffer, sout)
    ensures AllSymbols(buffer)
    ensures !IsSymbol(data[i]) && !IsSpace(data[i]) ==>
      AllSymbols(Strip(data[..i])) && !AllSymbols(Strip(data))
    ensures !IsSymbol(data[i]) && IsSpace(data[i]) ==> Tracks(data, i + 1, buffer, sout)
    ensures IsSymbol(data[i]) && |buffer| < 3 ==> Tracks(data, i + 1, buffer + [data[i]], sout)
    ensures IsSymbol(data[i]) && |buffer| == 3 ==>
      AllSymbols(buffer + [data[i]]) && Tracks(data, i + 1, [], sout + Atom(buffer + [data[i]]))
  {
    StripAt(data, i);
    if IsSymbol(data[i]) {
      TracksSymbol(data, i, buffer, sout);
    } else {
      hide Decoded, IsSymbol, IsSpace;
      if !IsSpace(data[i]) {
        assert !IsSymbol(Strip(data[i..])[0]);
      }
    }
  }

  lemma TracksSymbol(data: Bytes, i: nat, buffer: Bytes, sout: Bytes)
    requires i < |data| && |buffer| < 4 && Tracks(data, i, buffer, sout) && IsSymbol(data[i])
    ensures |buffer| < 3 ==> Tracks(data, i + 1, buffer + [data[i]], sout)
    ensures |buffer| == 3 ==>
      AllSymbols(buffer + [data[i]]) && Tracks(data, i + 1, [], sout + Atom(buffer + [data[i]]))
  {
    var c, rest := data[i], Strip(data[i + 1..]);
    StripAt(data, i);
    DecodeOnce(buffer, c, rest);
    OneSymbol(c);
    AppendSymbols(buffer, [c]);
    AppendSymbols(Strip(data[..i]), [c]);
    hide Atom, IsSymbol, IsSpace, Strip, Decoded, AllSymbols;
    if |buffer| < 3 {
      assert (buffer + [c]) + rest == buffer + ([c] + rest);
    } else {
      assert [] + rest == rest;
      if AllSymbols(rest) {
        assert (sout + Atom(buffer + [c])) + Decoded(rest) == sout + (Atom(buffer + [c]) + Decoded(rest));
      }
    }
  }

  lemma OneSymbol(c: byte)
    requires IsSymbol(c)
    ensures AllSymbols([c]) && AllSymbols([])
  {
  }

  lemma StripLast(s: Bytes, c: byte)
    ensures Strip(s + [c]) == if IsSpace(c) then Strip(s) else Strip(s) + [c]
  {
    if s == [] {
      assert [c][1..] == [];
      assert [] + [c] == [c];
    } else {
      assert (s + [c])[1..] == s[1..] + [c];
      StripLast(s[1..], c);
    }
  }

  lemma StripAt(s: Bytes, i: nat)
    requires i < |s|
    ensures Strip(s[..i + 1]) == if IsSpace(s[i]) then Strip(s[..i]) else Strip(s[..i]) + [s[i]]
    ensures Strip(s[i..]) == if IsSpace(s[i]) then Strip(s[i + 1..]) else [s[i]] + Strip(s[i + 1..])
    ensures IsSymbol(s[i]) ==> !IsSpace(s[i])
  {
    StripLast(s[..i], s[i]);
    assert s[..i] + [s[i]] == s[..i + 1];
    assert s[i..][1..] == s[i + 1..];
  }

  lemma DecodeOnce(buffer: Bytes, c: byte, rest: Bytes)
    requires |buffer| < 4 && AllSymbols(buffer) && IsSymbol(c)
    ensures AllSymbols(rest) <==> AllSymbols([c] + rest)
    ensures AllSymbols(rest) ==> AllSymbols(buffer + ([c] + rest))
    ensures AllSymbols(rest) && |buffer| == 3 ==>
      AllSymbols(buffer + [c]) && Decoded(buffer + ([c] + rest)) == Atom(buffer + [c]) + Decoded(rest)
  {
    assert forall i :: 0 <= i < |rest| ==> ([c] + rest)[i + 1] == rest[i];
    if |buffer| == 3 {
      assert (buffer + ([c] + rest))[..4] == buffer + [c];
      assert (buffer + ([c] + rest))[4..] == rest;
    }
  }

  // ---------------------------------------------------------------------------------------------
  // What the pair promises
  // ---------------------------------------------------------------------------------------------

  lemma {:induction false} EncodedIsSymbols(x: Bytes)
    ensures AllSymbols(Encoded(x)) && |Encoded(x)| == (|x| + 2) / 3 * 4
  {
    hide Group, IsSymbol;
    if |x| > 3 {
      AtomOfGroup(x[..3]);
      EncodedIsSymbols(x[3..]);
      AppendSymbols(Group(x[..3]), Encoded(x[3..]));
    } else if |x| > 0 {
      AtomOfGroup(x);
    }
  }

  /** The decoder accepts exactly the texts made of symbols, pads and white space. */
  lemma {:induction false} AcceptedTexts(s: Bytes)
    ensures AllSymbols(Strip(s)) <==> forall i :: 0 <= i < |s| ==> IsSymbol(s[i]) || IsSpace(s[i])
  {
    if s != [] {
      AcceptedTexts(s[1..]);
      AppendSymbols([s[0]], Strip(s[1..]));
      hide IsSymbol, IsSpace;
      assert AllSymbols([s[0]]) <==> IsSymbol([s[0]][0]);
      assert forall i :: 0 <= i < |s| - 1 ==> s[1..][i] == s[i + 1];
      assert forall i :: 0 < i < |s| ==> s[i] == s[1..][i - 1];
    }
  }

  lemma AtomOfFields(x: byte, y: byte, z: byte)
    ensures x / 4 * 4 + (x % 4 * 16 + y / 16) / 16 == x
    ensures (x % 4 * 16 + y / 16) % 16 * 16 + (y % 16 * 4 + z / 64) / 4 == y
    ensures (y % 16 * 4 + z / 64) % 4 * 64 + z % 64 == z
  {
  }

  lemma AppendSymbols(a: Bytes, b: Bytes)
    ensures AllSymbols(a + b) <==> AllSymbols(a) && AllSymbols(b)
  {
    hide IsSymbol;
    assert forall i :: 0 <= i < |a| ==> (a + b)[i] == a[i];
    assert forall i :: 0 <= i < |b| ==> (a + b)[|a| + i] == b[i];
  }

  lemma DecodedAppend(a: Bytes, b: Bytes)
    requires AllSymbols(a) && AllSymbols(b) && |a| % 4 == 0
    ensures AllSymbols(a + b) && Decoded(a + b) == Decoded(a) + Decoded(b)
    decreases |a|
  {
    hide Atom, Unbase;
    AppendSymbols(a, b);
    if a == [] {
      assert a + b == b;
    } else {
      assert (a + b)[..4] == a[..4];
      assert (a + b)[4..] == a[4..] + b;
      DecodedAppend(a[4..], b);
    }
  }

  /** Decoding undoes encoding, for every sequence of octets. */
  lemma {:induction false} RoundTrip(x: Bytes)
    ensures AllSymbols(Encoded(x)) && Decoded(Encoded(x)) == x
  {
    hide Group, Atom, IsSymbol;
    EncodedIsSymbols(x);
    if |x| > 3 {
      var head, tail := Group(x[..3]), Encoded(x[3..]);
      AtomOfGroup(x[..3]);
      RoundTrip(x[3..]);
      DecodedAppend(head, tail);
      DecodedOnce(head);
    } else if |x| > 0 {
      AtomOfGroup(x);
      DecodedOnce(Group(x));
    }
  }

  lemma DecodedOnce(s: Bytes)
    requires |s| == 4 && AllSymbols(s)
    ensures Decoded(s) == Atom(s)
  {
    assert s[..4] == s && s[4..] == [];
  }

  lemma UnbaseOfBase(v: sextet)
    ensures Unbase(Base(v)) == v && Base(v) != PAD && IsSymbol(Base(v)) && !IsSpace(Base(v))
  {
  }

  lemma SymbolsOfGroup(x: Bytes)
    requires 1 <= |x| <= 3
    ensures var s, y, z := Group(x), if |x| > 1 then x[1] else 0, if |x| > 2 then x[2] else 0;
            && Unbase(s[0]) == x[0] / 4 && Unbase(s[1]) == x[0] % 4 * 16 + y / 16
            && Unbase(s[2]) == y % 16 * 4 + z / 64 && Unbase(s[3]) == z % 64
            && (s[2] == PAD <==> |x| == 1) && (s[3] == PAD <==> |x| < 3)
  {
    hide Base;
    var y, z := if |x| > 1 then x[1] else 0, if |x| > 2 then x[2] else 0;
    UnbaseOfBase(x[0] / 4);
    UnbaseOfBase(x[0] % 4 * 16 + y / 16);
    UnbaseOfBase(y % 16 * 4 + z / 64);
    UnbaseOfBase(z % 64);
    assert Unbase(PAD) == 0;
    hide Unbase;
  }

  lemma AtomOfGroup(x: Bytes)
    requires 1 <= |x| <= 3
    ensures AllSymbols(Group(x)) && Atom(Group(x)) == x
  {
    GroupIsSymbols(x);
    SymbolsOfGroup(x);
    hide Group, Unbase, AllSymbols;
    AtomOfFields(x[0], if |x| > 1 then x[1] else 0, if |x| > 2 then x[2] else 0);
    assert |Atom(Group(x))| == |x|;
  }

  lemma GroupIsSymbols(x: Bytes)
    requires 1 <= |x| <= 3
    ensures AllSymbols(Group(x))
  {
    hide Base, Unbase;
    var y, z := if |x| > 1 then x[1] else 0, if |x| > 2 then x[2] else 0;
    UnbaseOfBase(x[0] / 4);
    UnbaseOfBase(x[0] % 4 * 16 + y / 16);
    UnbaseOfBase(y % 16 * 4 + z / 64);
    UnbaseOfBase(z % 64);
    assert IsSymbol(PAD) by { PadIsSymbol(); }
  }

  lemma PadIsSymbol()
    ensures IsSymbol(PAD)
  {
  }

  function EncodedEach(xs: seq<Bytes>): Bytes {
    if xs == [] then [] else Encoded(xs[0]) + EncodedEach(xs[1..])
  }

  function Flat(xs: seq<Bytes>): Bytes {
    if xs == [] then [] else xs[0] + Flat(xs[1..])
  }

  /**
    Any number of encodings one after the other, with white space put in anywhere,
    decode to the octets that were encoded, in order.
   */
  lemma {:induction false} StreamRoundTrip(xs: seq<Bytes>, s: Bytes)
    requires Strip(s) == EncodedEach(xs)
    ensures AllSymbols(Strip(s)) && Decoded(Strip(s)) == Flat(xs)
  {
    EachRoundTrip(xs);
  }

  lemma {:induction false} EachRoundTrip(xs: seq<Bytes>)
    ensures AllSymbols(EncodedEach(xs)) && Decoded(EncodedEach(xs)) == Flat(xs)
  {
    hide Encoded, Decoded, IsSymbol;
    if xs == [] {
      assert Decoded([]) == [] by { RoundTrip([]); EncodedIsSymbols([]); }
    } else {
      RoundTrip(xs[0]);
      EncodedIsSymbols(xs[0]);
      EachRoundTrip(xs[1..]);
      DecodedAppend(Encoded(xs[0]), EncodedEach(xs[1..]));
    }
  }

  /** An encoding holds no white space, so it is what the decoder sees of itself. */
  lemma {:induction false} StripKeepsSymbols(s: Bytes)
    requires AllSymbols(s)
    ensures Strip(s) == s
  {
    if s != [] {
      assert IsSymbol(s[0]);
      assert forall i :: 0 <= i < |s| - 1 ==> s[1..][i] == s[i + 1];
      StripKeepsSymbols(s[1..]);
    }
  }

  // ---------------------------------------------------------------------------------------------
  // Which texts are encodings
  // ---------------------------------------------------------------------------------------------

  predicate CanonicalAtom(s: Bytes)
    requires |s| == 4 && AllSymbols(s)
  {
    && s[0] != PAD && s[1] != PAD
    && (s[2] == PAD ==> s[3] == PAD && Unbase(s[1]) % 16 == 0)
    && (s[2] != PAD && s[3] == PAD ==> Unbase(s[2]) % 4 == 0)
  }

  /** Whole atoms, padding in the last one only, and zero bits under the padding. */
  predicate Canonical(s: Bytes)
    requires AllSymbols(s)
  {
    s == [] || (|s| >= 4 && CanonicalAtom(s[..4]) && (|s| > 4 ==> s[3] != PAD && Canonical(s[4..])))
  }

  lemma {:induction false} EncodedIsCanonical(x: Bytes)
    ensures AllSymbols(Encoded(x)) && Canonical(Encoded(x))
  {
    hide Group, CanonicalAtom, IsSymbol;
    EncodedIsSymbols(x);
    if |x| > 3 {
      GroupIsCanonical(x[..3]);
      EncodedIsCanonical(x[3..]);
      assert Encoded(x)[..4] == Group(x[..3]);
      assert Encoded(x)[4..] == Encoded(x[3..]);
    } else if x != [] {
      GroupIsCanonical(x);
      assert Encoded(x)[..4] == Group(x);
    }
  }

  lemma GroupIsCanonical(x: Bytes)
    requires 1 <= |x| <= 3
    ensures AllSymbols(Group(x)) && CanonicalAtom(Group(x))
    ensures |x| == 3 ==> Group(x)[3] != PAD
  {
    AtomOfGroup(x);
    hide Base, AllSymbols;
    var y, z := if |x| > 1 then x[1] else 0, if |x| > 2 then x[2] else 0;
    UnbaseOfBase(x[0] / 4);
    UnbaseOfBase(x[0] % 4 * 16 + y / 16);
    UnbaseOfBase(y % 16 * 4 + z / 64);
    UnbaseOfBase(z % 64);
    hide Unbase;
  }

  lemma BaseOfUnbase(c: byte)
    requires IsSymbol(c) && c != PAD
    ensures Base(Unbase(c)) == c
  {
  }

  lemma GroupOfFields(a: sextet, b: sextet, c: sextet, d: sextet)
    ensures var x, y, z := a * 4 + b / 16, b % 16 * 16 + c / 4, c % 4 * 64 + d;
      && x / 4 == a
      && x % 4 * 16 + y / 16 == b && (b % 16 == 0 ==> x % 4 * 16 == b)
      && y % 16 * 4 + z / 64 == c && (c % 4 == 0 ==> y % 16 * 4 == c)
      && z % 64 == d
  {
  }

  lemma GroupOfAtom(s: Bytes)
    requires |s| == 4 && AllSymbols(s) && CanonicalAtom(s)
    ensures 1 <= |Atom(s)| <= 3 && Group(Atom(s)) == s
    ensures s[3] != PAD ==> |Atom(s)| == 3
  {
    hide Base;
    assert IsSymbol(s[0]) && IsSymbol(s[1]) && IsSymbol(s[2]) && IsSymbol(s[3]);
    BaseOfUnbase(s[0]);
    BaseOfUnbase(s[1]);
    if s[2] != PAD { BaseOfUnbase(s[2]); }
    if s[3] != PAD { BaseOfUnbase(s[3]); }
    hide Unbase, IsSymbol, AllSymbols;
    GroupOfFields(Unbase(s[0]), Unbase(s[1]), Unbase(s[2]), Unbase(s[3]));
    if s[2] == PAD {
      assert |Atom(s)| == 1;
    } else if s[3] == PAD {
      assert |Atom(s)| == 2;
    }
  }

  /**
    The decoder takes more texts than the encoder writes (a pad counts as zero bits
    wherever it stands, and a cut-off last atom is dropped): encoding the result
    again gives the text back exactly when the text is canonical.
   */
  lemma {:induction false} ReencodesIffCanonical(s: Bytes)
    requires AllSymbols(s)
    ensures Encoded(Decoded(s)) == s <==> Canonical(s)
  {
    if Encoded(Decoded(s)) == s {
      EncodedIsCanonical(Decoded(s));
    }
    if Canonical(s) {
      CanonicalReencodes(s);
    }
  }

  lemma {:induction false} CanonicalReencodes(s: Bytes)
    requires AllSymbols(s) && Canonical(s)
    ensures Encoded(Decoded(s)) == s
  {
    hide Group, Atom, IsSymbol, CanonicalAtom;
    if s != [] {
      var head, tail := s[..4], s[4..];
      assert s == head + tail;
      GroupOfAtom(head);
      if tail == [] {
        assert Decoded(s) == Atom(head);
      } else {
        assert s[3] == head[3];
        CanonicalReencodes(tail);
        AtomsFollow(head, tail);
      }
    }
  }

  lemma AtomsFollow(head: Bytes, tail: Bytes)
    requires |head| == 4 && AllSymbols(head) && |Atom(head)| == 3 && Group(Atom(head)) == head
    requires AllSymbols(tail) && tail != [] && Encoded(Decoded(tail)) == tail
    ensures AllSymbols(head + tail) && Encoded(Decoded(head + tail)) == head + tail
  {
    hide Group, Atom, IsSymbol;
    AppendSymbols(head, tail);
    assert (head + tail)[..4] == head && (head + tail)[4..] == tail;
    var x := Decoded(head + tail);
    assert x == Atom(head) + Decoded(tail);
    assert x[..3] == Atom(head) && x[3..] == Decoded(tail);
  }
}
