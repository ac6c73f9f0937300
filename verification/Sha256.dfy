// kernel/crypto/sha256.c: the block processing loop, and the context that takes
// a message in pieces of any size.
//
// The context is proved to hold the fold of the compression function over the
// whole chunks seen so far and the rest in its buffer; finishing it gives the
// fold over the padded message, however the message was split.
module Sha256 {
  import opened Values
  import opened Words
  import opened Sha256Spec
  import opened Sha256Stream

  // ------------------------------------------------------------------------
  // sha256_process_block
  // ------------------------------------------------------------------------

  method LoadWords(block: array<bv8>, w: array<bv32>)
    requires block.Length == 64 && w.Length == 64
    modifies w
    ensures forall t: nat :: t < 16 ==> w[t] == Word(block[..], t)
  {
    for i := 0 to 16
      invariant forall t: nat :: t < i ==> w[t] == Word(block[..], t)
    {
      w[i] := BigEndian(block[4 * i], block[4 * i + 1], block[4 * i + 2], block[4 * i + 3]);
    }
  }

  method ExtendWords(ghost block: Chunk, w: array<bv32>)
    requires w.Length == 64 && forall t: nat :: t < 16 ==> w[t] == Word(block, t)
    modifies w
    ensures forall t: nat :: t < 64 ==> w[t] == Word(block, t)
  {
    for i := 16 to 64
      invariant forall t: nat :: t < i ==> w[t] == Word(block, t)
    {
      w[i] := Plus(Plus(Plus(SmallSigma1(w[i - 2]), w[i - 7]), SmallSigma0(w[i - 15])), w[i - 16]);
      assert w[i] == Word(block, i);
    }
  }

  method RunSteps(k: Constants, ghost block: Chunk, w: array<bv32>, start: Vars) returns (v: Vars)
    requires w.Length == 64 && forall t: nat :: t < 64 ==> w[t] == Word(block, t)
    ensures v == Steps(k, block, start, 64)
  {
    var a, b, c, d, e, f, g, h := start.a, start.b, start.c, start.d, start.e, start.f, start.g, start.h;
    for i := 0 to 64
      invariant Vars(a, b, c, d, e, f, g, h) == Steps(k, block, start, i)
    {
      var t1 := Plus(Plus(Plus(Plus(h, BigSigma1(e)), Ch(e, f, g)), k[i]), w[i]);
      var t2 := Plus(BigSigma0(a), Maj(a, b, c));
      h := g;
      g := f;
      f := e;
      e := Plus(d, t1);
      d := c;
      c := b;
      b := a;
      a := Plus(t1, t2);
    }
    v := Vars(a, b, c, d, e, f, g, h);
  }

  lemma Added(s: Hash, t: Hash, v: Vars)
    requires t[0] == Plus(s[0], v.a) && t[1] == Plus(s[1], v.b) && t[2] == Plus(s[2], v.c) && t[3] == Plus(s[3], v.d)
    requires t[4] == Plus(s[4], v.e) && t[5] == Plus(s[5], v.f) && t[6] == Plus(s[6], v.g) && t[7] == Plus(s[7], v.h)
    ensures Same(t, AddVars(s, v))
  {
    assert t == AddVars(s, v);
  }

  method LoadVars(state: array<bv32>) returns (v: Vars)
    requires state.Length == 8
    ensures v == Load(state[..])
  {
    v := Vars(state[0], state[1], state[2], state[3], state[4], state[5], state[6], state[7]);
  }

  method AddInto(state: array<bv32>, v: Vars)
    requires state.Length == 8
    modifies state
    ensures Same(state[..], AddVars(old(state[..]), v))
  {
    state[0] := Plus(state[0], v.a);
    state[1] := Plus(state[1], v.b);
    state[2] := Plus(state[2], v.c);
    state[3] := Plus(state[3], v.d);
    state[4] := Plus(state[4], v.e);
    state[5] := Plus(state[5], v.f);
    state[6] := Plus(state[6], v.g);
    state[7] := Plus(state[7], v.h);
    Added(old(state[..]), state[..], v);
  }

  method ProcessBlock(k: Constants, state: array<bv32>, block: array<bv8>)
    requires state.Length == 8 && block.Length == 64
    modifies state
    ensures Same(state[..], Compressor(k).Apply(old(state[..]), block[..]))
  {
    var w := new bv32[64];
    LoadWords(block, w);
    ExtendWords(block[..], w);
    var start := LoadVars(state);
    var v := RunSteps(k, block[..], w, start);
    AddInto(state, v);
  }

  // ------------------------------------------------------------------------
  // Filling the buffer
  // ------------------------------------------------------------------------

  method CopyIn(src: array<bv8>, from: nat, n: nat, dst: array<bv8>, to: nat)
    requires from + n <= src.Length && to + n <= dst.Length && src != dst
    modifies dst
    ensures Same(dst[..to + n], old(dst[..to]) + src[from..from + n])
  {
    for i := 0 to n
      invariant dst[..to + i] == old(dst[..to]) + src[from..from + i]
    {
      dst[to + i] := src[from + i];
    }
  }

  method Clear(dst: array<bv8>, from: nat, to: nat)
    requires from <= to <= dst.Length
    modifies dst
    ensures dst[..from] == old(dst[..from]) && dst[from..to] == Zeros(to - from) && dst[to..] == old(dst[to..])
  {
    for i := from to to
      invariant dst[..from] == old(dst[..from]) && dst[from..i] == Zeros(i - from) && dst[i..] == old(dst[i..])
    {
      dst[i] := 0;
    }
  }

  method PutByte(dst: array<bv8>, count: nat, i: nat)
    requires dst.Length == 64 && i < 8
    modifies dst
    ensures dst[..] == old(dst[..])[56 + i := Bytes(count, 8)[i]]
  {
    dst[56 + i] := Low8(ShiftDown(count, 7 - i));
    BytesAt(count, 8, i);
  }

  method PutCount(dst: array<bv8>, count: nat)
    requires dst.Length == 64
    modifies dst
    ensures dst[..56] == old(dst[..56]) && dst[56..] == Bytes(count, 8)
  {
    ghost var b := Bytes(count, 8);
    PutByte(dst, count, 0);
    PutByte(dst, count, 1);
    PutByte(dst, count, 2);
    PutByte(dst, count, 3);
    PutByte(dst, count, 4);
    PutByte(dst, count, 5);
    PutByte(dst, count, 6);
    PutByte(dst, count, 7);
    assert dst[56..] == [b[0], b[1], b[2], b[3], b[4], b[5], b[6], b[7]] == b;
  }

  // The hash as big-endian bytes.
  function Digest(s: Hash): seq<bv8> {
    seq(32, i requires 0 <= i < 32 => WordByte(s[i / 4], i % 4))
  }

  lemma DigestAt(s: Hash, i: nat, r: nat)
    requires i < 8 && r < 4
    ensures Digest(s)[4 * i + r] == WordByte(s[i], r)
  {
    assert (4 * i + r) / 4 == i && (4 * i + r) % 4 == r;
  }

  lemma DigestWord(s: Hash, i: nat)
    requires i < 8
    ensures Digest(s)[4 * i..4 * i + 4] == [WordByte(s[i], 0), WordByte(s[i], 1), WordByte(s[i], 2), WordByte(s[i], 3)]
  {
    DigestAt(s, i, 0);
    DigestAt(s, i, 1);
    DigestAt(s, i, 2);
    DigestAt(s, i, 3);
  }

  // Reading the digest as eight big-endian words gives the hash.
  lemma DigestIsBigEndian(s: Hash, i: nat)
    requires i < 8
    ensures BigEndian(Digest(s)[4 * i], Digest(s)[4 * i + 1], Digest(s)[4 * i + 2], Digest(s)[4 * i + 3]) == s[i]
  {
    DigestAt(s, i, 0);
    DigestAt(s, i, 1);
    DigestAt(s, i, 2);
    DigestAt(s, i, 3);
    WordOfBytes(s[i]);
  }

  method PutWord(out: array<bv8>, at: nat, w: bv32)
    requires at + 4 <= out.Length
    modifies out
    ensures out[..at] == old(out[..at]) && out[at + 4..] == old(out[at + 4..])
    ensures out[at..at + 4] == [WordByte(w, 0), WordByte(w, 1), WordByte(w, 2), WordByte(w, 3)]
  {
    out[at] := WordByte(w, 0);
    out[at + 1] := WordByte(w, 1);
    out[at + 2] := WordByte(w, 2);
    out[at + 3] := WordByte(w, 3);
  }

  method PutHash(state: array<bv32>, out: array<bv8>)
    requires state.Length == 8 && out.Length >= 32
    modifies out
    ensures Same(out[..32], Digest(state[..])) && out[32..] == old(out[32..])
  {
    ghost var d := Digest(state[..]);
    for i := 0 to 8
      invariant Same(out[..4 * i], d[..4 * i]) && out[4 * i..] == old(out[4 * i..])
    {
      DigestWord(state[..], i);
      PutWord(out, 4 * i, state[i]);
      assert out[..4 * i + 4] == out[..4 * i] + out[4 * i..4 * i + 4];
      assert d[..4 * i + 4] == d[..4 * i] + d[4 * i..4 * i + 4];
    }
    assert d[..32] == d;
  }

  // ------------------------------------------------------------------------
  // The context
  // ------------------------------------------------------------------------

  lemma TakeMore(a: seq<bv8>, d: seq<bv8>, i: nat, n: nat)
    requires i + n <= |d|
    ensures Same(a + d[..i + n], (a + d[..i]) + d[i..i + n])
  {
    assert a + d[..i + n] == (a + d[..i]) + d[i..i + n];
  }

  class Context {
    const k: Constants
    const state: array<bv32>
    const buffer: array<bv8>
    var bufferLen: nat
    var bitCount: nat
    ghost const start: Hash
    ghost var message: seq<bv8>
    ghost var chunks: nat

    ghost predicate Valid()
      reads this, state, buffer
    {
      && state.Length == 8 && buffer.Length == 64 && bufferLen < 64
      && bitCount == BitCount(|message|)
      && Absorbed(Compressor(k).Apply, start, message, chunks, state[..], buffer[..bufferLen])
    }

    constructor ()
      ensures Valid() && message == [] && k == K && start == INITIAL && fresh(state) && fresh(buffer)
    {
      k := K;
      start := INITIAL;
      state := new bv32[8](i requires 0 <= i < 8 => INITIAL[i]);
      buffer := new bv8[64](i => 0);
      bufferLen := 0;
      bitCount := 0;
      message := [];
      chunks := 0;
      new;
      assert state[..] == INITIAL;
      AbsorbNothing(Compressor(k).Apply, start);
    }

    method Update(data: array?<bv8>, n: nat) returns (err: Status)
      requires Valid() && (data != null ==> n <= data.Length && data != buffer)
      modifies this, state, buffer
      ensures Valid()
      ensures err == Ok <==> data != null
      ensures Same(message, if data == null then old(message) else old(message) + old(data[..n]))
    {
      if data == null {
        return InvalidArg;
      }
      ghost var before, d := message, data[..];
      var offset: nat := 0;
      assert before + d[..0] == before;
      while offset < n
        invariant offset <= n && Valid() && Same(data[..], d)
        invariant Same(message, before + d[..offset])
      {
        var copy := Take(data, n, offset, before, d);
        offset := offset + copy;
      }
      return Ok;
    }

    // One turn of the update loop: as much as the buffer has space for.
    method Take(data: array<bv8>, n: nat, offset: nat, ghost before: seq<bv8>, ghost d: seq<bv8>) returns (copy: nat)
      requires Valid() && offset < n <= data.Length && data != buffer && Same(data[..], d)
      requires Same(message, before + d[..offset])
      modifies this, state, buffer
      ensures 0 < copy <= n - offset && Valid()
      ensures Same(message, before + d[..offset + copy])
    {
      var space := 64 - bufferLen;
      copy := if n - offset < space then n - offset else space;
      TakeMore(before, d, offset, copy);
      Absorb(data, offset, copy);
    }

    method Absorb(data: array<bv8>, offset: nat, copy: nat)
      requires Valid() && offset + copy <= data.Length && data != buffer && bufferLen + copy <= 64
      modifies this, state, buffer
      ensures Valid() && Same(message, old(message) + data[offset..offset + copy])
    {
      ghost var c, m, s, buf, x :=
        Compressor(k).Apply, message, state[..], buffer[..bufferLen], data[offset..offset + copy];
      Stage(data, offset, copy, |m|);
      message := m + x;
      if bufferLen == 64 {
        Flush(buf + x);
        AbsorbChunk(c, start, m, chunks, s, buf, x);
        chunks := chunks + 1;
      } else {
        AbsorbSome(c, start, m, chunks, s, buf, x);
      }
    }

    // Copy the bytes behind those in the buffer and count them.
    method Stage(data: array<bv8>, offset: nat, copy: nat, ghost n: nat)
      requires buffer.Length == 64 && bufferLen + copy <= 64 && offset + copy <= data.Length && data != buffer
      requires bitCount == BitCount(n)
      modifies `bufferLen, `bitCount, buffer
      ensures bufferLen == old(bufferLen) + copy && bitCount == BitCount(n + |data[offset..offset + copy]|)
      ensures Same(buffer[..bufferLen], old(buffer[..bufferLen]) + data[offset..offset + copy])
    {
      CopyIn(data, offset, copy, buffer, bufferLen);
      bufferLen := bufferLen + copy;
      Count(copy, n);
    }

    method Count(copy: nat, ghost n: nat)
      requires bitCount == BitCount(n)
      modifies `bitCount
      ensures bitCount == BitCount(n + copy)
    {
      BitCountMore(n, copy);
      bitCount := CountUp(bitCount, copy);
    }

    method Flush(ghost full: Chunk)
      requires state.Length == 8 && buffer.Length == 64 && Same(buffer[..64], full)
      modifies `bufferLen, state
      ensures bufferLen == 0 && Same(buffer[..bufferLen], [])
      ensures Same(state[..], Compressor(k).Apply(old(state[..]), full))
    {
      assert buffer[..] == buffer[..64];
      ProcessBlock(k, state, buffer);
      bufferLen := 0;
      assert buffer[..0] == [];
    }

    method Final(out: array?<bv8>) returns (err: Status)
      requires Valid() && (out != null ==> out.Length >= 32 && out != buffer)
      modifies this, state, buffer, out
      ensures err == Ok <==> out != null
      ensures out != null ==>
                Same(out[..32], Digest(Sha256(Compressor(k).Apply, start, old(message)))) && out[32..] == old(out[32..])
    {
      if out == null {
        return InvalidArg;
      }
      FinishState();
      PutHash(state, out);
      return Ok;
    }

    // The marker byte, and the chunk it completes when the length does not fit.
    method Mark() returns (ghost first: Chunk)
      requires Valid()
      modifies this, state, buffer
      ensures bitCount == old(bitCount) && chunks == old(chunks) && bufferLen <= 56
      ensures old(bufferLen) < 56 ==>
                Same(state[..], old(state[..])) && Same(buffer[..bufferLen], old(buffer[..bufferLen]) + [0x80])
      ensures old(bufferLen) >= 56 ==>
                bufferLen == 0 && Same(first, old(buffer[..bufferLen]) + [0x80] + Zeros(63 - old(bufferLen)))
                && Same(state[..], Compressor(k).Apply(old(state[..]), first))
    {
      ghost var buf := buffer[..bufferLen];
      first := buffer[..];
      buffer[bufferLen] := 0x80;
      bufferLen := bufferLen + 1;
      assert buffer[..bufferLen] == buf + [0x80];
      if bufferLen > 56 {
        Clear(buffer, bufferLen, 64);
        first := buffer[..];
        assert first == buf + [0x80] + Zeros(63 - |buf|);
        ProcessBlock(k, state, buffer);
        bufferLen := 0;
      }
    }

    // Zeros up to the length field, the field, and the last chunk processed.
    method Seal(ghost m: seq<bv8>) returns (ghost last: Chunk)
      requires state.Length == 8 && buffer.Length == 64 && bufferLen <= 56 && bitCount == BitCount(|m|)
      modifies state, buffer
      ensures Same(last, old(buffer[..bufferLen]) + Zeros(56 - bufferLen) + LengthField(m))
      ensures Same(state[..], Compressor(k).Apply(old(state[..]), last))
    {
      ghost var marked := buffer[..bufferLen];
      Clear(buffer, bufferLen, 56);
      ghost var front := buffer[..56];
      assert front == marked + Zeros(56 - |marked|);
      BitCountIs(|m|);
      PutCount(buffer, bitCount);
      assert buffer[..] == front + LengthField(m);
      last := buffer[..];
      ProcessBlock(k, state, buffer);
    }

    method FinishState()
      requires Valid()
      modifies this, state, buffer
      ensures state.Length == 8 && Same(state[..], Sha256(Compressor(k).Apply, start, old(message)))
    {
      ghost var c, m, s, buf := Compressor(k).Apply, message, state[..], buffer[..bufferLen];
      ghost var first := Mark();
      assert |buf| >= 56 ==> buffer[..bufferLen] + Zeros(56 - bufferLen) == Zeros(56);
      ghost var last := Seal(m);
      if |buf| < 56 {
        FinishInOne(c, start, m, chunks, s, buf, last);
      } else {
        FinishInTwo(c, start, m, chunks, s, buf, first, last);
      }
    }
  }

  // ------------------------------------------------------------------------
  // A message in pieces
  // ------------------------------------------------------------------------

  // One update with the bytes of a piece.
  method Feed(ctx: Context, piece: seq<bv8>)
    requires ctx.Valid()
    modifies ctx, ctx.state, ctx.buffer
    ensures ctx.Valid() && Same(ctx.message, old(ctx.message) + piece)
  {
    var data := new bv8[|piece|](j requires 0 <= j < |piece| => piece[j]);
    assert data[..|piece|] == piece;
    var err := ctx.Update(data, |piece|);
  }

  // However the message is cut into updates, the digest is that of the message.
  method HashPieces(pieces: seq<seq<bv8>>) returns (digest: seq<bv8>)
    ensures Same(digest, Digest(Sha256(Compressor(K).Apply, INITIAL, Flatten(pieces))))
  {
    var ctx := new Context();
    for i := 0 to |pieces|
      invariant ctx.Valid() && fresh(ctx) && fresh(ctx.state) && fresh(ctx.buffer)
      invariant Same(ctx.message, Flatten(pieces[..i]))
    {
      assert pieces[..i + 1] == pieces[..i] + [pieces[i]];
      FlattenSnoc(pieces[..i], pieces[i]);
      Feed(ctx, pieces[i]);
    }
    assert pieces[..|pieces|] == pieces;
    var out := new bv8[32];
    var err := ctx.Final(out);
    digest := out[..32];
  }
}
