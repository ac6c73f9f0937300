// What the SHA-256 context means between calls, as a relation on values.
module Sha256Stream {
  import opened Values
  import opened Words
  import opened Sha256Spec

  lemma WholeChunks(w: nat)
    ensures (64 * w) % 64 == 0
  {}

  // The state is the fold over the first w chunks of m, the buffer the rest.
  ghost predicate Absorbed(c: (Hash, Chunk) -> Hash, start: Hash, m: seq<bv8>, w: nat, state: Hash, buf: seq<bv8>) {
    && |buf| < 64 && |m| == 64 * w + |buf|
    && Same(buf, m[64 * w..])
    && Same(state, (WholeChunks(w); Fold(c, start, m[..64 * w])))
  }

  lemma AbsorbNothing(c: (Hash, Chunk) -> Hash, start: Hash)
    ensures Absorbed(c, start, [], 0, start, [])
  {}

  lemma AbsorbSome(c: (Hash, Chunk) -> Hash, start: Hash, m: seq<bv8>, w: nat, state: Hash, buf: seq<bv8>, x: seq<bv8>)
    requires Absorbed(c, start, m, w, state, buf) && |buf| + |x| < 64
    ensures Absorbed(c, start, m + x, w, state, buf + x)
  {
    assert (m + x)[..64 * w] == m[..64 * w];
    assert (m + x)[64 * w..] == m[64 * w..] + x;
  }

  lemma OneChunk(c: (Hash, Chunk) -> Hash, s: Hash, b: Chunk)
    ensures Fold(c, s, b) == c(s, b)
  {
    assert b[..64] == b;
  }

  lemma AbsorbChunk(c: (Hash, Chunk) -> Hash, start: Hash, m: seq<bv8>, w: nat, state: Hash, buf: seq<bv8>, x: seq<bv8>)
    requires Absorbed(c, start, m, w, state, buf) && |buf| + |x| == 64
    ensures Absorbed(c, start, m + x, w + 1, c(state, buf + x), [])
  {
    WholeChunks(w);
    var b: Chunk := buf + x;
    assert m[..64 * w] + b == m + x;
    FoldConcat(c, start, m[..64 * w], b);
    OneChunk(c, state, b);
    assert (m + x)[..64 * (w + 1)] == m + x;
    assert (m + x)[64 * (w + 1)..] == [];
  }

  // ------------------------------------------------------------------------
  // Finishing
  // ------------------------------------------------------------------------

  function LengthField(m: seq<bv8>): seq<bv8> {
    Bytes((8 * |m|) % TWO64, 8)
  }

  // The padding joins the buffered rest into one chunk or two.
  function Tail(m: seq<bv8>, buf: seq<bv8>): seq<bv8> {
    buf + Padding(|m|)
  }

  lemma WholeRest(w: nat, n: nat)
    requires (64 * w + n) % 64 == 0
    ensures n % 64 == 0
  {}

  lemma TailIsWhole(m: seq<bv8>, w: nat, buf: seq<bv8>)
    requires |m| == 64 * w + |buf|
    ensures |Tail(m, buf)| % 64 == 0
  {
    PaddedIsWhole(m);
    WholeRest(w, |Tail(m, buf)|);
  }

  lemma FoldTail(c: (Hash, Chunk) -> Hash, start: Hash, m: seq<bv8>, w: nat, state: Hash, buf: seq<bv8>)
    requires Absorbed(c, start, m, w, state, buf)
    ensures |Tail(m, buf)| % 64 == 0 && Same(Sha256(c, start, m), Fold(c, state, Tail(m, buf)))
  {
    WholeChunks(w);
    TailIsWhole(m, w, buf);
    PaddedSplit(m, 64 * w, buf);
    FoldConcat(c, start, m[..64 * w], Tail(m, buf));
  }

  lemma PaddedSplit(m: seq<bv8>, n: nat, buf: seq<bv8>)
    requires n <= |m| && Same(m[n..], buf)
    ensures Padded(m) == m[..n] + Tail(m, buf)
  {
    assert m == m[..n] + m[n..];
    assert (m[..n] + buf) + Padding(|m|) == m[..n] + (buf + Padding(|m|));
  }

  lemma GapOf(n: nat, w: nat, r: nat)
    requires r < 64 && n == 64 * w + r
    ensures r < 56 ==> Gap(n) == 55 - r
    ensures r >= 56 ==> Gap(n) == 119 - r
  {
    assert n % 64 == r;
  }

  lemma FinishInOne(c: (Hash, Chunk) -> Hash, start: Hash, m: seq<bv8>, w: nat, state: Hash, buf: seq<bv8>, last: Chunk)
    requires Absorbed(c, start, m, w, state, buf) && |buf| < 56
    requires Same(last, buf + [0x80] + Zeros(55 - |buf|) + LengthField(m))
    ensures Same(c(state, last), Sha256(c, start, m))
  {
    GapOf(|m|, w, |buf|);
    FoldTail(c, start, m, w, state, buf);
    assert Tail(m, buf) == buf + [0x80] + Zeros(55 - |buf|) + LengthField(m);
    OneChunk(c, state, last);
  }

  lemma FinishInTwo(c: (Hash, Chunk) -> Hash, start: Hash, m: seq<bv8>, w: nat, state: Hash, buf: seq<bv8>,
                    first: Chunk, last: Chunk)
    requires Absorbed(c, start, m, w, state, buf) && |buf| >= 56
    requires Same(first, buf + [0x80] + Zeros(63 - |buf|)) && Same(last, Zeros(56) + LengthField(m))
    ensures Same(c(c(state, first), last), Sha256(c, start, m))
  {
    GapOf(|m|, w, |buf|);
    FoldTail(c, start, m, w, state, buf);
    assert Zeros(Gap(|m|)) == Zeros(63 - |buf|) + Zeros(56);
    assert Tail(m, buf) == first + last;
    FoldConcat(c, state, first, last);
    OneChunk(c, state, first);
    OneChunk(c, c(state, first), last);
  }

  // A number shifted right by k bytes.
  function ShiftDown(x: nat, k: nat): nat {
    if k == 0 then x else ShiftDown(x, k - 1) / 256
  }

  lemma {:induction false} ShiftFirst(x: nat, k: nat)
    ensures ShiftDown(x / 256, k) == ShiftDown(x, k + 1)
  {
    if k == 0 {
      assert ShiftDown(x, 1) == ShiftDown(x, 0) / 256;
    } else {
      ShiftFirst(x, k - 1);
    }
  }

  // Byte i of n is the low byte after shifting the bytes below it out.
  lemma {:induction false} BytesAt(x: nat, n: nat, i: nat)
    requires i < n
    ensures Bytes(x, n)[i] == Low8(ShiftDown(x, n - 1 - i))
  {
    if i == n - 1 {
    } else {
      BytesAt(x / 256, n - 1, i);
      ShiftFirst(x, n - 2 - i);
    }
  }

  // The bit count of n bytes, as the counter accumulates it.
  function BitCount(n: nat): nat {
    if n == 0 then 0 else (BitCount(n - 1) + 8) % TWO64
  }

  lemma AddAfterMod(x: nat, y: nat)
    ensures (x % TWO64 + y) % TWO64 == (x + y) % TWO64
  {}

  lemma {:induction false} BitCountIs(n: nat)
    ensures BitCount(n) == (8 * n) % TWO64
  {
    if n == 0 {
    } else {
      BitCountIs(n - 1);
      AddAfterMod(8 * (n - 1), 8);
    }
  }

  // The 64-bit counter after n more bytes.
  function CountUp(count: nat, n: nat): nat { (count + 8 * n) % TWO64 }

  lemma BitCountMore(a: nat, b: nat)
    ensures CountUp(BitCount(a), b) == BitCount(a + b)
  {
    BitCountIs(a);
    BitCountIs(a + b);
    AddAfterMod(8 * a, 8 * b);
  }
}
