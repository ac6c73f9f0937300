/** Big-endian import and export of kernel/crypto/bn.c, and the bit and byte counts. */
module BigNumBytes {
  import opened Bits
  import opened Values
  import opened BnValue
  import opened BigNum
  import opened BigNumShift

  /** The number a big-endian byte string spells. */
  function BytesVal(buf: seq<Byte>): nat {
    if buf == [] then 0 else BytesVal(buf[..|buf| - 1]) * 256 + buf[|buf| - 1]
  }

  lemma {:induction false} Pow256Add(m: nat, n: nat)
    ensures Pow256(m + n) == Pow256(m) * Pow256(n)
  {
    if m > 0 {
      Pow256Add(m - 1, n);
      MulAssoc(256, Pow256(m - 1), Pow256(n));
    }
  }

  lemma {:induction false} Pow256Is(n: nat)
    ensures Pow256(n) == Pow2(8 * n)
  {
    if n > 0 {
      Pow256Is(n - 1);
      Pow2Add(8, 8 * (n - 1));
      assert Pow2(8) == 256 by { Powers(); }
    }
  }

  lemma {:induction false} PowIs256(n: nat)
    ensures Pow(n) == Pow256(8 * n)
  {
    PowIsPow2(n);
    Pow256Is(8 * n);
  }

  lemma {:induction false} BytesBound(buf: seq<Byte>)
    ensures BytesVal(buf) < Pow256(|buf|)
  {
    if buf != [] {
      BytesBound(buf[..|buf| - 1]);
    }
  }

  lemma {:induction false} BytesCons(b: Byte, rest: seq<Byte>)
    ensures BytesVal([b] + rest) == b * Pow256(|rest|) + BytesVal(rest)
  {
    var buf := [b] + rest;
    if rest == [] {
      assert buf[..0] == [];
      assert BytesVal(buf[..0]) == 0;
    } else {
      var n := |rest| - 1;
      assert buf[..|buf| - 1] == [b] + rest[..n];
      BytesCons(b, rest[..n]);
      assert (b * Pow256(n)) * 256 == b * (256 * Pow256(n));
    }
  }

  /** Equal length and equal number mean equal strings. */
  lemma {:induction false} BytesUnique(x: seq<Byte>, y: seq<Byte>)
    requires |x| == |y| && BytesVal(x) == BytesVal(y)
    ensures x == y
  {
    if x != [] {
      var n := |x| - 1;
      DivUnique(BytesVal(x), 256, BytesVal(x[..n]), x[n]);
      DivUnique(BytesVal(y), 256, BytesVal(y[..n]), y[n]);
      BytesUnique(x[..n], y[..n]);
      assert x == x[..n] + [x[n]] && y == y[..n] + [y[n]];
    }
  }

  // ---------------------------------------------------------------- import

  /** Everything below byte position k is zero; the word that k cuts is h times 256^(k % 8). */
  ghost predicate LowClear(ws: seq<Word>, k: nat, h: nat) {
    && k <= 8 * |ws|
    && (forall j :: 0 <= j < k / 8 ==> ws[j] == 0)
    && (k % 8 != 0 ==> ws[k / 8] == h * Pow256(k % 8))
  }

  /** words[p / 8] |= byte << (8 * (p % 8)), when position p is still empty. */
  function OrByte(w: Word, b: Byte, k: nat, ghost h: nat): (r: Word)
    requires k < 8 && w == h * Pow256(k + 1)
    ensures r == w + b * Pow256(k)
    ensures r == (h * 256 + b) * Pow256(k)
  {
    OrByteFits(w, b, k, h);
    Or(w, Shl(b, 8 * k, 64))
  }

  lemma OrByteFits(w: Word, b: Byte, k: nat, h: nat)
    requires k < 8 && w == h * Pow256(k + 1)
    ensures Shl(b, 8 * k, 64) == b * Pow256(k)
    ensures Or(w, b * Pow256(k)) == w + b * Pow256(k) == (h * 256 + b) * Pow256(k) < BASE
  {
    var p := Pow256(k);
    ByteSplit(k);
    ByteRoom(h, b, p, 256 * p, Pow256(7 - k));
    ShlByte(b, k);
    assert Or(h * Pow256(k + 1), b * p) == h * Pow256(k + 1) + b * p by {
      Pow256Is(k + 1);
      OrDisjoint(h, b * p, 8 * (k + 1));
    }
  }

  lemma ByteSplit(k: nat)
    requires k < 8
    ensures (256 * Pow256(k)) * Pow256(7 - k) == BASE && Pow256(8) == BASE
  {
    Pow256Add(k + 1, 7 - k);
    Pow256Is(8);
    assert Pow2(64) == BASE by { Powers(); }
  }

  lemma ByteRoom(h: nat, b: Byte, p: nat, P: nat, t: nat)
    requires p > 0 && P == 256 * p && P * t == BASE && h * P < BASE
    ensures b * p < P && h * P + b * p < BASE && h * P + b * p == (h * 256 + b) * p
  {
    MulStrict(p, b, 256);
    if h >= t {
      MulMono(P, t, h);
      assert false;
    }
    MulStrict(P, h, t);
    DistributeRight(h * 256, b, p);
    MulAssoc(h, 256, p);
  }

  lemma ShlByte(b: Byte, k: nat)
    requires k < 8 && b * Pow256(k) < BASE
    ensures Shl(b, 8 * k, 64) == b * Pow256(k)
  {
    Pow256Is(k);
    assert Pow2(64) == BASE by { Powers(); }
    ShlIs(b, 8 * k, Pow256(k));
  }

  lemma ShlIs(b: nat, n: nat, p: nat)
    requires Pow2(n) == p && b * p < BASE == Pow2(64)
    ensures Shl(b, n, 64) == b * p
  {
    ModSmall(b * p, BASE);
  }

  /** The place value of byte k of word j. */
  lemma BytePlace(b: Byte, j: nat, k: nat)
    ensures Scaled(b * Pow256(k), j) == b * Pow256(8 * j + k)
  {
    PowIs256(j);
    Pow256Add(8 * j, k);
    var p, q := Pow256(8 * j), Pow256(k);
    assert (b * q) * p == b * (p * q);
  }

  /** Filling position p = 8 * j + k. */
  lemma ImportStep(ws: seq<Word>, b: Byte, j: nat, k: nat, h: nat, r: Word)
    requires j < |ws| && k < 8 && LowClear(ws, 8 * j + k + 1, h)
    requires r == (if k == 7 then 0 else h) * 256 * Pow256(k) + b * Pow256(k)
    ensures ws[j] == (if k == 7 then 0 else h) * Pow256(k + 1)
    ensures LowClear(ws[j := r], 8 * j + k, (if k == 7 then 0 else h) * 256 + b)
    ensures Sum(ws[j := r], |ws|) == Sum(ws, |ws|) + b * Pow256(8 * j + k)
  {
    var h' := if k == 7 then 0 else h;
    var p := 8 * j + k;
    assert p / 8 == j && p % 8 == k;
    if k == 7 {
      assert (p + 1) / 8 == j + 1;
      assert ws[j] == 0;
    } else {
      assert (p + 1) / 8 == j && (p + 1) % 8 == k + 1;
    }
    MulAssoc(h', 256, Pow256(k));
    assert r == ws[j] + b * Pow256(k);
    SumUpdate(ws, j, r, |ws|);
    ScaledAdd(ws[j], b * Pow256(k), j);
    BytePlace(b, j, k);
    DistributeRight(h' * 256, b, Pow256(k));
  }

  lemma NextBytes(buf: seq<Byte>, i: nat)
    requires i < |buf|
    ensures BytesVal(buf[..i + 1]) == BytesVal(buf[..i]) * 256 + buf[i]
    ensures BytesVal(buf[..i]) * Pow256(|buf| - i) + buf[i] * Pow256(|buf| - i - 1)
         == BytesVal(buf[..i + 1]) * Pow256(|buf| - i - 1)
  {
    assert buf[..i + 1][..i] == buf[..i];
    var v, q := BytesVal(buf[..i]), Pow256(|buf| - i - 1);
    assert Pow256(|buf| - i) == 256 * q;
    MulAssoc(v, 256, q);
    DistributeRight(v * 256, buf[i], q);
  }

  /** words[p / 8] |= b << (8 * (p % 8)) */
  method PutByte(bn: Bn, p: nat, b: Byte, ghost h: nat) returns (ghost h': nat)
    requires LowClear(bn.words, p + 1, h)
    modifies bn`words
    ensures LowClear(bn.words, p, h') && bn.Val() == old(bn.Val()) + b * Pow256(p)
  {
    var wordIdx := p / 8;
    var byteIdx := p % 8;
    ghost var above := if byteIdx == 7 then 0 else h;
    ImportWord(bn.words, wordIdx, byteIdx, h);
    var r := OrByte(bn.words[wordIdx], b, byteIdx, above);
    MulAssoc(above, 256, Pow256(byteIdx));
    ImportStep(bn.words, b, wordIdx, byteIdx, h, r);
    bn.words := bn.words[wordIdx := r];
    h' := above * 256 + b;
  }

  /** Import a big-endian byte string of any length. */
  method FromBytes(bn: Bn, buf: seq<Byte>)
    modifies bn
    ensures bn.Valid() && bn.Val() == BytesVal(buf)
  {
    var len := |buf|;
    bn.Ensure((len + 7) / 8);
    bn.words := Zeros(|bn.words|);
    SumZeros(bn.words, 0, |bn.words|);
    ghost var h: nat := 0;
    for i := 0 to len
      invariant LowClear(bn.words, len - i, h)
      invariant bn.Val() == BytesVal(buf[..i]) * Pow256(len - i)
    {
      NextBytes(buf, i);
      h := PutByte(bn, len - 1 - i, buf[i], h);
    }
    assert buf[..len] == buf;
    assert Pow256(0) == 1;
    bn.FixTop();
  }

  lemma ImportWord(ws: seq<Word>, j: nat, k: nat, h: nat)
    requires k < 8 && LowClear(ws, 8 * j + k + 1, h)
    ensures j < |ws| && ws[j] == (if k == 7 then 0 else h) * Pow256(k + 1)
  {
    if k == 7 {
      assert (8 * j + k + 1) / 8 == j + 1;
    } else {
      assert (8 * j + k + 1) / 8 == j && (8 * j + k + 1) % 8 == k + 1;
    }
  }

  // ---------------------------------------------------------------- bit and byte counts

  /** The number of significant bits: the value lies between two powers of two. */
  method BitCount(bn: Bn) returns (bits: nat)
    requires bn.Valid()
    ensures bn.Val() < Pow2(bits) && (bn.Val() > 0 ==> bits > 0 && Pow2(bits - 1) <= bn.Val())
    ensures bits <= 64 * bn.top
  {
    Significant(bn);
    if bn.top == 0 {
      return 0;
    }
    var n := bn.top - 1;
    bits := n * 64;
    var w := bn.words[n];
    var topWord: nat := w;
    ghost var k: nat := 0;
    while topWord != 0
      invariant bits == n * 64 + k && topWord == w / Pow2(k) && (k == 0 || w / Pow2(k - 1) > 0)
      decreases topWord
    {
      bits := bits + 1;
      DivDiv(w, Pow2(k), 2);
      assert Pow2(k) * 2 == Pow2(k + 1);
      topWord := topWord / 2;
      k := k + 1;
    }
    WordBits(w, k);
    TopBits(bn.words, n, k);
  }

  lemma WordBits(w: Word, k: nat)
    requires w > 0 && w / Pow2(k) == 0 && (k == 0 || w / Pow2(k - 1) > 0)
    ensures 0 < k <= 64 && Pow2(k - 1) <= w < Pow2(k)
  {
    var p := Pow2(k);
    assert w == p * (w / p) + w % p;
    if k > 0 {
      var q := Pow2(k - 1);
      assert w == q * (w / q) + w % q;
      MulMono(q, 1, w / q);
      if k > 64 {
        Pow2Mono(64, k - 1);
        assert Pow2(64) == BASE by { Powers(); }
        assert false;
      }
    }
  }

  /** Bits of a number from the bits of its top word. */
  lemma TopBits(ws: seq<Word>, n: nat, k: nat)
    requires n < |ws| && 0 < k && Pow2(k - 1) <= ws[n] < Pow2(k)
    ensures Pow2(n * 64 + k - 1) <= Sum(ws, n + 1) < Pow2(n * 64 + k)
  {
    SumBound(ws, n);
    PowIsPow2(n);
    Pow2Add(n * 64, k);
    Pow2Add(n * 64, k - 1);
    MulMono(Pow(n), Pow2(k - 1), ws[n]);
    MulStrict(Pow(n), ws[n], Pow2(k));
  }

  method ByteCount(bn: Bn) returns (bytes: nat)
    requires bn.Valid()
    ensures bn.Val() < Pow256(bytes) && bytes <= 8 * bn.top
  {
    var bits := BitCount(bn);
    bytes := (bits + 7) / 8;
    Pow256Is(bytes);
    Pow2Mono(bits, 8 * bytes);
  }

  // ---------------------------------------------------------------- export

  /** Byte k of word j is byte 8 * j + k of the number. */
  lemma WordByte(ws: seq<Word>, j: nat, k: nat)
    requires j < |ws| && k < 8
    ensures ws[j] / Pow256(k) % 256 == Sum(ws, |ws|) / Pow256(8 * j + k) % 256
  {
    var v := Sum(ws, |ws|);
    var high := Sum(ws[j..], |ws| - j);
    HighWords(ws, |ws|, j, 0);
    assert Pow2(0) == 1;
    assert high == v / Pow(j);
    SumCons(ws, j, |ws| - j - 1);
    var rest := Sum(ws[j + 1..], |ws| - j - 1);
    PowIs256(j);
    Pow256Add(8 * j, k);
    DivDiv(v, Pow256(8 * j), Pow256(k));
    ByteSplit(k);
    DropAbove(ws[j], rest, Pow256(k), Pow256(7 - k));
  }

  /** Words above do not reach a byte inside this word. */
  lemma DropAbove(w: nat, rest: nat, p: nat, t: nat)
    requires p > 0 && (256 * p) * t == BASE
    ensures (w + BASE * rest) / p % 256 == w / p % 256
  {
    var q, r, m := w / p, w % p, t * rest;
    MulAssoc(256 * p, t, rest);
    MulSwap(p, m);
    assert w == p * q + r;
    Distribute(p, q, 256 * m);
    DivUnique(w + BASE * rest, p, q + 256 * m, r);
  }

  lemma MulSwap(p: nat, m: nat)
    ensures (256 * p) * m == p * (256 * m)
  {
  }

  /** The last i bytes spell the number modulo 256 to the i; the others are still 0. */
  ghost predicate Exported(buf: seq<Byte>, i: nat, v: nat) {
    && i <= |buf| && (forall j :: 0 <= j < |buf| - i ==> buf[j] == 0)
    && BytesVal(buf[|buf| - i..]) == v % Pow256(i)
  }

  lemma ExportStep(buf: seq<Byte>, i: nat, b: Byte, v: nat)
    requires i < |buf| && Exported(buf, i, v) && b == v / Pow256(i) % 256
    ensures Exported(buf[|buf| - 1 - i := b], i + 1, v)
  {
    var tail := buf[|buf| - i..];
    assert buf[|buf| - 1 - i := b][|buf| - (i + 1)..] == [b] + tail;
    BytesCons(b, tail);
    NextRemainder(v, i, b);
  }

  lemma NextRemainder(v: nat, i: nat, b: nat)
    requires b == v / Pow256(i) % 256
    ensures v % Pow256(i + 1) == b * Pow256(i) + v % Pow256(i)
  {
    ModSplit(v, Pow256(i), 256);
  }

  lemma ByteInWords(i: nat, all: nat, top: nat)
    requires i < all <= 8 * top
    ensures i / 8 < top && 8 * (i / 8) + i % 8 == i
  {
  }

  /** One turn of the export loop: the byte taken from its word is the byte of the number. */
  lemma ExportByte(ws: seq<Word>, top: nat, all: nat, buf: seq<Byte>, i: nat, b: Byte)
    requires i < all <= 8 * top && top <= |ws| && i < |buf| && Exported(buf, i, Sum(ws, |ws|))
    requires i / 8 < |ws| && b == ws[i / 8] / Pow256(i % 8) % 256
    ensures Exported(buf[|buf| - 1 - i := b], i + 1, Sum(ws, |ws|))
  {
    ByteInWords(i, all, top);
    WordByte(ws, i / 8, i % 8);
    ExportStep(buf, i, b, Sum(ws, |ws|));
  }

  lemma NoneExported(len: nat, v: nat)
    ensures Exported(seq(len, _ => 0), 0, v)
  {
    assert Pow256(0) == 1;
  }

  /** Export to `len` big-endian bytes; a number that is too long loses its high bytes. */
  method ToBytes(bn: Bn, len: nat) returns (buf: seq<Byte>)
    requires bn.Valid()
    ensures |buf| == len && BytesVal(buf) == bn.Val() % Pow256(len)
  {
    buf := seq(len, _ => 0);
    var count := ByteCount(bn);
    ghost var all := count;
    if count > len {
      count := len;
    }
    NoneExported(len, bn.Val());
    for i := 0 to count
      invariant |buf| == len && Exported(buf, i, bn.Val())
    {
      var wordIdx := i / 8;
      var byteIdx := i % 8;
      ByteInWords(i, all, bn.top);
      var b := ExtractByte(bn.words[wordIdx], byteIdx);
      ExportByte(bn.words, bn.top, all, buf, i, b);
      buf := buf[len - 1 - i := b];
    }
    ExportDone(buf, count, all, bn.Val());
  }

  /** (w >> (8 * k)) & 0xFF */
  function ExtractByte(w: Word, k: nat): (b: Byte)
    requires k < 8
    ensures b == w / Pow256(k) % 256
  {
    Pow256Is(k);
    assert Pow2(8) == 256 by { Powers(); }
    AndMask(Shr(w, 8 * k), 8);
    And(Shr(w, 8 * k), 0xFF)
  }

  lemma {:induction false} LeadingZeros(buf: seq<Byte>, n: nat)
    requires n <= |buf| && forall j :: 0 <= j < n ==> buf[j] == 0
    ensures BytesVal(buf) == BytesVal(buf[n..])
  {
    if n == 0 {
      assert buf[0..] == buf;
    } else {
      BytesCons(0, buf[1..]);
      assert buf == [0] + buf[1..];
      LeadingZeros(buf[1..], n - 1);
      assert buf[1..][n - 1..] == buf[n..];
    }
  }

  lemma ExportDone(buf: seq<Byte>, count: nat, all: nat, v: nat)
    requires Exported(buf, count, v) && (count == |buf| || count == all) && v < Pow256(all)
    ensures BytesVal(buf) == v % Pow256(|buf|)
  {
    LeadingZeros(buf, |buf| - count);
    if count != |buf| {
      ModSmall(v, Pow256(count));
      Pow256Mono(count, |buf|);
      ModSmall(v, Pow256(|buf|));
    } else {
      assert buf[0..] == buf;
    }
  }

  lemma {:induction false} Pow256Mono(m: nat, n: nat)
    requires m <= n
    ensures Pow256(m) <= Pow256(n)
  {
    if m < n {
      Pow256Mono(m, n - 1);
    }
  }

  /** Export undoes import at the same length. */
  method ImportExport(buf: seq<Byte>) returns (out: seq<Byte>)
    ensures out == buf
  {
    var bn := new Bn();
    FromBytes(bn, buf);
    out := ToBytes(bn, |buf|);
    BytesBound(buf);
    DivUnique(BytesVal(buf), Pow256(|buf|), 0, BytesVal(buf));
    BytesUnique(out, buf);
  }

  /** Import undoes export when the bytes are enough for the number. */
  method ExportImport(bn: Bn, len: nat) returns (out: Bn)
    requires bn.Valid()
    ensures fresh(out) && out.Valid() && (out.Val() == bn.Val() <==> bn.Val() < Pow256(len))
  {
    var buf := ToBytes(bn, len);
    out := new Bn();
    FromBytes(out, buf);
    BytesBound(buf);
    if bn.Val() < Pow256(len) {
      DivUnique(bn.Val(), Pow256(len), 0, bn.Val());
    }
  }
}
