/** 32-bit words as four bytes, the most significant first, as AES and SHA-256 store them, and
    bytes as numbers. */
module Words {

  function BigEndian(a: bv8, b: bv8, c: bv8, d: bv8): bv32 {
    ((a as bv32) << 24) | ((b as bv32) << 16) | ((c as bv32) << 8) | (d as bv32)
  }

  /** Byte r of a word, counted from the most significant. */
  function WordByte(w: bv32, r: nat): bv8 {
    if r == 0 then ((w >> 24) & 0xff) as bv8
    else if r == 1 then ((w >> 16) & 0xff) as bv8
    else if r == 2 then ((w >> 8) & 0xff) as bv8
    else (w & 0xff) as bv8
  }

  /** Splitting undoes joining. */
  lemma BytesOfWord(a: bv8, b: bv8, c: bv8, d: bv8)
    ensures WordByte(BigEndian(a, b, c, d), 0) == a && WordByte(BigEndian(a, b, c, d), 1) == b
    ensures WordByte(BigEndian(a, b, c, d), 2) == c && WordByte(BigEndian(a, b, c, d), 3) == d
  {
  }

  /** Joining undoes splitting. */
  lemma WordOfBytes(w: bv32)
    ensures BigEndian(WordByte(w, 0), WordByte(w, 1), WordByte(w, 2), WordByte(w, 3)) == w
  {
  }

  /** The low byte of a number. */
  function Low8(x: nat): bv8 { (x % 256) as bv8 }

  lemma NextByte(b: bv8)
    requires b < 255
    ensures (b + 1) as nat == b as nat + 1
  {
  }

  /** Every number below 256 is the value of a byte. */
  lemma {:induction false} SomeByte(k: nat) returns (b: bv8)
    requires k < 256
    ensures b as nat == k
  {
    if k == 0 {
      b := 0;
    } else {
      b := SomeByte(k - 1);
      NextByte(b);
      b := b + 1;
    }
  }

  lemma ByteOfValue(b: bv8)
    ensures (b as nat) as bv8 == b
  {
  }

  lemma ByteOfByte(k: nat)
    requires k < 256
    ensures (k as bv8) as nat == k
  {
    var b := SomeByte(k);
    ByteOfValue(b);
  }
}
