// The transformations of one AES round on a block of sixteen bytes
// (kernel/crypto/aes256.c, sub_bytes to inv_mix_columns, shared by the three
// key sizes): what each computes, the in-place loop that computes it, and that
// each inverse transformation undoes its partner.
//
// The byte substitution is a parameter: everything holds for any pair of
// substitutions of which the second inverts the first.
module AesRound {
  import opened Gf256
  import opened Words

  type Block = s: seq<bv8> | |s| == 16 witness seq(16, i => 0)

  datatype Box = Box(sub: bv8 -> bv8, inv: bv8 -> bv8)

  ghost predicate Inverse(box: Box) {
    forall x :: box.inv(box.sub(x)) == x
  }

  // ------------------------------------------------------------------------
  // What the transformations compute
  // ------------------------------------------------------------------------

  function Substitute(f: bv8 -> bv8, s: Block): Block {
    seq(16, i requires 0 <= i < 16 => f(s[i]))
  }

  // Row r of the block, the bytes at r, r + 4, r + 8 and r + 12, moves left by r.
  function ShiftRows(s: Block): Block {
    seq(16, i requires 0 <= i < 16 => s[(i + 4 * (i % 4)) % 16])
  }

  function UnshiftRows(s: Block): Block {
    seq(16, i requires 0 <= i < 16 => s[(i + 16 - 4 * (i % 4)) % 16])
  }

  function Column(s: Block, c: nat): Quad
    requires c < 4
  {
    Quad(s[4 * c], s[4 * c + 1], s[4 * c + 2], s[4 * c + 3])
  }

  function Entry(q: Quad, r: nat): bv8 {
    if r == 0 then q.a else if r == 1 then q.b else if r == 2 then q.c else q.d
  }

  // The block whose every column is the image of that column.
  function Columns(f: Quad -> Quad, s: Block): Block {
    seq(16, i requires 0 <= i < 16 => Entry(f(Column(s, i / 4)), i % 4))
  }

  function MixColumns(s: Block): Block {
    Columns(MixColumn, s)
  }

  function UnmixColumns(s: Block): Block {
    Columns(UnmixColumn, s)
  }

  function AddRoundKey(s: Block, k: seq<bv32>): Block
    requires |k| == 4
  {
    seq(16, i requires 0 <= i < 16 => Xor(s[i], WordByte(k[i / 4], i % 4)))
  }

  // ------------------------------------------------------------------------
  // Each inverse undoes its partner
  // ------------------------------------------------------------------------

  lemma SubstituteBack(box: Box, s: Block)
    requires Inverse(box)
    ensures Substitute(box.inv, Substitute(box.sub, s)) == s
  {
    var t := Substitute(box.inv, Substitute(box.sub, s));
    forall i | 0 <= i < 16
      ensures t[i] == s[i]
    {
      assert t[i] == box.inv(box.sub(s[i]));
    }
  }

  lemma RotateBack(i: nat)
    requires i < 16
    ensures ((i + 16 - 4 * (i % 4)) % 16 + 4 * ((i + 16 - 4 * (i % 4)) % 16 % 4)) % 16 == i
  {}

  lemma UnshiftShift(s: Block)
    ensures UnshiftRows(ShiftRows(s)) == s
  {
    var t := UnshiftRows(ShiftRows(s));
    forall i | 0 <= i < 16
      ensures t[i] == s[i]
    {
      RotateBack(i);
    }
  }

  lemma ColumnOfColumns(f: Quad -> Quad, s: Block, c: nat)
    requires c < 4
    ensures Column(Columns(f, s), c) == f(Column(s, c))
  {
    assert (4 * c) / 4 == c && (4 * c + 1) / 4 == c && (4 * c + 2) / 4 == c && (4 * c + 3) / 4 == c;
  }

  lemma ColumnEntry(s: Block, i: nat)
    requires i < 16
    ensures Entry(Column(s, i / 4), i % 4) == s[i]
  {
    assert i == 4 * (i / 4) + i % 4;
  }

  lemma ColumnsBack(f: Quad -> Quad, g: Quad -> Quad, s: Block)
    requires forall q :: g(f(q)) == q
    ensures Columns(g, Columns(f, s)) == s
  {
    var t := Columns(g, Columns(f, s));
    forall i | 0 <= i < 16
      ensures t[i] == s[i]
    {
      ColumnOfColumns(f, s, i / 4);
      ColumnEntry(s, i);
    }
  }

  lemma UnmixMixColumns(s: Block)
    ensures UnmixColumns(MixColumns(s)) == s
  {
    forall q
      ensures UnmixColumn(MixColumn(q)) == q
    {
      UnmixMix(q);
    }
    ColumnsBack(MixColumn, UnmixColumn, s);
  }

  lemma AddTwice(s: Block, k: seq<bv32>)
    requires |k| == 4
    ensures AddRoundKey(AddRoundKey(s, k), k) == s
  {
    var t := AddRoundKey(AddRoundKey(s, k), k);
    forall i | 0 <= i < 16
      ensures t[i] == s[i]
    {
      XorCancel(s[i], WordByte(k[i / 4], i % 4));
    }
  }
}
