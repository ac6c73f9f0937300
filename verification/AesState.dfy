// The round transformations as the source runs them: loops and rotations that
// overwrite the sixteen bytes of the state (kernel/crypto/aes256.c).  Each
// method is proved to leave in the state what AesRound says it computes.
module AesState {
  import opened Gf256
  import opened Words
  import opened AesRound

  method SubstituteBytes(f: bv8 -> bv8, state: array<bv8>)
    requires state.Length == 16
    modifies state
    ensures state[..] == Substitute(f, old(state[..]))
  {
    for i := 0 to 16
      invariant forall j :: 0 <= j < i ==> state[j] == f(old(state[j]))
      invariant forall j :: i <= j < 16 ==> state[j] == old(state[j])
    {
      state[i] := f(state[i]);
    }
  }

  lemma ShiftAt(s: Block, i: nat, j: nat)
    requires i < 16 && j == (i + 4 * (i % 4)) % 16
    ensures ShiftRows(s)[i] == s[j]
  {}

  lemma UnshiftAt(s: Block, i: nat, j: nat)
    requires i < 16 && j == (i + 16 - 4 * (i % 4)) % 16
    ensures UnshiftRows(s)[i] == s[j]
  {}

  lemma RotatedRows(s: Block, t: Block)
    requires t[0] == s[0] && t[4] == s[4] && t[8] == s[8] && t[12] == s[12]
    requires t[1] == s[5] && t[5] == s[9] && t[9] == s[13] && t[13] == s[1]
    requires t[2] == s[10] && t[6] == s[14] && t[10] == s[2] && t[14] == s[6]
    requires t[3] == s[15] && t[7] == s[3] && t[11] == s[7] && t[15] == s[11]
    ensures t == ShiftRows(s)
  {
    ShiftAt(s, 0, 0); ShiftAt(s, 1, 5); ShiftAt(s, 2, 10); ShiftAt(s, 3, 15);
    ShiftAt(s, 4, 4); ShiftAt(s, 5, 9); ShiftAt(s, 6, 14); ShiftAt(s, 7, 3);
    ShiftAt(s, 8, 8); ShiftAt(s, 9, 13); ShiftAt(s, 10, 2); ShiftAt(s, 11, 7);
    ShiftAt(s, 12, 12); ShiftAt(s, 13, 1); ShiftAt(s, 14, 6); ShiftAt(s, 15, 11);
    assert t == ShiftRows(s);
  }

  method RotateRows(state: array<bv8>)
    requires state.Length == 16
    modifies state
    ensures state[..] == ShiftRows(old(state[..]))
  {
    var temp := state[1];
    state[1] := state[5];
    state[5] := state[9];
    state[9] := state[13];
    state[13] := temp;

    temp := state[2];
    state[2] := state[10];
    state[10] := temp;
    temp := state[6];
    state[6] := state[14];
    state[14] := temp;

    temp := state[3];
    state[3] := state[15];
    state[15] := state[11];
    state[11] := state[7];
    state[7] := temp;
    RotatedRows(old(state[..]), state[..]);
  }

  lemma UnrotatedRows(s: Block, t: Block)
    requires t[0] == s[0] && t[4] == s[4] && t[8] == s[8] && t[12] == s[12]
    requires t[1] == s[13] && t[5] == s[1] && t[9] == s[5] && t[13] == s[9]
    requires t[2] == s[10] && t[6] == s[14] && t[10] == s[2] && t[14] == s[6]
    requires t[3] == s[7] && t[7] == s[11] && t[11] == s[15] && t[15] == s[3]
    ensures t == UnshiftRows(s)
  {
    UnshiftAt(s, 0, 0); UnshiftAt(s, 1, 13); UnshiftAt(s, 2, 10); UnshiftAt(s, 3, 7);
    UnshiftAt(s, 4, 4); UnshiftAt(s, 5, 1); UnshiftAt(s, 6, 14); UnshiftAt(s, 7, 11);
    UnshiftAt(s, 8, 8); UnshiftAt(s, 9, 5); UnshiftAt(s, 10, 2); UnshiftAt(s, 11, 15);
    UnshiftAt(s, 12, 12); UnshiftAt(s, 13, 9); UnshiftAt(s, 14, 6); UnshiftAt(s, 15, 3);
    assert t == UnshiftRows(s);
  }

  method UnrotateRows(state: array<bv8>)
    requires state.Length == 16
    modifies state
    ensures state[..] == UnshiftRows(old(state[..]))
  {
    var temp := state[13];
    state[13] := state[9];
    state[9] := state[5];
    state[5] := state[1];
    state[1] := temp;

    temp := state[2];
    state[2] := state[10];
    state[10] := temp;
    temp := state[6];
    state[6] := state[14];
    state[14] := temp;

    temp := state[3];
    state[3] := state[7];
    state[7] := state[11];
    state[11] := state[15];
    state[15] := temp;
    UnrotatedRows(old(state[..]), state[..]);
  }

  method MixOne(s: Quad) returns (q: Quad)
    ensures q == MixColumn(s)
  {
    var a2 := Gmul(2, s.a);
    var b3 := Gmul(3, s.b);
    var b2 := Gmul(2, s.b);
    var c3 := Gmul(3, s.c);
    var c2 := Gmul(2, s.c);
    var d3 := Gmul(3, s.d);
    var a3 := Gmul(3, s.a);
    var d2 := Gmul(2, s.d);
    MulOne(s.a);
    MulOne(s.b);
    MulOne(s.c);
    MulOne(s.d);
    q := Quad(Xor(Xor(Xor(a2, b3), s.c), s.d),
              Xor(Xor(Xor(s.a, b2), c3), s.d),
              Xor(Xor(Xor(s.a, s.b), c2), d3),
              Xor(Xor(Xor(a3, s.b), s.c), d2));
  }

  method WeighedSum(k: Quad, s: Quad) returns (r: bv8)
    ensures r == Dot(k, s)
  {
    var a := Gmul(k.a, s.a);
    var b := Gmul(k.b, s.b);
    var c := Gmul(k.c, s.c);
    var d := Gmul(k.d, s.d);
    r := Xor(Xor(Xor(a, b), c), d);
  }

  method UnmixOne(s: Quad) returns (q: Quad)
    ensures q == UnmixColumn(s)
  {
    var a := WeighedSum(UNMIX0, s);
    var b := WeighedSum(UNMIX1, s);
    var c := WeighedSum(UNMIX2, s);
    var d := WeighedSum(UNMIX3, s);
    q := Quad(a, b, c, d);
  }

  // The first c columns are as in the goal, the others as in s.
  ghost predicate DoneColumns(goal: Block, s: Block, t: Block, c: nat) {
    && (forall j :: 0 <= j < 16 && j < 4 * c ==> t[j] == goal[j])
    && (forall j :: 4 * c <= j < 16 ==> t[j] == s[j])
  }

  lemma NextColumn(goal: Block, s: Block, t: Block, c: nat, u: Block)
    requires c < 4 && DoneColumns(goal, s, t, c)
    requires var q := Column(goal, c); u == t[4 * c := q.a][4 * c + 1 := q.b][4 * c + 2 := q.c][4 * c + 3 := q.d]
    ensures DoneColumns(goal, s, u, c + 1)
  {}

  method StoreColumn(state: array<bv8>, c: nat, q: Quad)
    requires state.Length == 16 && c < 4
    modifies state
    ensures state[..] == old(state[..])[4 * c := q.a][4 * c + 1 := q.b][4 * c + 2 := q.c][4 * c + 3 := q.d]
  {
    state[4 * c] := q.a;
    state[4 * c + 1] := q.b;
    state[4 * c + 2] := q.c;
    state[4 * c + 3] := q.d;
  }

  method MixAll(state: array<bv8>)
    requires state.Length == 16
    modifies state
    ensures state[..] == MixColumns(old(state[..]))
  {
    ghost var s := state[..];
    for c := 0 to 4
      invariant DoneColumns(MixColumns(s), s, state[..], c)
    {
      ghost var t := state[..];
      var q := MixOne(Quad(state[4 * c], state[4 * c + 1], state[4 * c + 2], state[4 * c + 3]));
      assert q == MixColumn(Column(s, c));
      ColumnOfColumns(MixColumn, s, c);
      StoreColumn(state, c, q);
      NextColumn(MixColumns(s), s, t, c, state[..]);
    }
  }

  method UnmixAll(state: array<bv8>)
    requires state.Length == 16
    modifies state
    ensures state[..] == UnmixColumns(old(state[..]))
  {
    ghost var s := state[..];
    for c := 0 to 4
      invariant DoneColumns(UnmixColumns(s), s, state[..], c)
    {
      ghost var t := state[..];
      var q := UnmixOne(Quad(state[4 * c], state[4 * c + 1], state[4 * c + 2], state[4 * c + 3]));
      assert q == UnmixColumn(Column(s, c));
      ColumnOfColumns(UnmixColumn, s, c);
      StoreColumn(state, c, q);
      NextColumn(UnmixColumns(s), s, t, c, state[..]);
    }
  }

  lemma AddedWord(s: Block, k: seq<bv32>, c: nat)
    requires |k| == 4 && c < 4
    ensures Column(AddRoundKey(s, k), c)
         == Add(Column(s, c), Quad(WordByte(k[c], 0), WordByte(k[c], 1), WordByte(k[c], 2), WordByte(k[c], 3)))
  {
    assert (4 * c) / 4 == c && (4 * c + 1) / 4 == c && (4 * c + 2) / 4 == c && (4 * c + 3) / 4 == c;
  }

  method AddKey(state: array<bv8>, k: seq<bv32>)
    requires state.Length == 16 && |k| == 4
    modifies state
    ensures state[..] == AddRoundKey(old(state[..]), k)
  {
    ghost var s := state[..];
    for c := 0 to 4
      invariant DoneColumns(AddRoundKey(s, k), s, state[..], c)
    {
      ghost var t := state[..];
      var w := k[c];
      AddedWord(s, k, c);
      StoreColumn(state, c, Quad(Xor(state[4 * c], WordByte(w, 0)),
                                 Xor(state[4 * c + 1], WordByte(w, 1)),
                                 Xor(state[4 * c + 2], WordByte(w, 2)),
                                 Xor(state[4 * c + 3], WordByte(w, 3))));
      NextColumn(AddRoundKey(s, k), s, t, c, state[..]);
    }
  }
}
