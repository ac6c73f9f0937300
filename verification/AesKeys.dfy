// The key schedules of aes128.c:22-46, aes192.c:22-51 and aes256.c:62-93 under
// kernel/crypto: one recurrence with three key lengths.
//
// `ScheduleIsStandard` compares it with the KeyExpansion of section 5.2 of
// FIPS-197: they agree on every key of 128 and 256 bits and differ on every key
// of 192 bits, where the source substitutes a word the standard leaves alone.
module AesKeys {
  import opened Values
  import opened Words
  import opened AesCipher

  datatype KeySize = Aes128 | Aes192 | Aes256 {
    function Words(): nat {
      match this
      case Aes128 => 4
      case Aes192 => 6
      case Aes256 => 8
    }

    function Rounds(): Rounds {
      match this
      case Aes128 => 10
      case Aes192 => 12
      case Aes256 => 14
    }
  }

  const RCON: seq<bv8> := [0x00, 0x01, 0x02, 0x04, 0x08, 0x10, 0x20, 0x40, 0x80, 0x1b, 0x36]

  function XorWord(a: bv32, b: bv32): bv32 { a ^ b }

  function RotWord(w: bv32): bv32 {
    (w << 8) | (w >> 24)
  }

  function SubWord(sub: bv8 -> bv8, w: bv32): bv32 {
    BigEndian(sub(WordByte(w, 0)), sub(WordByte(w, 1)), sub(WordByte(w, 2)), sub(WordByte(w, 3)))
  }

  // The constant added at a multiple of the key length.
  function RoundConstant(n: nat): bv32 {
    if n < |RCON| then (RCON[n] as bv32) << 24 else 0
  }

  // What the source turns word i - 1 into before adding it to word i - nk.
  datatype Source = Source(sub: bv8 -> bv8, nk: nat) {
    function Stir(i: nat, w: bv32): bv32 {
      if nk == 0 then w
      else if i % nk == 0 then XorWord(SubWord(sub, RotWord(w)), RoundConstant(i / nk))
      else if i % nk == 4 then SubWord(sub, w)
      else w
    }
  }

  // What the standard turns it into.
  datatype Standard = Standard(sub: bv8 -> bv8, nk: nat) {
    function Stir(i: nat, w: bv32): bv32 {
      if nk == 0 then w
      else if i % nk == 0 then XorWord(SubWord(sub, RotWord(w)), RoundConstant(i / nk))
      else if nk > 6 && i % nk == 4 then SubWord(sub, w)
      else w
    }
  }

  // Word i of the schedule that starts with the given words.
  function KeyWord(stir: (nat, bv32) -> bv32, first: seq<bv32>, i: nat): bv32
    requires |first| > 0
  {
    if i < |first| then first[i]
    else XorWord(KeyWord(stir, first, i - |first|), stir(i, KeyWord(stir, first, i - 1)))
  }

  // The key as big-endian words.
  function FirstWords(key: seq<bv8>, nk: nat): seq<bv32>
    requires |key| == 4 * nk
  {
    seq(nk, i requires 0 <= i < nk => BigEndian(key[4 * i], key[4 * i + 1], key[4 * i + 2], key[4 * i + 3]))
  }

  // The expanded key.
  function Expanded(sub: bv8 -> bv8, key: seq<bv8>, size: KeySize): seq<bv32>
    requires |key| == 4 * size.Words()
  {
    seq(4 * (size.Rounds() + 1), i requires 0 <= i =>
      KeyWord(Source(sub, size.Words()).Stir, FirstWords(key, size.Words()), i))
  }

  method StirWord(sub: bv8 -> bv8, nk: nat, i: nat, w: bv32) returns (temp: bv32)
    requires nk > 0
    ensures temp == Source(sub, nk).Stir(i, w)
  {
    temp := w;
    if i % nk == 0 {
      temp := RotWord(temp);
      temp := SubWord(sub, temp);
      temp := XorWord(temp, RoundConstant(i / nk));
    } else if i % nk == 4 {
      temp := SubWord(sub, temp);
    }
  }

  method LoadKey(key: array<bv8>, nk: nat, roundKeys: array<bv32>)
    requires key.Length == 4 * nk && nk <= roundKeys.Length
    modifies roundKeys
    ensures Same(roundKeys[..nk], FirstWords(key[..], nk))
  {
    for i := 0 to nk
      invariant forall j :: 0 <= j < i ==> roundKeys[j] == FirstWords(key[..], nk)[j]
    {
      roundKeys[i] := BigEndian(key[4 * i], key[4 * i + 1], key[4 * i + 2], key[4 * i + 3]);
    }
    assert roundKeys[..nk] == FirstWords(key[..], nk);
  }

  method ExtendKey(sub: bv8 -> bv8, nk: nat, roundKeys: array<bv32>, ghost first: seq<bv32>)
    requires 0 < nk <= roundKeys.Length && Same(roundKeys[..nk], first)
    modifies roundKeys
    ensures forall j: nat :: j < roundKeys.Length ==> roundKeys[j] == KeyWord(Source(sub, nk).Stir, first, j)
  {
    ghost var stir := Source(sub, nk).Stir;
    for i := nk to roundKeys.Length
      invariant forall j: nat :: j < i ==> roundKeys[j] == KeyWord(stir, first, j)
    {
      var temp := StirWord(sub, nk, i, roundKeys[i - 1]);
      roundKeys[i] := XorWord(roundKeys[i - nk], temp);
      assert roundKeys[i] == KeyWord(stir, first, i);
    }
  }

  method ExpandKey(sub: bv8 -> bv8, key: array<bv8>, size: KeySize, roundKeys: array<bv32>)
    requires key.Length == 4 * size.Words() && roundKeys.Length == 4 * (size.Rounds() + 1)
    modifies roundKeys
    ensures Same(roundKeys[..], Expanded(sub, key[..], size))
  {
    LoadKey(key, size.Words(), roundKeys);
    ExtendKey(sub, size.Words(), roundKeys, FirstWords(key[..], size.Words()));
    assert roundKeys[..] == Expanded(sub, key[..], size);
  }

  // The table rcon is never read beyond its end.
  lemma RoundConstantInTable(size: KeySize, i: nat)
    requires size.Words() <= i < 4 * (size.Rounds() + 1)
    ensures i / size.Words() < |RCON|
  {}

  // ------------------------------------------------------------------------
  // The schedule of the standard
  // ------------------------------------------------------------------------

  lemma {:induction false} SchedulesAgree(f: (nat, bv32) -> bv32, g: (nat, bv32) -> bv32, first: seq<bv32>, i: nat)
    requires |first| > 0
    requires forall j: nat, w :: |first| <= j <= i ==> f(j, w) == g(j, w)
    ensures KeyWord(f, first, i) == KeyWord(g, first, i)
  {
    if i < |first| {
    } else {
      SchedulesAgree(f, g, first, i - |first|);
      SchedulesAgree(f, g, first, i - 1);
    }
  }

  lemma XorWordDiffers(a: bv32, b: bv32, c: bv32)
    requires b != c
    ensures XorWord(a, b) != XorWord(a, c)
  {}

  lemma SubWordMoves(sub: bv8 -> bv8, w: bv32)
    requires forall x :: sub(x) != x
    ensures SubWord(sub, w) != w
  {
    BytesOfWord(sub(WordByte(w, 0)), sub(WordByte(w, 1)), sub(WordByte(w, 2)), sub(WordByte(w, 3)));
  }

  lemma SixDeparts(sub: bv8 -> bv8, first: seq<bv32>)
    requires |first| == 6 && forall x :: sub(x) != x
    ensures KeyWord(Source(sub, 6).Stir, first, 10) != KeyWord(Standard(sub, 6).Stir, first, 10)
  {
    var f, g := Source(sub, 6).Stir, Standard(sub, 6).Stir;
    SchedulesAgree(f, g, first, 9);
    var w := KeyWord(f, first, 9);
    SubWordMoves(sub, w);
    XorWordDiffers(first[4], SubWord(sub, w), w);
  }

  ghost predicate AgreesWithStandard(sub: bv8 -> bv8, key: seq<bv8>, size: KeySize)
    requires |key| == 4 * size.Words()
  {
    var stir, first := Standard(sub, size.Words()).Stir, FirstWords(key, size.Words());
    forall i: nat :: i < 4 * (size.Rounds() + 1) ==> Expanded(sub, key, size)[i] == KeyWord(stir, first, i)
  }

  // The source's expanded key is the standard's, exactly for 128 and 256 bits.
  lemma ScheduleIsStandard(sub: bv8 -> bv8, key: seq<bv8>, size: KeySize)
    requires |key| == 4 * size.Words() && forall x :: sub(x) != x
    ensures AgreesWithStandard(sub, key, size) <==> size != Aes192
  {
    var first := FirstWords(key, size.Words());
    if size == Aes192 {
      SixDeparts(sub, first);
      assert Expanded(sub, key, size)[10] == KeyWord(Source(sub, 6).Stir, first, 10);
    } else {
      forall i: nat
        ensures KeyWord(Source(sub, size.Words()).Stir, first, i) == KeyWord(Standard(sub, size.Words()).Stir, first, i)
      {
        SchedulesAgree(Source(sub, size.Words()).Stir, Standard(sub, size.Words()).Stir, first, i);
      }
    }
  }
}
