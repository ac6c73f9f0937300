// The six entry points of the AES files (aes128.c, aes192.c and aes256.c under
// kernel/crypto): argument checks, key expansion and chaining over the source's
// own tables, and the round trip between them.
module Aes {
  import opened AesTables
  import opened AesRound
  import opened AesCipher
  import opened AesKeys
  import opened AesBlock
  import opened Values

  function TableBox(): Box {
    Box(Sbox, InvSbox)
  }

  lemma TablesInvert()
    ensures Inverse(TableBox())
  {
    var box := TableBox();
    forall x
      ensures box.inv(box.sub(x)) == x
    {
      InvSboxSbox(x);
    }
  }

  // ------------------------------------------------------------------------
  // What encryption and decryption compute
  // ------------------------------------------------------------------------

  function KeyedCipher(size: KeySize, key: seq<bv8>): Cipher
    requires |key| == 4 * size.Words()
  {
    Cipher(AesSteps(TableBox(), Expanded(TableBox().sub, key, size)), size.Rounds())
  }

  function Encrypted(size: KeySize, key: seq<bv8>, iv: Block, p: seq<bv8>): seq<bv8>
    requires |key| == 4 * size.Words()
  {
    CbcEncrypt(KeyedCipher(size, key).Forth, iv, p)
  }

  function Decrypted(size: KeySize, key: seq<bv8>, iv: Block, c: seq<bv8>): seq<bv8>
    requires |key| == 4 * size.Words()
  {
    CbcDecrypt(KeyedCipher(size, key).Back, iv, c)
  }

  // Decryption recovers every whole number of blocks, for every key of every
  // size and every initial vector.
  lemma DecryptsWhatWasEncrypted(size: KeySize, key: seq<bv8>, iv: Block, p: seq<bv8>)
    requires |key| == 4 * size.Words() && |p| % 16 == 0
    ensures Decrypted(size, key, iv, Encrypted(size, key, iv, p)) == p
  {
    var k := KeyedCipher(size, key);
    TablesInvert();
    AesStepsUndo(TableBox(), Expanded(TableBox().sub, key, size));
    CipherRoundTrip(k, iv, p);
  }

  // The source's key schedule is that of FIPS-197 exactly for 128 and 256 bits.
  lemma SourceScheduleIsStandard(key: seq<bv8>, size: KeySize)
    requires |key| == 4 * size.Words()
    ensures AgreesWithStandard(TableBox().sub, key, size) <==> size != Aes192
  {
    var sub := TableBox().sub;
    forall x
      ensures sub(x) != x
    {
      NoFixedPoint(x);
    }
    ScheduleIsStandard(sub, key, size);
  }

  // ------------------------------------------------------------------------
  // The entry points
  // ------------------------------------------------------------------------

  method Encrypt(size: KeySize, key: array?<bv8>, iv: array?<bv8>,
                 plaintext: array?<bv8>, n: nat, ciphertext: array?<bv8>) returns (err: Status)
    requires key != null ==> key.Length == 4 * size.Words()
    requires iv != null ==> iv.Length == 16
    requires plaintext != null ==> n <= plaintext.Length
    requires ciphertext != null ==> n <= ciphertext.Length
    modifies ciphertext
    ensures err == Ok <==> key != null && plaintext != null && ciphertext != null && n % 16 == 0
    ensures err == Ok ==>
              ciphertext[..n] == Encrypted(size, old(key[..]), old(Initial(iv)), old(plaintext[..n]))
              && ciphertext[n..] == old(ciphertext[n..])
    ensures err != Ok && ciphertext != null ==> ciphertext[..] == old(ciphertext[..])
  {
    if key == null || plaintext == null || ciphertext == null {
      return InvalidArg;
    }
    if n % 16 != 0 {
      return InvalidArg;
    }
    var roundKeys := new bv32[4 * (size.Rounds() + 1)];
    ExpandKey(TableBox().sub, key, size, roundKeys);
    EncryptBuffer(TableBox(), roundKeys, size.Rounds(), iv, plaintext, n, ciphertext);
    return Ok;
  }

  method Decrypt(size: KeySize, key: array?<bv8>, iv: array?<bv8>,
                 ciphertext: array?<bv8>, n: nat, plaintext: array?<bv8>) returns (err: Status)
    requires key != null ==> key.Length == 4 * size.Words()
    requires iv != null ==> iv.Length == 16
    requires ciphertext != null ==> n <= ciphertext.Length
    requires plaintext != null ==> n <= plaintext.Length
    modifies plaintext
    ensures err == Ok <==> key != null && plaintext != null && ciphertext != null && n % 16 == 0
    ensures err == Ok ==>
              plaintext[..n] == Decrypted(size, old(key[..]), old(Initial(iv)), old(ciphertext[..n]))
              && plaintext[n..] == old(plaintext[n..])
    ensures err != Ok && plaintext != null ==> plaintext[..] == old(plaintext[..])
  {
    if key == null || ciphertext == null || plaintext == null {
      return InvalidArg;
    }
    if n % 16 != 0 {
      return InvalidArg;
    }
    var roundKeys := new bv32[4 * (size.Rounds() + 1)];
    ExpandKey(TableBox().sub, key, size, roundKeys);
    DecryptBuffer(TableBox(), roundKeys, size.Rounds(), iv, ciphertext, n, plaintext);
    return Ok;
  }
}
