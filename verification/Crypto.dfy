/** PKCS#7 padding (section 6.3 of RFC 5652) and the AES-CBC records built on
    it. AES itself stays abstract: any pair of functions that undo each other on
    whole blocks, for each key and initialization vector. */
module Crypto {
  import opened ByteStrings

  const AES_BLOCK_SIZE: nat := 16
  const MEDIA_KEY_SIZE: nat := 16

  datatype Cbc = Cbc(
    encrypt: (Bytes, Bytes, Bytes) -> Bytes,
    decrypt: (Bytes, Bytes, Bytes) -> Bytes)

  /** Encryption keeps the length of whole blocks and decryption undoes it. */
  ghost predicate IsCipher(cbc: Cbc) {
    forall key, iv, plain: Bytes {:trigger cbc.encrypt(key, iv, plain)} ::
      |plain| % AES_BLOCK_SIZE == 0 ==>
        && |cbc.encrypt(key, iv, plain)| == |plain|
        && cbc.decrypt(key, iv, cbc.encrypt(key, iv, plain)) == plain
  }

  /** `bytes([b]) * n`. */
  function Repeat(b: byte, n: nat): (r: Bytes)
    ensures |r| == n
  {
    seq(n, i => b)
  }

  function PaddingLength(length: nat): (n: nat)
    ensures 1 <= n <= AES_BLOCK_SIZE && (length + n) % AES_BLOCK_SIZE == 0
  {
    AES_BLOCK_SIZE - length % AES_BLOCK_SIZE
  }

  function Pad(plain: Bytes): Bytes {
    plain + Repeat(PaddingLength(|plain|), PaddingLength(|plain|))
  }

  /** None is the protocol error. */
  function Unpad(padded: Bytes): Option<Bytes> {
    if padded == [] then None
    else
      var n := padded[|padded| - 1];
      if n < 1 || n > AES_BLOCK_SIZE || n > |padded| then None
      else if padded[|padded| - n..] != Repeat(n, n) then None
      else Some(padded[..|padded| - n])
  }

  lemma UnpadPad(plain: Bytes)
    ensures |Pad(plain)| % AES_BLOCK_SIZE == 0 && Pad(plain) != []
    ensures Unpad(Pad(plain)) == Some(plain)
  {
    var n := PaddingLength(|plain|);
    var padded := Pad(plain);
    assert padded[|padded| - 1] == Repeat(n, n)[n - 1];
    assert padded[|padded| - n..] == Repeat(n, n);
    assert padded[..|padded| - n] == plain;
  }

  /** On whole blocks unpadding accepts exactly the padded messages, and there
      padding undoes it. */
  lemma PadUnpad(padded: Bytes, plain: Bytes)
    requires |padded| % AES_BLOCK_SIZE == 0
    ensures Unpad(padded) == Some(plain) <==> padded == Pad(plain)
  {
    if Unpad(padded) == Some(plain) {
      var n := padded[|padded| - 1];
      assert padded == padded[..|padded| - n] + padded[|padded| - n..];
      assert PaddingLength(|plain|) == n;
    }
    if padded == Pad(plain) {
      UnpadPad(plain);
    }
  }

  function EncryptCbc(cbc: Cbc, key: Bytes, iv: Bytes, plain: Bytes): Bytes {
    cbc.encrypt(key, iv, Pad(plain))
  }

  function DecryptCbc(cbc: Cbc, key: Bytes, iv: Bytes, ciphertext: Bytes): Option<Bytes> {
    if ciphertext == [] || |ciphertext| % AES_BLOCK_SIZE != 0 then None
    else Unpad(cbc.decrypt(key, iv, ciphertext))
  }

  lemma CbcRoundTrip(cbc: Cbc, key: Bytes, iv: Bytes, plain: Bytes)
    requires IsCipher(cbc)
    ensures |EncryptCbc(cbc, key, iv, plain)| == |Pad(plain)|
    ensures DecryptCbc(cbc, key, iv, EncryptCbc(cbc, key, iv, plain)) == Some(plain)
  {
    UnpadPad(plain);
    var ciphertext := cbc.encrypt(key, iv, Pad(plain));
    assert |ciphertext| == |Pad(plain)|;
  }

  /** One record: the initialization vector, then the ciphertext. */
  function EncryptRecord(cbc: Cbc, key: Bytes, iv: Bytes, plain: Bytes): Option<Bytes> {
    if |key| != MEDIA_KEY_SIZE then None else Some(iv + EncryptCbc(cbc, key, iv, plain))
  }

  function DecryptRecord(cbc: Cbc, key: Bytes, record: Bytes): Option<Bytes> {
    if |key| != MEDIA_KEY_SIZE then None
    else if |record| < AES_BLOCK_SIZE * 2 || |record| % AES_BLOCK_SIZE != 0 then None
    else DecryptCbc(cbc, key, record[..AES_BLOCK_SIZE], record[AES_BLOCK_SIZE..])
  }

  lemma RecordRoundTrip(cbc: Cbc, key: Bytes, iv: Bytes, plain: Bytes)
    requires IsCipher(cbc) && |key| == MEDIA_KEY_SIZE && |iv| == AES_BLOCK_SIZE
    ensures EncryptRecord(cbc, key, iv, plain).Some?
    ensures DecryptRecord(cbc, key, EncryptRecord(cbc, key, iv, plain).value) == Some(plain)
  {
    UnpadPad(plain);
    CbcRoundTrip(cbc, key, iv, plain);
    var ciphertext := EncryptCbc(cbc, key, iv, plain);
    var record := iv + ciphertext;
    assert record[..AES_BLOCK_SIZE] == iv && record[AES_BLOCK_SIZE..] == ciphertext;
  }

  /** Padding is one to sixteen bytes behind the plaintext, each of them their
      number, up to the next whole block. */
  lemma PaddedExactly(plain: Bytes)
    ensures var padded := Pad(plain);
            var n := |padded| - |plain|;
            && 1 <= n <= 16 && |padded| % 16 == 0
            && padded[..|plain|] == plain
            && (forall i :: |plain| <= i < |padded| ==> padded[i] as int == n)
  {
  }

  /** What unpadding accepts, and what it leaves. */
  lemma UnpaddedExactly(padded: Bytes)
    ensures Unpad(padded).Some?
            <==> padded != []
                 && var n := padded[|padded| - 1] as int;
                    && 1 <= n <= 16 && n <= |padded|
                    && forall i :: |padded| - n <= i < |padded| ==> padded[i] as int == n
    ensures Unpad(padded).Some? ==>
              Unpad(padded).value == padded[..|padded| - padded[|padded| - 1]]
  {
    if padded != [] {
      var n := padded[|padded| - 1];
      if 1 <= n <= 16 && n <= |padded| {
        var tail := padded[|padded| - n..];
        assert forall i :: |padded| - n <= i < |padded| ==> padded[i] == tail[i - (|padded| - n)];
        assert tail == Repeat(n, n) <==> forall j :: 0 <= j < n ==> tail[j] == n;
        assert forall j :: 0 <= j < n ==> tail[j] == padded[|padded| - n + j];
      }
    }
  }

  lemma CbcExactly(cbc: Cbc, key: Bytes, iv: Bytes, text: Bytes)
    ensures EncryptCbc(cbc, key, iv, text) == cbc.encrypt(key, iv, Pad(text))
    ensures DecryptCbc(cbc, key, iv, text)
            == if text != [] && |text| % 16 == 0 then Unpad(cbc.decrypt(key, iv, text)) else None
  {
  }

  /** A record is its vector followed by the padded plaintext encrypted under it; the
      key has sixteen bytes. */
  lemma RecordExactly(cbc: Cbc, key: Bytes, iv: Bytes, plain: Bytes)
    ensures EncryptRecord(cbc, key, iv, plain).Some? <==> |key| == 16
    ensures |key| == 16 ==>
              EncryptRecord(cbc, key, iv, plain) == Some(iv + cbc.encrypt(key, iv, Pad(plain)))
  {
  }

  /** What decrypts, and to what: a vector of sixteen bytes and at least one whole
      block, under a key of sixteen bytes, whose plaintext is padded. */
  lemma DecryptedExactly(cbc: Cbc, key: Bytes, record: Bytes)
    ensures DecryptRecord(cbc, key, record)
            == if |key| == 16 && |record| >= 32 && |record| % 16 == 0
               then Unpad(cbc.decrypt(key, record[..16], record[16..]))
               else None
  {
  }
}
