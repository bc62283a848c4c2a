/**
 `encrypt` and `decrypt` of main.go: a 32-byte AES key derived from the
 passphrase and its hex SHA-256 digest, AES-256-GCM with a random nonce, and
 the sealed blob framed as nonce followed by ciphertext and tag.
 */
module Crypt {
  import opened Types
  import opened Primitives
  import Hex

  /** The AES-256 key length. */
  const KeySize: nat := 32

  /**
   The key both `encrypt` and `decrypt` derive: the passphrase, followed by the
   lowercase hex of its SHA-256 digest, cut to 32 bytes. The hex digest is 64
   bytes, so the cut is always in range.
   */
  function DeriveKey(sha256: seq<byte> -> Digest, passphrase: seq<byte>): (key: seq<byte>)
    ensures |key| == KeySize
    ensures |passphrase| >= KeySize ==> key == passphrase[..KeySize]
    ensures |passphrase| < KeySize ==>
              key == passphrase + Hex.Encode(sha256(passphrase))[..KeySize - |passphrase|]
    ensures forall i :: |passphrase| <= i < KeySize ==> Hex.IsDigit(key[i])
  {
    (passphrase + Hex.Encode(sha256(passphrase)))[..KeySize]
  }

  /** An AES block cipher, identified by its key. */
  datatype Block = Aes(key: seq<byte>)

  /** aes.NewCipher: only 16-, 24- and 32-byte keys are accepted. */
  function NewCipher(key: seq<byte>): (r: Result<Block>)
    ensures r.Ok? <==> |key| in {16, 24, 32}
    ensures r.Ok? ==> r.value.key == key
    ensures r.Err? ==> r.error == KeySizeError(|key|)
  {
    if |key| == 16 || |key| == 24 || |key| == 32 then Ok(Aes(key))
    else Err(KeySizeError(|key|))
  }

  /**
   io.ReadFull on a random source that can deliver the bytes `source` and
   then fails: EOF when nothing was read, ErrUnexpectedEOF when some was.
   */
  function ReadFull(source: seq<byte>, n: nat): (r: Result<seq<byte>>)
    ensures r.Ok? <==> |source| >= n
    ensures r.Ok? ==> r.value == source[..n]
    ensures r.Err? ==> r.error == (if |source| == 0 then RandomEof else RandomUnexpectedEof)
  {
    if |source| >= n then Ok(source[..n])
    else if |source| == 0 then Err(RandomEof)
    else Err(RandomUnexpectedEof)
  }

  /**
   `encrypt`: seals the plaintext under the derived key with a nonce read from
   `random`, and returns the nonce followed by the sealed body. The only
   returned error is a random source that cannot fill the nonce; then nothing
   is returned. (GCM's panic on a plaintext over 2^32 - 2 blocks is not modelled.)
   */
  function Encrypt(sha256: seq<byte> -> Digest, gcm: Gcm, plaintext: seq<byte>,
                   passphrase: seq<byte>, random: seq<byte>): (r: Result<seq<byte>>)
    ensures r.Ok? <==> |random| >= NonceSize
    ensures r.Err? ==> r.error in {RandomEof, RandomUnexpectedEof}
    ensures r.Ok? ==> |r.value| >= NonceSize
    ensures r.Ok? ==> r.value[..NonceSize] == random[..NonceSize]
    ensures r.Ok? ==> r.value[NonceSize..] == gcm.seal(DeriveKey(sha256, passphrase), random[..NonceSize], plaintext)
  {
    match NewCipher(DeriveKey(sha256, passphrase))
    case Err(e) => Err(e)
    case Ok(block) =>
      match ReadFull(random, NonceSize)
      case Err(e) => Err(e)
      case Ok(nonce) => Ok(nonce + gcm.seal(block.key, nonce, plaintext))
  }

  /**
   `decrypt`: rejects input shorter than the nonce without opening anything,
   otherwise opens the bytes after the nonce with the nonce before them.
   */
  function Decrypt(sha256: seq<byte> -> Digest, gcm: Gcm, ciphertext: seq<byte>,
                   passphrase: seq<byte>): (r: Result<seq<byte>>)
    ensures r == Err(CiphertextTooShort) <==> |ciphertext| < NonceSize
    ensures r.Err? ==> r.error in {CiphertextTooShort, AuthenticationFailed}
    ensures |ciphertext| >= NonceSize ==>
              var outcome := gcm.open(DeriveKey(sha256, passphrase), ciphertext[..NonceSize], ciphertext[NonceSize..]);
              (r.Ok? <==> outcome.Some?) && (r.Ok? ==> r.value == outcome.value)
  {
    match NewCipher(DeriveKey(sha256, passphrase))
    case Err(e) => Err(e)
    case Ok(block) =>
      if |ciphertext| < NonceSize then Err(CiphertextTooShort)
      else
        var nonce, body := ciphertext[..NonceSize], ciphertext[NonceSize..];
        match gcm.open(block.key, nonce, body)
        case None => Err(AuthenticationFailed)
        case Some(plaintext) => Ok(plaintext)
  }

  /** Once the passphrase fills the key, the digest plays no part in it. */
  lemma KeyIgnoresDigest(sha1: seq<byte> -> Digest, sha2: seq<byte> -> Digest, passphrase: seq<byte>)
    requires |passphrase| >= KeySize
    ensures DeriveKey(sha1, passphrase) == DeriveKey(sha2, passphrase)
  {
  }

  /** The key always starts with as much of the passphrase as fits. */
  lemma KeyStartsWithPassphrase(sha256: seq<byte> -> Digest, passphrase: seq<byte>)
    ensures var n := if |passphrase| < KeySize then |passphrase| else KeySize;
            DeriveKey(sha256, passphrase)[..n] == passphrase[..n]
  {
  }

  /**
   Byte i of the hex tail of a short passphrase's key is digit i of the digest's
   hex encoding: the high nibble of digest byte i / 2 at even i, the low at odd.
   */
  lemma {:induction false} KeyTailDigits(sha256: seq<byte> -> Digest, passphrase: seq<byte>, i: nat)
    requires |passphrase| + i < KeySize
    ensures var d := sha256(passphrase)[i / 2] as int;
            DeriveKey(sha256, passphrase)[|passphrase| + i] == Hex.Digit(if i % 2 == 0 then d / 16 else d % 16)
  {
    var d := sha256(passphrase);
    Hex.EncodeAt(d, i / 2);
    assert i == 2 * (i / 2) || i == 2 * (i / 2) + 1;
  }

  /** A successful encryption is exactly nonce, ciphertext and tag long. */
  lemma EncryptLength(sha256: seq<byte> -> Digest, gcm: Gcm, plaintext: seq<byte>,
                      passphrase: seq<byte>, random: seq<byte>)
    requires LawfulGcm(gcm)
    requires |random| >= NonceSize
    ensures |Encrypt(sha256, gcm, plaintext, passphrase, random).value| == NonceSize + |plaintext| + TagSize
  {
  }

  /** Decrypting what was encrypted under the same passphrase gives the plaintext. */
  lemma DecryptEncrypt(sha256: seq<byte> -> Digest, gcm: Gcm, plaintext: seq<byte>,
                       passphrase: seq<byte>, random: seq<byte>)
    requires LawfulGcm(gcm)
    requires |random| >= NonceSize
    ensures Encrypt(sha256, gcm, plaintext, passphrase, random).Ok?
    ensures Decrypt(sha256, gcm, Encrypt(sha256, gcm, plaintext, passphrase, random).value, passphrase) == Ok(plaintext)
  {
  }

  /** Input too short to hold both a nonce and a tag never decrypts. */
  lemma DecryptNeedsNonceAndTag(sha256: seq<byte> -> Digest, gcm: Gcm, ciphertext: seq<byte>, passphrase: seq<byte>)
    requires LawfulGcm(gcm)
    requires |ciphertext| < NonceSize + TagSize
    ensures Decrypt(sha256, gcm, ciphertext, passphrase).Err?
  {
  }
}
