/**
 Server-side encryption, with perfect cryptography: a ciphertext reveals its content to the key it was
 made with and to no other, a wrapped key opens with the master key and nonce it was wrapped with and
 with no others, and a digest identifies the bytes that were hashed.
 */
module Encryption {
  import opened Wrappers

  /** The configured encryption level, which stays fixed while the server runs. */
  datatype Level =
    | NoEncryption
    | LocalEncryptionStored
    | LocalEncryptionInput
    | FullEncryptionStored
    | FullEncryptionInput
    | EndToEndEncryption

  datatype Key = Key(bits: nat)
  datatype Nonce = Nonce(bits: nat)

  /** The key of a file as it is kept with its metadata: wrapped with the master key. */
  datatype WrappedKey = NoKey | Wrapped(key: Key, master: Key, nonce: Nonce)

  datatype EncryptionInfo = EncryptionInfo(
    isEncrypted: bool,
    isEndToEndEncrypted: bool,
    decryptionKey: WrappedKey,
    nonce: Nonce)

  const EMPTY_INFO := EncryptionInfo(false, false, NoKey, Nonce(0))

  /** What is stored on disk. */
  datatype Blob = Plain(content: Bytes) | Cipher(key: Key, content: Bytes)

  /** The name of a source: the digest of its bytes, or a random name for end-to-end encrypted uploads. */
  datatype Hash = Digest(bytes: Bytes) | Random(name: nat)

  /** Without cloud storage the local levels encrypt as well. */
  predicate IsEncryptionRequested(level: Level) {
    match level
    case NoEncryption => false
    case LocalEncryptionStored | LocalEncryptionInput => true
    case FullEncryptionStored | FullEncryptionInput => true
    case EndToEndEncryption => false
  }

  /** The digest covers the content, followed by the configured salt if files are encrypted. */
  function HashFile(content: Bytes, salt: Bytes, useSalt: bool): Hash {
    Digest(content + if useSalt then salt else [])
  }

  /** The metadata and the stored bytes that `Encrypt` produces for a new file key. */
  function EncryptInfo(info: EncryptionInfo, master: Key, key: Key, nonce: Nonce): EncryptionInfo {
    info.(isEncrypted := true, nonce := nonce, decryptionKey := Wrapped(key, master, nonce))
  }

  function GetCipherFromFile(master: Key, info: EncryptionInfo): Option<Key> {
    match info.decryptionKey
    case NoKey => None
    case Wrapped(key, m, nonce) => if m == master && nonce == info.nonce then Some(key) else None
  }

  function Decrypt(master: Key, info: EncryptionInfo, blob: Blob): Option<Bytes> {
    match GetCipherFromFile(master, info)
    case None => None
    case Some(key) => if blob.Cipher? && blob.key == key then Some(blob.content) else None
  }

  /** What was encrypted opens with its key, wrapped for this master key and nonce, and with nothing else. */
  lemma OnlyTheRightKeyOpens(info: EncryptionInfo, master: Key, key: Key, nonce: Nonce, otherMaster: Key, otherNonce: Nonce, blob: Blob)
    ensures EncryptInfo(info, master, key, nonce).isEncrypted
    ensures var found := Decrypt(otherMaster, EncryptInfo(info, master, key, nonce).(nonce := otherNonce), blob);
            && (found.Some? <==> otherMaster == master && otherNonce == nonce && blob.Cipher? && blob.key == key)
            && (found.Some? ==> found.value == blob.content)
  {
  }

  /** A salted digest still identifies the content. */
  lemma HashFileInjective(a: Bytes, b: Bytes, salt: Bytes, useSalt: bool)
    requires HashFile(a, salt, useSalt) == HashFile(b, salt, useSalt)
    ensures a == b
  {
    var suffix: Bytes := if useSalt then salt else [];
    assert |a + suffix| == |b + suffix|;
    assert a == (a + suffix)[..|a|] == b;
  }

  /** Where the salt is used, it can be told from the digest of a content; where it is not, it has no influence. */
  lemma HashFileUsesSalt(content: Bytes, salt: Bytes, other: Bytes, useSalt: bool)
    ensures HashFile(content, salt, useSalt) == HashFile(content, other, useSalt) <==> !useSalt || salt == other
  {
    if useSalt && content + salt == content + other {
      assert salt == (content + salt)[|content|..] == other;
    }
  }
}
