/** AES-256-GCM as an ideal functionality (section 7 of NIST SP 800-38D): a message opens only if
    it was sealed under the same key and additional data, and it opens to what was sealed. */
module Aead {
  import opened Text

  const NONCE_SIZE: nat := 12
  const TAG_SIZE: nat := 16

  datatype GcmMessage = GcmMessage(nonce: Bytes, ciphertext: Bytes, tag: Bytes)

  datatype Sealed = Sealed(key: Bytes, aad: Bytes, message: GcmMessage)

  /** Everything sealed so far, by anyone, with its plaintext. */
  type SealLog = map<Sealed, Bytes>

  predicate SizesOk(key: Bytes, message: GcmMessage) {
    |key| == 32 && |message.nonce| == NONCE_SIZE && |message.tag| == TAG_SIZE
  }

  function Open(log: SealLog, key: Bytes, aad: Bytes, message: GcmMessage): Option<Bytes> {
    var id := Sealed(key, aad, message);
    if SizesOk(key, message) && id in log then Some(log[id]) else None
  }

  /** `message` is a possible result of encrypting `plain`. */
  predicate MaySeal(log: SealLog, key: Bytes, aad: Bytes, plain: Bytes, message: GcmMessage) {
    && SizesOk(key, message) && |message.ciphertext| == |plain|
    && (Sealed(key, aad, message) in log ==> log[Sealed(key, aad, message)] == plain)
  }

  function Seal(log: SealLog, key: Bytes, aad: Bytes, plain: Bytes, message: GcmMessage): SealLog {
    log[Sealed(key, aad, message) := plain]
  }
}
