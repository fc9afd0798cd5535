/**
 Ed25519 and SHA-256 as parameters. A theorem names the laws it needs; none of them says who holds a key.
 */
module Signatures {
  import opened Prelude

  datatype Scheme = Scheme(
    publicKey: Bytes -> Digest,
    sign: (Bytes, Bytes) -> Bytes,
    keyParses: Bytes -> bool,
    signatureParses: Bytes -> bool,
    check: (Bytes, Bytes, Bytes) -> bool)
  {
    /** Key and signature bytes parse, and the signature is valid for the message. */
    predicate Verifies(key: Bytes, message: Bytes, signature: Bytes) {
      |key| == 32 && keyParses(key) && signatureParses(signature) && check(key, message, signature)
    }

    /** A signature made with a secret key verifies under the matching public key. */
    ghost predicate Complete() {
      forall secret, message :: Verifies(publicKey(secret), message, sign(secret, message))
    }

    /** Ideal signatures: under one key, one signature is valid for at most one message. */
    ghost predicate Binding() {
      forall key, m, m', signature ::
        Verifies(key, m, signature) && Verifies(key, m', signature) ==> m == m'
    }
  }

  /** Nothing verifies under a key of another length, or with a key or signature that does not parse or check. */
  lemma VerifiesExact(s: Scheme, key: Bytes, message: Bytes, signature: Bytes)
    ensures !s.Verifies(key, message, signature)
            <==> |key| != 32 || !s.keyParses(key) || !s.signatureParses(signature) || !s.check(key, message, signature)
  {
  }

  /** Two different messages with one hash. A fixed-size hash has collisions; theorems name the one they would need. */
  predicate Collision(hash: Bytes -> Digest, a: Bytes, b: Bytes) {
    a != b && hash(a) == hash(b)
  }
}
