/** Ed25519 as an arbitrary triple of functions. Nothing is assumed of it here; a
    theorem names the law it needs. */
module Signatures {
  import opened Hex

  type Key = seq<byte>

  /** publicKey and sign are the signer's side, verify the checker's. */
  datatype Scheme = Scheme(publicKey: Key -> Key, sign: (Key, string) -> seq<byte>,
                           verify: (Key, seq<byte>, string) -> bool)
  {
    /** What a signer produces is accepted, with RFC 8032's key and signature sizes. */
    ghost predicate Correct(secret: Key) {
      && |publicKey(secret)| == 32
      && forall m: string :: |sign(secret, m)| == 64 && verify(publicKey(secret), sign(secret, m), m)
    }

    /** No signature is valid for two of the messages at hand under a given key. */
    ghost predicate Binding(pk: Key, messages: set<string>) {
      forall sig: seq<byte>, m: string, n: string
        | m in messages && n in messages && verify(pk, sig, m) && verify(pk, sig, n) :: m == n
    }
  }
}
