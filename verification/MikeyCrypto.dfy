/** The cryptographic functions MIKEY calls, as parameters with the laws it relies on. */
module MikeyCrypto {
  import opened Bytes

  const SHA_DIGEST_SIZE := 20

  const ZeroDigest: seq<byte> := [0, 0, 0, 0, 0, 0, 0, 0, 0, 0, 0, 0, 0, 0, 0, 0, 0, 0, 0, 0]

  /** HMAC-SHA1 of a message under a key. */
  type Hmac = f: (seq<byte>, seq<byte>) -> seq<byte> | forall k, m :: |f(k, m)| == SHA_DIGEST_SIZE
    witness (k: seq<byte>, m: seq<byte>) => ZeroDigest
}
