/** The pseudo-random function of section 4.1.2 of RFC 3830 and the labels of sections 4.1.3 and 4.1.4, byte by byte. */
module Rfc3830 {
  import opened Bytes
  import opened MikeyCrypto

  /** HMAC under s, i times over. */
  function Iterated(hmac: Hmac, s: seq<byte>, x: seq<byte>, i: nat): seq<byte>
    decreases i
  {
    if i == 0 then x else Iterated(hmac, s, hmac(s, x), i - 1)
  }

  /** Block i, from 0 on, of P(s, label, m): HMAC(s, A_(i+1) || label), where A_0 is the label and A_i = HMAC(s, A_(i-1)). */
  function PBlock(hmac: Hmac, s: seq<byte>, lbl: seq<byte>, i: nat): (r: seq<byte>)
    ensures |r| == 20
  {
    hmac(s, Iterated(hmac, s, lbl, i + 1) + lbl)
  }

  /** The key in pieces of 256 bits; the last one may be shorter, and has at least one byte. */
  function Pieces(key: seq<byte>): seq<seq<byte>> {
    if |key| <= 32 then [key] else [key[..32]] + Pieces(key[32..])
  }

  /** Byte j of the XOR of P over the pieces. */
  function XorAt(hmac: Hmac, pieces: seq<seq<byte>>, lbl: seq<byte>, j: nat): byte {
    if pieces == [] then 0
    else XorByte(XorAt(hmac, pieces[..|pieces| - 1], lbl, j), PBlock(hmac, pieces[|pieces| - 1], lbl, j / 20)[j % 20])
  }

  /** PRF(inkey, label), n bytes of it. */
  function Prf(hmac: Hmac, key: seq<byte>, lbl: seq<byte>, n: nat): (r: seq<byte>)
    ensures |r| == n
  {
    seq(n, j requires 0 <= j < n => XorAt(hmac, Pieces(key), lbl, j))
  }

  /** The number of four bytes, the highest first. */
  function Word(b0: byte, b1: byte, b2: byte, b3: byte): nat { b0 * 0x100_0000 + b1 * 0x1_0000 + b2 * 0x100 + b3 }

  /** A label: a constant of four bytes, the CS ID, the CSB ID in four bytes, and the random value. */
  ghost predicate IsLabel(lbl: seq<byte>, constant: nat, csId: byte, csbId: nat, rand: seq<byte>) {
    |lbl| == 9 + |rand| && Word(lbl[0], lbl[1], lbl[2], lbl[3]) == constant && lbl[4] == csId &&
    Word(lbl[5], lbl[6], lbl[7], lbl[8]) == csbId % TWO32 && lbl[9..] == rand
  }
}
