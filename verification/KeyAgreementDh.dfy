/** KeyAgreementDH.cxx: the Diffie-Hellman state, over an abstract group. */
module KeyAgreementDh {
  import opened Wrappers
  import opened Bytes
  import opened MikeyPayload
  import opened KeyAgreement
  import opened MikeyAuth

  const OAKLEY5: byte := 0

  /** Public keys and shared secrets of the three groups. */
  datatype DhOps = DhOps(publicKey: (byte, nat) -> seq<byte>, shared: (byte, nat, seq<byte>) -> seq<byte>)

  /** Key lengths go with the group, and both parties compute the same secret. */
  ghost predicate Commutes(ops: DhOps) {
    (forall g: byte, x: nat :: g <= 2 ==> |ops.publicKey(g, x)| == DhLength(g)) &&
    forall g: byte, x: nat, y: nat :: g <= 2 ==> ops.shared(g, x, ops.publicKey(g, y)) == ops.shared(g, y, ops.publicKey(g, x))
  }

  type VerifyFunction = (seq<byte>, seq<byte>, seq<byte>) -> bool

  class KeyAgreementDH {
    const ka: KeyAgreement
    const ops: DhOps
    /** Keys and random values come from a SIM: then group() always answers the same. */
    const useSim: bool
    const certs: seq<seq<byte>>
    const sign: SignFunction
    const verify: VerifyFunction
    var secret: nat
    var dhGroup: byte
    var publicKey: Option<seq<byte>>
    var peerKey: Option<seq<byte>>
    var peerCerts: seq<seq<byte>>

    constructor (ka: KeyAgreement, ops: DhOps, useSim: bool, certs: seq<seq<byte>>, sign: SignFunction, verify: VerifyFunction)
      ensures this.ka == ka && this.ops == ops && this.useSim == useSim && this.certs == certs && this.sign == sign && this.verify == verify
      ensures publicKey == None && peerKey == None && peerCerts == []
    {
      this.ka, this.ops, this.useSim, this.certs, this.sign, this.verify := ka, ops, useSim, certs, sign, verify;
      secret, dhGroup, publicKey, peerKey, peerCerts := 0, 0, None, None, [];
    }

    /** group() */
    function Group(): int
      reads this
    {
      if publicKey.None? then -1 else if useSim then OAKLEY5 else dhGroup
    }

    /** The public key belongs to the secret, and is what group() says. */
    ghost predicate HasKey()
      reads this
    {
      dhGroup <= 2 && publicKey == Some(ops.publicKey(dhGroup, secret)) && (useSim ==> dhGroup == OAKLEY5)
    }

    /** setGroup: a new key pair, from a fresh secret; the TGK gets the right length. */
    method SetGroup(group: byte, freshSecret: nat, randomTgk: seq<byte>) returns (ok: bool)
      modifies `secret, `dhGroup, `publicKey, ka`tgk
      ensures ok == (group <= 2)
      ensures ok ==> secret == freshSecret && dhGroup == group && publicKey == Some(ops.publicKey(group, freshSecret))
      ensures ok ==> ka.tgk == if |old(ka.tgk)| == DhLength(group) then old(ka.tgk) else randomTgk
      ensures !ok ==> secret == old(secret) && dhGroup == old(dhGroup) && publicKey == old(publicKey) && ka.tgk == old(ka.tgk)
    {
      if group > 2 {
        return false;
      }
      secret, dhGroup := freshSecret, group;
      if |ka.tgk| != DhLength(group) {
        ka.tgk := randomTgk;
      }
      publicKey := Some(ops.publicKey(group, freshSecret));
      return true;
    }

    /** computeTgk */
    method ComputeTgk()
      requires peerKey.Some?
      modifies ka`tgk
      ensures ka.tgk == ops.shared(dhGroup, secret, peerKey.value)
    {
      ka.tgk := ops.shared(dhGroup, secret, peerKey.value);
    }
  }

  /** Two parties whose peer keys are each other's public keys. */
  ghost predicate Paired(a: KeyAgreementDH, b: KeyAgreementDH)
    reads a, b
  {
    a.ops == b.ops && a.dhGroup == b.dhGroup <= 2 && a.HasKey() && b.HasKey() && a.peerKey == b.publicKey && b.peerKey == a.publicKey
  }

  /** Then they compute the same TGK. */
  method ComputeBoth(a: KeyAgreementDH, b: KeyAgreementDH)
    requires Paired(a, b) && Commutes(a.ops) && a.ka != b.ka
    modifies a.ka`tgk, b.ka`tgk
    ensures a.ka.tgk == b.ka.tgk
  {
    a.ComputeTgk();
    b.ComputeTgk();
  }

  /** parseResponse: which of the two DH keys of the response is the peer's. */
  function PeerKeyOf(own: seq<byte>, first: seq<byte>, second: seq<byte>): Option<seq<byte>> {
    if first == own then Some(second) else if second == own then Some(first) else None
  }
}
