/** The encryption of the key data in a KEMAC payload, with the AES object of aes.cxx. */
module MikeyCipher {
  import opened Bytes
  import opened MikeyPayload
  import AesModes
  import ModesBytes

  function BitsOfAll(s: seq<byte>): (r: seq<bv8>)
    ensures |r| == |s|
  {
    seq(|s|, i requires 0 <= i < |s| => ToBits(s[i]))
  }

  function BytesOfAll(s: seq<bv8>): (r: seq<byte>)
    ensures |r| == |s|
  {
    seq(|s|, i requires 0 <= i < |s| => FromBits(s[i]))
  }

  lemma {:induction false} BytesOfBits(s: seq<byte>)
    ensures BytesOfAll(BitsOfAll(s)) == s
  {
    hide ToBits, FromBits;
    forall i | 0 <= i < |s|
      ensures BytesOfAll(BitsOfAll(s))[i] == s[i]
    {
      FromBitsOfToBits(s[i]);
    }
  }

  lemma {:induction false} BitsOfBytes(s: seq<bv8>)
    ensures BitsOfAll(BytesOfAll(s)) == s
  {
    hide ToBits, FromBits;
    forall i | 0 <= i < |s|
      ensures BitsOfAll(BytesOfAll(s))[i] == s[i]
    {
      ToBitsOfFromBits(s[i]);
    }
  }

  type Key = k: seq<byte> | |k| == 16 witness [0, 0, 0, 0, 0, 0, 0, 0, 0, 0, 0, 0, 0, 0, 0, 0]

  /** Counter mode on bytes. */
  function CtrBytes(key: Key, iv: Key, data: seq<byte>): (r: seq<byte>)
    ensures |r| == |data|
  {
    BytesOfAll(AesModes.Ctr(BitsOfAll(key), BitsOfAll(iv), BitsOfAll(data)))
  }

  /** The encryption algorithms that are implemented: counter mode, and none. */
  function Encrypted(encrAlg: byte, key: Key, iv: Key, data: seq<byte>): (r: seq<byte>)
    ensures |r| == |data|
  {
    if encrAlg == ENCR_AES_CM then CtrBytes(key, iv, data) else data
  }

  /** The receiver decrypts by encrypting again. */
  lemma {:induction false} DecryptUndoes(encrAlg: byte, key: Key, iv: Key, data: seq<byte>)
    ensures Encrypted(encrAlg, key, iv, Encrypted(encrAlg, key, iv, data)) == data
  {
    if encrAlg == ENCR_AES_CM {
      var k, v := BitsOfAll(key), BitsOfAll(iv);
      BitsOfBytes(AesModes.Ctr(k, v, BitsOfAll(data)));
      AesModes.CtrTwice(k, v, BitsOfAll(data));
      BytesOfBits(data);
    }
  }

  method Encrypt(encrAlg: byte, key: Key, iv: Key, data: seq<byte>) returns (r: seq<byte>)
    ensures r == Encrypted(encrAlg, key, iv, data)
  {
    if encrAlg != ENCR_AES_CM {
      return data;
    }
    var n := |data|;
    var aes := new AesModes.AES(BitsOfAll(key));
    var input := new bv8[n](i requires 0 <= i < n => ToBits(data[i]));
    var output := new bv8[n](i => 0);
    assert input[..n] == BitsOfAll(data);
    aes.CtrEncrypt(input, n, output, BitsOfAll(iv));
    r := BytesOfAll(output[..]);
    assert output[..n] == output[..];
  }

  /** Algorithm 1 is AES in counter mode: byte i of the data is XORed with byte i % 16 of the block that is encrypted under the
      key for block i / 16; algorithm 0 is none. */
  lemma {:induction false} EncryptedByte(key: Key, iv: Key, data: seq<byte>, b: AesModes.Block, i: nat)
    requires i < |data| && ModesBytes.IsCounterInput(b, BitsOfAll(iv), i / 16)
    ensures ToBits(Encrypted(1, key, iv, data)[i]) == ToBits(data[i]) ^ ModesBytes.Aes(BitsOfAll(key), b)[i % 16]
    ensures Encrypted(0, key, iv, data) == data
  {
    hide ToBits, FromBits, ModesBytes.Aes, ModesBytes.IsCounterInput, AesModes.Ctr;
    var k, v, d := BitsOfAll(key), BitsOfAll(iv), BitsOfAll(data);
    ModesBytes.CtrByte(k, v, d, b, i);
    ToBitsOfFromBits(AesModes.Ctr(k, v, d)[i]);
  }
}
