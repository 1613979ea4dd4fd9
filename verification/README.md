# minisip: verified models of its hard parts

minisip is a SIP user agent written in C++. Its libraries contain a table-driven AES, the MIKEY key agreement of
RFC 3830, text conversions for addresses and binary data, and the concurrent core of a SIP stack. This project models
these parts in Dafny and proves what they are meant to do. `dafny verify dfyconfig.toml` checks everything.

## What is modelled

**AES** (`Gf256`, `AesSBox`, `AesTables`, `Fips197`, `Rijndael`, `AesModes`). The field GF(2^8), the S-box as
inversion followed by an affine map, the lookup tables as their definition in terms of the S-box, the cipher of FIPS 197 as
a simple reference, and the imperative code of `rijndael-alg-fst.cxx` and `aes.cxx` over arrays: the key schedule with its
moving pointer, its in-place inversion, the loop that does two rounds at a time, counter mode and f8 mode. The fast code
is proved equal to the reference, and decryption to be the inverse of encryption. `FipsBytes` and `ModesBytes` state the
key schedule, the rounds and the modes byte by byte, without the functions of the reference, with examples from FIPS 197.

**MIKEY** (`Bytes`, `Base64`, the `Mikey...`, `Key...` modules). Payload codecs with their field widths and errors, the parsing loop, the class
`MikeyPayloads` with its list, its cached bytes and its `compiled` flag, MACs and signatures computed over partly built
messages, the pseudo-random function, policies, the CS ID map, and the pre-shared key and Diffie-Hellman exchanges
as methods on the objects of both parties. HMAC, signatures and Diffie-Hellman groups are function values with the laws
the protocol needs (`Hmac`, `KeyPair`, `Certified`, `Commutes`); counter mode is the AES model above. Clocks and random
values are parameters. Complete honest runs are methods too (`HonestRun`, `FullRun`, `HonestDhRun`). What the bytes are is
stated apart from the codecs: `Rfc3830` has the PRF and the labels of the standard, `MikeyLayout` the place of each field,
`MikeyContents` the payloads of each message, and `MikeyCoverage` the bytes that MACs and signatures protect.

**Address conversion** (`Inet4`, `Inet6`, `Inet6Text`, `Inet6Grammar`, `Rfc1884`). `inet_ntop` and `inet_pton`, with the
compression of zero runs, embedded dotted quads, and the overlapping shift done by hand; the texts that are written, from the
bytes of the address; the language of the texts that are accepted, and how it differs from that of RFC 1884.

**SIP stack** (`CommandDispatcher`, `SipMessageParser`). The two-priority command queue as interleaved steps of any
number of producers and one consumer, and the byte-at-a-time stream parser as a class with a growing buffer, with the
exceptions of the code it calls and the loop over the bytes of a read.

Bytes are `bv8` in the AES modules and numbers from 0 to 255 elsewhere; `MikeyCipher` connects the two.

## Where the code and its documentation differ

- `prf()` takes `inkeyLength % 32` as the length of the last key piece (`libmikey/keyagreement/KeyAgreement.cxx:213-214`).
  For keys whose length is a multiple of 32 bytes the last 32 bytes are therefore not used, against section 4.1.2 of RFC 3830:
  `KeyDerivation.TailUnusedExactly` and `KeyDerivation.PrfAgreesWithRfc` prove that this is so for these lengths and no
  others. The default TGK has 192 bytes (`KeyDerivation.DefaultTgkTail`); both parties still derive equal keys. With a
  pre-shared key of 32 bytes the transport keys do not depend on it (`KeyAgreementPsk.TransportTailUnused`).
- The header of `inet_pton6` says that it returns 1 for the addresses of section 2.2 of RFC 1884 and 0 otherwise. It accepts all
  of them (`Rfc1884.ValidIsAccepted`) and some other texts, which `Rfc1884.AcceptedValid` describes exactly. "Valid" means there:
  one to four digits in each group; eight groups, or up to seven and one `::` for the rest; a dotted quad with any leading zeros.
- It also says that `::` in a full address is silently ignored. The shift clears the bytes after it:
  `Rfc1884.FullAddressIgnoresGap` gives the exact condition, and `Inet6.FullAddressExamples` shows `1:2:3:4:5:6:7::8` losing its
  last group.
- `inet_ntop4` compares the length of its text without the NUL with the size of the buffer. `Inet4.InetNtop4` has the case in
  which the NUL does not fit as an outcome of its own; within `inet_ntop6` it cannot arise.
- `base64_decode` does not check the fourth character of a group, and fewer characters of a padded last group.
  `Base64.DecodedExactly` says which texts it decodes, and `Base64.EncodesBack` which of them are what the encoder writes.
- `SipMessageParser::feed` calls `createMessage`, which throws for malformed texts, before it resets itself if the text has
  content, and after that if it has none (`libmsip/source/SipLayerTransport.cxx:206-207`, `228-233`). The caller drops the
  malformed text and goes on with the same parser, which after a text with content is in its content state with all content
  read; the comparison with the content length then does not hold again before an index of 32 bits wraps around. So a malformed
  message with content blocks its connection: `SipMessageParser.Blocked` and `SipMessageParser.MalformedBlocks`, and
  `SipMessageParser.InitialExactly` for the exact condition. An exception also drops the rest of the current read
  (`SipMessageParser.RestDropped`).
- `verifyV` copies all but the last 20 bytes of a message without looking at its length; `MikeyAuth.VerifyV` has an error value
  for messages that are shorter.
- `checkOffset` of time stamps returns false for both NTP types, with the comparison commented out
  (`libmikey/mikey/MikeyPayloadT.cxx:196-214`). Time stamps are therefore not checked, and `MikeyPsk.SetOffer` and
  `MikeyDh.SetOffer` accept all of these types.
- `MikeyMessagePSK::buildResponse` and `MikeyMessageDH::buildResponse` add the policies to the received message, not to the
  response; so does the model.
- The constructor of `MikeyPayloadSP` does not use its length limit, its deletion of a parameter moves an iterator past the end
  of the list when the parameter is the last one, and the header's length check counts nine bytes a session for IPsec maps, which
  take thirteen. These are error values of the model (`Overrun`, `PastEnd`), and so are assertions that fail and missing payloads
  that are dereferenced (`AssertionFailed`). `MikeyErrors` gives the exact conditions, for payloads and for whole messages.

## Model

| member | source | states |
|---|---|---|
| Gf256.InvMixColumnUndoes | libmcrypto/source/rijndael-alg-fst.cxx:34-46 | the column transformations behind the encryption and decryption tables undo each other, in both orders |
| Gf256.InvMixColumnXor | libmcrypto/source/rijndael-alg-fst.cxx:821-855 | inverse MixColumns distributes over XOR, which is why the decryption keys can be transformed in advance |
| AesSBox.SiUndoesS | libmcrypto/source/rijndael-alg-fst.cxx:34-46 | the tables' byte permutations S and Si are inverse to each other, in both orders |
| AesSBox.InverseIsInverse | libmcrypto/source/rijndael-alg-fst.cxx:34-46 | x^254 is the multiplicative inverse in GF(2^8) of every nonzero x |
| AesSBox.InverseUnique | libmcrypto/source/rijndael-alg-fst.cxx:34-46 | and it is the only one, so the S-box is the one FIPS 197 describes |
| AesSBox.SBoxExample | libmcrypto/source/rijndael-alg-fst.cxx:313-334 | two entries of the literal table of S, at 0x00 and 0x53 |
| AesTables.EncryptionLookup | libmcrypto/source/rijndael-alg-fst.cxx:948-1001 | the XOR of four encryption tables and a key word is SubBytes, ShiftRows and MixColumns of a column, plus the round key |
| AesTables.DecryptionLookup | libmcrypto/source/rijndael-alg-fst.cxx:1129-1182 | the XOR of four decryption tables is the inverse of these steps on a column |
| AesTables.LastEncryptionLookup | libmcrypto/source/rijndael-alg-fst.cxx:1004-1036 | the masked lookups of the last round are the round without MixColumns |
| AesTables.LastDecryptionLookup | libmcrypto/source/rijndael-alg-fst.cxx:1185-1217 | the same for decryption |
| AesTables.ScheduleLookup | libmcrypto/source/rijndael-alg-fst.cxx:741-804 | the lookups of the key schedule are RotWord, SubWord and the masks of section 5.2 of FIPS 197 |
| AesTables.RconTableIsRcon | libmcrypto/source/rijndael-alg-fst.cxx:710-714 | the literal round constants are the powers of x in GF(2^8) |
| Rijndael.KeySetupEnc | libmcrypto/source/rijndael-alg-fst.cxx:731-810 | returns 10, 12 or 14 for the three key sizes and 0 otherwise, and writes exactly the words of the key expansion of section 5.2 of FIPS 197 |
| Rijndael.Expand128 | libmcrypto/source/rijndael-alg-fst.cxx:739-756 | the pointer loop for 128 bits fills 44 words |
| Rijndael.Expand192 | libmcrypto/source/rijndael-alg-fst.cxx:757-778 | the pointer loop for 192 bits fills 52 words and stops in the middle of a group |
| Rijndael.Expand256 | libmcrypto/source/rijndael-alg-fst.cxx:779-808 | the pointer loop for 256 bits fills 60 words, with the extra SubWord in each group |
| FipsBytes.KeyBytes | libmcrypto/source/rijndael-alg-fst.cxx:735-738 | the first words of the schedule are the key, byte by byte |
| FipsBytes.ScheduleBytes | libmcrypto/source/rijndael-alg-fst.cxx:739-808 | every later word byte by byte: at the start of a group the word before it moved up by one byte and substituted, with a power of x on its first byte; substituted in place in the middle of the groups of 256-bit keys; and as it is elsewhere; each XORed with the word one key length back |
| FipsBytes.ScheduleExample | libmcrypto/source/rijndael-alg-fst.cxx:739-756 | the words 4 to 7 of the example key of appendix A.1 of FIPS 197 |
| Rijndael.ReverseRoundKeys | libmcrypto/source/rijndael-alg-fst.cxx:823-829 | the swap loop reverses the order of the round keys in place and keeps each key's four words together |
| Rijndael.InvMixInnerRoundKeys | libmcrypto/source/rijndael-alg-fst.cxx:830-853 | the second loop applies inverse MixColumns to all round keys but the first and the last |
| Rijndael.KeySetupDec | libmcrypto/source/rijndael-alg-fst.cxx:817-855 | the array ends as the inverse schedule of section 5.3.5 of FIPS 197 of the expanded key |
| Rijndael.InverseSchedule | libmcrypto/source/rijndael-alg-fst.cxx:817-855 | reversed and transformed round keys are what the equivalent inverse cipher needs |
| Rijndael.EncryptRounds | libmcrypto/source/rijndael-alg-fst.cxx:944-1002 | the loop of two rounds per turn computes the first Nr - 1 rounds, for any schedule |
| Rijndael.Encrypt | libmcrypto/source/rijndael-alg-fst.cxx:857-1036 | for any schedule of Nr + 1 round keys and Nr of 10, 12 or 14 the output block is the cipher of section 5.1 of FIPS 197; nothing else is written |
| FipsBytes.RoundBytes | libmcrypto/source/rijndael-alg-fst.cxx:948-1001 | each byte of a round of the reference as a sum of four substituted bytes, from the columns ShiftRows takes them from, with their factors in GF(2^8), and a key byte |
| FipsBytes.LastRoundBytes | libmcrypto/source/rijndael-alg-fst.cxx:1004-1036 | each byte of the last round is one substituted byte and a key byte |
| FipsBytes.CipherIs | libmcrypto/source/rijndael-alg-fst.cxx:857-1036 | the cipher is the last of any states of which the first is the input with the key added and each other one a round of the one before |
| FipsBytes.BlockBytes | libmcrypto/source/rijndael-alg-fst.cxx:861-868 | byte i of a block is row i % 4 of column i / 4 |
| FipsBytes.RoundExample | libmcrypto/source/rijndael-alg-fst.cxx:944-1002 | the first round of appendix B of FIPS 197 |
| Rijndael.DecryptRounds | libmcrypto/source/rijndael-alg-fst.cxx:1125-1183 | the decryption loop computes the first Nr - 1 inverse rounds |
| Rijndael.Decrypt | libmcrypto/source/rijndael-alg-fst.cxx:1038-1217 | the output block is the equivalent inverse cipher of section 5.3.5 of FIPS 197 |
| Fips197.InvCipherUndoesCipher | libmcrypto/source/rijndael-alg-fst.cxx:857-1217 | the inverse cipher undoes the cipher for every schedule |
| Fips197.CipherUndoesInvCipher | libmcrypto/source/rijndael-alg-fst.cxx:857-1217 | and the other way round |
| Fips197.EqInvCipherIsInvCipher | libmcrypto/source/rijndael-alg-fst.cxx:817-1217 | with an inverse schedule the equivalent inverse cipher is the inverse cipher |
| Rijndael.DecryptUndoesEncrypt | libmcrypto/source/rijndael-alg-fst.cxx:731-1217 | for every key of the three sizes and every block, decryption under the decryption schedule undoes encryption under the encryption schedule, and conversely |
| AesModes.AES.constructor | libmcrypto/source/aes.cxx:61-78 | the object holds the expanded key |
| AesModes.AES.Encrypt | libmcrypto/source/aes.cxx:65-69 | one block, with input and output possibly the same place |
| AesModes.AES.GetCtrCipherStream | libmcrypto/source/aes.cxx:87-127 | the first length bytes of the counter mode keystream, whole blocks and a partial last one, and nothing behind them |
| AesModes.AES.CtrEncrypt | libmcrypto/source/aes.cxx:131-143 | the data XORed with the keystream |
| AesModes.AES.CtrEncryptInPlace | libmcrypto/source/aes.cxx:145-156 | the overload in place computes the same function |
| AesModes.CtrTwice | libmcrypto/source/aes.cxx:131-156 | counter mode applied twice is the identity |
| AesModes.CtrInputsCollide | libmcrypto/source/aes.cxx:97-120 | the counter has 16 bits: cipher inputs repeat exactly for counters equal modulo 2^16, and the last two bytes of the IV are unused |
| AesModes.StreamPrefix | libmcrypto/source/aes.cxx:87-127 | a shorter keystream is a prefix of a longer one |
| ModesBytes.CounterInput | libmcrypto/source/aes.cxx:97-120 | what is encrypted for block j is 14 bytes of the IV and the low 16 bits of j, the higher byte first |
| ModesBytes.CtrByte | libmcrypto/source/aes.cxx:87-143 | byte i of the text is XORed with byte i % 16 of this block for i / 16, encrypted in ten rounds |
| AesModes.AES.ProcessBlock | libmcrypto/source/aes.cxx:243-279 | one step of the f8 keystream recurrence, and up to 16 bytes XORed with it |
| AesModes.AES.F8Blocks | libmcrypto/source/aes.cxx:215-240 | the loop over whole blocks and a partial last one yields the f8 keystream of any length |
| AesModes.AES.F8Encrypt | libmcrypto/source/aes.cxx:165-241 | f8 mode of section 4.1.2.2 of RFC 3711, the same in place as into another buffer |
| AesModes.AES.F8EncryptInPlace | libmcrypto/source/aes.cxx:158-163 | the overload in place |
| AesModes.F8Step | libmcrypto/source/aes.cxx:243-279 | block j of the keystream follows from block j - 1, with a 32-bit counter |
| AesModes.F8Twice | libmcrypto/source/aes.cxx:158-241 | f8 mode applied twice is the identity |
| ModesBytes.F8Byte | libmcrypto/source/aes.cxx:165-279 | byte i of the text is XORed with byte i % 16 of block i / 16 of any keystream in which each block is the encryption of the XOR of the one before it, IV' and the 32-bit counter; IV' is the IV encrypted under the key masked with the salt and 0x55 behind it |
| Inet4.InetNtop4 | libmnetutil/inet_ntop.c:86-101 | the text is in the buffer and reads back to the address; or it is too long and nothing is written; or its NUL goes behind the buffer, exactly if its length is the size given |
| Inet4.InetPton4 | libmnetutil/inet_pton.c:88-128 | accepts what the scanner accepts, stores four octets then and touches nothing otherwise |
| Inet4.Parse4Exactly | libmnetutil/inet_pton.c:88-128 | accepted texts are exactly four decimal numbers up to 255, leading zeros allowed, separated by single dots, and the result is their values |
| Inet4.Parse4OfQuadText | libmnetutil/inet_pton.c:88-128 | inet_pton4 undoes inet_ntop4 for all addresses |
| Inet6.LoadWords | libmnetutil/inet_ntop.c:131-133 | the bytes are or-ed into eight 16-bit words |
| Inet6.FindBestRun | libmnetutil/inet_ntop.c:134-157 | the run of zero words found is the leftmost longest one, if it has at least two words |
| Inet6.BestRunUnique | libmnetutil/inet_ntop.c:134-157 | there is only one such run |
| Inet6.FormatWords | libmnetutil/inet_ntop.c:159-188 | the formatting loop writes the text and its NUL, within its buffer of 46 characters |
| Inet6.InetNtop6 | libmnetutil/inet_ntop.c:109-199 | the text with the best run compressed is in the buffer and inet_pton6 reads it back to the address, or it does not fit with its NUL and nothing is written |
| Inet6.PrintAndRead | libmnetutil/inet_ntop.c:109-199 | inet_ntop6 into any buffer of 46 characters or more and inet_pton6 of this buffer give the address back |
| Inet6.TextLength | libmnetutil/inet_ntop.c:121-121 | no address needs more than 45 characters |
| Inet6.InetPton6 | libmnetutil/inet_pton.c:145-224 | accepts what the scanner accepts, and leaves the destination alone otherwise |
| Inet6.ShiftToEnd | libmnetutil/inet_pton.c:205-218 | the overlapping shift by hand moves the bytes after :: to the end and leaves zeros in the gap |
| Inet6.Parse6OfText | libmnetutil/inet_pton.c:145-224 | inet_pton6 undoes inet_ntop6 for all 16-byte addresses, including ::a.b.c.d and ::ffff:a.b.c.d |
| Inet6.FullAddressExamples | libmnetutil/inet_pton.c:130-143 | two texts for which the promises in the header comment fail |
| Inet6Text.QuadTextIsDotted | libmnetutil/inet_ntop.c:91-94 | the text of inet_ntop4 is four decimal numerals without leading zeros, separated by dots |
| Inet6Text.GapOfBytes | libmnetutil/inet_ntop.c:134-157 | the run that "::" stands for, from the bytes: the first of the longest runs of two zero words or more |
| Inet6Text.WhenMapped | libmnetutil/inet_ntop.c:174-176 | a dotted quad is printed exactly for addresses of ten zero bytes and two of 0xff, and for those of twelve zero bytes and a word that is not zero |
| Inet6Text.TextIs | libmnetutil/inet_ntop.c:159-188 | the text from the 16 bytes: "::ffff:" or "::" and the dotted quad for these two kinds; for all others the hexadecimal numerals of the words, in lower case and without leading zeros, with colons, and "::" for the run |
| Inet6Text.PrintAddress | libmnetutil/inet_ntop.c:109-199 | inet_ntop6 leaves this text in any buffer of 46 characters or more |
| Inet6Text.MappedExample | libmnetutil/inet_ntop.c:174-181 | ::ffff:192.0.2.1 |
| Inet6Text.GapExample | libmnetutil/inet_ntop.c:160-183 | 2001:db8:0:1::1, where the single zero word is printed |
| Inet6Grammar.Parse6Exactly | libmnetutil/inet_pton.c:141-224 | accepted texts are exactly groups of up to 16 bits with a colon after each, at most one of them empty, then a group, nothing or a dotted quad; their bytes are the address, with zeros for the empty group |
| Inet6Grammar.ScanExactly | libmnetutil/inet_pton.c:155-204 | the scanning loop finds the bytes and the place of the gap exactly if the text spells them |
| Inet6Grammar.OctetAsHex | libmnetutil/inet_pton.c:167-172 | the digits of an octet, first taken for those of a group, never exceed 16 bits, so no quad is refused for that |
| Rfc1884.ValidIsAccepted | libmnetutil/inet_pton.c:130-143 | every text that is valid by section 2.2 of RFC 1884 is accepted |
| Rfc1884.AcceptedValid | libmnetutil/inet_pton.c:130-143 | an accepted text is valid if and only if it has no surplus colon at its end, no group of more than four digits, and no :: in an address that is full without it |
| Rfc1884.ReadOneWay | libmnetutil/inet_pton.c:155-204 | a text has only one way of being read as groups and an end, so these three are properties of the text |
| Rfc1884.SurplusColonSeen | libmnetutil/inet_pton.c:175-190 | a surplus colon is one at the end of the text without another before it |
| Rfc1884.FullAddressIgnoresGap | libmnetutil/inet_pton.c:130-143 | a text with :: in a full address is accepted, and :: changes nothing if and only if the bytes after it are zeros |
| Rfc1884.LongGroupExample | libmnetutil/inet_pton.c:165-174 | an accepted text with a group of five digits |
| Base64.Base64Encode | libmcrypto/source/base64.cxx:39-74 | groups of three bytes and the two kinds of padded tail |
| Base64.EncodedChar | libmcrypto/source/base64.cxx:39-74 | character k of the text is the letter of the literal alphabet for the k-th six bits of the data, with zeros behind its end, or padding for a byte that is missing |
| Base64.AlphabetIs | libmcrypto/source/base64.cxx:45-45 | the 64 letters, and the numbers the decoder has for them |
| Base64.Base64Decode | libmcrypto/source/base64.cxx:76-216 | line breaks removed, the number of padding characters, the checks that are made and the bytes decoded |
| Base64.DecodedByte | libmcrypto/source/base64.cxx:160-211 | how many bytes there are, and byte k is eight bits of the twelve that its two letters stand for |
| Base64.LineBreaks | libmcrypto/source/base64.cxx:106-114 | a line break changes nothing, and no other character is removed |
| Base64.Base64RoundTrip | libmcrypto/source/base64.cxx:39-216 | decoding undoes encoding for all nonempty data |
| Base64.DecodedExactly | libmcrypto/source/base64.cxx:76-216 | which texts are decoded: not empty and a multiple of four without line breaks, the first = among the last two characters, and which positions must be in the alphabet or in ASCII; and when the code reads outside its table |
| Base64.EncodesBack | libmcrypto/source/base64.cxx:39-216 | encoding what was decoded gives the text without line breaks if and only if all characters before the padding are in the alphabet, the rest is padding, and no bits are left over |
| Base64.UncheckedExamples | libmcrypto/source/base64.cxx:160-211 | three texts with a character that is not in the alphabet, and the bytes they are decoded to |
| MikeyPayload.EncodeLength | libmikey/mikey/MikeyMessage.cxx:585-619 | length() of every well-formed payload is the number of bytes written, and at least 2 |
| MikeyPayload.PayloadRoundTrip | libmikey/mikey/MikeyMessage.cxx:199-258 | parsePayload undoes writeData for every kind of payload, whatever follows in the message |
| MikeyPayload.DecodeSound | libmikey/mikey/MikeyMessage.cxx:199-258 | any payload that is accepted has the type asked for, fields within their widths, lies within the message and takes exactly length() bytes |
| MikeyPayload.HdrRoundTrip | libmikey/mikey/MikeyPayloadHDR.cxx:61-131 | header codec with the CS ID map inside |
| MikeyPayload.MapRoundTrip | libmikey/mikey/MikeyCsIdMap.cxx:47-169 | the rows of an SRTP or IPsec map are read back |
| MikeyPayload.KemacRoundTrip | libmikey/mikey/MikeyPayloadKEMAC.cxx:59-129 | KEMAC codec, with and without a MAC |
| MikeyPayload.SpRoundTrip | libmikey/mikey/MikeyPayloadSP.cxx:51-117 | security policy codec for distinct parameter types that fit the 16-bit length |
| MikeyPayload.ReadParamsRoundTrip | libmikey/mikey/MikeyPayloadSP.cxx:61-64 | the parameter loop reads back what was written, from any parameter on |
| MikeyPayload.DhRoundTrip | libmikey/mikey/MikeyPayloadDH.cxx:35-148 | Diffie-Hellman codec with group-dependent key length and null key validity |
| MikeyPayload.SignRoundTrip | libmikey/mikey/MikeyPayloadSIGN.cxx:47-90 | signature codec with 4 bits of type and 12 of length |
| MikeyPayload.TimeRoundTrip | libmikey/mikey/MikeyPayloadT.cxx:78-163 | time stamps of 8 or 4 bytes |
| MikeyPayload.VerRoundTrip | libmikey/mikey/MikeyPayloadV.cxx:49-103 | verification payload |
| MikeyPayload.RandRoundTrip | libmikey/mikey/MikeyPayloadRAND.cxx:49-108 | random value |
| MikeyPayload.PrefixedRoundTrip | libmikey/mikey/MikeyPayloadKeyData.cxx:65-168 | key data without salt, identities and certificates: a type, a 16-bit length and the data |
| MikeyLayout.HdrLayout | libmikey/mikey/MikeyPayloadHDR.cxx:115-131 | the place of every header field in the bytes, with the 32-bit bundle id the highest byte first |
| MikeyLayout.SrtpRow | libmikey/mikey/MikeyCsIdMap.cxx:125-169 | where policy number, SSRC and ROC of each session are |
| MikeyLayout.IpsecRow | libmikey/mikey/MikeyCsIdMap.cxx:125-169 | where policy number, SPI and the two addresses are |
| MikeyLayout.KemacLayout | libmikey/mikey/MikeyPayloadKEMAC.cxx:119-129 | next payload, algorithm, 16-bit length, data, MAC algorithm, MAC |
| MikeyLayout.DhLayout | libmikey/mikey/MikeyPayloadDH.cxx:140-148 | next payload, group, a key of 1536, 768 or 1024 bits, a zero |
| MikeyLayout.SignLayout | libmikey/mikey/MikeyPayloadSIGN.cxx:82-90 | four bits of type, twelve of length, signature |
| MikeyLayout.TimeLayout | libmikey/mikey/MikeyPayloadT.cxx:145-163 | next payload, type, and 64 or 32 bits |
| MikeyLayout.CountedLayout | libmikey/mikey/MikeyPayloadID.cxx:75-85 | next payload, type, 16-bit length, data; for key data the type in the upper four bits |
| MikeyLayout.ShortLayout | libmikey/mikey/MikeyPayloadV.cxx:96-103 | verification payload and random value |
| MikeyLayout.SpLayout | libmikey/mikey/MikeyPayloadSP.cxx:100-117 | next payload, policy number, protocol, the length of all parameters, and these |
| MikeyLayout.ParamLayout | libmikey/mikey/MikeyPayloadSP.cxx:108-116 | each parameter behind the ones before it: type, length, value |
| MikeyPayload.AddParamOk | libmikey/mikey/MikeyPayloadSP.cxx:84-89 | the list after a parameter is added has distinct types, the new parameter, and all old ones but that of its type |
| MikeyWriter.WriteData | libmikey/mikey/MikeyPayloadHDR.cxx:115-131 | writeData of every payload fills exactly its length() bytes of the buffer with the encoding |
| MikeyWriter.WriteMap | libmikey/mikey/MikeyCsIdMap.cxx:125-169 | the loop over the rows of the map |
| MikeyWriter.WriteParams | libmikey/mikey/MikeyPayloadSP.cxx:108-116 | the loop over the parameters, bounded by the expected length |
| MikeyWriter.WriteFixed | libmikey/mikey/MikeyPayloadT.cxx:145-163 | payloads of fixed size: time stamp, verification, Diffie-Hellman |
| MikeyWriter.WriteCounted | libmikey/mikey/MikeyPayloadID.cxx:75-85 | payloads that are a length and that many bytes |
| MikeyWriter.PutNumber | libmikey/mikey/MikeyPayloadT.cxx:152-162 | the loops that shift out a number byte by byte |
| MikeyWriter.ReadMap | libmikey/mikey/MikeyCsIdMap.cxx:47-100 | the reading loop of the map constructors |
| MikeyList.MessageRoundTrip | libmikey/mikey/MikeyMessage.cxx:260-296 | parsing the bytes of any well-formed, correctly linked list gives the list back and consumes all bytes |
| MikeyLayout.PayloadAt | libmikey/mikey/MikeyMessage.cxx:585-619 | each payload is at the sum of the lengths of those before it |
| MikeyList.ParseSound | libmikey/mikey/MikeyMessage.cxx:260-296 | any accepted message consists of well-formed, correctly linked payloads whose lengths add up to its length |
| MikeyErrors.SpErrors | libmikey/mikey/MikeyPayloadSP.cxx:51-66 | the three errors of the security policy constructor as conditions on the bytes: a parameter leaves the message; a type comes twice in a row; the parameters that are kept do not take what is declared |
| MikeyErrors.OtherErrors | libmikey/mikey/MikeyMessage.cxx:199-258 | of the other payloads only a header has such an error: an IPsec map with nine but not thirteen bytes for each session |
| MikeyErrors.ReadLength | libmikey/mikey/MikeyPayloadSP.cxx:62-65 | the parameters that are read take as much as those on the wire that no later one replaces |
| MikeyErrors.MessageFails | libmikey/mikey/MikeyMessage.cxx:260-296 | a whole message fails with an error if and only if the parser comes to a payload that has it |
| MikeyErrors.MessageOverruns | libmikey/mikey/MikeyMessage.cxx:260-296 | bytes after the message are read if and only if its header, or a security policy the parser comes to, is of that kind |
| MikeyErrors.MessagePastEnd | libmikey/mikey/MikeyPayloadSP.cxx:126-135 | an iterator is moved past the end of its list if and only if the parser comes to a security policy with a type twice in a row |
| MikeyErrors.MessageAsserts | libmikey/mikey/MikeyPayloadSP.cxx:66-66 | an assertion fails if and only if no payload is asked for or the parser comes to a security policy whose length is wrong |
| MikeyErrors.MapCutOff | libmikey/mikey/MikeyPayloadHDR.cxx:81-97 | a message with an IPsec map that is cut off |
| MikeyErrors.ParameterCutOff | libmikey/mikey/MikeyPayloadSP.cxx:62-65 | a message with a parameter that is cut off |
| MikeyErrors.TypeRepeated | libmikey/mikey/MikeyPayloadSP.cxx:126-135 | a message with a type twice in a row |
| MikeyErrors.LengthTooShort | libmikey/mikey/MikeyPayloadSP.cxx:58-66 | a message with a declared length of one byte |
| MikeyList.AddPayloadOk | libmikey/mikey/MikeyMessage.cxx:298-311 | adding a payload keeps every next field naming the successor's type and the last one 0 |
| MikeyList.ReplaceOk | libmikey/mikey/MikeyPayloadSIGN.cxx:109-116 | replacing a payload by one of the same type keeps the links |
| MikeyList.EveryBuild | libmikey/mikey/MikeyMessage.cxx:298-448 | the same after any sequence of additions and later changes, and the result parses back |
| MikeyMessage.MikeyPayloads.AddPayload | libmikey/mikey/MikeyMessage.cxx:298-311 | the list after addPayload; the message is no longer compiled |
| MikeyMessage.MikeyPayloads.Update | libmikey/mikey/MikeyPayloadKEMAC.cxx:195-211 | setMac and setSigData change one payload and not the compiled flag |
| MikeyMessage.MikeyPayloads.Compile | libmikey/mikey/MikeyMessage.cxx:585-602 | the new buffer holds the encoding of the current list, and the flag stays false |
| MikeyMessage.MikeyPayloads.RawMessageData | libmikey/mikey/MikeyMessage.cxx:604-609 | the encoding of the current list for a message under construction, the received bytes for a parsed one |
| MikeyMessage.MikeyPayloads.RawMessageLength | libmikey/mikey/MikeyMessage.cxx:611-619 | the sum of the lengths |
| MikeyMessage.MikeyPayloads.Parse | libmikey/mikey/MikeyMessage.cxx:72-76 | all or nothing: the payloads and the received bytes, or an error and no change |
| MikeyMessage.MikeyPayloads.ExtractPayload | libmikey/mikey/MikeyMessage.cxx:681-701 | the first payload of a type |
| MikeyMessage.MikeyPayloads.RemovePayload | libmikey/mikey/MikeyMessage.cxx:703-712 | the list without it |
| MikeyLayout.FirstOfType | libmikey/mikey/MikeyMessage.cxx:681-712 | the first payload of the type is found, and only it is taken out |
| MikeyMessage.ParsePayload | libmikey/mikey/MikeyMessage.cxx:199-258 | the constructors of header and security policy, with their loops, compute the decoding functions; those of the other payloads are the decoding functions |
| MikeyMessage.ParsePayloads | libmikey/mikey/MikeyMessage.cxx:260-296 | the parsing loop with its cursor, including the final check of the length |
| KeyDerivation.ComputeP | libmikey/keyagreement/KeyAgreement.cxx:133-185 | writes P(s, label, m) as the loop does; the label behind the reused HMAC input stays untouched |
| KeyDerivation.BlockOfP | libmikey/keyagreement/KeyAgreement.cxx:133-185 | for every sequence a with the label first and each other entry the HMAC of the one before it, block i of what is written is the HMAC of a[i + 1] followed by the label |
| KeyDerivation.ComputePrf | libmikey/keyagreement/KeyAgreement.cxx:189-222 | the XOR of P over the pieces of the key the code uses, truncated |
| KeyDerivation.PrfPrefix | libmikey/keyagreement/KeyAgreement.cxx:189-222 | a shorter derived key is a prefix of a longer one |
| KeyDerivation.PrfIsRfcPrf | libmikey/keyagreement/KeyAgreement.cxx:189-222 | PRF(inkey, label) of section 4.1.2 of RFC 3830, as `Rfc3830` states it block by block and byte by byte, for key lengths that are not a multiple of 32 |
| KeyDerivation.PrfAgreesWithRfc | libmikey/keyagreement/KeyAgreement.cxx:189-222 | agreement with RFC 3830 on all keys, labels and HMACs holds if and only if the key length is not a multiple of 32 |
| KeyDerivation.LastChunkDropped | libmikey/keyagreement/KeyAgreement.cxx:213-220 | for every key of the other lengths there is an HMAC for which the two differ |
| KeyDerivation.TailUnused | libmikey/keyagreement/KeyAgreement.cxx:213-220 | for key lengths that are a multiple of 32 the last 32 bytes have no part in the result, for all keys, labels, HMACs and lengths |
| KeyDerivation.TailUnusedExactly | libmikey/keyagreement/KeyAgreement.cxx:213-220 | that is so if and only if the length is a multiple of 32 |
| KeyDerivation.DefaultTgkTail | libmikey/keyagreement/KeyAgreement.cxx:213-220 | keys derived from two TGKs of 192 bytes with the same first 160 are equal |
| KeyDerivation.LabelsDiffer | libmikey/keyagreement/KeyAgreement.cxx:239-290 | labels of different key kinds, sessions, bundles or random values differ |
| KeyDerivation.LabelConstants | libmikey/keyagreement/KeyAgreement.cxx:239-290 | the label of each of the seven kinds is the constant of RFC 3830, the CS ID, the 32-bit bundle id and the random value |
| KeyDerivation.KeyDeriv | libmikey/keyagreement/KeyAgreement.cxx:224-294 | the key derived under the label of kind, session, bundle and random value |
| KeyDerivation.DerivedKeyIs | libmikey/keyagreement/KeyAgreement.cxx:224-294 | so the key is PRF(inkey, label) of RFC 3830 for the label stated byte by byte |
| KeyAgreement.KeyIs | libmikey/keyagreement/KeyAgreement.cxx:296-324 | traffic keys, salts, authentication and encryption keys as the PRF of RFC 3830 on the TGK |
| KeyAgreement.UnusedNumber | libmikey/keyagreement/KeyAgreement.cxx:522-533 | the restarting search ends with the least unused policy number whenever one is unused |
| KeyAgreement.KeyAgreement.SetDefaultPolicy | libmikey/keyagreement/KeyAgreement.cxx:522-548 | appends the default parameters under that number and keeps keys unique |
| KeyAgreement.DefaultValues | libmikey/keyagreement/KeyAgreement.cxx:519-548 | the literal default parameters for SRTP and IPsec |
| KeyAgreement.KeyAgreement.NewPolicyParamType | libmikey/keyagreement/KeyAgreement.cxx:503-517 | appends one parameter under that number and keeps keys unique |
| KeyAgreement.KeyAgreement.SetPolicyParamType | libmikey/keyagreement/KeyAgreement.cxx:492-501 | the lookup of the key that is set gives the new parameter, all other lookups what they gave before, and keys stay unique |
| KeyAgreement.KeyAgreement.GetPolicyParamType | libmikey/keyagreement/KeyAgreement.cxx:550-556 | the first parameter with the key, and its place |
| KeyAgreement.WithParamLookup | libmikey/keyagreement/KeyAgreement.cxx:492-556 | setting a parameter changes the lookup of its own key only, and keeps keys unique |
| KeyAgreement.FindMember | libmikey/keyagreement/KeyAgreement.cxx:550-556 | with unique keys a parameter is found exactly if it is in the list |
| KeyAgreement.FindCsId | libmikey/mikey/MikeyCsIdMap.cxx:171-181 | one more than the first position holding the SSRC, or 0 |
| KeyAgreement.KeyAgreement.AddSrtpStream | libmikey/keyagreement/KeyAgreement.cxx:455-470 | appends an entry and counts it, or overwrites an existing one |
| KeyAgreement.KeyAgreement.SetSrtpStreamSsrc | libmikey/mikey/MikeyCsIdMap.cxx:240-246 | changes the SSRC of an existing entry only |
| KeyAgreement.KeyAgreement.SetSrtpStreamRoc | libmikey/mikey/MikeyCsIdMap.cxx:248-254 | changes the ROC of an existing entry only |
| KeyAgreement.KeyAgreement.Gen | libmikey/keyagreement/KeyAgreement.cxx:296-324 | genTek, genSalt, genEncr and genAuth |
| MikeyStreams.AddStreamsAsInitiator | libmikey/mikey/Mikey.cxx:394-418 | two entries and one default policy per sender, with nCs twice the number of senders |
| MikeyStreams.AddStreamsAsResponder | libmikey/mikey/Mikey.cxx:394-418 | the responder's SSRCs go to the even entries that exist |
| MikeyStreams.SharedMap | libmikey/mikey/Mikey.cxx:394-418 | entry 2j - 1 of the shared map is policy j - 1, the initiator's j-th SSRC and a ROC of 0, and entry 2j the same with the responder's SSRC or 0 |
| MikeyCipher.Encrypt | libmikey/mikey/MikeyMessage.cxx:464-478 | encryption of the key data by the AES object in counter mode, or none |
| MikeyCipher.EncryptedByte | libmikey/mikey/MikeyMessage.cxx:464-478 | byte i of the encrypted data is byte i of the data XORed with a byte of the AES encryption of the IV with the block number in its last two bytes |
| MikeyCipher.DecryptUndoes | libmikey/mikey/MikeyPayloadKEMAC.cxx:151-182 | the receiver's decryption gives the key data back |
| KeyAgreementPsk.KeyAgreementPSK.GenTransp | libmikey/keyagreement/KeyAgreementPSK.cxx:65-81 | the transport keys, derived from the pre-shared key for session 0xFF |
| KeyAgreementPsk.TransportIs | libmikey/keyagreement/KeyAgreementPSK.cxx:65-81 | they are the PRF of RFC 3830 on the pre-shared key, with the CS ID 0xFF, unless its length is a multiple of 32 |
| KeyAgreementPsk.KeyAgreementPSK.DeriveTranspKeys | libmikey/mikey/MikeyMessage.cxx:790-868 | encryption key, IV and authentication key for the known algorithms, and what is left unchanged for unknown ones |
| KeyAgreementPsk.TransportTailUnused | libmikey/keyagreement/KeyAgreementPSK.cxx:65-81 | with pre-shared keys of 32 bytes the transport keys do not depend on the pre-shared key; with longer multiples of 32, not on its last 32 bytes |
| KeyAgreementPsk.MaskSalt | libmikey/mikey/MikeyMessage.cxx:807-826 | the IV is the salt masked with bundle id and time stamp |
| KeyAgreementPsk.IvBytes | libmikey/mikey/MikeyMessage.cxx:807-826 | each byte of the IV: bytes 2 to 5 masked with those of the bundle id, 6 to 13 with those of the time stamp, two zeros at the end |
| MikeyAuth.AddKemacPayload | libmikey/mikey/MikeyMessage.cxx:450-528 | appends a KEMAC payload whose MAC covers the whole message but the MAC, whatever the MAC field held before |
| MikeyAuth.VerifyKemac | libmikey/mikey/MikeyMessage.cxx:942-981 | accepts exactly if the first KEMAC payload carries the MAC of the received bytes but the last 20 |
| MikeyCoverage.MacInputs | libmikey/mikey/MikeyMessage.cxx:505-510 | the MAC is the HMAC of all bytes but the last 20, and in a verification message of these and the eight bytes of the time stamp |
| MikeyCoverage.KemacCovers | libmikey/mikey/MikeyMessage.cxx:505-510 | two messages with the same MAC under every HMAC agree in every byte before the MAC |
| MikeyCoverage.VerCovers | libmikey/mikey/MikeyMessage.cxx:552-568 | and two verification messages also in the time stamp |
| MikeyCoverage.KemacChecked | libmikey/mikey/MikeyMessage.cxx:942-981 | with HMAC-SHA1 the receiver accepts exactly if the MAC is the HMAC of the received bytes but the last 20 |
| MikeyCoverage.ChangedIsRefused | libmikey/mikey/MikeyMessage.cxx:942-981 | a message with the MAC of another one from which it differs before the MAC is refused under some HMAC |
| MikeyAuth.KemacVerifies | libmikey/mikey/MikeyMessage.cxx:450-528 | a message finished by addKemacPayload is accepted under the same authentication key |
| MikeyAuth.KemacVerifiesUnderTail | libmikey/mikey/MikeyMessage.cxx:942-981 | so a message finished under one of two such pre-shared keys is accepted under the other |
| MikeyAuth.VerVerifiesUnderTail | libmikey/mikey/MikeyMessage.cxx:983-1016 | and so is a verification message |
| MikeyAuth.AddVPayload | libmikey/mikey/MikeyMessage.cxx:530-582 | the MAC of a verification message also covers the initiator's time stamp |
| MikeyAuth.VerifyV | libmikey/mikey/MikeyMessage.cxx:983-1016 | accepts exactly if the MAC covers message and remembered time stamp |
| MikeyCoverage.VerChecked | libmikey/mikey/MikeyMessage.cxx:983-1016 | with HMAC-SHA1 exactly if the MAC is the HMAC of the received bytes but the last 20 and of the remembered time stamp |
| MikeyCoverage.ChangedAnswerIsRefused | libmikey/mikey/MikeyMessage.cxx:983-1016 | a verification message with the MAC of another one is refused under some HMAC if it differs before the MAC or the time stamp does |
| MikeyAuth.VerVerifies | libmikey/mikey/MikeyMessage.cxx:530-582 | a message finished by addVPayload is accepted by whoever remembers the time stamp |
| MikeyAuth.VerifyMac | libmikey/mikey/MikeyMessage.cxx:1018-1049 | the comparison with the MAC recomputed under the derived authentication key |
| MikeyAuth.BuildSignData | libmikey/mikey/MikeyMessage.cxx:329-360 | the message without the signature, and both identities and the time stamp if asked for |
| MikeyCoverage.SignedBytes | libmikey/mikey/MikeyMessage.cxx:329-360 | without identities: all bytes before the signature |
| MikeyCoverage.SignedWithIds | libmikey/mikey/MikeyMessage.cxx:329-360 | with identities: these bytes, the two first identities that are not the last payload, and the first time stamp, in this order |
| MikeyAuth.AddSignaturePayload | libmikey/mikey/MikeyMessage.cxx:363-448 | a signature over the message with the correct length field, computed at once if the guess of 128 was right and again otherwise |
| MikeyCoverage.SignatureCovers | libmikey/mikey/MikeyMessage.cxx:363-448 | the signature in the finished message is one of all bytes before it, if its length is the one found out |
| MikeyAuth.VerifySignature | libmikey/mikey/MikeyMessage.cxx:922-940 | accepts exactly if the signature is over what the receiver rebuilds |
| MikeyCoverage.SignatureChecked | libmikey/mikey/MikeyMessage.cxx:922-940 | without identities exactly if it is accepted for all received bytes before it |
| MikeyAuth.SignatureVerifies | libmikey/mikey/MikeyMessage.cxx:363-448 | for every fixed signature length from 1 to 4095, with or without identities and time stamp, the message parses back and its signature is accepted |
| MikeySp.MikeyPayloadSP.DeleteMikeyPolicyParam | libmikey/mikey/MikeyPayloadSP.cxx:126-135 | the loop takes out the parameter of the type and its length off the 16-bit counter, which stays the sum of 2 + length over the list; and when its iterator goes past the end |
| MikeySp.MikeyPayloadSP.AddMikeyPolicyParam | libmikey/mikey/MikeyPayloadSP.cxx:84-89 | adds or replaces a parameter, with types distinct and the counter the sum over the list in 16 bits; or the iterator went past the end, exactly if the last parameter has the type |
| MikeySp.TakenOut | libmikey/mikey/MikeyPayloadSP.cxx:131-131 | what the counter loses with a parameter is what the sum over the list loses, in 16 bits |
| MikeySp.ReadParameters | libmikey/mikey/MikeyPayloadSP.cxx:51-66 | the reading loop of the constructor and its assertion on the counter, with reads past the data as an error value |
| MikeyPolicy.AddPolicyToPayload | libmikey/mikey/MikeyMessage.cxx:714-734 | one payload per policy number and protocol, found through a map, filled in the order of the list |
| MikeyPolicy.AddPolicySent | libmikey/mikey/MikeyMessage.cxx:714-734 | the new payloads carry exactly the entries of the policy |
| MikeyPolicy.AddPolicyOk | libmikey/mikey/MikeyMessage.cxx:714-734 | and the rest of the message changes in next fields only |
| MikeyPolicy.ScanParameters | libmikey/mikey/MikeyMessage.cxx:747-755 | the loop over all types ends because types are distinct, and takes over every parameter |
| MikeyPolicy.AddPolicyToKa | libmikey/mikey/MikeyMessage.cxx:736-759 | takes over the policies of all security policy payloads and removes these |
| MikeyPolicy.ReceivedMembers | libmikey/mikey/MikeyMessage.cxx:736-759 | the receiver holds exactly what it held before and what the payloads carry |
| MikeyPolicy.PolicyArrives | libmikey/mikey/MikeyMessage.cxx:714-759 | every lookup gives the same parameter on both sides |
| MikeyPsk.CreateInit | libmikey/mikey/MikeyMessagePSK.cxx:49-108 | the list of the initiator's message with its KEMAC payload, and the state that is kept |
| MikeyPsk.Authenticate | libmikey/mikey/MikeyMessagePSK.cxx:396-458 | succeeds exactly if the message is accepted, and what is taken from the message |
| MikeyContents.PskAccepted | libmikey/mikey/MikeyMessagePSK.cxx:396-458 | an accepted message is an offer with a good KEMAC payload at its end, or a response with the known bundle id and a good verification payload; and a random value is known |
| MikeyPsk.SetOffer | libmikey/mikey/MikeyMessagePSK.cxx:115-270 | the responder's state after an offer, or the error, for every list of payloads |
| MikeyPsk.TakeHead | libmikey/mikey/MikeyMessagePSK.cxx:123-201 | header and time stamp |
| MikeyPsk.TakeKeys | libmikey/mikey/MikeyMessagePSK.cxx:205-266 | random value, transport keys and TGK |
| MikeyPsk.BuildResponse | libmikey/mikey/MikeyMessagePSK.cxx:276-314 | a response exactly if verification was requested or for IPsec, with its MAC |
| MikeyPsk.ParseResponse | libmikey/mikey/MikeyMessagePSK.cxx:316-394 | the initiator takes over the map, or the error |
| MikeyPsk.InitListShape | libmikey/mikey/MikeyMessagePSK.cxx:59-104 | the five parts of the initiator's message |
| MikeyContents.PskOffer | libmikey/mikey/MikeyMessagePSK.cxx:49-104 | every payload of the offer with every field: version 1, type 0, the verification flag, bundle id and map; the time; policies; the random value; the KEMAC payload |
| MikeyContents.PskOfferKemac | libmikey/mikey/MikeyMessagePSK.cxx:87-104 | the KEMAC payload holds the key data payload with the TGK, encrypted under transport key and IV, and the HMAC of the message |
| MikeyContents.PskAnswer | libmikey/mikey/MikeyMessagePSK.cxx:276-314 | every payload of the response; its MAC is over the message and the time stamp of the offer |
| MikeyContents.PskTaken | libmikey/mikey/MikeyMessagePSK.cxx:115-394 | what setOffer and parseResponse insist on: the data type, the kinds of maps and time stamps, and the payloads that must be there |
| MikeyPskRun.InitLookups | libmikey/mikey/MikeyMessagePSK.cxx:115-266 | every look-up of the responder finds what the initiator put there |
| MikeyPskRun.OfferAccepted | libmikey/mikey/MikeyMessagePSK.cxx:49-266 | the offer as bytes parses back, is accepted, decrypts to the initiator's TGK and carries its policies |
| MikeyPskRun.ResponseAccepted | libmikey/mikey/MikeyMessagePSK.cxx:276-456 | the response as bytes parses back and is accepted |
| MikeyPskRun.SameGroupLength | libmikey/mikey/MikeyMessage.cxx:714-734 | the bytes a policy takes do not depend on the order of its entries, so received policies can be sent again |
| MikeyPskRun.Transmit | libmikey/mikey/MikeyMessage.cxx:658-660 | a list travels as base64 text and is parsed back |
| MikeyPskRun.HonestRun | libmikey/mikey/MikeyMessagePSK.cxx:49-456 | a whole run is accepted on both sides and ends with equal TGK, random value, bundle id, map and policies |
| MikeyPskRun.HonestRunKeys | libmikey/keyagreement/KeyAgreement.cxx:296-312 | and equal traffic keys and salts for every session and length |
| MikeyPskRun.FullRun | libmikey/mikey/Mikey.cxx:70-418 | the same from two fresh parties and their senders, with the shared map spelled out |
| MikeyPskRun.SameKeys | libmikey/keyagreement/KeyAgreement.cxx:224-324 | parties that agree on the state derive the same keys of every kind |
| KeyAgreementDh.KeyAgreementDH.SetGroup | libmikey/keyagreement/KeyAgreementDH.cxx:131-166 | a new key pair for a known group, with the TGK kept if it has the length of the group and random otherwise; no change for an unknown group |
| KeyAgreementDh.ComputeBoth | libmikey/keyagreement/KeyAgreementDH.cxx:188-207 | parties with each other's public keys compute the same TGK |
| MikeyDh.CreateInit | libmikey/mikey/MikeyMessageDH.cxx:50-95 | the list of the initiator's message, signed |
| MikeyDh.Authenticate | libmikey/mikey/MikeyMessageDH.cxx:416-451 | succeeds exactly if the last payload is a signature accepted under the first certificate of the chain |
| MikeyCoverage.LastSignatureChecked | libmikey/mikey/MikeyMessageDH.cxx:416-451 | the last payload must be a signature, accepted for all bytes before it under the first certificate |
| MikeyCoverage.ChangedIsRefusedDh | libmikey/mikey/MikeyMessageDH.cxx:445-448 | a message that differs from the signed one before the signature is refused under some verification function |
| MikeyDh.SetOffer | libmikey/mikey/MikeyMessageDH.cxx:101-226 | the responder's state after an offer, or the error, for every list of payloads |
| MikeyDh.TakeKey | libmikey/mikey/MikeyMessageDH.cxx:163-223 | random value, certificates, group and peer key |
| MikeyDh.BuildResponse | libmikey/mikey/MikeyMessageDH.cxx:230-270 | the list of the response with both public keys, signed |
| MikeyDh.ParseResponse | libmikey/mikey/MikeyMessageDH.cxx:272-414 | map, certificates and peer key, or the error |
| MikeyDh.TakePeerKey | libmikey/mikey/MikeyMessageDH.cxx:332-411 | the key that is not the own one becomes the peer's |
| MikeyDh.ExtractCertificateChain | libmikey/mikey/MikeyMessage.cxx:891-920 | the certificates in order, except from the last payload |
| MikeyDh.AddAllOk | libmikey/mikey/MikeyMessage.cxx:870-888 | adding certificates and keys keeps the links |
| MikeyContents.DhOffer | libmikey/mikey/MikeyMessageDH.cxx:50-95 | every payload of the offer with every field |
| MikeyContents.DhAnswer | libmikey/mikey/MikeyMessageDH.cxx:230-270 | every payload of the response, with the responder's key before the initiator's |
| MikeyContents.DhTaken | libmikey/mikey/MikeyMessageDH.cxx:101-399 | what setOffer and parseResponse insist on, and which keys they find |
| MikeyContents.PeerKeyTaken | libmikey/mikey/MikeyMessageDH.cxx:354-399 | of the two keys one must be the own one, and the other is taken |
| MikeyDhRun.OfferLookups | libmikey/mikey/MikeyMessageDH.cxx:101-223 | every look-up of the responder finds what the initiator put there |
| MikeyDhRun.AnswerLookups | libmikey/mikey/MikeyMessageDH.cxx:272-399 | every look-up of the initiator finds what the responder put there |
| MikeyDhRun.DhOfferAccepted | libmikey/mikey/MikeyMessageDH.cxx:50-226 | the offer as bytes parses back, its signature is accepted under the certificate it carries, and key, random value and policies are found |
| MikeyDhRun.DhAnswerAccepted | libmikey/mikey/MikeyMessageDH.cxx:230-451 | the same for the response |
| MikeyDhRun.AnswerInEitherOrder | libmikey/mikey/MikeyMessageDH.cxx:354-399 | the signed response with its two keys in either order parses back and is accepted, and the key that is not the own one is the peer's |
| MikeyDhRun.HonestDhRun | libmikey/mikey/MikeyMessageDH.cxx:50-451 | a whole run is accepted on both sides, each party ends with the other's public key, and both compute the same TGK |
| CommandDispatcher.StepKeepsInv | libmsip/source/SipCommandDispatcher.cxx:97-228 | every step of every thread keeps the invariant and no assertion fails |
| CommandDispatcher.EveryRun | libmsip/source/SipCommandDispatcher.cxx:97-228 | after every run: queued items equal the semaphore plus producers between push and inc plus the consumer between dec and pop; each queue is delivered first in, first out, exactly once; a low item only when all high items put in so far are delivered |
| CommandDispatcher.EveryRunDelivers | libmsip/source/SipCommandDispatcher.cxx:97-228 | for the items that callers give to enqueue with each priority: those delivered with it and then those waiting are the pushed ones in order, and with the ones of calls under way they are all of them; so each is delivered once at most and nothing else is |
| CommandDispatcher.LowWaitsForHigh | libmsip/source/SipCommandDispatcher.cxx:97-152 | an item given with low priority is delivered only when all high priority items pushed before are |
| CommandDispatcher.EveryRunGoesOn | libmsip/source/SipCommandDispatcher.cxx:97-228 | no run gets stuck: some thread can go on unless nothing is under way, and then a waiting consumer has empty queues |
| CommandDispatcher.PopSafe | libmsip/source/SipCommandDispatcher.cxx:107-111 | the consumer never finds both queues empty |
| SipMessageParser.SipMessageParser.Feed | libmsip/source/SipLayerTransport.cxx:180-244 | one byte of the state machine, with the write index within the buffer: nothing, a message, or an exception of createMessage, which comes after the reset for a text without content and before it for one with content |
| SipMessageParser.SipMessageParser.Init | libmsip/source/SipLayerTransport.cxx:166-174 | back to an empty buffer of one unit |
| SipMessageParser.SipMessageParser.ExpandBuffer | libmsip/source/SipLayerTransport.cxx:247-250 | one more unit, with the bytes kept |
| SipMessageParser.StepKeepsInv | libmsip/source/SipLayerTransport.cxx:180-244 | the states mean what they should, including content that is full and was refused; every text for which createMessage is called is a framed message made of all bytes since the last reset |
| SipMessageParser.NothingLost | libmsip/source/SipLayerTransport.cxx:180-244 | for any stream the texts emitted, those without content that are refused, and what the parser holds are the stream, in order |
| SipMessageParser.EmitsMessages | libmsip/source/SipLayerTransport.cxx:180-244 | of well-framed messages one after the other, if those with content are accepted, exactly the accepted ones are emitted, in order, and the parser ends in its initial state |
| SipMessageParser.InitialExactly | libmsip/source/SipLayerTransport.cxx:180-244 | after well-framed messages of fewer than 2^32 bytes the parser is in its initial state if and only if every message with content was accepted |
| SipMessageParser.Blocked | libmsip/source/SipLayerTransport.cxx:220-237 | once a text with content was refused, no data of fewer than 2^32 bytes leads to a message or an exception, and all of it is kept |
| SipMessageParser.BlockedAfter | libmsip/source/SipLayerTransport.cxx:220-237 | so the first message with content that is refused ends the stream: the accepted ones before it are emitted and everything after it is kept in the buffer |
| SipMessageParser.MalformedBlocks | libmsip/source/SipLayerTransport.cxx:228-234 | a text of eight bytes with this effect |
| SipMessageParser.ReadUpTo | libmsip/source/SipLayerTransport.cxx:1211-1237 | one read is fed completely if nothing is refused, and else up to the first exception |
| SipMessageParser.RestDropped | libmsip/source/SipLayerTransport.cxx:1211-1253 | whatever follows a refused message in the same read is dropped |
| SipMessageParser.AnyReads | libmsip/source/SipLayerTransport.cxx:1211-1237 | as long as nothing is refused it does not matter how a stream is cut into reads |
| SipMessageParser.EmitsFromReads | libmsip/source/SipLayerTransport.cxx:1211-1237 | well-framed messages that are all accepted are emitted, however they are cut into reads |
| SipMessageParser.FramingUnique | libmsip/source/SipLayerTransport.cxx:180-245 | a stream begins with at most one well-framed message |
| SipMessageParser.FeedStream | libmsip/source/SipLayerTransport.cxx:180-244 | the loop around feed on the object, going on after exceptions |
| SipMessageParser.StreamSocketRead | libmsip/source/SipLayerTransport.cxx:1211-1253 | the loop over the bytes of one read, which an exception leaves |
| SipMessageParser.ReadMessages | libmsip/source/SipLayerTransport.cxx:154-244 | a fresh object fed with well-framed messages emits exactly the accepted ones and is in its initial state, if those with content are accepted |

## Left out

- AES: the literal table entries (the tables are their definition in the comment before them), the unrolled branches, the functions for reduced rounds.
- AesModes.AES.constructor: 128-bit keys only; the object's buffer is sized for them and MIKEY and SRTP use no others.
- Base64.Base64RoundTrip: not for empty data: by rules of C++ before C++11 the decoder reads outside its string then, by later ones it finds a NUL there and returns NULL; characters are signed, so that those beyond ASCII index outside the table.
- MikeyPayload.PayloadRoundTrip: key validity other than null, salted key data, and the PKE, CHASH, ERR and general extension payloads are an error value `Unmodelled`; readers and writers of the first two use different offsets and lengths.
- MikeyMessage.MikeyPayloads.Update: payloads, parameters and CS ID maps are values, so a map shared by two objects is not modelled as shared.
- MikeyMessage.MikeyPayloads.Parse: the choice of a message class by data type; each exchange checks the data type itself.
- KeyDerivation.ComputePrf: key and output must not be empty; for these the code reads or writes outside its buffers.
- MikeyStreams.AddStreamsAsInitiator: at most 127 senders, since session numbers have one byte.
- KeyAgreement.KeyAgreement.SetSrtpStreamSsrc: not for session 0, for which the code writes before its vector.
- MikeyPsk.SetOffer: the error messages that failing steps attach to their exceptions, and texts of authentication errors.
- MikeyAuth.AddKemacPayload: the variant over the KEMAC payload alone, which only the public key method uses.
- MikeyDh.SetOffer: validation of certificate chains against a certificate store; SIM cards that keep the keys.
- MikeyDh.CreateInit: the random TGK of a new group only gets its length; computeTgk overwrites it.
- The public key, RSA-R and DH-HMAC exchanges, the state names and SIP transport of `Mikey.cxx`.
- CommandDispatcher.EveryRun: items are numbers; what handling a command does is not modelled, and commands that a handler enqueues appear as those of another producer.
- SipMessageParser.EmitsMessages: the content length is any function of the header bytes, and acceptance by `createMessage` any property of the text; the search for the header field and the parsing of messages are not modelled.
- SipMessageParser.SipMessageParser.Feed: the write index and the length of the buffer have 32 bits and are unbounded here, so texts of 2^32 bytes and more are not modelled; the index in the content has its 32 bits.
- Sockets, DNS, LDAP, HTTP, smart cards, certificates, STUN, dialogs and transactions, and the user interface.
