# AES_CBC_HMAC_SHA2 content encryption (jose, `AESCBCHS`)

A Dafny model of the abstract `AESCBCHS` class of the jose library, the
content-encryption composer behind A128CBC-HS256, A192CBC-HS384 and
A256CBC-HS512 (section 5.2 of RFC 7518, used for JWE as in section 5.1 of
RFC 7516). The composer

- splits the content encryption key (CEK) into a MAC key (first half) and an
  encryption key (the rest);
- hands AES-CBC encryption and decryption to an engine chosen at
  construction;
- authenticates the encoded protected header (followed by `.` and the AAD
  when one is given), the IV, the ciphertext and an 8-byte length field with
  `hash_hmac`, and keeps the first half of the HMAC as the tag;
- on decryption returns `null` unless the supplied tag equals the recomputed
  one, and only then asks the engine to decrypt.

The class holds no state besides the engine, so the model is functional:

- `byteseq.dfy` (module `ByteSeq`): byte strings and the big-endian packing
  done by `pack('N', …)` and `pack('N2', …)`, with their decoders.
- `aescbchs.dfy` (module `ContentEncryption`): the composer. `AesCbcHs` is a
  value holding the engine, `hash_hmac`, and the two per-variant parameters
  (`getHashAlgorithm`, `getKeySize`). The engine and the HMAC are
  function-valued fields, so nothing is assumed about what they compute. The
  engine's round trip (`RoundTrips`) and the HMAC output length
  (`OutputLength`) are predicates that lemmas take as hypotheses.
  `encryptContent`'s by-reference `&$tag` becomes the `tag` field of its
  result. `decryptContent`'s `null` becomes `None`.
- `rfc7518.dfy` (module `Rfc7518`): the MAC input and tag as RFC 7518 defines
  them, used to state where the code agrees with the standard and where it
  does not.

Because every operation is a function, two calls with the same inputs give
the same ciphertext and tag.

### Deviations from RFC 7518 that the model keeps

- **AL counts the header only.** The length field is computed from
  `strlen($encoded_header)` (AESCBCHS.php line 91). Section 5.2.2.1 of
  RFC 7518 defines AL as the bit length of all of A, which is the header plus
  `.` and the AAD when an AAD is present. The model follows the code.
  `Rfc7518.MacInputMatchesRfcIffNoAad` proves that the two MAC inputs agree
  exactly when no AAD is given.
- **The length packing is exact only below 2^28 header bytes.** The field is
  `pack('N2', ($len / 2147483647) * 8, ($len % 2147483647) * 8)`. It equals the
  64-bit big-endian bit length for headers shorter than 2^28 bytes. From
  2^28 bytes on, the high word becomes non-zero about 2^31 bits too early.
  `ContentEncryption.LengthFieldExactIff` proves both directions for headers
  below 2^29 bytes.
- **With an AAD, the MAC input does not fix the boundaries of its parts.**
  Because AL does not count the `.` and the AAD, nothing in the MAC input says
  where the AAD ends. Moving the IV to the end of the AAD, and the first IV
  bytes of the ciphertext into the IV, leaves the MAC input unchanged
  (`ContentEncryption.MacInputAmbiguousWithAad`). So a tag made for one
  (AAD, IV, ciphertext) triple is also accepted for the shifted triple
  (`ContentEncryption.ShiftedAadAccepted`). Under RFC 7518 the two MAC inputs
  differ (`Rfc7518.RfcMacInputDistinguishesShift`).

## Model

| member | source | states |
|---|---|---|
| `ContentEncryption.MacKey` | lib/Algorithm/ContentEncryption/AESCBCHS.php:90-90 | the MAC key is the first ⌊len(cek)/2⌋ bytes of the CEK |
| `ContentEncryption.EncKey` | lib/Algorithm/ContentEncryption/AESCBCHS.php:45-45 | the encryption key is the last len(cek) − ⌊len(cek)/2⌋ bytes of the CEK (the same expression recurs at line 70) |
| `ContentEncryption.KeySplitIsPartition` | lib/Algorithm/ContentEncryption/AESCBCHS.php:45-90 | MAC key ++ encryption key == CEK; the MAC key is the first ⌊len(cek)/2⌋ bytes; the halves have equal length for an even CEK, and the encryption key is one byte longer for an odd one |
| `ContentEncryption.AuthenticatedData` | lib/Algorithm/ContentEncryption/AESCBCHS.php:86-89 | the header is a prefix; with no AAD nothing follows it; with an AAD, `.` and then exactly the AAD follow it |
| `ContentEncryption.AbsentAndEmptyAadDiffer` | lib/Algorithm/ContentEncryption/AESCBCHS.php:86-89 | an empty AAD adds exactly the `.` byte compared with an absent one, so the two MAC inputs differ |
| `ContentEncryption.AuthDataLengthField` | lib/Algorithm/ContentEncryption/AESCBCHS.php:91-97 | the length field is 8 bytes, computed from the header's length alone; below 2^28 header bytes its big-endian value is the header's bit count |
| `ContentEncryption.LengthFieldIgnoresAad` | lib/Algorithm/ContentEncryption/AESCBCHS.php:91-97 | the last 8 bytes of the MAC input are the same for any two headers of equal length, whatever the AAD |
| `ContentEncryption.LengthFieldIsBitLength` | lib/Algorithm/ContentEncryption/AESCBCHS.php:91-97 | below 2^28 header bytes the field is the 64-bit big-endian value of 8·len(header): four zero bytes, then the 32-bit value; it decodes back to 8·len(header) |
| `ContentEncryption.LengthFieldExactIff` | lib/Algorithm/ContentEncryption/AESCBCHS.php:97-97 | for headers below 2^29 bytes, the packed field equals the 64-bit big-endian bit length if and only if the header is shorter than 2^28 bytes |
| `ContentEncryption.LengthFieldOf42ByteHeader` | lib/Algorithm/ContentEncryption/AESCBCHS.php:91-97 | a 42-byte header gives the AL of RFC 7518 Appendix B.1, 00 00 00 00 00 00 01 50 |
| `ContentEncryption.MacInput` | lib/Algorithm/ContentEncryption/AESCBCHS.php:93-98 | the MAC input is as long as the header, the `.` and AAD when present, the IV, the ciphertext and 8 bytes together |
| `ContentEncryption.MacInputLayout` | lib/Algorithm/ContentEncryption/AESCBCHS.php:93-98 | the MAC input splits into authenticated data, IV, ciphertext and the 8-byte length field, in that order and with those lengths |
| `ContentEncryption.MacInputDeterminesIvAndCiphertext` | lib/Algorithm/ContentEncryption/AESCBCHS.php:93-98 | for a fixed header, AAD and IV length, two MAC inputs are equal if and only if their IVs and ciphertexts are |
| `ContentEncryption.MacInputAmbiguousWithAad` | lib/Algorithm/ContentEncryption/AESCBCHS.php:86-98 | with an AAD, the MAC input of (ciphertext, IV, AAD) equals that of (ciphertext without its first len(iv) bytes, those bytes as IV, AAD followed by the IV), because AL counts the header only |
| `ContentEncryption.CalculateAuthenticationTag` | lib/Algorithm/ContentEncryption/AESCBCHS.php:84-102 | the tag is the first ⌊len(h)/2⌋ bytes of h = HMAC(hash algorithm, MAC input, MAC key), so a prefix of the full HMAC |
| `ContentEncryption.TagLength` | lib/Algorithm/ContentEncryption/AESCBCHS.php:99-101 | an HMAC of n output bytes gives tags of n/2 bytes; 32 bytes give 16 |
| `ContentEncryption.CheckAuthenticationTag` | lib/Algorithm/ContentEncryption/AESCBCHS.php:114-117 | a tag passes if and only if it is the first half of the HMAC of the MAC input under the MAC key, that is the recomputed tag |
| `ContentEncryption.TagIgnoresEncKey` | lib/Algorithm/ContentEncryption/AESCBCHS.php:90-101 | replacing the second half of the CEK by any bytes of the same length keeps the MAC key and every tag unchanged |
| `ContentEncryption.EncryptContent` | lib/Algorithm/ContentEncryption/AESCBCHS.php:43-52 | the ciphertext is the engine's encryption under the encryption key, and the tag returned is accepted by `checkAuthenticationTag` for the same ciphertext, CEK, IV, AAD and header |
| `ContentEncryption.DecryptContent` | lib/Algorithm/ContentEncryption/AESCBCHS.php:64-73 | a plaintext is returned if and only if the tag check passes, and it is then the engine's decryption under the encryption key |
| `ContentEncryption.SameEncryptionKey` | lib/Algorithm/ContentEncryption/AESCBCHS.php:45-47 | encryption and decryption both give the engine `cek[⌊len(cek)/2⌋..]` as key |
| `ContentEncryption.BadTagNeverDecrypts` | lib/Algorithm/ContentEncryption/AESCBCHS.php:114-117 | a tag different from the recomputed one gives `null`, and the result is the same for any engine decryption function, so decryption is never consulted |
| `ContentEncryption.RoundTrip` | lib/Algorithm/ContentEncryption/AESCBCHS.php:64-73 | if the engine undoes its own encryption, decrypting `encryptContent`'s ciphertext and tag with the same CEK, IV, AAD and header returns the plaintext |
| `ContentEncryption.ShiftedAadAccepted` | lib/Algorithm/ContentEncryption/AESCBCHS.php:64-98 | a ciphertext and tag from `encryptContent` with an AAD decrypt (are not rejected) under the AAD followed by the IV, the first len(iv) ciphertext bytes as IV, and the rest of the ciphertext |
| `ContentEncryption.IVSize` | lib/Algorithm/ContentEncryption/AESCBCHS.php:132-135 | the IV size is 128 bits for every variant |
| `ContentEncryption.CEKSize` | lib/Algorithm/ContentEncryption/AESCBCHS.php:140-143 | the CEK size is the variant's key size |
| `ContentEncryption.CekSizeMatchesHash` | lib/Algorithm/ContentEncryption/AESCBCHS.php:140-143 | for a variant whose key size equals the HMAC output of n bytes (n even), a CEK of `getCEKSize()` bits splits into a MAC key and an encryption key of n/2 bytes each, and tags are n/2 bytes: 16, 16 and 16 bytes for a 256-bit key with SHA-256 |
| `ByteSeq.UInt32BE` | lib/Algorithm/ContentEncryption/AESCBCHS.php:97-97 | `pack('N', v)` gives four bytes that decode back to v |
| `ByteSeq.UInt32BEInjective` | lib/Algorithm/ContentEncryption/AESCBCHS.php:97-97 | two 32-bit values pack to the same bytes if and only if they are equal |
| `ByteSeq.EncodeDecodeUInt32BE` | lib/Algorithm/ContentEncryption/AESCBCHS.php:97-97 | every 4-byte string is the packing of the value it decodes to |
| `ByteSeq.BigEndianInjective` | lib/Algorithm/ContentEncryption/AESCBCHS.php:97-97 | byte strings of equal length and equal big-endian value are equal |
| `ByteSeq.BigEndianAppend` | lib/Algorithm/ContentEncryption/AESCBCHS.php:97-97 | the big-endian value of two concatenated byte strings is the front's value shifted left by the back's length plus the back's value; this is what makes the two `N` words of `pack('N2', …)` one 64-bit number |
| `ByteSeq.PackN2` | lib/Algorithm/ContentEncryption/AESCBCHS.php:97-97 | `pack('N2', a, b)` gives 8 bytes whose halves decode to the low 32 bits of a and of b, and whose 64-bit big-endian value is those two words joined |
| `Rfc7518.RfcMacInput` | lib/Algorithm/ContentEncryption/AESCBCHS.php:93-98 | the RFC's MAC input ends in the 64-bit big-endian bit length of all the authenticated data |
| `Rfc7518.MacInputMatchesRfcIffNoAad` | lib/Algorithm/ContentEncryption/AESCBCHS.php:86-98 | below 2^28 bytes of authenticated data, the code's MAC input equals the RFC's if and only if no AAD is given |
| `Rfc7518.RfcMacInputDistinguishesShift` | lib/Algorithm/ContentEncryption/AESCBCHS.php:86-98 | the RFC's MAC input does change when a non-empty IV moves to the end of the AAD, since AL then grows |
| `Rfc7518.TagMatchesRfcWithoutAad` | lib/Algorithm/ContentEncryption/AESCBCHS.php:84-102 | without an AAD, the code's tag is the RFC's tag |

## Left out

- The constructor's engine detection (`extension_loaded` probing of OpenSSL and
  MCrypt, and the `RuntimeException` when neither is present). The engine is a
  field of `AesCbcHs` instead.
- The AES-CBC engines (`AESOpenSSL`, `AESMCrypt`) and PKCS#7 padding are not
  part of this model. The engine is any pair of total functions. An engine
  failure (a `false` return from the PHP extension) is not modelled.
- `hash_hmac` and the SHA-2 functions. The HMAC is any function; only its
  output length enters, as the `OutputLength` hypothesis.
- The concrete variants (A128CBC-HS256 and the others) are not part of this
  model. Their `getHashAlgorithm` and `getKeySize` are the `hashAlgorithm` and
  `keySize` fields.
- Timing. The `===` tag comparison is sequence equality. A constant-time
  comparison cannot be stated in Dafny.
- AuthDataLengthField: the PHP float quotient `$len / 2147483647` is taken as
  exact division truncated by `pack`. Double rounding, which only matters for
  lengths far beyond any real header, is not modelled.
- Tag sensitivity. Different tags for different MAC inputs (for an absent
  and an empty AAD, or after a flipped ciphertext bit) depend on HMAC being
  collision resistant, which the model does not state. Where the model shows
  that two MAC inputs differ, only the inputs differ. A change to the second
  half of the CEK leaves the tag unchanged (`ContentEncryption.TagIgnoresEncKey`).
  With an AAD, some different triples share one MAC input
  (`ContentEncryption.MacInputAmbiguousWithAad`).
- The PHP type juggling of non-string arguments (a `null` tag, `false` from
  `substr` on an empty CEK in old PHP versions) is not modelled. All
  arguments are byte strings, and the tag check compares bytes.
