/** The AES_CBC_HMAC_SHA2 content-encryption composer (A128CBC-HS256 and
    its siblings): it splits the content encryption key (CEK) into a MAC key
    and an encryption key, lets an injected AES-CBC engine encrypt and
    decrypt, and authenticates header, AAD, IV and ciphertext with a
    truncated HMAC tag. */
module ContentEncryption {
  import opened ByteSeq

  datatype Option<T> = None | Some(value: T)

  /** The raw AES-CBC engine chosen when the composer is constructed. Both
      operations take `(data, key, iv)`; what they compute is not part of
      this model. */
  datatype AesEngine = AesEngine(
    encrypt: (Bytes, Bytes, Bytes) -> Bytes,
    decrypt: (Bytes, Bytes, Bytes) -> Bytes)

  /** `hash_hmac(algorithm, data, key, true)`: the raw HMAC output. */
  type HashHmac = (string, Bytes, Bytes) -> Bytes

  /** One composer. `hashAlgorithm` and `keySize` are what a concrete
      variant (A128CBC-HS256, …) returns from `getHashAlgorithm` and
      `getKeySize`. */
  datatype AesCbcHs = AesCbcHs(
    engine: AesEngine,
    hmac: HashHmac,
    hashAlgorithm: string,
    keySize: nat)

  /** What `encryptContent` hands back: its return value and its `&$tag`
      out-parameter. */
  datatype Encrypted = Encrypted(ciphertext: Bytes, tag: Bytes)

  /** The separator written between the encoded header and the AAD. */
  const DOT: Byte := 0x2E

  /** The divisor the code uses to split the AAD length into two words. */
  const AL_DIVISOR: nat := 2147483647

  /** The engine undoes its own encryption under the same key and IV. This
      is a hypothesis about the injected engine, not something the composer
      guarantees. */
  ghost predicate RoundTrips(e: AesEngine)
  {
    forall data, key, iv :: e.decrypt(e.encrypt(data, key, iv), key, iv) == data
  }

  /** The HMAC of `algorithm` always yields `n` bytes (32 for SHA-256). */
  ghost predicate OutputLength(hmac: HashHmac, algorithm: string, n: nat)
  {
    forall data, key :: |hmac(algorithm, data, key)| == n
  }

  /** The first half of the CEK (`substr($cek, 0, strlen($cek) / 2)`). */
  function MacKey(cek: Bytes): (k: Bytes)
    ensures |k| == |cek| / 2 && k == cek[..|k|]
  {
    cek[..|cek| / 2]
  }

  /** The rest of the CEK (`substr($cek, strlen($cek) / 2)`). */
  function EncKey(cek: Bytes): (k: Bytes)
    ensures |k| == |cek| - |cek| / 2 && k == cek[|cek| - |k|..]
  {
    cek[|cek| / 2..]
  }

  /** The two sub-keys partition the CEK; for an even-length CEK they have
      the same length, otherwise the encryption key is one byte longer. */
  lemma KeySplitIsPartition(cek: Bytes)
    ensures MacKey(cek) + EncKey(cek) == cek
    ensures |MacKey(cek)| == |cek| / 2
    ensures |EncKey(cek)| == |MacKey(cek)| + |cek| % 2
    ensures |cek| % 2 == 0 ==> |MacKey(cek)| == |EncKey(cek)|
  {
  }

  /** The authenticated data: the encoded header, followed by `.` and the
      AAD only when an AAD is present. */
  function AuthenticatedData(aad: Option<Bytes>, header: Bytes): (r: Bytes)
    ensures |header| <= |r| && r[..|header|] == header
    ensures aad.None? ==> |r| == |header|
    ensures aad.Some? ==> |r| == |header| + 1 + |aad.value| && r[|header|] == DOT && r[|header| + 1..] == aad.value
  {
    match aad
    case None => header
    case Some(a) => header + [DOT] + a
  }

  /** The 8-byte length field: `pack('N2', ($len / 2147483647) * 8,
      ($len % 2147483647) * 8)` with `$len` the length of the encoded header
      alone. The first word is the PHP float quotient truncated by `pack`,
      taken here as exact floor division. */
  function AuthDataLengthField(header: Bytes): (r: Bytes)
    ensures |r| == 8
    ensures |header| < 0x1000_0000 ==> BigEndianValue(r) == 8 * |header|
  {
    var len := |header|;
    var r := PackN2((len * 8) / AL_DIVISOR, (len % AL_DIVISOR) * 8);
    if len < 0x1000_0000 then SmallLengthWords(len); r else r
  }

  /** Below 2^28 bytes, the high word of the length field is zero and the
      low word is the bit count itself. */
  lemma SmallLengthWords(len: nat)
    requires len < 0x1000_0000
    ensures (len * 8) / AL_DIVISOR % TWO_32 == 0 && (len % AL_DIVISOR) * 8 % TWO_32 == 8 * len
  {
    assert len * 8 < AL_DIVISOR;
    assert len % AL_DIVISOR == len;
  }

  /** The length field at the end of the MAC input depends on the header's
      length and on nothing else: never on the AAD, whether absent, empty or
      not. */
  lemma LengthFieldIgnoresAad(ciphertext: Bytes, iv: Bytes, aad1: Option<Bytes>, aad2: Option<Bytes>, h1: Bytes, h2: Bytes)
    requires |h1| == |h2|
    ensures var m1, m2 := MacInput(ciphertext, iv, aad1, h1), MacInput(ciphertext, iv, aad2, h2);
      m1[|m1| - 8..] == m2[|m2| - 8..]
  {
    MacInputLayout(ciphertext, iv, aad1, h1);
    MacInputLayout(ciphertext, iv, aad2, h2);
  }

  /** For headers shorter than 2^28 bytes the length field is the 64-bit
      big-endian bit length of the header: four zero bytes, then the 32-bit
      big-endian value of 8 * |header|. */
  lemma LengthFieldIsBitLength(header: Bytes)
    requires |header| < 0x1000_0000
    ensures AuthDataLengthField(header) == UInt64BE(8 * |header|)
    ensures AuthDataLengthField(header) == [0, 0, 0, 0] + UInt32BE(8 * |header|)
    ensures BigEndianValue(AuthDataLengthField(header)) == 8 * |header|
  {
    var len := |header|;
    assert (len * 8) / AL_DIVISOR == 0;
    assert (len % AL_DIVISOR) * 8 == 8 * len;
    assert UInt32BE(0) == [0, 0, 0, 0];
    UInt64BEOfSmall(8 * len);
  }

  /** The AL value of the example in Appendix B.1 of RFC 7518: 42 bytes of
      authenticated data give 336 bits, 00 00 00 00 00 00 01 50. */
  lemma LengthFieldOf42ByteHeader(header: Bytes)
    requires |header| == 42
    ensures AuthDataLengthField(header) == [0, 0, 0, 0, 0, 0, 0x01, 0x50]
  {
    LengthFieldIsBitLength(header);
    assert UInt32BE(336) == [0, 0, 0x01, 0x50];
  }

  /** Among headers shorter than 2^29 bytes, the length field is the 64-bit
      big-endian bit length exactly when the header is shorter than 2^28
      bytes: from 2^28 on, the division by 2^31 - 1 puts a non-zero value in
      the high word. */
  lemma LengthFieldExactIff(header: Bytes)
    requires |header| < 0x2000_0000
    ensures AuthDataLengthField(header) == UInt64BE(8 * |header|) <==> |header| < 0x1000_0000
  {
    var len := |header|;
    if len < 0x1000_0000 {
      LengthFieldIsBitLength(header);
    } else {
      var r := AuthDataLengthField(header);
      var hi := (len * 8) / AL_DIVISOR;
      assert 1 <= hi < 3;
      assert BigEndianValue(r[..4]) == hi;
      assert BigEndianValue(UInt64BE(8 * len)[..4]) == 0 by {
        assert (8 * len) / TWO_32 == 0;
        assert UInt64BE(8 * len)[..4] == UInt32BE(0);
      }
    }
  }

  /** The input to the HMAC: authenticated data, IV, ciphertext and the
      length field, in that order (`implode('', […])`). */
  function MacInput(ciphertext: Bytes, iv: Bytes, aad: Option<Bytes>, header: Bytes): (r: Bytes)
    ensures |r| == |header| + (if aad.Some? then 1 + |aad.value| else 0) + |iv| + |ciphertext| + 8
  {
    AuthenticatedData(aad, header) + iv + ciphertext + AuthDataLengthField(header)
  }

  /** The MAC input splits back into its four parts: authenticated data,
      IV, ciphertext and the 8-byte length field. */
  lemma MacInputLayout(ciphertext: Bytes, iv: Bytes, aad: Option<Bytes>, header: Bytes)
    ensures var r, ad := MacInput(ciphertext, iv, aad, header), AuthenticatedData(aad, header);
      && |r| == |ad| + |iv| + |ciphertext| + 8
      && r[..|ad|] == ad
      && r[|ad|..|ad| + |iv|] == iv
      && r[|ad| + |iv|..|r| - 8] == ciphertext
      && r[|r| - 8..] == AuthDataLengthField(header)
  {
    var r, ad := MacInput(ciphertext, iv, aad, header), AuthenticatedData(aad, header);
    assert r[..|ad|] == ad;
    assert r[|ad|..|ad| + |iv|] == iv;
    assert r[|ad| + |iv|..|r| - 8] == ciphertext;
  }

  /** For the same header, AAD and IV length, the MAC input determines the
      IV and the ciphertext. */
  lemma MacInputDeterminesIvAndCiphertext(ct1: Bytes, iv1: Bytes, ct2: Bytes, iv2: Bytes, aad: Option<Bytes>, header: Bytes)
    requires |iv1| == |iv2|
    ensures MacInput(ct1, iv1, aad, header) == MacInput(ct2, iv2, aad, header) <==> iv1 == iv2 && ct1 == ct2
  {
    var m1, m2 := MacInput(ct1, iv1, aad, header), MacInput(ct2, iv2, aad, header);
    var ad := AuthenticatedData(aad, header);
    MacInputLayout(ct1, iv1, aad, header);
    MacInputLayout(ct2, iv2, aad, header);
    if m1 == m2 {
      assert iv1 == m1[|ad|..|ad| + |iv1|] == iv2;
      assert ct1 == m1[|ad| + |iv1|..|m1| - 8] == ct2;
    }
  }

  /** An absent AAD and an empty AAD are not the same: the empty one still
      adds the `.` separator, so the MAC inputs differ. */
  lemma AbsentAndEmptyAadDiffer(ciphertext: Bytes, iv: Bytes, header: Bytes)
    ensures AuthenticatedData(Some([]), header) == AuthenticatedData(None, header) + [DOT]
    ensures MacInput(ciphertext, iv, None, header) != MacInput(ciphertext, iv, Some([]), header)
  {
    assert |MacInput(ciphertext, iv, None, header)| + 1 == |MacInput(ciphertext, iv, Some([]), header)|;
  }

  /** With an AAD, the MAC input does not fix where the AAD ends and where
      the IV ends: moving the IV to the end of the AAD and the first IV-length
      bytes of the ciphertext into the IV gives the same bytes, because the
      length field counts the header only. */
  lemma MacInputAmbiguousWithAad(ciphertext: Bytes, iv: Bytes, aad: Bytes, header: Bytes)
    requires |iv| <= |ciphertext|
    ensures MacInput(ciphertext, iv, Some(aad), header)
         == MacInput(ciphertext[|iv|..], ciphertext[..|iv|], Some(aad + iv), header)
  {
    assert AuthenticatedData(Some(aad + iv), header) == AuthenticatedData(Some(aad), header) + iv;
    assert ciphertext == ciphertext[..|iv|] + ciphertext[|iv|..];
  }

  /** `calculateAuthenticationTag`: the first half of the HMAC, keyed with
      the MAC key, of the MAC input. */
  function CalculateAuthenticationTag(c: AesCbcHs, ciphertext: Bytes, cek: Bytes, iv: Bytes, aad: Option<Bytes>, header: Bytes): (tag: Bytes)
    ensures var full := c.hmac(c.hashAlgorithm, MacInput(ciphertext, iv, aad, header), MacKey(cek));
      |tag| == |full| / 2 && tag == full[..|tag|]
  {
    var hash := c.hmac(c.hashAlgorithm, MacInput(ciphertext, iv, aad, header), MacKey(cek));
    hash[..|hash| / 2]
  }

  /** With an HMAC of `n` output bytes every tag has `n / 2` bytes: 16 for
      HS256, 24 for HS384, 32 for HS512. */
  lemma TagLength(c: AesCbcHs, n: nat, ciphertext: Bytes, cek: Bytes, iv: Bytes, aad: Option<Bytes>, header: Bytes)
    requires OutputLength(c.hmac, c.hashAlgorithm, n)
    ensures |CalculateAuthenticationTag(c, ciphertext, cek, iv, aad, header)| == n / 2
    ensures n == 32 ==> |CalculateAuthenticationTag(c, ciphertext, cek, iv, aad, header)| == 16
  {
    var full := c.hmac(c.hashAlgorithm, MacInput(ciphertext, iv, aad, header), MacKey(cek));
    assert |full| == n;
  }

  /** `checkAuthenticationTag`: the supplied tag is identical to the
      recomputed one (a plain comparison, `===`). A tag passes exactly when
      it is the first half of the HMAC of the MAC input under the MAC key. */
  predicate CheckAuthenticationTag(c: AesCbcHs, ciphertext: Bytes, cek: Bytes, iv: Bytes, aad: Option<Bytes>, header: Bytes, tag: Bytes): (ok: bool)
    ensures var full := c.hmac(c.hashAlgorithm, MacInput(ciphertext, iv, aad, header), MacKey(cek));
      ok <==> |tag| == |full| / 2 && tag == full[..|tag|]
  {
    tag == CalculateAuthenticationTag(c, ciphertext, cek, iv, aad, header)
  }

  /** The tag depends on the first half of the CEK only: replacing the
      encryption key by any other of the same length leaves every tag as it
      was. */
  lemma TagIgnoresEncKey(c: AesCbcHs, ciphertext: Bytes, cek: Bytes, otherEncKey: Bytes, iv: Bytes, aad: Option<Bytes>, header: Bytes)
    requires |otherEncKey| == |EncKey(cek)|
    ensures MacKey(MacKey(cek) + otherEncKey) == MacKey(cek)
    ensures CalculateAuthenticationTag(c, ciphertext, MacKey(cek) + otherEncKey, iv, aad, header)
         == CalculateAuthenticationTag(c, ciphertext, cek, iv, aad, header)
  {
    var k := MacKey(cek) + otherEncKey;
    assert |k| == |cek|;
    assert k[..|k| / 2] == MacKey(cek);
  }

  /** `encryptContent`: encrypt under the encryption key, then tag the
      ciphertext. The tag it produces is the one the check accepts. */
  function EncryptContent(c: AesCbcHs, data: Bytes, cek: Bytes, iv: Bytes, aad: Option<Bytes>, header: Bytes): (r: Encrypted)
    ensures r.ciphertext == c.engine.encrypt(data, EncKey(cek), iv)
    ensures CheckAuthenticationTag(c, r.ciphertext, cek, iv, aad, header, r.tag)
  {
    var ciphertext := c.engine.encrypt(data, EncKey(cek), iv);
    var tag := CalculateAuthenticationTag(c, ciphertext, cek, iv, aad, header);
    Encrypted(ciphertext, tag)
  }

  /** `decryptContent`: a plaintext exactly when the tag checks, and then
      the engine's decryption under the encryption key; `null` otherwise. */
  function DecryptContent(c: AesCbcHs, data: Bytes, cek: Bytes, iv: Bytes, aad: Option<Bytes>, header: Bytes, tag: Bytes): (r: Option<Bytes>)
    ensures r.Some? <==> CheckAuthenticationTag(c, data, cek, iv, aad, header, tag)
    ensures r.Some? ==> r.value == c.engine.decrypt(data, EncKey(cek), iv)
  {
    if !CheckAuthenticationTag(c, data, cek, iv, aad, header, tag) then
      None
    else
      Some(c.engine.decrypt(data, EncKey(cek), iv))
  }

  /** Encryption and decryption hand the engine the same key for the same
      CEK: the bytes of the CEK after its first half. */
  lemma SameEncryptionKey(c: AesCbcHs, data: Bytes, cek: Bytes, iv: Bytes, aad: Option<Bytes>, header: Bytes, tag: Bytes)
    ensures EncryptContent(c, data, cek, iv, aad, header).ciphertext == c.engine.encrypt(data, cek[|cek| / 2..], iv)
    ensures DecryptContent(c, data, cek, iv, aad, header, tag).Some? ==>
      DecryptContent(c, data, cek, iv, aad, header, tag).value == c.engine.decrypt(data, cek[|cek| / 2..], iv)
  {
  }

  /** A wrong tag yields no plaintext, and the outcome is the same whatever
      the engine's decryption does: it is never consulted. */
  lemma BadTagNeverDecrypts(c: AesCbcHs, otherDecrypt: (Bytes, Bytes, Bytes) -> Bytes, data: Bytes, cek: Bytes, iv: Bytes, aad: Option<Bytes>, header: Bytes, tag: Bytes)
    ensures tag != CalculateAuthenticationTag(c, data, cek, iv, aad, header) ==>
      && DecryptContent(c, data, cek, iv, aad, header, tag) == None
      && DecryptContent(c.(engine := c.engine.(decrypt := otherDecrypt)), data, cek, iv, aad, header, tag) == None
  {
  }

  /** Decrypting what `encryptContent` produced, with the same CEK, IV, AAD
      and header, gives back the plaintext, provided the engine undoes its
      own encryption. */
  lemma RoundTrip(c: AesCbcHs, data: Bytes, cek: Bytes, iv: Bytes, aad: Option<Bytes>, header: Bytes)
    requires RoundTrips(c.engine)
    ensures var e := EncryptContent(c, data, cek, iv, aad, header);
      DecryptContent(c, e.ciphertext, cek, iv, aad, header, e.tag) == Some(data)
  {
    var e := EncryptContent(c, data, cek, iv, aad, header);
    assert c.engine.decrypt(c.engine.encrypt(data, EncKey(cek), iv), EncKey(cek), iv) == data;
  }

  /** The consequence of `MacInputAmbiguousWithAad`: a tag produced by
      `encryptContent` with an AAD is accepted by `decryptContent` for a
      different AAD (the original one followed by the IV), a different IV
      and a shorter ciphertext. */
  lemma ShiftedAadAccepted(c: AesCbcHs, data: Bytes, cek: Bytes, iv: Bytes, aad: Bytes, header: Bytes)
    requires |iv| <= |EncryptContent(c, data, cek, iv, Some(aad), header).ciphertext|
    ensures var e := EncryptContent(c, data, cek, iv, Some(aad), header);
      DecryptContent(c, e.ciphertext[|iv|..], cek, e.ciphertext[..|iv|], Some(aad + iv), header, e.tag).Some?
  {
    var e := EncryptContent(c, data, cek, iv, Some(aad), header);
    MacInputAmbiguousWithAad(e.ciphertext, iv, aad, header);
  }

  /** `getIVSize`: the IV is one AES block, 128 bits, for every variant. */
  function IVSize(c: AesCbcHs): (bits: nat)
    ensures bits == 128
  {
    128
  }

  /** `getCEKSize`: the variant's key size. */
  function CEKSize(c: AesCbcHs): (bits: nat)
    ensures bits == c.keySize
  {
    c.keySize
  }

  /** The variants of section 5.2 of RFC 7518 have a key size equal to the
      HMAC output (256 bits for HS256, 384 for HS384, 512 for HS512). A CEK of
      `getCEKSize()` bits then splits into a MAC key and an encryption key of
      half an HMAC output each, and its tags are half an HMAC output long:
      16 bytes each for A128CBC-HS256. */
  lemma CekSizeMatchesHash(c: AesCbcHs, n: nat, cek: Bytes, ciphertext: Bytes, iv: Bytes, aad: Option<Bytes>, header: Bytes)
    requires OutputLength(c.hmac, c.hashAlgorithm, n)
    requires c.keySize == 8 * n && n % 2 == 0 && 8 * |cek| == CEKSize(c)
    ensures |MacKey(cek)| == |EncKey(cek)| == n / 2
    ensures |CalculateAuthenticationTag(c, ciphertext, cek, iv, aad, header)| == n / 2
  {
    TagLength(c, n, ciphertext, cek, iv, aad, header);
  }
}
