/** The MAC input and tag as section 5.2.2.1 of RFC 7518 defines them, with
    the JWE additional authenticated data of section 5.1 of RFC 7516 (the
    encoded protected header, then `.` and the AAD when there is one). The
    composer differs in one place: its length field AL counts the encoded
    header only, where the RFC counts all of the authenticated data. */
module Rfc7518 {
  import opened ByteSeq
  import opened ContentEncryption

  /** A || IV || E || AL, where AL is the number of bits of A as a 64-bit
      big-endian integer. */
  function RfcMacInput(ciphertext: Bytes, iv: Bytes, aad: Option<Bytes>, header: Bytes): (r: Bytes)
    requires 8 * |AuthenticatedData(aad, header)| < TWO_64
    ensures |r| == |AuthenticatedData(aad, header)| + |iv| + |ciphertext| + 8
    ensures BigEndianValue(r[|r| - 8..]) == 8 * |AuthenticatedData(aad, header)|
  {
    var a := AuthenticatedData(aad, header);
    var r := a + iv + ciphertext + UInt64BE(8 * |a|);
    assert r[|r| - 8..] == UInt64BE(8 * |a|);
    r
  }

  /** T: the first half of the HMAC of the RFC's MAC input under MAC_KEY. */
  function RfcTag(c: AesCbcHs, ciphertext: Bytes, cek: Bytes, iv: Bytes, aad: Option<Bytes>, header: Bytes): (tag: Bytes)
    requires 8 * |AuthenticatedData(aad, header)| < TWO_64
    ensures var full := c.hmac(c.hashAlgorithm, RfcMacInput(ciphertext, iv, aad, header), MacKey(cek));
      |tag| == |full| / 2 && tag == full[..|tag|]
  {
    var m := c.hmac(c.hashAlgorithm, RfcMacInput(ciphertext, iv, aad, header), MacKey(cek));
    m[..|m| / 2]
  }

  /** For authenticated data shorter than 2^28 bytes, the composer's MAC
      input is the RFC's exactly when no AAD is given: with an AAD, the
      composer's AL omits the `.` and the AAD. */
  lemma MacInputMatchesRfcIffNoAad(ciphertext: Bytes, iv: Bytes, aad: Option<Bytes>, header: Bytes)
    requires |AuthenticatedData(aad, header)| < 0x1000_0000
    ensures MacInput(ciphertext, iv, aad, header) == RfcMacInput(ciphertext, iv, aad, header) <==> aad.None?
  {
    var m := MacInput(ciphertext, iv, aad, header);
    var rfc := RfcMacInput(ciphertext, iv, aad, header);
    LengthFieldIsBitLength(header);
    MacInputLayout(ciphertext, iv, aad, header);
    if aad.None? {
      assert m == rfc;
    } else {
      assert BigEndianValue(m[|m| - 8..]) == 8 * |header|;
      assert BigEndianValue(rfc[|rfc| - 8..]) == 8 * (|header| + 1 + |aad.value|);
    }
  }

  /** The RFC's MAC input separates what the composer's confuses (see
      `MacInputAmbiguousWithAad`): moving a non-empty IV to the end of the
      AAD changes A's length, and AL records it. */
  lemma RfcMacInputDistinguishesShift(ciphertext: Bytes, iv: Bytes, aad: Bytes, header: Bytes)
    requires 0 < |iv| <= |ciphertext|
    requires 8 * (|header| + 1 + |aad| + |iv|) < TWO_64
    ensures RfcMacInput(ciphertext, iv, Some(aad), header)
         != RfcMacInput(ciphertext[|iv|..], ciphertext[..|iv|], Some(aad + iv), header)
  {
    var m1 := RfcMacInput(ciphertext, iv, Some(aad), header);
    var m2 := RfcMacInput(ciphertext[|iv|..], ciphertext[..|iv|], Some(aad + iv), header);
    assert BigEndianValue(m1[|m1| - 8..]) != BigEndianValue(m2[|m2| - 8..]);
  }

  /** Without an AAD, the composer's tag is the RFC's tag. */
  lemma TagMatchesRfcWithoutAad(c: AesCbcHs, ciphertext: Bytes, cek: Bytes, iv: Bytes, header: Bytes)
    requires |header| < 0x1000_0000
    ensures CalculateAuthenticationTag(c, ciphertext, cek, iv, None, header) == RfcTag(c, ciphertext, cek, iv, None, header)
  {
    MacInputMatchesRfcIffNoAad(ciphertext, iv, None, header);
  }
}
