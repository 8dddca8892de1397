/**
 * Certificate-hash pinning of src/hiero_sdk_python/node.py: the trust
 * manager that normalises an address-book hash and compares it with the
 * SHA-384 digest of a node's PEM certificate, `_Node._normalize_cert_hash`,
 * and the decision of `_validate_tls_certificate_with_trust_manager` on
 * whether to validate at all.
 *
 * SHA-384 itself is not modelled: it is the parameter `sha384`, any function
 * from bytes to bytes, and every property below holds for all of them.
 */
module NodeTrust {
  import opened Wrappers
  import opened Text

  type Hasher = Bytes -> Bytes

  // ---------------------------------------------------------------------------
  // bytes.decode('utf-8')

  predicate IsContinuation(b: Byte) { 0x80 <= b <= 0xBF }

  /**
   * The length of the well-formed UTF-8 sequence at the start of `b`, or 0
   * when it is ill-formed (the table of well-formed byte sequences of the
   * Unicode Standard, section 3.9).
   */
  function Utf8SequenceLength(b: Bytes): (n: nat)
    requires |b| > 0
    ensures n <= 4 && n <= |b|
  {
    var b0 := b[0];
    if b0 < 0x80 then 1
    else if 0xC2 <= b0 <= 0xDF then
      if |b| >= 2 && IsContinuation(b[1]) then 2 else 0
    else if 0xE0 <= b0 <= 0xEF then
      var lo := if b0 == 0xE0 then 0xA0 else 0x80;
      var hi := if b0 == 0xED then 0x9F else 0xBF;
      if |b| >= 3 && lo <= b[1] <= hi && IsContinuation(b[2]) then 3 else 0
    else if 0xF0 <= b0 <= 0xF4 then
      var lo := if b0 == 0xF0 then 0x90 else 0x80;
      var hi := if b0 == 0xF4 then 0x8F else 0xBF;
      if |b| >= 4 && lo <= b[1] <= hi && IsContinuation(b[2]) && IsContinuation(b[3]) then 4 else 0
    else 0
  }

  /** The scalar value encoded by the well-formed sequence of length `n` at the start of `b`. */
  function CodePoint(b: Bytes, n: nat): (cp: int)
    requires |b| > 0 && n == Utf8SequenceLength(b) && n > 0
    ensures 0 <= cp < 0xD800 || 0xE000 <= cp < 0x11_0000
    ensures n == 1 <==> cp < 0x80
  {
    var b0 := b[0] as int;
    if n == 1 then b0
    else if n == 2 then (b0 - 0xC0) * 0x40 + (b[1] as int - 0x80)
    else if n == 3 then (b0 - 0xE0) * 0x1000 + (b[1] as int - 0x80) * 0x40 + (b[2] as int - 0x80)
    else (b0 - 0xF0) * 0x4_0000 + (b[1] as int - 0x80) * 0x1000 + (b[2] as int - 0x80) * 0x40 + (b[3] as int - 0x80)
  }

  /** bytes.decode('utf-8'): the decoded text, or None where Python raises UnicodeDecodeError. */
  function Utf8Decode(b: Bytes): (r: Option<string>)
    ensures r.Some? ==> |r.value| <= |b|
  {
    if |b| == 0 then Some("")
    else
      var n := Utf8SequenceLength(b);
      if n == 0 then None
      else match Utf8Decode(b[n..])
        case None => None
        case Some(rest) => Some([CodePoint(b, n) as char] + rest)
  }

  predicate IsAscii(s: string) { forall i :: 0 <= i < |s| ==> s[i] < 128 as char }

  /** The bytes of ASCII text. */
  function AsciiBytes(s: string): (b: Bytes)
    requires IsAscii(s)
    ensures |b| == |s|
    ensures forall i :: 0 <= i < |s| ==> b[i] == s[i] as int
  {
    if |s| == 0 then [] else [s[0] as int] + AsciiBytes(s[1..])
  }

  /** ASCII bytes decode to the text they spell. */
  lemma {:induction false} Utf8DecodeAscii(s: string)
    requires IsAscii(s)
    ensures Utf8Decode(AsciiBytes(s)) == Some(s)
  {
    if |s| > 0 {
      var b := AsciiBytes(s);
      assert b[1..] == AsciiBytes(s[1..]);
      Utf8DecodeAscii(s[1..]);
      assert Utf8SequenceLength(b) == 1;
      assert (CodePoint(b, 1) as char) == s[0];
      assert [s[0]] + s[1..] == s;
    }
  }

  /** Bytes all below 0x80 are well-formed UTF-8 and decode one character per byte. */
  lemma {:induction false} Utf8DecodeLowBytes(b: Bytes)
    requires forall i :: 0 <= i < |b| ==> b[i] < 0x80
    ensures Utf8Decode(b).Some? && |Utf8Decode(b).value| == |b|
  {
    if |b| > 0 {
      Utf8DecodeLowBytes(b[1..]);
    }
  }

  // ---------------------------------------------------------------------------
  // The normalised comparison key

  /** The text path: strip(), lower(), then one leading "0x" removed. */
  function NormalizeHashText(t: string): (r: string)
    ensures |r| <= |t| && NoAsciiUpper(r)
  {
    StripHexPrefix(AsciiLower(PyStrip(t)))
  }

  /**
   * _Node._normalize_cert_hash: bytes that decode as UTF-8 are normalised as
   * text; other bytes become their lowercase hex.
   */
  function NormalizeCertHash(b: Bytes): (r: string)
    ensures NoAsciiUpper(r)
    ensures Utf8Decode(b).Some? ==> |r| <= |b|
    ensures Utf8Decode(b).None? ==> |r| == 2 * |b| && HexDecode(r) == Some(b)
  {
    match Utf8Decode(b)
    case Some(t) => NormalizeHashText(t)
    case None =>
      HexRoundTrip(b);
      HexEncode(b)
  }

  // ---------------------------------------------------------------------------
  // _HederaTrustManager

  datatype TrustManager = TrustManager(certHash: Option<string>)

  datatype TrustError =
    | NoAddressBook
    | HashMismatch(expected: string, received: string)

  /** Optional bytes that are None or empty: what Python's `if not b` treats as absent. */
  predicate IsAbsent(b: Option<Bytes>)
  {
    b.None? || |b.value| == 0
  }

  /**
   * _HederaTrustManager.__init__: an absent hash is an error when
   * verification is required and is stored as None otherwise; a present hash
   * is stored in the same normal form that _normalize_cert_hash computes.
   */
  function NewTrustManager(certHash: Option<Bytes>, verifyCertificate: bool): (r: Result<TrustManager, TrustError>)
    ensures r.Err? <==> IsAbsent(certHash) && verifyCertificate
    ensures r.Err? ==> r.error == NoAddressBook
    ensures r.Ok? && IsAbsent(certHash) ==> r.value.certHash.None?
    ensures !IsAbsent(certHash) ==> r == Ok(TrustManager(Some(NormalizeCertHash(certHash.value))))
  {
    if IsAbsent(certHash) then
      if verifyCertificate then Err(NoAddressBook) else Ok(TrustManager(None))
    else
      HexEncodeIsLower(certHash.value);
      var stored := (match Utf8Decode(certHash.value)
        case Some(t) => NormalizeHashText(t)
        case None => AsciiLower(HexEncode(certHash.value)));
      Ok(TrustManager(Some(stored)))
  }

  /**
   * _HederaTrustManager.check_server_trusted: with no stored hash every
   * certificate is accepted; otherwise the lowercase hex of SHA-384(pem) must
   * equal the stored hash, and a mismatch names both.
   */
  function CheckServerTrusted(tm: TrustManager, pem: Bytes, sha384: Hasher): (r: Result<bool, TrustError>)
    ensures r.Ok? ==> r.value
    ensures r.Ok? <==> tm.certHash.None? || HexEncode(sha384(pem)) == tm.certHash.value
    ensures r.Err? ==> r.error == HashMismatch(tm.certHash.value, HexEncode(sha384(pem)))
  {
    if tm.certHash.None? then Ok(true)
    else
      var actual := AsciiLower(HexEncode(sha384(pem)));
      HexEncodeIsLower(sha384(pem));
      if actual != tm.certHash.value then Err(HashMismatch(tm.certHash.value, actual))
      else Ok(true)
  }

  /**
   * An address-book hash written as ASCII hex text, in either case, with or
   * without "0x" or "0X", with whitespace around it, normalises to its
   * lowercase digits.
   */
  lemma HexTextNormalizes(pre: string, prefix: string, digits: string, post: string)
    requires AllSpace(StrSpaces, pre) && AllSpace(StrSpaces, post)
    requires AsciiLower(prefix) == "" || AsciiLower(prefix) == "0x"
    requires |digits| >= 2 && AllHex(digits)
    requires IsAscii(pre + prefix + digits + post)
    ensures NormalizeCertHash(AsciiBytes(pre + prefix + digits + post)) == AsciiLower(digits)
  {
    var core := prefix + digits;
    GroupMiddle(pre, prefix, digits, post);
    AsciiTextNormalizes(pre + core + post);
    PaddedHexNormalizes(pre, prefix, digits, core, post);
  }

  lemma GroupMiddle(pre: string, prefix: string, digits: string, post: string)
    ensures pre + prefix + digits + post == pre + (prefix + digits) + post
  {
  }

  /** ASCII text stored as bytes is normalised as text. */
  lemma AsciiTextNormalizes(text: string)
    requires IsAscii(text)
    ensures NormalizeCertHash(AsciiBytes(text)) == NormalizeHashText(text)
  {
    Utf8DecodeAscii(text);
  }

  lemma PaddedHexNormalizes(pre: string, prefix: string, digits: string, core: string, post: string)
    requires AllSpace(StrSpaces, pre) && AllSpace(StrSpaces, post)
    requires AsciiLower(prefix) == "" || AsciiLower(prefix) == "0x"
    requires |digits| >= 2 && AllHex(digits) && core == prefix + digits
    ensures NormalizeHashText(pre + core + post) == AsciiLower(digits)
  {
    StrippedCore(prefix, digits);
    StripPadded(StrSpaces, pre, core, post);
    assert NormalizeHashText(pre + core + post) == StripHexPrefix(AsciiLower(core));
    LowerConcat(prefix, digits);
    StripPrefixOfLowerHex(AsciiLower(prefix), digits);
  }

  /** Removing the optional "0x" in front of lowered hex digits leaves the digits. */
  lemma StripPrefixOfLowerHex(prefix: string, digits: string)
    requires prefix == "" || prefix == "0x"
    requires |digits| >= 2 && AllHex(digits)
    ensures StripHexPrefix(prefix + AsciiLower(digits)) == AsciiLower(digits)
  {
    if prefix == "" {
      assert prefix + AsciiLower(digits) == AsciiLower(digits);
      LowerHexHasNoPrefix(digits);
    } else {
      StripPrefixBeforeText("0x" + AsciiLower(digits), AsciiLower(digits));
    }
  }

  /** Lowered hex digits do not themselves start with "0x". */
  lemma LowerHexHasNoPrefix(digits: string)
    requires |digits| >= 2 && AllHex(digits)
    ensures StripHexPrefix(AsciiLower(digits)) == AsciiLower(digits)
  {
    var l := AsciiLower(digits);
    assert l[1] == AsciiLowerChar(digits[1]);
    assert l[..2][1] != "0x"[1];
  }

  lemma StripPrefixBeforeText(s: string, t: string)
    requires s == "0x" + t
    ensures StripHexPrefix(s) == t
  {
    assert s[..2] == "0x";
    assert s[2..] == t;
  }

  /** A "0x" prefix followed by hex digits neither starts nor ends with whitespace. */
  lemma StrippedCore(prefix: string, digits: string)
    requires AsciiLower(prefix) == "" || AsciiLower(prefix) == "0x"
    requires |digits| >= 2 && AllHex(digits)
    ensures var core := prefix + digits; |core| > 0 && !IsSpace(StrSpaces, core[0]) && !IsSpace(StrSpaces, core[|core| - 1])
  {
    var core := prefix + digits;
    assert core[|core| - 1] == digits[|digits| - 1];
    if |prefix| > 0 {
      assert AsciiLowerChar(prefix[0]) == AsciiLower(prefix)[0] == '0';
      assert core[0] == prefix[0];
    } else {
      assert core[0] == digits[0];
    }
  }

  /** lower() works character by character, so it distributes over concatenation. */
  lemma LowerConcat(x: string, y: string)
    ensures AsciiLower(x + y) == AsciiLower(x) + AsciiLower(y)
  {
    var l, r := AsciiLower(x + y), AsciiLower(x) + AsciiLower(y);
    assert forall i :: 0 <= i < |l| ==> l[i] == r[i] by {
      forall i | 0 <= i < |l| ensures l[i] == r[i] {
        if i < |x| { assert (x + y)[i] == x[i]; } else { assert (x + y)[i] == y[i - |x|]; }
      }
    }
  }

  /**
   * A hash written as hex text that spells a digest pins exactly the
   * certificates with that digest.
   */
  lemma HexTextHashPinsCertificate(
    pem: Bytes, sha384: Hasher, digest: Bytes, pre: string, prefix: string, digits: string, post: string)
    requires |digest| > 0 && AsciiLower(digits) == HexEncode(digest) && AllHex(digits)
    requires AllSpace(StrSpaces, pre) && AllSpace(StrSpaces, post)
    requires AsciiLower(prefix) == "" || AsciiLower(prefix) == "0x"
    requires IsAscii(pre + prefix + digits + post)
    ensures NewTrustManager(Some(AsciiBytes(pre + prefix + digits + post)), true).Ok?
    ensures CheckServerTrusted(NewTrustManager(Some(AsciiBytes(pre + prefix + digits + post)), true).value, pem, sha384).Ok?
      <==> sha384(pem) == digest
  {
    HexTextNormalizes(pre, prefix, digits, post);
    assert |AsciiBytes(pre + prefix + digits + post)| > 0;
    if HexEncode(sha384(pem)) == HexEncode(digest) {
      HexEncodeInjective(sha384(pem), digest);
    }
  }

  /** A text hash that spells another digest is refused, naming the expected and the received hash. */
  lemma HexTextHashRejectsOtherCertificate(pem: Bytes, sha384: Hasher, expected: Bytes)
    requires |expected| > 0 && sha384(pem) != expected
    ensures NewTrustManager(Some(AsciiBytes(HexEncode(expected))), true).Ok?
    ensures CheckServerTrusted(NewTrustManager(Some(AsciiBytes(HexEncode(expected))), true).value, pem, sha384)
      == Err(HashMismatch(HexEncode(expected), HexEncode(sha384(pem))))
  {
    DigestTextTrustManager(expected);
    if HexEncode(sha384(pem)) == HexEncode(expected) {
      HexEncodeInjective(sha384(pem), expected);
    }
  }

  /** A trust manager built from the hex text of a digest stores exactly that text. */
  lemma DigestTextTrustManager(digest: Bytes)
    requires |digest| > 0
    ensures NewTrustManager(Some(AsciiBytes(HexEncode(digest))), true) == Ok(TrustManager(Some(HexEncode(digest))))
  {
    var hex := HexEncode(digest);
    assert IsAscii(hex);
    AsciiTextNormalizes(hex);
    DigestTextIsNormal(digest);
  }

  /** The hex text of a digest is already in normal form. */
  lemma DigestTextIsNormal(digest: Bytes)
    requires |digest| > 0
    ensures NormalizeHashText(HexEncode(digest)) == HexEncode(digest)
  {
    var hex := HexEncode(digest);
    assert IsLowerHexDigit(hex[0]) && IsLowerHexDigit(hex[|hex| - 1]);
    StripUnpadded(StrSpaces, hex);
    HexEncodeIsLower(digest);
    assert AllHex(hex);
    LowerHexHasNoPrefix(hex);
  }

  /**
   * A raw-bytes hash that is not valid UTF-8 is compared as its hex, so it
   * pins exactly the certificate with that digest.
   */
  lemma RawHashPinsCertificate(pem: Bytes, sha384: Hasher, expected: Bytes)
    requires |expected| > 0 && Utf8Decode(expected).None?
    ensures NewTrustManager(Some(expected), true).Ok?
    ensures CheckServerTrusted(NewTrustManager(Some(expected), true).value, pem, sha384).Ok?
      <==> sha384(pem) == expected
  {
    if HexEncode(sha384(pem)) == HexEncode(expected) {
      HexEncodeInjective(sha384(pem), expected);
    }
  }

  /**
   * A raw 48-byte digest whose bytes are all below 0x80 decodes as text, so
   * it is never compared as hex: even the certificate with exactly that
   * digest is refused.
   */
  lemma RawAsciiDigestIsRefused(pem: Bytes, sha384: Hasher)
    requires |sha384(pem)| == 48
    requires forall i :: 0 <= i < 48 ==> sha384(pem)[i] < 0x80
    ensures NewTrustManager(Some(sha384(pem)), true).Ok?
    ensures CheckServerTrusted(NewTrustManager(Some(sha384(pem)), true).value, pem, sha384).Err?
  {
    Utf8DecodeLowBytes(sha384(pem));
  }

  // ---------------------------------------------------------------------------
  // _Node._validate_tls_certificate_with_trust_manager

  /** The address-book entry of a node, as far as trust is concerned. */
  datatype AddressBookEntry = AddressBookEntry(certHash: Option<Bytes>)

  /** The expected hash a node can validate against: None without an entry or with an absent hash. */
  function PinnedHash(book: Option<AddressBookEntry>): (r: Option<Bytes>)
    ensures r.Some? ==> |r.value| > 0
  {
    if book.Some? && !IsAbsent(book.value.certHash) then book.value.certHash else None
  }

  datatype Validation = Skipped | Passed | Failed(error: TrustError)

  /**
   * Validation is skipped for an insecure address, with verification off,
   * without an address book or with an empty hash; otherwise the trust
   * manager checks the PEM.
   */
  function ValidateTlsCertificate(secure: bool, verify: bool, book: Option<AddressBookEntry>,
                                  pem: Bytes, sha384: Hasher): (r: Validation)
    ensures r.Skipped? <==> !secure || !verify || PinnedHash(book).None?
    ensures r.Passed? <==> (secure && verify && PinnedHash(book).Some?
      && HexEncode(sha384(pem)) == NormalizeCertHash(PinnedHash(book).value))
    ensures r.Failed? ==>
      r.error == HashMismatch(NormalizeCertHash(PinnedHash(book).value), HexEncode(sha384(pem)))
  {
    if !secure || !verify then Skipped
    else
      var certHash := if book.Some? then book.value.certHash else None;
      if IsAbsent(certHash) then Skipped
      else match NewTrustManager(certHash, verify)
        case Err(e) => Failed(e)
        case Ok(tm) =>
          match CheckServerTrusted(tm, pem, sha384)
          case Ok(_) => Passed
          case Err(e) => Failed(e)
  }
}
