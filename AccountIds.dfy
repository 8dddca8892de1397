/**
 * The account identifier of src/hiero_sdk_python/account/account_id.py:
 * `shard.realm.num`, optionally identified instead by a public-key alias or a
 * 20-byte EVM address, with its string, protobuf and mirror-node conversions.
 *
 * The Python class is immutable in use: every constructor and `populate_*`
 * returns a fresh value, so it is a datatype here and each operation a function.
 */
module AccountIds {
  import opened Wrappers
  import opened Text

  // ---------------------------------------------------------------------------
  // Collaborator value types (crypto/evm_address.py and crypto/public_key.py)

  /** An EVM address is exactly 20 bytes. */
  type EvmAddress = b: Bytes | |b| == 20 witness seq(20, i => 0)

  datatype KeyKind = Ed25519 | EcdsaSecp256k1

  /** Length of the raw (compressed) key bytes of each kind. */
  function RawKeyLength(kind: KeyKind): nat
  {
    match kind
    case Ed25519 => 32
    case EcdsaSecp256k1 => 33
  }

  datatype KeyData = KeyData(kind: KeyKind, raw: Bytes)

  /** A public key: its kind and raw bytes of the length that kind has. */
  type PublicKey = k: KeyData | |k.raw| == RawKeyLength(k.kind)
    witness KeyData(Ed25519, seq(32, i => 0))

  /** PublicKey.from_bytes: the kind is told apart by the number of raw bytes. */
  function KeyFromBytes(b: Bytes): (r: Option<PublicKey>)
    ensures r.Some? ==> r.value.raw == b
  {
    if |b| == 32 then Some(KeyData(Ed25519, b))
    else if |b| == 33 then Some(KeyData(EcdsaSecp256k1, b))
    else None
  }

  /** Field tag of the Key message's `ed25519` (2) or `ECDSA_secp256k1` (7) bytes field. */
  function KeyFieldTag(kind: KeyKind): Byte
  {
    match kind
    case Ed25519 => 0x12
    case EcdsaSecp256k1 => 0x3A
  }

  /** key._to_proto().SerializeToString(): one tag byte, one length byte, the raw key. */
  function KeyProtoBytes(k: PublicKey): Bytes
  {
    [KeyFieldTag(k.kind), |k.raw|] + k.raw
  }

  /** key.to_string() and key.to_string_raw(): hex of the raw key bytes. */
  function KeyText(k: PublicKey): string
  {
    HexEncode(k.raw)
  }

  /** EvmAddress.from_string: an optional "0x" and exactly 40 hex digits. */
  function EvmAddressFromString(s: string): (r: Option<EvmAddress>)
    ensures r.Some? <==> (|StripHexPrefix(s)| == 40 && AllHex(StripHexPrefix(s)))
    ensures r.Some? ==> HexDecode(StripHexPrefix(s)) == Some(r.value)
  {
    var t := StripHexPrefix(s);
    HexDecodeDefined(t);
    if |t| == 40 then
      match HexDecode(t)
      case Some(b) => Some(b)
      case None => None
    else None
  }

  // ---------------------------------------------------------------------------
  // The identifier

  datatype AccountId = AccountId(
    shard: int,
    realm: int,
    num: int,
    aliasKey: Option<PublicKey>,
    evmAddress: Option<EvmAddress>,
    checksum: Option<string>)

  datatype AccountIdError =
    | InvalidFormat(input: string)
    | InvalidEvmAddress(input: string)
    | InvalidAliasKey(alias: Bytes)
    | ChecksumWithAlias
    | ChecksumMismatch(expected: string, given: string)
    | EvmAddressRequired
    | AccountNumRequired
    | MirrorQueryFailed
    | MirrorFieldMissing(field: string)
    | InvalidAccountFormat(value: string)

  /** AccountId.__init__: a new id carries no checksum. */
  function NewAccountId(shard: int, realm: int, num: int,
                        aliasKey: Option<PublicKey>, evmAddress: Option<EvmAddress>): (r: AccountId)
    ensures r.checksum.None?
  {
    AccountId(shard, realm, num, aliasKey, evmAddress, None)
  }

  /** The id is identified by its number alone. */
  predicate IsNumOnly(id: AccountId)
  {
    id.aliasKey.None? && id.evmAddress.None?
  }

  /** Exactly one of alias key and EVM address is set, and num is still 0. */
  predicate IsUnresolvedAlias(id: AccountId)
  {
    (id.aliasKey.Some? != id.evmAddress.Some?) && id.num == 0
  }

  // ---------------------------------------------------------------------------
  // Parsing from strings

  /** AccountId._is_evm_address: after one optional "0x", exactly 40 hex digits. */
  function IsEvmAddress(s: string): (r: bool)
    ensures r ==> |s| == 40 || |s| == 42
    ensures r <==> EvmAddressFromString(s).Some?
  {
    var t := StripHexPrefix(s);
    |t| == 40 && AllHex(t)
  }

  /** The checksum suffix: five lowercase letters. */
  predicate IsChecksum(s: string)
  {
    |s| == 5 && forall i :: 0 <= i < |s| ==> 'a' <= s[i] <= 'z'
  }

  datatype DottedId = DottedId(shard: nat, realm: nat, num: nat, checksum: Option<string>)

  /**
   * parse_from_string followed by int(): `shard.realm.num` or
   * `shard.realm.num-checksum`, each number without a leading zero.
   */
  function ParseDotted(s: string): (r: Option<DottedId>)
    ensures r.Some? ==> s == DottedText(r.value)
    ensures r.Some? && r.value.checksum.Some? ==> IsChecksum(r.value.checksum.value)
  {
    var parts := Split(s, '.');
    if |parts| != 3 then None
    else
      var numParts := Split(parts[2], '-');
      if IsCanonicalNat(parts[0]) && IsCanonicalNat(parts[1]) && IsCanonicalNat(numParts[0])
         && (|numParts| == 1 || (|numParts| == 2 && IsChecksum(numParts[1])))
      then
        DottedFieldsRejoin(s);
        Some(DottedId(DigitsValue(parts[0]), DigitsValue(parts[1]), DigitsValue(numParts[0]),
                      if |numParts| == 2 then Some(numParts[1]) else None))
      else None
  }

  /** How a parsed dotted id is written: `shard.realm.num`, then `-checksum` when there is one. */
  function DottedText(d: DottedId): string
  {
    NatToString(d.shard) + "." + NatToString(d.realm) + "." + NatToString(d.num)
    + (if d.checksum.Some? then "-" + d.checksum.value else "")
  }

  /** The fields the dotted grammar accepts put back together give the string. */
  lemma DottedFieldsRejoin(s: string)
    requires |Split(s, '.')| == 3
    requires var parts := Split(s, '.'); var numParts := Split(parts[2], '-');
      IsCanonicalNat(parts[0]) && IsCanonicalNat(parts[1]) && IsCanonicalNat(numParts[0])
      && (|numParts| == 1 || |numParts| == 2)
    ensures var parts := Split(s, '.'); var numParts := Split(parts[2], '-');
      s == NatToString(DigitsValue(parts[0])) + "." + NatToString(DigitsValue(parts[1])) + "."
           + NatToString(DigitsValue(numParts[0])) + (if |numParts| == 2 then "-" + numParts[1] else "")
  {
    var parts := Split(s, '.');
    var numParts := Split(parts[2], '-');
    SplitThreeRejoins(s, '.');
    CanonicalDigitsRoundTrip(parts[0]);
    CanonicalDigitsRoundTrip(parts[1]);
    CanonicalDigitsRoundTrip(numParts[0]);
    var tail := if |numParts| == 2 then "-" + numParts[1] else "";
    if |numParts| == 2 {
      SplitTwoRejoins(parts[2], '-');
    } else {
      SplitRejoins(parts[2], '-');
    }
    assert parts[2] == numParts[0] + tail;
    var head := parts[0] + "." + parts[1] + ".";
    assert s == head + parts[2];
    assert head + (numParts[0] + tail) == head + numParts[0] + tail;
  }

  datatype AliasMatch = AliasMatch(shard: nat, realm: nat, alias: Bytes)

  /** ALIAS_REGEX and bytes.fromhex: `shard.realm.<non-empty even-length hex>`. */
  function MatchAlias(s: string): (r: Option<AliasMatch>)
    ensures r.Some? ==> |r.value.alias| > 0
    ensures r.Some? ==> exists h :: s == NatToString(r.value.shard) + "." + NatToString(r.value.realm) + "." + h
                                     && HexDecode(h) == Some(r.value.alias)
  {
    var parts := Split(s, '.');
    if |parts| == 3 && IsCanonicalNat(parts[0]) && IsCanonicalNat(parts[1]) && |parts[2]| > 0 then
      match HexDecode(parts[2])
      case Some(b) =>
        AliasFieldsRejoin(s);
        Some(AliasMatch(DigitsValue(parts[0]), DigitsValue(parts[1]), b))
      case None => None
    else None
  }

  lemma AliasFieldsRejoin(s: string)
    requires |Split(s, '.')| == 3
    requires IsCanonicalNat(Split(s, '.')[0]) && IsCanonicalNat(Split(s, '.')[1])
    ensures var parts := Split(s, '.');
      s == NatToString(DigitsValue(parts[0])) + "." + NatToString(DigitsValue(parts[1])) + "." + parts[2]
  {
    var parts := Split(s, '.');
    SplitThreeRejoins(s, '.');
    CanonicalDigitsRoundTrip(parts[0]);
    CanonicalDigitsRoundTrip(parts[1]);
  }

  /** AccountId.from_evm_address given an EvmAddress value. */
  function FromEvmAddress(e: EvmAddress, shard: int, realm: int): (r: AccountId)
    ensures IsUnresolvedAlias(r) && r.evmAddress == Some(e)
    ensures r.shard == shard && r.realm == realm && r.checksum.None?
  {
    NewAccountId(shard, realm, 0, None, Some(e))
  }

  /** AccountId.from_evm_address given a string, which EvmAddress.from_string must accept. */
  function FromEvmAddressString(s: string, shard: int, realm: int): (r: Result<AccountId, AccountIdError>)
    ensures r.Ok? <==> EvmAddressFromString(s).Some?
    ensures r.Ok? ==> r.value == FromEvmAddress(EvmAddressFromString(s).value, shard, realm)
    ensures r.Err? ==> r.error == InvalidEvmAddress(s)
  {
    match EvmAddressFromString(s)
    case Some(e) => Ok(FromEvmAddress(e, shard, realm))
    case None => Err(InvalidEvmAddress(s))
  }

  /**
   * AccountId.from_string: an EVM address first, then the dotted numeric
   * form, then the hex-alias form; anything else is rejected.
   */
  function FromString(s: string): (r: Result<AccountId, AccountIdError>)
    ensures IsEvmAddress(s) ==>
      (r.Ok? && r.value.shard == 0 && r.value.realm == 0
       && IsUnresolvedAlias(r.value) && r.value.evmAddress.Some?
       && HexDecode(StripHexPrefix(s)) == Some(r.value.evmAddress.value))
    ensures IsEvmAddress(s) ==> r == Ok(FromEvmAddress(EvmAddressFromString(s).value, 0, 0))
    ensures !IsEvmAddress(s) && ParseDotted(s).Some? ==>
      (var p := ParseDotted(s).value; r == Ok(AccountId(p.shard, p.realm, p.num, None, None, p.checksum)))
    ensures !IsEvmAddress(s) && ParseDotted(s).None? && MatchAlias(s).None? ==> r == Err(InvalidFormat(s))
    ensures !IsEvmAddress(s) && ParseDotted(s).None? && MatchAlias(s).Some? ==>
      (var m := MatchAlias(s).value;
       && (r.Ok? <==> (|m.alias| == 20 || KeyFromBytes(m.alias).Some?))
       && (r.Err? ==> r.error == InvalidAliasKey(m.alias))
       && (r.Ok? ==>
             && r.value.shard == m.shard && r.value.realm == m.realm
             && IsUnresolvedAlias(r.value) && r.value.checksum.None?
             && (r.value.evmAddress.Some? <==> |m.alias| == 20)
             && (r.value.evmAddress.Some? ==> r.value.evmAddress.value == m.alias)
             && (r.value.aliasKey.Some? ==> r.value.aliasKey.value.raw == m.alias)))
    ensures r.Ok? && r.value.checksum.Some? ==> IsNumOnly(r.value)
  {
    if IsEvmAddress(s) then
      FromEvmAddressString(s, 0, 0)
    else
      match ParseDotted(s)
      case Some(p) => Ok(AccountId(p.shard, p.realm, p.num, None, None, p.checksum))
      case None =>
        match MatchAlias(s)
        case None => Err(InvalidFormat(s))
        case Some(m) =>
          if |m.alias| == 20 then Ok(NewAccountId(m.shard, m.realm, 0, None, Some(m.alias)))
          else
            match KeyFromBytes(m.alias)
            case Some(k) => Ok(NewAccountId(m.shard, m.realm, 0, Some(k), None))
            case None => Err(InvalidAliasKey(m.alias))
  }

  // ---------------------------------------------------------------------------
  // String forms

  /** The text of the identity that is shown: alias key, else EVM address, else num. */
  function IdentityText(id: AccountId): string
  {
    if id.aliasKey.Some? then KeyText(id.aliasKey.value)
    else if id.evmAddress.Some? then HexEncode(id.evmAddress.value)
    else IntToString(id.num)
  }

  /** AccountId.__str__: splitting it at '.' gives shard, realm and the identity text. */
  function Str(id: AccountId): (r: string)
    ensures Split(r, '.') == [IntToString(id.shard), IntToString(id.realm), IdentityText(id)]
  {
    IntTextLacksDot(id.shard);
    IntTextLacksDot(id.realm);
    IdentityTextLacksDot(id);
    SplitThree(IntToString(id.shard), IntToString(id.realm), IdentityText(id));
    IntToString(id.shard) + "." + IntToString(id.realm) + "." + IdentityText(id)
  }

  lemma IdentityTextLacksDot(id: AccountId)
    ensures Lacks(IdentityText(id), '.')
  {
    if id.aliasKey.Some? {
      HexHasNoSeparators(KeyText(id.aliasKey.value));
    } else if id.evmAddress.Some? {
      HexHasNoSeparators(HexEncode(id.evmAddress.value));
    } else {
      IntTextLacksDot(id.num);
    }
  }

  /** The name repr() gives the identity it shows. */
  function IdentityLabel(id: AccountId): string
  {
    if id.aliasKey.Some? then "alias_key" else if id.evmAddress.Some? then "evm_address" else "num"
  }

  /** AccountId.__repr__: shard, realm and the same identity str() shows, under its name. */
  function Repr(id: AccountId): (r: string)
    ensures r == "AccountId(shard=" + IntToString(id.shard) + ", realm=" + IntToString(id.realm) + ", "
                 + IdentityLabel(id) + "=" + IdentityText(id) + ")"
  {
    "AccountId(shard=" + IntToString(id.shard) + ", realm=" + IntToString(id.realm) + ", "
    + (if id.aliasKey.Some? then "alias_key=" + KeyText(id.aliasKey.value)
       else if id.evmAddress.Some? then "evm_address=" + HexEncode(id.evmAddress.value)
       else "num=" + IntToString(id.num))
    + ")"
  }

  /** Neither string form shows num when an alias is set, nor the EVM address when a key is. */
  lemma StringFormsFollowPrecedence(id: AccountId, num: int, evm: Option<EvmAddress>)
    ensures id.aliasKey.Some? ==>
      Str(id.(num := num, evmAddress := evm)) == Str(id)
      && Repr(id.(num := num, evmAddress := evm)) == Repr(id)
    ensures id.evmAddress.Some? ==>
      Str(id.(num := num)) == Str(id) && Repr(id.(num := num)) == Repr(id)
    ensures Str(id.(checksum := None)) == Str(id)
  {
  }

  /** A digit string is no EVM address: its dot survives the "0x" check. */
  lemma DottedIsNotEvmAddress(a: string, rest: string)
    requires IsDigits(a)
    ensures !IsEvmAddress(a + "." + rest)
  {
    var s := a + "." + rest;
    assert s[|a|] == '.';
    if |a| == 1 { assert s[1] == '.'; } else { assert s[1] == a[1]; }
    assert StripHexPrefix(s) == s;
    assert !IsHexDigit(s[|a|]);
  }

  lemma DigitsHaveNoSeparators(a: string)
    requires AllDigits(a)
    ensures Lacks(a, '.') && Lacks(a, '-')
  {
  }

  lemma HexHasNoSeparators(h: string)
    requires AllHex(h)
    ensures Lacks(h, '.') && Lacks(h, '-')
  {
  }

  /** `a.b.c` splits into its three fields when none of them holds a dot. */
  lemma SplitThree(a: string, b: string, c: string)
    requires Lacks(a, '.') && Lacks(b, '.') && Lacks(c, '.')
    ensures Split(a + "." + b + "." + c, '.') == [a, b, c]
  {
    assert a + "." + b + "." + c == a + ['.'] + (b + ['.'] + c);
    SplitFirstField(a, '.', b + ['.'] + c);
    SplitFirstField(b, '.', c);
    SplitNoSeparator(c, '.');
  }

  /** `n-cs` splits at its one dash. */
  lemma SplitChecksum(n: string, cs: string)
    requires Lacks(n, '-') && Lacks(cs, '-')
    ensures Split(n + "-" + cs, '-') == [n, cs]
  {
    SplitFirstField(n, '-', cs);
    SplitNoSeparator(cs, '-');
  }

  /** from_string(str(id)) == id for an id identified by its (non-negative) number. */
  lemma NumStrRoundTrip(id: AccountId)
    requires IsNumOnly(id) && id.checksum.None?
    requires id.shard >= 0 && id.realm >= 0 && id.num >= 0
    ensures FromString(Str(id)) == Ok(id)
  {
    var a, b, c := NatToString(id.shard), NatToString(id.realm), NatToString(id.num);
    NatToStringRoundTrip(id.shard);
    NatToStringRoundTrip(id.realm);
    NatToStringRoundTrip(id.num);
    assert Str(id) == a + "." + b + "." + c;
    ParseDottedPlain(a, b, c);
  }

  /** The parts of `a.b.c` for canonical numbers a, b, c. */
  lemma ParseDottedPlain(a: string, b: string, c: string)
    requires IsCanonicalNat(a) && IsCanonicalNat(b) && IsCanonicalNat(c)
    ensures !IsEvmAddress(a + "." + b + "." + c)
    ensures ParseDotted(a + "." + b + "." + c) == Some(DottedId(DigitsValue(a), DigitsValue(b), DigitsValue(c), None))
  {
    DigitsHaveNoSeparators(a);
    DigitsHaveNoSeparators(b);
    DigitsHaveNoSeparators(c);
    DottedIsNotEvmAddress(a, b + "." + c);
    assert a + "." + b + "." + c == a + "." + (b + "." + c);
    SplitThree(a, b, c);
    SplitNoSeparator(c, '-');
  }

  /** The scenario of the identifier "0.0.3": it parses to {0, 0, 3} and prints back unchanged. */
  lemma ParseAndPrintZeroZeroThree()
    ensures FromString("0.0.3") == Ok(AccountId(0, 0, 3, None, None, None))
    ensures Str(AccountId(0, 0, 3, None, None, None)) == "0.0.3"
  {
    var id := AccountId(0, 0, 3, None, None, None);
    assert Str(id) == "0.0.3";
    NumStrRoundTrip(id);
  }

  /** `shard.realm.num-checksum` parses to the numeric id with the checksum kept beside it. */
  lemma ChecksumStrRoundTrip(id: AccountId, cs: string)
    requires IsNumOnly(id) && id.checksum.None?
    requires id.shard >= 0 && id.realm >= 0 && id.num >= 0
    requires IsChecksum(cs)
    ensures FromString(Str(id) + "-" + cs) == Ok(id.(checksum := Some(cs)))
  {
    var a, b, c := NatToString(id.shard), NatToString(id.realm), NatToString(id.num);
    NatToStringRoundTrip(id.shard);
    NatToStringRoundTrip(id.realm);
    NatToStringRoundTrip(id.num);
    assert Str(id) + "-" + cs == a + "." + b + "." + (c + "-" + cs);
    ParseDottedWithChecksum(a, b, c, cs);
  }

  /** The parts of `a.b.c-cs` for canonical numbers a, b, c and a checksum cs. */
  lemma ParseDottedWithChecksum(a: string, b: string, c: string, cs: string)
    requires IsCanonicalNat(a) && IsCanonicalNat(b) && IsCanonicalNat(c) && IsChecksum(cs)
    ensures !IsEvmAddress(a + "." + b + "." + (c + "-" + cs))
    ensures ParseDotted(a + "." + b + "." + (c + "-" + cs))
      == Some(DottedId(DigitsValue(a), DigitsValue(b), DigitsValue(c), Some(cs)))
  {
    DigitsHaveNoSeparators(a);
    DigitsHaveNoSeparators(b);
    DigitsHaveNoSeparators(c);
    var tail := c + "-" + cs;
    assert Lacks(cs, '.') && Lacks(cs, '-');
    assert Lacks(tail, '.');
    DottedIsNotEvmAddress(a, b + "." + tail);
    assert a + "." + b + "." + tail == a + "." + (b + "." + tail);
    SplitThree(a, b, tail);
    SplitChecksum(c, cs);
  }

  /** How the parsers see `shard.realm.<hex>`: never an EVM address, always three fields. */
  lemma {:induction false} HexAliasTextParses(shard: nat, realm: nat, bytes: Bytes)
    requires |bytes| > 0
    ensures var s := AliasText(shard, realm, bytes);
      && !IsEvmAddress(s)
      && (ParseDotted(s).Some? <==> IsCanonicalNat(HexEncode(bytes)))
      && (ParseDotted(s).Some? ==> ParseDotted(s).value == DottedId(shard, realm, DigitsValue(HexEncode(bytes)), None))
      && MatchAlias(s) == Some(AliasMatch(shard, realm, bytes))
  {
    var a, b, h := NatToString(shard), NatToString(realm), HexEncode(bytes);
    var s := a + "." + b + "." + h;
    HexRoundTrip(bytes);
    NatToStringRoundTrip(shard);
    NatToStringRoundTrip(realm);
    DigitsHaveNoSeparators(a);
    DigitsHaveNoSeparators(b);
    HexHasNoSeparators(h);
    DottedIsNotEvmAddress(a, b + "." + h);
    assert s == a + "." + (b + "." + h);
    SplitThree(a, b, h);
    SplitNoSeparator(h, '-');
  }

  /**
   * from_string(str(id)) for an id identified by an alias key or EVM address
   * gives the id back exactly when the alias text is not itself a valid
   * account number; otherwise the dotted parse wins and a numeric id results.
   */
  lemma {:induction false} AliasStrRoundTrip(id: AccountId)
    requires IsUnresolvedAlias(id) && id.checksum.None?
    requires id.shard >= 0 && id.realm >= 0
    ensures FromString(Str(id)) == Ok(id) <==> !IsCanonicalNat(IdentityText(id))
    ensures IsCanonicalNat(IdentityText(id)) ==>
      FromString(Str(id)) == Ok(AccountId(id.shard, id.realm, DigitsValue(IdentityText(id)), None, None, None))
  {
    if id.aliasKey.Some? {
      KeyAliasStr(id);
    } else {
      EvmAliasStr(id);
    }
  }

  /** What from_string makes of `str()` of an id identified by an alias key. */
  lemma KeyAliasStr(id: AccountId)
    requires IsUnresolvedAlias(id) && id.checksum.None? && id.aliasKey.Some?
    requires id.shard >= 0 && id.realm >= 0
    ensures FromString(Str(id)) ==
      if IsCanonicalNat(IdentityText(id)) then Ok(AccountId(id.shard, id.realm, DigitsValue(IdentityText(id)), None, None, None))
      else Ok(id)
  {
    var k := id.aliasKey.value;
    assert Str(id) == AliasText(id.shard, id.realm, k.raw);
    KeyFromItsBytes(k);
    FromAliasText(id.shard, id.realm, k.raw);
  }

  lemma KeyFromItsBytes(k: PublicKey)
    ensures |k.raw| != 20 && KeyFromBytes(k.raw) == Some(k)
  {
    match k.kind
    case Ed25519 =>
    case EcdsaSecp256k1 =>
  }

  /** What from_string makes of `str()` of an id identified by an EVM address. */
  lemma EvmAliasStr(id: AccountId)
    requires IsUnresolvedAlias(id) && id.checksum.None? && id.evmAddress.Some?
    requires id.shard >= 0 && id.realm >= 0
    ensures FromString(Str(id)) ==
      if IsCanonicalNat(IdentityText(id)) then Ok(AccountId(id.shard, id.realm, DigitsValue(IdentityText(id)), None, None, None))
      else Ok(id)
  {
    var bytes := id.evmAddress.value;
    assert Str(id) == AliasText(id.shard, id.realm, bytes);
    FromAliasText(id.shard, id.realm, bytes);
  }

  /** `shard.realm.<hex of bytes>`. */
  function AliasText(shard: nat, realm: nat, bytes: Bytes): string
  {
    NatToString(shard) + "." + NatToString(realm) + "." + HexEncode(bytes)
  }

  /** What from_string makes of `shard.realm.<hex of bytes>`. */
  lemma FromAliasText(shard: nat, realm: nat, bytes: Bytes)
    requires |bytes| > 0
    ensures var h := HexEncode(bytes);
      FromString(AliasText(shard, realm, bytes)) ==
        if IsCanonicalNat(h) then Ok(AccountId(shard, realm, DigitsValue(h), None, None, None))
        else if |bytes| == 20 then Ok(NewAccountId(shard, realm, 0, None, Some(bytes)))
        else match KeyFromBytes(bytes)
          case Some(k) => Ok(NewAccountId(shard, realm, 0, Some(k), None))
          case None => Err(InvalidAliasKey(bytes))
  {
    HexAliasTextParses(shard, realm, bytes);
  }

  /** Any string that is not an EVM address and lacks exactly two dots is rejected. */
  lemma FromStringNeedsThreeFields(s: string)
    requires !IsEvmAddress(s) && |Split(s, '.')| != 3
    ensures FromString(s) == Err(InvalidFormat(s))
  {
  }

  /** A raw or "0x"-prefixed 40-digit hex address parses to that address in shard 0, realm 0. */
  lemma FromStringEvmAddress(e: EvmAddress)
    ensures FromString(HexEncode(e)) == Ok(FromEvmAddress(e, 0, 0))
    ensures FromString("0x" + HexEncode(e)) == Ok(FromEvmAddress(e, 0, 0))
  {
    var h := HexEncode(e);
    HexRoundTrip(e);
    HexDecodeDefined(h);
    assert h[0] != '0' || h[1] != 'x';
    assert StripHexPrefix(h) == h;
    assert ("0x" + h)[..2] == "0x" && ("0x" + h)[2..] == h;
  }

  // ---------------------------------------------------------------------------
  // Protobuf form

  /**
   * The AccountID message: shardNum, realmNum and the `account` oneof, which
   * holds accountNum or alias (or nothing).
   */
  datatype ProtoAccount = AccountNum(n: int) | Alias(bytes: Bytes) | AccountUnset
  datatype AccountIdProto = AccountIdProto(shardNum: int, realmNum: int, account: ProtoAccount)

  /** Reading accountNum: 0 unless the oneof holds it. */
  function ProtoAccountNum(p: AccountIdProto): int
  {
    if p.account.AccountNum? then p.account.n else 0
  }

  /** Reading alias: empty unless the oneof holds it. */
  function ProtoAlias(p: AccountIdProto): Bytes
  {
    if p.account.Alias? then p.account.bytes else []
  }

  /** AccountId._to_proto: the alias key wins over the EVM address; setting alias clears accountNum. */
  function ToProto(id: AccountId): (r: AccountIdProto)
    ensures r.shardNum == id.shard && r.realmNum == id.realm
    ensures r.account.AccountNum? <==> IsNumOnly(id)
    ensures IsNumOnly(id) ==> ProtoAccountNum(r) == id.num
    ensures id.aliasKey.None? && id.evmAddress.Some? ==> ProtoAlias(r) == id.evmAddress.value
    ensures id.aliasKey.Some? ==>
      |ProtoAlias(r)| == 2 + |id.aliasKey.value.raw| && ProtoAlias(r)[2..] == id.aliasKey.value.raw
  {
    AccountIdProto(id.shard, id.realm,
      if id.aliasKey.Some? then Alias(KeyProtoBytes(id.aliasKey.value))
      else if id.evmAddress.Some? then Alias(id.evmAddress.value)
      else AccountNum(id.num))
  }

  /**
   * AccountId._from_proto: a 20-byte alias is an EVM address; any other
   * non-empty alias loses its first two bytes and the rest is the key.
   */
  function FromProto(p: AccountIdProto): (r: Result<AccountId, AccountIdError>)
    ensures r.Ok? ==>
      (r.value.shard == p.shardNum && r.value.realm == p.realmNum
       && r.value.num == ProtoAccountNum(p) && r.value.checksum.None?)
    ensures r.Ok? && |ProtoAlias(p)| == 20 ==> r.value.evmAddress == Some(ProtoAlias(p)) && r.value.aliasKey.None?
    ensures r.Ok? && |ProtoAlias(p)| != 20 ==> r.value.evmAddress.None?
    ensures r.Ok? && |ProtoAlias(p)| != 20 && |ProtoAlias(p)| > 0 ==>
      |ProtoAlias(p)| >= 2 && r.value.aliasKey.Some? && r.value.aliasKey.value.raw == ProtoAlias(p)[2..]
    ensures r.Ok? && |ProtoAlias(p)| == 0 ==> IsNumOnly(r.value)
  {
    var alias := ProtoAlias(p);
    var base := NewAccountId(p.shardNum, p.realmNum, ProtoAccountNum(p), None, None);
    if |alias| == 0 then Ok(base)
    else if |alias| == 20 then Ok(base.(evmAddress := Some(alias)))
    else
      var keyBytes := if |alias| >= 2 then alias[2..] else [];
      match KeyFromBytes(keyBytes)
      case Some(k) => Ok(base.(aliasKey := Some(k)))
      case None => Err(InvalidAliasKey(keyBytes))
  }

  /**
   * What survives a trip through the wire form: the checksum never does, an
   * alias key hides the EVM address, and an alias of either kind hides num.
   */
  function WireForm(id: AccountId): AccountId
  {
    if id.aliasKey.Some? then AccountId(id.shard, id.realm, 0, id.aliasKey, None, None)
    else if id.evmAddress.Some? then AccountId(id.shard, id.realm, 0, None, id.evmAddress, None)
    else id.(checksum := None)
  }

  /** _from_proto(_to_proto(id)) is the id's wire form. */
  lemma ProtoRoundTrip(id: AccountId)
    ensures FromProto(ToProto(id)) == Ok(WireForm(id))
  {
    if id.aliasKey.Some? {
      var k := id.aliasKey.value;
      var bytes := KeyProtoBytes(k);
      assert |bytes| == 2 + RawKeyLength(k.kind);
      assert bytes[2..] == k.raw;
      assert KeyFromBytes(k.raw) == Some(k);
    }
  }

  /** Ids identified by num alone, and unresolved alias ids, round-trip through protobuf. */
  lemma ProtoRoundTripExact(id: AccountId)
    requires id.checksum.None?
    requires IsNumOnly(id) || IsUnresolvedAlias(id)
    ensures FromProto(ToProto(id)) == Ok(id)
  {
    ProtoRoundTrip(id);
  }

  // ---------------------------------------------------------------------------
  // Equality and hashing

  /** AccountId.__eq__: shard, realm, num, alias key and EVM address; not the checksum. */
  predicate Equal(a: AccountId, b: AccountId)
    ensures Equal(a, b) <==> a.(checksum := None) == b.(checksum := None)
  {
    (a.shard, a.realm, a.num, a.aliasKey, a.evmAddress) == (b.shard, b.realm, b.num, b.aliasKey, b.evmAddress)
  }

  /** AccountId.__hash__ hashes the tuple (shard, realm, num). */
  function HashKey(a: AccountId): (h: (int, int, int))
    ensures forall b: AccountId :: Equal(a, b) ==> (b.shard, b.realm, b.num) == h
  {
    (a.shard, a.realm, a.num)
  }

  /** Alias and EVM forms in the same shard and realm share a hash bucket without being equal. */
  lemma AliasFormsShareHash(shard: int, realm: int, k: PublicKey, e: EvmAddress)
    ensures HashKey(NewAccountId(shard, realm, 0, Some(k), None)) == HashKey(NewAccountId(shard, realm, 0, None, Some(e)))
    ensures !Equal(NewAccountId(shard, realm, 0, Some(k), None), NewAccountId(shard, realm, 0, None, Some(e)))
  {
  }

  // ---------------------------------------------------------------------------
  // Checksums

  /**
   * validate_checksum: refused for alias ids; otherwise a stored checksum must
   * be the one computed for (shard, realm, num) on the client's ledger, which
   * is given as `ledgerChecksum`.
   */
  function ValidateChecksum(id: AccountId, ledgerChecksum: string): (r: Option<AccountIdError>)
    ensures !IsNumOnly(id) ==> r == Some(ChecksumWithAlias)
    ensures IsNumOnly(id) ==> (r.None? <==> (id.checksum.None? || id.checksum.value == ledgerChecksum))
  {
    if id.aliasKey.Some? || id.evmAddress.Some? then Some(ChecksumWithAlias)
    else if id.checksum.None? || id.checksum.value == ledgerChecksum then None
    else Some(ChecksumMismatch(ledgerChecksum, id.checksum.value))
  }

  /** to_string_with_checksum: refused for alias ids; otherwise `shard.realm.num-checksum`. */
  function ToStringWithChecksum(id: AccountId, ledgerChecksum: string): (r: Result<string, AccountIdError>)
    ensures r.Err? <==> !IsNumOnly(id)
    ensures r.Err? ==> r.error == ChecksumWithAlias
  {
    if id.aliasKey.Some? || id.evmAddress.Some? then Err(ChecksumWithAlias)
    else Ok(Str(id) + "-" + ledgerChecksum)
  }

  /** The checksummed string parses back to the id, and its checksum validates on the same ledger. */
  lemma ChecksumStringValidates(id: AccountId, ledgerChecksum: string)
    requires IsNumOnly(id) && id.checksum.None?
    requires id.shard >= 0 && id.realm >= 0 && id.num >= 0
    requires IsChecksum(ledgerChecksum)
    ensures ToStringWithChecksum(id, ledgerChecksum).Ok?
    ensures FromString(ToStringWithChecksum(id, ledgerChecksum).value) == Ok(id.(checksum := Some(ledgerChecksum)))
    ensures ValidateChecksum(id.(checksum := Some(ledgerChecksum)), ledgerChecksum).None?
  {
    ChecksumStrRoundTrip(id, ledgerChecksum);
  }

  // ---------------------------------------------------------------------------
  // Mirror-node population

  /**
   * The mirror node's answer: the request failed (a RuntimeError), or a JSON
   * object in which the looked-up field is present with a string or absent.
   */
  datatype MirrorReply = QueryFailed | Reply(field: Option<string>)

  /** The last field of str.split("."). */
  function LastDottedField(s: string): string
  {
    var parts := Split(s, '.');
    parts[|parts| - 1]
  }

  /**
   * populate_account_num: requires an EVM address; num is the integer after
   * the last '.' of the mirror's `account` value.
   */
  function PopulateAccountNum(id: AccountId, reply: MirrorReply): (r: Result<AccountId, AccountIdError>)
    ensures id.evmAddress.None? ==> r == Err(EvmAddressRequired)
    ensures r.Ok? ==>
      (r.value.shard == id.shard && r.value.realm == id.realm
       && r.value.evmAddress == id.evmAddress && r.value.aliasKey.None? && r.value.checksum.None?)
    ensures r.Ok? ==>
      (reply.Reply? && reply.field.Some?
       && ParsePyInt(LastDottedField(reply.field.value)) == Some(r.value.num))
    ensures id.evmAddress.Some? && reply.Reply? && (reply.field.None? || reply.field.value == "") ==>
      r == Err(MirrorFieldMissing("account"))
    ensures id.evmAddress.Some? && reply.QueryFailed? ==> r == Err(MirrorQueryFailed)
    ensures id.evmAddress.Some? && reply.Reply? && reply.field.Some? && reply.field.value != "" ==>
      (var v := reply.field.value;
       && (ParsePyInt(LastDottedField(v)).Some? ==>
             r == Ok(NewAccountId(id.shard, id.realm, ParsePyInt(LastDottedField(v)).value, None, id.evmAddress)))
       && (ParsePyInt(LastDottedField(v)).None? ==> r == Err(InvalidAccountFormat(v))))
  {
    if id.evmAddress.None? then Err(EvmAddressRequired)
    else match reply
      case QueryFailed => Err(MirrorQueryFailed)
      case Reply(v) =>
        if v.None? || v.value == "" then Err(MirrorFieldMissing("account"))
        else match ParsePyInt(LastDottedField(v.value))
          case None => Err(InvalidAccountFormat(v.value))
          case Some(n) => Ok(NewAccountId(id.shard, id.realm, n, None, id.evmAddress))
  }

  /** populate_evm_address: requires a non-zero num; the address comes from the mirror's `evm_address`. */
  function PopulateEvmAddress(id: AccountId, reply: MirrorReply): (r: Result<AccountId, AccountIdError>)
    ensures id.num == 0 ==> r == Err(AccountNumRequired)
    ensures r.Ok? ==>
      (r.value.shard == id.shard && r.value.realm == id.realm && r.value.num == id.num
       && r.value.aliasKey.None? && r.value.checksum.None?)
    ensures r.Ok? ==>
      (reply.Reply? && reply.field.Some?
       && r.value.evmAddress == EvmAddressFromString(reply.field.value))
    ensures id.num != 0 && reply.QueryFailed? ==> r == Err(MirrorQueryFailed)
    ensures id.num != 0 && reply.Reply? && (reply.field.None? || reply.field.value == "") ==>
      r == Err(MirrorFieldMissing("evm_address"))
    ensures id.num != 0 && reply.Reply? && reply.field.Some? && reply.field.value != "" ==>
      (var v := reply.field.value;
       && (EvmAddressFromString(v).Some? ==>
             r == Ok(NewAccountId(id.shard, id.realm, id.num, None, EvmAddressFromString(v))))
       && (EvmAddressFromString(v).None? ==> r == Err(InvalidEvmAddress(v))))
  {
    if id.num == 0 then Err(AccountNumRequired)
    else match reply
      case QueryFailed => Err(MirrorQueryFailed)
      case Reply(v) =>
        if v.None? || v.value == "" then Err(MirrorFieldMissing("evm_address"))
        else match EvmAddressFromString(v.value)
          case None => Err(InvalidEvmAddress(v.value))
          case Some(e) => Ok(NewAccountId(id.shard, id.realm, id.num, None, Some(e)))
  }

  /**
   * When the mirror reports the account as a dotted id, populate_account_num
   * resolves the EVM-address id to that id's number.
   */
  lemma {:induction false} PopulateAccountNumFromDottedId(id: AccountId, mirror: AccountId)
    requires id.evmAddress.Some?
    requires IsNumOnly(mirror)
    ensures PopulateAccountNum(id, Reply(Some(Str(mirror))))
      == Ok(NewAccountId(id.shard, id.realm, mirror.num, None, id.evmAddress))
  {
    LastFieldOfNumId(mirror);
    ParsePyIntOfIntText(mirror.num);
  }

  /** The text after the last '.' of `str()` of a numeric id is its num. */
  lemma LastFieldOfNumId(mirror: AccountId)
    requires IsNumOnly(mirror)
    ensures LastDottedField(Str(mirror)) == IntToString(mirror.num)
  {
    var a, b, c := IntToString(mirror.shard), IntToString(mirror.realm), IntToString(mirror.num);
    assert Str(mirror) == a + ['.'] + (b + ['.'] + c);
    IntTextLacksDot(mirror.shard);
    IntTextLacksDot(mirror.realm);
    LastFieldAfterDot(a, b + ['.'] + c);
    LastFieldAfterDot(b, c);
    IntTextLacksDot(mirror.num);
    SplitNoSeparator(c, '.');
  }

  lemma ParsePyIntOfIntText(i: int)
    ensures ParsePyInt(IntToString(i)) == Some(i)
  {
    ParsePyIntOfIntToString("", i, "");
    assert "" + IntToString(i) + "" == IntToString(i);
  }

  lemma LastFieldAfterDot(a: string, t: string)
    requires Lacks(a, '.')
    ensures LastDottedField(a + ['.'] + t) == LastDottedField(t)
  {
    SplitFirstField(a, '.', t);
  }

  lemma IntTextLacksDot(i: int)
    ensures Lacks(IntToString(i), '.')
  {
    var d := if i < 0 then -i else i;
    NatToStringRoundTrip(d);
  }

  /**
   * An id created from an EVM address has num 0 until populate_account_num
   * succeeds; the populated id is a new value that keeps the address.
   */
  lemma PopulatedEvmAddressIdCarriesNum(e: EvmAddress, mirror: AccountId)
    requires IsNumOnly(mirror)
    ensures FromEvmAddress(e, 0, 0).num == 0
    ensures PopulateAccountNum(FromEvmAddress(e, 0, 0), Reply(Some(Str(mirror))))
      == Ok(AccountId(0, 0, mirror.num, None, Some(e), None))
  {
    PopulateAccountNumFromDottedId(FromEvmAddress(e, 0, 0), mirror);
  }
}
