# hiero-sdk-python: account identifiers, node trust and channels, TCK port

A Dafny model of three parts of the Hiero Python SDK, with proofs about them.

- **`AccountId`** (`src/hiero_sdk_python/account/account_id.py`). An account is
  `shard.realm.num`, or `shard.realm` plus a public-key alias or a 20-byte EVM
  address. The model covers parsing from strings (EVM address first, then the
  dotted form with an optional checksum, then the hex-alias form), the `str`
  and `repr` forms, the protobuf `AccountID` conversion, equality and hashing,
  the checksum preconditions and the post-processing of the two mirror-node
  lookups. The Python values are never mutated after construction, so the id
  is a datatype and every operation is a function (`AccountIds.dfy`).
- **Certificate-hash pinning** (`src/hiero_sdk_python/node.py`). This part
  covers `_HederaTrustManager` and `_Node._normalize_cert_hash`. It also
  covers the decision of `_validate_tls_certificate_with_trust_manager` to
  validate or skip. These are all functions (`NodeTrust.dfy`). SHA-384 is a
  parameter `sha384: Bytes -> Bytes`, and every property holds for every such
  function.
- **`_Node`** (`src/hiero_sdk_python/node.py`). A node caches one channel. Its
  trust policy is the transport-security mode, the root certificates and the
  verify flag. Each method is a function on a `NodeState` value. The class
  `NodeChannels.Node` performs the same steps on its own fields and is proved
  to agree with those functions (`NodeChannels.dfy`). The invariant
  `PolicyHolds` says that a cached channel was built under the policy now in
  force. In particular, with verification on and a pinned address-book hash,
  a cached secure channel trusts only a PEM whose SHA-384 is the pinned hash.
  Every method preserves this invariant.
- **`_parse_port`** (`tck/server.py`): `int()` followed by a 1..65535 range
  check (`TckServer.dfy`).

`Text.dfy` holds the Python text primitives the code relies on: decimal
rendering, `int()`, `bytes.hex()`/`bytes.fromhex()`, ASCII `lower()`,
`strip()` and `split()`. `strip()` and `int()` trim different whitespace:
`strip()` removes every `str.isspace()` character, while `int()` maps
non-ASCII whitespace to a space and then skips only ASCII tab, line feed,
vertical tab, form feed, carriage return and space. So the information
separators U+001C..U+001F are whitespace to `strip()` but make `int()`
fail. `NodeTrust.dfy` adds `bytes.decode('utf-8')` with
the full well-formedness table of the Unicode Standard, section 3.9.

Helpers that the core calls but whose source is not part of this model are
given concrete definitions, each assumed as stated:

- `parse_from_string` accepts `(0|[1-9]\d*)` three times, separated by
  dots, with an optional `-` and five lowercase letters of checksum.
- `EvmAddress.from_string` accepts an optional `0x` and exactly 40 hex
  digits. `EvmAddress.to_string` is lowercase hex without `0x`.
- `PublicKey.from_bytes` tells the key kind by its length: 32 bytes is
  Ed25519, 33 bytes is compressed ECDSA secp256k1. `to_string` and
  `to_string_raw` give the hex of the raw bytes. The serialised `Key`
  message is one tag byte (field 2 or field 7, length-delimited), one
  length byte and the raw key.
- `validate_checksum` and `format_to_string_with_checksum` compare with
  (or append) the checksum the client's ledger gives for
  `shard.realm.num`. That checksum is a parameter.
- `_ManagedNodeAddress` is an endpoint plus a secure/insecure flag.
  `_to_secure` and `_to_insecure` flip the flag.

Two consequences of the code as written are proved as lemmas:

- `NodeTrust.RawAsciiDigestIsRefused`: a raw 48-byte digest whose bytes are
  all below 0x80 is valid UTF-8. It is therefore normalised as text, never
  as hex, and even the certificate with exactly that digest is refused.
- `AccountIds.AliasStrRoundTrip`: `str()` of an alias id whose hex has no
  letters and no leading zero reads back as a numeric id, because the dotted
  parse is tried before the alias pattern.

## Model

| member | source | states |
|---|---|---|
| AccountIds.KeyFromBytes | src/hiero_sdk_python/account/account_id.py:121 | a key made from bytes keeps exactly those bytes as its raw key |
| AccountIds.EvmAddressFromString | src/hiero_sdk_python/account/account_id.py:158-162 | an address is produced exactly when, after an optional "0x", 40 hex digits remain, and it is their decoding |
| AccountIds.NewAccountId | src/hiero_sdk_python/account/account_id.py:39-61 | a freshly constructed id has no checksum |
| AccountIds.FromEvmAddress | src/hiero_sdk_python/account/account_id.py:139-175 | an id built from an EVM address has that address, no alias key, num 0 and the given shard and realm |
| AccountIds.FromEvmAddressString | src/hiero_sdk_python/account/account_id.py:155-162 | succeeds exactly when the string is a valid EVM address; otherwise it fails with an invalid-EVM-address error naming the input |
| AccountIds.IsEvmAddress | src/hiero_sdk_python/account/account_id.py:257-271 | _is_evm_address accepts exactly the strings EvmAddress.from_string accepts, so the first branch of from_string never fails; such strings have 40 or 42 characters |
| AccountIds.ParseDotted | src/hiero_sdk_python/account/account_id.py:94-104 | a successful parse writes back to exactly the input: `shard.realm.num`, then `-checksum` when there is one, each number canonical, and the checksum is five lowercase letters |
| AccountIds.FromString | src/hiero_sdk_python/account/account_id.py:63-137 | an EVM-address string gives from_evm_address of that address in shard 0, realm 0; otherwise a dotted parse gives the num-only id with exactly its shard, realm, num and checksum; otherwise a string ALIAS_REGEX does not match is InvalidFormat; a match gives, in its shard and realm with num 0, the EVM address for 20 alias bytes, else the key whose raw bytes are the alias, else an invalid-key error naming those bytes; only num-only ids carry a checksum |
| AccountIds.MatchAlias | src/hiero_sdk_python/account/account_id.py:22 | a match carries a non-empty alias, and the string is exactly `shard.realm.h` with shard and realm written canonically and h hex text that decodes to the alias bytes |
| AccountIds.NumStrRoundTrip | src/hiero_sdk_python/account/account_id.py:63-104 | from_string(str(id)) == id for every non-negative num-only id without checksum |
| AccountIds.ParseAndPrintZeroZeroThree | src/hiero_sdk_python/account/account_id.py:273-281 | "0.0.3" parses to (0, 0, 3) and prints back as "0.0.3" |
| AccountIds.ChecksumStrRoundTrip | src/hiero_sdk_python/account/account_id.py:94-104 | `shard.realm.num-cs` parses to the num-only id with checksum cs |
| AccountIds.AliasStrRoundTrip | src/hiero_sdk_python/account/account_id.py:106-128 | str() of an unresolved alias id parses back to the same id exactly when its hex is not a canonical decimal; otherwise it parses to the numeric id that the hex spells |
| AccountIds.FromAliasText | src/hiero_sdk_python/account/account_id.py:106-137 | the complete outcome of from_string on `shard.realm.<hex>`: numeric id, EVM address, key, or an invalid-key error |
| AccountIds.HexAliasTextParses | src/hiero_sdk_python/account/account_id.py:22 | `shard.realm.<hex>` is never an EVM address, matches the alias pattern with the hex's bytes, and parses as dotted exactly when the hex is a canonical decimal |
| AccountIds.FromStringNeedsThreeFields | src/hiero_sdk_python/account/account_id.py:94-137 | a non-EVM string without exactly three dot-separated fields is rejected with InvalidFormat |
| AccountIds.FromStringEvmAddress | src/hiero_sdk_python/account/account_id.py:87-92 | 40 hex digits, with or without "0x", parse to that EVM address in shard 0, realm 0 |
| AccountIds.Str | src/hiero_sdk_python/account/account_id.py:273-281 | str() splits at "." into exactly three fields: shard, realm, and the identity text (alias key, else EVM address, else num) |
| AccountIds.Repr | src/hiero_sdk_python/account/account_id.py:387-401 | repr() shows shard, realm and the same identity text as str(), labelled alias_key, evm_address or num |
| AccountIds.StringFormsFollowPrecedence | src/hiero_sdk_python/account/account_id.py:273-281 | str() and repr() show the alias key before the EVM address before num: fields of lower precedence do not change them, nor does the checksum |
| AccountIds.FromProto | src/hiero_sdk_python/account/account_id.py:190-214 | shard, realm and num come from the message; a 20-byte alias is an EVM address; any other non-empty alias minus its first two bytes is the key; no alias gives a num-only id |
| AccountIds.ToProto | src/hiero_sdk_python/account/account_id.py:216-235 | shard and realm are copied; accountNum is set exactly for num-only ids and carries num; an EVM-address id sends its 20 bytes as alias; a key alias is sent as a two-byte header followed by the raw key |
| AccountIds.ProtoRoundTrip | src/hiero_sdk_python/account/account_id.py:190-235 | _from_proto(_to_proto(id)) drops the checksum; an alias key hides the EVM address; any alias hides num, because accountNum and alias share one oneof |
| AccountIds.ProtoRoundTripExact | src/hiero_sdk_python/account/account_id.py:190-235 | num-only ids and unresolved alias ids without checksum survive the protobuf round trip unchanged |
| AccountIds.Equal | src/hiero_sdk_python/account/account_id.py:403-419 | equality compares shard, realm, num, alias key and EVM address, and ignores only the checksum |
| AccountIds.HashKey | src/hiero_sdk_python/account/account_id.py:421-423 | __hash__ agrees with __eq__: every id equal to a has the same (shard, realm, num) hash key |
| AccountIds.AliasFormsShareHash | src/hiero_sdk_python/account/account_id.py:403-423 | for any shard and realm, a key-alias id and an EVM-address id there hash alike but are not equal |
| AccountIds.ValidateChecksum | src/hiero_sdk_python/account/account_id.py:242-255 | refused for ids with an alias key or EVM address; otherwise passes exactly when there is no checksum or it equals the ledger's |
| AccountIds.ToStringWithChecksum | src/hiero_sdk_python/account/account_id.py:283-293 | fails exactly for ids with an alias key or EVM address |
| AccountIds.ChecksumStringValidates | src/hiero_sdk_python/account/account_id.py:242-293 | the checksummed string parses back to the id with that checksum, which then validates |
| AccountIds.PopulateAccountNum | src/hiero_sdk_python/account/account_id.py:295-337 | no EVM address gives EvmAddressRequired; a failed query gives MirrorQueryFailed; a missing or empty `account` gives MirrorFieldMissing; otherwise, when int() accepts the text after the last ".", the result keeps shard, realm and address and takes that num, and when it does not, the error is InvalidAccountFormat naming the value |
| AccountIds.PopulateAccountNumFromDottedId | src/hiero_sdk_python/account/account_id.py:318-335 | a mirror answer `shard.realm.num` resolves the id to that num |
| AccountIds.PopulatedEvmAddressIdCarriesNum | src/hiero_sdk_python/account/account_id.py:87-92 | an id parsed from an EVM address has num 0 until populate_account_num gives it the mirror's num |
| AccountIds.PopulateEvmAddress | src/hiero_sdk_python/account/account_id.py:339-374 | num 0 gives AccountNumRequired; a failed query gives MirrorQueryFailed; a missing or empty `evm_address` gives MirrorFieldMissing; otherwise, when EvmAddress.from_string accepts the value, the result keeps shard, realm and num and takes that address, and when it does not, the error is InvalidEvmAddress naming the value |
| Text.NatToStringRoundTrip | src/hiero_sdk_python/account/account_id.py:281 | f"{n}" is canonical decimal and reads back as n |
| Text.CanonicalDigitsRoundTrip | src/hiero_sdk_python/account/account_id.py:22 | a number written as `0|[1-9][0-9]*` is what f"{n}" prints for its value |
| Text.ParseSignedDigits | src/hiero_sdk_python/account/account_id.py:329 | defined exactly on an optional sign followed by digits |
| Text.ParsePyInt | tck/server.py:18 | int() succeeds exactly when, after int()'s whitespace is trimmed, an optional sign and one or more ASCII digits remain |
| Text.ParsePyIntOfIntToString | tck/server.py:18 | int(str(i)) == i, also with int()'s whitespace around the text |
| Text.InformationSeparatorsAreNotIntSpace | tck/server.py:18 | U+001C..U+001F are whitespace to strip() but not to int(): int() of such a character followed by "5" fails |
| Text.HexDecodeDefined | src/hiero_sdk_python/account/account_id.py:266-271 | bytes.fromhex succeeds exactly on even-length hex text |
| Text.HexRoundTrip | src/hiero_sdk_python/account/account_id.py:110 | bytes.fromhex(b.hex()) == b |
| Text.HexEncodeIsLower | src/hiero_sdk_python/node.py:69 | lowering bytes.hex() changes nothing |
| Text.StripPadded | src/hiero_sdk_python/node.py:43 | stripping removes exactly the whitespace around a core that neither starts nor ends with whitespace |
| Text.StripKeepsNonSpace | src/hiero_sdk_python/node.py:43 | stripping keeps every character that is not whitespace |
| Text.SplitFirstField | src/hiero_sdk_python/account/account_id.py:329 | a field without the separator splits off first |
| Text.SplitRejoins | src/hiero_sdk_python/account/account_id.py:329 | "sep".join(s.split(sep)) == s: the split fields put back together give the string |
| NodeTrust.Utf8Decode | src/hiero_sdk_python/node.py:43 | decoding never gives more characters than bytes |
| NodeTrust.Utf8DecodeAscii | src/hiero_sdk_python/node.py:43 | ASCII bytes decode to the text they spell |
| NodeTrust.NormalizeCertHash | src/hiero_sdk_python/node.py:253-264 | the normal form has no ASCII capital letter; bytes that are not UTF-8 become hex of twice their length that decodes back to them; UTF-8 bytes give at most as many characters as bytes |
| NodeTrust.NewTrustManager | src/hiero_sdk_python/node.py:23-47 | an absent hash is an error exactly when verification is required, and is otherwise stored as None; a present hash is stored in _normalize_cert_hash's normal form (lines 253-264) |
| NodeTrust.CheckServerTrusted | src/hiero_sdk_python/node.py:49-77 | accepts exactly when no hash is stored or the hex SHA-384 of the PEM equals the stored hash; a refusal names both hashes |
| NodeTrust.HexTextNormalizes | src/hiero_sdk_python/node.py:41-47 | ASCII hex text of either case, with or without "0x"/"0X" and surrounding whitespace, normalises to its lowercase digits |
| NodeTrust.HexTextHashPinsCertificate | src/hiero_sdk_python/node.py:23-77 | such a text hash accepts exactly the certificates whose SHA-384 is the digest it spells |
| NodeTrust.HexTextHashRejectsOtherCertificate | src/hiero_sdk_python/node.py:67-75 | a certificate with another digest is refused with both hashes named |
| NodeTrust.RawHashPinsCertificate | src/hiero_sdk_python/node.py:46-47 | a raw hash that is not UTF-8 accepts exactly the certificates with that digest |
| NodeTrust.RawAsciiDigestIsRefused | src/hiero_sdk_python/node.py:41-47 | a raw digest of ASCII bytes is read as text, so even the matching certificate is refused |
| NodeTrust.ValidateTlsCertificate | src/hiero_sdk_python/node.py:226-251 | skipped exactly when the address is insecure, verification is off, or the address book has no hash; otherwise passes exactly when the PEM's hex SHA-384 equals the normalised pinned hash, and a failure names both |
| NodeChannels.FetchServerCertificate | src/hiero_sdk_python/node.py:266-274 | no address-book entry gives None with no handshake; a certificate comes only from the handshake |
| NodeChannels.ChannelOptions | src/hiero_sdk_python/node.py:197-224 | both grpc.default_authority and grpc.ssl_target_name_override are 127.0.0.1, and no option is set twice |
| NodeChannels.InitialState | src/hiero_sdk_python/node.py:82-98 | a new node is at the given address with no channel and verification on, and the invariant holds for every address book and hash function |
| NodeChannels.Closed | src/hiero_sdk_python/node.py:100-109 | closing drops the channel and changes nothing else |
| NodeChannels.CloseKeepsPolicy | src/hiero_sdk_python/node.py:100-109 | closing keeps the invariant and is idempotent |
| NodeChannels.WithTransportSecurity | src/hiero_sdk_python/node.py:155-174 | the address ends in the requested mode at the same endpoint; asking for the current mode changes nothing; a change drops the channel; the verify flag, roots and PEM are kept |
| NodeChannels.TransportSecurityKeepsPolicy | src/hiero_sdk_python/node.py:155-174 | switching the mode keeps the invariant |
| NodeChannels.WithRootCertificates | src/hiero_sdk_python/node.py:176-182 | the roots are always stored; a secure node's channel is dropped, an insecure node's is kept; address, verify flag and PEM are kept |
| NodeChannels.RootCertificatesKeepPolicy | src/hiero_sdk_python/node.py:176-182 | setting root certificates keeps the invariant |
| NodeChannels.WithVerifyCertificates | src/hiero_sdk_python/node.py:184-195 | the flag ends at the requested value; the current value changes nothing; turning verification on drops a secure node's channel, and in every other case the channel is kept; address, roots and PEM are kept |
| NodeChannels.VerifyCertificatesKeepPolicy | src/hiero_sdk_python/node.py:184-195 | changing the verify flag keeps the invariant |
| NodeChannels.GetChannelStep | src/hiero_sdk_python/node.py:111-153 | a returned channel is cached; a failure caches nothing and changes at most the PEM; address, verify flag and roots are kept; a new channel of a secure node goes to its address with the pinned options and the node's PEM as root, and an insecure node's is a plain channel to its address; the trust manager's no-address-book error never comes out |
| NodeChannels.GetChannelKeepsPolicy | src/hiero_sdk_python/node.py:111-153 | _get_channel keeps the invariant, and the channel it returns fits the policy in force |
| NodeChannels.SecureChannelsArePinned | src/hiero_sdk_python/node.py:126-149 | with verification on and a pinned hash, a secure channel trusts only a PEM whose SHA-384 is the pinned hash, and its authority is overridden to 127.0.0.1 |
| NodeChannels.CachedChannelIsReturned | src/hiero_sdk_python/node.py:123-124 | a cached channel is returned with no change, fetch or validation |
| NodeChannels.GetChannelIdempotent | src/hiero_sdk_python/node.py:123-153 | after a channel is produced, calling again returns the same channel and changes nothing |
| NodeChannels.InsecureChannelWithoutCertificates | src/hiero_sdk_python/node.py:150-151 | an insecure node gets a plain channel to its address whatever the handshake or address book |
| NodeChannels.RootCertificatesNeedNoFetch | src/hiero_sdk_python/node.py:127-129 | configured roots are used as the PEM and make the outcome independent of the handshake |
| NodeChannels.NoCertificateWithoutAddressBook | src/hiero_sdk_python/node.py:130-135 | without roots and without an address book, no certificate is available and no channel is cached |
| NodeChannels.MismatchedCertificateIsRefused | src/hiero_sdk_python/node.py:137-139 | with verification on, a fetched PEM with another digest is refused naming both hashes |
| NodeChannels.UnpinnedCertificateIsAccepted | src/hiero_sdk_python/node.py:137-149 | with verification off or no pinned hash, any fetched PEM becomes the channel's root |
| NodeChannels.NoAddressBookErrorIsUnreachable | src/hiero_sdk_python/node.py:240-251 | the trust manager's no-address-book error never reaches a caller of _get_channel |
| NodeChannels.ToSecure | src/hiero_sdk_python/node.py:171-172 | the secure form keeps the endpoint |
| NodeChannels.ToInsecure | src/hiero_sdk_python/node.py:173-174 | the insecure form keeps the endpoint |
| NodeChannels.Node.constructor | src/hiero_sdk_python/node.py:82-98 | a new node is in the initial state and holds the invariant |
| NodeChannels.Node.Close | src/hiero_sdk_python/node.py:100-109 | the new state is the closed state; a cached channel is recorded as closed |
| NodeChannels.Node.GetChannel | src/hiero_sdk_python/node.py:111-153 | the new state and the result are those of GetChannelStep, and the invariant is kept |
| NodeChannels.Node.ApplyTransportSecurity | src/hiero_sdk_python/node.py:155-174 | the new state is WithTransportSecurity of the old, the invariant is kept, and a dropped channel is recorded as closed |
| NodeChannels.Node.SetRootCertificates | src/hiero_sdk_python/node.py:176-182 | the new state is WithRootCertificates of the old, the invariant is kept, and a dropped channel is recorded as closed |
| NodeChannels.Node.SetVerifyCertificates | src/hiero_sdk_python/node.py:184-195 | the new state is WithVerifyCertificates of the old, the invariant is kept, and a dropped channel is recorded as closed |
| TckServer.ParsePort | tck/server.py:16-23 | text int() refuses is NotAnInteger naming the input, and only such text is; an integer in 1..65535 is returned; any other integer is OutOfRange naming it |
| TckServer.ParsePortOfPortText | tck/server.py:16-23 | every in-range port, written as Python writes it and with or without int()'s whitespace, is read back; every other integer is refused as out of range |
| TckServer.DefaultPortIs8544 | tck/server.py:14 | the default "8544" gives port 8544 |
| TckServer.PortRangeOuterEnds | tck/server.py:21-22 | "0" and "65536", just outside the range, are refused as out of range with the number they name |
| TckServer.NegativePortIsOutOfRange | tck/server.py:17-22 | "-1" parses as an integer and is then refused as out of range, not as malformed text |
| TckServer.PortRangeInnerEnds | tck/server.py:21-22 | "1" and "65535", the ends of the range, are accepted |
| TckServer.NonIntegerTextIsRefused | tck/server.py:17-20 | text with a character that is not a sign, a digit or int()'s whitespace is refused as not an integer |
| TckServer.EmptyPortIsRefused | tck/server.py:17-20 | an empty setting is refused as not an integer |
| TckServer.SeparatorPaddedPortIsRefused | tck/server.py:17-20 | an information separator U+001C..U+001F before "8544" makes int() refuse the setting |
| TckServer.SignedAndZeroPaddedPorts | tck/server.py:17-23 | "+80" and "080" are port 80 |

## Left out

- Python lexical details of the parsers:
  - `bytes.fromhex` also skips whitespace between byte pairs, but here hex text has no separators.
  - `int()` also accepts underscores between digits and non-ASCII decimal digits; here it takes its own whitespace, an optional sign and ASCII digits.
  - In `ALIAS_REGEX`, `\d` also matches non-ASCII digits and `$` also matches before a final newline; the model takes ASCII digits and no newline.
  - The `TypeError` branches for non-`str` input are ruled out by the types.
- `str.lower()` is modelled on ASCII letters only. Other characters of an address-book hash are kept unchanged.
- Integers are unbounded. The protobuf int64 fields are not bounded.
- `to_evm_address` and `to_solidity_address`: not part of this model.
- `from_bytes` and `to_bytes` (protobuf byte serialisation): not part of this model. The model works on the `AccountID` message as a value.
- The mirror-node HTTP request is a parameter: either a failure or the JSON field's value. Mirror URLs are not modelled.
- The checksum algorithm and the ledger id are a parameter.
- `_ManagedNodeAddress._from_string`, the port numbers behind `_to_secure` and `_to_insecure`, and `str(address)` are not modelled. The node takes an already parsed address.
- The TLS handshake of `_fetch_server_certificate_pem` is a parameter: a PEM or a connection failure. Also not modelled:
  - socket timeouts and the `CERT_FETCH_TIMEOUT_SECONDS` constant;
  - the TLS 1.2 minimum;
  - DER-to-PEM conversion.
- gRPC channel construction and `channel.close()` are not modelled. A channel is a value that records its target, root certificates and options. Closing is recorded in the ghost field `closedChannels`.
- SHA-384 is an arbitrary function parameter.
- The transaction engine and `transaction_response.py` are not part of this model.
- The Flask JSON-RPC endpoint and the environment reading of `ServerConfig` are not part of this model.
- Concurrency is not modelled: two callers racing on one node's channel are outside the model.
