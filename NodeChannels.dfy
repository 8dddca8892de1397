/**
 * The channel manager of src/hiero_sdk_python/node.py: a `_Node` caches one
 * gRPC channel and keeps three trust-policy fields (transport security, root
 * certificates, the verify flag). Every policy change that could make the
 * cached channel untrustworthy closes it.
 *
 * Each operation is first a function on a `NodeState` value; the class `Node`
 * then performs it on its fields and is proved to agree with that function.
 * The invariant `PolicyHolds` says a cached channel was built under the
 * policy now in force, and every operation preserves it.
 */
module NodeChannels {
  import opened Wrappers
  import opened Text
  import opened NodeTrust
  import AccountIds

  /**
   * _ManagedNodeAddress, as far as the node uses it: an endpoint and whether
   * it is the transport-security form.
   */
  datatype ManagedAddress = ManagedAddress(endpoint: string, secure: bool)

  /** _ManagedNodeAddress._to_secure. */
  function ToSecure(a: ManagedAddress): (r: ManagedAddress)
    ensures r.secure && r.endpoint == a.endpoint
  {
    a.(secure := true)
  }

  /** _ManagedNodeAddress._to_insecure. */
  function ToInsecure(a: ManagedAddress): (r: ManagedAddress)
    ensures !r.secure && r.endpoint == a.endpoint
  {
    a.(secure := false)
  }

  datatype OptionValue = TextOption(text: string) | NumberOption(number: int)

  /**
   * _Node._build_channel_options: the authority and the TLS target name are
   * both pinned to a loopback identity, so hostname checks never decide
   * trust; each option is set once.
   */
  function ChannelOptions(): (r: seq<(string, OptionValue)>)
    ensures ("grpc.default_authority", TextOption("127.0.0.1")) in r
    ensures ("grpc.ssl_target_name_override", TextOption("127.0.0.1")) in r
    ensures forall i, j :: 0 <= i < j < |r| ==> r[i].0 != r[j].0
  {
    [
      ("grpc.default_authority", TextOption("127.0.0.1")),
      ("grpc.ssl_target_name_override", TextOption("127.0.0.1")),
      ("grpc.keepalive_time_ms", NumberOption(100000)),
      ("grpc.keepalive_timeout_ms", NumberOption(10000)),
      ("grpc.keepalive_permit_without_calls", NumberOption(1))
    ]
  }

  /** A gRPC channel, with what it was built from. */
  datatype Channel =
    | SecureChannel(target: ManagedAddress, rootCertificates: Bytes, options: seq<(string, OptionValue)>)
    | InsecureChannel(target: ManagedAddress)

  /** What the TLS handshake of _fetch_server_certificate_pem yields: the peer's PEM, or a socket/TLS error. */
  datatype Handshake = PeerCertificate(pem: Bytes) | HandshakeFailed

  datatype NodeError =
    | NoCertificate
    | ConnectionFailed
    | Untrusted(error: TrustError)

  /** The fields of `_Node` that its methods change. */
  datatype NodeState = NodeState(
    channel: Option<Channel>,
    address: ManagedAddress,
    verifyCertificates: bool,
    rootCertificates: Option<Bytes>,
    nodePemCert: Option<Bytes>)

  /** The state after a call and what the call returned. */
  datatype Step = Step(state: NodeState, result: Result<Channel, NodeError>)

  // ---------------------------------------------------------------------------
  // The operations on values

  /** _Node.__init__: no channel, verification on, no certificates. */
  function InitialState(address: ManagedAddress): (r: NodeState)
    ensures r.address == address && r.channel.None? && r.verifyCertificates
    ensures forall book: Option<AddressBookEntry>, sha384: Hasher :: PolicyHolds(r, book, sha384)
  {
    NodeState(None, address, true, None, None)
  }

  /** _Node._close. */
  function Closed(s: NodeState): (r: NodeState)
    ensures r.channel.None? && r.(channel := s.channel) == s
  {
    s.(channel := None)
  }

  /**
   * _Node._fetch_server_certificate_pem: None without an address-book entry
   * (no handshake is attempted), otherwise the handshake's certificate.
   */
  function FetchServerCertificate(book: Option<AddressBookEntry>, handshake: Handshake): (r: Result<Option<Bytes>, NodeError>)
    ensures book.None? ==> r == Ok(None)
    ensures r.Ok? && r.value.Some? ==> book.Some? && handshake == PeerCertificate(r.value.value)
  {
    if book.None? then Ok(None)
    else match handshake
      case PeerCertificate(pem) => Ok(Some(pem))
      case HandshakeFailed => Err(ConnectionFailed)
  }

  /** _Node._get_channel. */
  function GetChannelStep(s: NodeState, book: Option<AddressBookEntry>, handshake: Handshake, sha384: Hasher): (r: Step)
    ensures r.result.Ok? ==> r.state.channel == Some(r.result.value)
    ensures r.result.Err? ==> r.state.channel.None? && r.state.(nodePemCert := s.nodePemCert) == s
    ensures r.state.address == s.address && r.state.verifyCertificates == s.verifyCertificates
    ensures r.state.rootCertificates == s.rootCertificates
    ensures r.result.Ok? && s.channel.None? ==>
      (if s.address.secure
       then r.result.value.SecureChannel? && r.result.value.target == s.address
            && r.result.value.options == ChannelOptions()
            && r.state.nodePemCert == Some(r.result.value.rootCertificates)
       else r.result.value == InsecureChannel(s.address))
    ensures r.result != Err(Untrusted(NoAddressBook))
  {
    if s.channel.Some? then Step(s, Ok(s.channel.value))
    else if !s.address.secure then
      var c := InsecureChannel(s.address);
      Step(s.(channel := Some(c)), Ok(c))
    else
      var fetched := if !IsAbsent(s.rootCertificates) then Ok(s.rootCertificates)
                     else FetchServerCertificate(book, handshake);
      match fetched
      case Err(e) => Step(s, Err(e))
      case Ok(pem) =>
        var s1 := s.(nodePemCert := pem);
        if IsAbsent(pem) then Step(s1, Err(NoCertificate))
        else
          var v := if s1.verifyCertificates
                   then ValidateTlsCertificate(s1.address.secure, s1.verifyCertificates, book, pem.value, sha384)
                   else Skipped;
          if v.Failed? then Step(s1, Err(Untrusted(v.error)))
          else
            var c := SecureChannel(s.address, pem.value, ChannelOptions());
            Step(s1.(channel := Some(c)), Ok(c))
  }

  /** _Node._apply_transport_security. */
  function WithTransportSecurity(s: NodeState, enabled: bool): (r: NodeState)
    ensures r.address.secure == enabled && r.address.endpoint == s.address.endpoint
    ensures enabled == s.address.secure ==> r == s
    ensures enabled != s.address.secure ==> r.channel.None?
    ensures r.verifyCertificates == s.verifyCertificates
    ensures r.rootCertificates == s.rootCertificates && r.nodePemCert == s.nodePemCert
  {
    if enabled == s.address.secure then s
    else Closed(s).(address := if enabled then ToSecure(s.address) else ToInsecure(s.address))
  }

  /** _Node._set_root_certificates. */
  function WithRootCertificates(s: NodeState, roots: Option<Bytes>): (r: NodeState)
    ensures r.rootCertificates == roots
    ensures s.address.secure ==> r.channel.None?
    ensures !s.address.secure ==> r.channel == s.channel
    ensures r.address == s.address && r.verifyCertificates == s.verifyCertificates && r.nodePemCert == s.nodePemCert
  {
    var s1 := s.(rootCertificates := roots);
    if s1.channel.Some? && s1.address.secure then Closed(s1) else s1
  }

  /** _Node._set_verify_certificates. */
  function WithVerifyCertificates(s: NodeState, verify: bool): (r: NodeState)
    ensures r.verifyCertificates == verify
    ensures verify == s.verifyCertificates ==> r == s
    ensures verify && !s.verifyCertificates && s.address.secure ==> r.channel.None?
    ensures !(verify && !s.verifyCertificates && s.address.secure) ==> r.channel == s.channel
    ensures r.address == s.address && r.rootCertificates == s.rootCertificates && r.nodePemCert == s.nodePemCert
  {
    if s.verifyCertificates == verify then s
    else
      var s1 := s.(verifyCertificates := verify);
      if verify && s1.channel.Some? && s1.address.secure then Closed(s1) else s1
  }

  // ---------------------------------------------------------------------------
  // The invariant: a cached channel matches the policy in force

  /**
   * A channel fits a state when it goes to the node's current address in the
   * current mode; a secure channel trusts exactly the node's PEM, which is
   * the configured root certificates when those are set, overrides the
   * authority to the loopback identity, and, with verification on and a
   * pinned hash, has a PEM whose SHA-384 is the pinned hash.
   */
  predicate ChannelFits(c: Channel, s: NodeState, book: Option<AddressBookEntry>, sha384: Hasher)
  {
    match c
    case InsecureChannel(target) => target == s.address && !s.address.secure
    case SecureChannel(target, root, options) =>
      && target == s.address && s.address.secure
      && options == ChannelOptions()
      && |root| > 0 && s.nodePemCert == Some(root)
      && (!IsAbsent(s.rootCertificates) ==> s.rootCertificates == Some(root))
      && (s.verifyCertificates && PinnedHash(book).Some? ==>
            HexEncode(sha384(root)) == NormalizeCertHash(PinnedHash(book).value))
  }

  predicate PolicyHolds(s: NodeState, book: Option<AddressBookEntry>, sha384: Hasher)
  {
    s.channel.Some? ==> ChannelFits(s.channel.value, s, book, sha384)
  }

  /** Closing keeps the policy, and closing again changes nothing. */
  lemma CloseKeepsPolicy(s: NodeState, book: Option<AddressBookEntry>, sha384: Hasher)
    ensures PolicyHolds(Closed(s), book, sha384)
    ensures Closed(Closed(s)) == Closed(s)
  {
  }

  /** Switching the transport mode keeps the policy: a channel of the old mode never survives. */
  lemma TransportSecurityKeepsPolicy(s: NodeState, enabled: bool, book: Option<AddressBookEntry>, sha384: Hasher)
    requires PolicyHolds(s, book, sha384)
    ensures PolicyHolds(WithTransportSecurity(s, enabled), book, sha384)
  {
  }

  /**
   * New root certificates keep the policy: a secure channel built from the
   * old ones is closed, and an insecure channel uses none.
   */
  lemma RootCertificatesKeepPolicy(s: NodeState, roots: Option<Bytes>, book: Option<AddressBookEntry>, sha384: Hasher)
    requires PolicyHolds(s, book, sha384)
    ensures PolicyHolds(WithRootCertificates(s, roots), book, sha384)
  {
  }

  /**
   * Changing verification keeps the policy: turning it on closes a secure
   * channel that was never validated, so the next one is.
   */
  lemma VerifyCertificatesKeepPolicy(s: NodeState, verify: bool, book: Option<AddressBookEntry>, sha384: Hasher)
    requires PolicyHolds(s, book, sha384)
    ensures PolicyHolds(WithVerifyCertificates(s, verify), book, sha384)
  {
  }

  /**
   * _get_channel keeps the policy and hands out the channel it caches; a
   * failure caches nothing and changes at most the node's PEM.
   */
  lemma GetChannelKeepsPolicy(s: NodeState, book: Option<AddressBookEntry>, handshake: Handshake, sha384: Hasher)
    requires PolicyHolds(s, book, sha384)
    ensures var st := GetChannelStep(s, book, handshake, sha384);
      && PolicyHolds(st.state, book, sha384)
      && (st.result.Ok? ==> ChannelFits(st.result.value, st.state, book, sha384))
  {
    var st := GetChannelStep(s, book, handshake, sha384);
    if s.channel.None? && s.address.secure && st.result.Ok? {
      var root := st.result.value.rootCertificates;
      if s.verifyCertificates && PinnedHash(book).Some? {
        assert ValidateTlsCertificate(true, true, book, root, sha384).Passed?;
      }
    }
  }

  // ---------------------------------------------------------------------------
  // What _get_channel promises

  /**
   * Hash pinning: with verification on and a pinned address-book hash, a
   * secure channel handed out by _get_channel trusts only a certificate
   * whose SHA-384 is the pinned hash, and it never relies on the hostname.
   */
  lemma SecureChannelsArePinned(s: NodeState, book: Option<AddressBookEntry>, handshake: Handshake, sha384: Hasher)
    requires PolicyHolds(s, book, sha384)
    requires s.verifyCertificates && PinnedHash(book).Some?
    ensures var st := GetChannelStep(s, book, handshake, sha384);
      (st.result.Ok? && st.result.value.SecureChannel? ==>
         && HexEncode(sha384(st.result.value.rootCertificates)) == NormalizeCertHash(PinnedHash(book).value)
         && ("grpc.default_authority", TextOption("127.0.0.1")) in st.result.value.options
         && ("grpc.ssl_target_name_override", TextOption("127.0.0.1")) in st.result.value.options)
  {
    GetChannelKeepsPolicy(s, book, handshake, sha384);
  }

  /** A cached channel is returned as it is, with no fetch and no validation. */
  lemma {:induction false} CachedChannelIsReturned(s: NodeState, book: Option<AddressBookEntry>, handshake: Handshake, sha384: Hasher)
    requires s.channel.Some?
    ensures GetChannelStep(s, book, handshake, sha384) == Step(s, Ok(s.channel.value))
  {
  }

  /** _get_channel is idempotent: once it has produced a channel, calling it again returns the same one and changes nothing. */
  lemma GetChannelIdempotent(s: NodeState, book: Option<AddressBookEntry>, handshake: Handshake, sha384: Hasher,
                             handshake2: Handshake)
    ensures var st := GetChannelStep(s, book, handshake, sha384);
      st.result.Ok? ==> GetChannelStep(st.state, book, handshake2, sha384) == st
  {
    var st := GetChannelStep(s, book, handshake, sha384);
    if st.result.Ok? {
      assert st.state.channel == Some(st.result.value);
    }
  }

  /** An insecure node opens a plain channel to its address with no certificate work. */
  lemma InsecureChannelWithoutCertificates(s: NodeState, book: Option<AddressBookEntry>, handshake: Handshake, sha384: Hasher)
    requires s.channel.None? && !s.address.secure
    ensures var st := GetChannelStep(s, book, handshake, sha384);
      && st.result == Ok(InsecureChannel(s.address))
      && st.state.nodePemCert == s.nodePemCert
      && st == GetChannelStep(s, None, HandshakeFailed, sha384)
  {
  }

  /**
   * Configured root certificates take precedence: no handshake happens, so
   * the outcome does not depend on it, and the channel trusts those
   * certificates.
   */
  lemma RootCertificatesNeedNoFetch(s: NodeState, book: Option<AddressBookEntry>, h1: Handshake, h2: Handshake, sha384: Hasher)
    requires s.channel.None? && s.address.secure && !IsAbsent(s.rootCertificates)
    ensures GetChannelStep(s, book, h1, sha384) == GetChannelStep(s, book, h2, sha384)
    ensures var st := GetChannelStep(s, book, h1, sha384);
      && st.state.nodePemCert == s.rootCertificates
      && (st.result.Ok? ==> st.result.value == SecureChannel(s.address, s.rootCertificates.value, ChannelOptions()))
  {
  }

  /**
   * A secure node without root certificates and without an address-book
   * entry fetches nothing and cannot build a channel.
   */
  lemma NoCertificateWithoutAddressBook(s: NodeState, handshake: Handshake, sha384: Hasher)
    requires s.channel.None? && s.address.secure && IsAbsent(s.rootCertificates)
    ensures GetChannelStep(s, None, handshake, sha384) == Step(s.(nodePemCert := None), Err(NoCertificate))
  {
  }

  /**
   * With verification on and a pinned hash, a fetched certificate whose
   * SHA-384 is not the pinned hash is refused, naming both hashes, and no
   * channel is cached.
   */
  lemma MismatchedCertificateIsRefused(s: NodeState, book: Option<AddressBookEntry>, pem: Bytes, sha384: Hasher)
    requires s.channel.None? && s.address.secure && IsAbsent(s.rootCertificates) && s.verifyCertificates
    requires book.Some? && PinnedHash(book).Some? && |pem| > 0
    requires HexEncode(sha384(pem)) != NormalizeCertHash(PinnedHash(book).value)
    ensures GetChannelStep(s, book, PeerCertificate(pem), sha384)
      == Step(s.(nodePemCert := Some(pem)),
              Err(Untrusted(HashMismatch(NormalizeCertHash(PinnedHash(book).value), HexEncode(sha384(pem))))))
  {
  }

  /**
   * With verification off, or without a pinned hash, any certificate is
   * accepted as the channel's root.
   */
  lemma UnpinnedCertificateIsAccepted(s: NodeState, book: Option<AddressBookEntry>, pem: Bytes, sha384: Hasher)
    requires s.channel.None? && s.address.secure && IsAbsent(s.rootCertificates)
    requires book.Some? && |pem| > 0
    requires !s.verifyCertificates || PinnedHash(book).None?
    ensures GetChannelStep(s, book, PeerCertificate(pem), sha384).result == Ok(SecureChannel(s.address, pem, ChannelOptions()))
  {
  }

  /**
   * The trust manager's "no address book" error is unreachable through the
   * node: validation is skipped instead.
   */
  lemma NoAddressBookErrorIsUnreachable(s: NodeState, book: Option<AddressBookEntry>, handshake: Handshake, sha384: Hasher)
    ensures GetChannelStep(s, book, handshake, sha384).result != Err(Untrusted(NoAddressBook))
  {
  }

  // ---------------------------------------------------------------------------
  // _Node

  class Node {
    const accountId: AccountIds.AccountId
    const addressBook: Option<AddressBookEntry>
    /** hashlib.sha384. */
    const sha384: Hasher

    var channel: Option<Channel>
    var address: ManagedAddress
    var verifyCertificates: bool
    var rootCertificates: Option<Bytes>
    var nodePemCert: Option<Bytes>
    /** The channels closed so far, in order. */
    ghost var closedChannels: seq<Channel>

    function State(): NodeState
      reads this
    {
      NodeState(channel, address, verifyCertificates, rootCertificates, nodePemCert)
    }

    ghost predicate Valid()
      reads this
    {
      PolicyHolds(State(), addressBook, sha384)
    }

    constructor(accountId: AccountIds.AccountId, address: ManagedAddress, addressBook: Option<AddressBookEntry>, sha384: Hasher)
      ensures this.accountId == accountId && this.addressBook == addressBook && this.sha384 == sha384
      ensures State() == InitialState(address) && closedChannels == []
      ensures Valid()
    {
      this.accountId := accountId;
      this.addressBook := addressBook;
      this.sha384 := sha384;
      channel := None;
      this.address := address;
      verifyCertificates := true;
      rootCertificates := None;
      nodePemCert := None;
      closedChannels := [];
    }

    /** _Node._close: the cached channel, if any, is closed and dropped. */
    method Close()
      modifies this
      ensures State() == Closed(old(State())) && Valid()
      ensures closedChannels == old(closedChannels) + (if old(channel).Some? then [old(channel).value] else [])
    {
      if channel.Some? {
        closedChannels := closedChannels + [channel.value];
        channel := None;
      }
    }

    /** _Node._get_channel, with the handshake's outcome as a parameter. */
    method GetChannel(handshake: Handshake) returns (r: Result<Channel, NodeError>)
      requires Valid()
      modifies this
      ensures Step(State(), r) == GetChannelStep(old(State()), addressBook, handshake, sha384)
      ensures Valid() && closedChannels == old(closedChannels)
    {
      GetChannelKeepsPolicy(State(), addressBook, handshake, sha384);
      if channel.Some? {
        return Ok(channel.value);
      }
      var c: Channel;
      if address.secure {
        if !IsAbsent(rootCertificates) {
          nodePemCert := rootCertificates;
        } else {
          var fetched := FetchServerCertificate(addressBook, handshake);
          if fetched.Err? {
            return Err(fetched.error);
          }
          nodePemCert := fetched.value;
        }
        if IsAbsent(nodePemCert) {
          return Err(NoCertificate);
        }
        if verifyCertificates {
          var v := ValidateTlsCertificate(address.secure, verifyCertificates, addressBook, nodePemCert.value, sha384);
          if v.Failed? {
            return Err(Untrusted(v.error));
          }
        }
        c := SecureChannel(address, nodePemCert.value, ChannelOptions());
      } else {
        c := InsecureChannel(address);
      }
      channel := Some(c);
      r := Ok(c);
    }

    /** _Node._apply_transport_security. */
    method ApplyTransportSecurity(enabled: bool)
      requires Valid()
      modifies this
      ensures State() == WithTransportSecurity(old(State()), enabled) && Valid()
      ensures closedChannels == old(closedChannels) + (if old(channel).Some? && channel.None? then [old(channel).value] else [])
    {
      TransportSecurityKeepsPolicy(State(), enabled, addressBook, sha384);
      if enabled && address.secure {
        return;
      }
      if !enabled && !address.secure {
        return;
      }
      Close();
      if enabled {
        address := ToSecure(address);
      } else {
        address := ToInsecure(address);
      }
    }

    /** _Node._set_root_certificates. */
    method SetRootCertificates(roots: Option<Bytes>)
      requires Valid()
      modifies this
      ensures State() == WithRootCertificates(old(State()), roots) && Valid()
      ensures closedChannels == old(closedChannels) + (if old(channel).Some? && channel.None? then [old(channel).value] else [])
    {
      RootCertificatesKeepPolicy(State(), roots, addressBook, sha384);
      rootCertificates := roots;
      if channel.Some? && address.secure {
        Close();
      }
    }

    /** _Node._set_verify_certificates. */
    method SetVerifyCertificates(verify: bool)
      requires Valid()
      modifies this
      ensures State() == WithVerifyCertificates(old(State()), verify) && Valid()
      ensures closedChannels == old(closedChannels) + (if old(channel).Some? && channel.None? then [old(channel).value] else [])
    {
      VerifyCertificatesKeepPolicy(State(), verify, addressBook, sha384);
      if verifyCertificates == verify {
        return;
      }
      verifyCertificates := verify;
      if verify && channel.Some? && address.secure {
        Close();
      }
    }
  }
}
