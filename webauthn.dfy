/**
 * The passkey ceremony parameters built by the web client, in the terms of
 * W3C Web Authentication Level 2: the creation options of a registration, the
 * record kept when a registration returns a credential, and the request
 * options of the per-user login and of the bare (discoverable credential)
 * login. The authenticator side is modelled only as far as it gives these
 * values a meaning: which algorithm it picks from the creation options, and
 * which of its credentials a request lets it use.
 */
module Webauthn {
  import opened Wrappers
  import Base64

  type Byte = Base64.Byte

  /** `PublicKeyCredentialType`; "public-key" is its only value. */
  datatype CredentialType = PublicKey

  /** The `AuthenticatorTransport` hints the per-user login sends: "usb", "nfc", "ble". */
  datatype Transport = Usb | Nfc | Ble

  datatype RpEntity = RpEntity(name: string, id: string)

  datatype UserEntity = UserEntity(id: seq<Byte>, displayName: string, name: string)

  datatype CredentialParameters = CredentialParameters(credentialType: CredentialType, alg: int)

  /** `PublicKeyCredentialCreationOptions` (section 5.4 of Web Authentication Level 2), the members the client sets. */
  datatype CreationOptions = CreationOptions(
    challenge: seq<Byte>,
    rp: RpEntity,
    user: UserEntity,
    pubKeyCredParams: seq<CredentialParameters>)

  datatype CredentialDescriptor =
    CredentialDescriptor(credentialType: CredentialType, id: seq<Byte>, transports: seq<Transport>)

  /** `PublicKeyCredentialRequestOptions` (section 5.5 of Web Authentication Level 2); `rpId` is an optional member. */
  datatype RequestOptions = RequestOptions(
    challenge: seq<Byte>,
    rpId: Option<string>,
    allowCredentials: seq<CredentialDescriptor>)

  /** COSE algorithm ECDSA with SHA-256 (section 2.1 of RFC 9053). */
  const ES256: int := -7
  /** COSE algorithm RSASSA-PKCS1-v1_5 with SHA-256 (section 2 of RFC 8812). */
  const RS256: int := -257

  /**
   * `createCredentialPublicKey(username)`: a fixed 8-octet challenge 0..7, the
   * relying party "Webauthn Passkeys" at "localhost", a user whose handle is
   * the same fixed octets and whose name and display name are `username`, and
   * the algorithms ES256 then RS256.
   */
  function CreateCredentialPublicKey(username: string): (o: CreationOptions)
    ensures |o.challenge| == 8 && forall k | 0 <= k < 8 :: o.challenge[k] == k
    ensures o.rp.name == "Webauthn Passkeys" && o.rp.id == "localhost"
    ensures o.user.id == o.challenge && o.user.name == username && o.user.displayName == username
    ensures |o.pubKeyCredParams| == 2
    ensures forall k | 0 <= k < 2 :: o.pubKeyCredParams[k].credentialType == PublicKey
    ensures o.pubKeyCredParams[0].alg == ES256 && o.pubKeyCredParams[1].alg == RS256
  {
    CreationOptions(
      challenge := [0, 1, 2, 3, 4, 5, 6, 7],
      rp := RpEntity(name := "Webauthn Passkeys", id := "localhost"),
      user := UserEntity(id := [0, 1, 2, 3, 4, 5, 6, 7], displayName := username, name := username),
      pubKeyCredParams := [CredentialParameters(PublicKey, ES256), CredentialParameters(PublicKey, RS256)])
  }

  /**
   * The options depend on the username only through the user's name and
   * display name: two usernames give equal options exactly when they are equal.
   */
  lemma CreationOptionsDependOnlyOnUsername(u1: string, u2: string)
    ensures var o1, o2 := CreateCredentialPublicKey(u1), CreateCredentialPublicKey(u2);
      o2 == o1.(user := o1.user.(name := u2, displayName := u2))
      && (o1 == o2 <==> u1 == u2)
  {
  }

  // ------------------------------------------------------------ authenticator

  /**
   * The algorithm an authenticator generates a key for: the first entry of
   * `pubKeyCredParams`, in list order, that it supports, or none (the
   * authenticator then fails with NotSupportedError); section 6.3.2 of Web Authentication Level 2.
   */
  function ChosenAlgorithm(params: seq<CredentialParameters>, supported: set<int>): (a: Option<int>)
    ensures a.Some? ==> a.value in supported && exists k | 0 <= k < |params| :: params[k].alg == a.value
    ensures a.None? <==> forall k | 0 <= k < |params| :: params[k].alg !in supported
  {
    if params == [] then None
    else if params[0].alg in supported then Some(params[0].alg)
    else ChosenAlgorithm(params[1..], supported)
  }

  /**
   * The order of `pubKeyCredParams` is a preference: ES256 whenever the
   * authenticator supports it, RS256 only when it does not.
   */
  lemma RegistrationPrefersES256(username: string, supported: set<int>)
    ensures ChosenAlgorithm(CreateCredentialPublicKey(username).pubKeyCredParams, supported)
      == if ES256 in supported then Some(ES256)
         else if RS256 in supported then Some(RS256)
         else None
  {
    var params := CreateCredentialPublicKey(username).pubKeyCredParams;
    assert params[1..][1..] == [];
  }

  /** `host` is `rpId` or lies below it (`a.localhost` is below `localhost`). */
  predicate IsDomainSuffixOf(rpId: string, host: string) {
    rpId == host || (|host| > |rpId| && host[|host| - |rpId| - 1..] == "." + rpId)
  }

  /**
   * The checks a client makes on creation options before it calls an
   * authenticator (section 5.1.3 of Web Authentication Level 2): a user handle
   * of 1 to 64 octets, a relying party id that the page's host lies at or
   * below, and either no parameter entries (the client then fills in ES256
   * and RS256) or at least one entry of a known credential type.
   */
  predicate ClientAcceptsCreation(o: CreationOptions, host: string) {
    && 1 <= |o.user.id| <= 64
    && IsDomainSuffixOf(o.rp.id, host)
    && (|o.pubKeyCredParams| == 0
        || exists k | 0 <= k < |o.pubKeyCredParams| :: o.pubKeyCredParams[k].credentialType == PublicKey)
  }

  /** Registration options are accepted on a page served from `localhost` or below it, and only there. */
  lemma CreationOptionsAccepted(username: string, host: string)
    ensures ClientAcceptsCreation(CreateCredentialPublicKey(username), host)
        <==> IsDomainSuffixOf("localhost", host)
  {
    var o := CreateCredentialPublicKey(username);
    assert o.pubKeyCredParams[0].credentialType == PublicKey;
  }

  // ------------------------------------------------------------- registration

  /** What `navigator.credentials.create` resolves to, as far as the client reads it. */
  datatype AttestationCredential = AttestationCredential(
    id: string,                       // base64url of rawId
    rawId: seq<Byte>,
    publicKey: Option<seq<Byte>>)     // `response.getPublicKey()`, which may be null

  /** The `{id, user, publicKey}` record sent to the user store; a null key is `None`. */
  datatype UserRecord = UserRecord(id: string, user: string, publicKey: Option<string>)

  /**
   * The registration callback: no credential (null, or a cancelled ceremony)
   * gives no record and so no store call; otherwise the record holds the
   * credential id, the username and the base64 of the public key, or null
   * when the authenticator gave no key.
   */
  function RegistrationRecord(username: string, result: Option<AttestationCredential>): (r: Option<UserRecord>)
    ensures r.None? <==> result.None?
    ensures r.Some? ==> r.value.id == result.value.id && r.value.user == username
    ensures r.Some? ==> (r.value.publicKey.None? <==> result.value.publicKey.None?)
    ensures r.Some? && result.value.publicKey.Some?
      ==> r.value.publicKey == Some(Base64.Encode(result.value.publicKey.value))
  {
    match result
    case None => None
    case Some(credential) =>
      Some(UserRecord(
        id := credential.id,
        user := username,
        publicKey := match credential.publicKey
          case Some(key) => Some(Base64.Encode(key))
          case None => None))
  }

  /** The stored key text decodes back to exactly the key the authenticator returned. */
  lemma RecordKeyDecodes(username: string, credential: AttestationCredential)
    requires credential.publicKey.Some?
    ensures var r := RegistrationRecord(username, Some(credential));
      r.Some? && r.value.publicKey.Some?
      && Base64.ForgivingDecode(r.value.publicKey.value) == Some(credential.publicKey.value)
  {
    Base64.ForgivingDecodeEncode(credential.publicKey.value);
  }

  // ------------------------------------------------------------------- login

  /**
   * The per-user login: the registration challenge and relying party id of
   * that user's creation options, and an allow-list of exactly the credential
   * whose id `base64UrlDecode` makes of the stored id.
   */
  function LoginRequestOptions(user: UserRecord, base64UrlDecode: string -> seq<Byte>): (o: RequestOptions)
    ensures o.challenge == CreateCredentialPublicKey(user.user).challenge
    ensures o.rpId == Some(CreateCredentialPublicKey(user.user).rp.id)
    ensures |o.allowCredentials| == 1 && o.allowCredentials[0].credentialType == PublicKey
    ensures o.allowCredentials[0].id == base64UrlDecode(user.id)
    ensures o.allowCredentials[0].transports == [Usb, Nfc, Ble]
  {
    var publicKey := CreateCredentialPublicKey(user.user);
    RequestOptions(
      challenge := publicKey.challenge,
      rpId := Some(publicKey.rp.id),
      allowCredentials := [CredentialDescriptor(PublicKey, base64UrlDecode(user.id), [Usb, Nfc, Ble])])
  }

  /** The bare login: the same challenge and relying party id, and an empty allow-list. */
  function BareLoginRequestOptions(): (o: RequestOptions)
    ensures o.challenge == CreateCredentialPublicKey("").challenge
    ensures o.rpId == Some(CreateCredentialPublicKey("").rp.id)
    ensures o.allowCredentials == []
  {
    var publicKey := CreateCredentialPublicKey("");
    RequestOptions(challenge := publicKey.challenge, rpId := Some(publicKey.rp.id), allowCredentials := [])
  }

  /**
   * Every ceremony carries the same challenge, whoever the user: the client
   * issues no fresh challenge, so one ceremony's response would answer any other.
   */
  lemma ChallengeNeverChanges(u1: string, u2: string, user: UserRecord, base64UrlDecode: string -> seq<Byte>)
    ensures CreateCredentialPublicKey(u1).challenge == CreateCredentialPublicKey(u2).challenge
    ensures LoginRequestOptions(user, base64UrlDecode).challenge == CreateCredentialPublicKey(u1).challenge
    ensures BareLoginRequestOptions().challenge == CreateCredentialPublicKey(u1).challenge
  {
  }

  /** A credential an authenticator holds: its relying party, its id, and whether it is discoverable. */
  datatype CredentialSource = CredentialSource(rpId: string, id: seq<Byte>, discoverable: bool)

  /** The relying party id a request stands for: its `rpId`, or the page's host when absent. */
  function EffectiveRpId(o: RequestOptions, host: string): string {
    match o.rpId
    case Some(id) => id
    case None => host
  }

  /**
   * Whether a request lets the authenticator use a credential (sections 5.1.4
   * and 6.3.3 of Web Authentication Level 2): the client accepts the relying
   * party id only at or above the page's host; the credential must belong to
   * that relying party; a non-empty allow-list admits only the listed ids, an empty one admits
   * every discoverable credential.
   */
  predicate Eligible(o: RequestOptions, host: string, c: CredentialSource) {
    var rpId := EffectiveRpId(o, host);
    && IsDomainSuffixOf(rpId, host)
    && c.rpId == rpId
    && if o.allowCredentials == [] then c.discoverable
       else exists k | 0 <= k < |o.allowCredentials| :: o.allowCredentials[k].id == c.id
  }

  /** The bare login lets the authenticator offer any discoverable credential of `localhost`. */
  lemma BareLoginEligible(host: string, c: CredentialSource)
    ensures Eligible(BareLoginRequestOptions(), host, c)
        <==> IsDomainSuffixOf("localhost", host) && c.rpId == "localhost" && c.discoverable
  {
  }

  /**
   * The per-user login admits exactly one credential: the `localhost`
   * credential whose id is the decoded stored id, discoverable or not.
   */
  lemma UserLoginEligible(user: UserRecord, base64UrlDecode: string -> seq<Byte>, host: string, c: CredentialSource)
    ensures Eligible(LoginRequestOptions(user, base64UrlDecode), host, c)
        <==> IsDomainSuffixOf("localhost", host) && c.rpId == "localhost" && c.id == base64UrlDecode(user.id)
  {
    var o := LoginRequestOptions(user, base64UrlDecode);
    if c.id == base64UrlDecode(user.id) {
      assert o.allowCredentials[0].id == c.id;
    }
  }

  /**
   * A credential registered from `localhost` can be used by its user's login,
   * provided the decoder inverts the credential id's base64url text.
   */
  lemma RegisteredCredentialEligible(
    username: string, credential: AttestationCredential,
    base64UrlDecode: string -> seq<Byte>, host: string, c: CredentialSource)
    requires base64UrlDecode(credential.id) == credential.rawId
    requires c.id == credential.rawId && c.rpId == "localhost" && host == "localhost"
    ensures var r := RegistrationRecord(username, Some(credential));
      r.Some? && Eligible(LoginRequestOptions(r.value, base64UrlDecode), host, c)
  {
    var r := RegistrationRecord(username, Some(credential)).value;
    UserLoginEligible(r, base64UrlDecode, host, c);
  }
}
