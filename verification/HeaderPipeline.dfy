/**
 What happens to the Upload-Metadata header of a POST before tusd sees it: the remote address
 is added, then issuer and account from a verified EXTJWT token.
 */
module HeaderPipeline {
  import opened Bytes
  import opened Metadata
  import opened UploadStore

  // ------------------------------------------------------------------ tokens

  datatype Claim = Text(text: Bytes) | OtherClaim

  /** A decoded token whose signature has not been looked at yet. */
  datatype Token = Token(hmac: bool, claims: map<Bytes, Claim>)

  /** Comparing the signature of a token's text with that of a secret; the third segment may not be base64 at all. */
  datatype Signature = Matching | Mismatching | Undecodable

  /**
   What the JWT library computes: the first two segments of a text of three, the time claims, and
   the third segment, which is decoded only when it is compared with the signature under a secret.
   */
  datatype JwtLibrary = JwtLibrary(
    decode: Bytes -> Option<Token>,
    timely: Token -> bool,
    signature: (Bytes, Bytes) -> Signature)

  datatype KeyError = UnexpectedMethod | IssuerMissing | IssuerNotText | UnknownIssuer(issuer: Bytes)

  datatype JwtError =
    | SetByClient
    | Malformed
    | Unverifiable(inner: KeyError)
    | Invalid(badSignature: bool)  // the inner error is ErrSignatureInvalid

  datatype Result<+T, +E> = Success(value: T) | Failure(error: E)

  function GetSecretForToken(secrets: map<Bytes, Bytes>, token: Token): Result<Bytes, KeyError> {
    if !token.hmac then Failure(UnexpectedMethod)
    else if "iss" !in token.claims then Failure(IssuerMissing)
    else
      match token.claims["iss"]
      case OtherClaim => Failure(IssuerNotText)
      case Text(issuer) =>
        if issuer in secrets then Success(secrets[issuer]) else Failure(UnknownIssuer(issuer))
  }

  /** jwt.Parse: the key first, then claims and signature together. */
  function ParseToken(lib: JwtLibrary, secrets: map<Bytes, Bytes>, text: Bytes): Result<Token, JwtError> {
    match lib.decode(text)
    case None => Failure(Malformed)
    case Some(token) =>
      match GetSecretForToken(secrets, token)
      case Failure(e) => Failure(Unverifiable(e))
      case Success(secret) =>
        match lib.signature(text, secret)
        case Mismatching => Failure(Invalid(true))
        case Undecodable => Failure(Invalid(false))
        case Matching => if lib.timely(token) then Success(token) else Failure(Invalid(false))
  }

  /** The token has the method and the configured textual issuer that make its signature count. */
  predicate HasKey(secrets: map<Bytes, Bytes>, token: Token) {
    token.hmac && "iss" in token.claims && token.claims["iss"].Text? && token.claims["iss"].text in secrets
  }

  /** It is signed with the secret of that issuer, and in time. */
  predicate Verified(lib: JwtLibrary, secrets: map<Bytes, Bytes>, text: Bytes, token: Token) {
    && lib.decode(text) == Some(token)
    && HasKey(secrets, token)
    && lib.signature(text, secrets[token.claims["iss"].text]) == Matching
    && lib.timely(token)
  }

  /** An HMAC token that names an issuer, but not a configured one. */
  predicate OfUnknownIssuer(lib: JwtLibrary, secrets: map<Bytes, Bytes>, text: Bytes, issuer: Bytes) {
    && lib.decode(text).Some?
    && var token := lib.decode(text).value;
    token.hmac && "iss" in token.claims && token.claims["iss"] == Text(issuer) && issuer !in secrets
  }

  /** A token can be read and has a key, and its signature is one, but not that of the key. */
  predicate WronglySigned(lib: JwtLibrary, secrets: map<Bytes, Bytes>, text: Bytes) {
    && lib.decode(text).Some?
    && var token := lib.decode(text).value;
    HasKey(secrets, token) && lib.signature(text, secrets[token.claims["iss"].text]) == Mismatching
  }

  /** Exactly the verified tokens parse; which others are of an unknown issuer, and which wrongly signed. */
  lemma ParsesIff(lib: JwtLibrary, secrets: map<Bytes, Bytes>, text: Bytes)
    ensures forall token :: ParseToken(lib, secrets, text) == Success(token) <==> Verified(lib, secrets, text, token)
    ensures forall issuer ::
      ParseToken(lib, secrets, text) == Failure(Unverifiable(UnknownIssuer(issuer))) <==> OfUnknownIssuer(lib, secrets, text, issuer)
    ensures ParseToken(lib, secrets, text) == Failure(Invalid(true)) <==> WronglySigned(lib, secrets, text)
  {
  }

  predicate IsFatalJwtError(e: JwtError) {
    !(e.Unverifiable? && e.inner.UnknownIssuer?)
  }

  // ------------------------------------------------------------------ the two rewrites

  datatype AddressError = BadAddress | BadForwardedFor

  class Request {
    var uploadMetadata: Bytes                            // "" when the header is absent
    const remoteAddress: Result<Bytes, AddressError>     // direct or forwarded, already chosen

    constructor (uploadMetadata: Bytes, remoteAddress: Result<Bytes, AddressError>)
      ensures this.uploadMetadata == uploadMetadata && this.remoteAddress == remoteAddress
    {
      this.uploadMetadata, this.remoteAddress := uploadMetadata, remoteAddress;
    }
  }

  datatype AddressFailure = SpoofedAddress | NoAddress(error: AddressError)

  const REMOTE_IP: Bytes := "RemoteIP"
  const ISSUER: Bytes := "issuer"
  const ACCOUNT: Bytes := "account"
  const EXTJWT: Bytes := "extjwt"

  function AddressErrorOf(meta: Meta, address: Result<Bytes, AddressError>): (e: Option<AddressFailure>)
    ensures e == None <==> REMOTE_IP !in meta && address.Success?
  {
    if REMOTE_IP in meta then Some(SpoofedAddress)
    else
      match address
      case Success(_) => None
      case Failure(error) => Some(NoAddress(error))
  }

  method AddRemoteIPToMetadata(req: Request) returns (error: Option<AddressFailure>)
    modifies req
    ensures var meta := Parse(old(req.uploadMetadata));
      && error == AddressErrorOf(meta, req.remoteAddress)
      && (error == None ==> Prints(req.uploadMetadata, meta[REMOTE_IP := req.remoteAddress.value]))
      && (error != None ==> req.uploadMetadata == old(req.uploadMetadata))
  {
    var metadata := ParseMeta(req.uploadMetadata);
    var keys := metadata.Keys;
    while keys != {}
      invariant keys <= metadata.Keys
      invariant REMOTE_IP in metadata ==> REMOTE_IP in keys
      decreases keys
    {
      var k :| k in keys;
      if k == REMOTE_IP {
        return Some(SpoofedAddress);
      }
      keys := keys - {k};
    }
    if req.remoteAddress.Failure? {
      return Some(NoAddress(req.remoteAddress.error));
    }
    metadata := metadata[REMOTE_IP := req.remoteAddress.value];
    var header := SerializeMeta(metadata);
    req.uploadMetadata := header;
    return None;
  }

  /** What processJwt decides from the parsed metadata: an error, nothing, or an issuer and an account. */
  function Identity(lib: JwtLibrary, secrets: map<Bytes, Bytes>, meta: Meta): Result<Option<(Bytes, Bytes)>, JwtError> {
    if ISSUER in meta then Failure(SetByClient)
    else if EXTJWT !in meta || meta[EXTJWT] == "" then Success(None)
    else
      match ParseToken(lib, secrets, meta[EXTJWT])
      case Failure(e) => Failure(e)
      case Success(token) =>
        if ACCOUNT in token.claims && token.claims[ACCOUNT].Text?
        then Success(Some((IssuerIn(token), token.claims[ACCOUNT].text)))
        else Success(None)
  }

  function IssuerIn(token: Token): Bytes {
    if "iss" in token.claims && token.claims["iss"].Text? then token.claims["iss"].text else ""
  }

  function WithIdentity(meta: Meta, identity: Option<(Bytes, Bytes)>): Meta {
    match identity
    case None => meta
    case Some((issuer, account)) => meta[ISSUER := issuer][ACCOUNT := account]
  }

  method ProcessJwt(req: Request, lib: JwtLibrary, secrets: map<Bytes, Bytes>) returns (error: Option<JwtError>)
    modifies req
    ensures var identity := Identity(lib, secrets, Parse(old(req.uploadMetadata)));
      && error == (if identity.Failure? then Some(identity.error) else None)
      && if identity.Success? && identity.value.Some?
         then Prints(req.uploadMetadata, WithIdentity(Parse(old(req.uploadMetadata)), identity.value))
         else req.uploadMetadata == old(req.uploadMetadata)
  {
    var metadata := ParseMeta(req.uploadMetadata);
    var keys := metadata.Keys;
    while keys != {}
      invariant keys <= metadata.Keys
      invariant ISSUER in metadata ==> ISSUER in keys
      decreases keys
    {
      var k :| k in keys;
      if k == ACCOUNT {
        // nothing: an account set by the client passes
      } else if k == ISSUER {
        return Some(SetByClient);
      }
      keys := keys - {k};
    }
    var tokenString := if EXTJWT in metadata then metadata[EXTJWT] else "";
    if tokenString == "" {
      return None;
    }
    var parsed := ParseToken(lib, secrets, tokenString);
    if parsed.Failure? {
      return Some(parsed.error);
    }
    ParsesIff(lib, secrets, tokenString);
    var claims := parsed.value.claims;
    var issuer := claims["iss"].text;
    if ACCOUNT !in claims || !claims[ACCOUNT].Text? {
      return None;
    }
    metadata := metadata[ISSUER := issuer];
    metadata := metadata[ACCOUNT := claims[ACCOUNT].text];
    var header := SerializeMeta(metadata);
    req.uploadMetadata := header;
    return None;
  }

  // ------------------------------------------------------------------ the whole request

  datatype Outcome =
    | InternalServerError      // 500: the peer address cannot be split
    | NotAcceptable            // 406: RemoteIP set by the client, or a bad X-Forwarded-For
    | Unauthorized             // 401: the signature does not verify
    | BadRequest               // 400: any other fatal token error, or issuer set by the client
    | PassedOn                 // handed to tusd

  /** What becomes of a request with this metadata, and the metadata that tusd will parse from the header it is passed. */
  function Expected(lib: JwtLibrary, secrets: map<Bytes, Bytes>, meta: Meta, address: Result<Bytes, AddressError>): (Outcome, Meta) {
    if REMOTE_IP in meta then (NotAcceptable, meta)
    else
      match address
      case Failure(BadAddress) => (InternalServerError, meta)
      case Failure(BadForwardedFor) => (NotAcceptable, meta)
      case Success(ip) =>
        var meta1 := NonEmpty(meta[REMOTE_IP := ip]);
        match Identity(lib, secrets, meta1)
        case Success(identity) => (PassedOn, NonEmpty(WithIdentity(meta1, identity)))
        case Failure(e) =>
          if !IsFatalJwtError(e) then (PassedOn, meta1)
          else if e == Invalid(true) then (Unauthorized, meta1)
          else (BadRequest, meta1)
  }

  lemma ReservedKeysAreGood()
    ensures GoodKey(REMOTE_IP) && GoodKey(ISSUER) && GoodKey(ACCOUNT) && GoodKey(EXTJWT)
  {
    assert REMOTE_IP[..1] == "R" && REMOTE_IP[..2] == "Re" && REMOTE_IP[..3] == "Rem";
    assert ISSUER[..1] == "i" && ISSUER[..2] == "is" && ISSUER[..3] == "iss";
    assert ACCOUNT[..1] == "a" && ACCOUNT[..2] == "ac" && ACCOUNT[..3] == "acc";
    assert EXTJWT[..1] == "e" && EXTJWT[..2] == "ex" && EXTJWT[..3] == "ext";
  }

  lemma RewritesKeepGoodKeys(meta: Meta, ip: Bytes, identity: Option<(Bytes, Bytes)>)
    requires GoodKeys(meta)
    ensures GoodKeys(meta[REMOTE_IP := ip]) && GoodKeys(WithIdentity(NonEmpty(meta[REMOTE_IP := ip]), identity))
  {
    ReservedKeysAreGood();
  }

  /** postFile: the two rewrites in turn, and the request is passed on unless one of them is fatal. */
  method PostFile(req: Request, lib: JwtLibrary, secrets: map<Bytes, Bytes>) returns (outcome: Outcome)
    modifies req
    ensures (outcome, Parse(req.uploadMetadata)) == Expected(lib, secrets, Parse(old(req.uploadMetadata)), req.remoteAddress)
  {
    ghost var meta := Parse(req.uploadMetadata);
    ParsedIsGood(req.uploadMetadata);
    var addressError := AddRemoteIPToMetadata(req);
    if addressError.Some? {
      if addressError.value == NoAddress(BadAddress) {
        return InternalServerError;
      }
      return NotAcceptable;
    }
    ghost var meta1 := NonEmpty(meta[REMOTE_IP := req.remoteAddress.value]);
    RewritesKeepGoodKeys(meta, req.remoteAddress.value, None);
    ParseOfPrint(req.uploadMetadata, meta[REMOTE_IP := req.remoteAddress.value]);
    ghost var identity := Identity(lib, secrets, meta1);
    var error := ProcessJwt(req, lib, secrets);
    if error.Some? {
      if IsFatalJwtError(error.value) {
        return if error.value == Invalid(true) then Unauthorized else BadRequest;
      }
    } else if identity.value.Some? {
      RewritesKeepGoodKeys(meta, req.remoteAddress.value, identity.value);
      ParseOfPrint(req.uploadMetadata, WithIdentity(meta1, identity.value));
    } else {
      assert NonEmpty(meta1) == meta1;
    }
    return PassedOn;
  }

  // ------------------------------------------------------------------ what the pipeline promises

  /** The token in the metadata is verified and names an account. */
  predicate NamesAccount(lib: JwtLibrary, secrets: map<Bytes, Bytes>, meta: Meta) {
    && "extjwt" in meta
    && lib.decode(meta["extjwt"]).Some?
    && var token := lib.decode(meta["extjwt"]).value;
    Verified(lib, secrets, meta["extjwt"], token) && "account" in token.claims && token.claims["account"].Text?
  }

  lemma ReservedKeysDiffer()
    ensures REMOTE_IP == "RemoteIP" && ISSUER == "issuer" && ACCOUNT == "account" && EXTJWT == "extjwt"
    ensures REMOTE_IP != ISSUER && REMOTE_IP != ACCOUNT && REMOTE_IP != EXTJWT && EXTJWT != ISSUER && EXTJWT != ACCOUNT
    ensures ISSUER != ACCOUNT
  {
    assert EXTJWT[0] == 'e' && ISSUER[0] == 'i' && ACCOUNT[0] == 'a';
  }

  lemma IdentityIgnoresAddress(lib: JwtLibrary, secrets: map<Bytes, Bytes>, meta: Meta, ip: Bytes)
    ensures Identity(lib, secrets, meta["RemoteIP" := ip]) == Identity(lib, secrets, meta)
  {
    ReservedKeysDiffer();
  }

  /**
   A request that gets through carries the client's metadata plus the address; issuer and account
   are added or overwritten exactly if the token verifies and names an account; what is empty
   vanishes, and the client has set neither the address nor the issuer.
   */
  lemma PipelineAddsExactly(lib: JwtLibrary, secrets: map<Bytes, Bytes>, header: Bytes, ip: Bytes)
    requires Expected(lib, secrets, Parse(header), Success(ip)).0 == PassedOn
    ensures var meta, final := Parse(header), Expected(lib, secrets, Parse(header), Success(ip)).1;
      && "RemoteIP" !in meta && "issuer" !in meta
      && if NamesAccount(lib, secrets, meta)
         then
           var claims := lib.decode(meta["extjwt"]).value.claims;
           && "iss" in claims && claims["iss"].Text? && claims["iss"].text in secrets
           && final == NonEmpty(meta["RemoteIP" := ip]["issuer" := claims["iss"].text]["account" := claims["account"].text])
         else final == NonEmpty(meta["RemoteIP" := ip])
  {
    ParsedIsGood(header);
    AddsExactly(lib, secrets, Parse(header), ip);
  }

  lemma AddsExactly(lib: JwtLibrary, secrets: map<Bytes, Bytes>, meta: Meta, ip: Bytes)
    requires NoEmptyValues(meta) && Expected(lib, secrets, meta, Success(ip)).0 == PassedOn
    ensures var final := Expected(lib, secrets, meta, Success(ip)).1;
      && "RemoteIP" !in meta && "issuer" !in meta
      && if NamesAccount(lib, secrets, meta)
         then
           var claims := lib.decode(meta["extjwt"]).value.claims;
           && "iss" in claims && claims["iss"].Text? && claims["iss"].text in secrets
           && final == NonEmpty(meta["RemoteIP" := ip]["issuer" := claims["iss"].text]["account" := claims["account"].text])
         else final == NonEmpty(meta["RemoteIP" := ip])
  {
    ReservedKeysDiffer();
    IdentityUnaffected(lib, secrets, meta, ip);
    var meta1 := NonEmpty(meta["RemoteIP" := ip]);
    assert NonEmpty(meta1) == meta1;
    if "extjwt" in meta {
      ParsesIff(lib, secrets, meta["extjwt"]);
    }
  }

  /** The token, if there is one, is verified or of an unknown issuer. */
  predicate TokenTolerated(lib: JwtLibrary, secrets: map<Bytes, Bytes>, meta: Meta) {
    "extjwt" in meta ==>
      && lib.decode(meta["extjwt"]).Some?
      && var token := lib.decode(meta["extjwt"]).value;
      || Verified(lib, secrets, meta["extjwt"], token)
      || (token.hmac && "iss" in token.claims && token.claims["iss"].Text? && token.claims["iss"].text !in secrets)
  }

  /** Which requests get through, and why the others are refused. */
  lemma GetsThroughIff(lib: JwtLibrary, secrets: map<Bytes, Bytes>, header: Bytes, address: Result<Bytes, AddressError>)
    ensures var meta, outcome := Parse(header), Expected(lib, secrets, Parse(header), address).0;
      var unspoofed := "RemoteIP" !in meta && "issuer" !in meta && address.Success?;
      && (outcome == PassedOn <==> unspoofed && TokenTolerated(lib, secrets, meta))
      && (outcome == Unauthorized <==> unspoofed && "extjwt" in meta && WronglySigned(lib, secrets, meta["extjwt"]))
      && (outcome == InternalServerError <==> "RemoteIP" !in meta && address == Failure(BadAddress))
      && (outcome == NotAcceptable <==> "RemoteIP" in meta || address == Failure(BadForwardedFor))
  {
    ParsedIsGood(header);
    OutcomeExact(lib, secrets, Parse(header), address);
  }

  lemma OutcomeExact(lib: JwtLibrary, secrets: map<Bytes, Bytes>, meta: Meta, address: Result<Bytes, AddressError>)
    requires NoEmptyValues(meta)
    ensures var outcome := Expected(lib, secrets, meta, address).0;
      var unspoofed := "RemoteIP" !in meta && "issuer" !in meta && address.Success?;
      && (outcome == PassedOn <==> unspoofed && TokenTolerated(lib, secrets, meta))
      && (outcome == Unauthorized <==> unspoofed && "extjwt" in meta && WronglySigned(lib, secrets, meta["extjwt"]))
      && (outcome == InternalServerError <==> "RemoteIP" !in meta && address == Failure(BadAddress))
      && (outcome == NotAcceptable <==> "RemoteIP" in meta || address == Failure(BadForwardedFor))
  {
    if "extjwt" in meta {
      ParsesIff(lib, secrets, meta["extjwt"]);
    }
    if address.Success? && "RemoteIP" !in meta {
      IdentityUnaffected(lib, secrets, meta, address.value);
    }
  }

  lemma IdentityUnaffected(lib: JwtLibrary, secrets: map<Bytes, Bytes>, meta: Meta, ip: Bytes)
    requires NoEmptyValues(meta) && "RemoteIP" !in meta
    ensures Identity(lib, secrets, NonEmpty(meta["RemoteIP" := ip])) == Identity(lib, secrets, meta)
  {
    IdentityIgnoresAddress(lib, secrets, meta, ip);
    if ip == "" {
      assert NonEmpty(meta["RemoteIP" := ip]) == meta;
    } else {
      assert NonEmpty(meta["RemoteIP" := ip]) == meta["RemoteIP" := ip];
    }
  }

  /** A token of an unknown issuer neither stops the request nor adds anything. */
  lemma UnknownIssuerAddsNothing(lib: JwtLibrary, secrets: map<Bytes, Bytes>, header: Bytes, ip: Bytes, issuer: Bytes)
    ensures var meta := Parse(header);
      "RemoteIP" !in meta && "issuer" !in meta && "extjwt" in meta
      && OfUnknownIssuer(lib, secrets, meta["extjwt"], issuer)
      ==> Expected(lib, secrets, meta, Success(ip)) == (PassedOn, NonEmpty(meta["RemoteIP" := ip]))
  {
    ParsedIsGood(header);
    var meta := Parse(header);
    if "RemoteIP" !in meta && "issuer" !in meta && "extjwt" in meta
      && OfUnknownIssuer(lib, secrets, meta["extjwt"], issuer) {
      UnknownIssuerPasses(lib, secrets, meta, ip, issuer);
    }
  }

  lemma UnknownIssuerPasses(lib: JwtLibrary, secrets: map<Bytes, Bytes>, meta: Meta, ip: Bytes, issuer: Bytes)
    requires NoEmptyValues(meta) && "RemoteIP" !in meta && "issuer" !in meta && "extjwt" in meta
    requires OfUnknownIssuer(lib, secrets, meta["extjwt"], issuer)
    ensures Expected(lib, secrets, meta, Success(ip)) == (PassedOn, NonEmpty(meta["RemoteIP" := ip]))
  {
    ParsesIff(lib, secrets, meta["extjwt"]);
    ReservedKeysDiffer();
    IdentityUnaffected(lib, secrets, meta, ip);
  }

  /** A text as a nullable column: the empty one is stored as NULL. */
  function OrNull(text: Bytes): Option<Bytes> {
    if text == "" then None else Some(text)
  }

  /** The account claim of the token, for metadata whose token names one. */
  function AccountClaim(lib: JwtLibrary, secrets: map<Bytes, Bytes>, meta: Meta): Bytes
    requires NamesAccount(lib, secrets, meta)
  {
    lib.decode(meta["extjwt"]).value.claims["account"].text
  }

  function IssuerClaim(lib: JwtLibrary, secrets: map<Bytes, Bytes>, meta: Meta): Bytes
    requires NamesAccount(lib, secrets, meta)
  {
    lib.decode(meta["extjwt"]).value.claims["iss"].text
  }

  /**
   Whose account, and with which issuer, the upload created from a request is recorded: those of the
   verified token if it names one, otherwise the account the client wrote into the header itself, if any.
   */
  lemma RecordedAccount(lib: JwtLibrary, secrets: map<Bytes, Bytes>, header: Bytes, ip: Bytes, now: int, info: UploadInfo)
    requires Expected(lib, secrets, Parse(header), Success(ip)).0 == PassedOn
    requires info.metadata == Expected(lib, secrets, Parse(header), Success(ip)).1
    ensures var meta, row := Parse(header), NewRow(now, info);
      if NamesAccount(lib, secrets, meta) then
        && row.account == OrNull(AccountClaim(lib, secrets, meta))
        && (row.account.Some? ==> row.issuer == Some(IssuerClaim(lib, secrets, meta)))
      else if "account" in meta then row.account == Some(meta["account"]) && row.issuer == Some("")
      else row.account == None && row.issuer == None
  {
    PipelineAddsExactly(lib, secrets, header, ip);
    ParsedIsGood(header);
    RowOf(lib, secrets, Parse(header), ip, now, info);
  }

  lemma RowOf(lib: JwtLibrary, secrets: map<Bytes, Bytes>, meta: Meta, ip: Bytes, now: int, info: UploadInfo)
    requires NoEmptyValues(meta) && "issuer" !in meta
    requires info.metadata ==
      if NamesAccount(lib, secrets, meta)
      then NonEmpty(meta["RemoteIP" := ip]["issuer" := IssuerClaim(lib, secrets, meta)]
                        ["account" := AccountClaim(lib, secrets, meta)])
      else NonEmpty(meta["RemoteIP" := ip])
    ensures var row := NewRow(now, info);
      if NamesAccount(lib, secrets, meta) then
        && row.account == OrNull(AccountClaim(lib, secrets, meta))
        && (row.account.Some? ==> row.issuer == Some(IssuerClaim(lib, secrets, meta)))
      else if "account" in meta then row.account == Some(meta["account"]) && row.issuer == Some("")
      else row.account == None && row.issuer == None
  {
    ReservedKeysDiffer();
  }

  /** Without a token that names an account, an upload is identified iff the client wrote `account` into the header. */
  lemma IdentifiedWithoutToken(lib: JwtLibrary, secrets: map<Bytes, Bytes>, header: Bytes, ip: Bytes, now: int, info: UploadInfo)
    requires Expected(lib, secrets, Parse(header), Success(ip)).0 == PassedOn
    requires info.metadata == Expected(lib, secrets, Parse(header), Success(ip)).1
    ensures !NamesAccount(lib, secrets, Parse(header)) ==> (NewRow(now, info).account.Some? <==> "account" in Parse(header))
  {
    RecordedAccount(lib, secrets, header, ip, now, info);
  }

  /** It happens: a header of one `account` field and no token is passed on, and recorded under that account. */
  lemma ClientAccountPasses(lib: JwtLibrary, secrets: map<Bytes, Bytes>, ip: Bytes, now: int, info: UploadInfo)
    requires info.metadata == Expected(lib, secrets, Parse(Element("account", "alice")), Success(ip)).1
    ensures Expected(lib, secrets, Parse(Element("account", "alice")), Success(ip)).0 == PassedOn
    ensures NewRow(now, info).account == Some("alice")
  {
    ReservedKeysAreGood();
    ParseOneEntry("account", "alice");
    AccountOnlyPasses(lib, secrets, "alice", ip);
    RecordedAccount(lib, secrets, Element("account", "alice"), ip, now, info);
  }

  lemma AccountOnlyPasses(lib: JwtLibrary, secrets: map<Bytes, Bytes>, account: Bytes, ip: Bytes)
    ensures Expected(lib, secrets, map["account" := account], Success(ip)).0 == PassedOn
    ensures !NamesAccount(lib, secrets, map["account" := account])
  {
    ReservedKeysDiffer();
  }
}
