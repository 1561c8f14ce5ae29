/** The identity provider of src/idp.rs: the checks in front of response issuance, and authenticated
    artifact resolution. Signing, encryption and encoding are uninterpreted. */
module IdentityProvider {
  import opened Wrappers
  import opened Instants
  import opened Saml
  import opened Replay
  import Authn = AuthnContext
  import Ordering
  import DateTime
  import SP = ServiceProvider

  datatype IdpConfig = IdpConfig(
    entityId: string, supportedNameIdFormats: seq<NameIdFormat>, defaultNameIdFormat: NameIdFormat,
    encryptWhenPossible: bool, artifactResolution: seq<Endpoint>, signingKeyHasCert: bool)

  // ---- Construction ----

  function IndicesOf(endpoints: seq<Endpoint>): seq<int> {
    if endpoints == [] then []
    else (match endpoints[0].index case Some(i) => [i as int] case None => []) + IndicesOf(endpoints[1..])
  }

  /** The artifact-resolution part of `IdentityProvider::new`. */
  function CheckArtifactResolution(endpoints: seq<Endpoint>, signingKeyHasCert: bool): Result<(), Error> {
    if exists e :: e in endpoints && (e.binding != Soap || e.index.None?) then Err(InvalidConfiguration)
    else if endpoints != [] && !signingKeyHasCert then Err(InvalidConfiguration)
    else if Ordering.HasAdjacentDuplicate(Ordering.Sort(IndicesOf(endpoints)), Ordering.Identity) then Err(InvalidConfiguration)
    else Ok(())
  }

  lemma {:induction false} IndicesOfIndexed(endpoints: seq<Endpoint>)
    requires forall e :: e in endpoints ==> e.index.Some?
    ensures |IndicesOf(endpoints)| == |endpoints|
    ensures forall i :: 0 <= i < |endpoints| ==> IndicesOf(endpoints)[i] == endpoints[i].index.value
  {
    if endpoints != [] {
      assert endpoints == [endpoints[0]] + endpoints[1..];
      IndicesOfIndexed(endpoints[1..]);
    }
  }

  /** A provider is accepted exactly when its artifact-resolution services are indexed SOAP endpoints with
      pairwise distinct indices, and it can sign if it has any. */
  lemma ArtifactResolutionAcceptedExactly(endpoints: seq<Endpoint>, signingKeyHasCert: bool)
    ensures CheckArtifactResolution(endpoints, signingKeyHasCert).Ok? <==>
              && (forall e :: e in endpoints ==> e.binding == Soap && e.index.Some?)
              && (endpoints != [] ==> signingKeyHasCert)
              && forall i, j :: 0 <= i < j < |endpoints| ==> endpoints[i].index != endpoints[j].index
  {
    if forall e :: e in endpoints ==> e.binding == Soap && e.index.Some? {
      var indices := IndicesOf(endpoints);
      IndicesOfIndexed(endpoints);
      Ordering.AdjacentCheckIsPairwiseCheck(indices, Ordering.Identity);
      forall i, j | 0 <= i < j < |endpoints|
        ensures Ordering.Identity(indices[i]) == Ordering.Identity(indices[j]) <==> endpoints[i].index == endpoints[j].index
      {
        assert endpoints[i] in endpoints && endpoints[j] in endpoints;
      }
    }
  }

  // ---- Issuing a response ----

  /** The private provenance a validated AuthnRequest carries. */
  datatype ValidatedRequest = ValidatedRequest(
    spEntityId: string, acs: Endpoint, requestId: string, encryptionCerts: seq<Fingerprint>,
    relayState: Option<string>, authnContext: Option<Authn.RequestedAuthnContext>, nameIdFormat: Option<NameIdFormat>)

  datatype IssueInput = IssueInput(
    sp: SpDescriptor, inResponseTo: ValidatedRequest, nameId: NameId, attributes: seq<Attribute>,
    authnInstant: Instant, sessionIndex: string, sessionNotOnOrAfter: Option<Instant>, classRef: Authn.ClassRef,
    forceEncrypt: Option<bool>, now: Instant, assertionLifetime: Duration, confirmationLifetime: Duration)

  /** The timestamps of an assertion as they go on the wire. */
  datatype WireInstants = WireInstants(
    now: string, notBefore: string, notOnOrAfter: string, confirmationNotOnOrAfter: string,
    authnInstant: string, sessionNotOnOrAfter: Option<string>)

  /** What the XML layer is asked to build, sign, encrypt and encode. */
  datatype IssuedResponse = IssuedResponse(
    input: IssueInput, acs: Endpoint, service: Option<Endpoint>, instants: WireInstants)

  type Deliver = IssuedResponse -> Result<string, Error>

  function Emit(t: Option<Instant>): Result<string, Error> {
    match t
    case None => Err(InvalidConfiguration)
    case Some(instant) =>
      match DateTime.FormatXsDateTime(instant)
      case Some(text) => Ok(text)
      case None => Err(XmlEmit)
  }

  /** `issuance_instants` of src/response/issue.rs. */
  function IssuanceInstants(now: Instant, assertionLifetime: Duration, confirmationLifetime: Duration,
                            authnInstant: Instant, sessionNotOnOrAfter: Option<Instant>): Result<WireInstants, Error> {
    var notBefore, notOnOrAfter := SubDuration(now, 60 * NANOS_PER_SEC), AddDuration(now, assertionLifetime);
    var confirmedUntil := AddDuration(now, confirmationLifetime);
    if notBefore.None? || notOnOrAfter.None? || confirmedUntil.None? then Err(InvalidConfiguration)
    else
      var a :- Emit(Some(now));
      var b :- Emit(notBefore);
      var c :- Emit(notOnOrAfter);
      var d :- Emit(confirmedUntil);
      var e :- Emit(Some(authnInstant));
      if sessionNotOnOrAfter.None? then Ok(WireInstants(a, b, c, d, e, None))
      else
        var f :- Emit(sessionNotOnOrAfter);
        Ok(WireInstants(a, b, c, d, e, Some(f)))
  }

  function EnsureRequestBelongsToSp(request: ValidatedRequest, sp: SpDescriptor): Result<(), Error> {
    if request.spEntityId != sp.entityId then Err(IssuerMismatch) else Ok(())
  }

  /** The sort-and-dedup comparison of two fingerprint lists, written twice in the source. */
  function SameKeyMaterial(sealed: seq<Fingerprint>, current: seq<Fingerprint>): Result<(), Error> {
    if Ordering.Dedup(Ordering.Sort(sealed)) == Ordering.Dedup(Ordering.Sort(current)) then Ok(())
    else Err(SpKeyMaterialMismatch)
  }

  function EnsureAuthnContext(requested: Option<Authn.RequestedAuthnContext>, emitted: Authn.ClassRef): Result<(), Error> {
    match requested
    case None => Ok(())
    case Some(r) =>
      if Authn.Verdict(r, Authn.AsUri(emitted)).Satisfied? then Ok(()) else Err(AuthnContextDowngrade)
  }

  function PickNameIdFormat(requested: Option<NameIdFormat>, supported: seq<NameIdFormat>, fallback: NameIdFormat):
      Result<NameIdFormat, Error> {
    match requested
    case Some(format) => if format in supported then Ok(format) else Err(UnsupportedNameIdPolicy)
    case None => Ok(fallback)
  }

  function ResolveNameIdFormat(config: IdpConfig, requested: Option<NameIdFormat>): Result<NameIdFormat, Error> {
    PickNameIdFormat(requested, config.supportedNameIdFormats, config.defaultNameIdFormat)
  }

  function EnsureNameIdFormat(nameId: NameId, expected: NameIdFormat): Result<(), Error> {
    if nameId.format == expected then Ok(()) else Err(NameIdFormatMismatch)
  }

  function FirstDefault(endpoints: seq<Endpoint>): Option<Endpoint> {
    if endpoints == [] then None else if endpoints[0].isDefault then Some(endpoints[0]) else FirstDefault(endpoints[1..])
  }

  function ArtifactResolutionServiceFor(config: IdpConfig, binding: Binding): Result<Option<Endpoint>, Error> {
    if binding != HttpArtifact then Ok(None)
    else
      var marked := FirstDefault(config.artifactResolution);
      var chosen := if marked.Some? then marked
                    else if config.artifactResolution != [] then Some(config.artifactResolution[0]) else None;
      if chosen.None? then Err(UnsupportedByPeer)
      else if chosen.value.binding != Soap || chosen.value.index.None? then Err(InvalidConfiguration)
      else Ok(chosen)
  }

  /** Everything issuance checks before the XML layer takes over. */
  function PrepareResponse(config: IdpConfig, input: IssueInput): Result<IssuedResponse, Error> {
    var request := input.inResponseTo;
    var _ :- EnsureRequestBelongsToSp(request, input.sp);
    var checkKeys := match input.forceEncrypt case Some(force) => force case None => config.encryptWhenPossible;
    var _ :- if checkKeys then SameKeyMaterial(request.encryptionCerts, input.sp.encryptionCerts) else Ok(());
    var _ :- EnsureAuthnContext(request.authnContext, input.classRef);
    var service :- ArtifactResolutionServiceFor(config, request.acs.binding);
    var format :- ResolveNameIdFormat(config, request.nameIdFormat);
    var _ :- EnsureNameIdFormat(input.nameId, format);
    var _ :- EnsureSpQualifier(input.nameId, input.sp.entityId);
    var instants :- IssuanceInstants(input.now, input.assertionLifetime, input.confirmationLifetime,
                                     input.authnInstant, input.sessionNotOnOrAfter);
    Ok(IssuedResponse(input, request.acs, service, instants))
  }

  /** `issue_response`: the API that refuses HTTP-Artifact in front of the shared path. */
  function IssueResponse(config: IdpConfig, deliver: Deliver, input: IssueInput): Result<string, Error> {
    if input.inResponseTo.acs.binding == HttpArtifact then Err(ArtifactTransactionRequired)
    else
      var prepared :- PrepareResponse(config, input);
      deliver(prepared)
  }

  /** Issuing to an SP whose descriptor only reorders or repeats its encryption certificates is the same. */
  lemma KeyMaterialComparesAsSets(sealed: seq<Fingerprint>, current: seq<Fingerprint>)
    ensures SameKeyMaterial(sealed, current).Ok? <==> Ordering.SameMembers(sealed, current)
  {
    hide Ordering.Dedup, Ordering.Sort;
    Ordering.SortedDedupEqualIffSameSet(sealed, current);
    Ordering.SameElementsIffSameMembers(sealed, current);
  }

  // ---- Artifact resolution ----

  datatype ArtifactRoute = ArtifactRoute(endpointIndex: nat, sourceId: string)

  /** A parsed `<samlp:ArtifactResolve>`; `signature` is its `<ds:Signature>` child, if any. */
  datatype ResolveRequest = ResolveRequest(
    requestId: string, issuer: string, artifact: string, destination: Option<string>, issueInstant: Option<string>,
    document: string, signature: Option<string>)

  datatype ResolveTransaction = ResolveTransaction(artifact: string, spEntityId: string, spSigningCerts: seq<Fingerprint>)

  datatype ResolveInput = ResolveInput(
    sp: SpDescriptor, transaction: ResolveTransaction, envelope: string, expectedDestination: string,
    now: Instant, clockSkew: Duration, requireSigned: bool)

  /** The XML layer of artifact resolution; `verify` says that the signature verifies under one of the
      candidates and covers the message root. */
  datatype ResolveXml = ResolveXml(
    unwrap: string -> Result<ResolveRequest, Error>, parseArtifact: string -> Result<ArtifactRoute, Error>,
    sourceId: string -> string, verify: (string, string, seq<Fingerprint>) -> bool)

  function CheckRouting(config: IdpConfig, xml: ResolveXml, input: ResolveInput): Result<(), Error> {
    var route :- xml.parseArtifact(input.transaction.artifact);
    if route.sourceId != xml.sourceId(config.entityId) then Err(MalformedArtifact)
    else match SP.FindService(config.artifactResolution, route.endpointIndex)
      case None => Err(MalformedArtifact)
      case Some(service) =>
        if service.binding != Soap || service.url != input.expectedDestination then Err(InvalidConfiguration) else Ok(())
  }

  /** The freshness window is closed at both ends. */
  function CheckFreshness(issueInstant: Option<string>, now: Instant, clockSkew: Duration): Result<Instant, Error> {
    if issueInstant.None? then Err(XmlParse)
    else
      match DateTime.ParseXsDateTime(issueInstant.value)
      case None => Err(XmlParse)
      case Some(t) =>
        match (SubDuration(now, clockSkew), AddDuration(now, clockSkew))
        case (Some(earliest), Some(latest)) => if t < earliest || t > latest then Err(Expired) else Ok(t)
        case _ => Err(XmlParse)
  }

  function CheckResolveSignature(xml: ResolveXml, request: ResolveRequest, input: ResolveInput): Result<(), Error> {
    match request.signature
    case Some(signature) =>
      var pinned := Intersection(input.sp.signingCerts, input.transaction.spSigningCerts);
      if pinned == [] then Err(ArtifactSpTrustRootMismatch)
      else if xml.verify(request.document, signature, pinned) then Ok(())
      else Err(SignatureVerification)
    case None => if input.requireSigned then Err(SignatureMissing) else Ok(())
  }

  function ReplayId(spEntityId: string, requestId: string): string { spEntityId + "\0" + requestId }

  function ResolveTombstone(issueInstant: Instant, clockSkew: Duration): Result<Instant, Error> {
    match AddDuration(issueInstant, clockSkew)
    case None => Err(XmlParse)
    case Some(t) =>
      match AddDuration(t, NANOS_PER_MILLI)
      case None => Err(XmlParse)
      case Some(expiresAt) => Ok(expiresAt)
  }

  /** All of `consume_artifact_resolve` up to its reservation, and the entry it then reserves. */
  function PlanResolve(config: IdpConfig, xml: ResolveXml, input: ResolveInput): Result<(ResolveRequest, ReplayEntry), Error> {
    var request :- xml.unwrap(input.envelope);
    var _ :- CheckRouting(config, xml, input);
    if input.clockSkew == 0 then Err(InvalidConfiguration)
    else if request.issuer != input.sp.entityId || request.issuer != input.transaction.spEntityId then Err(IssuerMismatch)
    else if request.artifact != input.transaction.artifact then Err(MalformedArtifact)
    else if request.destination != Some(input.expectedDestination) then Err(DestinationMismatch)
    else
      var issueInstant :- CheckFreshness(request.issueInstant, input.now, input.clockSkew);
      var _ :- CheckResolveSignature(xml, request, input);
      var expiresAt :- ResolveTombstone(issueInstant, input.clockSkew);
      Ok((request, ReplayEntry(Key(ArtifactResolve, ReplayId(input.transaction.spEntityId, request.requestId)), expiresAt)))
  }

  method ConsumeArtifactResolve(config: IdpConfig, xml: ResolveXml, input: ResolveInput, cache: InMemoryReplayCache)
      returns (r: Result<ResolveRequest, Error>)
    requires cache.Valid()
    modifies cache
    ensures cache.Valid()
    ensures match PlanResolve(config, xml, input)
            case Err(error) => r == Err(error) && cache.inner == old(cache.inner)
            case Ok((request, entry)) =>
              var (m, verdict) := Step(old(cache.inner), cache.capacity, [entry], input.now);
              && cache.inner == m
              && r == match verdict
                      case Fresh => Ok(request)
                      case Replayed => Err(ArtifactResolveReplay)
                      case Full => Err(ReplayCacheFull)
  {
    hide Step;
    var plan := PlanResolve(config, xml, input);
    if plan.Err? {
      return Err(plan.error);
    }
    var (request, entry) := plan.value;
    var verdict := cache.CheckAndInsert([entry], input.now);
    return match verdict
      case Fresh => Ok(request)
      case Replayed => Err(ArtifactResolveReplay)
      case Full => Err(ReplayCacheFull);
  }

  /** A message accepted at some time keeps its tombstone past the last instant at which the same message
      would still be fresh: the window ends one millisecond before the tombstone does. */
  lemma TombstoneCoversFreshness(config: IdpConfig, xml: ResolveXml, input: ResolveInput)
    requires PlanResolve(config, xml, input).Ok?
    ensures var (request, entry) := PlanResolve(config, xml, input).value;
            && input.clockSkew > 0
            && request.issueInstant.Some? && DateTime.ParseXsDateTime(request.issueInstant.value).Some?
            && var t := DateTime.ParseXsDateTime(request.issueInstant.value).value;
               && entry.expiresAt == t + input.clockSkew + NANOS_PER_MILLI
               && t - input.clockSkew <= input.now <= t + input.clockSkew
               && entry.key == Key(ArtifactResolve, ReplayId(input.transaction.spEntityId, request.requestId))
               && request.issuer == input.transaction.spEntityId
  {
    hide DateTime.ParseXsDateTime, CheckRouting, CheckResolveSignature;
  }

  lemma LongerNameHoldsNul(sp: string, id: string, sp': string, id': string)
    requires ReplayId(sp, id) == ReplayId(sp', id') && |sp| < |sp'|
    ensures '\0' in sp' && '\0' in id
  {
    var a, b := ReplayId(sp, id), ReplayId(sp', id');
    assert a[|sp|] == '\0' && b[|sp|] == sp'[|sp|];
    assert b[|sp'|] == '\0' && a[|sp'|] == id[|sp'| - |sp| - 1];
  }

  /** The NUL separator makes the key unambiguous as soon as either the entity ids or the request ids
      are free of NUL. */
  lemma ReplayIdIsInjective(sp: string, id: string, sp': string, id': string)
    requires ReplayId(sp, id) == ReplayId(sp', id')
    requires ('\0' !in sp && '\0' !in sp') || ('\0' !in id && '\0' !in id')
    ensures sp == sp' && id == id'
  {
    if |sp| < |sp'| {
      LongerNameHoldsNul(sp, id, sp', id');
    } else if |sp'| < |sp| {
      LongerNameHoldsNul(sp', id', sp, id);
    }
    var a, b := ReplayId(sp, id), ReplayId(sp', id');
    assert a[..|sp|] == sp && b[..|sp'|] == sp';
    assert a[|sp| + 1..] == id && b[|sp'| + 1..] == id';
  }

  /** Without that, two different pairs can share a key. */
  lemma ReplayIdCollidesOnNul()
    ensures ReplayId("a", "b\0c") == ReplayId("a\0b", "c")
  {
    assert ReplayId("a", "b\0c") == "a\0b\0c" == ReplayId("a\0b", "c");
  }
}
