/** Exactly which ArtifactResolve messages src/idp.rs answers and which responses it issues, written over the
    message, the transaction and the configuration, not over the steps that check them. */
module IdentityProviderTheorems {
  import opened Wrappers
  import opened Instants
  import opened Saml
  import opened Replay
  import opened IdentityProvider
  import Authn = AuthnContext
  import Calendar
  import CheckedInt
  import DateTime
  import DateTimeTheorems
  import Ordering
  import SP = ServiceProvider
  import SpTheorems = ServiceProviderTheorems

  // ---- Artifact resolution ----

  /** The artifact was issued by this provider, and the first service with its index is the SOAP endpoint the
      message came in at. */
  ghost predicate Routed(config: IdpConfig, xml: ResolveXml, input: ResolveInput) {
    var route := xml.parseArtifact(input.transaction.artifact);
    && route.Ok? && route.value.sourceId == xml.sourceId(config.entityId)
    && exists k: nat :: SP.FirstWith(config.artifactResolution, route.value.endpointIndex, k)
                   && config.artifactResolution[k].binding == Soap && config.artifactResolution[k].url == input.expectedDestination
  }

  /** The message is the transaction's SP asking for the transaction's artifact, here. */
  predicate Asks(input: ResolveInput, request: ResolveRequest) {
    && request.issuer == input.sp.entityId && request.issuer == input.transaction.spEntityId
    && request.artifact == input.transaction.artifact && request.destination == Some(input.expectedDestination)
  }

  /** A signature verifies under certificates that are both current and pinned to the transaction, of which
      there is one; without a signature none was demanded. */
  ghost predicate Authenticated(xml: ResolveXml, input: ResolveInput, request: ResolveRequest) {
    match request.signature
    case Some(signature) =>
      && (exists f :: f in input.sp.signingCerts && f in input.transaction.spSigningCerts)
      && xml.verify(request.document, signature, Intersection(input.sp.signingCerts, input.transaction.spSigningCerts))
    case None => !input.requireSigned
  }

  /** The issue instant reads and lies in the closed window around the clock, whose ends, like the end of the
      tombstone, can be represented. */
  predicate FreshlyIssued(input: ResolveInput, request: ResolveRequest) {
    && request.issueInstant.Some?
    && var issued := DateTime.ParseXsDateTime(request.issueInstant.value);
    && issued.Some? && input.now - input.clockSkew <= issued.value <= input.now + input.clockSkew
    && AddDuration(input.now, input.clockSkew).Some? && SubDuration(input.now, input.clockSkew).Some?
    && issued.value + input.clockSkew + NANOS_PER_MILLI < SP.END_OF_TIME
  }

  /** An ArtifactResolve message reaches the cache exactly when it is a well-formed request, routed here, by the
      transaction's SP for its artifact, authenticated, and fresh under a positive skew; and then it reserves
      the SP's request id until a millisecond past its window. */
  lemma ResolveAnsweredExactly(config: IdpConfig, xml: ResolveXml, input: ResolveInput)
    ensures var request := xml.unwrap(input.envelope);
            PlanResolve(config, xml, input).Ok? <==>
            && request.Ok? && Routed(config, xml, input) && input.clockSkew > 0
            && Asks(input, request.value) && FreshlyIssued(input, request.value) && Authenticated(xml, input, request.value)
    ensures PlanResolve(config, xml, input).Ok? ==>
              var (request, entry) := PlanResolve(config, xml, input).value;
              && xml.unwrap(input.envelope) == Ok(request)
              && entry.key == Key(ArtifactResolve, input.transaction.spEntityId + "\0" + request.requestId)
              && entry.expiresAt == DateTime.ParseXsDateTime(request.issueInstant.value).value + input.clockSkew + NANOS_PER_MILLI
  {
    hide DateTime.ParseXsDateTime, CheckRouting, CheckResolveSignature, Routed, Authenticated;
    RoutedExactly(config, xml, input);
    var request := xml.unwrap(input.envelope);
    if request.Ok? { AuthenticatedExactly(xml, request.value, input); }
  }

  /** What must be wrong with a message for it to be refused with this error. */
  ghost predicate FaultsResolve(e: Error, config: IdpConfig, xml: ResolveXml, input: ResolveInput, request: ResolveRequest) {
    match e
    case MalformedArtifact =>
      var route := xml.parseArtifact(input.transaction.artifact);
      || (route.Ok? && (route.value.sourceId != xml.sourceId(config.entityId)
                        || forall k: nat :: !SP.FirstWith(config.artifactResolution, route.value.endpointIndex, k)))
      || request.artifact != input.transaction.artifact
    case InvalidConfiguration => !Routed(config, xml, input) || input.clockSkew == 0
    case IssuerMismatch => request.issuer != input.sp.entityId || request.issuer != input.transaction.spEntityId
    case DestinationMismatch => request.destination != Some(input.expectedDestination)
    case Expired =>
      && request.issueInstant.Some?
      && var issued := DateTime.ParseXsDateTime(request.issueInstant.value);
      issued.Some? && !(input.now - input.clockSkew <= issued.value <= input.now + input.clockSkew)
    case XmlParse => !FreshlyIssued(input, request)
    case ArtifactSpTrustRootMismatch =>
      request.signature.Some? && forall f :: f in input.sp.signingCerts ==> f !in input.transaction.spSigningCerts
    case SignatureVerification => request.signature.Some? && !Authenticated(xml, input, request)
    case SignatureMissing => request.signature.None? && input.requireSigned
    case _ => false
  }

  /** Unless the message or the transaction's artifact does not parse, a refused message is refused with one
      of these errors and no other, and what the error says is wrong, is. */
  lemma ResolveRefusalIsTrue(config: IdpConfig, xml: ResolveXml, input: ResolveInput)
    requires PlanResolve(config, xml, input).Err?
    requires xml.unwrap(input.envelope).Ok? && xml.parseArtifact(input.transaction.artifact).Ok?
    ensures FaultsResolve(PlanResolve(config, xml, input).error, config, xml, input, xml.unwrap(input.envelope).value)
  {
    hide CheckRouting, CheckFreshness, CheckResolveSignature, FaultsResolve, FreshlyIssued;
    var request := xml.unwrap(input.envelope).value;
    RoutingFault(config, xml, input, request);
    SignatureFault(config, xml, input, request);
    FreshnessFault(config, xml, input, request);
    OtherFaults(config, xml, input, request);
  }

  lemma RoutingFault(config: IdpConfig, xml: ResolveXml, input: ResolveInput, request: ResolveRequest)
    requires xml.parseArtifact(input.transaction.artifact).Ok?
    ensures var r := CheckRouting(config, xml, input); r.Err? ==> FaultsResolve(r.error, config, xml, input, request)
  {
    RoutedExactly(config, xml, input);
    SP.FindServiceIsFirst(config.artifactResolution, xml.parseArtifact(input.transaction.artifact).value.endpointIndex);
    hide SP.FindService, SP.FirstWith, FreshlyIssued, Authenticated, DateTime.ParseXsDateTime;
  }

  lemma SignatureFault(config: IdpConfig, xml: ResolveXml, input: ResolveInput, request: ResolveRequest)
    ensures var r := CheckResolveSignature(xml, request, input); r.Err? ==> FaultsResolve(r.error, config, xml, input, request)
  {
    hide Routed, FreshlyIssued, DateTime.ParseXsDateTime;
    SpTheorems.NonemptyIntersection(input.sp.signingCerts, input.transaction.spSigningCerts);
  }

  lemma FreshnessFault(config: IdpConfig, xml: ResolveXml, input: ResolveInput, request: ResolveRequest)
    ensures var r := CheckFreshness(request.issueInstant, input.now, input.clockSkew);
            if r.Err? then FaultsResolve(r.error, config, xml, input, request)
            else ResolveTombstone(r.value, input.clockSkew).Err? ==>
                   FaultsResolve(ResolveTombstone(r.value, input.clockSkew).error, config, xml, input, request)
  {
    hide Routed, Authenticated, DateTime.ParseXsDateTime;
  }

  lemma OtherFaults(config: IdpConfig, xml: ResolveXml, input: ResolveInput, request: ResolveRequest)
    ensures input.clockSkew == 0 ==> FaultsResolve(InvalidConfiguration, config, xml, input, request)
    ensures request.issuer != input.sp.entityId || request.issuer != input.transaction.spEntityId ==>
              FaultsResolve(IssuerMismatch, config, xml, input, request)
    ensures request.artifact != input.transaction.artifact ==> FaultsResolve(MalformedArtifact, config, xml, input, request)
    ensures request.destination != Some(input.expectedDestination) ==> FaultsResolve(DestinationMismatch, config, xml, input, request)
  {
    hide Routed, Authenticated, FreshlyIssued, DateTime.ParseXsDateTime;
  }

  lemma RoutedExactly(config: IdpConfig, xml: ResolveXml, input: ResolveInput)
    ensures CheckRouting(config, xml, input).Ok? <==> Routed(config, xml, input)
  {
    var route := xml.parseArtifact(input.transaction.artifact);
    if route.Ok? { SP.FindServiceIsFirst(config.artifactResolution, route.value.endpointIndex); }
  }

  lemma AuthenticatedExactly(xml: ResolveXml, request: ResolveRequest, input: ResolveInput)
    ensures CheckResolveSignature(xml, request, input).Ok? <==> Authenticated(xml, input, request)
  {
    SpTheorems.NonemptyIntersection(input.sp.signingCerts, input.transaction.spSigningCerts);
  }

  // ---- Instants on the wire ----

  /** The first instant whose year is past the `i32` years, and so cannot be written. */
  function EndOfWriting(): int {
    (Calendar.CalendarDay(Calendar.Civil(CheckedInt.I32_MAX, 12, 31)) + 1) * 86_400 * NANOS_PER_SEC
  }

  lemma EndOfWritingIsFar()
    ensures 0 < EndOfWriting() < SP.END_OF_TIME
  {
    var last := Calendar.Civil(CheckedInt.I32_MAX, 12, 31);
    Calendar.DayWithinYear(last);
    assert 0 < Calendar.GregorianYearStart(CheckedInt.I32_MAX) && Calendar.GregorianYearStart(CheckedInt.I32_MAX + 1) < 1_000_000_000_000;
    hide Calendar.CalendarDay, Calendar.GregorianYearStart;
  }

  lemma NoDayIsBeforeTheFirst(z: nat)
    ensures Calendar.CalendarDay(Calendar.Civil(CheckedInt.I32_MIN, 1, 1)) <= z
  {
    var first := Calendar.Civil(CheckedInt.I32_MIN, 1, 1);
    Calendar.DayWithinYear(first);
    assert Calendar.GregorianYearStart(CheckedInt.I32_MIN + 1) < 0;
    hide Calendar.CalendarDay, Calendar.GregorianYearStart;
  }

  /** An instant can be written exactly from 1970 to the end of the last `i32` year. */
  lemma WritesExactly(t: Instant)
    ensures DateTime.FormatXsDateTime(t).Some? <==> 0 <= t < EndOfWriting()
  {
    hide Calendar.CalendarDay, Calendar.CivilFromDays, DateTime.RenderUtc;
    if t >= 0 {
      var days := t / NANOS_PER_SEC / 86_400;
      Calendar.CivilFromDaysDomain(days);
      NoDayIsBeforeTheFirst(days);
    }
  }

  /** The text of an instant, where it has one. */
  predicate Writes(t: int, text: string) {
    FitInstant(t).Some? && DateTime.FormatXsDateTime(FitInstant(t).value) == Some(text)
  }

  /** A response's instants can be written exactly when its clock is at least a minute into 1970 and all its
      deadlines and the authentication lie before the end of writing; each is then the text of its own instant. */
  lemma InstantsWriteExactly(now: Instant, assertionLifetime: Duration, confirmationLifetime: Duration,
                             authnInstant: Instant, sessionNotOnOrAfter: Option<Instant>)
    ensures var wire := IssuanceInstants(now, assertionLifetime, confirmationLifetime, authnInstant, sessionNotOnOrAfter);
            && (wire.Ok? <==>
                && 60 * NANOS_PER_SEC <= now && now + assertionLifetime < EndOfWriting()
                && now + confirmationLifetime < EndOfWriting() && 0 <= authnInstant < EndOfWriting()
                && (sessionNotOnOrAfter.Some? ==> 0 <= sessionNotOnOrAfter.value < EndOfWriting()))
            && (wire.Ok? ==>
                && Writes(now, wire.value.now) && Writes(now - 60 * NANOS_PER_SEC, wire.value.notBefore)
                && Writes(now + assertionLifetime, wire.value.notOnOrAfter)
                && Writes(now + confirmationLifetime, wire.value.confirmationNotOnOrAfter)
                && Writes(authnInstant, wire.value.authnInstant)
                && match sessionNotOnOrAfter
                   case None => wire.value.sessionNotOnOrAfter == None
                   case Some(end) => wire.value.sessionNotOnOrAfter.Some? && Writes(end, wire.value.sessionNotOnOrAfter.value))
  {
    hide DateTime.FormatXsDateTime, EndOfWriting;
    EndOfWritingIsFar();
    WritesExactly(now);
    WritesExactly(authnInstant);
    if SubDuration(now, 60 * NANOS_PER_SEC).Some? { WritesExactly(now - 60 * NANOS_PER_SEC); }
    if AddDuration(now, assertionLifetime).Some? { WritesExactly(now + assertionLifetime); }
    if AddDuration(now, confirmationLifetime).Some? { WritesExactly(now + confirmationLifetime); }
    if sessionNotOnOrAfter.Some? { WritesExactly(sessionNotOnOrAfter.value); }
  }

  // ---- Issuance ----

  /** The encryption keys the request was validated with matter. */
  predicate Encrypts(config: IdpConfig, input: IssueInput) {
    input.forceEncrypt == Some(true) || (input.forceEncrypt == None && config.encryptWhenPossible)
  }

  /** The service that will resolve the artifact: the first default one, or else the first; SOAP, with an index. */
  ghost predicate Resolves(config: IdpConfig, service: Endpoint) {
    && service.binding == Soap && service.index.Some?
    && exists k :: 0 <= k < |config.artifactResolution| && config.artifactResolution[k] == service
        && (forall j :: 0 <= j < k ==> !config.artifactResolution[j].isDefault)
        && (service.isDefault || (k == 0 && forall j :: 0 <= j < |config.artifactResolution| ==> !config.artifactResolution[j].isDefault))
  }

  function NegotiatedFormat(config: IdpConfig, requested: Option<NameIdFormat>): NameIdFormat {
    if requested.Some? then requested.value else config.defaultNameIdFormat
  }

  /** The request was validated for this SP and, if its keys matter, with the keys it has now; the class meets
      what it asked for; the name is of the negotiated format, which the provider supports if it was asked
      for, and not scoped to another SP; and the instants can be written. */
  ghost predicate Issuable(config: IdpConfig, input: IssueInput) {
    var request := input.inResponseTo;
    && request.spEntityId == input.sp.entityId
    && (Encrypts(config, input) ==> Ordering.SameMembers(request.encryptionCerts, input.sp.encryptionCerts))
    && (request.authnContext.Some? ==>
          Authn.Verdict(request.authnContext.value, Authn.AsUri(input.classRef)) == Authn.Satisfied)
    && (request.nameIdFormat.Some? ==> request.nameIdFormat.value in config.supportedNameIdFormats)
    && input.nameId.format == NegotiatedFormat(config, request.nameIdFormat)
    && (input.nameId.format.Persistent? && input.nameId.spNameQualifier.Some? ==>
          input.nameId.spNameQualifier.value == input.sp.entityId)
    && 60 * NANOS_PER_SEC <= input.now && input.now + input.assertionLifetime < EndOfWriting()
    && input.now + input.confirmationLifetime < EndOfWriting() && 0 <= input.authnInstant < EndOfWriting()
    && (input.sessionNotOnOrAfter.Some? ==> 0 <= input.sessionNotOnOrAfter.value < EndOfWriting())
  }

  /** What is handed to the XML layer: the input as it came, the validated endpoint, the resolving service
      for an artifact and no other time, and the texts of the instants. */
  ghost predicate Prepared(config: IdpConfig, input: IssueInput, issued: IssuedResponse) {
    && issued.input == input && issued.acs == input.inResponseTo.acs
    && (if issued.acs.binding == HttpArtifact then issued.service.Some? && Resolves(config, issued.service.value)
        else issued.service == None)
    && IssuanceInstants(input.now, input.assertionLifetime, input.confirmationLifetime, input.authnInstant,
                        input.sessionNotOnOrAfter) == Ok(issued.instants)
  }

  /** A response is prepared exactly when it is issuable and, for an artifact, can be resolved. */
  lemma PreparesExactly(config: IdpConfig, input: IssueInput)
    ensures PrepareResponse(config, input).Ok? <==>
            && Issuable(config, input)
            && (input.inResponseTo.acs.binding == HttpArtifact ==> exists service :: Resolves(config, service))
    ensures PrepareResponse(config, input).Ok? ==> Prepared(config, input, PrepareResponse(config, input).value)
  {
    hide SameKeyMaterial, IssuanceInstants, Ordering.SameMembers, Authn.Verdict, Authn.AsUri, EndOfWriting, Resolves,
         ArtifactResolutionServiceFor;
    KeyMaterialComparesAsSets(input.inResponseTo.encryptionCerts, input.sp.encryptionCerts);
    ServiceResolvesExactly(config, input.inResponseTo.acs.binding);
    InstantsWriteExactly(input.now, input.assertionLifetime, input.confirmationLifetime, input.authnInstant, input.sessionNotOnOrAfter);
  }

  lemma ServiceResolvesExactly(config: IdpConfig, binding: Binding)
    ensures var service := ArtifactResolutionServiceFor(config, binding);
            if binding != HttpArtifact then service == Ok(None)
            else && (service.Ok? <==> exists e :: Resolves(config, e))
                 && (service.Ok? ==> service.value.Some? && Resolves(config, service.value.value))
  {
    hide Resolves, FirstDefault;
    if binding == HttpArtifact {
      if ArtifactResolutionServiceFor(config, binding).Ok? { ChosenServiceResolves(config); }
      forall e ensures Resolves(config, e) ==> ArtifactResolutionServiceFor(config, binding) == Ok(Some(e)) {
        if Resolves(config, e) { ResolvingServiceIsChosen(config, e); }
      }
    }
  }

  lemma ChosenServiceResolves(config: IdpConfig)
    requires ArtifactResolutionServiceFor(config, HttpArtifact).Ok?
    ensures var service := ArtifactResolutionServiceFor(config, HttpArtifact).value;
            service.Some? && Resolves(config, service.value)
  {
    var endpoints := config.artifactResolution;
    FirstDefaultIsFirst(endpoints);
    hide FirstDefault;
    if FirstDefault(endpoints).None? { assert endpoints[0] == ArtifactResolutionServiceFor(config, HttpArtifact).value.value; }
  }

  lemma ResolvingServiceIsChosen(config: IdpConfig, e: Endpoint)
    requires Resolves(config, e)
    ensures ArtifactResolutionServiceFor(config, HttpArtifact) == Ok(Some(e))
  {
    var endpoints := config.artifactResolution;
    FirstDefaultIsFirst(endpoints);
    var k :| 0 <= k < |endpoints| && endpoints[k] == e && (forall j :: 0 <= j < k ==> !endpoints[j].isDefault)
             && (e.isDefault || (k == 0 && forall j :: 0 <= j < |endpoints| ==> !endpoints[j].isDefault));
    hide FirstDefault;
  }

  lemma {:induction false} FirstDefaultIsFirst(endpoints: seq<Endpoint>)
    ensures match FirstDefault(endpoints)
            case Some(e) => e.isDefault && exists k :: 0 <= k < |endpoints| && endpoints[k] == e
                                                        && forall j :: 0 <= j < k ==> !endpoints[j].isDefault
            case None => forall j :: 0 <= j < |endpoints| ==> !endpoints[j].isDefault
  {
    if endpoints != [] {
      FirstDefaultIsFirst(endpoints[1..]);
      if !endpoints[0].isDefault && FirstDefault(endpoints).Some? {
        var k :| 0 <= k < |endpoints[1..]| && endpoints[1..][k] == FirstDefault(endpoints).value
                 && forall j :: 0 <= j < k ==> !endpoints[1..][j].isDefault;
        assert endpoints[k + 1] == FirstDefault(endpoints).value;
        assert forall j :: 0 < j < k + 1 ==> endpoints[j] == endpoints[1..][j - 1];
      }
    }
  }

  /** Direct issuance refuses an artifact and whatever is not issuable; anything else comes to exactly what the
      XML layer makes of the prepared response. */
  lemma IssuesExactly(config: IdpConfig, deliver: Deliver, input: IssueInput)
    ensures if Issuable(config, input) && input.inResponseTo.acs.binding != HttpArtifact
            then exists issued :: Prepared(config, input, issued) && IssueResponse(config, deliver, input) == deliver(issued)
            else IssueResponse(config, deliver, input).Err?
  {
    hide PrepareResponse, Issuable, Prepared;
    PreparesExactly(config, input);
  }
}
