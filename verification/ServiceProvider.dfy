/** The service provider of src/sp.rs: response consumption with its replay reservation, and the pinned
    artifact-resolution services. */
module ServiceProvider {
  import opened Wrappers
  import opened CheckedInt
  import opened Instants
  import opened Saml
  import opened Replay
  import opened ResponseValidation
  import Ordering
  import Authn = AuthnContext

  datatype LoginTracker = LoginTracker(
    requestId: string, idpEntityId: string, acs: Endpoint,
    requestedAuthnContext: Option<Authn.RequestedAuthnContext>, requestedNameIdFormat: Option<NameIdFormat>,
    pinnedCerts: seq<Fingerprint>, pinnedServices: seq<Endpoint>)

  datatype SpConfig = SpConfig(
    entityId: string, acs: seq<Endpoint>, allowUnsolicited: bool, wantResponseSigned: bool, wantAssertionsSigned: bool)

  datatype ConsumeInput = ConsumeInput(
    idp: IdpDescriptor, message: string, binding: Binding, tracker: Option<LoginTracker>, expectedDestination: string,
    now: Instant, clockSkew: Duration, mode: ReplayMode, presenterKey: Option<nat>)

  // ---- Before the replay cache ----

  function ValidateTrackerContext(config: SpConfig, tracker: Option<LoginTracker>, idp: IdpDescriptor,
                                  expectedDestination: string, binding: Binding): Result<(), Error> {
    if !(exists i :: 0 <= i < |config.acs| && config.acs[i].url == expectedDestination) then Err(InvalidConfiguration)
    else match tracker
      case None => Ok(())
      case Some(t) =>
        if t.idpEntityId != idp.entityId then Err(IssuerMismatch)
        else if t.acs.url != expectedDestination then Err(DestinationMismatch)
        else if t.acs.binding != binding then Err(ResponseBindingMismatch)
        else if Intersection(idp.signingCerts, t.pinnedCerts) == [] then Err(IdpTrustRootMismatch)
        else Ok(())
  }

  /** The descriptor a response is validated with: for a solicited one, only the certificates that are
      both current and pinned. */
  function ValidationIdp(input: ConsumeInput): IdpDescriptor {
    match input.tracker
    case None => input.idp
    case Some(t) => input.idp.(signingCerts := Intersection(input.idp.signingCerts, t.pinnedCerts))
  }

  function ContextOf(config: SpConfig, input: ConsumeInput): Context {
    Context(ValidationIdp(input), config.entityId, input.expectedDestination,
            if input.tracker.Some? then Some(input.tracker.value.requestId) else None,
            config.allowUnsolicited, config.wantResponseSigned, config.wantAssertionsSigned, input.now, input.clockSkew,
            if input.tracker.Some? then input.tracker.value.requestedAuthnContext else None, input.presenterKey)
  }

  /** Everything `consume_response_with_replay` checks before it turns to the replay cache. */
  function Validate(config: SpConfig, xml: XmlLayer, input: ConsumeInput): Result<Identity, Error> {
    var _ :- ValidateTrackerContext(config, input.tracker, input.idp, input.expectedDestination, input.binding);
    var response :- xml.parse(input.message);
    var identity :- ValidateResponse(xml, response, ContextOf(config, input));
    if input.tracker.Some? && input.tracker.value.requestedNameIdFormat.Some?
       && identity.nameId.format != input.tracker.value.requestedNameIdFormat.value then Err(UnsupportedNameIdPolicy)
    else
      var _ :- EnsureSpQualifier(identity.nameId, config.entityId);
      Ok(identity)
  }

  // ---- The reservation ----

  function ReplayExpiresAt(notOnOrAfter: Instant, clockSkew: Duration): Result<Instant, Error> {
    match AddDuration(notOnOrAfter, clockSkew)
    case Some(t) => Ok(t)
    case None => Err(XmlParse)
  }

  function ReplayCheckNeeded(mode: ReplayMode, oneTimeUse: bool): bool {
    match mode
    case All => true
    case OneTimeUseOnly => oneTimeUse
    case Off => false
  }

  /** The entry to reserve for a validated identity, if any; a proxy's transaction entry takes the place
      of the assertion's. */
  function PlanReservation(input: ConsumeInput, identity: Identity, hasCache: bool, transaction: Option<ReplayEntry>):
      Result<Option<ReplayEntry>, Error> {
    if identity.oneTimeUse && (!hasCache || input.mode.Off?) then Err(OneTimeUseUnenforceable)
    else if hasCache && (ReplayCheckNeeded(input.mode, identity.oneTimeUse) || transaction.Some?) then
      var expiresAt :- ReplayExpiresAt(identity.notOnOrAfter, input.clockSkew);
      var own := ReplayEntry(Key(AssertionId, identity.assertionId), expiresAt);
      Ok(Some(if transaction.Some? then transaction.value else own))
    else Ok(None)
  }

  function VerdictError(verdict: Verdict, replayError: Error): Result<(), Error> {
    match verdict
    case Fresh => Ok(())
    case Replayed => Err(replayError)
    case Full => Err(ReplayCacheFull)
  }

  /** The validated identity and what it asks of the cache; independent of what the cache holds. */
  function Plan(config: SpConfig, xml: XmlLayer, input: ConsumeInput, hasCache: bool, transaction: Option<ReplayEntry>):
      Result<(Identity, Option<ReplayEntry>), Error> {
    var identity :- Validate(config, xml, input);
    var entry :- PlanReservation(input, identity, hasCache, transaction);
    Ok((identity, entry))
  }

  /** The call on the cache, as an event of its history. */
  function CallOf(entry: Option<ReplayEntry>, now: Instant): Option<Call> {
    match entry case None => None case Some(e) => Some(Call([e], now))
  }

  method ConsumeResponseWithReplay(config: SpConfig, xml: XmlLayer, input: ConsumeInput, cache: InMemoryReplayCache?,
                                   transaction: Option<ReplayEntry>, replayError: Error)
      returns (r: Result<Identity, Error>)
    requires cache != null ==> cache.Valid()
    modifies if cache == null then {} else {cache}
    ensures cache != null ==> cache.Valid()
    ensures var plan := Plan(config, xml, input, cache != null, transaction);
            match plan
            case Err(error) => r == Err(error) && (cache != null ==> cache.inner == old(cache.inner))
            case Ok((identity, entry)) =>
              if entry.None? then r == Ok(identity) && (cache != null ==> cache.inner == old(cache.inner))
              else
                && cache != null
                && var (m, verdict) := Step(old(cache.inner), cache.capacity, [entry.value], input.now);
                   && cache.inner == m
                   && (r.Ok? <==> verdict == Fresh) && (r.Ok? ==> r.value == identity)
                   && (r.Err? ==> Err(r.error) == VerdictError(verdict, replayError))
  {
    hide Validate, Step, ReplayExpiresAt, ReplayCheckNeeded;
    var validated := Validate(config, xml, input);
    if validated.Err? {
      return Err(validated.error);
    }
    var identity := validated.value;
    if identity.oneTimeUse && (cache == null || input.mode.Off?) {
      return Err(OneTimeUseUnenforceable);
    }
    if cache != null && (ReplayCheckNeeded(input.mode, identity.oneTimeUse) || transaction.Some?) {
      var expiresAt := ReplayExpiresAt(identity.notOnOrAfter, input.clockSkew);
      if expiresAt.Err? {
        return Err(expiresAt.error);
      }
      var own := ReplayEntry(Key(AssertionId, identity.assertionId), expiresAt.value);
      var entry := if transaction.Some? then transaction.value else own;
      var verdict := cache.CheckAndInsert([entry], input.now);
      if verdict != Fresh {
        return Err(if verdict == Full then ReplayCacheFull else replayError);
      }
    }
    return Ok(identity);
  }

  // ---- What acceptance means ----

  /** A solicited response is accepted only from the tracked issuer, at the tracked endpoint and binding,
      in answer to the tracked request, with the requested NameID format, and authenticated with
      certificates that are current and were pinned when the login began, of which there is one. */
  lemma AcceptedResponseIsCorrelated(config: SpConfig, xml: XmlLayer, input: ConsumeInput)
    requires Validate(config, xml, input).Ok? && input.tracker.Some?
    ensures var identity := Validate(config, xml, input).value; var t := input.tracker.value;
            var certs := Intersection(input.idp.signingCerts, t.pinnedCerts);
            var response := xml.parse(input.message);
            && t.idpEntityId == input.idp.entityId
            && t.acs.url == input.expectedDestination && t.acs.binding == input.binding
            && response.Ok? && response.value.inResponseTo == Some(t.requestId)
            && response.value.issuer == Some(t.idpEntityId)
            && (t.requestedNameIdFormat.Some? ==> identity.nameId.format == t.requestedNameIdFormat.value)
            && certs != [] && (forall f :: f in certs ==> f in input.idp.signingCerts && f in t.pinnedCerts)
            && xml.authenticate(response.value.document, certs, config.wantResponseSigned, config.wantAssertionsSigned).Ok?
  {
    var response := xml.parse(input.message).value;
    AcceptedResponseIsCurrent(xml, response, ContextOf(config, input));
    hide ValidateResponse;
  }

  /** The moment the tombstone may be dropped is the first at which validation refuses the assertion: the
      login it was reserved for came before it, and the same login is refused at every instant from it on. */
  lemma ReservationOutlivesValidity(config: SpConfig, xml: XmlLayer, input: ConsumeInput)
    requires Plan(config, xml, input, true, None).Ok? && Plan(config, xml, input, true, None).value.1.Some?
    ensures var (identity, entry) := Plan(config, xml, input, true, None).value;
            && entry.value.key == Key(AssertionId, identity.assertionId)
            && entry.value.expiresAt == identity.notOnOrAfter + input.clockSkew
            && input.now < entry.value.expiresAt
            && (forall later: Instant :: later >= entry.value.expiresAt ==> Validate(config, xml, input.(now := later)).Err?)
  {
    ValidatedIsCurrent(config, xml, input);
    var notOnOrAfter := Validate(config, xml, input).value.notOnOrAfter;
    forall later: Instant | later >= notOnOrAfter + input.clockSkew ensures Validate(config, xml, input.(now := later)).Err? {
      if Validate(config, xml, input.(now := later)).Ok? {
        ValidatedIsCurrent(config, xml, input.(now := later));
        SameAssertionLater(config, xml, input, later);
      }
    }
    hide Validate;
  }

  /** The clock decides whether a login is accepted, not which assertion it carries. */
  lemma SameAssertionLater(config: SpConfig, xml: XmlLayer, input: ConsumeInput, later: Instant)
    requires Validate(config, xml, input).Ok? && Validate(config, xml, input.(now := later)).Ok?
    ensures var a, b := Validate(config, xml, input).value, Validate(config, xml, input.(now := later)).value;
            a.assertionId == b.assertionId && a.notOnOrAfter == b.notOnOrAfter && a.oneTimeUse == b.oneTimeUse
  {
    var response := xml.parse(input.message).value;
    AcceptedResponseIsCurrent(xml, response, ContextOf(config, input));
    AcceptedResponseIsCurrent(xml, response, ContextOf(config, input.(now := later)));
    hide ValidateResponse, ValidateTrackerContext;
  }

  lemma ValidatedIsCurrent(config: SpConfig, xml: XmlLayer, input: ConsumeInput)
    requires Validate(config, xml, input).Ok?
    ensures input.now < Validate(config, xml, input).value.notOnOrAfter + input.clockSkew
  {
    AcceptedResponseIsCurrent(xml, xml.parse(input.message).value, ContextOf(config, input));
    hide ValidateResponse, ValidateTrackerContext;
  }

  /** The first nanosecond `SystemTime` cannot hold. */
  const END_OF_TIME: int := (I64_MAX + 1) * NANOS_PER_SEC

  /** When the overflow branch of `replay_expires_at` is taken after validation: exactly when the skew
      carries the assertion's expiry past the end of time, which it cannot yet do to the clock. */
  lemma OverflowExactly(config: SpConfig, xml: XmlLayer, input: ConsumeInput, hasCache: bool, transaction: Option<ReplayEntry>)
    requires Validate(config, xml, input).Ok?
    ensures var identity := Validate(config, xml, input).value;
            && input.now + input.clockSkew < END_OF_TIME
            && (Plan(config, xml, input, hasCache, transaction) == Err(XmlParse) <==>
                && hasCache && (input.mode.All? || (input.mode.OneTimeUseOnly? && identity.oneTimeUse)
                                || (transaction.Some? && !identity.oneTimeUse))
                && END_OF_TIME <= identity.notOnOrAfter + input.clockSkew)
  {
    ResponseAcceptedExactly(xml, xml.parse(input.message).value, ContextOf(config, input));
    hide ValidateResponse, ValidateTrackerContext, ConditionsAdmit, SessionAdmits, Confirms;
  }

  // ---- Pinned artifact-resolution services ----

  /** The sort key of `Option<u16>`: `None` before every index. */
  function IndexKey(e: Endpoint): int { if e.index.Some? then e.index.value else -1 }

  function PinArtifactResolutionServices(idp: IdpDescriptor): Result<seq<Endpoint>, Error> {
    var endpoints := idp.artifactResolutionEndpoints;
    if endpoints == [] then Err(UnsupportedByPeer)
    else if exists e :: e in endpoints && (e.binding != Soap || e.index.None?)
    then Err(InvalidConfiguration)
    else
      var sorted := Ordering.SortBy(endpoints, IndexKey);
      if Ordering.HasAdjacentDuplicate(sorted, IndexKey) then Err(InvalidConfiguration) else Ok(sorted)
  }

  /** `iter().find(|endpoint| endpoint.index == Some(index))`. */
  function FindService(services: seq<Endpoint>, index: nat): Option<Endpoint> {
    if services == [] then None
    else if services[0].index == Some(index) then Some(services[0])
    else FindService(services[1..], index)
  }

  lemma {:induction false} FindServiceFinds(services: seq<Endpoint>, index: nat)
    ensures match FindService(services, index)
            case Some(e) => e in services && e.index == Some(index)
            case None => forall e :: e in services ==> e.index != Some(index)
  {
    if services != [] { FindServiceFinds(services[1..], index); }
  }

  /** The service found is the first one with the index. */
  predicate FirstWith(services: seq<Endpoint>, index: nat, k: nat) {
    k < |services| && services[k].index == Some(index) && forall j :: 0 <= j < k ==> services[j].index != Some(index)
  }

  lemma {:induction false} FindServiceIsFirst(services: seq<Endpoint>, index: nat)
    ensures match FindService(services, index)
            case Some(e) => exists k: nat :: FirstWith(services, index, k) && services[k] == e
            case None => forall k: nat :: !FirstWith(services, index, k)
  {
    if services != [] {
      FindServiceIsFirst(services[1..], index);
      if services[0].index == Some(index) {
        assert FirstWith(services, index, 0);
      } else {
        forall k: nat | 0 < k < |services| ensures FirstWith(services, index, k) <==> FirstWith(services[1..], index, k - 1) {
          assert forall j :: 0 < j <= k ==> services[j] == services[1..][j - 1];
          assert forall j :: 0 <= j < k ==> services[1..][j] == services[j + 1];
        }
        if k: nat :| FirstWith(services[1..], index, k) && Some(services[1..][k]) == FindService(services, index) {
          assert FirstWith(services, index, k + 1);
        }
      }
    }
  }

  /** Pinning succeeds exactly for a nonempty list of indexed SOAP services with pairwise distinct indices. */
  lemma PinnedExactly(idp: IdpDescriptor)
    ensures var endpoints := idp.artifactResolutionEndpoints;
            PinArtifactResolutionServices(idp).Ok? <==>
              && endpoints != [] && (forall s :: s in endpoints ==> s.binding == Soap && s.index.Some?)
              && forall i, j :: 0 <= i < j < |endpoints| ==> endpoints[i].index != endpoints[j].index
  {
    var endpoints := idp.artifactResolutionEndpoints;
    Ordering.AdjacentCheckIsPairwiseCheck(endpoints, IndexKey);
    if forall s :: s in endpoints ==> s.binding == Soap && s.index.Some? {
      forall i, j | 0 <= i < j < |endpoints|
        ensures IndexKey(endpoints[i]) == IndexKey(endpoints[j]) <==> endpoints[i].index == endpoints[j].index
      {
        assert endpoints[i] in endpoints && endpoints[j] in endpoints;
      }
    }
  }

  /** In a pinned list an index finds exactly the one offered service that carries it. */
  lemma PinnedLookupIsExact(idp: IdpDescriptor, index: nat, e: Endpoint)
    requires PinArtifactResolutionServices(idp).Ok?
    ensures FindService(PinArtifactResolutionServices(idp).value, index) == Some(e) <==>
            e in idp.artifactResolutionEndpoints && e.index == Some(index)
  {
    var endpoints := idp.artifactResolutionEndpoints;
    var sorted := Ordering.SortBy(endpoints, IndexKey);
    PinnedExactly(idp);
    FindServiceFinds(sorted, index);
    MemberOfSorted(endpoints, e);
    var found := FindService(sorted, index);
    if found.Some? {
      MemberOfSorted(endpoints, found.value);
      if e in endpoints && e.index == Some(index) {
        var i :| 0 <= i < |endpoints| && endpoints[i] == e;
        var j :| 0 <= j < |endpoints| && endpoints[j] == found.value;
        assert endpoints[i].index == endpoints[j].index;
      }
    }
  }

  lemma MemberOfSorted(endpoints: seq<Endpoint>, e: Endpoint)
    ensures e in Ordering.SortBy(endpoints, IndexKey) <==> e in endpoints
  {
    Ordering.SortByOrdersAndPermutes(endpoints, IndexKey);
    assert e in endpoints <==> e in Ordering.Elements(endpoints);
    assert e in Ordering.SortBy(endpoints, IndexKey) <==> e in Ordering.Elements(Ordering.SortBy(endpoints, IndexKey));
  }

  /** Metadata that lists the same services in another order pins the same list. */
  lemma PinningIgnoresMetadataOrder(a: IdpDescriptor, b: IdpDescriptor)
    requires multiset(a.artifactResolutionEndpoints) == multiset(b.artifactResolutionEndpoints)
    ensures PinArtifactResolutionServices(a) == PinArtifactResolutionServices(b)
  {
    hide Ordering.SortBy, Ordering.HasAdjacentDuplicate;
    var x, y := a.artifactResolutionEndpoints, b.artifactResolutionEndpoints;
    assert x == [] <==> multiset(x) == multiset{};
    assert y == [] <==> multiset(y) == multiset{};
    Ordering.SameMultisetSameElements(x, y);
    forall e ensures e in x <==> e in y {
      assert e in x <==> e in Ordering.Elements(x);
      assert e in y <==> e in Ordering.Elements(y);
    }
    Ordering.AdjacentCheckIsPairwiseCheck(x, IndexKey);
    Ordering.AdjacentCheckIsPairwiseCheck(y, IndexKey);
    if Ordering.DistinctBy(x, IndexKey) {
      Ordering.DistinctKeysSortOneWay(x, y, IndexKey);
    } else if Ordering.DistinctBy(y, IndexKey) {
      Ordering.DistinctKeysSortOneWay(y, x, IndexKey);
    }
  }
}
