/** The identity proxy of src/proxy.rs: bounce a downstream login upstream, consume the upstream response,
    relay it downstream. Sealing of the context is an uninterpreted codec. */
module Proxy {
  import opened Wrappers
  import opened Instants
  import opened Saml
  import opened Replay
  import opened ResponseValidation
  import Authn = AuthnContext
  import Ordering
  import SP = ServiceProvider
  import IdP = IdentityProvider

  const CONTEXT_LIFETIME: Duration := 600 * NANOS_PER_SEC

  /** What the relay token carries; the transaction id stands for the text it is encoded to. */
  datatype Payload = Payload(
    downstreamRequestId: string, downstreamSpEntityId: string, downstreamAcs: Endpoint,
    downstreamRelayState: Option<string>, requestedAuthnContext: Option<Authn.RequestedAuthnContext>,
    requestedNameIdFormat: Option<NameIdFormat>, upstreamTracker: SP.LoginTracker,
    issuedAt: Instant, expiresAt: Instant, transactionId: string,
    downstreamEncryptionCerts: seq<Fingerprint>, upstreamSigningCerts: seq<Fingerprint>)

  datatype Codec = Codec(encode: Payload -> Result<string, Error>, decode: string -> Result<Payload, Error>)

  /** One proxy object: its two roles, its codec, and the identity that tells it from other instances. */
  datatype Instance = Instance(
    sp: SP.SpConfig, signsAuthnRequests: bool, idp: IdP.IdpConfig, codec: Codec, instance: nat)

  // ---- Bounce ----

  datatype StartLogin = StartLogin(
    binding: Binding, forceAuthn: bool, isPassive: bool, requestedNameIdFormat: Option<NameIdFormat>,
    requestedAuthnContext: Option<Authn.RequestedAuthnContext>)

  datatype BounceInput = BounceInput(
    downstream: IdP.ValidatedRequest, downstreamForceAuthn: bool, downstreamIsPassive: bool,
    upstreamIdp: IdpDescriptor, upstreamBinding: Binding, propagateRequestFlags: bool,
    propagateNameIdPolicy: bool, propagateAuthnContext: bool, now: Instant)

  /** The login the SP role is asked to start: the propagation flags shape this, and only this. */
  function UpstreamLogin(input: BounceInput): StartLogin {
    StartLogin(input.upstreamBinding,
               input.propagateRequestFlags && input.downstreamForceAuthn,
               input.propagateRequestFlags && input.downstreamIsPassive,
               if input.propagateNameIdPolicy then input.downstream.nameIdFormat else None,
               if input.propagateAuthnContext then input.downstream.authnContext else None)
  }

  function FingerprintSet(certs: seq<Fingerprint>): seq<Fingerprint> {
    Ordering.Dedup(Ordering.Sort(certs))
  }

  function PayloadOf(input: BounceInput, tracker: SP.LoginTracker, transactionId: string, expiresAt: Instant): Payload {
    var d := input.downstream;
    Payload(d.requestId, d.spEntityId, d.acs, d.relayState, d.authnContext, d.nameIdFormat, tracker, input.now, expiresAt,
            transactionId, d.encryptionCerts, FingerprintSet(input.upstreamIdp.signingCerts))
  }

  /** The sealed blob and its payload. `startLogin` is the SP role's login start, `transactionId` the random id. */
  function BounceToUpstream(proxy: Instance, startLogin: StartLogin -> Result<SP.LoginTracker, Error>,
                            transactionId: string, input: BounceInput): Result<(string, Payload), Error> {
    if input.upstreamBinding == HttpRedirect && proxy.signsAuthnRequests then Err(InvalidConfiguration)
    else
      var tracker :- startLogin(UpstreamLogin(input));
      match AddDuration(input.now, CONTEXT_LIFETIME)
      case None => Err(InvalidConfiguration)
      case Some(expiresAt) =>
        var payload := PayloadOf(input, tracker, transactionId, expiresAt);
        var blob :- proxy.codec.encode(payload);
        Ok((blob, payload))
  }

  // ---- Consume ----

  function DecodeContext(codec: Codec, blob: string): Result<Payload, Error> {
    var payload :- codec.decode(blob);
    if payload.expiresAt < payload.issuedAt || payload.expiresAt - payload.issuedAt > CONTEXT_LIFETIME
    then Err(InvalidConfiguration)
    else Ok(payload)
  }

  datatype UpstreamInput = UpstreamInput(
    relayState: string, upstreamIdp: IdpDescriptor, message: string, binding: Binding, expectedDestination: string,
    now: Instant, clockSkew: Duration, presenterKey: Option<nat>)

  datatype UpstreamFlow = UpstreamFlow(context: Payload, identity: Identity, instance: nat)

  /** The response is consumed with the context's own tracker, never one of the caller's choosing. */
  function SpInput(input: UpstreamInput, context: Payload): SP.ConsumeInput {
    SP.ConsumeInput(input.upstreamIdp, input.message, input.binding, Some(context.upstreamTracker),
                    input.expectedDestination, input.now, input.clockSkew, All, input.presenterKey)
  }

  function Transaction(context: Payload): ReplayEntry {
    ReplayEntry(Key(ProxyTransaction, context.transactionId), context.expiresAt)
  }

  function CheckContext(proxy: Instance, input: UpstreamInput): Result<Payload, Error> {
    var context :- DecodeContext(proxy.codec, input.relayState);
    if context.expiresAt <= input.now then Err(Expired)
    else if Intersection(input.upstreamIdp.signingCerts, context.upstreamSigningCerts) == [] then Err(UpstreamTrustRootMismatch)
    else Ok(context)
  }

  /** The flow an upstream response yields if its transaction is still unused, and the entry that uses it. */
  function PlanUpstream(proxy: Instance, xml: XmlLayer, input: UpstreamInput): Result<(UpstreamFlow, ReplayEntry), Error> {
    var context :- CheckContext(proxy, input);
    var (identity, entry) :- SP.Plan(proxy.sp, xml, SpInput(input, context), true, Some(Transaction(context)));
    Ok((UpstreamFlow(context, identity, proxy.instance), Transaction(context)))
  }

  lemma TransactionIsAlwaysReserved(proxy: Instance, xml: XmlLayer, input: UpstreamInput)
    ensures CheckContext(proxy, input).Ok? ==>
              var context := CheckContext(proxy, input).value;
              var plan := SP.Plan(proxy.sp, xml, SpInput(input, context), true, Some(Transaction(context)));
              plan.Ok? ==> plan.value.1 == Some(Transaction(context))
  {
    hide SP.Validate, CheckContext;
  }

  method ConsumeUpstreamResponse(proxy: Instance, xml: XmlLayer, input: UpstreamInput, cache: InMemoryReplayCache)
      returns (r: Result<UpstreamFlow, Error>)
    requires cache.Valid()
    modifies cache
    ensures cache.Valid()
    ensures match PlanUpstream(proxy, xml, input)
            case Err(error) => r == Err(error) && cache.inner == old(cache.inner)
            case Ok((flow, entry)) =>
              var (m, verdict) := Step(old(cache.inner), cache.capacity, [entry], input.now);
              && cache.inner == m
              && r == match verdict
                      case Fresh => Ok(flow)
                      case Replayed => Err(ProxyTransactionReplay)
                      case Full => Err(ReplayCacheFull)
  {
    hide Step, CheckContext, SP.Plan;
    TransactionIsAlwaysReserved(proxy, xml, input);
    var checked := CheckContext(proxy, input);
    if checked.Err? {
      return Err(checked.error);
    }
    var context := checked.value;
    var consumed := SP.ConsumeResponseWithReplay(proxy.sp, xml, SpInput(input, context), cache,
                                                 Some(Transaction(context)), ProxyTransactionReplay);
    if consumed.Err? {
      return Err(consumed.error);
    }
    return Ok(UpstreamFlow(context, consumed.value, proxy.instance));
  }

  // ---- Relay ----

  datatype RelayInput = RelayInput(
    downstreamSp: SpDescriptor, passthroughAuthnContext: bool, now: Instant,
    sessionLifetime: Duration, confirmationLifetime: Duration, sessionIndex: string)

  /** The caller's two callbacks. */
  datatype Callbacks = Callbacks(
    transform: (string, NameId, seq<Attribute>, SpDescriptor) -> Result<NameId, Error>,
    release: (seq<Attribute>, SpDescriptor) -> seq<Attribute>)

  datatype Callback = NameIdTransform | AttributeRelease

  /** Which callbacks ran, in order, and what the relay returned. */
  datatype Relayed = Relayed(trace: seq<Callback>, result: Result<string, Error>)

  /** `SsoResponseEndpoint::try_from_endpoint`. */
  function NarrowEndpoint(e: Endpoint): Result<Endpoint, Error> {
    if e.binding in {HttpPost, HttpArtifact} then Ok(e) else Err(InvalidConfiguration)
  }

  predicate SameEndpoint(a: Endpoint, b: Endpoint) { a.url == b.url && a.binding == b.binding && a.index == b.index }

  function FindEndpoint(endpoints: seq<Endpoint>, acs: Endpoint): (r: Option<Endpoint>)
    ensures r.Some? <==> exists e :: e in endpoints && SameEndpoint(e, acs)
    ensures r.Some? ==> r.value in endpoints && SameEndpoint(r.value, acs)
  {
    if endpoints == [] then None
    else if SameEndpoint(endpoints[0], acs) then Some(endpoints[0])
    else FindEndpoint(endpoints[1..], acs)
  }

  function DownstreamClass(identity: Identity, passthrough: bool): Authn.ClassRef {
    if passthrough && identity.classRef.Some? then Authn.FromUri(identity.classRef.value) else Authn.Unspecified
  }

  datatype Deadlines = Deadlines(sessionNotOnOrAfter: Instant, sessionLifetime: Duration, confirmationLifetime: Duration)

  /** The earliest of the upstream deadlines. */
  function UpstreamExpiry(identity: Identity): Instant {
    var session := match identity.sessionNotOnOrAfter
                   case Some(end) => MinInstant(identity.notOnOrAfter, end)
                   case None => identity.notOnOrAfter;
    MinInstant(session, identity.subjectConfirmationNotOnOrAfter)
  }

  function CapDeadlines(identity: Identity, now: Instant, sessionLifetime: Duration, confirmationLifetime: Duration):
      Result<Deadlines, Error> {
    var expiry := UpstreamExpiry(identity);
    if expiry <= now then Err(Expired)
    else match AddDuration(now, sessionLifetime)
      case None => Err(InvalidConfiguration)
      case Some(end) =>
        var session := MinInstant(end, expiry);
        var lifetime := if session >= now then session - now else 0;
        Ok(Deadlines(session, lifetime, if confirmationLifetime <= lifetime then confirmationLifetime else lifetime))
  }

  datatype RelayPlan = RelayPlan(acs: Endpoint, classRef: Authn.ClassRef, deadlines: Deadlines, format: NameIdFormat)

  /** Everything `relay_to_downstream` decides before it calls back. */
  function Preflight(proxy: Instance, flow: UpstreamFlow, input: RelayInput): Result<RelayPlan, Error> {
    if flow.instance != proxy.instance then Err(ForeignProxyFlow)
    else
      var _ :- if proxy.idp.encryptWhenPossible
               then IdP.SameKeyMaterial(flow.context.downstreamEncryptionCerts, input.downstreamSp.encryptionCerts) else Ok(());
      if flow.context.downstreamSpEntityId != input.downstreamSp.entityId then Err(IssuerMismatch)
      else
        var acs :- NarrowEndpoint(flow.context.downstreamAcs);
        if acs.binding == HttpArtifact then Err(ArtifactTransactionRequired)
        else if FindEndpoint(input.downstreamSp.assertionConsumerServices, acs).None? then Err(UnregisteredAcs)
        else
          var classRef := DownstreamClass(flow.identity, input.passthroughAuthnContext);
          var _ :- IdP.EnsureAuthnContext(flow.context.requestedAuthnContext, classRef);
          var deadlines :- CapDeadlines(flow.identity, input.now, input.sessionLifetime, input.confirmationLifetime);
          var _ :- IdP.IssuanceInstants(input.now, deadlines.sessionLifetime, deadlines.confirmationLifetime,
                                        flow.identity.authnInstant, Some(deadlines.sessionNotOnOrAfter));
          var format :- IdP.ResolveNameIdFormat(proxy.idp, flow.context.requestedNameIdFormat);
          Ok(RelayPlan(acs, classRef, deadlines, format))
  }

  /** `ParsedAuthnRequest::for_proxy_reissue` of src/authn/request_validate.rs. */
  function ForProxyReissue(sp: SpDescriptor, context: Payload, acs: Endpoint): Result<IdP.ValidatedRequest, Error> {
    match FindEndpoint(sp.assertionConsumerServices, acs)
    case None => Err(UnregisteredAcs)
    case Some(canonical) =>
      Ok(IdP.ValidatedRequest(sp.entityId, canonical, context.downstreamRequestId, sp.encryptionCerts,
                              context.downstreamRelayState, context.requestedAuthnContext, context.requestedNameIdFormat))
  }

  function IssueInputOf(flow: UpstreamFlow, input: RelayInput, plan: RelayPlan, request: IdP.ValidatedRequest,
                        nameId: NameId, attributes: seq<Attribute>): IdP.IssueInput {
    IdP.IssueInput(input.downstreamSp, request, nameId, attributes, flow.identity.authnInstant, input.sessionIndex,
                   Some(plan.deadlines.sessionNotOnOrAfter), plan.classRef, None, input.now,
                   plan.deadlines.sessionLifetime, plan.deadlines.confirmationLifetime)
  }

  function RelayToDownstream(proxy: Instance, callbacks: Callbacks, deliver: IdP.Deliver, flow: UpstreamFlow, input: RelayInput):
      Relayed {
    match Preflight(proxy, flow, input)
    case Err(error) => Relayed([], Err(error))
    case Ok(plan) =>
      match callbacks.transform(flow.context.upstreamTracker.idpEntityId, flow.identity.nameId, flow.identity.attributes, input.downstreamSp)
      case Err(error) => Relayed([NameIdTransform], Err(error))
      case Ok(nameId) =>
        if nameId.format != plan.format then Relayed([NameIdTransform], Err(NameIdFormatMismatch))
        else if EnsureSpQualifier(nameId, input.downstreamSp.entityId).Err?
        then Relayed([NameIdTransform], Err(NameIdSpQualifierMismatch))
        else
          var attributes := callbacks.release(flow.identity.attributes, input.downstreamSp);
          Relayed([NameIdTransform, AttributeRelease],
                  match ForProxyReissue(input.downstreamSp, flow.context, plan.acs)
                  case Err(error) => Err(error)
                  case Ok(request) =>
                    IdP.IssueResponse(proxy.idp, deliver, IssueInputOf(flow, input, plan, request, nameId, attributes)))
  }

  /** The caller's side of a relay: its callbacks, and a log they append to when they run. */
  class Host {
    const callbacks: Callbacks
    var log: seq<Callback>

    constructor (callbacks: Callbacks)
      ensures this.callbacks == callbacks && log == []
    {
      this.callbacks, log := callbacks, [];
    }

    method Transform(idp: string, subject: NameId, attributes: seq<Attribute>, sp: SpDescriptor) returns (r: Result<NameId, Error>)
      modifies this`log
      ensures log == old(log) + [NameIdTransform] && r == callbacks.transform(idp, subject, attributes, sp)
    {
      log := log + [NameIdTransform];
      return callbacks.transform(idp, subject, attributes, sp);
    }

    method Release(attributes: seq<Attribute>, sp: SpDescriptor) returns (r: seq<Attribute>)
      modifies this`log
      ensures log == old(log) + [AttributeRelease] && r == callbacks.release(attributes, sp)
    {
      log := log + [AttributeRelease];
      return callbacks.release(attributes, sp);
    }
  }

  /** `relay_to_downstream` as it runs: what the callbacks log and what it returns are those of the function. */
  method Relay(proxy: Instance, host: Host, deliver: IdP.Deliver, flow: UpstreamFlow, input: RelayInput)
      returns (r: Result<string, Error>)
    modifies host`log
    ensures var relayed := RelayToDownstream(proxy, host.callbacks, deliver, flow, input);
            host.log == old(host.log) + relayed.trace && r == relayed.result
  {
    hide Preflight, ForProxyReissue, IdP.IssueResponse;
    var preflight := Preflight(proxy, flow, input);
    if preflight.Err? {
      return Err(preflight.error);
    }
    var plan := preflight.value;
    var transformed := host.Transform(flow.context.upstreamTracker.idpEntityId, flow.identity.nameId,
                                      flow.identity.attributes, input.downstreamSp);
    if transformed.Err? {
      return Err(transformed.error);
    }
    var nameId := transformed.value;
    if nameId.format != plan.format {
      return Err(NameIdFormatMismatch);
    }
    var scoped := EnsureSpQualifier(nameId, input.downstreamSp.entityId);
    if scoped.Err? {
      return Err(scoped.error);
    }
    var attributes := host.Release(flow.identity.attributes, input.downstreamSp);
    var request := ForProxyReissue(input.downstreamSp, flow.context, plan.acs);
    if request.Err? {
      return Err(request.error);
    }
    return IdP.IssueResponse(proxy.idp, deliver, IssueInputOf(flow, input, plan, request.value, nameId, attributes));
  }
}
