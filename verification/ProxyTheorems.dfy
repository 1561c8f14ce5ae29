/** What src/proxy.rs promises about a bounce and a relay: the downstream requirement survives, callbacks
    run only for a response that can be issued, and deadlines never grow. */
module ProxyTheorems {
  import opened Wrappers
  import opened Instants
  import opened Saml
  import opened ResponseValidation
  import opened Proxy
  import Authn = AuthnContext
  import Ordering
  import SP = ServiceProvider
  import IdP = IdentityProvider
  import DateTime
  import DateTimeTheorems

  // ---- Bounce ----

  /** Whatever the propagation flags ask of the upstream, the sealed context records what the downstream
      SP required; it lives ten minutes, and an honest codec gives it back. */
  lemma BounceSealsTheDownstreamRequest(proxy: Instance, startLogin: StartLogin -> Result<SP.LoginTracker, Error>,
                                        transactionId: string, input: BounceInput)
    requires BounceToUpstream(proxy, startLogin, transactionId, input).Ok?
    ensures var (blob, payload) := BounceToUpstream(proxy, startLogin, transactionId, input).value;
            && payload.requestedAuthnContext == input.downstream.authnContext
            && payload.requestedNameIdFormat == input.downstream.nameIdFormat
            && payload.downstreamSpEntityId == input.downstream.spEntityId
            && payload.downstreamAcs == input.downstream.acs
            && payload.expiresAt == payload.issuedAt + CONTEXT_LIFETIME && payload.issuedAt == input.now
            && (forall f :: f in payload.upstreamSigningCerts <==> f in input.upstreamIdp.signingCerts)
            && !(input.upstreamBinding == HttpRedirect && proxy.signsAuthnRequests)
            && (proxy.codec.decode(blob) == Ok(payload) ==> DecodeContext(proxy.codec, blob) == Ok(payload))
  {
    FingerprintSetKeepsMembers(input.upstreamIdp.signingCerts);
    hide FingerprintSet;
  }

  lemma FingerprintSetKeepsMembers(certs: seq<Fingerprint>)
    ensures forall f :: f in FingerprintSet(certs) <==> f in certs
  {
    Ordering.SortByOrdersAndPermutes(certs, Ordering.Identity);
    Ordering.DedupOfSorted(Ordering.Sort(certs));
    forall f ensures f in FingerprintSet(certs) <==> f in certs {
      assert f in certs <==> f in Ordering.Elements(certs);
      assert f in FingerprintSet(certs) <==> f in Ordering.Elements(FingerprintSet(certs));
    }
  }

  // ---- Relay: callbacks and issuance ----

  /** No callback runs unless the whole preflight passed; attribute release runs only after a NameID of the
      negotiated format and recipient came back. */
  lemma CallbacksFollowTheChecks(proxy: Instance, callbacks: Callbacks, deliver: IdP.Deliver, flow: UpstreamFlow, input: RelayInput)
    ensures var relayed := RelayToDownstream(proxy, callbacks, deliver, flow, input);
            var preflight := Preflight(proxy, flow, input);
            && (relayed.trace == [] <==> preflight.Err?)
            && (preflight.Err? ==> relayed.result == Err(preflight.error))
            && (relayed.trace != [] ==> relayed.trace[0] == NameIdTransform && |relayed.trace| <= 2)
            && (AttributeRelease in relayed.trace <==> relayed.trace == [NameIdTransform, AttributeRelease])
            && (AttributeRelease in relayed.trace <==>
                && preflight.Ok?
                && var nameId := callbacks.transform(flow.context.upstreamTracker.idpEntityId, flow.identity.nameId,
                                                     flow.identity.attributes, input.downstreamSp);
                   && nameId.Ok? && nameId.value.format == preflight.value.format
                   && EnsureSpQualifier(nameId.value, input.downstreamSp.entityId).Ok?)
            && (relayed.result.Ok? ==> AttributeRelease in relayed.trace)
  {
    hide Preflight, IdP.IssueResponse, ForProxyReissue;
  }

  /** Once both callbacks have run no check of the identity provider can refuse: the relay comes to
      exactly what the XML layer makes of a response for the downstream SP, at an endpoint its metadata
      registers, for the request the context was sealed for. */
  lemma PreflightIsComplete(proxy: Instance, callbacks: Callbacks, deliver: IdP.Deliver, flow: UpstreamFlow, input: RelayInput)
      returns (issued: IdP.IssuedResponse)
    requires AttributeRelease in RelayToDownstream(proxy, callbacks, deliver, flow, input).trace
    ensures RelayToDownstream(proxy, callbacks, deliver, flow, input).result == deliver(issued)
    ensures issued.input.sp == input.downstreamSp && input.downstreamSp.entityId == flow.context.downstreamSpEntityId
    ensures issued.acs in input.downstreamSp.assertionConsumerServices
            && SameEndpoint(issued.acs, flow.context.downstreamAcs) && issued.acs.binding == HttpPost
    ensures issued.input.inResponseTo ==
            IdP.ValidatedRequest(input.downstreamSp.entityId, issued.acs, flow.context.downstreamRequestId,
                                 input.downstreamSp.encryptionCerts, flow.context.downstreamRelayState,
                                 flow.context.requestedAuthnContext, flow.context.requestedNameIdFormat)
    ensures issued.input.authnInstant == flow.identity.authnInstant && issued.input.sessionIndex == input.sessionIndex
            && issued.input.forceEncrypt == None && issued.service == None
    ensures Ok(issued.input.nameId) == callbacks.transform(flow.context.upstreamTracker.idpEntityId, flow.identity.nameId,
                                                           flow.identity.attributes, input.downstreamSp)
    ensures issued.input.attributes == callbacks.release(flow.identity.attributes, input.downstreamSp)
    ensures issued.input.classRef == DownstreamClass(flow.identity, input.passthroughAuthnContext)
    ensures flow.instance == proxy.instance
    ensures Ok(issued.instants) == IdP.IssuanceInstants(issued.input.now, issued.input.assertionLifetime,
              issued.input.confirmationLifetime, issued.input.authnInstant, issued.input.sessionNotOnOrAfter)
    ensures issued.input.now == input.now
    ensures CapDeadlines(flow.identity, input.now, input.sessionLifetime, input.confirmationLifetime).Ok?
            && var d := CapDeadlines(flow.identity, input.now, input.sessionLifetime, input.confirmationLifetime).value;
               issued.input.sessionNotOnOrAfter == Some(d.sessionNotOnOrAfter)
               && issued.input.assertionLifetime == d.sessionLifetime
               && issued.input.confirmationLifetime == d.confirmationLifetime
  {
    hide IdP.IssuanceInstants, IdP.EnsureAuthnContext, CapDeadlines, Ordering.Dedup, Ordering.Sort, Authn.AsUri, Authn.FromUri;
    var plan := Preflight(proxy, flow, input).value;
    var nameId := callbacks.transform(flow.context.upstreamTracker.idpEntityId, flow.identity.nameId,
                                      flow.identity.attributes, input.downstreamSp).value;
    var attributes := callbacks.release(flow.identity.attributes, input.downstreamSp);
    var request := ForProxyReissue(input.downstreamSp, flow.context, plan.acs).value;
    var issue := IssueInputOf(flow, input, plan, request, nameId, attributes);
    assert IdP.SameKeyMaterial(request.encryptionCerts, input.downstreamSp.encryptionCerts).Ok?;
    assert IdP.EnsureAuthnContext(request.authnContext, plan.classRef).Ok?;
    assert IdP.PrepareResponse(proxy.idp, issue).Ok?;
    issued := IdP.PrepareResponse(proxy.idp, issue).value;
  }

  /** No downgrade: a relayed response advertises a class that meets what the downstream SP required when
      its request was bounced, and claims nothing the upstream did not attest. */
  lemma RelayNeverDowngrades(proxy: Instance, callbacks: Callbacks, deliver: IdP.Deliver, flow: UpstreamFlow, input: RelayInput,
                             startLogin: StartLogin -> Result<SP.LoginTracker, Error>, bounce: BounceInput)
    requires AttributeRelease in RelayToDownstream(proxy, callbacks, deliver, flow, input).trace
    requires var sealed := BounceToUpstream(proxy, startLogin, flow.context.transactionId, bounce);
             sealed.Ok? && sealed.value.1 == flow.context
    ensures var classRef := DownstreamClass(flow.identity, input.passthroughAuthnContext);
            && (bounce.downstream.authnContext.Some? ==>
                Authn.Verdict(bounce.downstream.authnContext.value, Authn.AsUri(classRef)) == Authn.Satisfied)
            && (classRef == Authn.Unspecified
                || (flow.identity.classRef.Some? && Authn.AsUri(classRef) == flow.identity.classRef.value))
  {
    CallbacksFollowTheChecks(proxy, callbacks, deliver, flow, input);
    PreflightMeetsTheRequirement(proxy, flow, input);
    BounceSealsTheDownstreamRequest(proxy, startLogin, flow.context.transactionId, bounce);
    hide RelayToDownstream, Preflight, BounceToUpstream, Authn.Verdict, Authn.AsUri, Authn.FromUri, FingerprintSet;
    if flow.identity.classRef.Some? { Authn.UriOfParsed(flow.identity.classRef.value); }
  }

  lemma PreflightMeetsTheRequirement(proxy: Instance, flow: UpstreamFlow, input: RelayInput)
    requires Preflight(proxy, flow, input).Ok?
    ensures IdP.EnsureAuthnContext(flow.context.requestedAuthnContext, DownstreamClass(flow.identity, input.passthroughAuthnContext)).Ok?
  {
    hide IdP.EnsureAuthnContext, IdP.IssuanceInstants, IdP.SameKeyMaterial, IdP.ResolveNameIdFormat, CapDeadlines, DownstreamClass,
         FindEndpoint;
  }

  // ---- Deadlines ----

  /** A relay's session, assertion and confirmation deadlines are not before `now` and not after any of
      the upstream deadlines, the confirmation does not outlast the assertion, and neither is cut shorter
      than what it was asked for and these bounds require. */
  lemma RelayDeadlinesAreCapped(identity: Identity, now: Instant, sessionLifetime: Duration, confirmationLifetime: Duration)
    requires CapDeadlines(identity, now, sessionLifetime, confirmationLifetime).Ok?
    ensures var d := CapDeadlines(identity, now, sessionLifetime, confirmationLifetime).value;
            && now <= now + d.confirmationLifetime <= now + d.sessionLifetime == d.sessionNotOnOrAfter
            && d.sessionNotOnOrAfter <= identity.notOnOrAfter
            && d.sessionNotOnOrAfter <= identity.subjectConfirmationNotOnOrAfter
            && (identity.sessionNotOnOrAfter.Some? ==> d.sessionNotOnOrAfter <= identity.sessionNotOnOrAfter.value)
            && d.sessionNotOnOrAfter <= now + sessionLifetime && d.confirmationLifetime <= confirmationLifetime
            && (sessionLifetime > 0 ==> now < d.sessionNotOnOrAfter)
            && (d.sessionNotOnOrAfter == now + sessionLifetime || d.sessionNotOnOrAfter == identity.notOnOrAfter
                || d.sessionNotOnOrAfter == identity.subjectConfirmationNotOnOrAfter
                || Some(d.sessionNotOnOrAfter) == identity.sessionNotOnOrAfter)
            && (d.confirmationLifetime == confirmationLifetime || d.confirmationLifetime == d.sessionLifetime)
  {
  }

  /** What a receiver reads from an emitted instant is never later, and less than a millisecond earlier. */
  lemma WireNeverLater(t: Instant)
    requires DateTime.FormatXsDateTime(t).Some?
    requires DateTime.ParseXsDateTime(DateTime.FormatXsDateTime(t).value).Some?
    ensures var read := DateTime.ParseXsDateTime(DateTime.FormatXsDateTime(t).value).value;
            t - NANOS_PER_MILLI < read <= t
  {
    DateTimeTheorems.PrintThenParse(t);
    hide DateTime.FormatXsDateTime, DateTime.ParseXsDateTime;
  }

  /** One relay in a chain of proxies: what it was given and what it put on the wire. */
  datatype Hop = Hop(identity: Identity, now: Instant, sessionLifetime: Duration, confirmationLifetime: Duration,
                     wire: IdP.WireInstants)

  predicate Relays(hop: Hop) {
    var capped := CapDeadlines(hop.identity, hop.now, hop.sessionLifetime, hop.confirmationLifetime);
    capped.Ok? && IdP.IssuanceInstants(hop.now, capped.value.sessionLifetime, capped.value.confirmationLifetime,
                                       hop.identity.authnInstant, Some(capped.value.sessionNotOnOrAfter)) == Ok(hop.wire)
  }

  /** `text` reads as an instant no later than `bound`, if it reads at all. */
  predicate ReadsBy(text: string, bound: Instant) {
    var read := DateTime.ParseXsDateTime(text); read.Some? ==> read.value <= bound
  }

  predicate WireBy(wire: IdP.WireInstants, bound: Instant) {
    && ReadsBy(wire.notOnOrAfter, bound) && ReadsBy(wire.confirmationNotOnOrAfter, bound)
    && wire.sessionNotOnOrAfter.Some? && ReadsBy(wire.sessionNotOnOrAfter.value, bound)
  }

  /** The next proxy validated the assertion the previous one emitted. */
  predicate HandsOver(a: Hop, b: Hop) {
    && DateTime.ParseXsDateTime(a.wire.notOnOrAfter) == Some(b.identity.notOnOrAfter)
    && DateTime.ParseXsDateTime(a.wire.confirmationNotOnOrAfter) == Some(b.identity.subjectConfirmationNotOnOrAfter)
    && a.wire.sessionNotOnOrAfter.Some? && b.identity.sessionNotOnOrAfter.Some?
    && DateTime.ParseXsDateTime(a.wire.sessionNotOnOrAfter.value) == b.identity.sessionNotOnOrAfter
  }

  lemma EmittedReadsBy(t: Option<Instant>, bound: Instant)
    requires IdP.Emit(t).Ok? && t.Some? && t.value <= bound
    ensures ReadsBy(IdP.Emit(t).value, bound)
  {
    hide DateTime.FormatXsDateTime, DateTime.ParseXsDateTime;
    var text := IdP.Emit(t).value;
    if DateTime.ParseXsDateTime(text).Some? { WireNeverLater(t.value); }
  }

  lemma HopStaysWithin(hop: Hop)
    requires Relays(hop)
    ensures WireBy(hop.wire, UpstreamExpiry(hop.identity))
  {
    hide ReadsBy, IdP.Emit;
    RelayDeadlinesAreCapped(hop.identity, hop.now, hop.sessionLifetime, hop.confirmationLifetime);
    var d := CapDeadlines(hop.identity, hop.now, hop.sessionLifetime, hop.confirmationLifetime).value;
    var bound := UpstreamExpiry(hop.identity);
    assert d.sessionNotOnOrAfter <= bound;
    hide CapDeadlines, UpstreamExpiry;
    EmittedReadsBy(AddDuration(hop.now, d.sessionLifetime), bound);
    EmittedReadsBy(AddDuration(hop.now, d.confirmationLifetime), bound);
    EmittedReadsBy(Some(d.sessionNotOnOrAfter), bound);
  }

  /** However many proxies a login passes through, no deadline any of them emits reads later than the
      earliest deadline of the first upstream identity. */
  lemma {:induction false} DeadlinesNeverGrow(hops: seq<Hop>, i: nat)
    requires i < |hops|
    requires forall k :: 0 <= k < |hops| ==> Relays(hops[k])
    requires forall k :: 0 <= k < |hops| - 1 ==> HandsOver(hops[k], hops[k + 1])
    ensures WireBy(hops[i].wire, UpstreamExpiry(hops[0].identity))
    ensures UpstreamExpiry(hops[i].identity) <= UpstreamExpiry(hops[0].identity)
  {
    hide Relays;
    HopStaysWithin(hops[i]);
    if i > 0 {
      DeadlinesNeverGrow(hops, i - 1);
      assert HandsOver(hops[i - 1], hops[i]);
      hide DateTime.ParseXsDateTime;
    }
  }
}
