/** Exactly when src/proxy.rs bounces, consumes and relays, written over what it is given and what it sealed,
    not over the steps that check it. */
module ProxyConditions {
  import opened Wrappers
  import opened Instants
  import opened Saml
  import opened Replay
  import opened ResponseValidation
  import opened Proxy
  import opened ProxyTheorems
  import Authn = AuthnContext
  import DateTime
  import Ordering
  import SP = ServiceProvider
  import SpTheorems = ServiceProviderTheorems
  import IdP = IdentityProvider
  import IdpTheorems = IdentityProviderTheorems

  // ---- Bounce ----

  /** The login asked for upstream: each policy is what the downstream asked for where its switch is set,
      and nothing where it is not. */
  predicate AsksUpstream(input: BounceInput, login: StartLogin) {
    && login.binding == input.upstreamBinding
    && (if input.propagateRequestFlags
        then login.forceAuthn == input.downstreamForceAuthn && login.isPassive == input.downstreamIsPassive
        else !login.forceAuthn && !login.isPassive)
    && (if input.propagateNameIdPolicy then login.requestedNameIdFormat == input.downstream.nameIdFormat
        else login.requestedNameIdFormat == None)
    && (if input.propagateAuthnContext then login.requestedAuthnContext == input.downstream.authnContext
        else login.requestedAuthnContext == None)
  }

  /** The payload records the downstream request whatever the switches, the upstream login's tracker, the
      upstream certificates as an ordered set, and a ten-minute life. */
  ghost predicate Seals(input: BounceInput, tracker: SP.LoginTracker, transactionId: string, payload: Payload) {
    && payload.downstreamRequestId == input.downstream.requestId
    && payload.downstreamSpEntityId == input.downstream.spEntityId
    && payload.downstreamAcs == input.downstream.acs
    && payload.downstreamRelayState == input.downstream.relayState
    && payload.requestedAuthnContext == input.downstream.authnContext
    && payload.requestedNameIdFormat == input.downstream.nameIdFormat
    && payload.upstreamTracker == tracker
    && payload.issuedAt == input.now && payload.expiresAt == input.now + 600 * NANOS_PER_SEC
    && payload.transactionId == transactionId
    && payload.downstreamEncryptionCerts == input.downstream.encryptionCerts
    && Ordering.StrictlyOrderedBy(payload.upstreamSigningCerts, Ordering.Identity)
    && Ordering.Elements(payload.upstreamSigningCerts) == Ordering.Elements(input.upstreamIdp.signingCerts)
  }

  /** Whatever starts the login, a bounce succeeds exactly when it is not a signed Redirect, the login it asks
      for starts, its context can expire, and the payload that seals all this encodes; it then yields that
      encoding of that payload. */
  lemma BouncesExactly(proxy: Instance, startLogin: StartLogin -> Result<SP.LoginTracker, Error>, transactionId: string,
                       input: BounceInput) returns (login: StartLogin)
    ensures AsksUpstream(input, login)
    ensures BounceToUpstream(proxy, startLogin, transactionId, input).Ok? <==>
            && !(input.upstreamBinding == HttpRedirect && proxy.signsAuthnRequests)
            && startLogin(login).Ok? && AddDuration(input.now, 600 * NANOS_PER_SEC).Some?
            && exists payload :: Seals(input, startLogin(login).value, transactionId, payload) && proxy.codec.encode(payload).Ok?
    ensures BounceToUpstream(proxy, startLogin, transactionId, input).Ok? ==>
              var (blob, payload) := BounceToUpstream(proxy, startLogin, transactionId, input).value;
              && startLogin(login).Ok? && Seals(input, startLogin(login).value, transactionId, payload)
              && proxy.codec.encode(payload) == Ok(blob)
  {
    hide PayloadOf, Seals;
    login := UpstreamLogin(input);
    var started, expiry := startLogin(login), AddDuration(input.now, 600 * NANOS_PER_SEC);
    if started.Ok? && expiry.Some? {
      forall payload ensures Seals(input, started.value, transactionId, payload) <==>
                             payload == PayloadOf(input, started.value, transactionId, expiry.value)
      {
        OnlyThisPayloadSeals(input, started.value, transactionId, expiry.value, payload);
      }
    }
  }

  lemma OnlyThisPayloadSeals(input: BounceInput, tracker: SP.LoginTracker, transactionId: string, expiresAt: Instant, payload: Payload)
    requires expiresAt == input.now + 600 * NANOS_PER_SEC
    ensures Seals(input, tracker, transactionId, payload) <==> payload == PayloadOf(input, tracker, transactionId, expiresAt)
  {
    hide FingerprintSet, Ordering.Elements, Ordering.StrictlyOrderedBy;
    FingerprintsOrdered(input.upstreamIdp.signingCerts);
    if Seals(input, tracker, transactionId, payload) {
      Ordering.StrictOrderIsUnique(payload.upstreamSigningCerts, FingerprintSet(input.upstreamIdp.signingCerts), Ordering.Identity);
    }
  }

  lemma FingerprintsOrdered(certs: seq<Fingerprint>)
    ensures Ordering.StrictlyOrderedBy(FingerprintSet(certs), Ordering.Identity)
    ensures Ordering.Elements(FingerprintSet(certs)) == Ordering.Elements(certs)
  {
    Ordering.SortByOrdersAndPermutes(certs, Ordering.Identity);
    Ordering.DedupOfSorted(Ordering.Sort(certs));
    hide Ordering.Dedup, Ordering.SortBy;
  }

  // ---- Consume ----

  /** The login the proxy's own SP role is asked to consume: the caller's response, held against the sealed
      tracker, with every assertion reserved. */
  function SealedLogin(input: UpstreamInput, context: Payload): SP.ConsumeInput {
    SP.ConsumeInput(input.upstreamIdp, input.message, input.binding, Some(context.upstreamTracker), input.expectedDestination,
                    input.now, input.clockSkew, All, input.presenterKey)
  }

  /** The token decodes to a context that lives at most ten minutes, is still alive, and shares a signing
      certificate with the IdP. */
  predicate ContextStands(proxy: Instance, input: UpstreamInput) {
    var decoded := proxy.codec.decode(input.relayState);
    && decoded.Ok?
    && decoded.value.issuedAt <= decoded.value.expiresAt <= decoded.value.issuedAt + 600 * NANOS_PER_SEC
    && input.now < decoded.value.expiresAt
    && exists f :: f in input.upstreamIdp.signingCerts && f in decoded.value.upstreamSigningCerts
  }

  /** An upstream response yields a flow, if its transaction is unused, exactly when its context stands and
      its login validates with a dated tombstone; the flow carries that context and identity and is this
      proxy's, and what it reserves is the transaction until the context expires. */
  lemma UpstreamAcceptedExactly(proxy: Instance, xml: XmlLayer, input: UpstreamInput)
    ensures PlanUpstream(proxy, xml, input).Ok? <==>
            && ContextStands(proxy, input)
            && var validated := SP.Validate(proxy.sp, xml, SealedLogin(input, proxy.codec.decode(input.relayState).value));
            && validated.Ok? && validated.value.notOnOrAfter + input.clockSkew < SP.END_OF_TIME
    ensures PlanUpstream(proxy, xml, input).Ok? ==>
              var context := proxy.codec.decode(input.relayState).value;
              PlanUpstream(proxy, xml, input).value ==
              (UpstreamFlow(context, SP.Validate(proxy.sp, xml, SealedLogin(input, context)).value, proxy.instance),
               ReplayEntry(Key(ProxyTransaction, context.transactionId), context.expiresAt))
  {
    hide SP.Validate, SP.Plan;
    var decoded := proxy.codec.decode(input.relayState);
    if decoded.Ok? {
      var login := SpInput(input, decoded.value);
      SpTheorems.NonemptyIntersection(input.upstreamIdp.signingCerts, decoded.value.upstreamSigningCerts);
      if SP.Validate(proxy.sp, xml, login).Ok? {
        SpTheorems.PlansExactly(proxy.sp, xml, login, true, Some(Transaction(decoded.value)));
      } else {
        RefusedIsNotPlanned(proxy.sp, xml, login, Some(Transaction(decoded.value)));
      }
    }
  }

  lemma RefusedIsNotPlanned(config: SP.SpConfig, xml: XmlLayer, login: SP.ConsumeInput, transaction: Option<ReplayEntry>)
    requires SP.Validate(config, xml, login).Err?
    ensures SP.Plan(config, xml, login, true, transaction).Err?
  {
    hide SP.Validate;
  }

  // ---- Relay ----

  /** The URI of the class a relay advertises. */
  function AdvertisedUri(identity: Identity, passthrough: bool): string {
    if passthrough && identity.classRef.Some? then identity.classRef.value else Authn.AsUri(Authn.Unspecified)
  }

  /** This proxy's flow, for the SP it was sealed for, with the keys it was sealed with if they matter, at a
      registered POST endpoint; the advertised class meets the sealed requirement; every upstream deadline is
      ahead; the instants can be written; and the sealed format, if one was asked for, is supported. */
  ghost predicate Relayable(proxy: Instance, flow: UpstreamFlow, input: RelayInput) {
    var context, identity := flow.context, flow.identity;
    && flow.instance == proxy.instance
    && (proxy.idp.encryptWhenPossible ==>
          Ordering.SameMembers(context.downstreamEncryptionCerts, input.downstreamSp.encryptionCerts))
    && context.downstreamSpEntityId == input.downstreamSp.entityId
    && context.downstreamAcs.binding == HttpPost
    && (exists e :: e in input.downstreamSp.assertionConsumerServices && SameEndpoint(e, context.downstreamAcs))
    && (context.requestedAuthnContext.Some? ==>
          Authn.Verdict(context.requestedAuthnContext.value, AdvertisedUri(identity, input.passthroughAuthnContext)) == Authn.Satisfied)
    && input.now < identity.notOnOrAfter && input.now < identity.subjectConfirmationNotOnOrAfter
    && (identity.sessionNotOnOrAfter.Some? ==> input.now < identity.sessionNotOnOrAfter.value)
    && input.now + input.sessionLifetime < SP.END_OF_TIME
    && 60 * NANOS_PER_SEC <= input.now && 0 <= identity.authnInstant < IdpTheorems.EndOfWriting()
    && (input.now + input.sessionLifetime < IdpTheorems.EndOfWriting() || identity.notOnOrAfter < IdpTheorems.EndOfWriting()
        || identity.subjectConfirmationNotOnOrAfter < IdpTheorems.EndOfWriting()
        || (identity.sessionNotOnOrAfter.Some? && identity.sessionNotOnOrAfter.value < IdpTheorems.EndOfWriting()))
    && (context.requestedNameIdFormat.Some? ==> context.requestedNameIdFormat.value in proxy.idp.supportedNameIdFormats)
  }

  /** A callback runs exactly when the relay is relayable, the NameID transform first; attribute release runs
      exactly when the transform then returns a NameID of the negotiated format that is not scoped to another
      SP; and nothing is returned unless it ran. */
  lemma RelaysExactly(proxy: Instance, callbacks: Callbacks, deliver: IdP.Deliver, flow: UpstreamFlow, input: RelayInput)
    ensures var relayed := RelayToDownstream(proxy, callbacks, deliver, flow, input);
            var nameId := callbacks.transform(flow.context.upstreamTracker.idpEntityId, flow.identity.nameId,
                                              flow.identity.attributes, input.downstreamSp);
            && (relayed.trace == [] || relayed.trace == [NameIdTransform] || relayed.trace == [NameIdTransform, AttributeRelease])
            && (relayed.trace != [] <==> Relayable(proxy, flow, input))
            && (AttributeRelease in relayed.trace <==>
                && Relayable(proxy, flow, input) && nameId.Ok?
                && nameId.value.format == IdpTheorems.NegotiatedFormat(proxy.idp, flow.context.requestedNameIdFormat)
                && (nameId.value.format.Persistent? && nameId.value.spNameQualifier.Some? ==>
                      nameId.value.spNameQualifier.value == input.downstreamSp.entityId))
            && (relayed.result.Ok? ==> AttributeRelease in relayed.trace)
  {
    hide Preflight, Relayable;
    CallbacksFollowTheChecks(proxy, callbacks, deliver, flow, input);
    PreflightPassesExactly(proxy, flow, input);
  }

  /** What must be wrong with a relay for it to be refused with this error before any callback. */
  ghost predicate FaultsRelay(e: Error, proxy: Instance, flow: UpstreamFlow, input: RelayInput) {
    var context, identity := flow.context, flow.identity;
    match e
    case ForeignProxyFlow => flow.instance != proxy.instance
    case SpKeyMaterialMismatch =>
      && proxy.idp.encryptWhenPossible
      && !Ordering.SameMembers(context.downstreamEncryptionCerts, input.downstreamSp.encryptionCerts)
    case IssuerMismatch => context.downstreamSpEntityId != input.downstreamSp.entityId
    case ArtifactTransactionRequired => context.downstreamAcs.binding == HttpArtifact
    case UnregisteredAcs =>
      forall e :: e in input.downstreamSp.assertionConsumerServices ==> !SameEndpoint(e, context.downstreamAcs)
    case AuthnContextDowngrade =>
      && context.requestedAuthnContext.Some?
      && Authn.Verdict(context.requestedAuthnContext.value, AdvertisedUri(identity, input.passthroughAuthnContext)) != Authn.Satisfied
    case Expired => UpstreamExpiry(identity) <= input.now
    case InvalidConfiguration =>
      || context.downstreamAcs.binding !in {HttpPost, HttpArtifact} || SP.END_OF_TIME <= input.now + input.sessionLifetime
      || !DeadlinesStand(identity, input)
    case XmlEmit => !DeadlinesStand(identity, input)
    case UnsupportedNameIdPolicy =>
      context.requestedNameIdFormat.Some? && context.requestedNameIdFormat.value !in proxy.idp.supportedNameIdFormats
    case _ => false
  }

  /** A relay refused before any callback is refused with one of these errors and no other, and what the error
      says is wrong, is. */
  lemma RelayRefusalIsTrue(proxy: Instance, callbacks: Callbacks, deliver: IdP.Deliver, flow: UpstreamFlow, input: RelayInput)
    requires RelayToDownstream(proxy, callbacks, deliver, flow, input).trace == []
    ensures var relayed := RelayToDownstream(proxy, callbacks, deliver, flow, input);
            relayed.result.Err? && FaultsRelay(relayed.result.error, proxy, flow, input)
  {
    CallbacksFollowTheChecks(proxy, callbacks, deliver, flow, input);
    PreflightRefusalIsTrue(proxy, flow, input);
    hide Preflight, FaultsRelay, RelayToDownstream;
  }

  lemma PreflightRefusalIsTrue(proxy: Instance, flow: UpstreamFlow, input: RelayInput)
    ensures Preflight(proxy, flow, input).Err? ==> FaultsRelay(Preflight(proxy, flow, input).error, proxy, flow, input)
  {
    hide IdP.SameKeyMaterial, IdP.IssuanceInstants, IdP.EnsureAuthnContext, CapDeadlines, DownstreamClass, FindEndpoint, FaultsRelay;
    PolicyFaults(proxy, flow, input);
    BindingFaults(proxy, flow, input);
    DeadlineFaults(proxy, flow, input);
  }

  lemma PolicyFaults(proxy: Instance, flow: UpstreamFlow, input: RelayInput)
    ensures var keys := IdP.SameKeyMaterial(flow.context.downstreamEncryptionCerts, input.downstreamSp.encryptionCerts);
            proxy.idp.encryptWhenPossible && keys.Err? ==> FaultsRelay(keys.error, proxy, flow, input)
    ensures var authn := IdP.EnsureAuthnContext(flow.context.requestedAuthnContext, DownstreamClass(flow.identity, input.passthroughAuthnContext));
            authn.Err? ==> FaultsRelay(authn.error, proxy, flow, input)
    ensures var format := IdP.ResolveNameIdFormat(proxy.idp, flow.context.requestedNameIdFormat);
            format.Err? ==> FaultsRelay(format.error, proxy, flow, input)
  {
    IdP.KeyMaterialComparesAsSets(flow.context.downstreamEncryptionCerts, input.downstreamSp.encryptionCerts);
    ClassMeetsExactly(flow, input.passthroughAuthnContext);
    hide Ordering.Dedup, Ordering.Sort, Ordering.SameMembers, Authn.Verdict, Authn.AsUri, Authn.FromUri, DeadlinesStand,
         DownstreamClass, AdvertisedUri;
  }

  lemma BindingFaults(proxy: Instance, flow: UpstreamFlow, input: RelayInput)
    ensures flow.instance != proxy.instance ==> FaultsRelay(ForeignProxyFlow, proxy, flow, input)
    ensures flow.context.downstreamSpEntityId != input.downstreamSp.entityId ==> FaultsRelay(IssuerMismatch, proxy, flow, input)
    ensures NarrowEndpoint(flow.context.downstreamAcs).Err? ==>
              FaultsRelay(NarrowEndpoint(flow.context.downstreamAcs).error, proxy, flow, input)
    ensures flow.context.downstreamAcs.binding == HttpArtifact ==> FaultsRelay(ArtifactTransactionRequired, proxy, flow, input)
    ensures FindEndpoint(input.downstreamSp.assertionConsumerServices, flow.context.downstreamAcs).None? ==>
              FaultsRelay(UnregisteredAcs, proxy, flow, input)
  {
    RegisteredExactly(input.downstreamSp.assertionConsumerServices, flow.context.downstreamAcs);
    hide DeadlinesStand, Ordering.SameMembers, Authn.Verdict, AdvertisedUri, FindEndpoint;
  }

  lemma DeadlineFaults(proxy: Instance, flow: UpstreamFlow, input: RelayInput)
    ensures var deadlines := CapDeadlines(flow.identity, input.now, input.sessionLifetime, input.confirmationLifetime);
            if deadlines.Err? then FaultsRelay(deadlines.error, proxy, flow, input)
            else
              var r := IdP.IssuanceInstants(input.now, deadlines.value.sessionLifetime, deadlines.value.confirmationLifetime,
                                            flow.identity.authnInstant, Some(deadlines.value.sessionNotOnOrAfter));
              r.Err? ==> FaultsRelay(r.error, proxy, flow, input)
  {
    hide Authn.Verdict, AdvertisedUri, Ordering.SameMembers, DateTime.FormatXsDateTime;
  }

  lemma PreflightPassesExactly(proxy: Instance, flow: UpstreamFlow, input: RelayInput)
    ensures Preflight(proxy, flow, input).Ok? <==> Relayable(proxy, flow, input)
    ensures Preflight(proxy, flow, input).Ok? ==>
              Preflight(proxy, flow, input).value.format == IdpTheorems.NegotiatedFormat(proxy.idp, flow.context.requestedNameIdFormat)
  {
    hide IdP.SameKeyMaterial, IdP.EnsureAuthnContext, CapDeadlines, IdP.IssuanceInstants, Ordering.SameMembers, Authn.Verdict,
         Authn.AsUri, Authn.FromUri, DownstreamClass, AdvertisedUri, FindEndpoint, IdpTheorems.EndOfWriting;
    IdP.KeyMaterialComparesAsSets(flow.context.downstreamEncryptionCerts, input.downstreamSp.encryptionCerts);
    ClassMeetsExactly(flow, input.passthroughAuthnContext);
    DeadlinesStandExactly(flow.identity, input);
    RegisteredExactly(input.downstreamSp.assertionConsumerServices, flow.context.downstreamAcs);
  }

  lemma RegisteredExactly(endpoints: seq<Endpoint>, acs: Endpoint)
    ensures FindEndpoint(endpoints, acs).Some? <==> exists e :: e in endpoints && SameEndpoint(e, acs)
  {
  }

  lemma ClassMeetsExactly(flow: UpstreamFlow, passthrough: bool)
    ensures var requested := flow.context.requestedAuthnContext;
            IdP.EnsureAuthnContext(requested, DownstreamClass(flow.identity, passthrough)).Ok? <==>
            (requested.Some? ==> Authn.Verdict(requested.value, AdvertisedUri(flow.identity, passthrough)) == Authn.Satisfied)
  {
    hide Authn.Verdict, Authn.AsUri, Authn.FromUri;
    if flow.identity.classRef.Some? { Authn.UriOfParsed(flow.identity.classRef.value); }
  }

  /** The deadlines can be capped and all instants written. */
  predicate DeadlinesStand(identity: Identity, input: RelayInput) {
    var deadlines := CapDeadlines(identity, input.now, input.sessionLifetime, input.confirmationLifetime);
    deadlines.Ok? && IdP.IssuanceInstants(input.now, deadlines.value.sessionLifetime, deadlines.value.confirmationLifetime,
                                          identity.authnInstant, Some(deadlines.value.sessionNotOnOrAfter)).Ok?
  }

  lemma DeadlinesStandExactly(identity: Identity, input: RelayInput)
    ensures DeadlinesStand(identity, input) <==>
            && input.now < identity.notOnOrAfter && input.now < identity.subjectConfirmationNotOnOrAfter
            && (identity.sessionNotOnOrAfter.Some? ==> input.now < identity.sessionNotOnOrAfter.value)
            && input.now + input.sessionLifetime < SP.END_OF_TIME
            && 60 * NANOS_PER_SEC <= input.now && 0 <= identity.authnInstant < IdpTheorems.EndOfWriting()
            && (input.now + input.sessionLifetime < IdpTheorems.EndOfWriting() || identity.notOnOrAfter < IdpTheorems.EndOfWriting()
                || identity.subjectConfirmationNotOnOrAfter < IdpTheorems.EndOfWriting()
                || (identity.sessionNotOnOrAfter.Some? && identity.sessionNotOnOrAfter.value < IdpTheorems.EndOfWriting()))
  {
    hide IdP.IssuanceInstants, IdpTheorems.EndOfWriting;
    var deadlines := CapDeadlines(identity, input.now, input.sessionLifetime, input.confirmationLifetime);
    if deadlines.Ok? {
      var d := deadlines.value;
      RelayDeadlinesAreCapped(identity, input.now, input.sessionLifetime, input.confirmationLifetime);
      IdpTheorems.InstantsWriteExactly(input.now, d.sessionLifetime, d.confirmationLifetime, identity.authnInstant,
                                       Some(d.sessionNotOnOrAfter));
    }
  }
}
