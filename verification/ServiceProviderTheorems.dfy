/** Exactly which logins src/sp.rs accepts, as whom, and with which reservation: written over the login, the
    parsed response and the authenticated assertion, not over the steps that check them. */
module ServiceProviderTheorems {
  import opened Wrappers
  import opened Instants
  import opened Saml
  import opened Replay
  import opened ResponseValidation
  import opened ServiceProvider
  import Authn = AuthnContext
  import SignaturePositions

  // ---- Exactly which logins are accepted, and as whom ----

  function TrackedRequest(input: ConsumeInput): Option<string> {
    if input.tracker.Some? then Some(input.tracker.value.requestId) else None
  }

  /** The certificates a response may be authenticated with. */
  function Candidates(input: ConsumeInput): seq<Fingerprint> {
    if input.tracker.Some? then Intersection(input.idp.signingCerts, input.tracker.value.pinnedCerts) else input.idp.signingCerts
  }

  /** The destination is an ACS of this SP, and a tracked login was started with this IdP, for this ACS and
      binding, while one of the IdP's certificates was already in use. */
  predicate Correlated(config: SpConfig, input: ConsumeInput) {
    && (exists acs :: acs in config.acs && acs.url == input.expectedDestination)
    && (input.tracker.Some? ==>
          var t := input.tracker.value;
          && t.idpEntityId == input.idp.entityId && t.acs.url == input.expectedDestination && t.acs.binding == input.binding
          && exists f :: f in input.idp.signingCerts && f in t.pinnedCerts)
  }

  /** The response is this IdP's success for this destination: the answer to the tracked request, or, if the
      configuration allows it, to none. */
  ghost predicate Responds(config: SpConfig, input: ConsumeInput, response: Response) {
    && (response.destination == None || response.destination == Some(input.expectedDestination))
    && response.issuer == Some(input.idp.entityId) && response.isSuccess
    && response.inResponseTo == TrackedRequest(input) && (input.tracker.Some? || config.allowUnsolicited)
    && SignaturePositions.SignaturesPlaced(response.root, None) && response.hasAssertion
  }

  /** The confirmation proves the subject at this destination, now, for the tracked request: by possession
      of the assertion, or of a key the presenter holds. */
  predicate ProvesSubject(sc: SubjectConfirmation, input: ConsumeInput) {
    && sc.recipient == Some(input.expectedDestination)
    && sc.notOnOrAfter.Some? && input.now < sc.notOnOrAfter.value + input.clockSkew
    && (sc.notBefore.Some? ==> sc.notBefore.value <= input.now + input.clockSkew)
    && sc.inResponseTo == TrackedRequest(input)
    && (sc.confirmBy.Bearer?
        || (sc.confirmBy.HolderOfKey? && input.presenterKey.Some? && input.presenterKey.value in sc.keyInfoKeys))
  }

  /** The assertion is this IdP's, for this SP, now; some confirmation proves its subject; its first
      statement meets the class the login asked for and its session goes on; and its name is of the kind
      asked for and not scoped to another SP. */
  predicate Admits(config: SpConfig, input: ConsumeInput, a: Assertion) {
    && a.issuer == input.idp.entityId
    && (a.notBefore.Some? ==> a.notBefore.value <= input.now + input.clockSkew)
    && a.notOnOrAfter.Some? && input.now < a.notOnOrAfter.value + input.clockSkew
    && a.audienceRestrictions != []
    && (forall restriction :: restriction in a.audienceRestrictions ==> config.entityId in restriction)
    && (exists sc :: sc in a.confirmations && ProvesSubject(sc, input))
    && (input.tracker.Some? && input.tracker.value.requestedAuthnContext.Some? ==>
          && a.statements != [] && a.statements[0].classRef.Some?
          && Authn.Verdict(input.tracker.value.requestedAuthnContext.value, a.statements[0].classRef.value) == Authn.Satisfied)
    && (a.statements != [] && a.statements[0].sessionNotOnOrAfter.Some? ==>
          input.now < a.statements[0].sessionNotOnOrAfter.value + input.clockSkew)
    && (input.tracker.Some? && input.tracker.value.requestedNameIdFormat.Some? ==>
          a.nameId.format == input.tracker.value.requestedNameIdFormat.value)
    && (a.nameId.format.Persistent? && a.nameId.spNameQualifier.Some? ==> a.nameId.spNameQualifier.value == config.entityId)
  }

  /** The identity says what the assertion says: its subject, attributes, id, deadline and one-time-use
      mark, its first statement if it has one, and the deadline of a confirmation that proves its subject. */
  predicate Describes(identity: Identity, a: Assertion, input: ConsumeInput) {
    && identity.nameId == a.nameId && identity.attributes == a.attributes
    && identity.assertionId == a.id && identity.oneTimeUse == a.oneTimeUse && Some(identity.notOnOrAfter) == a.notOnOrAfter
    && (if a.statements == []
        then identity.authnInstant == a.issueInstant && identity.sessionNotOnOrAfter == None && identity.classRef == None
        else
          var first := a.statements[0];
          && identity.authnInstant == first.authnInstant && identity.sessionNotOnOrAfter == first.sessionNotOnOrAfter
          && identity.classRef == first.classRef)
    && (exists sc :: sc in a.confirmations && ProvesSubject(sc, input)
                     && sc.notOnOrAfter == Some(identity.subjectConfirmationNotOnOrAfter))
  }

  /** A login, tracked or not, is accepted exactly when it correlates, the message parses to a response to it,
      the XML layer authenticates an assertion with the candidates and the configured signature demands, and
      that assertion admits it; and then it yields the identity the assertion describes. */
  lemma LoginAcceptedExactly(config: SpConfig, xml: XmlLayer, input: ConsumeInput)
    ensures var response := xml.parse(input.message);
            Validate(config, xml, input).Ok? <==>
            && Correlated(config, input) && response.Ok? && Responds(config, input, response.value)
            && var a := xml.authenticate(response.value.document, Candidates(input), config.wantResponseSigned, config.wantAssertionsSigned);
            && a.Ok? && Admits(config, input, a.value)
            && AddDuration(input.now, input.clockSkew).Some? && SubDuration(input.now, input.clockSkew).Some?
    ensures Validate(config, xml, input).Ok? ==>
              var response := xml.parse(input.message).value;
              var a := xml.authenticate(response.document, Candidates(input), config.wantResponseSigned, config.wantAssertionsSigned);
              Describes(Validate(config, xml, input).value, a.value, input)
  {
    hide ValidateResponse, ValidateTrackerContext, ValidateAssertion, Correlated, Responds, Admits, Describes;
    TrackerContextExactly(config, input);
    var response := xml.parse(input.message);
    if response.Ok? {
      ResponseFitsExactly(config, xml, input, response.value);
      var a := xml.authenticate(response.value.document, Candidates(input), config.wantResponseSigned, config.wantAssertionsSigned);
      if a.Ok? {
        AdmitsExactly(config, input, a.value);
        if ValidateAssertion(a.value, ContextOf(config, input)).Ok? {
          DescribesExactly(config, input, a.value);
          IdentityDescribesAssertion(a.value, ContextOf(config, input));
        }
      }
    }
  }

  lemma TrackerContextExactly(config: SpConfig, input: ConsumeInput)
    ensures ValidateTrackerContext(config, input.tracker, input.idp, input.expectedDestination, input.binding).Ok? <==>
            Correlated(config, input)
  {
    var url := input.expectedDestination;
    assert (exists i :: 0 <= i < |config.acs| && config.acs[i].url == url) <==> (exists acs :: acs in config.acs && acs.url == url);
    if input.tracker.Some? { NonemptyIntersection(input.idp.signingCerts, input.tracker.value.pinnedCerts); }
  }

  lemma NonemptyIntersection(current: seq<Fingerprint>, pinned: seq<Fingerprint>)
    ensures Intersection(current, pinned) != [] <==> exists f :: f in current && f in pinned
  {
    var both := Intersection(current, pinned);
    if both != [] {
      var f := both[0];
      assert f in both && f in current && f in pinned;
    }
    if f :| f in current && f in pinned {
      assert f in both;
    }
  }

  lemma ConfirmsIsProof(config: SpConfig, input: ConsumeInput, sc: SubjectConfirmation)
    ensures Confirms(sc, ContextOf(config, input)) <==> ProvesSubject(sc, input)
  {
  }

  /** The two checks on the name, which the source makes after validation. */
  predicate NameFits(config: SpConfig, input: ConsumeInput, nameId: NameId) {
    && !(input.tracker.Some? && input.tracker.value.requestedNameIdFormat.Some?
         && nameId.format != input.tracker.value.requestedNameIdFormat.value)
    && EnsureSpQualifier(nameId, config.entityId).Ok?
  }

  lemma AdmitsExactly(config: SpConfig, input: ConsumeInput, a: Assertion)
    ensures ValidateAssertion(a, ContextOf(config, input)).Ok? && NameFits(config, input, a.nameId) <==>
            Admits(config, input, a) && AddDuration(input.now, input.clockSkew).Some? && SubDuration(input.now, input.clockSkew).Some?
  {
    var ctx := ContextOf(config, input);
    AssertionAcceptedExactly(a, ctx);
    forall sc ensures Confirms(sc, ctx) <==> ProvesSubject(sc, input) { ConfirmsIsProof(config, input, sc); }
    hide Confirms, ProvesSubject, ValidateAssertion, Authn.Verdict, AddDuration, SubDuration;
  }

  lemma DescribesExactly(config: SpConfig, input: ConsumeInput, a: Assertion)
    requires ValidateAssertion(a, ContextOf(config, input)).Ok?
    ensures Describes(ValidateAssertion(a, ContextOf(config, input)).value, a, input)
  {
    var ctx := ContextOf(config, input);
    var identity := ValidateAssertion(a, ctx).value;
    IdentityDescribesAssertion(a, ctx);
    hide ValidateAssertion, Confirms, ProvesSubject;
    var sc :| sc in a.confirmations && Confirms(sc, ctx) && sc.notOnOrAfter == Some(identity.subjectConfirmationNotOnOrAfter);
    ConfirmsIsProof(config, input, sc);
  }

  lemma ResponseFitsExactly(config: SpConfig, xml: XmlLayer, input: ConsumeInput, response: Response)
    ensures var r := ValidateResponse(xml, response, ContextOf(config, input));
            var a := xml.authenticate(response.document, Candidates(input), config.wantResponseSigned, config.wantAssertionsSigned);
            && (r.Ok? <==> Responds(config, input, response) && a.Ok? && ValidateAssertion(a.value, ContextOf(config, input)).Ok?)
            && (r.Ok? ==> r == ValidateAssertion(a.value, ContextOf(config, input)))
  {
    SignaturePositions.WalkDecidesPlacement(response.root, None);
    hide ValidateAssertion, SignaturePositions.WalkAccepts, SignaturePositions.SignaturesPlaced;
  }

  // ---- What a refusal says ----

  /** What must be wrong for a confirmation to be refused with this error. */
  predicate FaultsConfirmation(e: Error, sc: SubjectConfirmation, input: ConsumeInput) {
    match e
    case RecipientMismatch => sc.recipient != Some(input.expectedDestination)
    case Expired => sc.notOnOrAfter.None? || sc.notOnOrAfter.value + input.clockSkew <= input.now
    case NotYetValid => sc.notBefore.Some? && input.now + input.clockSkew < sc.notBefore.value
    case InResponseToMismatch => input.tracker.Some? && sc.inResponseTo != TrackedRequest(input)
    case UnsolicitedNotAllowed => input.tracker.None? && sc.inResponseTo.Some?
    case HolderOfKeyConfirmation =>
      sc.confirmBy.HolderOfKey? && (input.presenterKey.None? || input.presenterKey.value !in sc.keyInfoKeys)
    case _ => false
  }

  /** What must be wrong with the assertion for a login to be refused with this error. */
  predicate FaultsAssertion(e: Error, config: SpConfig, input: ConsumeInput, a: Assertion) {
    || (exists sc :: sc in a.confirmations && FaultsConfirmation(e, sc, input))
    || match e
       case IssuerMismatch => a.issuer != input.idp.entityId
       case NotYetValid => a.notBefore.Some? && input.now + input.clockSkew < a.notBefore.value
       case Expired =>
         || (a.notOnOrAfter.Some? && a.notOnOrAfter.value + input.clockSkew <= input.now)
         || (a.statements != [] && a.statements[0].sessionNotOnOrAfter.Some?
             && a.statements[0].sessionNotOnOrAfter.value + input.clockSkew <= input.now)
       case AudienceMismatch =>
         a.audienceRestrictions == [] || exists r :: r in a.audienceRestrictions && config.entityId !in r
       case XmlParse =>
         a.notOnOrAfter.None? || AddDuration(input.now, input.clockSkew).None? || SubDuration(input.now, input.clockSkew).None?
       case SignatureVerification => forall sc :: sc in a.confirmations ==> !sc.confirmBy.Bearer?
       case HolderOfKeyConfirmation => forall sc :: sc in a.confirmations ==> !sc.confirmBy.Bearer?
       case AuthnContextDowngrade =>
         && input.tracker.Some? && input.tracker.value.requestedAuthnContext.Some?
         && (a.statements == [] || a.statements[0].classRef.None?
             || Authn.Verdict(input.tracker.value.requestedAuthnContext.value, a.statements[0].classRef.value) != Authn.Satisfied)
       case UnsupportedNameIdPolicy =>
         && input.tracker.Some? && input.tracker.value.requestedNameIdFormat.Some?
         && a.nameId.format != input.tracker.value.requestedNameIdFormat.value
       case NameIdSpQualifierMismatch =>
         a.nameId.format.Persistent? && a.nameId.spNameQualifier.Some? && a.nameId.spNameQualifier.value != config.entityId
       case _ => false
  }

  /** What must be wrong with the login or its response. */
  ghost predicate FaultsResponse(e: Error, config: SpConfig, input: ConsumeInput, response: Response) {
    match e
    case InvalidConfiguration => forall acs :: acs in config.acs ==> acs.url != input.expectedDestination
    case IssuerMismatch =>
      response.issuer != Some(input.idp.entityId) || (input.tracker.Some? && input.tracker.value.idpEntityId != input.idp.entityId)
    case DestinationMismatch =>
      || (response.destination.Some? && response.destination.value != input.expectedDestination)
      || (input.tracker.Some? && input.tracker.value.acs.url != input.expectedDestination)
    case ResponseBindingMismatch => input.tracker.Some? && input.tracker.value.acs.binding != input.binding
    case IdpTrustRootMismatch => input.tracker.Some? && Candidates(input) == []
    case StatusNotSuccess => !response.isSuccess
    case InResponseToMismatch => input.tracker.Some? && response.inResponseTo != TrackedRequest(input)
    case UnsolicitedNotAllowed => input.tracker.None? && (response.inResponseTo.Some? || !config.allowUnsolicited)
    case SignatureVerification => !SignaturePositions.SignaturesPlaced(response.root, None)
    case XmlParse => !response.hasAssertion
    case _ => false
  }

  /** Unless the XML layer itself fails, a refused login is refused with one of these errors and no other, and
      what the error says is wrong, is. */
  lemma RefusalIsTrue(config: SpConfig, xml: XmlLayer, input: ConsumeInput)
    requires Validate(config, xml, input).Err? && xml.parse(input.message).Ok?
    requires xml.authenticate(xml.parse(input.message).value.document, Candidates(input), config.wantResponseSigned,
                              config.wantAssertionsSigned).Ok?
    ensures var e := Validate(config, xml, input).error; var response := xml.parse(input.message).value;
            var a := xml.authenticate(response.document, Candidates(input), config.wantResponseSigned, config.wantAssertionsSigned).value;
            FaultsResponse(e, config, input, response) || FaultsAssertion(e, config, input, a)
  {
    hide FaultsResponse, FaultsAssertion, ValidateTrackerContext, ValidateResponse, ValidateAssertion;
    var response := xml.parse(input.message).value;
    var a := xml.authenticate(response.document, Candidates(input), config.wantResponseSigned, config.wantAssertionsSigned).value;
    CorrelationRefusalIsTrue(config, input, response);
    ResponseRefusalIsTrue(config, xml, input, response);
    if ValidateAssertion(a, ContextOf(config, input)).Err? {
      AssertionRefusalIsTrue(config, input, a);
    } else {
      IdentityDescribesAssertion(a, ContextOf(config, input));
      NameRefusalIsTrue(config, input, a);
    }
  }

  lemma CorrelationRefusalIsTrue(config: SpConfig, input: ConsumeInput, response: Response)
    ensures var r := ValidateTrackerContext(config, input.tracker, input.idp, input.expectedDestination, input.binding);
            r.Err? ==> FaultsResponse(r.error, config, input, response)
  {
    hide SignaturePositions.SignaturesPlaced;
    var url := input.expectedDestination;
    assert (exists i :: 0 <= i < |config.acs| && config.acs[i].url == url) <==> (exists acs :: acs in config.acs && acs.url == url);
  }

  lemma ResponseRefusalIsTrue(config: SpConfig, xml: XmlLayer, input: ConsumeInput, response: Response)
    ensures var r := ValidateResponse(xml, response, ContextOf(config, input));
            var a := xml.authenticate(response.document, Candidates(input), config.wantResponseSigned, config.wantAssertionsSigned);
            a.Ok? && r.Err? ==>
              || FaultsResponse(r.error, config, input, response)
              || (ValidateAssertion(a.value, ContextOf(config, input)).Err?
                  && ValidateAssertion(a.value, ContextOf(config, input)).error == r.error)
    ensures var r := ValidateResponse(xml, response, ContextOf(config, input));
            var a := xml.authenticate(response.document, Candidates(input), config.wantResponseSigned, config.wantAssertionsSigned);
            r.Ok? ==> a.Ok? && r == ValidateAssertion(a.value, ContextOf(config, input))
  {
    hide ValidateAssertion, SignaturePositions.WalkAccepts, SignaturePositions.SignaturesPlaced;
    SignaturePositions.WalkDecidesPlacement(response.root, None);
  }

  lemma NameRefusalIsTrue(config: SpConfig, input: ConsumeInput, a: Assertion)
    ensures input.tracker.Some? && input.tracker.value.requestedNameIdFormat.Some?
            && a.nameId.format != input.tracker.value.requestedNameIdFormat.value ==>
              FaultsAssertion(UnsupportedNameIdPolicy, config, input, a)
    ensures EnsureSpQualifier(a.nameId, config.entityId).Err? ==>
              FaultsAssertion(EnsureSpQualifier(a.nameId, config.entityId).error, config, input, a)
  {
    hide FaultsConfirmation;
  }

  lemma AssertionRefusalIsTrue(config: SpConfig, input: ConsumeInput, a: Assertion)
    requires ValidateAssertion(a, ContextOf(config, input)).Err?
    ensures FaultsAssertion(ValidateAssertion(a, ContextOf(config, input)).error, config, input, a)
  {
    hide FindConfirmation, FaultsConfirmation, Confirms, CheckConditions, Authn.Verdict;
    var ctx := ContextOf(config, input);
    ConditionsRefusalIsTrue(config, input, a);
    if FindConfirmation(a, ctx).Ok? {
      ConfirmationIsCurrent(a, ctx);
    } else {
      ConfirmationRefusalIsTrue(config, input, a);
    }
  }

  lemma ConditionsRefusalIsTrue(config: SpConfig, input: ConsumeInput, a: Assertion)
    ensures var r := CheckConditions(a, ContextOf(config, input));
            if r.Ok? then SubDuration(input.now, input.clockSkew).Some? else FaultsAssertion(r.error, config, input, a)
  {
    hide FaultsConfirmation;
    assert forall i :: 0 <= i < |a.audienceRestrictions| ==> a.audienceRestrictions[i] in a.audienceRestrictions;
  }

  lemma ConfirmationRefusalIsTrue(config: SpConfig, input: ConsumeInput, a: Assertion)
    requires FindConfirmation(a, ContextOf(config, input)).Err?
    ensures var e := FindConfirmation(a, ContextOf(config, input)).error;
            || (exists sc :: sc in a.confirmations && FaultsConfirmation(e, sc, input))
            || (e.XmlParse? && (AddDuration(input.now, input.clockSkew).None? || SubDuration(input.now, input.clockSkew).None?))
            || ((e.SignatureVerification? || e.HolderOfKeyConfirmation?) && forall sc :: sc in a.confirmations ==> !sc.confirmBy.Bearer?)
  {
    var ctx := ContextOf(config, input);
    var bearer, keyed := WithMethod(a.confirmations, Bearer), WithMethod(a.confirmations, HolderOfKey);
    WithMethodFilters(a.confirmations, Bearer);
    WithMethodFilters(a.confirmations, HolderOfKey);
    var candidates := bearer + if ctx.presenterKey.Some? then keyed else [];
    if candidates != [] && ClockFits(ctx) {
      LastRefusalIsTrue(config, input, candidates, RecipientMismatch);
    }
    hide FirstConfirmed, WithMethod, FaultsConfirmation;
  }

  lemma {:induction false} LastRefusalIsTrue(config: SpConfig, input: ConsumeInput, candidates: seq<SubjectConfirmation>, lastError: Error)
    requires ClockFits(ContextOf(config, input)) && candidates != []
    ensures var ctx := ContextOf(config, input);
            var r := FirstConfirmed(candidates, ctx, SubDuration(ctx.now, ctx.clockSkew).value, AddDuration(ctx.now, ctx.clockSkew).value, lastError);
            r.Err? ==> exists sc :: sc in candidates && FaultsConfirmation(r.error, sc, input)
  {
    var ctx := ContextOf(config, input);
    var earliest, latest := SubDuration(ctx.now, ctx.clockSkew).value, AddDuration(ctx.now, ctx.clockSkew).value;
    ConfirmationFault(config, input, candidates[0]);
    hide CheckConfirmation, FaultsConfirmation;
    match CheckConfirmation(candidates[0], ctx, earliest, latest)
    case Ok(_) =>
    case Err(error) =>
      if |candidates| > 1 { LastRefusalIsTrue(config, input, candidates[1..], error); }
  }

  lemma ConfirmationFault(config: SpConfig, input: ConsumeInput, sc: SubjectConfirmation)
    requires ClockFits(ContextOf(config, input))
    ensures var ctx := ContextOf(config, input);
            var r := CheckConfirmation(sc, ctx, SubDuration(ctx.now, ctx.clockSkew).value, AddDuration(ctx.now, ctx.clockSkew).value);
            r.Err? ==> FaultsConfirmation(r.error, sc, input)
  {
  }

  // ---- The reservation ----

  /** The mode, or the proxy's transaction, has the cache asked. */
  predicate ReservationDue(input: ConsumeInput, oneTimeUse: bool, hasCache: bool, transaction: Option<ReplayEntry>) {
    hasCache && (input.mode.All? || (input.mode.OneTimeUseOnly? && oneTimeUse) || transaction.Some?)
  }

  /** A validated login goes on to the cache, if one is due, exactly unless its one-time use cannot be
      enforced or its tombstone cannot be dated; it then asks for the proxy's transaction, or else for the
      assertion until the last instant at which it validates. */
  lemma PlansExactly(config: SpConfig, xml: XmlLayer, input: ConsumeInput, hasCache: bool, transaction: Option<ReplayEntry>)
    requires Validate(config, xml, input).Ok?
    ensures var identity := Validate(config, xml, input).value;
            var due := ReservationDue(input, identity.oneTimeUse, hasCache, transaction);
            var plan := Plan(config, xml, input, hasCache, transaction);
            && (plan.Ok? <==>
                && (identity.oneTimeUse ==> hasCache && !input.mode.Off?)
                && (due ==> identity.notOnOrAfter + input.clockSkew < END_OF_TIME))
            && (plan.Ok? ==>
                plan.value == (identity,
                               if !due then None
                               else if transaction.Some? then transaction
                               else Some(ReplayEntry(Key(AssertionId, identity.assertionId), identity.notOnOrAfter + input.clockSkew))))
  {
    hide Validate;
  }
}
