/** Validation of an authenticated Response (src/response/validate.rs). Signature verification, decryption
    and XML parsing are one uninterpreted function of the message and the candidate certificates. */
module ResponseValidation {
  import opened Wrappers
  import opened Instants
  import opened Saml
  import Authn = AuthnContext
  import Schema
  import SignaturePositions

  datatype ConfirmationMethod = Bearer | HolderOfKey | OtherMethod

  datatype SubjectConfirmation = SubjectConfirmation(
    confirmBy: ConfirmationMethod, recipient: Option<string>, notBefore: Option<Instant>,
    notOnOrAfter: Option<Instant>, inResponseTo: Option<string>, keyInfoKeys: seq<nat>)

  datatype AuthnStatement = AuthnStatement(
    sessionIndex: Option<string>, authnInstant: Instant, sessionNotOnOrAfter: Option<Instant>, classRef: Option<string>)

  datatype Assertion = Assertion(
    id: string, issuer: string, issueInstant: Instant, nameId: NameId, confirmations: seq<SubjectConfirmation>,
    notBefore: Option<Instant>, notOnOrAfter: Option<Instant>, audienceRestrictions: seq<seq<string>>,
    oneTimeUse: bool, statements: seq<AuthnStatement>, attributes: seq<Attribute>)

  /** A parsed `<samlp:Response>` and the element tree it was parsed from; `document` stands for the XML
      its signatures are checked against. */
  datatype Response = Response(
    destination: Option<string>, issuer: Option<string>, isSuccess: bool, inResponseTo: Option<string>,
    root: Schema.Element, hasAssertion: bool, document: string)

  datatype Identity = Identity(
    nameId: NameId, authnInstant: Instant, sessionNotOnOrAfter: Option<Instant>,
    subjectConfirmationNotOnOrAfter: Instant, classRef: Option<string>, attributes: seq<Attribute>,
    assertionId: string, notOnOrAfter: Instant, oneTimeUse: bool)

  /** The XML layer. `authenticate` gets the document, the candidate certificates and the two
      "want signed" switches, and yields the assertion the accepted signatures cover. */
  datatype XmlLayer = XmlLayer(
    parse: string -> Result<Response, Error>,
    authenticate: (string, seq<Fingerprint>, bool, bool) -> Result<Assertion, Error>)

  datatype Context = Context(
    idp: IdpDescriptor, spEntityId: string, expectedDestination: string, trackerRequestId: Option<string>,
    allowUnsolicited: bool, wantResponseSigned: bool, wantAssertionsSigned: bool, now: Instant, clockSkew: Duration,
    requestedAuthnContext: Option<Authn.RequestedAuthnContext>, presenterKey: Option<nat>)

  /** The InResponseTo rule, for the response and again for its subject confirmation. */
  function CheckInResponseTo(tracked: Option<string>, got: Option<string>, allowUnsolicited: bool): Result<(), Error> {
    match (tracked, got)
    case (Some(a), Some(b)) => if a == b then Ok(()) else Err(InResponseToMismatch)
    case (Some(_), None) => Err(InResponseToMismatch)
    case (None, None) => if allowUnsolicited then Ok(()) else Err(UnsolicitedNotAllowed)
    case (None, Some(_)) => Err(UnsolicitedNotAllowed)
  }

  function WithMethod(confirmations: seq<SubjectConfirmation>, m: ConfirmationMethod): (r: seq<SubjectConfirmation>)
    ensures forall sc :: sc in r ==> sc in confirmations && sc.confirmBy == m
  {
    if confirmations == [] then []
    else (if confirmations[0].confirmBy == m then [confirmations[0]] else []) + WithMethod(confirmations[1..], m)
  }

  function CheckConfirmation(sc: SubjectConfirmation, ctx: Context, earliest: Instant, latest: Instant): Result<(), Error> {
    if sc.recipient != Some(ctx.expectedDestination) then Err(RecipientMismatch)
    else if sc.notOnOrAfter.None? || sc.notOnOrAfter.value <= earliest then Err(Expired)
    else if sc.notBefore.Some? && sc.notBefore.value > latest then Err(NotYetValid)
    else
      var _ :- CheckInResponseTo(ctx.trackerRequestId, sc.inResponseTo, true);
      if sc.confirmBy.HolderOfKey? && (ctx.presenterKey.None? || ctx.presenterKey.value !in sc.keyInfoKeys)
      then Err(HolderOfKeyConfirmation)
      else Ok(())
  }

  /** The first candidate that meets all its constraints, or the last candidate's error. */
  function FirstConfirmed(candidates: seq<SubjectConfirmation>, ctx: Context, earliest: Instant, latest: Instant, lastError: Error):
      (r: Result<SubjectConfirmation, Error>)
    ensures r.Ok? ==> r.value in candidates && CheckConfirmation(r.value, ctx, earliest, latest).Ok?
  {
    if candidates == [] then Err(lastError)
    else match CheckConfirmation(candidates[0], ctx, earliest, latest)
      case Ok(_) => Ok(candidates[0])
      case Err(error) => FirstConfirmed(candidates[1..], ctx, earliest, latest, error)
  }

  /** Bearer confirmations come before holder-of-key ones, which count only with a presenter key. */
  function FindConfirmation(assertion: Assertion, ctx: Context): Result<SubjectConfirmation, Error> {
    var keyed := WithMethod(assertion.confirmations, HolderOfKey);
    var candidates := WithMethod(assertion.confirmations, Bearer) + if ctx.presenterKey.Some? then keyed else [];
    if candidates == [] then
      Err(if keyed != [] && ctx.presenterKey.None? then HolderOfKeyConfirmation else SignatureVerification)
    else
      match (SubDuration(ctx.now, ctx.clockSkew), AddDuration(ctx.now, ctx.clockSkew))
      case (Some(earliest), Some(latest)) => FirstConfirmed(candidates, ctx, earliest, latest, RecipientMismatch)
      case _ => Err(XmlParse)
  }

  function CheckConditions(assertion: Assertion, ctx: Context): Result<Instant, Error> {
    if assertion.notBefore.Some? && AddDuration(ctx.now, ctx.clockSkew).None? then Err(XmlParse)
    else if assertion.notBefore.Some? && assertion.notBefore.value > AddDuration(ctx.now, ctx.clockSkew).value then Err(NotYetValid)
    else if assertion.notOnOrAfter.None? || SubDuration(ctx.now, ctx.clockSkew).None? then Err(XmlParse)
    else if assertion.notOnOrAfter.value <= SubDuration(ctx.now, ctx.clockSkew).value then Err(Expired)
    else if assertion.audienceRestrictions == []
            || exists i :: 0 <= i < |assertion.audienceRestrictions| && ctx.spEntityId !in assertion.audienceRestrictions[i]
    then Err(AudienceMismatch)
    else Ok(assertion.notOnOrAfter.value)
  }

  function CheckAuthnContext(requested: Option<Authn.RequestedAuthnContext>, statements: seq<AuthnStatement>): Result<(), Error> {
    match requested
    case None => Ok(())
    case Some(req) =>
      if statements == [] || statements[0].classRef.None? then Err(AuthnContextDowngrade)
      else if Authn.Verdict(req, statements[0].classRef.value).Satisfied? then Ok(())
      else Err(AuthnContextDowngrade)
  }

  function ValidateResponse(xml: XmlLayer, response: Response, ctx: Context): Result<Identity, Error> {
    if response.destination.Some? && response.destination.value != ctx.expectedDestination then Err(DestinationMismatch)
    else if response.issuer != Some(ctx.idp.entityId) then Err(IssuerMismatch)
    else if !response.isSuccess then Err(StatusNotSuccess)
    else
      var _ :- CheckInResponseTo(ctx.trackerRequestId, response.inResponseTo, ctx.allowUnsolicited);
      if !SignaturePositions.WalkAccepts(response.root, None) then Err(SignatureVerification)
      else if !response.hasAssertion then Err(XmlParse)
      else
        var assertion :- xml.authenticate(response.document, ctx.idp.signingCerts, ctx.wantResponseSigned, ctx.wantAssertionsSigned);
        ValidateAssertion(assertion, ctx)
  }

  /** The checks on the authenticated assertion. */
  function ValidateAssertion(assertion: Assertion, ctx: Context): Result<Identity, Error> {
    if assertion.issuer != ctx.idp.entityId then Err(IssuerMismatch)
    else
      var notOnOrAfter :- CheckConditions(assertion, ctx);
      var confirmation :- FindConfirmation(assertion, ctx);
      if confirmation.notOnOrAfter.None? then Err(Expired)
      else
        var _ :- CheckAuthnContext(ctx.requestedAuthnContext, assertion.statements);
        ExtractIdentity(assertion, confirmation.notOnOrAfter.value, notOnOrAfter, ctx)
  }

  function ExtractIdentity(assertion: Assertion, confirmedUntil: Instant, notOnOrAfter: Instant, ctx: Context): Result<Identity, Error> {
    var statement := if assertion.statements == [] then AuthnStatement(None, assertion.issueInstant, None, None)
                     else assertion.statements[0];
    var earliest := match SubDuration(ctx.now, ctx.clockSkew) case Some(t) => t case None => ctx.now;
    if statement.sessionNotOnOrAfter.Some? && statement.sessionNotOnOrAfter.value <= earliest then Err(Expired)
    else Ok(Identity(assertion.nameId, statement.authnInstant, statement.sessionNotOnOrAfter, confirmedUntil,
                     statement.classRef, assertion.attributes, assertion.id, notOnOrAfter, assertion.oneTimeUse))
  }

  // ---- What acceptance means ----

  /** An accepted response comes from the context's issuer, answers its request, was authenticated with
      the context's certificates and no others, and all three deadlines of its identity are still ahead
      by the clock less the skew. */
  lemma AcceptedResponseIsCurrent(xml: XmlLayer, response: Response, ctx: Context)
    requires ValidateResponse(xml, response, ctx).Ok?
    ensures var identity := ValidateResponse(xml, response, ctx).value;
            var verified := xml.authenticate(response.document, ctx.idp.signingCerts, ctx.wantResponseSigned, ctx.wantAssertionsSigned);
            && response.issuer == Some(ctx.idp.entityId)
            && (ctx.trackerRequestId.Some? ==> response.inResponseTo == ctx.trackerRequestId)
            && SignaturePositions.SignaturesPlaced(response.root, None)
            && verified.Ok? && verified.value.issuer == ctx.idp.entityId
            && identity.assertionId == verified.value.id && identity.oneTimeUse == verified.value.oneTimeUse
            && verified.value.notOnOrAfter == Some(identity.notOnOrAfter)
            && ctx.now < identity.notOnOrAfter + ctx.clockSkew
            && ctx.now < identity.subjectConfirmationNotOnOrAfter + ctx.clockSkew
            && (identity.sessionNotOnOrAfter.Some? ==> ctx.now < identity.sessionNotOnOrAfter.value + ctx.clockSkew)
            && (exists sc :: sc in verified.value.confirmations && sc.recipient == Some(ctx.expectedDestination)
                             && sc.notOnOrAfter == Some(identity.subjectConfirmationNotOnOrAfter)
                             && (sc.confirmBy.Bearer? || (sc.confirmBy.HolderOfKey? && ctx.presenterKey.Some?
                                                          && ctx.presenterKey.value in sc.keyInfoKeys)))
  {
    var assertion := xml.authenticate(response.document, ctx.idp.signingCerts, ctx.wantResponseSigned, ctx.wantAssertionsSigned).value;
    ConfirmationIsCurrent(assertion, ctx);
    SignaturePositions.WalkDecidesPlacement(response.root, None);
    hide SignaturePositions.WalkAccepts, SignaturePositions.SignaturesPlaced;
    var sc := FindConfirmation(assertion, ctx).value;
    hide FindConfirmation, CheckAuthnContext;
    assert sc in assertion.confirmations;
  }

  lemma ConfirmationIsCurrent(assertion: Assertion, ctx: Context)
    requires FindConfirmation(assertion, ctx).Ok?
    ensures var sc := FindConfirmation(assertion, ctx).value;
            && sc in assertion.confirmations && sc.recipient == Some(ctx.expectedDestination)
            && sc.notOnOrAfter.Some? && ctx.now < sc.notOnOrAfter.value + ctx.clockSkew
            && (sc.confirmBy.Bearer? || (sc.confirmBy.HolderOfKey? && ctx.presenterKey.Some?
                                         && ctx.presenterKey.value in sc.keyInfoKeys))
  {
  }

  // ---- Exactly which responses are accepted ----

  /** A request is answered by its own id only; an unsolicited message names none. */
  predicate Answers(tracked: Option<string>, got: Option<string>, allowUnsolicited: bool) {
    got == tracked && (tracked.Some? || allowUnsolicited)
  }

  /** The confirmation proves the subject to this SP, now. */
  predicate Confirms(sc: SubjectConfirmation, ctx: Context) {
    && sc.recipient == Some(ctx.expectedDestination)
    && sc.notOnOrAfter.Some? && ctx.now < sc.notOnOrAfter.value + ctx.clockSkew
    && (sc.notBefore.Some? ==> sc.notBefore.value <= ctx.now + ctx.clockSkew)
    && sc.inResponseTo == ctx.trackerRequestId
    && (sc.confirmBy.Bearer?
        || (sc.confirmBy.HolderOfKey? && ctx.presenterKey.Some? && ctx.presenterKey.value in sc.keyInfoKeys))
  }

  /** Both ends of the skewed clock can be represented. */
  predicate ClockFits(ctx: Context) {
    AddDuration(ctx.now, ctx.clockSkew).Some? && SubDuration(ctx.now, ctx.clockSkew).Some?
  }

  lemma {:induction false} WithMethodFilters(confirmations: seq<SubjectConfirmation>, m: ConfirmationMethod)
    ensures forall sc :: sc in WithMethod(confirmations, m) <==> sc in confirmations && sc.confirmBy == m
  {
    if confirmations != [] { WithMethodFilters(confirmations[1..], m); }
  }

  lemma {:induction false} FirstConfirmedSearches(candidates: seq<SubjectConfirmation>, ctx: Context, earliest: Instant, latest: Instant,
                                                  lastError: Error)
    ensures FirstConfirmed(candidates, ctx, earliest, latest, lastError).Ok? <==>
            exists sc :: sc in candidates && CheckConfirmation(sc, ctx, earliest, latest).Ok?
  {
    hide CheckConfirmation;
    if candidates != [] {
      match CheckConfirmation(candidates[0], ctx, earliest, latest)
      case Ok(_) => assert candidates[0] in candidates;
      case Err(error) => FirstConfirmedSearches(candidates[1..], ctx, earliest, latest, error);
    }
  }

  lemma FirstConfirmedPrefers(front: seq<SubjectConfirmation>, back: seq<SubjectConfirmation>, ctx: Context,
                              earliest: Instant, latest: Instant, lastError: Error)
    requires exists sc :: sc in front && CheckConfirmation(sc, ctx, earliest, latest).Ok?
    ensures var r := FirstConfirmed(front + back, ctx, earliest, latest, lastError); r.Ok? && r.value in front
  {
    hide CheckConfirmation;
    assert front + back == [front[0]] + (front[1..] + back);
    match CheckConfirmation(front[0], ctx, earliest, latest)
    case Ok(_) =>
    case Err(error) => FirstConfirmedPrefers(front[1..], back, ctx, earliest, latest, error);
  }

  /** A confirmation is found exactly when some bearer or usable holder-of-key one confirms, wherever it
      stands and whatever the others lack; a confirming bearer one is preferred. */
  lemma ConfirmationFoundExactly(assertion: Assertion, ctx: Context)
    ensures FindConfirmation(assertion, ctx).Ok? <==>
            ClockFits(ctx) && exists sc :: sc in assertion.confirmations && Confirms(sc, ctx)
    ensures FindConfirmation(assertion, ctx).Ok? ==>
            var found := FindConfirmation(assertion, ctx).value;
            && found in assertion.confirmations && Confirms(found, ctx)
            && ((exists sc :: sc in assertion.confirmations && sc.confirmBy.Bearer? && Confirms(sc, ctx)) ==> found.confirmBy.Bearer?)
  {
    var bearer, keyed := WithMethod(assertion.confirmations, Bearer), WithMethod(assertion.confirmations, HolderOfKey);
    var usable := if ctx.presenterKey.Some? then keyed else [];
    WithMethodFilters(assertion.confirmations, Bearer);
    WithMethodFilters(assertion.confirmations, HolderOfKey);
    if ClockFits(ctx) {
      var earliest, latest := SubDuration(ctx.now, ctx.clockSkew).value, AddDuration(ctx.now, ctx.clockSkew).value;
      forall sc | sc in bearer + usable ensures CheckConfirmation(sc, ctx, earliest, latest).Ok? <==> Confirms(sc, ctx) {
        CheckedConfirms(sc, ctx);
      }
      hide CheckConfirmation, WithMethod, Confirms, AddDuration, SubDuration;
      FirstConfirmedSearches(bearer + usable, ctx, earliest, latest, RecipientMismatch);
      if exists sc :: sc in bearer && CheckConfirmation(sc, ctx, earliest, latest).Ok? {
        FirstConfirmedPrefers(bearer, usable, ctx, earliest, latest, RecipientMismatch);
      }
      hide FirstConfirmed;
      forall sc | sc in assertion.confirmations && Confirms(sc, ctx) ensures sc in bearer + usable {
        ConfirmsByUsableMethod(sc, ctx);
      }
    }
  }

  lemma ConfirmsByUsableMethod(sc: SubjectConfirmation, ctx: Context)
    requires Confirms(sc, ctx)
    ensures sc.confirmBy.Bearer? || (sc.confirmBy.HolderOfKey? && ctx.presenterKey.Some?)
  {
  }

  lemma CheckedConfirms(sc: SubjectConfirmation, ctx: Context)
    requires ClockFits(ctx) && !sc.confirmBy.OtherMethod?
    ensures CheckConfirmation(sc, ctx, SubDuration(ctx.now, ctx.clockSkew).value, AddDuration(ctx.now, ctx.clockSkew).value).Ok?
            <==> Confirms(sc, ctx)
  {
  }

  /** The assertion's own window and audience admit this SP now. */
  predicate ConditionsAdmit(assertion: Assertion, ctx: Context) {
    && (assertion.notBefore.Some? ==> assertion.notBefore.value <= ctx.now + ctx.clockSkew)
    && assertion.notOnOrAfter.Some? && ctx.now < assertion.notOnOrAfter.value + ctx.clockSkew
    && assertion.audienceRestrictions != []
    && (forall restriction :: restriction in assertion.audienceRestrictions ==> ctx.spEntityId in restriction)
  }

  /** The requested context is met by the first statement, and its session has not ended. */
  predicate SessionAdmits(statements: seq<AuthnStatement>, ctx: Context) {
    && (ctx.requestedAuthnContext.Some? ==>
          && statements != [] && statements[0].classRef.Some?
          && Authn.Verdict(ctx.requestedAuthnContext.value, statements[0].classRef.value).Satisfied?)
    && (statements != [] && statements[0].sessionNotOnOrAfter.Some? ==>
          ctx.now < statements[0].sessionNotOnOrAfter.value + ctx.clockSkew)
  }

  lemma AssertionAcceptedExactly(assertion: Assertion, ctx: Context)
    ensures ValidateAssertion(assertion, ctx).Ok? <==>
              && assertion.issuer == ctx.idp.entityId && ClockFits(ctx)
              && ConditionsAdmit(assertion, ctx)
              && (exists sc :: sc in assertion.confirmations && Confirms(sc, ctx))
              && SessionAdmits(assertion.statements, ctx)
  {
    ConfirmationFoundExactly(assertion, ctx);
    if ClockFits(ctx) { ConditionsAdmittedExactly(assertion, ctx); }
    hide FindConfirmation, CheckConditions, Confirms, ConditionsAdmit, Authn.Verdict;
  }

  /** A response is accepted exactly when it is a success of this issuer for this SP and request, the XML
      layer authenticates an assertion of the same issuer with the context's certificates, and that
      assertion's conditions, some confirmation and its session all hold now. */
  lemma ResponseAcceptedExactly(xml: XmlLayer, response: Response, ctx: Context)
    ensures ValidateResponse(xml, response, ctx).Ok? <==>
            var verified := xml.authenticate(response.document, ctx.idp.signingCerts, ctx.wantResponseSigned, ctx.wantAssertionsSigned);
            && (response.destination == None || response.destination == Some(ctx.expectedDestination))
            && response.issuer == Some(ctx.idp.entityId) && response.isSuccess
            && Answers(ctx.trackerRequestId, response.inResponseTo, ctx.allowUnsolicited)
            && SignaturePositions.SignaturesPlaced(response.root, None) && response.hasAssertion
            && verified.Ok? && verified.value.issuer == ctx.idp.entityId && ClockFits(ctx)
            && ConditionsAdmit(verified.value, ctx)
            && (exists sc :: sc in verified.value.confirmations && Confirms(sc, ctx))
            && SessionAdmits(verified.value.statements, ctx)
  {
    SignaturePositions.WalkDecidesPlacement(response.root, None);
    hide ValidateAssertion, ConditionsAdmit, Confirms, SessionAdmits, ClockFits;
    hide SignaturePositions.WalkAccepts, SignaturePositions.SignaturesPlaced;
    var verified := xml.authenticate(response.document, ctx.idp.signingCerts, ctx.wantResponseSigned, ctx.wantAssertionsSigned);
    if verified.Ok? { AssertionAcceptedExactly(verified.value, ctx); }
  }

  /** An identity says of its assertion what the assertion says. */
  lemma IdentityDescribesAssertion(assertion: Assertion, ctx: Context)
    requires ValidateAssertion(assertion, ctx).Ok?
    ensures var identity := ValidateAssertion(assertion, ctx).value;
            && identity.nameId == assertion.nameId && identity.attributes == assertion.attributes
            && identity.assertionId == assertion.id && identity.oneTimeUse == assertion.oneTimeUse
            && Some(identity.notOnOrAfter) == assertion.notOnOrAfter
            && (if assertion.statements == []
                then identity.authnInstant == assertion.issueInstant && identity.sessionNotOnOrAfter == None && identity.classRef == None
                else
                  var first := assertion.statements[0];
                  && identity.authnInstant == first.authnInstant && identity.sessionNotOnOrAfter == first.sessionNotOnOrAfter
                  && identity.classRef == first.classRef)
            && (exists sc :: sc in assertion.confirmations && Confirms(sc, ctx)
                             && sc.notOnOrAfter == Some(identity.subjectConfirmationNotOnOrAfter))
  {
    ConfirmationFoundExactly(assertion, ctx);
    hide FindConfirmation, Confirms, CheckAuthnContext;
    var sc := FindConfirmation(assertion, ctx).value;
    assert sc in assertion.confirmations && Confirms(sc, ctx);
  }

  lemma ConditionsAdmittedExactly(assertion: Assertion, ctx: Context)
    requires ClockFits(ctx)
    ensures CheckConditions(assertion, ctx).Ok? <==> ConditionsAdmit(assertion, ctx)
  {
    var groups := assertion.audienceRestrictions;
    assert (forall restriction :: restriction in groups ==> ctx.spEntityId in restriction)
           <==> (forall i :: 0 <= i < |groups| ==> ctx.spEntityId in groups[i]);
  }
}
