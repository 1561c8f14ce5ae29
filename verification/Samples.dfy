/** One login in concrete values, for the lemmas that show a case really occurs: an SP, its IdP, a response
    whose one-time-use assertion is good until `end`, and a proxy that started the same login. */
module Samples {
  import opened Wrappers
  import opened CheckedInt
  import opened Instants
  import opened Saml
  import opened Replay
  import opened ResponseValidation
  import Schema
  import SignaturePositions
  import SP = ServiceProvider
  import IdP = IdentityProvider
  import DateTime
  import DateTimeTheorems
  import Proxy
  import ProxyTheorems

  const IDP: IdpDescriptor := IdpDescriptor("idp", [1], [])
  const ACS: Endpoint := Endpoint("acs", HttpPost, None, true)
  const SP_CONFIG: SP.SpConfig := SP.SpConfig("sp", [ACS], false, true, true)
  const TRACKER: SP.LoginTracker := SP.LoginTracker("request", "idp", ACS, None, None, [1], [])
  const SUBJECT: NameId := NameId("subject", Transient, None, None, None)

  const ROOT: Schema.Element :=
    Schema.Element(Schema.QName(Some(SignaturePositions.SAMLP_NS), "Response"), [], [])
  const RESPONSE: Response := Response(None, Some("idp"), true, Some("request"), ROOT, true, "document")

  function ConfirmationUntil(end: Instant): SubjectConfirmation {
    SubjectConfirmation(Bearer, Some("acs"), None, Some(end), Some("request"), [])
  }

  function AssertionUntil(end: Instant): Assertion {
    Assertion("assertion", "idp", 0, SUBJECT, [ConfirmationUntil(end)], None, Some(end), [["sp"]], true, [], [])
  }

  function XmlUntil(end: Instant): XmlLayer {
    XmlLayer((_: string) => Ok(RESPONSE), (_: string, _: seq<Fingerprint>, _: bool, _: bool) => Ok(AssertionUntil(end)))
  }

  function IdentityUntil(end: Instant): Identity {
    Identity(SUBJECT, 0, None, end, None, [], "assertion", end, true)
  }

  function LoginAt(now: Instant, skew: Duration): SP.ConsumeInput {
    SP.ConsumeInput(IDP, "message", HttpPost, Some(TRACKER), "acs", now, skew, All, None)
  }

  /** The clock and the skew leave the login acceptable. */
  predicate Timely(end: Instant, now: Instant, skew: Duration) {
    AddDuration(now, skew).Some? && SubDuration(now, skew).Some? && now < end + skew
  }

  lemma ConfirmationStands(end: Instant, now: Instant, skew: Duration)
    requires Timely(end, now, skew)
    ensures FindConfirmation(AssertionUntil(end), SP.ContextOf(SP_CONFIG, LoginAt(now, skew))) == Ok(ConfirmationUntil(end))
  {
    var confirmations := [ConfirmationUntil(end)];
    assert confirmations[1..] == [];
    assert WithMethod([], Bearer) == [] && WithMethod([], HolderOfKey) == [];
    assert WithMethod(confirmations, Bearer) == confirmations;
    assert WithMethod(confirmations, HolderOfKey) == [];
    assert confirmations + [] == confirmations;
  }

  lemma LoginValidates(end: Instant, now: Instant, skew: Duration)
    requires Timely(end, now, skew)
    ensures SP.Validate(SP_CONFIG, XmlUntil(end), LoginAt(now, skew)) == Ok(IdentityUntil(end))
  {
    var ctx := SP.ContextOf(SP_CONFIG, LoginAt(now, skew));
    ConfirmationStands(end, now, skew);
    hide FindConfirmation;
    assert Intersection(IDP.signingCerts, TRACKER.pinnedCerts) == [1] by { assert Intersection([], [1]) == []; }
    assert SP_CONFIG.acs[0].url == "acs";
    assert SignaturePositions.WalkAccepts(ROOT, None) by { assert Schema.ChildElements([]) == []; }
    assert CheckConditions(AssertionUntil(end), ctx) == Ok(end);
    assert ValidateAssertion(AssertionUntil(end), ctx) == Ok(IdentityUntil(end));
  }

  lemma LoginPlans(end: Instant, now: Instant, skew: Duration)
    requires Timely(end, now, skew) && AddDuration(end, skew).Some?
    ensures SP.Plan(SP_CONFIG, XmlUntil(end), LoginAt(now, skew), true, None) ==
            Ok((IdentityUntil(end), Some(ReplayEntry(Key(AssertionId, "assertion"), end + skew))))
  {
    LoginValidates(end, now, skew);
    hide SP.Validate;
  }

  // ---- The same login, started by a proxy ----

  const PAYLOAD: Proxy.Payload :=
    Proxy.Payload("downstream request", "downstream", Endpoint("downstream acs", HttpPost, None, true), None, None, None,
                  TRACKER, 0, Proxy.CONTEXT_LIFETIME, "transaction", [], [1])
  const CODEC: Proxy.Codec := Proxy.Codec((_: Proxy.Payload) => Ok("state"), (_: string) => Ok(PAYLOAD))
  const PROXY_IDP: IdP.IdpConfig := IdP.IdpConfig("proxy", [], Transient, true, [], true)
  const PROXY: Proxy.Instance := Proxy.Instance(SP_CONFIG, false, PROXY_IDP, CODEC, 0)

  function UpstreamAt(now: Instant, skew: Duration): Proxy.UpstreamInput {
    Proxy.UpstreamInput("state", IDP, "message", HttpPost, "acs", now, skew, None)
  }

  function FlowUntil(end: Instant): Proxy.UpstreamFlow { Proxy.UpstreamFlow(PAYLOAD, IdentityUntil(end), 0) }

  lemma UpstreamPlans(end: Instant, now: Instant, skew: Duration)
    requires Timely(end, now, skew) && AddDuration(end, skew).Some? && now < Proxy.CONTEXT_LIFETIME
    ensures Proxy.PlanUpstream(PROXY, XmlUntil(end), UpstreamAt(now, skew)) ==
            Ok((FlowUntil(end), Proxy.Transaction(PAYLOAD)))
  {
    LoginValidates(end, now, skew);
    hide SP.Validate;
    assert Intersection(IDP.signingCerts, PAYLOAD.upstreamSigningCerts) == [1] by { assert Intersection([], [1]) == []; }
    assert Proxy.CheckContext(PROXY, UpstreamAt(now, skew)) == Ok(PAYLOAD);
    assert Proxy.SpInput(UpstreamAt(now, skew), PAYLOAD) == LoginAt(now, skew);
  }

  /** The overflow branch of `replay_expires_at` is reached: one nanosecond less skew would be too little
      for it, one more would overflow the clock first. */
  lemma OverflowIsReached()
    ensures var xml, login := XmlUntil(1), LoginAt(0, SP.END_OF_TIME - 1);
            && SP.Validate(SP_CONFIG, xml, login).Ok?
            && SP.Plan(SP_CONFIG, xml, login, true, None) == Err(XmlParse)
  {
    LoginValidates(1, 0, SP.END_OF_TIME - 1);
    SP.OverflowExactly(SP_CONFIG, XmlUntil(1), LoginAt(0, SP.END_OF_TIME - 1), true, None);
    hide SP.Validate, SP.Plan;
  }

  // ---- Its relay ----

  const DOWNSTREAM: SpDescriptor := SpDescriptor("downstream", [PAYLOAD.downstreamAcs], [], [])
  const CALLBACKS: Proxy.Callbacks :=
    Proxy.Callbacks((_: string, _: NameId, _: seq<Attribute>, _: SpDescriptor) => Ok(SUBJECT), (_: seq<Attribute>, _: SpDescriptor) => [])
  const HOUR: Duration := 3600 * NANOS_PER_SEC

  function Deliver(): IdP.Deliver { (_: IdP.IssuedResponse) => Ok("response") }

  function RelayAt(now: Instant): Proxy.RelayInput { Proxy.RelayInput(DOWNSTREAM, false, now, HOUR, HOUR, "session") }

  /** The times a relay at `now` writes all have four-digit years. */
  predicate Writable(end: Instant, now: Instant) {
    60 * NANOS_PER_SEC <= now < end && now + HOUR < DateTimeTheorems.END_OF_FOUR_DIGIT_YEARS * 86_400 * NANOS_PER_SEC
  }

  lemma Prints(t: Instant)
    requires 0 <= t < DateTimeTheorems.END_OF_FOUR_DIGIT_YEARS * 86_400 * NANOS_PER_SEC
    ensures IdP.Emit(Some(t)).Ok?
  {
    DateTimeTheorems.PrintThenParse(t);
    hide DateTime.FormatXsDateTime, DateTime.ParseXsDateTime;
  }

  lemma InstantsPrint(end: Instant, now: Instant)
    requires Writable(end, now) && Proxy.CapDeadlines(IdentityUntil(end), now, HOUR, HOUR).Ok?
    ensures var d := Proxy.CapDeadlines(IdentityUntil(end), now, HOUR, HOUR).value;
            IdP.IssuanceInstants(now, d.sessionLifetime, d.confirmationLifetime, 0, Some(d.sessionNotOnOrAfter)).Ok?
  {
    hide IdP.Emit, Proxy.CapDeadlines;
    ProxyTheorems.RelayDeadlinesAreCapped(IdentityUntil(end), now, HOUR, HOUR);
    var d := Proxy.CapDeadlines(IdentityUntil(end), now, HOUR, HOUR).value;
    Prints(now);
    Prints(now - 60 * NANOS_PER_SEC);
    Prints(now + d.sessionLifetime);
    Prints(now + d.confirmationLifetime);
    Prints(0);
  }

  lemma PreflightPasses(end: Instant, now: Instant)
    requires Writable(end, now)
    ensures Proxy.Preflight(PROXY, FlowUntil(end), RelayAt(now)).Ok?
    ensures Proxy.Preflight(PROXY, FlowUntil(end), RelayAt(now)).value.format == Transient
  {
    assert Proxy.CapDeadlines(IdentityUntil(end), now, HOUR, HOUR).Ok?;
    InstantsPrint(end, now);
    hide Proxy.CapDeadlines, IdP.IssuanceInstants;
    assert Proxy.FindEndpoint(DOWNSTREAM.assertionConsumerServices, PAYLOAD.downstreamAcs).Some?;
  }

  lemma RelaySucceeds(end: Instant, now: Instant)
    requires Writable(end, now)
    ensures Proxy.RelayToDownstream(PROXY, CALLBACKS, Deliver(), FlowUntil(end), RelayAt(now)).result == Ok("response")
  {
    PreflightPasses(end, now);
    ProxyTheorems.CallbacksFollowTheChecks(PROXY, CALLBACKS, Deliver(), FlowUntil(end), RelayAt(now));
    hide Proxy.Preflight;
    var issued := ProxyTheorems.PreflightIsComplete(PROXY, CALLBACKS, Deliver(), FlowUntil(end), RelayAt(now));
  }
}
