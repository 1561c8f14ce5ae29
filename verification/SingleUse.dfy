/** Single use over whole runs: direct logins, proxied logins and artifact resolutions interleaved on one
    replay cache. */
module SingleUse {
  import opened Wrappers
  import opened Instants
  import opened Saml
  import opened Replay
  import opened ResponseValidation
  import SP = ServiceProvider
  import IdP = IdentityProvider
  import Proxy
  import DateTime
  import Samples

  /** One atomic request; a direct login may come without a cache. */
  datatype Event =
    | DirectLogin(spConfig: SP.SpConfig, xml: XmlLayer, login: SP.ConsumeInput, cached: bool)
    | ProxiedLogin(proxy: Proxy.Instance, xml: XmlLayer, upstream: Proxy.UpstreamInput)
    | ArtifactResolution(idpConfig: IdP.IdpConfig, resolveXml: IdP.ResolveXml, resolve: IdP.ResolveInput)

  function Now(e: Event): Instant {
    match e
    case DirectLogin(_, _, login, _) => login.now
    case ProxiedLogin(_, _, upstream) => upstream.now
    case ArtifactResolution(_, _, resolve) => resolve.now
  }

  /** The entry the event asks to reserve, when it gets that far. */
  function EntryOf(e: Event): Option<ReplayEntry> {
    match e
    case DirectLogin(config, xml, login, cached) =>
      var plan := SP.Plan(config, xml, login, cached, None);
      if plan.Ok? then plan.value.1 else None
    case ProxiedLogin(proxy, xml, upstream) =>
      var plan := Proxy.PlanUpstream(proxy, xml, upstream);
      if plan.Ok? then Some(plan.value.1) else None
    case ArtifactResolution(config, xml, resolve) =>
      var plan := IdP.PlanResolve(config, xml, resolve);
      if plan.Ok? then Some(plan.value.1) else None
  }

  function HistoryOf(run: seq<Event>): History {
    seq(|run|, i requires 0 <= i < |run| => SP.CallOf(EntryOf(run[i]), Now(run[i])))
  }

  /** Event `i` of a run that starts from cache contents `m` succeeds. */
  predicate Succeeds(m: Store, capacity: nat, run: seq<Event>, i: nat) {
    && i < |run|
    && (EntryOf(run[i]).Some? ==> Accepted(m, capacity, HistoryOf(run), i))
    && match run[i]
       case DirectLogin(config, xml, login, cached) => SP.Plan(config, xml, login, cached, None).Ok?
       case _ => EntryOf(run[i]).Some?
  }

  predicate ClockRunsForward(run: seq<Event>) {
    forall i, j :: 0 <= i < j < |run| ==> Now(run[i]) <= Now(run[j])
  }

  /** Two successes that reserve the same key: the second comes at or past the first one's expiry. */
  lemma SameKeyTwice(m: Store, capacity: nat, run: seq<Event>, i: nat, j: nat)
    requires ClockRunsForward(run) && i < j < |run|
    requires EntryOf(run[i]).Some? && EntryOf(run[j]).Some? && EntryOf(run[i]).value.key == EntryOf(run[j]).value.key
    requires Succeeds(m, capacity, run, i) && Succeeds(m, capacity, run, j)
    ensures Now(run[j]) >= EntryOf(run[i]).value.expiresAt
  {
    hide EntryOf, Accepted, Now;
    var calls := HistoryOf(run);
    var a, b := EntryOf(run[i]).value, EntryOf(run[j]).value;
    assert calls[i].value.entries[0] == ReplayEntry(a.key, a.expiresAt);
    assert calls[j].value.entries[0] == ReplayEntry(b.key, b.expiresAt);
    OncePerLifetime(m, capacity, calls, i, j, a.key, a.expiresAt, b.expiresAt);
  }

  /** The keys that earlier events of a run from the empty cache hold reserved when event `j` comes. */
  function LiveReservations(capacity: nat, run: seq<Event>, j: nat): set<Key>
    requires j < |run|
  {
    set i | 0 <= i < j && EntryOf(run[i]).Some? && Succeeds(map[], capacity, run, i)
            && Now(run[j]) < EntryOf(run[i]).value.expiresAt
      :: EntryOf(run[i]).value.key
  }

  /** Over every run from the empty cache, an event that asks for a reservation succeeds if and only if no
      earlier success still holds its key and the live reservations leave it room. */
  lemma SucceedsExactly(capacity: nat, run: seq<Event>, j: nat)
    requires ClockRunsForward(run) && j < |run| && EntryOf(run[j]).Some?
    ensures var live := LiveReservations(capacity, run, j);
            Succeeds(map[], capacity, run, j) <==> EntryOf(run[j]).value.key !in live && |live| < capacity
  {
    hide EntryOf, Now, Accepted, Step, After;
    var calls := HistoryOf(run);
    var entries := calls[j].value.entries;
    VerdictExactly(capacity, calls, j);
    LiveReservationsAreLiveKeys(capacity, run, j);
    assert KeysOf(entries) == {entries[0].key};
    AcceptedIsFresh(capacity, calls, j);
    EntryMeansPlanned(run[j]);
  }

  lemma AcceptedIsFresh(capacity: nat, calls: History, j: nat)
    requires j < |calls| && calls[j].Some?
    ensures Accepted(map[], capacity, calls, j) <==>
            Step(After(map[], capacity, calls[..j]), capacity, calls[j].value.entries, calls[j].value.now).1 == Fresh
  {
    hide Step, After;
  }

  lemma EntryMeansPlanned(e: Event)
    ensures e.DirectLogin? && EntryOf(e).Some? ==> SP.Plan(e.spConfig, e.xml, e.login, e.cached, None).Ok?
  {
    hide SP.Plan;
  }

  lemma LiveReservationsAreLiveKeys(capacity: nat, run: seq<Event>, j: nat)
    requires ClockRunsForward(run) && j < |run| && EntryOf(run[j]).Some?
    ensures LiveReservations(capacity, run, j) == LiveKeys(capacity, HistoryOf(run), j)
  {
    hide EntryOf, Now, Accepted, Undisturbed, Succeeds;
    var calls := HistoryOf(run);
    forall i | 0 <= i < j && calls[i].Some? ensures SameReservation(capacity, run, i, j) {
      ReservationIsLive(capacity, run, i, j);
    }
    forall i | 0 <= i < j && Accepted(map[], capacity, calls, i) ensures calls[i].Some? {
      AcceptedIsCall(capacity, calls, i);
    }
    var reservations, keys := LiveReservations(capacity, run, j), LiveKeys(capacity, calls, j);
    forall key ensures key in reservations <==> key in keys {
      if key in reservations {
        var i :| 0 <= i < j && EntryOf(run[i]).Some? && Succeeds(map[], capacity, run, i)
                 && Now(run[j]) < EntryOf(run[i]).value.expiresAt && EntryOf(run[i]).value.key == key;
        assert SameReservation(capacity, run, i, j);
        assert calls[i].value.entries[0].key == key;
      }
      if key in keys {
        var i, a :| 0 <= i < j && calls[i].Some? && Accepted(map[], capacity, calls, i) && 0 <= a < |calls[i].value.entries|
                    && Undisturbed(calls, i, j + 1, calls[i].value.entries[a].expiresAt)
                    && calls[i].value.entries[a].key == key;
        assert SameReservation(capacity, run, i, j);
      }
    }
  }

  /** Event `i` of the run and its call in the history are live for event `j` alike. */
  predicate SameReservation(capacity: nat, run: seq<Event>, i: nat, j: nat)
    requires i < j < |run| && EntryOf(run[i]).Some?
  {
    var calls, expiresAt := HistoryOf(run), EntryOf(run[i]).value.expiresAt;
    && (Succeeds(map[], capacity, run, i) <==> Accepted(map[], capacity, calls, i))
    && (Now(run[j]) < expiresAt <==> Undisturbed(calls, i, j + 1, expiresAt))
  }

  lemma ReservationIsLive(capacity: nat, run: seq<Event>, i: nat, j: nat)
    requires ClockRunsForward(run) && i < j < |run| && EntryOf(run[i]).Some? && EntryOf(run[j]).Some?
    ensures SameReservation(capacity, run, i, j)
  {
    hide EntryOf, Now, Accepted, Undisturbed;
    EntryMeansPlanned(run[i]);
    LiveUntilExpiry(HistoryOf(run), i, j, EntryOf(run[i]).value.expiresAt);
  }

  lemma AcceptedIsCall(capacity: nat, calls: History, i: nat)
    requires i < |calls| && Accepted(map[], capacity, calls, i)
    ensures calls[i].Some?
  {
  }

  // ---- Direct logins ----

  function IdentityOf(e: Event): Identity
    requires e.DirectLogin? && SP.Plan(e.spConfig, e.xml, e.login, e.cached, None).Ok?
  {
    SP.Plan(e.spConfig, e.xml, e.login, e.cached, None).value.0
  }

  /** The login's mode has it reserve the assertion. */
  predicate MustReserve(e: Event)
    requires e.DirectLogin? && SP.Plan(e.spConfig, e.xml, e.login, e.cached, None).Ok?
  {
    IdentityOf(e).oneTimeUse || (e.cached && e.login.mode.All?)
  }

  predicate SameAssertion(a: Identity, b: Identity) {
    a.assertionId == b.assertionId && a.notOnOrAfter == b.notOnOrAfter && a.oneTimeUse == b.oneTimeUse
  }

  /** Directly, a one-time-use assertion succeeds only with its reservation in the same call, whatever the
      mode, and the reservation ends where validation with the same skew begins to refuse. */
  lemma ReservationInTheSameCall(m: Store, capacity: nat, run: seq<Event>, i: nat)
    requires Succeeds(m, capacity, run, i) && run[i].DirectLogin? && MustReserve(run[i])
    ensures var identity := IdentityOf(run[i]); var skew := run[i].login.clockSkew;
            && run[i].cached
            && EntryOf(run[i]) == Some(ReplayEntry(Key(AssertionId, identity.assertionId), identity.notOnOrAfter + skew))
            && Accepted(m, capacity, HistoryOf(run), i)
            && Now(run[i]) < identity.notOnOrAfter + skew
  {
    hide SP.Validate, Accepted;
    var e := run[i];
    SP.ValidatedIsCurrent(e.spConfig, e.xml, e.login);
  }

  /** Over any run with mixed modes, reserving direct logins accept the same assertion a second time only
      under a strictly larger clock skew. */
  lemma SecondAcceptanceNeedsMoreSkew(m: Store, capacity: nat, run: seq<Event>, i: nat, j: nat)
    requires ClockRunsForward(run) && i < j < |run| && run[i].DirectLogin? && run[j].DirectLogin?
    requires Succeeds(m, capacity, run, i) && Succeeds(m, capacity, run, j)
    requires MustReserve(run[i]) && MustReserve(run[j]) && SameAssertion(IdentityOf(run[i]), IdentityOf(run[j]))
    ensures run[j].login.clockSkew > run[i].login.clockSkew
  {
    ReservationInTheSameCall(m, capacity, run, i);
    ReservationInTheSameCall(m, capacity, run, j);
    hide EntryOf, Accepted, IdentityOf, MustReserve;
    SameKeyTwice(m, capacity, run, i, j);
  }

  /** Among direct logins OneTimeUse is single use: under one skew and with any mode in each call, of two of
      them with the same one-time-use assertion at most one succeeds. */
  lemma OneTimeUseSucceedsOnce(m: Store, capacity: nat, run: seq<Event>, i: nat, j: nat)
    requires ClockRunsForward(run) && i < j < |run| && run[i].DirectLogin? && run[j].DirectLogin?
    requires run[i].login.clockSkew == run[j].login.clockSkew
    requires SP.Plan(run[i].spConfig, run[i].xml, run[i].login, run[i].cached, None).Ok?
    requires SP.Plan(run[j].spConfig, run[j].xml, run[j].login, run[j].cached, None).Ok?
    requires SameAssertion(IdentityOf(run[i]), IdentityOf(run[j]))
    requires IdentityOf(run[i]).oneTimeUse || (run[i].cached && run[j].cached && run[i].login.mode.All? && run[j].login.mode.All?)
    ensures !(Succeeds(m, capacity, run, i) && Succeeds(m, capacity, run, j))
  {
    hide Succeeds, IdentityOf, SP.Plan;
    if Succeeds(m, capacity, run, i) && Succeeds(m, capacity, run, j) {
      SecondAcceptanceNeedsMoreSkew(m, capacity, run, i, j);
    }
  }

  // ---- Artifact resolution ----

  /** An ArtifactResolve message is answered at most once under a skew that does not grow by a millisecond:
      its tombstone outlasts the closed freshness window. */
  lemma ArtifactResolveSucceedsOnce(m: Store, capacity: nat, run: seq<Event>, i: nat, j: nat)
    requires ClockRunsForward(run) && i < j < |run| && run[i].ArtifactResolution? && run[j].ArtifactResolution?
    requires var a := IdP.PlanResolve(run[i].idpConfig, run[i].resolveXml, run[i].resolve);
             var b := IdP.PlanResolve(run[j].idpConfig, run[j].resolveXml, run[j].resolve);
             && a.Ok? && b.Ok?
             && a.value.0.requestId == b.value.0.requestId && a.value.0.issueInstant == b.value.0.issueInstant
             && run[i].resolve.transaction.spEntityId == run[j].resolve.transaction.spEntityId
    requires run[j].resolve.clockSkew < run[i].resolve.clockSkew + NANOS_PER_MILLI
    ensures !(Succeeds(m, capacity, run, i) && Succeeds(m, capacity, run, j))
  {
    IdP.TombstoneCoversFreshness(run[i].idpConfig, run[i].resolveXml, run[i].resolve);
    IdP.TombstoneCoversFreshness(run[j].idpConfig, run[j].resolveXml, run[j].resolve);
    hide IdP.PlanResolve, Succeeds, DateTime.ParseXsDateTime;
    if Succeeds(m, capacity, run, i) && Succeeds(m, capacity, run, j) {
      SameKeyTwice(m, capacity, run, i, j);
    }
  }

  // ---- Proxied logins ----

  lemma TransactionIsLive(proxy: Proxy.Instance, xml: XmlLayer, input: Proxy.UpstreamInput)
    requires Proxy.PlanUpstream(proxy, xml, input).Ok?
    ensures var (flow, entry) := Proxy.PlanUpstream(proxy, xml, input).value;
            && entry == ReplayEntry(Key(ProxyTransaction, flow.context.transactionId), flow.context.expiresAt)
            && input.now < flow.context.expiresAt
            && flow.instance == proxy.instance
            && Proxy.DecodeContext(proxy.codec, input.relayState) == Ok(flow.context)
            && flow.context.expiresAt <= flow.context.issuedAt + Proxy.CONTEXT_LIFETIME
  {
    hide SP.Plan;
  }

  /** One sealed context yields at most one upstream flow: a context is refused from its expiry on, exactly
      where its tombstone may go. */
  lemma TransactionSucceedsOnce(m: Store, capacity: nat, run: seq<Event>, i: nat, j: nat)
    requires ClockRunsForward(run) && i < j < |run| && run[i].ProxiedLogin? && run[j].ProxiedLogin?
    requires var a := Proxy.PlanUpstream(run[i].proxy, run[i].xml, run[i].upstream);
             var b := Proxy.PlanUpstream(run[j].proxy, run[j].xml, run[j].upstream);
             && a.Ok? && b.Ok?
             && a.value.0.context.transactionId == b.value.0.context.transactionId
             && a.value.0.context.expiresAt == b.value.0.context.expiresAt
    ensures !(Succeeds(m, capacity, run, i) && Succeeds(m, capacity, run, j))
  {
    TransactionIsLive(run[i].proxy, run[i].xml, run[i].upstream);
    TransactionIsLive(run[j].proxy, run[j].xml, run[j].upstream);
    hide Proxy.PlanUpstream, Succeeds;
    if Succeeds(m, capacity, run, i) && Succeeds(m, capacity, run, j) {
      SameKeyTwice(m, capacity, run, i, j);
    }
  }

  // ---- One assertion, two ways in ----

  /** The identity a login yields if it succeeds. */
  function Redeemed(e: Event): Option<Identity> {
    match e
    case DirectLogin(config, xml, login, cached) =>
      var plan := SP.Plan(config, xml, login, cached, None);
      if plan.Ok? then Some(plan.value.0) else None
    case ProxiedLogin(proxy, xml, upstream) =>
      var plan := Proxy.PlanUpstream(proxy, xml, upstream);
      if plan.Ok? then Some(plan.value.0.identity) else None
    case ArtifactResolution(_, _, _) => None
  }

  /** The response a login presents, as it parses. */
  function ResponseOf(e: Event): Result<Response, Error>
    requires Redeemed(e).Some?
  {
    if e.DirectLogin? then e.xml.parse(e.login.message) else e.xml.parse(e.upstream.message)
  }

  /** The request the login is bound to, if any. */
  function RequestOf(e: Event): Option<string>
    requires Redeemed(e).Some?
  {
    match e
    case DirectLogin(_, _, login, _) => if login.tracker.Some? then Some(login.tracker.value.requestId) else None
    case ProxiedLogin(proxy, xml, upstream) =>
      Some(Proxy.PlanUpstream(proxy, xml, upstream).value.0.context.upstreamTracker.requestId)
  }

  function SkewOf(e: Event): Duration
    requires Redeemed(e).Some?
  {
    if e.DirectLogin? then e.login.clockSkew else e.upstream.clockSkew
  }

  /** The sealed transaction of a proxied login. */
  function TransactionOf(e: Event): Option<string>
    requires Redeemed(e).Some?
  {
    if e.ProxiedLogin? then Some(Proxy.PlanUpstream(e.proxy, e.xml, e.upstream).value.0.context.transactionId) else None
  }

  /** Two logins with one one-time-use assertion under one clock skew. */
  predicate RedeemAgain(a: Event, b: Event) {
    && Redeemed(a).Some? && Redeemed(b).Some? && SkewOf(a) == SkewOf(b)
    && SameAssertion(Redeemed(a).value, Redeemed(b).value) && Redeemed(a).value.oneTimeUse
  }

  /** Both direct, or both by proxy in one transaction. */
  predicate SameWayIn(a: Event, b: Event)
    requires Redeemed(a).Some? && Redeemed(b).Some?
  {
    TransactionOf(a) == TransactionOf(b)
  }

  /** Contexts with one transaction id expire together: each id is sealed once. */
  predicate HonestExpiries(run: seq<Event>, expiryOf: string -> Instant) {
    forall i :: 0 <= i < |run| && run[i].ProxiedLogin? ==>
      var plan := Proxy.PlanUpstream(run[i].proxy, run[i].xml, run[i].upstream);
      plan.Ok? ==> plan.value.0.context.expiresAt == expiryOf(plan.value.0.context.transactionId)
  }

  /** Each upstream request was sealed in one transaction: the one `sealedAs` names, with its expiry. */
  predicate SealedOnce(run: seq<Event>, sealedAs: string -> (string, Instant)) {
    forall i :: 0 <= i < |run| && run[i].ProxiedLogin? ==>
      var plan := Proxy.PlanUpstream(run[i].proxy, run[i].xml, run[i].upstream);
      plan.Ok? ==> var context := plan.value.0.context;
                   (context.transactionId, context.expiresAt) == sealedAs(context.upstreamTracker.requestId)
  }

  /** On either way in, the response answers the very request the login is bound to. */
  lemma ResponseAnswersRequest(e: Event)
    requires Redeemed(e).Some?
    ensures ResponseOf(e).Ok? && ResponseOf(e).value.inResponseTo == RequestOf(e)
  {
    match e
    case DirectLogin(config, xml, login, _) => ValidatedAnswers(config, xml, login);
    case ProxiedLogin(proxy, xml, upstream) =>
      var context := Proxy.CheckContext(proxy, upstream).value;
      ValidatedAnswers(proxy.sp, xml, Proxy.SpInput(upstream, context));
      hide Proxy.CheckContext;
    hide SP.Validate;
  }

  lemma ValidatedAnswers(config: SP.SpConfig, xml: XmlLayer, input: SP.ConsumeInput)
    requires SP.Validate(config, xml, input).Ok?
    ensures var response := xml.parse(input.message);
            response.Ok? && response.value.inResponseTo == if input.tracker.Some? then Some(input.tracker.value.requestId) else None
  {
    ResponseAcceptedExactly(xml, xml.parse(input.message).value, SP.ContextOf(config, input));
    hide ValidateResponse, SP.ValidateTrackerContext, ConditionsAdmit, SessionAdmits, Confirms, ClockFits;
  }

  /** A one-time-use login reserves on either way in: its assertion directly, its transaction by proxy. */
  lemma OneTimeUseReserves(e: Event)
    requires Redeemed(e).Some? && Redeemed(e).value.oneTimeUse
    ensures EntryOf(e).Some?
    ensures EntryOf(e).value.key == match TransactionOf(e)
                                    case None => Key(AssertionId, Redeemed(e).value.assertionId)
                                    case Some(id) => Key(ProxyTransaction, id)
  {
    hide SP.Validate, Proxy.CheckContext;
  }

  /** Over any run, a one-time-use assertion redeemed twice under one skew was redeemed in two ways: never
      twice directly, and never twice in one transaction. */
  lemma RedeemedTwiceInTwoWays(m: Store, capacity: nat, run: seq<Event>, i: nat, j: nat, expiryOf: string -> Instant)
    requires ClockRunsForward(run) && i < j < |run| && HonestExpiries(run, expiryOf) && RedeemAgain(run[i], run[j])
    requires Succeeds(m, capacity, run, i) && Succeeds(m, capacity, run, j)
    ensures !SameWayIn(run[i], run[j])
  {
    hide SP.Plan, Proxy.PlanUpstream, Succeeds;
    if run[i].DirectLogin? && run[j].DirectLogin? {
      OneTimeUseSucceedsOnce(m, capacity, run, i, j);
    } else if run[i].ProxiedLogin? && run[j].ProxiedLogin? && TransactionOf(run[i]) == TransactionOf(run[j]) {
      TransactionSucceedsOnce(m, capacity, run, i, j);
    }
  }

  /** The condition is exact: after a first success, a second redemption that nothing else stands in the
      way of succeeds if and only if it takes another way in. */
  lemma RedeemedTwiceExactly(capacity: nat, run: seq<Event>, i: nat, j: nat, expiryOf: string -> Instant)
    requires ClockRunsForward(run) && i < j < |run| && HonestExpiries(run, expiryOf) && RedeemAgain(run[i], run[j])
    requires Succeeds(map[], capacity, run, i) && EntryOf(run[j]).Some?
    requires forall k :: 0 <= k < j && k != i && EntryOf(run[k]).Some? ==>
               EntryOf(run[k]).value.key != EntryOf(run[j]).value.key
    requires |LiveReservations(capacity, run, j)| < capacity
    ensures Succeeds(map[], capacity, run, j) <==> !SameWayIn(run[i], run[j])
  {
    OneTimeUseReserves(run[i]);
    OneTimeUseReserves(run[j]);
    SucceedsExactly(capacity, run, j);
    hide Succeeds, EntryOf;
    if Succeeds(map[], capacity, run, j) {
      RedeemedTwiceInTwoWays(map[], capacity, run, i, j, expiryOf);
    }
  }

  /** When one response is presented again, and each upstream request is sealed once, one case is left:
      it was redeemed once directly and once by proxy, for one and the same request. */
  lemma ResponseRedeemedTwiceIsMixed(m: Store, capacity: nat, run: seq<Event>, i: nat, j: nat, sealedAs: string -> (string, Instant))
    requires ClockRunsForward(run) && i < j < |run| && SealedOnce(run, sealedAs)
    requires RedeemAgain(run[i], run[j]) && ResponseOf(run[i]) == ResponseOf(run[j])
    requires Succeeds(m, capacity, run, i) && Succeeds(m, capacity, run, j)
    ensures run[i].DirectLogin? != run[j].DirectLogin?
    ensures RequestOf(run[i]) == RequestOf(run[j]) && RequestOf(run[i]).Some?
  {
    ResponseAnswersRequest(run[i]);
    ResponseAnswersRequest(run[j]);
    hide SP.Plan, Proxy.PlanUpstream, Succeeds;
    if run[i].DirectLogin? && run[j].DirectLogin? {
      OneTimeUseSucceedsOnce(m, capacity, run, i, j);
    } else if run[i].ProxiedLogin? && run[j].ProxiedLogin? {
      TransactionSucceedsOnce(m, capacity, run, i, j);
    }
  }

  function Direct(end: Instant, now: Instant, skew: Duration): Event {
    DirectLogin(Samples.SP_CONFIG, Samples.XmlUntil(end), Samples.LoginAt(now, skew), true)
  }

  function Proxied(end: Instant, now: Instant, skew: Duration): Event {
    ProxiedLogin(Samples.PROXY, Samples.XmlUntil(end), Samples.UpstreamAt(now, skew))
  }

  lemma DirectRedeems(end: Instant, now: Instant, skew: Duration)
    requires Samples.Timely(end, now, skew) && AddDuration(end, skew).Some?
    ensures var e := Direct(end, now, skew);
            && Redeemed(e) == Some(Samples.IdentityUntil(end)) && ResponseOf(e) == Ok(Samples.RESPONSE)
            && EntryOf(e) == Some(ReplayEntry(Key(AssertionId, "assertion"), end + skew))
            && Now(e) == now && SkewOf(e) == skew
  {
    Samples.LoginPlans(end, now, skew);
    hide SP.Plan;
  }

  lemma ProxiedRedeems(end: Instant, now: Instant, skew: Duration)
    requires Samples.Timely(end, now, skew) && AddDuration(end, skew).Some? && now < Proxy.CONTEXT_LIFETIME
    ensures var e := Proxied(end, now, skew);
            && Redeemed(e) == Some(Samples.IdentityUntil(end)) && ResponseOf(e) == Ok(Samples.RESPONSE)
            && EntryOf(e) == Some(ReplayEntry(Key(ProxyTransaction, "transaction"), Proxy.CONTEXT_LIFETIME))
            && Now(e) == now && SkewOf(e) == skew
  {
    Samples.UpstreamPlans(end, now, skew);
    hide Proxy.PlanUpstream;
  }

  /** The witness: one response, presented directly and by proxy at one instant under one skew, is redeemed
      both times. */
  lemma DirectAndProxiedBothRedeem(end: Instant, now: Instant, skew: Duration)
    requires Samples.Timely(end, now, skew) && AddDuration(end, skew).Some? && now < Proxy.CONTEXT_LIFETIME
    ensures var direct, proxied := Direct(end, now, skew), Proxied(end, now, skew);
            && RedeemAgain(direct, proxied) && ResponseOf(direct) == ResponseOf(proxied)
            && Succeeds(map[], 2, [direct, proxied], 0) && Succeeds(map[], 2, [direct, proxied], 1)
  {
    hide Direct, Proxied, Redeemed, ResponseOf, EntryOf, Now, SkewOf, Succeeds;
    DirectRedeems(end, now, skew);
    ProxiedRedeems(end, now, skew);
    PairSucceeds(2, Direct(end, now, skew), Proxied(end, now, skew));
  }

  /** The wider skew is needed and enough: for every two different skews there is a login that is redeemed
      under the narrower one and again, when that tombstone is gone, under the wider. */
  lemma WiderSkewRedeemsTwice(end: Instant, narrow: Duration, wide: Duration)
    requires narrow < wide && 0 <= end && 0 < end + narrow && end + narrow + wide < SP.END_OF_TIME
    ensures var first, second := Direct(end, 0, narrow), Direct(end, end + narrow, wide);
            && Redeemed(first).Some? && Redeemed(first) == Redeemed(second) && Redeemed(first).value.oneTimeUse
            && Succeeds(map[], 1, [first, second], 0) && Succeeds(map[], 1, [first, second], 1)
  {
    hide Direct, Redeemed, EntryOf, Now, Succeeds;
    DirectRedeems(end, 0, narrow);
    DirectRedeems(end, end + narrow, wide);
    PairSucceeds(1, Direct(end, 0, narrow), Direct(end, end + narrow, wide));
  }

  /** Two events on an empty cache do not get in each other's way if they ask for different keys and there
      is room for both, or if the second comes when the first one's reservation may go. */
  lemma PairSucceeds(capacity: nat, first: Event, second: Event)
    requires EntryOf(first).Some? && EntryOf(second).Some? && Now(first) <= Now(second)
    requires var a, b := EntryOf(first).value, EntryOf(second).value;
             (capacity >= 2 && a.key != b.key) || (capacity >= 1 && a.expiresAt <= Now(second))
    ensures Succeeds(map[], capacity, [first, second], 0) && Succeeds(map[], capacity, [first, second], 1)
  {
    hide EntryOf, Now, Succeeds;
    var run := [first, second];
    SucceedsExactly(capacity, run, 0);
    SucceedsExactly(capacity, run, 1);
    assert LiveReservations(capacity, run, 0) == {};
    var a := EntryOf(first).value;
    assert LiveReservations(capacity, run, 1) <= {a.key};
    if a.expiresAt <= Now(second) {
      assert LiveReservations(capacity, run, 1) == {};
    } else {
      SubsetSize(LiveReservations(capacity, run, 1), {a.key});
    }
  }
}
