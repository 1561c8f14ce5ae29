/** One login, one downstream response: proxies, their upstream flows and the responses they issue, as a
    state machine over one shared replay cache. */
module OneLogin {
  import opened Wrappers
  import opened CheckedInt
  import opened Instants
  import opened Replay
  import opened ResponseValidation
  import opened Proxy
  import SingleUse
  import Samples
  import IdP = IdentityProvider

  /** Flows live until they are moved into a relay; `issued` lists the transactions of issued responses. */
  datatype World = World(store: Store, clock: Instant, flows: map<nat, UpstreamFlow>, issued: seq<string>)

  datatype Event =
    | Consume(proxy: Instance, xml: XmlLayer, upstream: UpstreamInput, handle: nat)
    | Relay(proxy: Instance, callbacks: Callbacks, deliver: IdP.Deliver, relayed: nat, relay: RelayInput)
    | OtherUse(entries: seq<ReplayEntry>, now: Instant)

  /** A new flow gets an unused handle, other users of the cache keep to their namespaces, and the clock of
      the cache runs forward. */
  predicate Allowed(w: World, e: Event) {
    match e
    case Consume(_, _, upstream, handle) => handle !in w.flows && w.clock <= upstream.now
    case Relay(_, _, _, _, _) => true
    case OtherUse(entries, now) =>
      w.clock <= now && forall i :: 0 <= i < |entries| ==> entries[i].key.namespace != ProxyTransaction
  }

  function Next(capacity: nat, w: World, e: Event): World {
    match e
    case Consume(proxy, xml, upstream, handle) =>
      (match PlanUpstream(proxy, xml, upstream)
       case Err(_) => w
       case Ok((flow, entry)) =>
         var (m, verdict) := Step(w.store, capacity, [entry], upstream.now);
         var w' := w.(store := m, clock := upstream.now);
         if verdict == Fresh then w'.(flows := w.flows[handle := flow]) else w')
    case Relay(proxy, callbacks, deliver, handle, input) =>
      if handle !in w.flows then w
      else
        var flow := w.flows[handle];
        var w' := w.(flows := w.flows - {handle});
        if RelayToDownstream(proxy, callbacks, deliver, flow, input).result.Ok?
        then w'.(issued := w.issued + [flow.context.transactionId]) else w'
    case OtherUse(entries, now) =>
      w.(store := Step(w.store, capacity, entries, now).0, clock := now)
  }

  /** Contexts with the same transaction id are the same sealed context, as far as their expiry goes:
      the codec is honest and the ids are unique. */
  predicate HonestCodec(e: Event, expiryOf: string -> Instant) {
    e.Consume? ==>
      var plan := PlanUpstream(e.proxy, e.xml, e.upstream);
      plan.Ok? ==> plan.value.0.context.expiresAt == expiryOf(plan.value.0.context.transactionId)
  }

  const EMPTY: World := World(map[], I64_MIN * NANOS_PER_SEC, map[], [])

  function After(capacity: nat, run: seq<Event>): World {
    if run == [] then EMPTY else Next(capacity, After(capacity, run[..|run| - 1]), run[|run| - 1])
  }

  predicate Legal(capacity: nat, run: seq<Event>, expiryOf: string -> Instant) {
    forall i :: 0 <= i < |run| ==> Allowed(After(capacity, run[..i]), run[i]) && HonestCodec(run[i], expiryOf)
  }

  function FlowsOf(flows: map<nat, UpstreamFlow>, tx: string): set<nat> {
    set h | h in flows && flows[h].context.transactionId == tx
  }

  /** Live flows plus issued responses of a transaction. */
  function Uses(w: World, tx: string): nat { |FlowsOf(w.flows, tx)| + multiset(w.issued)[tx] }

  /** While the context could still be consumed, the tombstone of a used transaction is in the cache. */
  predicate Remembered(w: World, tx: string, expiry: Instant) {
    var key := Key(ProxyTransaction, tx);
    w.clock >= expiry || (key in w.store && w.store[key] == expiry)
  }

  ghost predicate Invariant(w: World, expiryOf: string -> Instant) {
    forall tx :: Uses(w, tx) <= 1 && (Uses(w, tx) == 1 ==> Remembered(w, tx, expiryOf(tx)))
  }

  lemma RememberedLonger(w: World, capacity: nat, entries: seq<ReplayEntry>, now: Instant, tx: string, expiry: Instant)
    requires Remembered(w, tx, expiry) && w.clock <= now
    ensures Remembered(w.(store := Step(w.store, capacity, entries, now).0, clock := now), tx, expiry)
  {
    if now < expiry {
      StepKeepsLive(w.store, capacity, entries, now, Key(ProxyTransaction, tx));
    }
  }

  lemma AddedFlow(flows: map<nat, UpstreamFlow>, handle: nat, flow: UpstreamFlow, tx: string)
    requires handle !in flows
    ensures FlowsOf(flows[handle := flow], tx) ==
            FlowsOf(flows, tx) + if flow.context.transactionId == tx then {handle} else {}
  {
  }

  lemma RemovedFlow(flows: map<nat, UpstreamFlow>, handle: nat, tx: string)
    requires handle in flows
    ensures FlowsOf(flows, tx) ==
            FlowsOf(flows - {handle}, tx) + if flows[handle].context.transactionId == tx then {handle} else {}
    ensures handle !in FlowsOf(flows - {handle}, tx)
  {
  }

  /** A fresh transaction was not in use: had it been, its tombstone would still be live. */
  lemma FreshMeansUnused(w: World, capacity: nat, e: Event, expiryOf: string -> Instant)
    requires e.Consume? && Allowed(w, e) && HonestCodec(e, expiryOf) && Invariant(w, expiryOf)
    requires PlanUpstream(e.proxy, e.xml, e.upstream).Ok?
    requires var entry := PlanUpstream(e.proxy, e.xml, e.upstream).value.1;
             Step(w.store, capacity, [entry], e.upstream.now).1 == Fresh
    ensures var (flow, entry) := PlanUpstream(e.proxy, e.xml, e.upstream).value; var tx := flow.context.transactionId;
            && Uses(w, tx) == 0
            && Remembered(Next(capacity, w, e), tx, expiryOf(tx))
  {
    SingleUse.TransactionIsLive(e.proxy, e.xml, e.upstream);
    hide PlanUpstream, Step, Uses;
    var (flow, entry) := PlanUpstream(e.proxy, e.xml, e.upstream).value;
    StepStores(w.store, capacity, [entry], e.upstream.now, 0);
    assert Uses(w, flow.context.transactionId) <= 1;
  }

  lemma ConsumeMovesClock(capacity: nat, w: World, e: Event)
    requires e.Consume? && Allowed(w, e)
    ensures w.clock <= e.upstream.now && e.handle !in w.flows
  {
  }

  lemma ConsumeKeepsInvariant(capacity: nat, w: World, e: Event, expiryOf: string -> Instant)
    requires e.Consume? && Allowed(w, e) && HonestCodec(e, expiryOf) && Invariant(w, expiryOf)
    ensures Invariant(Next(capacity, w, e), expiryOf)
  {
    hide PlanUpstream, Step, Allowed, HonestCodec;
    var w' := Next(capacity, w, e);
    var plan := PlanUpstream(e.proxy, e.xml, e.upstream);
    ConsumeMovesClock(capacity, w, e);
    if plan.Ok? {
      var (flow, entry) := plan.value;
      var accepted := Step(w.store, capacity, [entry], e.upstream.now).1 == Fresh;
      if accepted { FreshMeansUnused(w, capacity, e, expiryOf); }
      forall tx ensures Uses(w', tx) <= 1 && (Uses(w', tx) == 1 ==> Remembered(w', tx, expiryOf(tx))) {
        AddedFlow(w.flows, e.handle, flow, tx);
        assert Uses(w, tx) <= 1;
        if Uses(w, tx) == 1 { RememberedLonger(w, capacity, [entry], e.upstream.now, tx, expiryOf(tx)); }
      }
    } else {
      forall tx ensures Uses(w', tx) <= 1 && (Uses(w', tx) == 1 ==> Remembered(w', tx, expiryOf(tx))) {
        assert Uses(w, tx) == Uses(w', tx);
      }
    }
  }

  lemma RelayKeepsInvariant(capacity: nat, w: World, e: Event, expiryOf: string -> Instant)
    requires e.Relay? && Invariant(w, expiryOf)
    ensures Invariant(Next(capacity, w, e), expiryOf)
  {
    hide RelayToDownstream;
    var w' := Next(capacity, w, e);
    if e.relayed in w.flows {
      var used := w.flows[e.relayed].context.transactionId;
      assert multiset(w.issued + [used]) == multiset(w.issued) + multiset{used};
      assert forall tx :: Remembered(w', tx, expiryOf(tx)) == Remembered(w, tx, expiryOf(tx));
      hide Remembered;
      forall tx ensures Uses(w', tx) <= 1 && (Uses(w', tx) == 1 ==> Remembered(w', tx, expiryOf(tx))) {
        RemovedFlow(w.flows, e.relayed, tx);
        assert Uses(w', tx) <= Uses(w, tx) <= 1;
      }
    }
  }

  lemma OtherUseKeepsInvariant(capacity: nat, w: World, e: Event, expiryOf: string -> Instant)
    requires e.OtherUse? && Allowed(w, e) && Invariant(w, expiryOf)
    ensures Invariant(Next(capacity, w, e), expiryOf)
  {
    hide Step;
    var w' := Next(capacity, w, e);
    forall tx ensures Uses(w', tx) <= 1 && (Uses(w', tx) == 1 ==> Remembered(w', tx, expiryOf(tx))) {
      assert Uses(w', tx) == Uses(w, tx) <= 1;
      if Uses(w, tx) == 1 { RememberedLonger(w, capacity, e.entries, e.now, tx, expiryOf(tx)); }
    }
  }

  /** Every reachable world keeps the invariant. */
  lemma {:induction false} InvariantHolds(capacity: nat, run: seq<Event>, expiryOf: string -> Instant)
    requires Legal(capacity, run, expiryOf)
    ensures Invariant(After(capacity, run), expiryOf)
  {
    if run != [] {
      hide Next, Allowed, HonestCodec, Invariant;
      var n := |run| - 1;
      var front := run[..n];
      forall i | 0 <= i < n ensures Allowed(After(capacity, front[..i]), front[i]) && HonestCodec(front[i], expiryOf) {
        assert front[..i] == run[..i] && front[i] == run[i];
      }
      InvariantHolds(capacity, front, expiryOf);
      assert Allowed(After(capacity, run[..n]), run[n]) && HonestCodec(run[n], expiryOf);
      match run[n]
      case Consume(_, _, _, _) => ConsumeKeepsInvariant(capacity, After(capacity, front), run[n], expiryOf);
      case Relay(_, _, _, _, _) => RelayKeepsInvariant(capacity, After(capacity, front), run[n], expiryOf);
      case OtherUse(_, _) => OtherUseKeepsInvariant(capacity, After(capacity, front), run[n], expiryOf);
    } else {
      EmptyInvariant(expiryOf);
    }
  }

  lemma EmptyInvariant(expiryOf: string -> Instant)
    ensures Invariant(EMPTY, expiryOf)
  {
    forall tx ensures Uses(EMPTY, tx) == 0 {
      assert FlowsOf(EMPTY.flows, tx) == {};
    }
  }

  /** Over every run, of any number of proxies, relays and other users of the cache: each sealed
      transaction has at most one upstream flow alive or one downstream response issued, never both. */
  lemma OneResponsePerTransaction(capacity: nat, run: seq<Event>, expiryOf: string -> Instant, tx: string)
    requires Legal(capacity, run, expiryOf)
    ensures var w := After(capacity, run);
            && multiset(w.issued)[tx] <= 1
            && |FlowsOf(w.flows, tx)| <= 1
            && (tx in w.issued ==> FlowsOf(w.flows, tx) == {})
  {
    InvariantHolds(capacity, run, expiryOf);
    var w := After(capacity, run);
    hide After, Legal;
    assert Uses(w, tx) <= 1;
    assert tx in w.issued ==> multiset(w.issued)[tx] >= 1;
  }

  /** The bound is reached: on an empty cache with room, a transaction that validates and whose relay the
      proxy accepts makes a legal run that issues it and leaves no flow behind. */
  lemma ConsumeThenRelayIssues(capacity: nat, consume: Event, relay: Event)
    requires capacity > 0 && consume.Consume? && relay.Relay? && relay.relayed == consume.handle
    requires PlanUpstream(consume.proxy, consume.xml, consume.upstream).Ok?
    requires var flow := PlanUpstream(consume.proxy, consume.xml, consume.upstream).value.0;
             RelayToDownstream(relay.proxy, relay.callbacks, relay.deliver, flow, relay.relay).result.Ok?
    ensures var context := PlanUpstream(consume.proxy, consume.xml, consume.upstream).value.0.context;
            var w := After(capacity, [consume, relay]);
            && Legal(capacity, [consume, relay], _ => context.expiresAt)
            && w.issued == [context.transactionId] && w.flows == map[]
  {
    hide PlanUpstream, RelayToDownstream, Step, Sweep;
    var (flow, entry) := PlanUpstream(consume.proxy, consume.xml, consume.upstream).value;
    SweepsAll(map[], consume.upstream.now);
    StoresIntoEmpty(map[], capacity, entry, consume.upstream.now);
    var run := [consume, relay];
    assert run[..0] == [] && run[..1] == [consume] && [consume][..0] == [];
    var w := After(capacity, [consume]);
    assert w == Next(capacity, EMPTY, consume) by { assert After(capacity, []) == EMPTY; }
    assert w.flows == map[consume.handle := flow] && w.issued == [];
    assert w.flows - {consume.handle} == map[];
  }

  /** One such run, in concrete values. */
  lemma SampleIssues(end: Instant, now: Instant, skew: Duration)
    requires Samples.Timely(end, now, skew) && AddDuration(end, skew).Some? && now < CONTEXT_LIFETIME
    requires Samples.Writable(end, now)
    ensures var run := [Consume(Samples.PROXY, Samples.XmlUntil(end), Samples.UpstreamAt(now, skew), 0),
                        Relay(Samples.PROXY, Samples.CALLBACKS, Samples.Deliver(), 0, Samples.RelayAt(now))];
            Legal(1, run, _ => CONTEXT_LIFETIME) && After(1, run).issued == ["transaction"]
  {
    Samples.UpstreamPlans(end, now, skew);
    Samples.RelaySucceeds(end, now);
    hide PlanUpstream, RelayToDownstream, After, Legal;
    ConsumeThenRelayIssues(1, Consume(Samples.PROXY, Samples.XmlUntil(end), Samples.UpstreamAt(now, skew), 0),
                           Relay(Samples.PROXY, Samples.CALLBACKS, Samples.Deliver(), 0, Samples.RelayAt(now)));
  }

  /** A relay by any other proxy than the one that produced the flow issues nothing and uses the flow up. */
  lemma ForeignRelayIssuesNothing(capacity: nat, w: World, e: Event)
    requires e.Relay? && e.relayed in w.flows && w.flows[e.relayed].instance != e.proxy.instance
    ensures var w' := Next(capacity, w, e);
            w'.issued == w.issued && e.relayed !in w'.flows && w'.store == w.store
  {
    hide IdP.IssueResponse;
  }
}
