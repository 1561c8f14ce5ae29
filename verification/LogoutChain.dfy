/** Sequential front-channel logout (`FrontChannelChain` in src/proxy.rs): one target at a time, and what
    the collected outcomes say about the targets over any run. */
module LogoutChain {
  import opened Wrappers
  import opened Saml

  const USIZE_MAX: nat := 0xffff_ffff_ffff_ffff

  datatype Target = Target(sp: SpDescriptor, nameId: NameId, sessionIndex: Option<string>)

  datatype LogoutStart = LogoutStart(dispatch: string, tracker: string)

  /** What one consumed LogoutResponse came to; how it is validated is not part of this model. */
  datatype LogoutOutcome = LogoutOutcome(status: string)

  type Outcome = Result<LogoutOutcome, Error>

  /** The identity provider as one call of the chain meets it: its SLO endpoint, and what starting a
      logout and consuming the response at hand come to. */
  datatype Idp = Idp(sloUrl: Option<string>,
                     startLogout: Target -> Result<LogoutStart, Error>,
                     consumeResponse: (Target, string) -> Outcome)

  datatype State = NextTarget(index: nat, dispatch: string, tracker: string) | Done(outcomes: seq<Outcome>)

  datatype Chain = Chain(targets: seq<Target>, state: State, pending: seq<Outcome>)

  // ---- The two operations, as functions of the chain ----

  function Start(idp: Idp, targets: seq<Target>): Result<Chain, Error> {
    if targets == [] then Ok(Chain(targets, Done([]), []))
    else
      var logout :- idp.startLogout(targets[0]);
      Ok(Chain(targets, NextTarget(0, logout.dispatch, logout.tracker), []))
  }

  function AdvanceStep(chain: Chain, idp: Idp): (Chain, Result<(), Error>) {
    match chain.state
    case Done(_) => (chain, Err(InvalidConfiguration))
    case NextTarget(index, _, tracker) =>
      if index >= |chain.targets| || idp.sloUrl.None? then (chain, Err(InvalidConfiguration))
      else
        var recorded := chain.(pending := chain.pending + [idp.consumeResponse(chain.targets[index], tracker)]);
        if index + 1 > USIZE_MAX then (recorded, Err(InvalidConfiguration))
        else if index + 1 >= |chain.targets| then
          (recorded.(state := Done(recorded.pending), pending := []), Ok(()))
        else match idp.startLogout(chain.targets[index + 1])
          case Err(error) => (recorded, Err(error))
          case Ok(logout) =>
            (recorded.(state := NextTarget(index + 1, logout.dispatch, logout.tracker)), Ok(()))
  }

  // ---- The class that updates itself ----

  class FrontChannelChain {
    var targets: seq<Target>
    var state: State
    var pendingOutcomes: seq<Outcome>

    ghost function View(): Chain
      reads this
    {
      Chain(targets, state, pendingOutcomes)
    }

    constructor FromParts(targets: seq<Target>, state: State)
      ensures View() == Chain(targets, state, [])
    {
      this.targets, this.state, this.pendingOutcomes := targets, state, [];
    }

    static method Begin(idp: Idp, targets: seq<Target>) returns (r: Result<FrontChannelChain, Error>)
      ensures r.Ok? ==> fresh(r.value) && Start(idp, targets) == Ok(r.value.View())
      ensures r.Err? ==> Start(idp, targets) == Err(r.error)
    {
      if targets == [] {
        var done := new FrontChannelChain.FromParts(targets, Done([]));
        return Ok(done);
      }
      var logout := idp.startLogout(targets[0]);
      if logout.Err? {
        return Err(logout.error);
      }
      var chain := new FrontChannelChain.FromParts(targets, NextTarget(0, logout.value.dispatch, logout.value.tracker));
      return Ok(chain);
    }

    method Advance(idp: Idp) returns (r: Result<(), Error>)
      modifies this`state, this`pendingOutcomes
      ensures (View(), r) == AdvanceStep(old(View()), idp)
    {
      if state.Done? {
        return Err(InvalidConfiguration);
      }
      var index, tracker := state.index, state.tracker;
      if index >= |targets| {
        return Err(InvalidConfiguration);
      }
      if idp.sloUrl.None? {
        return Err(InvalidConfiguration);
      }
      pendingOutcomes := pendingOutcomes + [idp.consumeResponse(targets[index], tracker)];
      if index + 1 > USIZE_MAX {
        return Err(InvalidConfiguration);
      }
      if index + 1 >= |targets| {
        state := Done(pendingOutcomes);
        pendingOutcomes := [];
        return Ok(());
      }
      var logout := idp.startLogout(targets[index + 1]);
      if logout.Err? {
        return Err(logout.error);
      }
      state := NextTarget(index + 1, logout.value.dispatch, logout.value.tracker);
      return Ok(());
    }
  }

  // ---- Runs ----

  function Run(chain: Chain, calls: seq<Idp>): Chain {
    if calls == [] then chain else AdvanceStep(Run(chain, calls[..|calls| - 1]), calls[|calls| - 1]).0
  }

  /** Whether this advance consumes a response, and so records an outcome. */
  predicate Records(chain: Chain, idp: Idp) {
    chain.state.NextTarget? && chain.state.index < |chain.targets| && idp.sloUrl.Some?
  }

  /** A recorded outcome: the call that recorded it, and the target it was recorded for. */
  datatype Entry = Entry(call: nat, target: nat, outcome: Outcome)

  /** The recorded outcomes of a run, in order. */
  function Log(chain: Chain, calls: seq<Idp>): seq<Entry> {
    if calls == [] then []
    else
      var front := calls[..|calls| - 1];
      var before, idp := Run(chain, front), calls[|calls| - 1];
      Log(chain, front) +
      if Records(before, idp)
      then [Entry(|front|, before.state.index, idp.consumeResponse(before.targets[before.state.index], before.state.tracker))]
      else []
  }

  /** This advance consumes a response and then cannot start the logout of the next target. */
  predicate FailsToStartNext(chain: Chain, idp: Idp) {
    && Records(chain, idp) && chain.state.index + 1 < |chain.targets|
    && idp.startLogout(chain.targets[chain.state.index + 1]).Err?
  }

  /** Advances that recorded an outcome and then could not start the next target. */
  function Failures(chain: Chain, calls: seq<Idp>): nat {
    if calls == [] then 0
    else
      var front := calls[..|calls| - 1];
      var before, idp := Run(chain, front), calls[|calls| - 1];
      Failures(chain, front) + if FailsToStartNext(before, idp) then 1 else 0
  }

  function Successes(chain: Chain, calls: seq<Idp>): nat {
    if calls == [] then 0
    else
      var front := calls[..|calls| - 1];
      Successes(chain, front) + if AdvanceStep(Run(chain, front), calls[|calls| - 1]).1.Ok? then 1 else 0
  }

  /** The targets still to be exercised. */
  function Remaining(chain: Chain): int {
    match chain.state
    case NextTarget(index, _, _) => |chain.targets| - index
    case Done(_) => 0
  }

  function Recorded(chain: Chain): seq<Outcome> {
    match chain.state
    case NextTarget(_, _, _) => chain.pending
    case Done(outcomes) => outcomes
  }

  function Owners(log: seq<Entry>): seq<nat> { seq(|log|, i requires 0 <= i < |log| => log[i].target) }

  function OutcomesOf(log: seq<Entry>): seq<Outcome> { seq(|log|, i requires 0 <= i < |log| => log[i].outcome) }

  /** The targets come up in order, `next` is the latest that may have come up, and none before it is missing. */
  predicate InTargetOrder(owners: seq<nat>, next: nat) {
    && (forall i, j :: 0 <= i < j < |owners| ==> owners[i] <= owners[j])
    && (forall i :: 0 <= i < |owners| ==> owners[i] <= next)
    && (forall t: nat :: t < next ==> t in owners)
  }

  /** What one advance does to the position: it stays unless an outcome is recorded and the call succeeds. */
  lemma AdvanceMoves(chain: Chain, idp: Idp)
    requires |chain.targets| <= USIZE_MAX
    ensures var (next, r) := AdvanceStep(chain, idp);
            && next.targets == chain.targets
            && (r.Ok? <==> Records(chain, idp) && !FailsToStartNext(chain, idp))
            && (r.Err? ==> next.state == chain.state)
            && Recorded(next) == Recorded(chain) +
                 (if Records(chain, idp) then [idp.consumeResponse(chain.targets[chain.state.index], chain.state.tracker)] else [])
            && (r.Ok? ==> Remaining(next) == Remaining(chain) - 1
                          && (if chain.state.index + 1 < |chain.targets|
                              then next.state.NextTarget? && next.state.index == chain.state.index + 1
                              else next.state.Done? && next.pending == []))
            && (chain.state.Done? ==> next == chain)
  {
  }

  /** Conservation over any run from a successful start: what is recorded is the log, its length is the
      targets passed plus the failures to start a next one, each successful advance passes one, and the
      chain is done when all are passed. */
  lemma {:induction false} Conservation(idp: Idp, targets: seq<Target>, calls: seq<Idp>)
    requires |targets| <= USIZE_MAX && Start(idp, targets).Ok?
    ensures var start := Start(idp, targets).value; var chain := Run(start, calls);
            && chain.targets == targets
            && Recorded(chain) == OutcomesOf(Log(start, calls))
            && |Log(start, calls)| == Successes(start, calls) + Failures(start, calls)
            && Remaining(chain) == |targets| - Successes(start, calls)
            && (chain.state.NextTarget? ==> chain.state.index < |targets|)
            && (chain.state.Done? <==> Successes(start, calls) == |targets|)
            && (chain.state.Done? ==> chain.pending == [])
  {
    if calls != [] {
      var start := Start(idp, targets).value;
      var front, call := calls[..|calls| - 1], calls[|calls| - 1];
      Conservation(idp, targets, front);
      AdvanceMoves(Run(start, front), call);
      hide AdvanceStep, Records, FailsToStartNext, Start;
      var log, longer := Log(start, front), Log(start, calls);
      if Records(Run(start, front), call) {
        assert longer == log + [longer[|log|]];
        assert OutcomesOf(longer) == OutcomesOf(log) + [longer[|log|].outcome];
      } else {
        assert longer == log;
      }
    }
  }

  /** Over any run the outcomes are recorded for the targets in order, none skipped; at the end every
      target has at least one. */
  lemma {:induction false} OutcomesFollowTargets(idp: Idp, targets: seq<Target>, calls: seq<Idp>)
    requires |targets| <= USIZE_MAX && Start(idp, targets).Ok?
    ensures var start := Start(idp, targets).value; var owners := Owners(Log(start, calls));
            match Run(start, calls).state
            case NextTarget(index, _, _) => InTargetOrder(owners, index)
            case Done(_) => InTargetOrder(owners, |targets|) && forall i :: 0 <= i < |owners| ==> owners[i] < |targets|
  {
    if calls != [] {
      hide AdvanceStep, InTargetOrder, Start, Successes, Failures, Recorded, Log, Owners, Records;
      var start := Start(idp, targets).value;
      var front, call := calls[..|calls| - 1], calls[|calls| - 1];
      OutcomesFollowTargets(idp, targets, front);
      Conservation(idp, targets, front);
      var before := Run(start, front);
      AdvanceMoves(before, call);
      LastOwner(start, calls);
      if Records(before, call) { OneMoreOwner(Owners(Log(start, front)), before.state.index); }
    }
  }

  lemma LastOwner(start: Chain, calls: seq<Idp>)
    requires calls != []
    ensures var front := calls[..|calls| - 1]; var before := Run(start, front);
            Owners(Log(start, calls)) ==
            Owners(Log(start, front)) + if Records(before, calls[|calls| - 1]) then [before.state.index] else []
  {
    hide Run;
  }

  // ---- Which request a response is held against ----

  /** The logouts a run starts successfully, target by target, told from the calls alone: the first by the
      start of the chain, each next one by the first call that can start it. */
  function Started(idp: Idp, targets: seq<Target>, calls: seq<Idp>): seq<LogoutStart> {
    if targets == [] then []
    else if calls == [] then
      match idp.startLogout(targets[0]) case Ok(logout) => [logout] case Err(_) => []
    else
      var before, call := Started(idp, targets, calls[..|calls| - 1]), calls[|calls| - 1];
      if 0 < |before| < |targets| && call.sloUrl.Some? && call.startLogout(targets[|before|]).Ok?
      then before + [call.startLogout(targets[|before|]).value] else before
  }

  /** The dispatch on show and the tracker kept beside it are those of the logout started for the very
      target that is next. */
  lemma {:induction false} StateShowsStartedLogout(idp: Idp, targets: seq<Target>, calls: seq<Idp>)
    requires |targets| <= USIZE_MAX && Start(idp, targets).Ok?
    ensures var state := Run(Start(idp, targets).value, calls).state; var started := Started(idp, targets, calls);
            if state.NextTarget? then |started| == state.index + 1 <= |targets| && started[state.index] == LogoutStart(state.dispatch, state.tracker)
            else |started| == |targets|
  {
    if calls != [] {
      var start := Start(idp, targets).value;
      var front, call := calls[..|calls| - 1], calls[|calls| - 1];
      StateShowsStartedLogout(idp, targets, front);
      Conservation(idp, targets, front);
      AdvanceShowsStarted(Run(start, front), call);
      hide AdvanceStep, Start, Log, Successes, Failures, Recorded;
    }
  }

  lemma AdvanceShowsStarted(chain: Chain, idp: Idp)
    requires |chain.targets| <= USIZE_MAX && (chain.state.NextTarget? ==> chain.state.index < |chain.targets|)
    ensures var next := AdvanceStep(chain, idp).0.state;
            if chain.state.Done? || idp.sloUrl.None? then next == chain.state
            else
              var index := chain.state.index + 1;
              if index == |chain.targets| then next.Done?
              else match idp.startLogout(chain.targets[index])
                case Ok(logout) => next == NextTarget(index, logout.dispatch, logout.tracker)
                case Err(_) => next == chain.state
  {
  }

  /** The outcome is what consuming the response of its call, for its target, against the logout started
      for that target comes to. */
  predicate AnswersStart(e: Entry, targets: seq<Target>, calls: seq<Idp>, started: seq<LogoutStart>) {
    && e.call < |calls| && e.target < |targets| && e.target < |started|
    && e.outcome == calls[e.call].consumeResponse(targets[e.target], started[e.target].tracker)
  }

  /** Over any run every recorded outcome answers the logout started for its target; no response is held
      against another target's request. */
  lemma {:induction false} OutcomesAnswerStartedLogouts(idp: Idp, targets: seq<Target>, calls: seq<Idp>)
    requires |targets| <= USIZE_MAX && Start(idp, targets).Ok?
    ensures forall e :: e in Log(Start(idp, targets).value, calls) ==>
              AnswersStart(e, targets, calls, Started(idp, targets, calls))
  {
    hide AdvanceStep, Start, Run, Log, Started, AnswersStart, Records;
    var start := Start(idp, targets).value;
    if calls == [] {
      assert Log(start, []) == [] by { NothingLogged(start); }
    } else {
      var front := calls[..|calls| - 1];
      OutcomesAnswerStartedLogouts(idp, targets, front);
      forall e | e in Log(start, calls) ensures AnswersStart(e, targets, calls, Started(idp, targets, calls)) {
        LastEntryAnswers(idp, targets, calls, e);
        if e in Log(start, front) { EarlierEntryAnswers(idp, targets, calls, e); }
      }
    }
  }

  lemma NothingLogged(start: Chain)
    ensures Log(start, []) == []
  {
  }

  lemma EarlierEntryAnswers(idp: Idp, targets: seq<Target>, calls: seq<Idp>, e: Entry)
    requires calls != [] && AnswersStart(e, targets, calls[..|calls| - 1], Started(idp, targets, calls[..|calls| - 1]))
    ensures AnswersStart(e, targets, calls, Started(idp, targets, calls))
  {
    assert Started(idp, targets, calls[..|calls| - 1]) <= Started(idp, targets, calls);
  }

  lemma LastEntryAnswers(idp: Idp, targets: seq<Target>, calls: seq<Idp>, e: Entry)
    requires |targets| <= USIZE_MAX && Start(idp, targets).Ok? && calls != []
    requires e in Log(Start(idp, targets).value, calls)
    ensures e in Log(Start(idp, targets).value, calls[..|calls| - 1]) || AnswersStart(e, targets, calls, Started(idp, targets, calls))
  {
    var front := calls[..|calls| - 1];
    StateShowsStartedLogout(idp, targets, front);
    Conservation(idp, targets, front);
    hide AdvanceStep, Start, Run, Successes, Failures, Recorded;
    assert Started(idp, targets, front) <= Started(idp, targets, calls);
  }

  lemma OneMoreOwner(owners: seq<nat>, next: nat)
    requires InTargetOrder(owners, next)
    ensures InTargetOrder(owners + [next], next) && InTargetOrder(owners + [next], next + 1)
    ensures forall i :: 0 <= i <= |owners| ==> (owners + [next])[i] <= next
  {
  }

  /** A finished chain reports one outcome per target, each in its target's place, exactly when no
      advance failed to start its successor; every such failure adds one outcome. */
  lemma OutcomesParallelTargetsIffNoFailure(idp: Idp, targets: seq<Target>, calls: seq<Idp>)
    requires |targets| <= USIZE_MAX && Start(idp, targets).Ok?
    requires Run(Start(idp, targets).value, calls).state.Done?
    ensures var start := Start(idp, targets).value;
            && |Run(start, calls).state.outcomes| == |targets| + Failures(start, calls)
            && (Owners(Log(start, calls)) == seq(|targets|, i => i) <==> Failures(start, calls) == 0)
  {
    Conservation(idp, targets, calls);
    OutcomesFollowTargets(idp, targets, calls);
    hide Run, Log, Failures, Successes, Start;
    var start := Start(idp, targets).value;
    var log := Log(start, calls);
    assert |OutcomesOf(log)| == |log| == |Owners(log)|;
    if Failures(start, calls) == 0 {
      ParallelOwners(Owners(log), |targets|);
    }
  }

  /** The failure occurs: of two targets the second cannot be started at first, and the first one's
      response is recorded twice. */
  lemma FailedStartRecordsTwice(a: Target, b: Target, good: Idp, bad: Idp)
    requires good.sloUrl.Some? && good.startLogout(a).Ok? && good.startLogout(b).Ok?
    requires bad.sloUrl.Some? && bad.startLogout(b).Err?
    ensures var start := Start(good, [a, b]).value; var calls := [bad, good, good];
            && Run(start, calls).state.Done? && |Run(start, calls).state.outcomes| == 3
            && Failures(start, calls) == 1 && Owners(Log(start, calls)) == [0, 0, 1]
  {
    var start := Start(good, [a, b]).value;
    var calls := [bad, good, good];
    assert calls[..3] == calls && calls[..2] == [bad, good] && [bad, good][..1] == [bad] && [bad][..0] == [];
    var one := Run(start, [bad]);
    assert one == AdvanceStep(start, bad).0 by { assert Run(start, []) == start; }
    var two := Run(start, [bad, good]);
    assert two == AdvanceStep(one, good).0;
    assert Log(start, [bad]) == [Entry(0, 0, bad.consumeResponse(a, start.state.tracker))];
    assert Failures(start, [bad]) == 1;
    assert Failures(start, [bad, good]) == 1;
  }

  /** As many owners as targets, in order and none missing: each target exactly once. */
  lemma ParallelOwners(owners: seq<nat>, n: nat)
    requires |owners| == n && InTargetOrder(owners, n)
    requires forall i :: 0 <= i < n ==> owners[i] < n
    ensures owners == seq(n, i => i)
  {
    if n > 0 {
      forall i | 0 <= i < n - 1 ensures owners[i + 1] <= owners[i] + 1 {
        if owners[i] + 1 < n {
          assert owners[i] + 1 in owners;
          var j :| 0 <= j < n && owners[j] == owners[i] + 1;
        }
      }
      assert 0 in owners && n - 1 in owners;
      var first :| 0 <= first < n && owners[first] == 0;
      var last :| 0 <= last < n && owners[last] == n - 1;
      assert owners[0] == 0 && owners[n - 1] == n - 1;
      forall i | 0 <= i < n ensures owners[i] == i {
        ClimbsByOne(owners, 0, i);
        ClimbsByOne(owners, i, n - 1);
      }
    }
  }

  lemma {:induction false} ClimbsByOne(owners: seq<nat>, i: nat, j: nat)
    requires i <= j < |owners|
    requires forall k :: 0 <= k < |owners| - 1 ==> owners[k + 1] <= owners[k] + 1
    ensures owners[j] - owners[i] <= j - i
    decreases j
  {
    if i < j { ClimbsByOne(owners, i, j - 1); }
  }
}
