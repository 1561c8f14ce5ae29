/** The in-memory replay cache of src/replay.rs and what it guarantees over whole histories of calls. */
module Replay {
  import opened Wrappers
  import opened Instants

  datatype ReplayNamespace = AssertionId | ProxyTransaction | ArtifactResolve

  datatype Key = Key(namespace: ReplayNamespace, id: string)

  datatype ReplayEntry = ReplayEntry(key: Key, expiresAt: Instant)

  datatype ReplayMode = All | OneTimeUseOnly | Off

  type Store = map<Key, Instant>

  /** `Ok(true)`, `Ok(false)` and `Err(ReplayCacheFull)`. */
  datatype Verdict = Fresh | Replayed | Full

  const USIZE_MAX: nat := 0xffff_ffff_ffff_ffff

  // ---- Specification of one call ----

  function Sweep(m: Store, now: Instant): Store {
    map k | k in m && m[k] > now :: m[k]
  }

  /** The batch names a key twice, or one that is stored. */
  predicate Conflicts(m: Store, entries: seq<ReplayEntry>) {
    || (exists i, j :: 0 <= i < j < |entries| && entries[i].key == entries[j].key)
    || (exists i :: 0 <= i < |entries| && entries[i].key in m)
  }

  function Reserved(entries: seq<ReplayEntry>): Store {
    if entries == [] then map[]
    else var last := entries[|entries| - 1]; Reserved(entries[..|entries| - 1])[last.key := last.expiresAt]
  }

  /** One call: the expired entries go whatever the verdict; the batch is stored whole or not at all. */
  function Step(m: Store, capacity: nat, entries: seq<ReplayEntry>, now: Instant): (Store, Verdict) {
    var live := Sweep(m, now);
    if Conflicts(live, entries) then (live, Replayed)
    else if |live| + |entries| > capacity then (live, Full)
    else (live + Reserved(entries), Fresh)
  }

  // ---- The cache ----

  class InMemoryReplayCache {
    const capacity: nat
    var inner: Store

    /** The hard bound on stored entries, expired or live. */
    ghost predicate Valid()
      reads this
    {
      |inner| <= capacity <= USIZE_MAX
    }

    constructor (capacityHint: nat)
      requires capacityHint <= USIZE_MAX
      ensures Valid() && inner == map[] && capacity == capacityHint
    {
      capacity, inner := capacityHint, map[];
    }

    /** The pass over the complete batch before anything is stored. */
    method HasConflict(entries: seq<ReplayEntry>) returns (conflict: bool)
      ensures conflict == Conflicts(inner, entries)
    {
      var pending: set<Key> := {};
      for i := 0 to |entries|
        invariant pending == set k | 0 <= k < i :: entries[k].key
        invariant forall a, b :: 0 <= a < b < i ==> entries[a].key != entries[b].key
        invariant forall a :: 0 <= a < i ==> entries[a].key !in inner
      {
        if entries[i].key in pending || entries[i].key in inner {
          return true;
        }
        pending := pending + {entries[i].key};
      }
      return false;
    }

    method InsertAll(entries: seq<ReplayEntry>)
      modifies this`inner
      ensures inner == old(inner) + Reserved(entries)
    {
      for i := 0 to |entries|
        invariant inner == old(inner) + Reserved(entries[..i])
      {
        inner := inner[entries[i].key := entries[i].expiresAt];
        assert entries[..i + 1][..i] == entries[..i];
      }
      assert entries[..|entries|] == entries;
    }

    method CheckAndInsert(entries: seq<ReplayEntry>, now: Instant) returns (verdict: Verdict)
      requires Valid()
      modifies this`inner
      ensures Valid()
      ensures (inner, verdict) == Step(old(inner), capacity, entries, now)
    {
      hide Conflicts, Sweep, Reserved;
      SweepShrinks(inner, now);
      StepKeepsCapacity(inner, capacity, entries, now);
      inner := Sweep(inner, now);
      var conflict := HasConflict(entries);
      if conflict {
        return Replayed;
      }
      // `checked_add` on `usize`: a sum that overflows is over any capacity.
      var required := |inner| + |entries|;
      if required > USIZE_MAX || required > capacity {
        return Full;
      }
      InsertAll(entries);
      return Fresh;
    }

    /** What a caller reads as the load of the cache never exceeds the ceiling it was built with. */
    method Len() returns (n: nat)
      requires Valid()
      ensures n == |inner| <= capacity
    {
      return |inner|;
    }
  }

  // ---- Facts about one call ----

  lemma SweepShrinks(m: Store, now: Instant)
    ensures |Sweep(m, now)| <= |m|
  {
    SubsetSize(Sweep(m, now).Keys, m.Keys);
  }

  lemma {:induction false} SubsetSize<T>(a: set<T>, b: set<T>)
    requires a <= b
    ensures |a| <= |b|
  {
    if a != {} {
      var x :| x in a;
      SubsetSize(a - {x}, b - {x});
    }
  }

  predicate DistinctKeys(entries: seq<ReplayEntry>) {
    forall i, j :: 0 <= i < j < |entries| ==> entries[i].key != entries[j].key
  }

  function KeysOf(entries: seq<ReplayEntry>): set<Key> { set i | 0 <= i < |entries| :: entries[i].key }

  lemma {:induction false} ReservedKeys(entries: seq<ReplayEntry>)
    ensures Reserved(entries).Keys == KeysOf(entries)
  {
    if entries != [] {
      var n := |entries| - 1;
      ReservedKeys(entries[..n]);
      assert entries == entries[..n] + [entries[n]];
    }
  }

  lemma {:induction false} ReservedDistinct(entries: seq<ReplayEntry>)
    requires DistinctKeys(entries)
    ensures |Reserved(entries)| == |entries|
  {
    if entries != [] {
      var n := |entries| - 1;
      ReservedDistinct(entries[..n]);
      ReservedKeys(entries[..n]);
      assert entries[n].key !in Reserved(entries[..n]);
    }
  }

  lemma {:induction false} ReservedExpiry(entries: seq<ReplayEntry>, a: nat)
    requires DistinctKeys(entries) && a < |entries|
    ensures entries[a].key in Reserved(entries) && Reserved(entries)[entries[a].key] == entries[a].expiresAt
  {
    var n := |entries| - 1;
    if a < n {
      ReservedExpiry(entries[..n], a);
      assert entries[..n][a] == entries[a];
    }
  }

  /** The size after a call, by verdict: it adds up exactly and never exceeds the capacity. */
  lemma StepKeepsCapacity(m: Store, capacity: nat, entries: seq<ReplayEntry>, now: Instant)
    requires |m| <= capacity
    ensures var (m', verdict) := Step(m, capacity, entries, now);
            && |m'| <= capacity
            && |m'| == |Sweep(m, now)| + if verdict == Fresh then |entries| else 0
  {
    SweepShrinks(m, now);
    var live := Sweep(m, now);
    if !Conflicts(live, entries) {
      ReservedKeys(entries);
      ReservedDistinct(entries);
      assert live.Keys !! Reserved(entries).Keys;
      DisjointUnionSize(live, Reserved(entries));
    }
  }

  /** No call drops an entry that is still live, or changes its expiry. */
  lemma StepKeepsLive(m: Store, capacity: nat, entries: seq<ReplayEntry>, now: Instant, key: Key)
    requires key in m && m[key] > now
    ensures var m' := Step(m, capacity, entries, now).0; key in m' && m'[key] == m[key]
  {
    if !Conflicts(Sweep(m, now), entries) { ReservedKeys(entries); }
  }

  /** An accepting call stores each of its entries, and none of their keys was live before it. */
  lemma StepStores(m: Store, capacity: nat, entries: seq<ReplayEntry>, now: Instant, a: nat)
    requires a < |entries| && Step(m, capacity, entries, now).1 == Fresh
    ensures var m' := Step(m, capacity, entries, now).0; var key := entries[a].key;
            && key in m' && m'[key] == entries[a].expiresAt
            && (key in m ==> m[key] <= now)
  {
    ReservedExpiry(entries, a);
    assert entries[a].key !in Sweep(m, now);
  }

  /** Entry by entry and verdict by verdict: what is stored after a call is what was stored and live, and,
      if the call accepts, its batch; it refuses as a replay exactly when the batch has fewer keys than
      entries or one of them is live, and for lack of room exactly when only that stands in the way. */
  lemma StepExactly(m: Store, capacity: nat, entries: seq<ReplayEntry>, now: Instant)
    ensures var (m', verdict) := Step(m, capacity, entries, now);
            && (verdict == Replayed <==>
                  |KeysOf(entries)| < |entries| || exists key :: key in KeysOf(entries) && key in m && m[key] > now)
            && (verdict == Full <==> verdict != Replayed && |Sweep(m, now)| + |entries| > capacity)
            && (forall key: Key, t: Instant :: (key in m' && m'[key] == t) <==>
                  || (key in m && m[key] == t && t > now)
                  || (verdict == Fresh && ReplayEntry(key, t) in entries))
  {
    ConflictsExactly(Sweep(m, now), entries);
    if Step(m, capacity, entries, now).1 == Fresh { ReservedExactly(entries); }
    hide Conflicts, Reserved, KeysOf;
  }

  lemma ConflictsExactly(m: Store, entries: seq<ReplayEntry>)
    ensures Conflicts(m, entries) <==> |KeysOf(entries)| < |entries| || exists key :: key in KeysOf(entries) && key in m
    ensures !Conflicts(m, entries) ==> DistinctKeys(entries) && KeysOf(entries) !! m.Keys
  {
    KeysAreDistinctIffCounted(entries);
    if key :| key in KeysOf(entries) && key in m {
      var i :| 0 <= i < |entries| && entries[i].key == key;
    }
  }

  lemma ReservedExactly(entries: seq<ReplayEntry>)
    requires DistinctKeys(entries)
    ensures Reserved(entries).Keys == KeysOf(entries)
    ensures forall key: Key, t: Instant ::
              (key in Reserved(entries) && Reserved(entries)[key] == t) <==> ReplayEntry(key, t) in entries
  {
    ReservedKeys(entries);
    forall a | 0 <= a < |entries|
      ensures entries[a].key in Reserved(entries) && Reserved(entries)[entries[a].key] == entries[a].expiresAt
    {
      ReservedExpiry(entries, a);
    }
    hide Reserved;
  }

  lemma {:induction false} KeysAreDistinctIffCounted(entries: seq<ReplayEntry>)
    ensures |KeysOf(entries)| <= |entries|
    ensures |KeysOf(entries)| == |entries| <==> DistinctKeys(entries)
  {
    if entries != [] {
      var n := |entries| - 1;
      KeysAreDistinctIffCounted(entries[..n]);
      OneMoreKey(entries);
      hide DistinctKeys, KeysOf;
    }
  }

  lemma OneMoreKey(entries: seq<ReplayEntry>)
    requires entries != []
    ensures var front, last := entries[..|entries| - 1], entries[|entries| - 1].key;
            && KeysOf(entries) == KeysOf(front) + {last}
            && (DistinctKeys(entries) <==> DistinctKeys(front) && last !in KeysOf(front))
  {
    var front := entries[..|entries| - 1];
    assert forall i :: 0 <= i < |front| ==> front[i] == entries[i];
  }

  lemma DisjointUnionSize(a: Store, b: Store)
    requires a.Keys !! b.Keys
    ensures |a + b| == |a| + |b|
  {
    assert (a + b).Keys == a.Keys + b.Keys;
  }

  // ---- Histories ----

  /** One atomic call. Concurrent callers are some interleaving of their calls. */
  datatype Call = Call(entries: seq<ReplayEntry>, now: Instant)

  /** What the events of a run ask of the cache; `None` is an event that never reached it. */
  type History = seq<Option<Call>>

  function After(m: Store, capacity: nat, calls: History): Store {
    if calls == [] then m
    else
      var before := After(m, capacity, calls[..|calls| - 1]);
      match calls[|calls| - 1]
      case None => before
      case Some(call) => Step(before, capacity, call.entries, call.now).0
  }

  /** The verdict of call `i` in a history that starts from `m`. */
  predicate Accepted(m: Store, capacity: nat, calls: History, i: nat) {
    && i < |calls| && calls[i].Some?
    && Step(After(m, capacity, calls[..i]), capacity, calls[i].value.entries, calls[i].value.now).1 == Fresh
  }

  predicate Names(call: Option<Call>, key: Key, expiresAt: Instant) {
    call.Some? && exists a :: 0 <= a < |call.value.entries| && call.value.entries[a] == ReplayEntry(key, expiresAt)
  }

  predicate NondecreasingClock(calls: History) {
    forall i, j :: 0 <= i < j < |calls| && calls[i].Some? && calls[j].Some? ==> calls[i].value.now <= calls[j].value.now
  }

  /** No state reachable from the empty cache holds more than the capacity. */
  lemma {:induction false} ReachableWithinCapacity(capacity: nat, calls: History)
    ensures |After(map[], capacity, calls)| <= capacity
  {
    if calls != [] {
      var front := calls[..|calls| - 1];
      ReachableWithinCapacity(capacity, front);
      match calls[|calls| - 1]
      case None =>
      case Some(call) => StepKeepsCapacity(After(map[], capacity, front), capacity, call.entries, call.now);
    }
  }

  /** No call after call `i`, call `j` included, came at or past `t`. */
  predicate Undisturbed(calls: History, i: nat, j: nat, t: Instant)
    requires j <= |calls|
  {
    forall l :: i < l < j && calls[l].Some? ==> calls[l].value.now < t
  }

  /** Call `i` of a history from the empty cache reserved `key` until `t`, and nothing has swept it since. */
  predicate Holds(capacity: nat, calls: History, i: nat, key: Key, t: Instant) {
    Accepted(map[], capacity, calls, i) && Names(calls[i], key, t) && Undisturbed(calls, i, |calls|, t)
  }

  lemma HoldsExtends(capacity: nat, calls: History, i: nat, key: Key, t: Instant)
    requires i + 1 < |calls|
    ensures var front := calls[..|calls| - 1]; var last := calls[|calls| - 1];
            Holds(capacity, calls, i, key, t) <==>
            Holds(capacity, front, i, key, t) && (last.Some? ==> last.value.now < t)
  {
    hide After, Step;
    var front := calls[..|calls| - 1];
    assert calls[..i] == front[..i] && calls[i] == front[i];
    assert Accepted(map[], capacity, calls, i) <==> Accepted(map[], capacity, front, i);
    assert forall l :: 0 <= l < |front| ==> front[l] == calls[l];
  }

  predicate Stores(m: Store, key: Key, t: Instant) { key in m && m[key] == t }

  /** Under any clock, what is stored after a history from the empty cache is exactly what some accepted
      call reserved and no later call came too late for. */
  lemma {:induction false} StoredExactly(capacity: nat, calls: History, key: Key, t: Instant)
    ensures Stores(After(map[], capacity, calls), key, t) <==> exists i :: 0 <= i < |calls| && Holds(capacity, calls, i, key, t)
  {
    hide After, Holds, Stores;
    if calls == [] {
      assert !Stores(After(map[], capacity, []), key, t) by { NothingStored(capacity, key, t); }
    } else {
      var n := |calls| - 1;
      StoredExactly(capacity, calls[..n], key, t);
      LastStores(capacity, calls, key, t);
      if Stores(After(map[], capacity, calls), key, t) && !Holds(capacity, calls, n, key, t) {
        var i :| 0 <= i < n && Holds(capacity, calls[..n], i, key, t);
        HoldsExtends(capacity, calls, i, key, t);
      }
      if i :| 0 <= i < n && Holds(capacity, calls, i, key, t) {
        HoldsExtends(capacity, calls, i, key, t);
      }
    }
  }

  lemma NothingStored(capacity: nat, key: Key, t: Instant)
    ensures !Stores(After(map[], capacity, []), key, t)
  {
  }

  lemma LastStores(capacity: nat, calls: History, key: Key, t: Instant)
    requires calls != []
    ensures var n := |calls| - 1;
            Stores(After(map[], capacity, calls), key, t) <==>
            || (Stores(After(map[], capacity, calls[..n]), key, t) && (calls[n].Some? ==> calls[n].value.now < t))
            || Holds(capacity, calls, n, key, t)
  {
    var n := |calls| - 1;
    LastHolds(capacity, calls, key, t);
    hide Holds;
    var before := After(map[], capacity, calls[..n]);
    match calls[n]
    case None =>
    case Some(call) =>
      StepExactly(before, capacity, call.entries, call.now);
      hide Step;
  }

  lemma LastHolds(capacity: nat, calls: History, key: Key, t: Instant)
    requires calls != []
    ensures var n := |calls| - 1;
            Holds(capacity, calls, n, key, t) <==>
            && calls[n].Some? && ReplayEntry(key, t) in calls[n].value.entries
            && Step(After(map[], capacity, calls[..n]), capacity, calls[n].value.entries, calls[n].value.now).1 == Fresh
  {
    hide Step, After;
  }

  /** The keys reserved by an accepted call before call `j` that call `j` finds live. */
  function LiveKeys(capacity: nat, calls: History, j: nat): set<Key>
    requires j < |calls|
  {
    set i, a | 0 <= i < j && Accepted(map[], capacity, calls, i) && 0 <= a < |calls[i].value.entries|
               && Undisturbed(calls, i, j + 1, calls[i].value.entries[a].expiresAt)
      :: calls[i].value.entries[a].key
  }

  /** With a clock that never runs backwards a reservation is live for a later call exactly until its expiry. */
  lemma LiveUntilExpiry(calls: History, i: nat, j: nat, t: Instant)
    requires NondecreasingClock(calls) && i < j < |calls| && calls[j].Some?
    ensures Undisturbed(calls, i, j + 1, t) <==> calls[j].value.now < t
  {
  }

  /** The verdict of every call of every history, by the history alone: a replay exactly when the batch
      repeats a key or names one that an earlier accepted call holds live, full exactly when only room is
      missing, and otherwise fresh. */
  lemma VerdictExactly(capacity: nat, calls: History, j: nat)
    requires j < |calls| && calls[j].Some?
    ensures var call := calls[j].value;
            var verdict := Step(After(map[], capacity, calls[..j]), capacity, call.entries, call.now).1;
            var live := LiveKeys(capacity, calls, j);
            && (verdict == Replayed <==> |KeysOf(call.entries)| < |call.entries| || KeysOf(call.entries) * live != {})
            && (verdict == Full <==> verdict != Replayed && |live| + |call.entries| > capacity)
  {
    var call := calls[j].value;
    var before := After(map[], capacity, calls[..j]);
    LiveKeysAreSwept(capacity, calls, j);
    StepExactly(before, capacity, call.entries, call.now);
    var live := LiveKeys(capacity, calls, j);
    assert |Sweep(before, call.now)| == |live|;
    hide After, Step, LiveKeys, KeysOf;
    if key :| key in KeysOf(call.entries) && key in before && before[key] > call.now {
      assert key in KeysOf(call.entries) * live;
    }
    if KeysOf(call.entries) * live != {} {
      var key :| key in KeysOf(call.entries) * live;
    }
  }

  lemma HeldIsLive(capacity: nat, calls: History, i: nat, j: nat, key: Key, t: Instant)
    requires i < j < |calls| && calls[j].Some?
    ensures Holds(capacity, calls[..j], i, key, t) && calls[j].value.now < t <==>
            Accepted(map[], capacity, calls, i) && Names(calls[i], key, t) && Undisturbed(calls, i, j + 1, t)
  {
    hide After, Step, Names;
    var front := calls[..j];
    assert front[..i] == calls[..i] && front[i] == calls[i];
    assert forall l :: 0 <= l < j ==> front[l] == calls[l];
  }

  lemma LiveKeysAreSwept(capacity: nat, calls: History, j: nat)
    requires j < |calls| && calls[j].Some?
    ensures Sweep(After(map[], capacity, calls[..j]), calls[j].value.now).Keys == LiveKeys(capacity, calls, j)
  {
    var m, now := After(map[], capacity, calls[..j]), calls[j].value.now;
    forall key ensures key in Sweep(m, now) <==> key in LiveKeys(capacity, calls, j) {
      if key in Sweep(m, now) { SweptKeyIsLive(capacity, calls, j, key); }
      if key in LiveKeys(capacity, calls, j) { LiveKeyIsSwept(capacity, calls, j, key); }
    }
  }

  lemma SweptKeyIsLive(capacity: nat, calls: History, j: nat, key: Key)
    requires j < |calls| && calls[j].Some?
    requires key in Sweep(After(map[], capacity, calls[..j]), calls[j].value.now)
    ensures key in LiveKeys(capacity, calls, j)
  {
    var t := After(map[], capacity, calls[..j])[key];
    StoredExactly(capacity, calls[..j], key, t);
    hide After, Holds, Accepted, Undisturbed;
    var i :| 0 <= i < j && Holds(capacity, calls[..j], i, key, t);
    HeldIsLive(capacity, calls, i, j, key, t);
    var a :| 0 <= a < |calls[i].value.entries| && calls[i].value.entries[a] == ReplayEntry(key, t);
  }

  lemma LiveKeyIsSwept(capacity: nat, calls: History, j: nat, key: Key)
    requires j < |calls| && calls[j].Some? && key in LiveKeys(capacity, calls, j)
    ensures key in Sweep(After(map[], capacity, calls[..j]), calls[j].value.now)
  {
    hide After, Holds;
    var i, a :| 0 <= i < j && Accepted(map[], capacity, calls, i) && 0 <= a < |calls[i].value.entries|
                && Undisturbed(calls, i, j + 1, calls[i].value.entries[a].expiresAt)
                && calls[i].value.entries[a].key == key;
    var t := calls[i].value.entries[a].expiresAt;
    assert calls[i].value.entries[a] == ReplayEntry(key, t);
    HeldIsLive(capacity, calls, i, j, key, t);
    hide Accepted, Undisturbed, Names, LiveKeys;
    assert Holds(capacity, calls[..j], i, key, t);
    StoredExactly(capacity, calls[..j], key, t);
  }

  /** A reservation stays, with its own expiry, until a call comes in at or past that expiry. */
  lemma {:induction false} ReservationHolds(m: Store, capacity: nat, calls: History, i: nat, j: nat, key: Key, e: Instant)
      returns (l: nat)
    requires i < j <= |calls| && Accepted(m, capacity, calls, i) && Names(calls[i], key, e)
    ensures var m' := After(m, capacity, calls[..j]);
            || (key in m' && m'[key] == e)
            || (i < l < j && calls[l].Some? && calls[l].value.now >= e)
    decreases j - i
  {
    hide Step;
    l := i;
    var before := After(m, capacity, calls[..j - 1]);
    AfterOneMore(m, capacity, calls, j - 1);
    if j == i + 1 {
      var entries := calls[i].value.entries;
      var a :| 0 <= a < |entries| && entries[a] == ReplayEntry(key, e);
      StepStores(before, capacity, entries, calls[i].value.now, a);
    } else {
      l := ReservationHolds(m, capacity, calls, i, j - 1, key, e);
      if !(i < l < j - 1 && calls[l].Some? && calls[l].value.now >= e) && calls[j - 1].Some? {
        var call := calls[j - 1].value;
        if call.now >= e {
          l := j - 1;
        } else {
          StepKeepsLive(before, capacity, call.entries, call.now, key);
        }
      }
    }
  }

  lemma AfterOneMore(m: Store, capacity: nat, calls: History, i: nat)
    requires i < |calls|
    ensures var before := After(m, capacity, calls[..i]);
            After(m, capacity, calls[..i + 1]) ==
            match calls[i] case None => before case Some(call) => Step(before, capacity, call.entries, call.now).0
  {
    assert calls[..i + 1][..i] == calls[..i];
  }

  /** Under any clock, even one that runs backwards: two calls that both reserve the same key are
      separated by a call whose time is at or past the first one's expiry, the second included. */
  lemma TwiceAcceptedIsExpiredBetween(m: Store, capacity: nat, calls: History, i: nat, j: nat, key: Key, e: Instant, e': Instant)
      returns (l: nat)
    requires i < j && Accepted(m, capacity, calls, i) && Accepted(m, capacity, calls, j)
    requires Names(calls[i], key, e) && Names(calls[j], key, e')
    ensures i < l <= j && calls[l].Some? && calls[l].value.now >= e
  {
    hide Step;
    l := ReservationHolds(m, capacity, calls, i, j, key, e);
    if !(i < l < j && calls[l].Some? && calls[l].value.now >= e) {
      var entries := calls[j].value.entries;
      var a :| 0 <= a < |entries| && entries[a] == ReplayEntry(key, e');
      StepStores(After(m, capacity, calls[..j]), capacity, entries, calls[j].value.now, a);
      l := j;
    }
  }

  /** With a clock that never runs backwards a key is reserved at most once before it expires. */
  lemma OncePerLifetime(m: Store, capacity: nat, calls: History, i: nat, j: nat, key: Key, e: Instant, e': Instant)
    requires NondecreasingClock(calls)
    requires i < j && Accepted(m, capacity, calls, i) && Accepted(m, capacity, calls, j)
    requires Names(calls[i], key, e) && Names(calls[j], key, e')
    ensures calls[j].value.now >= e
  {
    hide Step, After, Names;
    var l := TwiceAcceptedIsExpiredBetween(m, capacity, calls, i, j, key, e, e');
    assert calls[l].value.now <= calls[j].value.now;
  }

  lemma SweepsAll(m: Store, now: Instant)
    requires forall key :: key in m ==> m[key] <= now
    ensures Sweep(m, now) == map[]
  {
  }

  lemma StoresIntoEmpty(m: Store, capacity: nat, entry: ReplayEntry, now: Instant)
    requires capacity > 0 && Sweep(m, now) == map[]
    ensures Step(m, capacity, [entry], now) == (map[entry.key := entry.expiresAt], Fresh)
  {
    assert [entry][..0] == [];
    assert Reserved([entry]) == map[entry.key := entry.expiresAt];
    var empty: Store := map[];
    assert !Conflicts(empty, [entry]) && empty + Reserved([entry]) == Reserved([entry]);
  }

  /** The clock condition is needed: a call from the future sweeps the entry, and the key is then
      accepted again at a time before its expiry. */
  lemma BackwardsClockForgets(key: Key, expiresAt: Instant, earlier: Instant)
    requires earlier < expiresAt
    ensures var e := ReplayEntry(key, expiresAt);
            var calls := [Some(Call([e], earlier)), Some(Call([], expiresAt)), Some(Call([e], earlier))];
            Accepted(map[], 1, calls, 0) && Accepted(map[], 1, calls, 2)
  {
    var e := ReplayEntry(key, expiresAt);
    var first, sweeping := Some(Call([e], earlier)), Some(Call([], expiresAt));
    var calls := [first, sweeping, first];
    assert Sweep(map[], earlier) == map[] && Reserved([]) == map[];
    StoresIntoEmpty(map[], 1, e, earlier);
    assert calls[..0] == [] && calls[..1] == [first] && calls[..2] == [first, sweeping];
    AfterOneMore(map[], 1, calls, 0);
    AfterOneMore(map[], 1, calls, 1);
    assert After(map[], 1, [first]) == map[key := expiresAt];
    assert Sweep(map[key := expiresAt], expiresAt) == map[];
    assert After(map[], 1, [first, sweeping]) == map[];
  }
}
