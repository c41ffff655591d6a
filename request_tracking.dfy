/** The fast request counter of app/lib/request.py: `track_requests` keeps
    a per-user hash in the fast store and consults the durable ledger only
    when the stored count is a multiple of the batch size `request_count`. */
module RequestTracking {
  import opened Python
  import opened Quota

  /** `r.expire(key, 86400)`: the counter hash lapses one day after the last
      completed call. */
  const CounterTtl: int := 86400

  /** `f"user:{user_id}:requests"`. */
  function CounterKey(userId: UserId): string {
    "user:" + userId + ":requests"
  }

  /** The fast store as `track_requests` sees it: hashes of integer fields,
      and for each key with a time to live the clock reading (in seconds)
      after which the store deletes it. */
  datatype Store = Store(hashes: map<string, map<string, int>>, expiry: map<string, int>)

  /** The key exists at `now`: it is stored and its deadline, if any, has
      not passed. */
  predicate Live(store: Store, key: string, now: int) {
    key in store.hashes && (key !in store.expiry || now <= store.expiry[key])
  }

  /** The store as any command on `key` finds it at `now`: a key past its
      deadline is deleted first, with its time to live; nothing else changes. */
  function DropIfLapsed(store: Store, key: string, now: int): (r: Store)
    ensures Live(store, key, now) ==> r == store
    ensures !Live(store, key, now) ==> key !in r.hashes && key !in r.expiry
    ensures forall k :: k != key ==> (k in r.hashes <==> k in store.hashes) && (k in r.expiry <==> k in store.expiry)
    ensures forall k :: k != key && k in store.hashes ==> r.hashes[k] == store.hashes[k]
    ensures forall k :: k != key && k in store.expiry ==> r.expiry[k] == store.expiry[k]
  {
    if Live(store, key, now) then store
    else Store(store.hashes - {key}, store.expiry - {key})
  }

  /** The counter `field` of `key` can be read at `now`. */
  predicate Counted(store: Store, key: string, field: string, now: int) {
    Live(store, key, now) && field in store.hashes[key]
  }

  /** `r.hincrby(key, field, amount)` on the existing hashes: a missing hash
      or field counts as 0. */
  function HashIncremented(hashes: map<string, map<string, int>>, key: string, field: string, amount: int)
    : (r: map<string, map<string, int>>)
    ensures key in r && field in r[key]
    ensures r[key][field] == (if key in hashes && field in hashes[key] then hashes[key][field] else 0) + amount
    ensures r.Keys == hashes.Keys + {key}
    ensures r[key].Keys == (if key in hashes then hashes[key].Keys else {}) + {field}
    ensures forall k :: k in hashes && k != key ==> r[k] == hashes[k]
    ensures forall f :: key in hashes && f in hashes[key] && f != field ==> r[key][f] == hashes[key][f]
  {
    var inner := if key in hashes then hashes[key] else map[];
    var current := if field in inner then inner[field] else 0;
    hashes[key := inner[field := current + amount]]
  }

  /** How a call of `track_requests` ends. */
  datatype TrackOutcome = Completed | Propagated(error: PyError)

  /** The writes `track_requests` makes at `now` once `current_count` has
      been read from a live key, given what the ledger check did (None when
      it was skipped). */
  function AfterCheck(store: Store, key: string, field: string, check: Option<CheckOutcome>, now: int)
    : (TrackOutcome, Store)
  {
    match check
    case Some(Raised(e)) => (Propagated(e), store)
    case Some(Returned(paymentRequired)) =>
      var once := HashIncremented(store.hashes, key, field, 1);
      var hashes := if paymentRequired then once else HashIncremented(once, key, field, 1);
      (Completed, Store(hashes, store.expiry[key := now + CounterTtl]))
    case None =>
      (Completed, Store(HashIncremented(store.hashes, key, field, 1), store.expiry[key := now + CounterTtl]))
  }

  /** The combined effect of one call: outcome, fast store and ledger. */
  datatype TrackResult = TrackResult(outcome: TrackOutcome, store: Store, ledger: map<UserId, Record>)

  /** `track_requests(user_id, request_type, request_count)` with the user
      store `users` and the clock reading `now`. `int(r.hget(...))` raises
      TypeError when the key is missing or lapsed or the field is missing;
      `% 0` raises ZeroDivisionError. */
  function TrackSpec(users: map<UserId, UserDoc>, ledger: map<UserId, Record>, store: Store,
                     userId: UserId, requestType: string, requestCount: int, now: int): TrackResult
  {
    var key := CounterKey(userId);
    var current := DropIfLapsed(store, key, now);
    if key !in current.hashes || requestType !in current.hashes[key] then
      TrackResult(Propagated(TypeError), current, ledger)
    else if requestCount == 0 then
      TrackResult(Propagated(ZeroDivisionError), current, ledger)
    else if current.hashes[key][requestType] % requestCount == 0 then
      var (check, ledger') := CheckRequestLimitSpec(users, ledger, userId, requestType, requestCount, now);
      var (outcome, store') := AfterCheck(current, key, requestType, Some(check), now);
      TrackResult(outcome, store', ledger')
    else
      var (outcome, store') := AfterCheck(current, key, requestType, None, now);
      TrackResult(outcome, store', ledger)
  }

  /** The fast store (a Redis connection), as an object whose hashes and
      deadlines the commands update in place. */
  class FastCounter {
    var hashes: map<string, map<string, int>>
    var expiry: map<string, int>

    constructor (initial: Store)
      ensures hashes == initial.hashes && expiry == initial.expiry
    {
      hashes := initial.hashes;
      expiry := initial.expiry;
    }

    function Snapshot(): Store
      reads this
    {
      Store(hashes, expiry)
    }

    /** Deletes `key` when its deadline has passed, as the store does before
      any command on it. */
    method DropLapsed(key: string, now: int)
      modifies this
      ensures Snapshot() == DropIfLapsed(old(Snapshot()), key, now)
    {
      if !Live(Snapshot(), key, now) {
        hashes := hashes - {key};
        expiry := expiry - {key};
      }
    }

    /** `r.hget(key, field)`: None for a missing or lapsed key or a missing
      field. */
    method HGet(key: string, field: string, now: int) returns (v: Option<int>)
      modifies this
      ensures Snapshot() == DropIfLapsed(old(Snapshot()), key, now)
      ensures v.Some? <==> Counted(old(Snapshot()), key, field, now)
      ensures v.Some? ==> v.value == hashes[key][field]
    {
      DropLapsed(key, now);
      if key in hashes && field in hashes[key] {
        v := Some(hashes[key][field]);
      } else {
        v := None;
      }
    }

    /** `r.hincrby(key, field, amount)`: a lapsed key starts afresh, without
      a time to live. */
    method HIncrBy(key: string, field: string, amount: int, now: int)
      modifies this
      ensures hashes == HashIncremented(DropIfLapsed(old(Snapshot()), key, now).hashes, key, field, amount)
      ensures expiry == DropIfLapsed(old(Snapshot()), key, now).expiry
    {
      DropLapsed(key, now);
      hashes := HashIncremented(hashes, key, field, amount);
    }

    /** `r.expire(key, seconds)`: sets the deadline of an existing key to
      `now + seconds`, deletes it when that is not in the future, and does
      nothing to a missing key. */
    method Expire(key: string, seconds: int, now: int)
      modifies this
      ensures var s := DropIfLapsed(old(Snapshot()), key, now);
        Snapshot() == if key !in s.hashes then s
                      else if seconds <= 0 then Store(s.hashes - {key}, s.expiry - {key})
                      else Store(s.hashes, s.expiry[key := now + seconds])
    {
      DropLapsed(key, now);
      if key in hashes {
        if seconds <= 0 {
          hashes := hashes - {key};
          expiry := expiry - {key};
        } else {
          expiry := expiry[key := now + seconds];
        }
      }
    }

    /** `track_requests`, against the durable ledger `ledger`, at `now`. */
    method TrackRequests(ledger: UsageLedger, users: map<UserId, UserDoc>, userId: UserId,
                         requestType: string, requestCount: int, now: int)
      returns (outcome: TrackOutcome)
      modifies this, ledger
      ensures TrackResult(outcome, Snapshot(), ledger.records)
           == TrackSpec(users, old(ledger.records), old(Snapshot()), userId, requestType, requestCount, now)
    {
      var key := CounterKey(userId);
      var current := HGet(key, requestType, now);
      if current.None? {
        return Propagated(TypeError);
      }
      var currentCount := current.value;
      if requestCount == 0 {
        return Propagated(ZeroDivisionError);
      }
      if currentCount % requestCount == 0 {
        var check := ledger.CheckRequestLimit(users, userId, requestType, requestCount, now);
        match check {
          case Raised(e) =>
            return Propagated(e);
          case Returned(paymentRequired) =>
            if !paymentRequired {
              HIncrBy(key, requestType, 1, now);
            }
        }
      }
      HIncrBy(key, requestType, 1, now);
      Expire(key, CounterTtl, now);
      return Completed;
    }
  }

  // ---------------------------------------------------------------------------
  // Properties

  /** What the tail of `track_requests` does for each result of the ledger
      check: a raised error propagates with nothing written; otherwise the
      field rises by 2 when payment is not required, by 1 when it is or when
      the check was skipped, and the key lapses one day after `now`. No other
      hash or field changes. */
  lemma AfterCheckEffects(store: Store, key: string, field: string, check: Option<CheckOutcome>, now: int)
    requires key in store.hashes && field in store.hashes[key]
    ensures var (outcome, store') := AfterCheck(store, key, field, check, now);
      && (check.Some? && check.value.Raised? <==> outcome.Propagated?)
      && (outcome.Propagated? ==> store' == store && outcome.error == check.value.error)
      && (outcome.Completed? ==>
            && store'.expiry == store.expiry[key := now + CounterTtl]
            && store'.hashes.Keys == store.hashes.Keys
            && store'.hashes[key].Keys == store.hashes[key].Keys
            && store'.hashes[key][field] == store.hashes[key][field]
                 + (if check == Some(Returned(false)) then 2 else 1)
            && (forall k :: k in store.hashes && k != key ==> store'.hashes[k] == store.hashes[k])
            && (forall f :: f in store.hashes[key] && f != field ==> store'.hashes[key][f] == store.hashes[key][f]))
  {
  }

  /** A user whose counter cannot be read at `now` (no hash, a lapsed hash,
      or no such field) gets TypeError from `int(None)`: the ledger is not
      touched and the fast store only loses the lapsed key. */
  lemma MissingFieldFails(users: map<UserId, UserDoc>, ledger: map<UserId, Record>, store: Store,
                          userId: UserId, requestType: string, requestCount: int, now: int)
    requires !Counted(store, CounterKey(userId), requestType, now)
    ensures TrackSpec(users, ledger, store, userId, requestType, requestCount, now)
         == TrackResult(Propagated(TypeError), DropIfLapsed(store, CounterKey(userId), now), ledger)
  {
  }

  /** When the stored count is not a multiple of the batch size the ledger
      is not consulted: the call completes, the count rises by one and the
      key's deadline moves to one day after `now`. */
  lemma OffBatchCallCountsLocally(users: map<UserId, UserDoc>, ledger: map<UserId, Record>, store: Store,
                                  userId: UserId, requestType: string, requestCount: int, now: int)
    requires Counted(store, CounterKey(userId), requestType, now)
    requires requestCount != 0 && store.hashes[CounterKey(userId)][requestType] % requestCount != 0
    ensures var key := CounterKey(userId);
      var result := TrackSpec(users, ledger, store, userId, requestType, requestCount, now);
      && result.outcome == Completed
      && result.ledger == ledger
      && result.store.expiry == store.expiry[key := now + CounterTtl]
      && result.store.hashes[key][requestType] == store.hashes[key][requestType] + 1
  {
  }

  /** When the stored count is a multiple of the batch size, the ledger check
      runs with increment `request_count`, and since that check never returns
      normally, its error (never a TypeError) propagates and the fast store
      is left as it was, deadline included. An admitted check still advances
      the ledger's counter by `request_count`. */
  lemma BatchCallEscalates(users: map<UserId, UserDoc>, ledger: map<UserId, Record>, store: Store,
                           userId: UserId, requestType: string, requestCount: int, now: int)
    requires Counted(store, CounterKey(userId), requestType, now)
    requires requestCount != 0 && store.hashes[CounterKey(userId)][requestType] % requestCount == 0
    ensures var result := TrackSpec(users, ledger, store, userId, requestType, requestCount, now);
      var (check, ledger') := CheckRequestLimitSpec(users, ledger, userId, requestType, requestCount, now);
      && result.outcome == Propagated(check.error)
      && result.outcome != Propagated(TypeError)
      && result.store == store
      && result.ledger == ledger'
  {
    CheckNeverReturns(users, ledger, userId, requestType, requestCount, now);
  }

  /** Calls `track_requests` at the clock readings `times`, one after another. */
  function RunTracks(users: map<UserId, UserDoc>, ledger: map<UserId, Record>, store: Store,
                     userId: UserId, requestType: string, requestCount: int, times: seq<int>)
    : (r: (seq<TrackOutcome>, Store, map<UserId, Record>))
    ensures |r.0| == |times|
    decreases |times|
  {
    if times == [] then ([], store, ledger)
    else
      var first := TrackSpec(users, ledger, store, userId, requestType, requestCount, times[0]);
      var (rest, store', ledger') := RunTracks(users, first.ledger, first.store, userId, requestType,
                                              requestCount, times[1..]);
      ([first.outcome] + rest, store', ledger')
  }

  lemma RunTracksFirst(users: map<UserId, UserDoc>, ledger: map<UserId, Record>, store: Store,
                       userId: UserId, requestType: string, requestCount: int, times: seq<int>)
    requires times != []
    ensures RunTracks(users, ledger, store, userId, requestType, requestCount, times).0
         == [TrackSpec(users, ledger, store, userId, requestType, requestCount, times[0]).outcome]
            + RunTracks(users, TrackSpec(users, ledger, store, userId, requestType, requestCount, times[0]).ledger,
                        TrackSpec(users, ledger, store, userId, requestType, requestCount, times[0]).store,
                        userId, requestType, requestCount, times[1..]).0
  {
  }

  /** Once a user's stored count is a multiple of the batch size (0, the
      value a fresh counter starts from, included), the fast count does not
      move while the key lives: every call before its deadline goes to the
      ledger and ends in an error other than TypeError, and the fast store,
      deadline included, stays exactly as it was. */
  lemma {:induction false} EscalationIsPermanent(users: map<UserId, UserDoc>, ledger: map<UserId, Record>,
                                                 store: Store, userId: UserId, requestType: string,
                                                 requestCount: int, times: seq<int>)
    requires forall k :: 0 <= k < |times| ==> Counted(store, CounterKey(userId), requestType, times[k])
    requires CounterKey(userId) in store.hashes && requestType in store.hashes[CounterKey(userId)]
    requires requestCount != 0 && store.hashes[CounterKey(userId)][requestType] % requestCount == 0
    ensures RunTracks(users, ledger, store, userId, requestType, requestCount, times).1 == store
    ensures forall k :: 0 <= k < |times| ==>
      RunTracks(users, ledger, store, userId, requestType, requestCount, times).0[k].Propagated?
      && RunTracks(users, ledger, store, userId, requestType, requestCount, times).0[k] != Propagated(TypeError)
    decreases |times|
  {
    if times != [] {
      var first := TrackSpec(users, ledger, store, userId, requestType, requestCount, times[0]);
      BatchCallEscalates(users, ledger, store, userId, requestType, requestCount, times[0]);
      var later := times[1..];
      assert forall k :: 0 <= k < |later| ==> later[k] == times[k + 1];
      EscalationIsPermanent(users, first.ledger, store, userId, requestType, requestCount, later);
      RunTracksFirst(users, ledger, store, userId, requestType, requestCount, times);
      var rest := RunTracks(users, first.ledger, first.store, userId, requestType, requestCount, later).0;
      var outcomes := RunTracks(users, ledger, store, userId, requestType, requestCount, times).0;
      forall k | 0 <= k < |outcomes|
        ensures outcomes[k].Propagated? && outcomes[k] != Propagated(TypeError)
      {
        if k > 0 {
          assert outcomes[k] == rest[k - 1];
        }
      }
    }
  }

  /** A counter that cannot be read stays unreadable: the call that finds it
      so writes nothing to it, so no later clock reading finds it either. */
  lemma UncountedStaysUncounted(store: Store, key: string, field: string, now: int, later: int)
    requires !Counted(store, key, field, now)
    ensures !Counted(DropIfLapsed(store, key, now), key, field, later)
  {
  }

  /** From the first call that cannot read its counter on, every call raises
      TypeError and the ledger never changes: the hash is never recreated. */
  lemma {:induction false} LapsedCounterFailsForever(users: map<UserId, UserDoc>, ledger: map<UserId, Record>,
                                                     store: Store, userId: UserId, requestType: string,
                                                     requestCount: int, times: seq<int>)
    requires times != [] ==> !Counted(store, CounterKey(userId), requestType, times[0])
    ensures RunTracks(users, ledger, store, userId, requestType, requestCount, times).2 == ledger
    ensures forall k :: 0 <= k < |times| ==>
      RunTracks(users, ledger, store, userId, requestType, requestCount, times).0[k] == Propagated(TypeError)
    decreases |times|
  {
    if times != [] {
      var key := CounterKey(userId);
      var first := TrackSpec(users, ledger, store, userId, requestType, requestCount, times[0]);
      MissingFieldFails(users, ledger, store, userId, requestType, requestCount, times[0]);
      var later := times[1..];
      if later != [] {
        UncountedStaysUncounted(store, key, requestType, times[0], later[0]);
      }
      LapsedCounterFailsForever(users, ledger, first.store, userId, requestType, requestCount, later);
      RunTracksFirst(users, ledger, store, userId, requestType, requestCount, times);
      var rest := RunTracks(users, ledger, first.store, userId, requestType, requestCount, later).0;
      var outcomes := RunTracks(users, ledger, store, userId, requestType, requestCount, times).0;
      forall k | 0 <= k < |outcomes|
        ensures outcomes[k] == Propagated(TypeError)
      {
        if k > 0 {
          assert outcomes[k] == rest[k - 1];
        }
      }
    }
  }

  /** The outcomes of calls at `times` around a deadline: a call at or
      before it fails with an error other than TypeError, a call after it
      raises TypeError. */
  predicate SplitAtDeadline(outcomes: seq<TrackOutcome>, times: seq<int>, deadline: int) {
    && |outcomes| == |times|
    && (forall k :: 0 <= k < |times| && times[k] <= deadline ==>
          outcomes[k].Propagated? && outcomes[k] != Propagated(TypeError))
    && (forall k :: 0 <= k < |times| && times[k] > deadline ==> outcomes[k] == Propagated(TypeError))
  }

  lemma SplitAtDeadlineCons(outcome: TrackOutcome, rest: seq<TrackOutcome>, t: int, later: seq<int>, deadline: int)
    requires SplitAtDeadline(rest, later, deadline)
    requires t <= deadline ==> outcome.Propagated? && outcome != Propagated(TypeError)
    requires t > deadline ==> outcome == Propagated(TypeError)
    ensures SplitAtDeadline([outcome] + rest, [t] + later, deadline)
  {
    var o := [outcome] + rest;
    var ts := [t] + later;
    forall k | 0 < k < |ts|
      ensures o[k] == rest[k - 1] && ts[k] == later[k - 1]
    {
    }
  }

  /** A stuck counter with deadline `d`, called at non-decreasing clock
      readings: every call at or before `d` escalates and fails with the
      ledger's error, every call after `d` raises TypeError. */
  lemma {:induction false} StuckCounterLapses(users: map<UserId, UserDoc>, ledger: map<UserId, Record>,
                                              store: Store, userId: UserId, requestType: string,
                                              requestCount: int, times: seq<int>)
    requires CounterKey(userId) in store.hashes && requestType in store.hashes[CounterKey(userId)]
    requires CounterKey(userId) in store.expiry
    requires requestCount != 0 && store.hashes[CounterKey(userId)][requestType] % requestCount == 0
    requires forall j, k :: 0 <= j < k < |times| ==> times[j] <= times[k]
    ensures SplitAtDeadline(RunTracks(users, ledger, store, userId, requestType, requestCount, times).0,
                            times, store.expiry[CounterKey(userId)])
    decreases |times|
  {
    if times != [] {
      var key := CounterKey(userId);
      var deadline := store.expiry[key];
      var first := TrackSpec(users, ledger, store, userId, requestType, requestCount, times[0]);
      var later := times[1..];
      var outcomes := RunTracks(users, ledger, store, userId, requestType, requestCount, times).0;
      if times[0] <= deadline {
        BatchCallEscalates(users, ledger, store, userId, requestType, requestCount, times[0]);
        assert forall j, k :: 0 <= j < k < |later| ==> later[j] <= later[k] by {
          assert forall k :: 0 <= k < |later| ==> later[k] == times[k + 1];
        }
        StuckCounterLapses(users, first.ledger, store, userId, requestType, requestCount, later);
        RunTracksFirst(users, ledger, store, userId, requestType, requestCount, times);
        assert times == [times[0]] + later;
        SplitAtDeadlineCons(first.outcome, RunTracks(users, first.ledger, first.store, userId, requestType,
                                                     requestCount, later).0, times[0], later, deadline);
      } else {
        LapsedAfterDeadline(users, ledger, store, userId, requestType, requestCount, times, deadline);
      }
    }
  }

  /** Calls that all come after the deadline of a counter that has lapsed
      by the first of them all raise TypeError. */
  lemma LapsedAfterDeadline(users: map<UserId, UserDoc>, ledger: map<UserId, Record>,
                            store: Store, userId: UserId, requestType: string,
                            requestCount: int, times: seq<int>, deadline: int)
    requires times != [] && CounterKey(userId) in store.expiry && store.expiry[CounterKey(userId)] == deadline
    requires times[0] > deadline
    requires forall j, k :: 0 <= j < k < |times| ==> times[j] <= times[k]
    ensures SplitAtDeadline(RunTracks(users, ledger, store, userId, requestType, requestCount, times).0,
                            times, deadline)
  {
    LapsedCounterFailsForever(users, ledger, store, userId, requestType, requestCount, times);
    assert forall k :: 0 <= k < |times| ==> times[k] > deadline by {
      assert forall k :: 0 < k < |times| ==> times[0] <= times[k];
    }
  }

  /** With a known user, a current period and a counter below its limit,
      each escalated call is admitted by the ledger and advances the ledger
      counter by the batch size, although the fast counter does not move;
      the ledger therefore reaches the limit after at most
      ceil((limit - count) / request_count) calls, whatever the fast count. */
  lemma EscalationAdvancesLedger(users: map<UserId, UserDoc>, ledger: map<UserId, Record>, store: Store,
                                 userId: UserId, requestType: string, requestCount: int, now: int)
    requires Counted(store, CounterKey(userId), requestType, now)
    requires requestCount != 0 && store.hashes[CounterKey(userId)][requestType] % requestCount == 0
    requires userId in users && users[userId].userType.Some?
    requires requestType in RequestTypes
    requires userId in ledger && !NeedsReset(Some(ledger[userId]), now)
    requires requestType in ledger[userId].fields
    requires ledger[userId].fields[requestType]
           < LimitsFor(NormalizeTier(users[userId].userType.value))[requestType]
    ensures var result := TrackSpec(users, ledger, store, userId, requestType, requestCount, now);
      && result.outcome == Propagated(UnboundLocalError)
      && result.store == store
      && userId in result.ledger
      && result.ledger[userId].fields[requestType] == ledger[userId].fields[requestType] + requestCount
  {
    CurrentRecordDecides(users, ledger, userId, requestType, requestCount, now);
  }
}
