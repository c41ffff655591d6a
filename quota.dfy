/** Quota accounting of app/user/user.py: the tier table, the normalisation
    of the tier name, and `check_request_limit`, which keeps one usage record
    per user in the durable ledger (a document collection, here a map held by
    a `UsageLedger` object). */
module Quota {
  import opened Python

  type UserId = string

  /** `timedelta(days=1)`, in seconds. */
  const Day: int := 86400

  const Unlimited: int := 100000

  /** The six counters every usage record carries. */
  const RequestTypes: seq<string> :=
    ["sentenceReq", "generateReq", "grammarReq", "paraphraseReq", "fixSentenceReq", "compareWordsReq"]

  /** `USER_LIMITS`: the daily limit for each request type, per tier. */
  const UserLimits: map<string, map<string, int>> := map[
    "free" := map[
      "sentenceReq" := 50, "generateReq" := 10, "grammarReq" := 7,
      "paraphraseReq" := 7, "fixSentenceReq" := 7, "compareWordsReq" := 7],
    "premium" := map[
      "sentenceReq" := Unlimited, "generateReq" := 100, "grammarReq" := 100,
      "paraphraseReq" := 100, "fixSentenceReq" := 100, "compareWordsReq" := 100],
    "premium_plus" := map[
      "sentenceReq" := Unlimited, "generateReq" := Unlimited, "grammarReq" := 500,
      "paraphraseReq" := Unlimited, "fixSentenceReq" := Unlimited, "compareWordsReq" := 500]
  ]

  /** `USER_LIMITS.get(tier, USER_LIMITS['free'])`: a known tier gets its own
      row and an unknown tier the free row; every row has a positive limit
      for each of the six request types and nothing else. */
  function LimitsFor(tier: string): (r: map<string, int>)
    ensures tier in UserLimits ==> r == UserLimits[tier]
    ensures tier !in UserLimits ==> r == UserLimits["free"]
    ensures r.Keys == set rt | rt in RequestTypes
    ensures forall rt :: rt in RequestTypes ==> rt in r && r[rt] > 0
  {
    if tier in UserLimits then UserLimits[tier] else UserLimits["free"]
  }

  // ---------------------------------------------------------------------------
  // Tier names

  /** `c.lower()` for ASCII letters. */
  function LowerAscii(c: char): char {
    if 'A' <= c <= 'Z' then (c as int + 32) as char else c
  }

  predicate IsUpperAscii(c: char) {
    'A' <= c <= 'Z'
  }

  /** `tier.lower().replace(' ', '_')`. The result has the same length; a
      space becomes '_', an upper-case ASCII letter its lower-case letter,
      and every other character stays, so no upper-case ASCII letter and no
      space remains. */
  function NormalizeTier(s: string): (r: string)
    ensures |r| == |s|
    ensures forall k :: 0 <= k < |s| && s[k] == ' ' ==> r[k] == '_'
    ensures forall k :: 0 <= k < |s| && IsUpperAscii(s[k]) ==> r[k] as int == s[k] as int + 32
    ensures forall k :: 0 <= k < |r| ==> !IsUpperAscii(r[k]) && r[k] != ' '
    ensures forall k :: 0 <= k < |r| && !IsUpperAscii(s[k]) && s[k] != ' ' ==> r[k] == s[k]
  {
    seq(|s|, k requires 0 <= k < |s| => if s[k] == ' ' then '_' else LowerAscii(s[k]))
  }

  /** Normalising a normalised tier name changes nothing. */
  lemma NormalizeTierIdempotent(s: string)
    ensures NormalizeTier(NormalizeTier(s)) == NormalizeTier(s)
  {
    var t := NormalizeTier(s);
    var u := NormalizeTier(t);
    assert forall k :: 0 <= k < |u| ==> u[k] == t[k];
  }

  /** "Premium Plus" selects the premium_plus row, "Free" the free row, and an
      unknown name such as "Gold" falls back to the free row. */
  lemma NormalizeTierExamples()
    ensures NormalizeTier("Premium Plus") == "premium_plus"
    ensures NormalizeTier("Free") == "free"
    ensures LimitsFor(NormalizeTier("Premium Plus")) == UserLimits["premium_plus"]
    ensures LimitsFor(NormalizeTier("Gold")) == UserLimits["free"]
  {
    assert NormalizeTier("Gold") == "gold";
  }

  // ---------------------------------------------------------------------------
  // The user store and the usage record

  /** A document of the users collection, as far as `get_user_tier` reads it. */
  datatype UserDoc = UserDoc(userType: Option<string>)

  /** `get_user_tier(user_id).lower().replace(' ', '_')`: a missing user is
      reported as HTTP 400; a user without `userType` makes `None.lower()`
      raise AttributeError. */
  function ResolveTier(users: map<UserId, UserDoc>, userId: UserId): (r: Result<string>)
    ensures r.Ok? <==> userId in users && users[userId].userType.Some?
    ensures r.Ok? ==> r.value == NormalizeTier(users[userId].userType.value)
    ensures userId !in users ==> r == Err(HTTPException(400))
    ensures userId in users && users[userId].userType.None? ==> r == Err(AttributeError)
  {
    if userId !in users then Err(HTTPException(400))
    else match users[userId].userType
      case None => Err(AttributeError)
      case Some(t) => Ok(NormalizeTier(t))
  }

  /** A usage document: its integer fields (the six counters and whatever
      else it holds) and its optional `reset_date`, in seconds. */
  datatype Record = Record(fields: map<string, int>, resetDate: Option<int>)

  /** The record `find_one` returns for a user, if any. */
  function Stored(ledger: map<UserId, Record>, userId: UserId): Option<Record> {
    if userId in ledger then Some(ledger[userId]) else None
  }

  /** `not metrics or metrics.get('reset_date', now) <= now`. */
  predicate NeedsReset(rec: Option<Record>, now: int) {
    match rec
    case None => true
    case Some(r) => r.resetDate.None? || r.resetDate.value <= now
  }

  const ZeroCounters: map<string, int> := map[
    "sentenceReq" := 0, "generateReq" := 0, "grammarReq" := 0,
    "paraphraseReq" := 0, "fixSentenceReq" := 0, "compareWordsReq" := 0]

  /** The document `find_one_and_update` returns after its upsert with
      `$set`: the six counters at 0, `reset_date` one day after now, and every
      other field of an existing document untouched. */
  function ResetRecord(rec: Option<Record>, now: int): (r: Record)
    ensures r.resetDate == Some(now + Day)
    ensures forall rt :: rt in RequestTypes ==> rt in r.fields && r.fields[rt] == 0
    ensures rec.Some? ==> forall f :: f in rec.value.fields && f !in ZeroCounters ==>
              f in r.fields && r.fields[f] == rec.value.fields[f]
    ensures rec.None? ==> r.fields.Keys == set rt | rt in RequestTypes
    ensures rec.Some? ==> r.fields.Keys == rec.value.fields.Keys + set rt | rt in RequestTypes
  {
    Record((if rec.Some? then rec.value.fields else map[]) + ZeroCounters, Some(now + Day))
  }

  /** `$inc: {field: amount}` on one document. */
  function Incremented(r: Record, field: string, amount: int): Record {
    Record(r.fields[field := (if field in r.fields then r.fields[field] else 0) + amount], r.resetDate)
  }

  /** What `check_request_limit` can end in. As written it never returns:
      a denied request raises HTTP 402, and an admitted one reaches
      `return is_payment_required` with that name unbound. */
  datatype CheckOutcome = Returned(paymentRequired: bool) | Raised(error: PyError)

  /** The 402 raised when the stored count is at or over the limit. */
  const Exceeded: CheckOutcome := Raised(HTTPException(402))

  /** The fault an admitted request ends in, after its increment was written. */
  const IncrementedThenFault: CheckOutcome := Raised(UnboundLocalError)

  /** `check_request_limit(user_id, request_type, increment)` with the clock
      reading `now`: its outcome and the ledger it leaves. */
  function CheckRequestLimitSpec(users: map<UserId, UserDoc>, ledger: map<UserId, Record>,
                                 userId: UserId, requestType: string, increment: int, now: int)
    : (CheckOutcome, map<UserId, Record>)
  {
    match ResolveTier(users, userId)
    case Err(e) => (Raised(e), ledger)
    case Ok(tier) =>
      var stored := Stored(ledger, userId);
      var reset := NeedsReset(stored, now);
      var rec := if reset then ResetRecord(stored, now) else stored.value;
      var afterReset := if reset then ledger[userId := rec] else ledger;
      var limits := LimitsFor(tier);
      if requestType !in rec.fields || requestType !in limits then (Raised(KeyError), afterReset)
      else if rec.fields[requestType] >= limits[requestType] then (Exceeded, afterReset)
      else (IncrementedThenFault, afterReset[userId := Incremented(rec, requestType, increment)])
  }

  /** The durable usage ledger: the userMetrics collection. */
  class UsageLedger {
    var records: map<UserId, Record>

    constructor (initial: map<UserId, Record>)
      ensures records == initial
    {
      records := initial;
    }

    /** `check_request_limit`. The user store is the input `users`, the
        clock reading is `now`. */
    method CheckRequestLimit(users: map<UserId, UserDoc>, userId: UserId, requestType: string,
                             increment: int, now: int)
      returns (outcome: CheckOutcome)
      modifies this
      ensures (outcome, records)
           == CheckRequestLimitSpec(users, old(records), userId, requestType, increment, now)
    {
      var tier := ResolveTier(users, userId);
      if tier.Err? {
        return Raised(tier.error);
      }
      var metrics := Stored(records, userId);
      var updated: Record;
      if NeedsReset(metrics, now) {
        updated := ResetRecord(metrics, now);
        records := records[userId := updated];
      } else {
        updated := metrics.value;
      }
      var limits := LimitsFor(tier.value);
      if requestType !in updated.fields || requestType !in limits {
        return Raised(KeyError);
      }
      if updated.fields[requestType] >= limits[requestType] {
        return Exceeded;
      }
      records := records[userId := Incremented(records[userId], requestType, increment)];
      return IncrementedThenFault;
    }
  }

  // ---------------------------------------------------------------------------
  // Properties of one call

  /** No path of `check_request_limit` returns normally: it raises the 400
      or AttributeError of the tier lookup, the KeyError of an unknown
      request type, the 402, or the UnboundLocalError after the increment. */
  lemma CheckNeverReturns(users: map<UserId, UserDoc>, ledger: map<UserId, Record>,
                          userId: UserId, requestType: string, increment: int, now: int)
    ensures CheckRequestLimitSpec(users, ledger, userId, requestType, increment, now).0.Raised?
    ensures CheckRequestLimitSpec(users, ledger, userId, requestType, increment, now).0.error
         in {HTTPException(400), AttributeError, KeyError, HTTPException(402), UnboundLocalError}
  {
  }

  /** Only the caller's record can change, and only by being created or updated. */
  lemma CheckTouchesOnlyItsUser(users: map<UserId, UserDoc>, ledger: map<UserId, Record>,
                                userId: UserId, requestType: string, increment: int, now: int)
    ensures var after := CheckRequestLimitSpec(users, ledger, userId, requestType, increment, now).1;
      && after.Keys <= ledger.Keys + {userId}
      && forall v :: v in ledger && v != userId ==> v in after && after[v] == ledger[v]
  {
  }

  /** A failed tier lookup raises before the ledger is read or written. */
  lemma TierFailureLeavesLedger(users: map<UserId, UserDoc>, ledger: map<UserId, Record>,
                                userId: UserId, requestType: string, increment: int, now: int)
    requires userId !in users || users[userId].userType.None?
    ensures var (outcome, after) := CheckRequestLimitSpec(users, ledger, userId, requestType, increment, now);
      && after == ledger
      && outcome == Raised(if userId !in users then HTTPException(400) else AttributeError)
  {
  }

  /** A missing record, a record without `reset_date` or one whose
      `reset_date` has passed is reset before the decision: the six counters
      restart from 0, `reset_date` moves to one day after now, and other
      fields stay. Since all limits are positive, the request is then admitted
      and its counter ends at exactly `increment`. */
  lemma StaleRecordIsResetAndAdmits(users: map<UserId, UserDoc>, ledger: map<UserId, Record>,
                                    userId: UserId, requestType: string, increment: int, now: int)
    requires userId in users && users[userId].userType.Some?
    requires requestType in RequestTypes
    requires NeedsReset(Stored(ledger, userId), now)
    ensures var (outcome, after) := CheckRequestLimitSpec(users, ledger, userId, requestType, increment, now);
      && outcome == IncrementedThenFault
      && userId in after
      && after[userId].resetDate == Some(now + Day)
      && after[userId].fields[requestType] == increment
      && (forall rt :: rt in RequestTypes && rt != requestType ==> after[userId].fields[rt] == 0)
      && (userId in ledger ==> forall f :: f in ledger[userId].fields && f !in ZeroCounters ==>
            after[userId].fields[f] == ledger[userId].fields[f])
  {
    var tier := NormalizeTier(users[userId].userType.value);
    var limits := LimitsFor(tier);
    assert limits[requestType] > 0;
  }

  /** A record whose `reset_date` is still ahead is used as stored. At or over
      the limit the request is refused with 402 and nothing is written;
      below it, only the requested counter changes, by exactly `increment`. */
  lemma CurrentRecordDecides(users: map<UserId, UserDoc>, ledger: map<UserId, Record>,
                             userId: UserId, requestType: string, increment: int, now: int)
    requires userId in users && users[userId].userType.Some?
    requires userId in ledger && !NeedsReset(Some(ledger[userId]), now)
    requires requestType in RequestTypes && requestType in ledger[userId].fields
    ensures var (outcome, after) := CheckRequestLimitSpec(users, ledger, userId, requestType, increment, now);
      var limit := LimitsFor(NormalizeTier(users[userId].userType.value))[requestType];
      var count := ledger[userId].fields[requestType];
      && (count >= limit ==> outcome == Exceeded && after == ledger)
      && (count < limit ==>
            && outcome == IncrementedThenFault
            && after == ledger[userId := Record(ledger[userId].fields[requestType := count + increment],
                                                ledger[userId].resetDate)])
  {
  }

  /** The limit is checked against the count before the increment, so one
      admitted call can leave the stored count up to `increment - 1` over
      the limit, and never more. */
  lemma OvershootBound(users: map<UserId, UserDoc>, ledger: map<UserId, Record>,
                       userId: UserId, requestType: string, increment: int, now: int)
    requires userId in users && users[userId].userType.Some?
    ensures var (outcome, after) := CheckRequestLimitSpec(users, ledger, userId, requestType, increment, now);
      var limit := LimitsFor(NormalizeTier(users[userId].userType.value));
      outcome == IncrementedThenFault ==>
        && requestType in limit && userId in after && requestType in after[userId].fields
        && after[userId].fields[requestType] <= limit[requestType] - 1 + increment
  {
  }

  // ---------------------------------------------------------------------------
  // Consecutive calls

  /** Calls `check_request_limit(user_id, request_type)` (increment 1) at the
      clock readings `times`, one after another, collecting the outcomes. */
  function RunChecks(users: map<UserId, UserDoc>, ledger: map<UserId, Record>,
                     userId: UserId, requestType: string, times: seq<int>)
    : (r: (seq<CheckOutcome>, map<UserId, Record>))
    ensures |r.0| == |times|
    decreases |times|
  {
    if times == [] then ([], ledger)
    else
      var (outcome, next) := CheckRequestLimitSpec(users, ledger, userId, requestType, 1, times[0]);
      var (rest, last) := RunChecks(users, next, userId, requestType, times[1..]);
      ([outcome] + rest, last)
  }

  /** Every outcome but the last is an admission and the last is a 402. */
  predicate AdmitsThenRefuses(outcomes: seq<CheckOutcome>) {
    && |outcomes| >= 1
    && (forall k :: 0 <= k < |outcomes| - 1 ==> outcomes[k] == IncrementedThenFault)
    && outcomes[|outcomes| - 1] == Exceeded
  }

  lemma PrependAdmission(rest: seq<CheckOutcome>)
    requires AdmitsThenRefuses(rest)
    ensures AdmitsThenRefuses([IncrementedThenFault] + rest)
  {
    var outcomes := [IncrementedThenFault] + rest;
    forall k | 0 <= k < |outcomes| - 1
      ensures outcomes[k] == IncrementedThenFault
    {
      if k > 0 {
        assert outcomes[k] == rest[k - 1];
      }
    }
  }

  /** The first call of a run, then the rest from the ledger it leaves. */
  lemma RunChecksFirst(users: map<UserId, UserDoc>, ledger: map<UserId, Record>,
                       userId: UserId, requestType: string, times: seq<int>)
    requires times != []
    ensures var (outcome, next) := CheckRequestLimitSpec(users, ledger, userId, requestType, 1, times[0]);
      RunChecks(users, ledger, userId, requestType, times).0
        == [outcome] + RunChecks(users, next, userId, requestType, times[1..]).0
  {
  }

  /** Within one period, a record at count c below the limit admits exactly
      limit - c more single-unit requests and refuses the next one. */
  lemma {:induction false} RunWithinPeriod(users: map<UserId, UserDoc>, ledger: map<UserId, Record>,
                                           userId: UserId, requestType: string, times: seq<int>)
    requires userId in users && users[userId].userType.Some?
    requires requestType in RequestTypes
    requires userId in ledger && requestType in ledger[userId].fields
    requires ledger[userId].resetDate.Some?
    requires forall k :: 0 <= k < |times| ==> times[k] < ledger[userId].resetDate.value
    requires var limit := LimitsFor(NormalizeTier(users[userId].userType.value))[requestType];
      0 <= ledger[userId].fields[requestType] <= limit
      && |times| == limit - ledger[userId].fields[requestType] + 1
    ensures AdmitsThenRefuses(RunChecks(users, ledger, userId, requestType, times).0)
    decreases |times|
  {
    var rec := ledger[userId];
    var limit := LimitsFor(NormalizeTier(users[userId].userType.value))[requestType];
    var (outcome, next) := CheckRequestLimitSpec(users, ledger, userId, requestType, 1, times[0]);
    CurrentRecordDecides(users, ledger, userId, requestType, 1, times[0]);
    RunChecksFirst(users, ledger, userId, requestType, times);
    if rec.fields[requestType] < limit {
      assert next[userId].resetDate == rec.resetDate;
      RunWithinPeriod(users, next, userId, requestType, times[1..]);
      PrependAdmission(RunChecks(users, next, userId, requestType, times[1..]).0);
    }
  }

  /** For every user and request type: starting a period (no record, or a
      stale one), `limit` consecutive single-unit calls within the next day
      are admitted and the one after them is refused with 402. */
  lemma LimitReachedAfterLimitCalls(users: map<UserId, UserDoc>, ledger: map<UserId, Record>,
                                    userId: UserId, requestType: string, times: seq<int>)
    requires userId in users && users[userId].userType.Some?
    requires requestType in RequestTypes
    requires |times| == LimitsFor(NormalizeTier(users[userId].userType.value))[requestType] + 1
    requires NeedsReset(Stored(ledger, userId), times[0])
    requires forall k :: 0 <= k < |times| ==> times[k] < times[0] + Day
    ensures AdmitsThenRefuses(RunChecks(users, ledger, userId, requestType, times).0)
  {
    var (outcome, next) := CheckRequestLimitSpec(users, ledger, userId, requestType, 1, times[0]);
    StaleRecordIsResetAndAdmits(users, ledger, userId, requestType, 1, times[0]);
    var later := times[1..];
    assert forall k :: 0 <= k < |later| ==> later[k] == times[k + 1];
    RunWithinPeriod(users, next, userId, requestType, later);
    RunChecksFirst(users, ledger, userId, requestType, times);
    PrependAdmission(RunChecks(users, next, userId, requestType, later).0);
  }
}
