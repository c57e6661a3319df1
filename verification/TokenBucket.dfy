/**
 A token bucket: at most `capacity` tokens, refilled continuously at `refillRate` per second.

 Time is a parameter of every call.  The level the code keeps in two fields is shown to have an
 exact closed form over the whole history: it is the least headroom of any window ending now.
 */
module TokenBucket {
  /** One call of consume, as it went. */
  datatype Call = Call(now: real, amount: int, admitted: bool)

  /** The two parameters of a bucket, and when it was made. */
  datatype Config = Config(capacity: int, refillRate: real, created: real)

  // ---------------------------------------------------------------- windows of the history

  /** Tokens admitted by the calls from `from` on. */
  ghost function Spent(calls: seq<Call>, from: nat): int
    requires from <= |calls|
    decreases |calls| - from
  {
    if from == |calls| then 0
    else (if calls[from].admitted then calls[from].amount else 0) + Spent(calls, from + 1)
  }

  /** Window 0 opens when the bucket is made, window k > 0 with the k-th call. */
  ghost function Opens(config: Config, calls: seq<Call>, k: nat): real
    requires k <= |calls|
  {
    if k == 0 then config.created else calls[k - 1].now
  }

  /** The first call that counts against window `k`: the call that opens it, if one does. */
  ghost function FirstCall(k: nat): nat {
    if k == 0 then 0 else k - 1
  }

  /** What is refilled from one time to another. */
  ghost function Gain(config: Config, since: real, until: real): real {
    config.refillRate * (until - since)
  }

  /** What window `k` still allows at `now`: capacity plus its refill, less what it has admitted. */
  ghost function Headroom(config: Config, calls: seq<Call>, now: real, k: nat): real
    requires k <= |calls|
  {
    config.capacity as real + Gain(config, Opens(config, calls, k), now) - Spent(calls, FirstCall(k)) as real
  }

  /** `level` is the least headroom of the windows. */
  ghost predicate IsLeast(config: Config, calls: seq<Call>, now: real, level: real) {
    && (forall k :: 0 <= k <= |calls| ==> level <= Headroom(config, calls, now, k))
    && (exists k :: 0 <= k <= |calls| && level == Headroom(config, calls, now, k))
  }

  /** `level` is the least of the capacity and every window's headroom. */
  ghost predicate IsLeastHeadroom(config: Config, calls: seq<Call>, now: real, level: real) {
    && level <= config.capacity as real
    && (forall k :: 0 <= k <= |calls| ==> level <= Headroom(config, calls, now, k))
    && (level == config.capacity as real ||
        exists k :: 0 <= k <= |calls| && level == Headroom(config, calls, now, k))
  }

  /** A request fits when it keeps every window ending now within capacity plus its refill. */
  ghost predicate Fits(config: Config, calls: seq<Call>, now: real, amount: int) {
    && amount <= config.capacity
    && forall k :: 0 <= k <= |calls| ==> FitsWindow(config, calls, now, amount, k)
  }

  ghost predicate FitsWindow(config: Config, calls: seq<Call>, now: real, amount: int, k: nat)
    requires k <= |calls|
  {
    Spent(calls, FirstCall(k)) as real + amount as real
      <= config.capacity as real + Gain(config, Opens(config, calls, k), now)
  }

  /** A history in which every call was answered by that rule. */
  ghost predicate Faithful(config: Config, calls: seq<Call>) {
    forall n :: 0 <= n < |calls| ==>
      (calls[n].admitted <==> Fits(config, calls[..n], calls[n].now, calls[n].amount))
  }

  // ---------------------------------------------------------------- the bucket

  class TokenBucket {
    const config: Config
    var tokens: real
    var lastRefill: real

    ghost var calls: seq<Call>

    /** The two fields carry the least headroom of the whole history. */
    ghost predicate Valid()
      reads this
    {
      Carries(config, calls, lastRefill, tokens)
    }

    constructor (capacity: int, refillRate: real, now: real)
      ensures Valid()
      ensures calls == [] && config == Config(capacity, refillRate, now)
      ensures tokens == capacity as real
    {
      tokens := capacity as real;
      lastRefill := now;
      config := Config(capacity, refillRate, now);
      calls := [];
      new;
      StartsFull(config);
    }

    method Refill(now: real)
      requires Valid()
      modifies `tokens, `lastRefill
      ensures lastRefill == now
      ensures IsLeastHeadroom(config, calls, now, tokens)
    {
      var elapsed := now - lastRefill;
      Refilled(config, calls, lastRefill, tokens, now, elapsed);
      tokens, lastRefill := Min(config.capacity as real, tokens + elapsed * config.refillRate), now;
    }

    method Consume(amount: int, now: real) returns (ok: bool)
      requires Valid()
      modifies this
      ensures Valid()
      ensures ok <==> Fits(config, old(calls), now, amount)
      ensures calls == old(calls) + [Call(now, amount, ok)]
      ensures IsLeastHeadroom(config, old(calls), now, tokens + (if ok then amount as real else 0.0))
    {
      Refill(now);
      AdmitsIffFits(config, calls, now, tokens, amount);
      ghost var level := tokens;
      if tokens >= amount as real {
        tokens := tokens - amount as real;
        ok := true;
      } else {
        ok := false;
      }
      CallCarries(config, calls, Call(now, amount, ok), level);
      calls := calls + [Call(now, amount, ok)];
    }
  }

  /** What the two fields mean: a faithful history, the time of its last call, its least headroom then. */
  ghost predicate Carries(config: Config, calls: seq<Call>, lastRefill: real, tokens: real) {
    && lastRefill == Opens(config, calls, |calls|)
    && Faithful(config, calls)
    && IsLeast(config, calls, lastRefill, tokens)
  }

  lemma StartsFull(config: Config)
    ensures Carries(config, [], config.created, config.capacity as real)
  {
    assert Headroom(config, [], config.created, 0) == config.capacity as real;
  }

  lemma CallCarries(config: Config, calls: seq<Call>, call: Call, level: real)
    requires Faithful(config, calls)
    requires IsLeastHeadroom(config, calls, call.now, level)
    requires call.admitted <==> Fits(config, calls, call.now, call.amount)
    ensures Carries(config, calls + [call], call.now, level - (if call.admitted then call.amount as real else 0.0))
  {
    LevelAfterCall(config, calls, call, level);
    FaithfulSnoc(config, calls, call);
  }

  function Min(a: real, b: real): real {
    if a <= b then a else b
  }

  // ---------------------------------------------------------------- why the level is exact

  lemma AdmitsIffFits(config: Config, calls: seq<Call>, now: real, level: real, amount: int)
    requires IsLeastHeadroom(config, calls, now, level)
    ensures level >= amount as real <==> Fits(config, calls, now, amount)
  {
    forall k | 0 <= k <= |calls|
      ensures amount as real <= Headroom(config, calls, now, k) <==> FitsWindow(config, calls, now, amount, k)
    {
    }
  }

  lemma {:induction false} SpentSnoc(calls: seq<Call>, call: Call, from: nat)
    requires from <= |calls|
    ensures Spent(calls + [call], from) == Spent(calls, from) + (if call.admitted then call.amount else 0)
    decreases |calls| - from
  {
    var longer := calls + [call];
    if from < |calls| {
      SpentSnoc(calls, call, from + 1);
      assert longer[from] == calls[from];
    } else {
      assert Spent(longer, from + 1) == 0;
    }
  }

  lemma HeadroomShift(config: Config, calls: seq<Call>, before: real, now: real, k: nat)
    requires k <= |calls|
    ensures Headroom(config, calls, now, k)
              == Headroom(config, calls, before, k) + Gain(config, before, now)
  {
    GainAdds(config, Opens(config, calls, k), before, now);
  }

  lemma GainIs(config: Config, since: real, until: real, elapsed: real)
    requires elapsed == until - since
    ensures Gain(config, since, until) == elapsed * config.refillRate
  {
  }

  lemma GainAdds(config: Config, since: real, before: real, now: real)
    ensures Gain(config, since, now) == Gain(config, since, before) + Gain(config, before, now)
  {
  }

  lemma NoGain(config: Config, now: real)
    ensures Gain(config, now, now) == 0.0
  {
  }

  lemma GainGrows(config: Config, a: real, x: real, y: real, b: real)
    requires config.refillRate >= 0.0 && y - x <= b - a
    ensures Gain(config, x, y) <= Gain(config, a, b)
  {
    Monotonic(config.refillRate, y - x, b - a);
  }

  lemma Monotonic(rate: real, x: real, y: real)
    requires rate >= 0.0 && x <= y
    ensures rate * x <= rate * y
  {
  }

  /** Refilling moves every headroom alike, so the least stays least, capped by a window opening now. */
  lemma RefillIsExact(config: Config, calls: seq<Call>, before: real, tokens: real, now: real)
    requires IsLeast(config, calls, before, tokens)
    ensures IsLeastHeadroom(config, calls, now, Min(config.capacity as real, tokens + Gain(config, before, now)))
  {
    var gain := Gain(config, before, now);
    forall k | 0 <= k <= |calls|
      ensures Headroom(config, calls, now, k) == Headroom(config, calls, before, k) + gain
    {
      HeadroomShift(config, calls, before, now, k);
    }
    var k :| 0 <= k <= |calls| && tokens == Headroom(config, calls, before, k);
    assert tokens + gain == Headroom(config, calls, now, k);
  }

  lemma Refilled(config: Config, calls: seq<Call>, before: real, tokens: real, now: real, elapsed: real)
    requires Carries(config, calls, before, tokens) && elapsed == now - before
    ensures IsLeastHeadroom(config, calls, now, Min(config.capacity as real, tokens + elapsed * config.refillRate))
  {
    RefillIsExact(config, calls, before, tokens, now);
    GainIs(config, before, now, elapsed);
  }

  lemma HeadroomAfterCall(config: Config, calls: seq<Call>, call: Call, k: nat)
    requires k <= |calls|
    ensures Headroom(config, calls + [call], call.now, k)
              == Headroom(config, calls, call.now, k) - (if call.admitted then call.amount as real else 0.0)
  {
    SpentSnoc(calls, call, FirstCall(k));
    assert Opens(config, calls + [call], k) == Opens(config, calls, k);
  }

  /** The window a call opens has the whole capacity but for the call itself. */
  lemma OpensNow(config: Config, calls: seq<Call>, call: Call)
    ensures Headroom(config, calls + [call], call.now, |calls| + 1)
              == config.capacity as real - (if call.admitted then call.amount as real else 0.0)
  {
    var longer := calls + [call];
    SpentSnoc(calls, call, |calls|);
    assert Spent(calls, |calls|) == 0;
    assert Opens(config, longer, |longer|) == call.now && FirstCall(|longer|) == |calls|;
    NoGain(config, call.now);
  }

  /** What a call admits comes off every window, and off the window the call opens. */
  lemma LevelAfterCall(config: Config, calls: seq<Call>, call: Call, level: real)
    requires IsLeastHeadroom(config, calls, call.now, level)
    ensures IsLeast(config, calls + [call], call.now,
              level - (if call.admitted then call.amount as real else 0.0))
  {
    var longer := calls + [call];
    var spent := if call.admitted then call.amount as real else 0.0;
    forall k | 0 <= k <= |calls|
      ensures Headroom(config, longer, call.now, k) == Headroom(config, calls, call.now, k) - spent
    {
      HeadroomAfterCall(config, calls, call, k);
    }
    OpensNow(config, calls, call);
    if level != config.capacity as real {
      var k :| 0 <= k <= |calls| && level == Headroom(config, calls, call.now, k);
      assert level - spent == Headroom(config, longer, call.now, k);
    }
  }

  lemma FaithfulSnoc(config: Config, calls: seq<Call>, call: Call)
    requires Faithful(config, calls)
    requires call.admitted <==> Fits(config, calls, call.now, call.amount)
    ensures Faithful(config, calls + [call])
  {
    var longer := calls + [call];
    assert longer[..|calls|] == calls;
    forall n | 0 <= n < |calls| ensures longer[..n] == calls[..n] {}
  }

  // ---------------------------------------------------------------- what the rule guarantees

  /**
   Over any stretch of calls ended by an admitted one, at most capacity plus the refill between
   the two calls is admitted.  No assumption on the clock, the rate or the amounts.
   */
  lemma {:induction false} StretchBounded(config: Config, calls: seq<Call>, i: nat, j: nat)
    requires Faithful(config, calls)
    requires i <= j < |calls| && calls[j].admitted
    ensures Spent(calls[..j + 1], i) as real <= config.capacity as real + Gain(config, calls[i].now, calls[j].now)
  {
    var before := calls[..j];
    assert Fits(config, before, calls[j].now, calls[j].amount);
    assert calls[..j + 1] == before + [calls[j]];
    SpentSnoc(before, calls[j], i);
    if i < j {
      assert FirstCall(i + 1) == i && Opens(config, before, i + 1) == before[i].now;
      assert FitsWindow(config, before, calls[j].now, calls[j].amount, i + 1);
    } else {
      NoGain(config, calls[j].now);
    }
  }

  /** Tokens admitted by the calls made between times `a` and `b`, both included. */
  ghost function SpentBetween(calls: seq<Call>, a: real, b: real): int {
    if calls == [] then 0
    else
      var last := calls[|calls| - 1];
      SpentBetween(calls[..|calls| - 1], a, b)
        + (if last.admitted && a <= last.now <= b then last.amount else 0)
  }

  ghost predicate WindowBounded(config: Config, calls: seq<Call>, a: real, b: real) {
    SpentBetween(calls, a, b) as real <= config.capacity as real + config.refillRate * (b - a)
  }

  ghost function TimesOf(calls: seq<Call>): (times: seq<real>)
    ensures |times| == |calls|
  {
    seq(|calls|, n requires 0 <= n < |calls| => calls[n].now)
  }

  /** The calls that ask for less than nothing. */
  ghost function RefundsOf(calls: seq<Call>): set<nat> {
    set n | 0 <= n < |calls| && calls[n].amount < 0
  }

  predicate Between(a: real, x: real, b: real) {
    a <= x <= b || b <= x <= a
  }

  /** Each refund is made at a time between those of any earlier and any later call. */
  ghost predicate RefundsBetween(times: seq<real>, refunds: set<nat>) {
    forall i, j, k :: 0 <= i < j < k < |times| && j in refunds ==> Between(times[i], times[j], times[k])
  }

  /** No time window of such a run admits more than the capacity plus its own refill. */
  lemma {:induction false} EveryWindowBounded(config: Config, calls: seq<Call>, a: real, b: real)
    requires Faithful(config, calls)
    requires RefundsBetween(TimesOf(calls), RefundsOf(calls))
    requires config.refillRate >= 0.0 && config.capacity >= 0 && a <= b
    ensures WindowBounded(config, calls, a, b)
  {
    if calls != [] {
      var j := |calls| - 1;
      var init := calls[..j];
      FaithfulPrefix(config, calls, j);
      if calls[j].admitted && a <= calls[j].now <= b {
        var i := EarliestIn(calls, a, b);
        StretchWithin(config, calls, i, a, b);
      } else {
        assert SpentBetween(calls, a, b) == SpentBetween(init, a, b);
        RefundsPrefix(calls);
        EveryWindowBounded(config, init, a, b);
      }
    } else {
      GainGrows(config, a, a, a, b);
      NoGain(config, a);
    }
  }

  lemma RefundsPrefix(calls: seq<Call>)
    requires calls != [] && RefundsBetween(TimesOf(calls), RefundsOf(calls))
    ensures RefundsBetween(TimesOf(calls[..|calls| - 1]), RefundsOf(calls[..|calls| - 1]))
  {
    var times, init := TimesOf(calls), calls[..|calls| - 1];
    forall i, j, k | 0 <= i < j < k < |init| && j in RefundsOf(init)
      ensures Between(TimesOf(init)[i], TimesOf(init)[j], TimesOf(init)[k])
    {
      assert j in RefundsOf(calls) && Between(times[i], times[j], times[k]);
    }
  }

  lemma StretchWithin(config: Config, calls: seq<Call>, i: nat, a: real, b: real)
    requires Faithful(config, calls) && config.refillRate >= 0.0
    requires i < |calls| && calls[|calls| - 1].admitted
    requires a <= calls[i].now && calls[|calls| - 1].now <= b
    ensures Spent(calls, i) as real <= config.capacity as real + Gain(config, a, b)
  {
    var j := |calls| - 1;
    assert calls[..j + 1] == calls;
    StretchBounded(config, calls, i, j);
    GainGrows(config, a, calls[i].now, calls[j].now, b);
  }

  lemma FaithfulPrefix(config: Config, calls: seq<Call>, n: nat)
    requires Faithful(config, calls) && n <= |calls|
    ensures Faithful(config, calls[..n])
  {
    forall m | 0 <= m < n ensures calls[..n][..m] == calls[..m] {}
  }

  /** The first call in the window: what is spent in the window is at most what is spent since. */
  lemma EarliestIn(calls: seq<Call>, a: real, b: real) returns (i: nat)
    requires calls != [] && RefundsBetween(TimesOf(calls), RefundsOf(calls))
    requires a <= calls[|calls| - 1].now <= b
    ensures i < |calls| && a <= calls[i].now <= b
    ensures SpentBetween(calls, a, b) <= Spent(calls, i)
  {
    i := 0;
    while !(a <= calls[i].now <= b)
      invariant i < |calls|
      invariant Outside(calls, i, a, b)
      decreases |calls| - i
    {
      i := i + 1;
    }
    RestInside(calls, i, a, b);
    InsideAtMostSince(calls, i, a, b);
  }

  lemma RestInside(calls: seq<Call>, i: nat, a: real, b: real)
    requires RefundsBetween(TimesOf(calls), RefundsOf(calls))
    requires i < |calls| && a <= calls[i].now <= b && a <= calls[|calls| - 1].now <= b
    ensures RestCounts(calls, i, a, b)
  {
    var times, last := TimesOf(calls), |calls| - 1;
    forall k | i <= k <= last && calls[k].amount < 0 ensures a <= calls[k].now <= b {
      if i < k < last {
        assert k in RefundsOf(calls) && Between(times[i], times[k], times[last]);
      }
    }
  }

  ghost predicate Outside(calls: seq<Call>, n: nat, a: real, b: real)
    requires n <= |calls|
  {
    forall k :: 0 <= k < n ==> !(a <= calls[k].now <= b)
  }

  /** From `i` on, no call outside the window gives tokens back. */
  ghost predicate RestCounts(calls: seq<Call>, i: nat, a: real, b: real) {
    forall k :: i <= k < |calls| ==> a <= calls[k].now <= b || calls[k].amount >= 0
  }

  lemma {:induction false} InsideAtMostSince(calls: seq<Call>, i: nat, a: real, b: real)
    requires i <= |calls| && Outside(calls, i, a, b) && RestCounts(calls, i, a, b)
    ensures SpentBetween(calls, a, b) <= Spent(calls, i)
  {
    if calls != [] {
      var init, last := calls[..|calls| - 1], calls[|calls| - 1];
      assert calls == init + [last];
      if i == |calls| {
        InsideAtMostSince(init, i - 1, a, b);
        SpentSnoc(init, last, i - 1);
        assert Spent(init, i - 1) == 0;
      } else {
        InsideAtMostSince(init, i, a, b);
        SpentSnoc(init, last, i);
      }
    }
  }

  // ---------------------------------------------------------------- exactly when every window is bounded

  /** A run with these call times, in which only these calls may be refunds. */
  ghost predicate IsRun(config: Config, calls: seq<Call>, times: seq<real>, refunds: set<nat>) {
    && Faithful(config, calls) && config.refillRate >= 0.0 && config.capacity >= 0
    && TimesOf(calls) == times && RefundsOf(calls) <= refunds
  }

  ghost predicate AlwaysBounded(times: seq<real>, refunds: set<nat>) {
    forall config, calls, a, b :: IsRun(config, calls, times, refunds) && a <= b ==> WindowBounded(config, calls, a, b)
  }

  /**
   For given call times and possible refunds, every window of every run is bounded if and only if
   each possible refund is at a time between those of any earlier and any later call.
   */
  lemma BoundedIff(times: seq<real>, refunds: set<nat>)
    ensures AlwaysBounded(times, refunds) <==> RefundsBetween(times, refunds)
  {
    if RefundsBetween(times, refunds) {
      forall config, calls, a, b | IsRun(config, calls, times, refunds) && a <= b
        ensures WindowBounded(config, calls, a, b)
      {
        EveryWindowBounded(config, calls, a, b);
      }
    } else {
      var i, j, k :| 0 <= i < j < k < |times| && j in refunds && !Between(times[i], times[j], times[k]);
      var config, calls, a, b := RefundOnASteppedBackClock(times, i, j, k);
      assert IsRun(config, calls, times, refunds);
    }
  }

  /** A clock that only steps forward, or only back, bounds every window, whatever is refunded; so does no refund. */
  lemma OneWayClock(times: seq<real>, refunds: set<nat>)
    requires || (forall i, j :: 0 <= i < j < |times| ==> times[i] <= times[j])
             || (forall i, j :: 0 <= i < j < |times| ==> times[i] >= times[j])
             || refunds == {}
    ensures RefundsBetween(times, refunds)
  {
    forall i, j, k | 0 <= i < j < k < |times| && j in refunds ensures Between(times[i], times[j], times[k]) {
      assert times[i] <= times[j] <= times[k] || times[i] >= times[j] >= times[k];
    }
  }

  /** One token is taken at `i` and at `k`, and given back at `j`; nothing else is asked for. */
  ghost function TakeRefundTake(times: seq<real>, i: nat, j: nat, k: nat): (calls: seq<Call>)
    ensures TimesOf(calls) == times
  {
    seq(|times|, n requires 0 <= n < |times| =>
      Call(times[n], if n == i || n == k then 1 else if n == j then -1 else 0, true))
  }

  /** The tokens out after the first `n` of those calls. */
  ghost function Out(i: nat, j: nat, k: nat, n: nat): int {
    (if n > i then 1 else 0) - (if n > j then 1 else 0) + (if n > k then 1 else 0)
  }

  lemma {:induction false} SpentIsOut(times: seq<real>, i: nat, j: nat, k: nat, n: nat, from: nat)
    requires i < j < k < |times| && from <= n <= |times|
    ensures Spent(TakeRefundTake(times, i, j, k)[..n], from) == Out(i, j, k, n) - Out(i, j, k, from)
    decreases n - from
  {
    if from < n {
      SpentIsOut(times, i, j, k, n, from + 1);
    }
  }

  lemma {:induction false} BothInside(times: seq<real>, i: nat, j: nat, k: nat, a: real, b: real, n: nat)
    requires i < j < k < |times| && n <= |times|
    requires a <= times[i] <= b && a <= times[k] <= b && !(a <= times[j] <= b)
    ensures SpentBetween(TakeRefundTake(times, i, j, k)[..n], a, b)
         == (if n > i then 1 else 0) + (if n > k then 1 else 0)
  {
    var calls := TakeRefundTake(times, i, j, k);
    if n > 0 {
      BothInside(times, i, j, k, a, b, n - 1);
      assert calls[..n][..n - 1] == calls[..n - 1];
    }
  }

  /** A refund outside what an earlier and a later call span lets some run admit two tokens where one is due. */
  lemma RefundOnASteppedBackClock(times: seq<real>, i: nat, j: nat, k: nat)
    returns (config: Config, calls: seq<Call>, a: real, b: real)
    requires i < j < k < |times| && !Between(times[i], times[j], times[k])
    ensures IsRun(config, calls, times, {j}) && a <= b && !WindowBounded(config, calls, a, b)
  {
    config, calls := Config(1, 0.0, 0.0), TakeRefundTake(times, i, j, k);
    a, b := if times[i] <= times[k] then times[i] else times[k], if times[i] <= times[k] then times[k] else times[i];
    forall n | 0 <= n < |calls| ensures Fits(config, calls[..n], calls[n].now, calls[n].amount) {
      FitsOne(config, times, i, j, k, n);
    }
    BothInside(times, i, j, k, a, b, |times|);
    assert calls[..|times|] == calls;
  }

  lemma FitsOne(config: Config, times: seq<real>, i: nat, j: nat, k: nat, n: nat)
    requires config == Config(1, 0.0, 0.0) && i < j < k < |times| && n < |times|
    ensures var calls := TakeRefundTake(times, i, j, k); Fits(config, calls[..n], calls[n].now, calls[n].amount)
  {
    var calls := TakeRefundTake(times, i, j, k);
    forall w | 0 <= w <= n ensures FitsWindow(config, calls[..n], calls[n].now, calls[n].amount, w) {
      SpentIsOut(times, i, j, k, n, FirstCall(w));
    }
  }

  /** A refused request of at most the capacity is granted once the shortfall has been refilled. */
  lemma WaitSuffices(config: Config, calls: seq<Call>, refused: Call, level: real, later: real)
    requires IsLeastHeadroom(config, calls, refused.now, level)
    requires !refused.admitted && refused.amount <= config.capacity
    requires (later - refused.now) * config.refillRate >= refused.amount as real - level
    ensures Fits(config, calls + [refused], later, refused.amount)
  {
    LevelAfterCall(config, calls, refused, level);
    RefillIsExact(config, calls + [refused], refused.now, level, later);
    GainIs(config, refused.now, later, later - refused.now);
    Reaches(config, calls + [refused], later, refused.amount, level, Gain(config, refused.now, later));
  }

  lemma Reaches(config: Config, calls: seq<Call>, now: real, amount: int, level: real, gain: real)
    requires IsLeastHeadroom(config, calls, now, Min(config.capacity as real, level + gain))
    requires amount <= config.capacity && gain >= amount as real - level
    ensures Fits(config, calls, now, amount)
  {
    AdmitsIffFits(config, calls, now, Min(config.capacity as real, level + gain), amount);
  }
}
