/**
 The circuit breaker decorator: after `maxFailures` faults it refuses calls, and lets one through as
 a probe once `resetTimeout` has passed since the last fault.

 The clock and the wrapped function's behaviour are parameters of every call.  A call that ends in
 an exception the decorator does not catch (one that is not an Exception) is Aborted.
 */
module CircuitBreaker {
  datatype State = Closed | Open | HalfOpen

  datatype Outcome = Returns | Raises | Aborts

  /** One call: the clock on entry, what the function does if it is called, the clock when that is a fault. */
  datatype Call = Call(entry: real, outcome: Outcome, at: real)

  datatype Response = Returned | Raised | Aborted | FastFail

  datatype Event = Event(call: Call, response: Response)

  datatype Config = Config(maxFailures: int, resetTimeout: real)

  // ---------------------------------------------------------------- what the history says

  /** The faults that open the breaker: at least one, whatever the configuration. */
  function Threshold(config: Config): (n: nat)
    ensures n >= 1
  {
    if config.maxFailures < 1 then 1 else config.maxFailures
  }

  /** The times of the faults since the breaker last closed: a success at or past the threshold clears them. */
  ghost function Faults(config: Config, events: seq<Event>): seq<real> {
    if events == [] then []
    else
      var before, last := Faults(config, events[..|events| - 1]), events[|events| - 1];
      match last.response
      case Raised => before + [last.call.at]
      case Returned => if |before| >= Threshold(config) then [] else before
      case _ => before
  }

  ghost predicate Tripped(config: Config, events: seq<Event>) {
    |Faults(config, events)| >= Threshold(config)
  }

  /** The latest probe was cut short, so the breaker is still waiting for its result. */
  ghost predicate Probing(config: Config, events: seq<Event>) {
    && events != []
    && Tripped(config, events)
    && match events[|events| - 1].response
       case Aborted => true
       case FastFail => Probing(config, events[..|events| - 1])
       case _ => false
  }

  /** The rule: refuse when tripped, no probe is pending and the last fault is not old enough. */
  ghost predicate Refuses(config: Config, events: seq<Event>, entry: real) {
    && Tripped(config, events)
    && !Probing(config, events)
    && entry - Last(Faults(config, events)) <= config.resetTimeout
  }

  function Last(times: seq<real>): real {
    if times == [] then 0.0 else times[|times| - 1]
  }

  ghost function Expected(config: Config, events: seq<Event>, call: Call): Response {
    if Refuses(config, events, call.entry) then FastFail
    else match call.outcome
      case Returns => Returned
      case Raises => Raised
      case Aborts => Aborted
  }

  /** A history in which every call was answered by the rule. */
  ghost predicate Faithful(config: Config, events: seq<Event>) {
    events == [] ||
    (Faithful(config, events[..|events| - 1]) &&
     events[|events| - 1].response == Expected(config, events[..|events| - 1], events[|events| - 1].call))
  }

  // ---------------------------------------------------------------- the decorator

  class Breaker {
    const maxFailures: int
    const resetTimeout: real
    var failures: int
    var lastFailureTime: real
    var state: State

    ghost const config: Config
    ghost var events: seq<Event>

    /** The three variables say exactly what the history says. */
    ghost predicate Valid()
      reads this
    {
      && config == Config(maxFailures, resetTimeout)
      && Faithful(config, events)
      && failures == |Faults(config, events)|
      && (failures > 0 ==> lastFailureTime == Last(Faults(config, events)))
      && state == (if !Tripped(config, events) then Closed else if Probing(config, events) then HalfOpen else Open)
    }

    constructor (maxFailures: int, resetTimeout: real)
      ensures Valid() && events == []
      ensures config == Config(maxFailures, resetTimeout)
    {
      this.maxFailures, this.resetTimeout := maxFailures, resetTimeout;
      failures := 0;
      lastFailureTime := 0.0;
      state := Closed;
      config := Config(maxFailures, resetTimeout);
      events := [];
    }

    method Wrapper(call: Call) returns (response: Response)
      requires Valid()
      modifies this
      ensures Valid()
      ensures events == old(events) + [Event(call, response)]
      ensures response == Expected(config, old(events), call)
      ensures state == Open <==> Tripped(config, events) && !Probing(config, events)
    {
      if state == Open {
        if call.entry - lastFailureTime > resetTimeout {
          state := HalfOpen;
        } else {
          response := FastFail;
          OneMore(config, events, Event(call, response));
          events := events + [Event(call, response)];
          return;
        }
      }
      match call.outcome {
        case Returns =>
          if state == HalfOpen {
            state := Closed;
            failures := 0;
          }
          response := Returned;
        case Raises =>
          failures := failures + 1;
          lastFailureTime := call.at;
          if failures >= maxFailures {
            state := Open;
          }
          response := Raised;
        case Aborts =>
          response := Aborted;
      }
      OneMore(config, events, Event(call, response));
      events := events + [Event(call, response)];
    }
  }

  /** One more event, said of the history as a whole. */
  lemma OneMore(config: Config, events: seq<Event>, e: Event)
    ensures Faithful(config, events + [e]) <==>
            Faithful(config, events) && e.response == Expected(config, events, e.call)
    ensures var before := Faults(config, events);
      Faults(config, events + [e]) ==
        match e.response
        case Raised => before + [e.call.at]
        case Returned => if |before| >= Threshold(config) then [] else before
        case _ => before
    ensures Probing(config, events + [e]) <==>
      (Tripped(config, events) && (e.response == Aborted || (e.response == FastFail && Probing(config, events))))
  {
    assert (events + [e])[..|events|] == events;
  }

  // ---------------------------------------------------------------- what the rule guarantees

  /** The clock never steps back, within a call or between calls. */
  ghost predicate Forward(events: seq<Event>) {
    && (forall k :: 0 <= k < |events| ==> events[k].call.entry <= events[k].call.at)
    && (forall k, l :: 0 <= k < l < |events| ==> events[k].call.entry <= events[l].call.entry)
  }

  lemma ForwardInit(events: seq<Event>)
    requires Forward(events) && events != []
    ensures Forward(events[..|events| - 1])
  {
  }

  /** A call let through while tripped comes more than the timeout after the last fault, pending probe or not. */
  lemma {:induction false} LetThrough(config: Config, events: seq<Event>, entry: real)
    requires Faithful(config, events) && Forward(events)
    requires forall k :: 0 <= k < |events| ==> events[k].call.entry <= entry
    requires Tripped(config, events) && !Refuses(config, events, entry)
    ensures entry - Last(Faults(config, events)) > config.resetTimeout
  {
    if Probing(config, events) {
      var init, last := events[..|events| - 1], events[|events| - 1];
      ForwardInit(events);
      assert last.response == Expected(config, init, last.call);
      assert Faults(config, events) == Faults(config, init);
      LetThrough(config, init, last.call.entry);
    }
  }

  /** From position `first` on, each time is more than `gap` after the one before it. */
  ghost predicate Apart(times: seq<real>, first: nat, gap: real)
    requires first >= 1
  {
    forall k :: first <= k < |times| ==> times[k] - times[k - 1] > gap
  }

  /** Each fault past the threshold comes more than the timeout after the fault before it. */
  lemma {:induction false} FaultsSpaced(config: Config, events: seq<Event>)
    requires Faithful(config, events) && Forward(events)
    ensures Apart(Faults(config, events), Threshold(config), config.resetTimeout)
  {
    if events != [] {
      var init, last := events[..|events| - 1], events[|events| - 1];
      ForwardInit(events);
      FaultsSpaced(config, init);
      if last.response == Raised && Tripped(config, init) {
        LetThrough(config, init, last.call.entry);
      }
    }
  }

  /** The number of calls made up to and with the opening fault, the one that reached the threshold. */
  ghost function Opening(config: Config, events: seq<Event>): (n: nat)
    ensures n <= |events|
  {
    if events != [] && Tripped(config, events[..|events| - 1]) then Opening(config, events[..|events| - 1])
    else |events|
  }

  /** The calls from position `from` on that were not refused, however they ended. */
  ghost function LetIn(events: seq<Event>, from: nat): nat
    requires from <= |events|
  {
    if from == |events| then 0
    else LetIn(events[..|events| - 1], from) + (if events[|events| - 1].response == FastFail then 0 else 1)
  }

  ghost function AbortedIn(events: seq<Event>, from: nat): nat
    requires from <= |events|
  {
    if from == |events| then 0
    else AbortedIn(events[..|events| - 1], from) + (if events[|events| - 1].response == Aborted then 1 else 0)
  }

  lemma {:induction false} NoneAborted(events: seq<Event>, from: nat)
    requires from <= |events|
    ensures AbortedIn(events, from) == 0 <==> forall k :: from <= k < |events| ==> events[k].response != Aborted
  {
    if from < |events| {
      var init, last := events[..|events| - 1], events[|events| - 1];
      NoneAborted(init, from);
      assert events == init + [last];
    }
  }

  /** Every call let through since the breaker opened is a fault past the threshold or was aborted. */
  lemma {:induction false} LoadSplits(config: Config, events: seq<Event>)
    requires Tripped(config, events)
    ensures LetIn(events, Opening(config, events))
         == |Faults(config, events)| - Threshold(config) + AbortedIn(events, Opening(config, events))
  {
    var init := events[..|events| - 1];
    if Tripped(config, init) {
      LoadSplits(config, init);
    } else {
      OpensAtThreshold(config, events);
    }
  }

  /** The breaker opens exactly at the fault that reaches the threshold. */
  lemma OpensAtThreshold(config: Config, events: seq<Event>)
    requires events != [] && Tripped(config, events) && !Tripped(config, events[..|events| - 1])
    ensures |Faults(config, events)| == Threshold(config) && events[|events| - 1].response == Raised
  {
  }

  /** The load is counted by the faults if and only if no call since the breaker opened was aborted. */
  lemma LoadIsFaultsIff(config: Config, events: seq<Event>)
    requires Tripped(config, events)
    ensures LetIn(events, Opening(config, events)) == |Faults(config, events)| - Threshold(config) <==>
            forall k :: Opening(config, events) <= k < |events| ==> events[k].response != Aborted
  {
    LoadSplits(config, events);
    NoneAborted(events, Opening(config, events));
  }

  /**
   The load a failing service is put under is bounded as long as no call is aborted: n calls let
   through since the breaker opened take more than n timeouts from the opening fault to the last one.
   */
  lemma RateBounded(config: Config, events: seq<Event>)
    requires Faithful(config, events) && Forward(events) && Tripped(config, events)
    requires forall k :: Opening(config, events) <= k < |events| ==> events[k].response != Aborted
    ensures var faults, n := Faults(config, events), LetIn(events, Opening(config, events));
      && |faults| == Threshold(config) + n
      && Last(faults) - faults[Threshold(config) - 1] >= Gaps(n, config.resetTimeout)
      && (n > 0 ==> Last(faults) - faults[Threshold(config) - 1] > Gaps(n, config.resetTimeout))
  {
    LoadIsFaultsIff(config, events);
    FaultsRateBounded(config, events);
  }

  /** Without that condition the bound still holds of the faults alone. */
  lemma FaultsRateBounded(config: Config, events: seq<Event>)
    requires Faithful(config, events) && Forward(events) && Tripped(config, events)
    ensures Elapsed(Faults(config, events), Threshold(config), |Faults(config, events)|, config.resetTimeout)
  {
    FaultsSpaced(config, events);
    Spaced(Faults(config, events), Threshold(config), |Faults(config, events)|, config.resetTimeout);
  }

  /** From the fault that opens, at `first - 1`, to the last of the `n`, n - first gaps go by. */
  ghost predicate Elapsed(times: seq<real>, first: nat, n: nat, gap: real)
    requires 1 <= first <= n <= |times|
  {
    && times[n - 1] - times[first - 1] >= Gaps(n - first, gap)
    && (n > first ==> times[n - 1] - times[first - 1] > Gaps(n - first, gap))
  }

  ghost function Gaps(n: nat, gap: real): real {
    n as real * gap
  }

  lemma {:induction false} Spaced(times: seq<real>, first: nat, n: nat, gap: real)
    requires 1 <= first <= n <= |times| && Apart(times, first, gap)
    ensures Elapsed(times, first, n, gap)
  {
    if first < n {
      Spaced(times, first, n - 1, gap);
      OneGapMore(n - first, n - 1 - first, gap);
    } else {
      assert Gaps(n - first, gap) == 0.0;
    }
  }

  lemma OneGapMore(n: nat, fewer: nat, gap: real)
    requires n == fewer + 1
    ensures Gaps(n, gap) == Gaps(fewer, gap) + gap
  {
    assert n as real == fewer as real + 1.0;
  }

  /** From an aborted probe until a call returns or raises, every call is let through, whenever it comes. */
  lemma {:induction false} AbortedProbeHoldsOpen(config: Config, events: seq<Event>, probe: nat)
    requires Faithful(config, events) && probe < |events|
    requires Tripped(config, events[..probe]) && events[probe].response == Aborted
    requires forall k :: probe < k < |events| ==> events[k].response != Returned && events[k].response != Raised
    ensures Probing(config, events) && forall entry :: !Refuses(config, events, entry)
    ensures forall k :: probe <= k < |events| ==> events[k].response == Aborted
  {
    var init := events[..|events| - 1];
    if probe == |init| {
      assert events[..probe] == init;
    } else {
      assert init[..probe] == events[..probe];
      AbortedProbeHoldsOpen(config, init, probe);
      assert events[|init|].response == Expected(config, init, events[|init|].call);
    }
  }

  /** `m` calls at one instant, none of which comes back. */
  ghost function AbortsAt(at: real, m: nat): (calls: seq<Event>)
    ensures |calls| == m
  {
    seq(m, _ => Event(Call(at, Aborts, at), Aborted))
  }

  /** `after` is `events` and then `m` more calls let through by `at`, with the breaker still letting calls in. */
  ghost predicate LetsIn(config: Config, events: seq<Event>, after: seq<Event>, at: real, m: nat) {
    && Faithful(config, after) && Forward(after) && UpTo(after, at)
    && Tripped(config, after) && !Refuses(config, after, at)
    && Faults(config, after) == Faults(config, events)
    && Opening(config, after) == Opening(config, events)
    && LetIn(after, Opening(config, after)) == LetIn(events, Opening(config, events)) + m
  }

  /**
   Aborted calls are not bounded at all: from any tripped state, as soon as one call is let through,
   any number of calls that abort are let through at that same instant.
   */
  lemma {:induction false} AbortsUnbounded(config: Config, events: seq<Event>, at: real, m: nat)
    requires Faithful(config, events) && Forward(events) && UpTo(events, at)
    requires Tripped(config, events) && !Refuses(config, events, at)
    ensures LetsIn(config, events, events + AbortsAt(at, m), at, m)
  {
    if m == 0 {
      assert events + AbortsAt(at, m) == events;
    } else {
      var fewer := m - 1;
      var before, e := events + AbortsAt(at, fewer), Event(Call(at, Aborts, at), Aborted);
      AbortsUnbounded(config, events, at, fewer);
      assert AbortsAt(at, m) == AbortsAt(at, fewer) + [e];
      assert events + AbortsAt(at, m) == before + [e];
      OneMoreAborted(config, events, before, e, before + [e], at, fewer, m);
    }
  }

  lemma OneMoreAborted(config: Config, events: seq<Event>, before: seq<Event>, e: Event, after: seq<Event>,
                       at: real, fewer: nat, m: nat)
    requires LetsIn(config, events, before, at, fewer) && m == fewer + 1
    requires e == Event(Call(at, Aborts, at), Aborted) && after == before + [e]
    ensures LetsIn(config, events, after, at, m)
  {
    OneMore(config, before, e);
    OneMoreLetIn(config, before, e);
    OneMoreForward(before, e);
  }

  /** And such an instant always comes. */
  lemma LetThroughAt(config: Config, events: seq<Event>) returns (at: real)
    requires Forward(events) && Tripped(config, events)
    ensures !Refuses(config, events, at) && UpTo(events, at)
  {
    var fault, entry := Last(Faults(config, events)), events[|events| - 1].call.entry;
    at := if entry > fault + config.resetTimeout then entry else fault + config.resetTimeout + 1.0;
  }

  ghost predicate UpTo(events: seq<Event>, at: real) {
    forall k :: 0 <= k < |events| ==> events[k].call.entry <= at
  }

  lemma OneMoreForward(events: seq<Event>, e: Event)
    requires Forward(events) && UpTo(events, e.call.entry) && e.call.entry <= e.call.at
    ensures Forward(events + [e]) && UpTo(events + [e], e.call.entry)
  {
  }

  lemma OneMoreLetIn(config: Config, events: seq<Event>, e: Event)
    requires Tripped(config, events) && e.response == Aborted
    ensures Opening(config, events + [e]) == Opening(config, events)
    ensures LetIn(events + [e], Opening(config, events)) == LetIn(events, Opening(config, events)) + 1
  {
    assert (events + [e])[..|events|] == events;
  }

  // ---------------------------------------------------------------- what a caller sees

  /** Calls that ended in a fault. */
  ghost function RaisedCount(events: seq<Event>): nat {
    if events == [] then 0
    else RaisedCount(events[..|events| - 1]) + (if events[|events| - 1].response == Raised then 1 else 0)
  }

  ghost predicate NoReturn(events: seq<Event>, after: nat) {
    forall k :: after < k < |events| ==> events[k].response != Returned
  }

  lemma {:induction false} FewFaults(config: Config, events: seq<Event>)
    requires Faithful(config, events)
    requires RaisedCount(events) == 0 || RaisedCount(events) < config.maxFailures
    ensures |Faults(config, events)| == RaisedCount(events) && !Tripped(config, events)
    ensures forall k :: 0 <= k < |events| ==> events[k].response != FastFail
  {
    if events != [] {
      FewFaults(config, events[..|events| - 1]);
    }
  }

  /** No call is refused as long as there were no faults, or fewer than max_failures, however many calls returned. */
  lemma NotRefusedBefore(config: Config, events: seq<Event>, e: Event)
    requires Faithful(config, events + [e])
    requires RaisedCount(events) == 0 || RaisedCount(events) < config.maxFailures
    ensures e.response == match e.call.outcome case Returns => Returned case Raises => Raised case Aborts => Aborted
  {
    OneMore(config, events, e);
    FewFaults(config, events);
  }

  /** What opened the breaker, or left it open: the fault at `k`, by its number or as a probe after a refusal. */
  ghost predicate Opener(config: Config, events: seq<Event>, k: nat) {
    && k < |events| && events[k].response == Raised
    && (RaisedCount(events[..k + 1]) == (if config.maxFailures < 1 then 1 else config.maxFailures) ||
        exists j :: 0 <= j < k && events[j].response == FastFail && NoReturn(events[..k], j))
  }

  lemma {:induction false} RefusedIsTripped(config: Config, events: seq<Event>, j: nat)
    requires Faithful(config, events) && j < |events| && events[j].response == FastFail && NoReturn(events, j)
    ensures Tripped(config, events)
  {
    var init := events[..|events| - 1];
    if j < |init| {
      assert init[j] == events[j];
      RefusedIsTripped(config, init, j);
    }
  }

  lemma OpenerTrips(config: Config, events: seq<Event>, k: nat)
    requires Faithful(config, events) && k + 1 == |events| && Opener(config, events, k)
    ensures Tripped(config, events) && !Probing(config, events) && Last(Faults(config, events)) == events[k].call.at
  {
    var init := events[..k];
    assert events[..k + 1] == events;
    if j :| 0 <= j < k && events[j].response == FastFail && NoReturn(init, j) {
      assert init[j] == events[j];
      RefusedIsTripped(config, init, j);
    } else {
      FewFaults(config, init);
    }
  }

  /** Refusals change nothing. */
  lemma {:induction false} RefusalsKeep(config: Config, events: seq<Event>, k: nat)
    requires Faithful(config, events) && k < |events|
    requires forall j :: k < j < |events| ==> events[j].response == FastFail
    ensures Faithful(config, events[..k + 1])
    ensures Faults(config, events) == Faults(config, events[..k + 1])
    ensures Tripped(config, events) ==> (Probing(config, events) <==> Probing(config, events[..k + 1]))
  {
    if k + 1 == |events| {
      assert events[..k + 1] == events;
    } else {
      var init := events[..|events| - 1];
      assert init[..k + 1] == events[..k + 1];
      RefusalsKeep(config, init, k);
    }
  }

  /**
   While the last call that was let through is the fault that opened the breaker or left it open, a
   call is refused if and only if it comes at most the timeout after that fault.
   */
  lemma RefusedIff(config: Config, events: seq<Event>, k: nat, e: Event)
    requires Faithful(config, events + [e]) && Opener(config, events, k)
    requires forall j :: k < j < |events| ==> events[j].response == FastFail
    ensures e.response == FastFail <==> e.call.entry - events[k].call.at <= config.resetTimeout
    ensures e.response != FastFail ==>
      e.response == match e.call.outcome case Returns => Returned case Raises => Raised case Aborts => Aborted
  {
    OneMore(config, events, e);
    RefusalsKeep(config, events, k);
    OpenerPrefix(config, events, k);
    OpenerTrips(config, events[..k + 1], k);
  }

  lemma OpenerPrefix(config: Config, events: seq<Event>, k: nat)
    requires Opener(config, events, k)
    ensures Opener(config, events[..k + 1], k)
  {
    var first := events[..k + 1];
    assert first[..k + 1] == first && first[..k] == events[..k];
    if j :| 0 <= j < k && events[j].response == FastFail && NoReturn(events[..k], j) {
      assert first[j] == events[j];
    }
  }

  /** Once a probe returns the breaker is as new: what happens from then on does not depend on what was. */
  lemma {:induction false} ProbeRenews(config: Config, events: seq<Event>, k: nat, probe: Event, more: seq<Event>)
    requires Faithful(config, events + [probe]) && Opener(config, events, k) && probe.response == Returned
    requires forall j :: k < j < |events| ==> events[j].response == FastFail
    ensures Faithful(config, events + [probe] + more) <==> Faithful(config, more)
    ensures Faults(config, events + [probe] + more) == Faults(config, more)
    ensures Probing(config, events + [probe] + more) <==> Probing(config, more)
    decreases |more|
  {
    var before := events + [probe];
    if more == [] {
      assert before + more == before;
      ProbeCloses(config, events, k, probe);
    } else {
      var init, last := more[..|more| - 1], more[|more| - 1];
      assert before + more == before + init + [last] && more == init + [last];
      ProbeRenews(config, events, k, probe, init);
      SameAnswer(config, before + init, init, last);
    }
  }

  lemma ProbeCloses(config: Config, events: seq<Event>, k: nat, probe: Event)
    requires Faithful(config, events + [probe]) && Opener(config, events, k) && probe.response == Returned
    requires forall j :: k < j < |events| ==> events[j].response == FastFail
    ensures Faults(config, events + [probe]) == [] && !Probing(config, events + [probe])
  {
    OneMore(config, events, probe);
    RefusalsKeep(config, events, k);
    OpenerPrefix(config, events, k);
    OpenerTrips(config, events[..k + 1], k);
  }

  lemma SameAnswer(config: Config, one: seq<Event>, other: seq<Event>, e: Event)
    requires Faithful(config, one) <==> Faithful(config, other)
    requires Faults(config, one) == Faults(config, other) && (Probing(config, one) <==> Probing(config, other))
    ensures Faithful(config, one + [e]) <==> Faithful(config, other + [e])
    ensures Faults(config, one + [e]) == Faults(config, other + [e])
    ensures Probing(config, one + [e]) <==> Probing(config, other + [e])
  {
    OneMore(config, one, e);
    OneMore(config, other, e);
  }

  // ---------------------------------------------------------------- exactly when the load is bounded

  /** The time of the fault that opened the breaker. */
  ghost function OpenedAt(config: Config, events: seq<Event>): real
    requires Tripped(config, events)
  {
    Faults(config, events)[Threshold(config) - 1]
  }

  /** The n-th call let through since the breaker opened comes more than n timeouts after it did. */
  ghost predicate Bounded(config: Config, events: seq<Event>)
    requires Tripped(config, events)
  {
    var from := Opening(config, events);
    forall k :: from <= k < |events| && events[k].response != FastFail ==> ComesLater(config, events, from, k)
  }

  ghost predicate ComesLater(config: Config, events: seq<Event>, from: nat, k: nat)
    requires Tripped(config, events) && from <= k < |events|
  {
    events[k].call.entry - OpenedAt(config, events) > Gaps(LetIn(events[..k + 1], from), config.resetTimeout)
  }

  ghost predicate IsRun(config: Config, events: seq<Event>, outcomes: set<Outcome>) {
    && Faithful(config, events) && Forward(events) && Tripped(config, events)
    && forall k :: 0 <= k < |events| ==> events[k].call.outcome in outcomes
  }

  ghost predicate AlwaysBounded(config: Config, outcomes: set<Outcome>) {
    forall events: seq<Event> :: IsRun(config, events, outcomes) ==> Bounded(config, events)
  }

  /**
   For a service whose calls can have these outcomes, the load since the breaker opened is bounded in
   every run if and only if calls cannot be aborted, or cannot raise, or there is no timeout to wait for.
   */
  lemma BoundedIff(config: Config, outcomes: set<Outcome>)
    ensures AlwaysBounded(config, outcomes) <==>
            Aborts !in outcomes || Raises !in outcomes || config.resetTimeout <= 0.0
  {
    if Aborts !in outcomes || Raises !in outcomes || config.resetTimeout <= 0.0 {
      forall events: seq<Event> | IsRun(config, events, outcomes) ensures Bounded(config, events) {
        var from := Opening(config, events);
        forall k | from <= k < |events| && events[k].response != FastFail
          ensures ComesLater(config, events, from, k)
        {
          LetInSpaced(config, events, outcomes, k);
        }
      }
    } else {
      var events := Flood(config);
      assert IsRun(config, events, outcomes);
    }
  }

  /** Since the breaker opened it has been tripped before every call. */
  lemma {:induction false} TrippedSince(config: Config, events: seq<Event>, k: nat)
    requires Tripped(config, events) && Opening(config, events) <= k <= |events|
    ensures Tripped(config, events[..k]) && Opening(config, events[..k]) == Opening(config, events)
    ensures OpenedAt(config, events[..k]) == OpenedAt(config, events)
  {
    if k == |events| {
      assert events[..k] == events;
    } else {
      var init := events[..|events| - 1];
      assert init[..k] == events[..k];
      TrippedSince(config, init, k);
    }
  }

  lemma {:induction false} FaithfulPrefix(config: Config, events: seq<Event>, k: nat)
    requires Faithful(config, events) && Forward(events) && k <= |events|
    ensures Faithful(config, events[..k]) && Forward(events[..k])
    ensures k < |events| ==> events[k].response == Expected(config, events[..k], events[k].call)
  {
    if k == |events| {
      assert events[..k] == events;
    } else {
      ForwardInit(events);
      if k < |events| - 1 {
        var init := events[..|events| - 1];
        assert init[..k] == events[..k];
        FaithfulPrefix(config, init, k);
      }
    }
  }

  lemma LetInSpaced(config: Config, events: seq<Event>, outcomes: set<Outcome>, k: nat)
    requires IsRun(config, events, outcomes)
    requires Aborts !in outcomes || Raises !in outcomes || config.resetTimeout <= 0.0
    requires Opening(config, events) <= k < |events| && events[k].response != FastFail
    ensures ComesLater(config, events, Opening(config, events), k)
  {
    var from, before, count := Opening(config, events), events[..k], LetIn(events[..k + 1], Opening(config, events));
    BeforeCall(config, events, k, before);
    OneMoreIn(events, k, k + 1, from);
    NoneOrNoWait(config, events, outcomes, k);
    CallSpaced(config, before, from, count, events[k].call.entry);
  }

  lemma CallSpaced(config: Config, before: seq<Event>, from: nat, count: nat, entry: real)
    requires Faithful(config, before) && Forward(before) && UpTo(before, entry)
    requires Tripped(config, before) && !Refuses(config, before, entry)
    requires from == Opening(config, before) && count == LetIn(before, from) + 1
    requires AbortedIn(before, from) == 0 || config.resetTimeout <= 0.0
    ensures entry - OpenedAt(config, before) > Gaps(count, config.resetTimeout)
  {
    AfterTheLastFault(config, before, entry);
    LoadSplits(config, before);
    var faults, aborted := |Faults(config, before)| - Threshold(config), AbortedIn(before, from);
    EnoughGaps(faults + 1, count, config.resetTimeout, aborted, entry - OpenedAt(config, before));
  }

  lemma NoneOrNoWait(config: Config, events: seq<Event>, outcomes: set<Outcome>, k: nat)
    requires IsRun(config, events, outcomes) && Opening(config, events) <= k <= |events|
    requires Aborts !in outcomes || Raises !in outcomes || config.resetTimeout <= 0.0
    ensures AbortedIn(events[..k], Opening(config, events)) == 0 || config.resetTimeout <= 0.0
  {
    if Aborts !in outcomes {
      NothingAborted(config, events, outcomes, k);
    } else if Raises !in outcomes {
      NeverTripped(config, events);
    }
  }

  lemma BeforeCall(config: Config, events: seq<Event>, k: nat, before: seq<Event>)
    requires Faithful(config, events) && Forward(events) && Tripped(config, events)
    requires Opening(config, events) <= k < |events| && events[k].response != FastFail && before == events[..k]
    ensures Faithful(config, before) && Forward(before) && UpTo(before, events[k].call.entry)
    ensures Tripped(config, before) && !Refuses(config, before, events[k].call.entry)
    ensures Opening(config, before) == Opening(config, events) && OpenedAt(config, before) == OpenedAt(config, events)
  {
    TrippedSince(config, events, k);
    FaithfulPrefix(config, events, k);
  }

  lemma OneMoreIn(events: seq<Event>, k: nat, next: nat, from: nat)
    requires from <= k < |events| && next == k + 1 && events[k].response != FastFail
    ensures LetIn(events[..next], from) == LetIn(events[..k], from) + 1
  {
    assert events[..next][..k] == events[..k];
  }

  /** A call let through comes a timeout after the last fault, and that one so many after the opening one. */
  lemma AfterTheLastFault(config: Config, before: seq<Event>, entry: real)
    requires Faithful(config, before) && Forward(before) && UpTo(before, entry)
    requires Tripped(config, before) && !Refuses(config, before, entry)
    ensures entry - OpenedAt(config, before)
          > Gaps(|Faults(config, before)| - Threshold(config) + 1, config.resetTimeout)
  {
    var faults := |Faults(config, before)| - Threshold(config);
    LetThrough(config, before, entry);
    FaultsRateBounded(config, before);
    OneGapMore(faults + 1, faults, config.resetTimeout);
  }

  lemma EnoughGaps(faults: nat, n: nat, gap: real, aborted: nat, elapsed: real)
    requires n == faults + aborted && (aborted == 0 || gap <= 0.0) && elapsed > Gaps(faults, gap)
    ensures elapsed > Gaps(n, gap)
  {
    if aborted > 0 {
      assert n as real == faults as real + aborted as real;
      assert aborted as real * gap <= 0.0;
    }
  }

  lemma NothingAborted(config: Config, events: seq<Event>, outcomes: set<Outcome>, k: nat)
    requires IsRun(config, events, outcomes) && Aborts !in outcomes
    requires Opening(config, events) <= k <= |events|
    ensures AbortedIn(events[..k], Opening(config, events)) == 0
  {
    NoneAborted(events[..k], Opening(config, events));
    forall j | 0 <= j < k ensures events[j].response != Aborted {
      FaithfulPrefix(config, events, j);
    }
  }

  /** Without faults the breaker stays closed. */
  lemma {:induction false} NeverTripped(config: Config, events: seq<Event>)
    requires Faithful(config, events) && forall k :: 0 <= k < |events| ==> events[k].call.outcome != Raises
    ensures Faults(config, events) == []
  {
    if events != [] {
      NeverTripped(config, events[..|events| - 1]);
    }
  }

  /** As many faults as it takes, all at the same time. */
  ghost function FaultsAt(at: real, n: nat): seq<Event> {
    seq(n, _ => Event(Call(at, Raises, at), Raised))
  }

  lemma {:induction false} FaultsOpen(config: Config, n: nat)
    requires n <= Threshold(config)
    ensures var events := FaultsAt(0.0, n);
      && Faithful(config, events) && Forward(events) && UpTo(events, 0.0)
      && |Faults(config, events)| == n && (n > 0 ==> Last(Faults(config, events)) == 0.0)
      && Opening(config, events) == n
  {
    if n > 0 {
      FaultsOpen(config, n - 1);
      assert FaultsAt(0.0, n)[..n - 1] == FaultsAt(0.0, n - 1);
    }
  }

  lemma ManyGaps(gap: real, time: real) returns (n: nat)
    requires gap > 0.0 && time > 0.0
    ensures n > 0 && Gaps(n, gap) >= time
  {
    n := (time / gap).Floor + 1;
    assert n as real >= time / gap;
    assert time / gap * gap == time;
    Scaled(time / gap, n as real, gap);
  }

  lemma Scaled(x: real, y: real, gap: real)
    requires x <= y && gap > 0.0
    ensures x * gap <= y * gap
  {
  }

  /** Faults open the breaker, and as soon as it lets a call through so many abort that the bound is passed. */
  lemma Flood(config: Config) returns (events: seq<Event>)
    requires config.resetTimeout > 0.0
    ensures IsRun(config, events, {Aborts, Raises}) && !Bounded(config, events)
  {
    var opening, at := FaultsAt(0.0, Threshold(config)), config.resetTimeout + 1.0;
    FaultsOpen(config, Threshold(config));
    var m := ManyGaps(config.resetTimeout, at);
    AbortsUnbounded(config, opening, at, m);
    events := opening + AbortsAt(at, m);
    var last := |events| - 1;
    assert events[..last + 1] == events;
    assert events[last] == Event(Call(at, Aborts, at), Aborted);
  }

  /** A configuration below one behaves like one. */
  lemma {:induction false} BelowOneIsOne(config: Config, events: seq<Event>)
    requires config.maxFailures < 1
    ensures Faithful(config, events) <==> Faithful(config.(maxFailures := 1), events)
    ensures Faults(config, events) == Faults(config.(maxFailures := 1), events)
    ensures Probing(config, events) <==> Probing(config.(maxFailures := 1), events)
  {
    if events != [] {
      BelowOneIsOne(config, events[..|events| - 1]);
    }
  }
}
