/**
 The self-healing loop: test, review and execute generated code, and ask for a repair while attempts
 are left.

 Planner, coder, debugger, tester, reviewer and sandbox are oracles: each round's answers are
 arbitrary.  What was executed is kept in a ghost trace, against which the claims a result makes
 are checked.
 */
module Orchestrator {
  import opened Wrappers
  import opened Strings

  // ---------------------------------------------------------------- what the oracles answer

  /** A pass carries the digest of exactly what was judged; hashing is taken to be injective. */
  datatype Proof = Proof(digest: string)

  function Digest(code: string, suite: string): string {
    code + "\0" + suite
  }

  predicate Covers(proof: Proof, code: string, suite: string) {
    proof.digest == Digest(code, suite)
  }

  datatype Verdict = Verified(proof: Proof) | Failed | DidNotRun | NothingToVerify

  function ProofOf(v: Verdict): Option<Proof> {
    if v.Verified? then Some(v.proof) else None
  }

  datatype Exec = Exec(blocked: bool, success: bool)

  datatype Coded = Coded(success: bool, code: string, model: string)

  /** Everything one round can ask for. */
  datatype Round = Round(suite: Verdict, clean: bool, approved: bool, exec: Exec, snippets: seq<Snippet>,
                         debugger: Coded, coder: Coded)

  /** A program run on the side, and how that went. */
  datatype Snippet = Snippet(code: string, exec: Exec)

  // ---------------------------------------------------------------- what is written down

  datatype Status = InProgress | Completed | FailedRun

  datatype Session = Session(goal: string, code: string, suite: string, attempts: int, status: Status)

  datatype Stat = Stat(model: string, success: bool, attempts: int)

  datatype Entry = Entry(goal: string, model: string, success: bool, attempts: int, code: string)

  datatype Metric = Metric(model: string, success: bool, attempts: int, hadTests: bool)

  datatype Memory = Memory(goal: string, code: string, model: string, tested: bool)

  datatype Commit = Commit(goal: string, model: string, testsPassed: bool)

  datatype Books = Books(stats: seq<Stat>, history: seq<Entry>, metrics: seq<Metric>, memory: seq<Memory>,
                         commits: seq<Commit>, session: Option<Session>, lastGoal: string, lastCode: string)

  /** Why an answer that was accepted is not fully verified. */
  datatype Reason = NoReason | SkillAnswer | Replayed | ObjectionUnresolved

  datatype Result = Result(success: bool, code: string, attempts: int, verified: bool, reason: Reason,
                           proof: Option<Proof>)

  predicate TestsPassed(r: Result) {
    r.proof.Some?
  }

  /**
   What is executed: a suite on a program, a program, or something on the side, to settle who is to
   blame for a failed assertion or to pick among parallel candidates.
   */
  datatype Event =
    | SuiteRan(code: string, suite: string, verdict: Verdict)
    | Executed(code: string, exec: Exec)
    | Aside(code: string, exec: Exec)

  /** How a round ends: with the run's result, without a repair, or with a program to try next. */
  datatype Outcome = Done(r: Result) | GiveUp(coded: Coded) | Retry(coded: Coded)

  predicate RanClean(e: Event) {
    e.Executed? && e.exec.success && !e.exec.blocked
  }

  // ---------------------------------------------------------------- what a finished run owes

  /**
   One stats record, one history entry, one metric and a terminal session, all telling the result.
   What is remembered or committed is so only as tested when the result carries a proof.
   */
  ghost predicate Accounted(before: Books, after: Books, goal: string, suite: string, commit: bool, used: string,
                            r: Result) {
    && after.stats == before.stats + [Stat(used, r.success, r.attempts)]
    && after.history == before.history + [Entry(goal, used, r.success, r.attempts, r.code)]
    && after.metrics == before.metrics + [Metric(used, r.success, r.attempts, suite != "")]
    && after.session == Some(Session(goal, r.code, suite, r.attempts, if r.success then Completed else FailedRun))
    && var approved := r.success && r.reason == NoReason;
    && after.memory == before.memory
         + (if approved then [Memory(goal, r.code, used, TestsPassed(r))] else [])
    && after.commits == before.commits
         + (if approved && commit then [Commit(goal, used, TestsPassed(r))] else [])
    && (after.lastGoal, after.lastCode) == (if r.success then (goal, r.code) else (before.lastGoal, before.lastCode))
  }

  /** The suite's verdict on exactly this code, if the run's last event but one is that verdict and it is a pass. */
  ghost function JudgedLast(events: seq<Event>, code: string, suite: string): Option<Proof> {
    if |events| < 2 then None
    else match events[|events| - 2]
      case Executed(_, _) => None
      case Aside(_, _) => None
      case SuiteRan(c, s, verdict) =>
        if c == code && s == suite && verdict.Verified? && Covers(verdict.proof, code, suite)
        then Some(verdict.proof) else None
  }

  /** The result claims what the run's events show, neither more nor less. */
  ghost predicate Honest(events: seq<Event>, suite: string, r: Result) {
    && (r.success <==> exists k :: 0 <= k < |events| && RanClean(events[k]))
    && (r.verified <==> r.success)
    && (r.success ==> events != [] && events[|events| - 1] == Executed(r.code, Exec(false, true)))
    && (r.success ==> r.reason == NoReason || r.reason == ObjectionUnresolved)
    && r.proof == (if r.success && r.reason == NoReason then JudgedLast(events, r.code, suite) else None)
  }

  /** What a run that has not ended has done so far. */
  ghost predicate Unfinished(run: seq<Event>, suite: string) {
    && NothingRanClean(run)
    && (suite == "" ==> forall k :: 0 <= k < |run| ==> !run[k].SuiteRan?)
  }

  /** What a run has come to after a round: its result, or nothing yet. */
  ghost predicate Concludes(o: Outcome, run: seq<Event>, before: Books, after: Books, goal: string, suite: string,
                            commit: bool, used: string, code: string, attempts: int, approved: bool) {
    if o.Done? then
      && Honest(run, suite, o.r) && Accounted(before, after, goal, suite, commit, used, o.r)
      && o.r.attempts == attempts && o.r.code == code
      && (o.r.success ==> (o.r.reason == NoReason <==> approved))
    else Unfinished(run, suite) && after == before
  }

  /** Where there is a suite, it was run on this code, and its proof is what that run came to. */
  ghost predicate Judged(judged: seq<Event>, proof: Option<Proof>, code: string, suite: string, verdict: Verdict) {
    if suite == "" then judged == [] && proof == None
    else judged == [SuiteRan(code, suite, verdict)] && proof == ProofOf(verdict)
  }

  lemma FailureIsHonest(run: seq<Event>, suite: string, code: string, attempts: int)
    requires NothingRanClean(run)
    ensures Honest(run, suite, Result(false, code, attempts, false, NoReason, None))
  {
  }

  /** A clean execution last, after this round's verdict where there is a suite, makes a success honest. */
  lemma SuccessIsHonest(before: seq<Event>, judged: seq<Event>, exec: Exec, suite: string, r: Result)
    requires Unfinished(before, suite) && (suite == "" ==> judged == [])
    requires suite != "" ==>
      |judged| == 1 && judged[0].SuiteRan? && judged[0].code == r.code && judged[0].suite == suite
    requires exec == Exec(false, true) && r.success && r.verified
    requires r.reason == NoReason || (r.reason == ObjectionUnresolved && r.proof == None)
    requires r.reason == NoReason && suite == "" ==> r.proof == None
    requires r.reason == NoReason && suite != "" ==>
      var proof := ProofOf(judged[0].verdict);
      r.proof == if proof.Some? && Covers(proof.value, r.code, suite) then proof else None
    ensures Honest(before + judged + [Executed(r.code, exec)], suite, r)
  {
    var run := before + judged + [Executed(r.code, exec)];
    assert run[|run| - 1] == Executed(r.code, exec) && RanClean(run[|run| - 1]);
  }

  /** Whether the tester lets the code through to review. */
  predicate Passes(round: Round, suite: string, python: bool) {
    if suite == "" || (round.suite == NothingToVerify && !python) then round.clean else round.suite.Verified?
  }

  /** Who repairs: the debugger first after a crash of approved code, the coder otherwise. */
  function Repair(round: Round, crashed: bool): Coded {
    if crashed && round.debugger.success then round.debugger else round.coder
  }

  /** The round ends in a repaired program that is tried again: nothing final, attempts left, and a repair. */
  predicate Continues(round: Round, suite: string, python: bool, attempt: int, maxAttempts: int) {
    var approved := Passes(round, suite, python) && round.approved;
    && attempt < maxAttempts
    && !(approved && (round.exec.blocked || round.exec.success))
    && Repair(round, approved).success
  }

  /** The programs tried, one per round: each but the first is the patched repair of the round before. */
  ghost predicate Repairs(codes: seq<string>, first: string, rounds: nat -> Round, suite: string, python: bool,
                          patch: string -> string, firstAttempt: int, maxAttempts: int) {
    && (codes != [] ==> codes[0] == first)
    && forall k :: 0 <= k < |codes| - 1 ==>
         && Continues(rounds(k), suite, python, firstAttempt + k, maxAttempts)
         && codes[k + 1] == patch(Repair(rounds(k), Passes(rounds(k), suite, python) && rounds(k).approved).code)
  }

  /** A repair was asked for and none came. */
  predicate GaveUp(round: Round, suite: string, python: bool, attempt: int, maxAttempts: int) {
    var approved := Passes(round, suite, python) && round.approved;
    && attempt < maxAttempts
    && !(approved && (round.exec.blocked || round.exec.success))
    && !Repair(round, approved).success
  }

  /** Who wrote the program of round `k`. */
  function WriterOf(k: nat, firstCode: string, firstModel: string, rounds: nat -> Round, suite: string, python: bool)
    : Coded
  {
    if k == 0 then Coded(true, firstCode, firstModel)
    else Repair(rounds(k - 1), Passes(rounds(k - 1), suite, python) && rounds(k - 1).approved)
  }

  /**
   Every program was executed that its suite, or where that cannot run its static check, cleared and the
   review approved.
   */
  ghost predicate EachExecuted(events: seq<Event>, codes: seq<string>, rounds: nat -> Round, suite: string,
                               python: bool) {
    forall k :: 0 <= k < |codes| ==> ExecutedIn(events, codes[k], rounds(k), suite, python)
  }

  ghost predicate ExecutedIn(events: seq<Event>, code: string, round: Round, suite: string, python: bool) {
    var runnable := suite != "" && (python || round.suite != NothingToVerify);
    round.approved && (if runnable then round.suite.Verified? else round.clean) ==> Executed(code, round.exec) in events
  }

  /** How the run ended: with which program, after how many attempts, and why. */
  ghost predicate Ended(r: Result, codes: seq<string>, last: Coded, firstCode: string, firstModel: string,
                        rounds: nat -> Round, suite: string, python: bool, firstAttempt: int, maxAttempts: int) {
    && (codes == [] <==> firstAttempt > maxAttempts)
    && (codes == [] ==>
          !r.success && r.code == firstCode && r.attempts == firstAttempt && last == Coded(true, firstCode, firstModel))
    && (codes != [] ==>
          var k := |codes| - 1;
          && r.code == codes[k] && r.attempts == firstAttempt + k <= maxAttempts
          && !Continues(rounds(k), suite, python, r.attempts, maxAttempts)
          && (r.success <==> EndsWell(rounds(k), suite, python, r.attempts == maxAttempts))
          && (r.success ==> (r.reason == NoReason <==> rounds(k).approved))
          && last == if GaveUp(rounds(k), suite, python, r.attempts, maxAttempts) then rounds(k).coder
                     else WriterOf(k, firstCode, firstModel, rounds, suite, python))
  }

  /** The round's program is cleared, approved or the last there is, and runs clean. */
  predicate EndsWell(round: Round, suite: string, python: bool, final: bool) {
    Passes(round, suite, python) && (round.approved || final) && round.exec == Exec(false, true)
  }

  /** Before a round: what the rounds so far have left. */
  ghost predicate InLoop(run: seq<Event>, codes: seq<string>, code: string, coded: Coded, firstCode: string,
                         firstModel: string, rounds: nat -> Round, suite: string, python: bool,
                         patch: string -> string, firstAttempt: int, maxAttempts: int) {
    && Unfinished(run, suite) && OnlyJudgedRun(run, suite, python)
    && EachExecuted(run, codes, rounds, suite, python)
    && (codes != [] ==> firstAttempt + |codes| <= maxAttempts)
    && Repairs(codes + [code], firstCode, rounds, suite, python, patch, firstAttempt, maxAttempts)
    && coded == WriterOf(|codes|, firstCode, firstModel, rounds, suite, python)
  }

  /** What a round comes to, said of whether it continues, gave up or ends well. */
  lemma AfterRound(before: seq<Event>, run: seq<Event>, o: Outcome, code: string, coded: Coded, suite: string,
                   python: bool, attempts: int, maxAttempts: int, round: Round)
    requires attempts <= maxAttempts
    requires RoundIs(before, run, o, code, coded, suite, python, attempts, maxAttempts, round)
    ensures o.Retry? <==> Continues(round, suite, python, attempts, maxAttempts)
    ensures o.Retry? ==> o.coded == Repair(round, Passes(round, suite, python) && round.approved)
    ensures o.GiveUp? ==>
      o.coded == if GaveUp(round, suite, python, attempts, maxAttempts) then round.coder else coded
    ensures o.Done? ==> !GaveUp(round, suite, python, attempts, maxAttempts)
    ensures EndsWell(round, suite, python, attempts == maxAttempts) <==> o.Done? && o.r.success
  {
  }

  lemma NextProgram(tried: seq<string>, codes: seq<string>, code: string, coded: Coded, first: string,
                    rounds: nat -> Round, suite: string, python: bool, patch: string -> string,
                    firstAttempt: int, maxAttempts: int)
    requires |codes| == |tried| + 1 && codes[..|tried|] == tried
    requires Repairs(codes, first, rounds, suite, python, patch, firstAttempt, maxAttempts)
    requires var round := rounds(|tried|);
      && Continues(round, suite, python, firstAttempt + |tried|, maxAttempts)
      && coded == Repair(round, Passes(round, suite, python) && round.approved)
    requires code == patch(coded.code)
    ensures Repairs(codes + [code], first, rounds, suite, python, patch, firstAttempt, maxAttempts)
    ensures coded == WriterOf(|codes|, first, "", rounds, suite, python)
  {
  }

  /** No program is executed but right after the suite, if there is one that can run, passed on exactly that program. */
  ghost predicate OnlyJudgedRun(events: seq<Event>, suite: string, python: bool) {
    suite != "" ==>
      forall k :: 0 <= k < |events| && events[k].Executed? ==>
        && k > 0 && events[k - 1].SuiteRan?
        && events[k - 1].code == events[k].code && events[k - 1].suite == suite
        && (events[k - 1].verdict.Verified? || (!python && events[k - 1].verdict == NothingToVerify))
  }

  /**
   What one round does.  The program is cleared by its suite where that can run and by the static check
   otherwise; it is executed when it is cleared and approved, or cleared with no attempts left; and the
   debugger repairs a crash of approved code before the coder, who repairs everything else.
   */
  ghost predicate RoundIs(before: seq<Event>, run: seq<Event>, o: Outcome, code: string, coded: Coded, suite: string,
                          python: bool, attempts: int, maxAttempts: int, round: Round) {
    var runnable := suite != "" && (python || round.suite != NothingToVerify);
    var cleared := if runnable then round.suite.Verified? else round.clean;
    var crashed := cleared && round.approved && !round.exec.blocked && !round.exec.success;
    && run == before
         + (if suite != "" then [SuiteRan(code, suite, round.suite)] else [])
         + (if cleared && (round.approved || attempts == maxAttempts) then [Executed(code, round.exec)] else [])
         + (if crashed && python then Asides(round.snippets) else [])
    && (o.Done? <==> cleared && ((round.approved && !crashed) || attempts == maxAttempts))
    && (o.Done? ==> (o.r.success <==> round.exec == Exec(false, true)))
    && (!o.Done? && attempts < maxAttempts ==>
          o == if crashed && round.debugger.success then Retry(round.debugger)
               else if round.coder.success then Retry(round.coder)
               else GiveUp(round.coder))
    && (!o.Done? && attempts == maxAttempts ==> o == GiveUp(coded))
  }

  /** One round keeps both. */
  lemma RoundKept(before: seq<Event>, run: seq<Event>, o: Outcome, code: string, coded: Coded, suite: string,
                  python: bool, attempts: int, maxAttempts: int, round: Round, rounds: nat -> Round, tried: seq<string>)
    requires RoundIs(before, run, o, code, coded, suite, python, attempts, maxAttempts, round)
    requires OnlyJudgedRun(before, suite, python)
    requires EachExecuted(before, tried, rounds, suite, python) && round == rounds(|tried|)
    ensures OnlyJudgedRun(run, suite, python) && EachExecuted(run, tried + [code], rounds, suite, python)
  {
    var runnable := suite != "" && (python || round.suite != NothingToVerify);
    var cleared := if runnable then round.suite.Verified? else round.clean;
    var crashed := cleared && round.approved && !round.exec.blocked && !round.exec.success;
    var ran := cleared && (round.approved || attempts == maxAttempts);
    var judged := if suite != "" then [SuiteRan(code, suite, round.suite)] else [];
    var executed := if ran then [Executed(code, round.exec)] else [];
    var aside := if crashed && python then Asides(round.snippets) else [];
    assert run == before + judged + executed + aside;
    ExecutedOnly(before, judged, executed, aside, run, suite, python);
    StillExecuted(before, run, tried, code, rounds, suite, python);
  }

  lemma ExecutedOnly(before: seq<Event>, judged: seq<Event>, executed: seq<Event>, aside: seq<Event>, run: seq<Event>,
                     suite: string, python: bool)
    requires OnlyJudgedRun(before, suite, python) && run == before + judged + executed + aside
    requires |executed| <= 1 && (executed != [] ==> executed[0].Executed?)
    requires forall k :: 0 <= k < |aside| ==> aside[k].Aside?
    requires if suite == "" then judged == [] else |judged| == 1 && judged[0].SuiteRan? && judged[0].suite == suite
    requires suite != "" && executed != [] ==>
      && executed[0].code == judged[0].code
      && (judged[0].verdict.Verified? || (!python && judged[0].verdict == NothingToVerify))
    ensures OnlyJudgedRun(run, suite, python) && before <= run && (executed != [] ==> executed[0] in run)
  {
    var next := before + judged;
    assert run == next + executed + aside;
    JudgedStill(before, judged, suite, python);
    assert suite != "" ==> next[|next| - 1] == judged[0];
    if executed != [] {
      assert executed == [executed[0]];
      JudgedThenRun(next, executed[0], suite, python);
      assert run[|next|] == executed[0];
    } else {
      assert next + executed == next;
    }
    JudgedStill(next + executed, aside, suite, python);
  }

  lemma JudgedStill(events: seq<Event>, others: seq<Event>, suite: string, python: bool)
    requires OnlyJudgedRun(events, suite, python) && forall k :: 0 <= k < |others| ==> !others[k].Executed?
    ensures OnlyJudgedRun(events + others, suite, python)
  {
    var all := events + others;
    assert forall k :: |events| <= k < |all| ==> all[k] == others[k - |events|];
    assert forall k :: 0 <= k < |events| ==> all[k] == events[k];
  }

  lemma JudgedThenRun(events: seq<Event>, e: Event, suite: string, python: bool)
    requires OnlyJudgedRun(events, suite, python) && e.Executed?
    requires suite != "" ==> events != [] && var judged := events[|events| - 1];
      && judged.SuiteRan? && judged.code == e.code && judged.suite == suite
      && (judged.verdict.Verified? || (!python && judged.verdict == NothingToVerify))
    ensures OnlyJudgedRun(events + [e], suite, python)
  {
  }

  lemma StillExecuted(before: seq<Event>, run: seq<Event>, codes: seq<string>, code: string, rounds: nat -> Round,
                      suite: string, python: bool)
    requires before <= run && EachExecuted(before, codes, rounds, suite, python)
    requires ExecutedIn(run, code, rounds(|codes|), suite, python)
    ensures EachExecuted(run, codes + [code], rounds, suite, python)
  {
    assert forall e :: e in before ==> e in run;
    forall k | 0 <= k <= |codes| ensures ExecutedIn(run, (codes + [code])[k], rounds(k), suite, python) {
      if k < |codes| {
        assert ExecutedIn(before, codes[k], rounds(k), suite, python);
      }
    }
  }

  ghost function Asides(snippets: seq<Snippet>): (events: seq<Event>)
    ensures |events| == |snippets| && forall k :: 0 <= k < |events| ==> events[k].Aside?
  {
    seq(|snippets|, k requires 0 <= k < |snippets| => Aside(snippets[k].code, snippets[k].exec))
  }

  ghost predicate NothingRanClean(events: seq<Event>) {
    forall k :: 0 <= k < |events| ==> !RanClean(events[k])
  }

  function OrElse(a: string, b: string): string {
    if a != "" then a else b
  }

  function Max(a: int, b: int): int {
    if a >= b then a else b
  }

  function Min(a: int, b: int): int {
    if a <= b then a else b
  }

  predicate Blank(s: string) {
    forall c :: c in s ==> IsSpace(c)
  }

  /** A session a later run may pick up. */
  predicate Resumable(session: Option<Session>) {
    session.Some? && session.value.status == InProgress && !Blank(session.value.code)
  }

  class Orchestrator {
    const model: string
    const maxAttempts: int
    var stats: seq<Stat>
    var history: seq<Entry>
    var metrics: seq<Metric>
    var memory: seq<Memory>
    var commits: seq<Commit>
    var session: Option<Session>
    var lastGoal: string
    var lastCode: string

    ghost function Written(): Books
      reads this
    {
      Books(stats, history, metrics, memory, commits, session, lastGoal, lastCode)
    }

    constructor (model: string, maxAttempts: int, stored: Option<Session>)
      ensures this.model == model && this.maxAttempts == maxAttempts
      ensures Written() == Books([], [], [], [], [], stored, "", "")
    {
      this.model, this.maxAttempts := model, maxAttempts;
      stats, history, metrics, memory, commits, session := [], [], [], [], [], stored;
      lastGoal, lastCode := "", "";
    }

    method Checkpoint(goal: string, code: string, suite: string, used: string, attempts: int, status: Status)
      modifies `session, `metrics
      ensures session == Some(Session(goal, code, suite, attempts, status))
      ensures metrics == old(metrics)
        + (if status == InProgress then []
           else [Metric(OrElse(used, model), status == Completed, attempts, suite != "")])
    {
      session := Some(Session(goal, code, suite, attempts, status));
      if status == Completed || status == FailedRun {
        metrics := metrics + [Metric(OrElse(used, model), status == Completed, attempts, suite != "")];
      }
    }

    /** Stats, history and the terminal checkpoint of a run that failed. */
    method Fail(goal: string, code: string, suite: string, used: string, attempts: int) returns (r: Result)
      modifies `stats, `history, `session, `metrics
      ensures r == Result(false, code, attempts, false, NoReason, None)
      ensures Accounted(old(Written()), Written(), goal, suite, false, if used != "" then used else model, r)
    {
      stats := stats + [Stat(OrElse(used, model), false, attempts)];
      history := history + [Entry(goal, OrElse(used, model), false, attempts, code)];
      Checkpoint(goal, code, suite, used, attempts, FailedRun);
      r := Result(false, code, attempts, false, NoReason, None);
    }

    method HandleVerifiedSuccess(goal: string, code: string, suite: string, used: string, attempts: int,
                                 suiteProof: Option<Proof>, commit: bool) returns (r: Result)
      modifies `stats, `history, `session, `metrics, `memory, `commits, `lastGoal, `lastCode
      ensures r.success && r.verified && r.code == code && r.attempts == attempts && r.reason == NoReason
      ensures r.proof == if suiteProof.Some? && Covers(suiteProof.value, code, suite) then suiteProof else None
      ensures Accounted(old(Written()), Written(), goal, suite, commit, if used != "" then used else model, r)
    {
      var proof := suiteProof;
      if proof.Some? && !Covers(proof.value, code, suite) {
        proof := None;
      }
      var tested, modelUsed := proof.Some?, OrElse(used, model);
      stats := stats + [Stat(modelUsed, true, attempts)];
      history := history + [Entry(goal, modelUsed, true, attempts, code)];
      memory := memory + [Memory(goal, code, modelUsed, tested)];
      if commit {
        commits := commits + [Commit(goal, modelUsed, tested)];
      }
      assert commits == old(commits) + (if commit then [Commit(goal, modelUsed, tested)] else []);
      lastGoal, lastCode := goal, code;
      Checkpoint(goal, code, suite, used, attempts, Completed);
      r := Result(true, code, attempts, true, NoReason, proof);
    }

    /** The debugger's fix, or the coder's when it has none. */
    static method FixRuntimeFailure(round: Round) returns (fixed: Coded)
      ensures fixed == if round.debugger.success then round.debugger else round.coder
    {
      if round.debugger.success {
        return round.debugger;
      }
      fixed := round.coder;
    }

    /** The tester, or the suite where there is one that can run. */
    static method Test(round: Round, code: string, suite: string, python: bool)
      returns (passed: bool, proof: Option<Proof>, ghost judged: seq<Event>)
      ensures Judged(judged, proof, code, suite, round.suite)
      ensures passed ==
        if suite != "" && (python || round.suite != NothingToVerify) then round.suite.Verified? else round.clean
    {
      proof, judged := None, [];
      if suite != "" {
        judged := [SuiteRan(code, suite, round.suite)];
        proof := ProofOf(round.suite);
        if round.suite == NothingToVerify && !python {
          passed := round.clean;
        } else {
          passed := round.suite.Verified?;
        }
      } else {
        passed := round.clean;
      }
    }

    /** Running unapproved code that ran clean is accepted as the best there is. */
    method AcceptUnapproved(goal: string, code: string, suite: string, used: string, attempts: int) returns (r: Result)
      modifies `stats, `history, `session, `metrics, `lastGoal, `lastCode
      ensures r == Result(true, code, attempts, true, ObjectionUnresolved, None)
      ensures Accounted(old(Written()), Written(), goal, suite, false, if used != "" then used else model, r)
    {
      stats := stats + [Stat(OrElse(used, model), true, attempts)];
      history := history + [Entry(goal, OrElse(used, model), true, attempts, code)];
      lastGoal, lastCode := goal, code;
      Checkpoint(goal, code, suite, used, attempts, Completed);
      r := Result(true, code, attempts, true, ObjectionUnresolved, None);
    }

    /** One round: test, review, run, and a repair of whatever went wrong. */
    method Attempt(goal: string, suite: string, python: bool, code: string, coded: Coded, attempts: int, round: Round,
                   commit: bool, ghost before: seq<Event>) returns (o: Outcome, ghost run: seq<Event>)
      requires Unfinished(before, suite) && attempts <= maxAttempts
      modifies this
      ensures RoundIs(before, run, o, code, coded, suite, python, attempts, maxAttempts, round)
      ensures Concludes(o, run, old(Written()), Written(), goal, suite, commit, ModelUsed(coded), code, attempts,
                        round.approved)
    {
      ghost var judged;
      var passed, suiteProof;
      passed, suiteProof, judged := Test(round, code, suite, python);
      if passed && round.approved {
        o, run := RunApproved(goal, suite, python, code, coded, attempts, round, suiteProof, commit, before, judged);
        return;
      }
      if passed && attempts >= maxAttempts {
        o, run := RunUnapproved(goal, suite, code, coded, attempts, round, suiteProof, commit, before, judged);
        return;
      }
      run := before + judged;
      if attempts < maxAttempts {
        return if round.coder.success then Retry(round.coder) else GiveUp(round.coder), run;
      }
      return GiveUp(coded), run;
    }

    /** The model a record names: the one that wrote the program, or the configured one. */
    ghost function ModelUsed(coded: Coded): string {
      if coded.model != "" then coded.model else model
    }

    /** Approved code is run: blocked ends the run, clean ends it well, a crash is repaired while attempts are left. */
    method RunApproved(goal: string, suite: string, python: bool, code: string, coded: Coded, attempts: int,
                       round: Round, suiteProof: Option<Proof>, commit: bool,
                       ghost before: seq<Event>, ghost judged: seq<Event>)
      returns (o: Outcome, ghost run: seq<Event>)
      requires Unfinished(before, suite) && round.approved && Judged(judged, suiteProof, code, suite, round.suite)
      requires attempts <= maxAttempts
      modifies this
      ensures var crashed := !round.exec.blocked && !round.exec.success;
        && run == before + judged + [Executed(code, round.exec)]
             + (if crashed && python then Asides(round.snippets) else [])
        && (o.Done? <==> !crashed || attempts == maxAttempts)
        && (o.Done? ==> (o.r.success <==> round.exec == Exec(false, true)))
        && (!o.Done? ==> o == if round.debugger.success then Retry(round.debugger)
                              else if round.coder.success then Retry(round.coder)
                              else GiveUp(round.coder))
      ensures Concludes(o, run, old(Written()), Written(), goal, suite, commit, ModelUsed(coded), code, attempts, true)
    {
      var r, fixed;
      run := before + judged + [Executed(code, round.exec)];
      if round.exec.blocked {
        FailureIsHonest(run, suite, code, attempts);
        r := Fail(goal, code, suite, coded.model, attempts);
        return Done(r), run;
      }
      if round.exec.success {
        r := HandleVerifiedSuccess(goal, code, suite, coded.model, attempts, suiteProof, commit);
        SuccessIsHonest(before, judged, round.exec, suite, r);
        return Done(r), run;
      }
      if python {
        run := run + Asides(round.snippets);
      }
      if attempts >= maxAttempts {
        FailureIsHonest(run, suite, code, attempts);
        r := Fail(goal, code, suite, coded.model, attempts);
        return Done(r), run;
      }
      fixed := FixRuntimeFailure(round);
      return if fixed.success then Retry(fixed) else GiveUp(fixed), run;
    }

    /** With no attempts left, code that was never approved is run before it is accepted. */
    method RunUnapproved(goal: string, suite: string, code: string, coded: Coded, attempts: int, round: Round,
                         ghost suiteProof: Option<Proof>, commit: bool,
                         ghost before: seq<Event>, ghost judged: seq<Event>)
      returns (o: Outcome, ghost run: seq<Event>)
      requires Unfinished(before, suite) && !round.approved
      requires Judged(judged, suiteProof, code, suite, round.suite)
      modifies this
      ensures run == before + judged + [Executed(code, round.exec)]
      ensures o.Done? && (o.r.success <==> round.exec == Exec(false, true))
      ensures Concludes(o, run, old(Written()), Written(), goal, suite, commit, ModelUsed(coded), code, attempts, false)
    {
      var r;
      run := before + judged + [Executed(code, round.exec)];
      if round.exec.blocked || !round.exec.success {
        FailureIsHonest(run, suite, code, attempts);
        r := Fail(goal, code, suite, coded.model, attempts);
        return Done(r), run;
      }
      r := AcceptUnapproved(goal, code, suite, coded.model, attempts);
      SuccessIsHonest(before, judged, round.exec, suite, r);
      return Done(r), run;
    }

    /**
     The loop, from the first code or a restored one.  Besides the result and the events it gives the
     programs tried and who wrote the one the records are about.
     */
    method Heal(goal: string, suite: string, python: bool, firstCode: string, firstModel: string, firstAttempt: int,
                commit: bool, rounds: nat -> Round, patch: string -> string, ghost before: seq<Event>)
      returns (r: Result, ghost codes: seq<string>, ghost run: seq<Event>, ghost last: Coded)
      requires Unfinished(before, suite) && OnlyJudgedRun(before, suite, python)
      modifies this
      ensures Honest(run, suite, r) && OnlyJudgedRun(run, suite, python)
      ensures EachExecuted(run, codes, rounds, suite, python)
      ensures Accounted(old(Written()), Written(), goal, suite, commit, ModelUsed(last), r)
      ensures Repairs(codes, firstCode, rounds, suite, python, patch, firstAttempt, maxAttempts)
      ensures Ended(r, codes, last, firstCode, firstModel, rounds, suite, python, firstAttempt, maxAttempts)
    {
      var code, coded, attempts := firstCode, Coded(true, firstCode, firstModel), firstAttempt;
      codes, run := [], before;
      while attempts <= maxAttempts
        invariant Written() == old(Written()) && attempts == firstAttempt + |codes|
        invariant InLoop(run, codes, code, coded, firstCode, firstModel, rounds, suite, python, patch, firstAttempt,
                         maxAttempts)
        decreases maxAttempts - attempts
      {
        ghost var tried := codes;
        var o := GiveUp(coded);
        o, run := Round(goal, suite, python, code, coded, attempts, rounds, commit, firstCode, firstModel, patch,
                        firstAttempt, run, tried);
        codes := codes + [code];
        if o.Done? {
          return o.r, codes, run, coded;
        }
        coded := o.coded;
        if o.GiveUp? {
          break;
        }
        code := patch(coded.code);
        attempts := attempts + 1;
      }
      FailureIsHonest(run, suite, code, attempts);
      r := Fail(goal, code, suite, coded.model, attempts);
      last := coded;
    }

    /** An attempt as one round of the loop. */
    method Round(goal: string, suite: string, python: bool, code: string, coded: Coded, attempts: int,
                 rounds: nat -> Round, commit: bool, ghost firstCode: string, ghost firstModel: string,
                 patch: string -> string, firstAttempt: int, ghost before: seq<Event>, ghost tried: seq<string>)
      returns (o: Outcome, ghost run: seq<Event>)
      requires attempts == firstAttempt + |tried| <= maxAttempts
      requires InLoop(before, tried, code, coded, firstCode, firstModel, rounds, suite, python, patch, firstAttempt,
                      maxAttempts)
      modifies this
      ensures OnlyJudgedRun(run, suite, python) && EachExecuted(run, tried + [code], rounds, suite, python)
      ensures Repairs(tried + [code], firstCode, rounds, suite, python, patch, firstAttempt, maxAttempts)
      ensures !o.Done? ==> Unfinished(run, suite) && Written() == old(Written())
      ensures o.Retry? ==>
        && attempts < maxAttempts
        && InLoop(run, tried + [code], patch(o.coded.code), o.coded, firstCode, firstModel, rounds, suite, python,
                  patch, firstAttempt, maxAttempts)
      ensures o.GiveUp? ==>
        Ended(Result(false, code, attempts, false, NoReason, None), tried + [code], o.coded, firstCode, firstModel,
              rounds, suite, python, firstAttempt, maxAttempts)
      ensures o.Done? ==>
        && Honest(run, suite, o.r)
        && Accounted(old(Written()), Written(), goal, suite, commit, ModelUsed(coded), o.r)
        && Ended(o.r, tried + [code], coded, firstCode, firstModel, rounds, suite, python, firstAttempt, maxAttempts)
    {
      var round := rounds(attempts - firstAttempt);
      o, run := Attempt(goal, suite, python, code, coded, attempts, round, commit, before);
      RoundKept(before, run, o, code, coded, suite, python, attempts, maxAttempts, round, rounds, tried);
      AfterRound(before, run, o, code, coded, suite, python, attempts, maxAttempts, round);
      if o.Retry? {
        NextProgram(tried, tried + [code], patch(o.coded.code), o.coded, firstCode, rounds, suite, python, patch,
                    firstAttempt, maxAttempts);
      }
    }

    /** The first code: the winner of a race against a draft's suite, where there is one, or the coder's answer. */
    static method Race(request: Request, front: Front, patch: string -> string)
      returns (suite: string, coded: Coded, ghost run: seq<Event>)
      ensures suite == RaceSuite(request, front, patch) && coded == FirstCoded(request, front, patch)
      ensures run == if suite != "" then Asides(front.raced) else []
    {
      suite, coded, run := "", front.first, [];
      if request.parallel > 1 && request.generateTests && front.draftTests.Some? {
        suite := patch(front.draftTests.value);
      }
      if suite != "" {
        run := Asides(front.raced);
        if front.winner.Some? {
          coded := front.winner.value;
        }
      }
    }

    /** The steps before the loop: a refusal or an early answer, or what the loop starts from. */
    method Prepare(request: Request, front: Front, patch: string -> string) returns (p: Prepared, ghost run: seq<Event>)
      modifies `stats, `history, `lastGoal, `lastCode
      ensures p.Into? <==> Enters(request, front, patch, session)
      ensures p.Into? ==> p == IntoLoop(request, front, patch, session, maxAttempts) && Written() == old(Written())
      ensures p.Early? ==> EarlyBooks(old(Written()), Written(), request, p.r)
      ensures run == [] || run == Asides(front.raced)
      ensures request.resume ==>
        if session.Some? && session.value.status == InProgress && (exists c :: c in session.value.code && !IsSpace(c))
        then
          var s := session.value;
          var goal := if s.goal != "" then s.goal else request.asked;
          var attempts := if s.attempts < 1 then 1 else s.attempts;
          p == Into(goal, s.code, "resumed-session", s.suite, if attempts > maxAttempts then maxAttempts else attempts,
                    true)
        else
          p == Early(Result(false, "", 0, false, NoReason, None)) && Written() == old(Written())
      ensures !request.resume && front.skill.Some? && front.skill.value.success ==>
        var answer := front.skill.value;
        && p == Early(Result(true, answer.code, 0, false, SkillAnswer, None))
        && Written() == old(Written()).(
             history := old(history) + [Entry(request.asked, answer.model, true, 0, answer.code)])
      ensures !request.resume && !(front.skill.Some? && front.skill.value.success)
              && request.useMemory && front.recalled.Some? ==>
        var answer := front.recalled.value;
        && p == Early(Result(true, answer.code, 0, false, Replayed, None))
        && Written() == old(Written()).(
             history := old(history) + [Entry(request.asked, answer.model, true, 0, answer.code)],
             lastGoal := request.asked, lastCode := answer.code)
      ensures !request.resume && !(front.skill.Some? && front.skill.value.success)
              && !(request.useMemory && front.recalled.Some?) && front.plan != Planned ==>
        && p == Early(Result(false, "", 0, false, NoReason, None))
        && Written() == old(Written()).(
             stats := old(stats) + (if front.plan == PlanningFailed then [Stat(model, false, 0)] else []),
             history := old(history) + [Entry(request.asked, model, false, 0, "")])
      ensures !request.resume && !(front.skill.Some? && front.skill.value.success)
              && !(request.useMemory && front.recalled.Some?) && front.plan == Planned ==>
        var drafted := if request.parallel > 1 && request.generateTests && front.draftTests.Some?
                       then patch(front.draftTests.value) else "";
        var first := if drafted != "" && front.winner.Some? then front.winner.value else front.first;
        var written := if request.generateTests && front.tests.Some? then patch(front.tests.value) else "";
        && run == (if drafted != "" then Asides(front.raced) else [])
        && if first.success then
             p == Into(request.asked, patch(first.code), first.model, if drafted != "" then drafted else written, 1,
                       front.python)
           else
             && p == Early(Result(false, "", 1, false, NoReason, None))
             && Written() == old(Written()).(stats := old(stats) + [Stat(ModelUsed(first), false, 1)],
                  history := old(history) + [Entry(request.asked, ModelUsed(first), false, 1, "")])
    {
      run := [];
      if request.resume {
        if session == None || session.value.status != InProgress || Blank(session.value.code) {
          return Early(Result(false, "", 0, false, NoReason, None)), run;
        }
        var attempts := Min(Max(1, session.value.attempts), maxAttempts);
        return Into(OrElse(session.value.goal, request.asked), session.value.code, "resumed-session",
                    session.value.suite, attempts, true), run;
      }
      if front.skill.Some? && front.skill.value.success {
        history := history + [Entry(request.asked, front.skill.value.model, true, 0, front.skill.value.code)];
        return Early(Result(true, front.skill.value.code, 0, false, SkillAnswer, None)), run;
      }
      if request.useMemory && front.recalled.Some? {
        history := history + [Entry(request.asked, front.recalled.value.model, true, 0, front.recalled.value.code)];
        lastGoal, lastCode := request.asked, front.recalled.value.code;
        return Early(Result(true, front.recalled.value.code, 0, false, Replayed, None)), run;
      }
      if front.plan != Planned {
        if front.plan == PlanningFailed {
          stats := stats + [Stat(model, false, 0)];
        }
        history := history + [Entry(request.asked, model, false, 0, "")];
        return Early(Result(false, "", 0, false, NoReason, None)), run;
      }
      var suite, coded;
      suite, coded, run := Race(request, front, patch);
      if !coded.success {
        stats := stats + [Stat(OrElse(coded.model, model), false, 1)];
        history := history + [Entry(request.asked, OrElse(coded.model, model), false, 1, "")];
        return Early(Result(false, "", 1, false, NoReason, None)), run;
      }
      if request.generateTests && suite == "" && front.tests.Some? {
        suite := patch(front.tests.value);
      }
      return Into(request.asked, patch(coded.code), coded.model, suite, 1, front.python), run;
    }

    /** A checkpoint to resume from on entering the loop, when there is code to resume with. */
    method Enter(p: Prepared)
      requires p.Into?
      modifies `session, `metrics
      ensures session == Saved(p, old(session)) && metrics == old(metrics)
    {
      if !Blank(p.code) {
        Checkpoint(p.goal, p.code, p.suite, p.coder, p.attempts, InProgress);
      }
    }

    /** The run from where the loop starts: a checkpoint, and then rounds until one is final. */
    method CarryThrough(p: Prepared, commit: bool, rounds: nat -> Round, patch: string -> string,
                        ghost before: seq<Event>)
      returns (r: Result, ghost run: seq<Event>, ghost codes: seq<string>, ghost last: Coded)
      requires p.Into? && forall k :: 0 <= k < |before| ==> before[k].Aside?
      modifies this
      ensures Accounted(old(Written()), Written(), p.goal, p.suite, commit, ModelUsed(last), r)
      ensures Honest(run, p.suite, r)
      ensures OnlyJudgedRun(run, p.suite, p.python)
      ensures EachExecuted(run, codes, rounds, p.suite, p.python)
      ensures Repairs(codes, p.code, rounds, p.suite, p.python, patch, p.attempts, maxAttempts)
      ensures Ended(r, codes, last, p.code, p.coder, rounds, p.suite, p.python, p.attempts, maxAttempts)
      ensures r.success && p.suite != "" && p.python ==>
        |run| >= 2 && exists proof :: run[|run| - 2] == SuiteRan(r.code, p.suite, Verified(proof))
    {
      Enter(p);
      r, codes, run, last :=
        Heal(p.goal, p.suite, p.python, p.code, p.coder, p.attempts, commit, rounds, patch, before);
      VerifiedLast(run, p.suite, p.python, r);
    }

    /** A whole task: refused, answered early, or carried through the loop. */
    method ExecuteTask(request: Request, commit: bool, front: Front, rounds: nat -> Round, patch: string -> string)
      returns (r: Result, ghost run: seq<Event>, ghost codes: seq<string>, ghost last: Coded)
      modifies this
      ensures Enters(request, front, patch, old(session)) ==>
        var start := IntoLoop(request, front, patch, old(session), maxAttempts);
        && Accounted(old(Written()), Written(), start.goal, start.suite, commit, ModelUsed(last), r)
        && Honest(run, start.suite, r)
        && OnlyJudgedRun(run, start.suite, start.python)
        && EachExecuted(run, codes, rounds, start.suite, start.python)
        && Repairs(codes, start.code, rounds, start.suite, start.python, patch, start.attempts, maxAttempts)
        && Ended(r, codes, last, start.code, start.coder, rounds, start.suite, start.python, start.attempts,
                 maxAttempts)
        && (r.success && start.suite != "" && start.python ==>
              |run| >= 2 && exists proof :: run[|run| - 2] == SuiteRan(r.code, start.suite, Verified(proof)))
        && !Resumable(session)
      ensures !Enters(request, front, patch, old(session)) ==>
        (run == [] || run == Asides(front.raced)) && codes == [] && EarlyBooks(old(Written()), Written(), request, r)
    {
      var p;
      p, run := Prepare(request, front, patch);
      codes, last := [], front.first;
      if p.Early? {
        return p.r, run, codes, last;
      }
      r, run, codes, last := CarryThrough(p, commit, rounds, patch, run);
    }
  }

  /** A success with a suite that can run rests on a pass of that suite on exactly the returned code. */
  lemma VerifiedLast(run: seq<Event>, suite: string, python: bool, r: Result)
    requires Honest(run, suite, r) && OnlyJudgedRun(run, suite, python)
    ensures r.success && suite != "" && python ==>
      |run| >= 2 && exists proof :: run[|run| - 2] == SuiteRan(r.code, suite, Verified(proof))
  {
    if r.success && suite != "" && python {
      var last := |run| - 1;
      assert run[last].Executed?;
      assert run[last - 1] == SuiteRan(r.code, suite, Verified(run[last - 1].verdict.proof));
    }
  }

  // ---------------------------------------------------------------- before the loop

  datatype Plan = Planned | NeedsClarification | PlanningFailed

  /** What is asked for, and how many candidates the orchestrator is set to race. */
  datatype Request = Request(asked: string, resume: bool, generateTests: bool, useMemory: bool, parallel: int)

  /**
   What the steps before the loop come up with: a skill's answer, a remembered one, a plan; a suite
   written for a draft, what is run to race candidates against it, and the winner; first code, and a
   suite for it.
   */
  datatype Front = Front(skill: Option<Coded>, recalled: Option<Coded>, plan: Plan,
                         draftTests: Option<string>, raced: seq<Snippet>, winner: Option<Coded>,
                         first: Coded, tests: Option<string>, python: bool)

  /** The suite candidates are raced against, empty where there is no race. */
  function RaceSuite(request: Request, front: Front, patch: string -> string): string {
    if request.parallel > 1 && request.generateTests && front.draftTests.Some? then patch(front.draftTests.value)
    else ""
  }

  function FirstCoded(request: Request, front: Front, patch: string -> string): Coded {
    if RaceSuite(request, front, patch) != "" && front.winner.Some? then front.winner.value else front.first
  }

  predicate Enters(request: Request, front: Front, patch: string -> string, session: Option<Session>) {
    if request.resume then Resumable(session)
    else
      && !(front.skill.Some? && front.skill.value.success)
      && !(request.useMemory && front.recalled.Some?)
      && front.plan == Planned
      && FirstCoded(request, front, patch).success
  }

  /** Where the steps before the loop lead. */
  datatype Prepared =
    | Early(r: Result)
    | Into(goal: string, code: string, coder: string, suite: string, attempts: int, python: bool)

  /** What the loop starts from: the saved session, or the first code and its suite. */
  function IntoLoop(request: Request, front: Front, patch: string -> string, session: Option<Session>,
                    maxAttempts: int): (p: Prepared)
    requires request.resume ==> session.Some?
    ensures p.Into?
  {
    if request.resume then
      var s := session.value;
      var attempts := Min(Max(1, s.attempts), maxAttempts);
      Into(OrElse(s.goal, request.asked), s.code, "resumed-session", s.suite, attempts, true)
    else
      var raced, coded := RaceSuite(request, front, patch), FirstCoded(request, front, patch);
      var written := if request.generateTests && front.tests.Some? then patch(front.tests.value) else "";
      Into(request.asked, patch(coded.code), coded.model, OrElse(raced, written), 1, front.python)
  }

  /** The session in the store once the loop is entered. */
  function Saved(start: Prepared, stored: Option<Session>): Option<Session>
    requires start.Into?
  {
    if Blank(start.code) then stored
    else Some(Session(start.goal, start.code, start.suite, start.attempts, InProgress))
  }

  function LastEntry(books: Books): Entry {
    if books.history == [] then Entry("", "", false, 0, "") else books.history[|books.history| - 1]
  }

  /**
   A run that ends before the loop never claims to be verified, and leaves session, metrics and
   memory alone: whatever could be resumed before still can be.  A refused resume writes nothing.
   */
  ghost predicate EarlyBooks(before: Books, after: Books, request: Request, r: Result) {
    && !r.verified && !TestsPassed(r)
    && (r.success ==> !request.resume && r.attempts == 0 && (r.reason == SkillAnswer || r.reason == Replayed))
    && after.session == before.session && after.metrics == before.metrics
    && after.memory == before.memory && after.commits == before.commits
    && (request.resume ==> after == before)
    && (!request.resume ==>
          after.history
            == before.history + [Entry(request.asked, LastEntry(after).model, r.success, r.attempts, r.code)])
    && (r.success ==> after.stats == before.stats)
  }

  // ---------------------------------------------------------------- what a proof pins down

  /** A proof for this pair covers no other. */
  ghost predicate CoversOnly(code: string, suite: string) {
    forall c, s :: Covers(Proof(Digest(code, suite)), c, s) ==> c == code && s == suite
  }

  /** What was judged is the only pair its proof covers if and only if neither text contains the separator. */
  lemma CoversExactly(code: string, suite: string)
    ensures CoversOnly(code, suite) <==> '\0' !in code && '\0' !in suite
  {
    if '\0' !in code && '\0' !in suite {
      forall c, s | Covers(Proof(Digest(code, suite)), c, s) ensures c == code && s == suite {
        OneSeparator(code, suite, c, s);
      }
    } else if '\0' in code {
      var i :| 0 <= i < |code| && code[i] == '\0';
      SeparatorInCode(code, suite, i);
    } else {
      var i :| 0 <= i < |suite| && suite[i] == '\0';
      SeparatorInSuite(code, suite, i);
    }
  }

  lemma OneSeparator(code: string, suite: string, c: string, s: string)
    requires '\0' !in code && '\0' !in suite && Digest(code, suite) == Digest(c, s)
    ensures c == code && s == suite
  {
    var d := Digest(code, suite);
    assert forall k :: 0 <= k < |d| && k != |code| ==> d[k] == if k < |code| then code[k] else suite[k - |code| - 1];
    assert d[|c|] == '\0';
    assert code == d[..|code|] && c == d[..|c|];
    assert suite == d[|code| + 1..] && s == d[|c| + 1..];
  }

  /** With the separator inside the code, a pass also covers a shorter code with a longer suite. */
  lemma SeparatorInCode(code: string, suite: string, i: nat)
    requires i < |code| && code[i] == '\0'
    ensures Covers(Proof(Digest(code, suite)), code[..i], code[i + 1..] + "\0" + suite)
  {
    assert code == code[..i] + "\0" + code[i + 1..];
  }

  /** With the separator inside the suite, a pass also covers a longer code with a shorter suite. */
  lemma SeparatorInSuite(code: string, suite: string, i: nat)
    requires i < |suite| && suite[i] == '\0'
    ensures Covers(Proof(Digest(code, suite)), code + "\0" + suite[..i], suite[i + 1..])
  {
    assert suite == suite[..i] + "\0" + suite[i + 1..];
  }

  /** Among codes without the separator, which is all that Python can parse, a proof still covers one pair only. */
  lemma CoversOneParsable(code: string, suite: string, code': string, suite': string)
    requires '\0' !in code && '\0' !in code'
    ensures Covers(Proof(Digest(code, suite)), code', suite') <==> code == code' && suite == suite'
  {
    if Digest(code, suite) == Digest(code', suite') {
      var d := Digest(code, suite);
      FirstSeparator(code, suite);
      FirstSeparator(code', suite');
      assert code == d[..|code|] && code' == d[..|code'|];
      assert suite == d[|code| + 1..] && suite' == d[|code'| + 1..];
    }
  }

  lemma FirstSeparator(code: string, suite: string)
    requires '\0' !in code
    ensures |code| < |Digest(code, suite)| && Digest(code, suite)[|code|] == '\0'
    ensures forall i :: 0 <= i < |code| ==> Digest(code, suite)[i] != '\0'
  {
    assert forall i :: 0 <= i < |code| ==> Digest(code, suite)[i] == code[i];
  }

  /**
   Resuming what was written on entering the loop starts the loop where that run did, exactly when
   the goal, the attempt and the language are ones the checkpoint can give back.
   */
  lemma ResumeRestores(start: Prepared, stored: Option<Session>, maxAttempts: int, again: Request, front: Front,
                       patch: string -> string)
    requires start.Into? && !Blank(start.code) && again.resume
    ensures var saved := Saved(start, stored);
      && Enters(again, front, patch, saved)
      && (IntoLoop(again, front, patch, saved, maxAttempts) == start.(coder := "resumed-session") <==>
           && (start.goal != "" || again.asked == "")
           && (1 <= start.attempts <= maxAttempts || start.attempts == maxAttempts)
           && start.python)
  {
  }
}
