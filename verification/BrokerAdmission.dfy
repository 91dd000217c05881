/**
 Replay over runs of the broker: between a start and the next crash, the `Check` and `Admit` steps of
 a run are a stream of submissions, the broker's replay cache is what the stream leaves, and the
 bounds on repeated acceptances hold of every interleaving.
 */
module BrokerAdmission {
  import opened Requests
  import opened Nonces
  import opened Admission
  import opened Broker
  import opened BrokerRecovery
  import opened Strings

  function BodyOf(request: Request): Body {
    Body(request.host, request.nonce, if request.timestamp.Some? then request.timestamp.value else 0)
  }

  function LimitsOf(c: System): Limits {
    Limits(c.config.digest, c.config.ttl, c.config.maximum)
  }

  /** The reading of the clock at the latest freshness check of a thread. */
  function CheckedAt(run: Run, id: Id): int {
    if run == [] then 0
    else match run[|run| - 1]
      case Check(other, now) => if other == id then now else CheckedAt(run[..|run| - 1], id)
      case _ => CheckedAt(run[..|run| - 1], id)
  }

  /** The `Admit` steps of a run. Those of them that are signed and fresh take the nonce lock, in this order. */
  ghost function Uses(c: System, start: State, run: Run): seq<Submission>
    requires Legal(c, start, run)
  {
    if run == [] then []
    else
      var before := run[..|run| - 1];
      Uses(c, start, before) + UseAt(After(c, start, before), before, run[|run| - 1])
  }

  ghost function UseAt(s: State, before: Run, l: Label): seq<Submission> {
    if l.Admit? && l.id in s.threads
    then [Submission(BodyOf(s.threads[l.id].request), CheckedAt(before, l.id), l.now, l.signed)]
    else []
  }

  /** The clock readings at which a request with this body went on to wait for `operationMu`. */
  ghost function LetThroughAt(c: System, start: State, run: Run, body: Body): seq<int>
    requires Legal(c, start, run)
  {
    if run == [] then []
    else
      var before := run[..|run| - 1];
      LetThroughAt(c, start, before, body) + PassedAt(After(c, start, before), After(c, start, run), run[|run| - 1], body)
  }

  ghost function PassedAt(s: State, next: State, l: Label, body: Body): seq<int> {
    if l.Admit? && l.id in s.threads && BodyOf(s.threads[l.id].request) == body
       && l.id in next.threads && next.threads[l.id].pc.Waiting?
    then [l.now] else []
  }

  // ----- Steps that leave the cache alone -----

  /** Threads past the freshness check were so before, with the same request. */
  ghost predicate NoneValidated(s: State, next: State) {
    forall id | id in next.threads && next.threads[id].pc.Validated? ::
      id in s.threads && s.threads[id].pc.Validated? && s.threads[id].request == next.threads[id].request
  }

  ghost predicate Apart(s: State, next: State) {
    next.nonces == s.nonces && next.up == s.up && NoneValidated(s, next)
  }

  lemma {:induction false} ArriveApart(c: System, s: State, l: Label)
    requires Enabled(c, s, l) && (l.Arrive? || l.LateToken? || l.Expire?)
    ensures Apart(s, Step(c, s, l))
  {
  }

  lemma {:induction false} LookApart(c: System, s: State, l: Label)
    requires Enabled(c, s, l) && (l.Acquire? || l.Look?)
    ensures Apart(s, Step(c, s, l))
  {
    MovedApart(s, Step(c, s, l), l.id);
  }

  lemma {:induction false} RevokeApart(c: System, s: State, l: Label)
    requires Enabled(c, s, l) && (l.RevokeDone? || l.RevokeFailed?)
    ensures Apart(s, Step(c, s, l))
  {
  }

  lemma {:induction false} IssueApart(c: System, s: State, l: Label)
    requires Enabled(c, s, l) && (l.IssueDone? || l.IssueRefused? || l.IssueLost?)
    ensures Apart(s, Step(c, s, l))
  {
  }

  lemma {:induction false} SealApart(c: System, s: State, l: Label)
    requires Enabled(c, s, l) && (l.SealDone? || l.SealFailed?)
    ensures Apart(s, Step(c, s, l))
  {
  }

  /** A thread at another program point, or gone. */
  lemma {:induction false} MovedApart(s: State, next: State, id: Id)
    requires next.nonces == s.nonces && next.up == s.up
    requires next.threads == s.threads - {id}
             || (id in next.threads && !next.threads[id].pc.Validated? && next.threads == s.threads[id := next.threads[id]])
    ensures Apart(s, next)
  {
  }

  lemma {:induction false} BeginStoreApart(s: State, id: Id)
    requires id in s.threads && (s.threads[id].pc.Storing? || s.threads[id].pc.Dropping?)
    ensures Apart(s, BeginStoreStep(s, id))
  {
    MovedApart(s, BeginStoreStep(s, id), id);
  }

  lemma {:induction false} StoreApart(c: System, s: State, l: Label)
    requires Enabled(c, s, l) && (l.BeginStore? || l.Rename?)
    ensures Apart(s, Step(c, s, l))
  {
    if l.BeginStore? { BeginStoreApart(s, l.id); }
  }

  lemma {:induction false} RollbackApart(c: System, s: State, l: Label)
    requires Enabled(c, s, l) && l.PersistFailed?
    ensures Apart(s, Step(c, s, l))
  {
  }

  lemma {:induction false} EndApart(c: System, s: State, l: Label)
    requires Enabled(c, s, l) && (l.Reply? || l.UndoDone? || l.UndoFailed?)
    ensures Apart(s, Step(c, s, l))
  {
  }

  lemma {:induction false} OtherApart(c: System, s: State, l: Label)
    requires Enabled(c, s, l) && !l.Check? && !l.Admit? && !l.Crash? && !l.Restart?
    ensures Apart(s, Step(c, s, l))
  {
    if l.Arrive? || l.LateToken? || l.Expire? {
      ArriveApart(c, s, l);
    } else if l.Acquire? || l.Look? {
      LookApart(c, s, l);
    } else if l.RevokeDone? || l.RevokeFailed? {
      RevokeApart(c, s, l);
    } else if l.IssueDone? || l.IssueRefused? || l.IssueLost? {
      IssueApart(c, s, l);
    } else if l.SealDone? || l.SealFailed? {
      SealApart(c, s, l);
    } else if l.BeginStore? || l.Rename? {
      StoreApart(c, s, l);
    } else if l.PersistFailed? {
      RollbackApart(c, s, l);
    } else {
      EndApart(c, s, l);
    }
  }

  // ----- The run and its stream -----

  /** Every thread past the freshness check passed it with the reading the stream records. */
  ghost predicate FreshWhenChecked(c: System, s: State, run: Run) {
    forall id | id in s.threads && s.threads[id].pc.Validated? ::
      WithinWindow(BodyOf(s.threads[id].request).timestamp, c.config.ttl, CheckedAt(run, id))
  }

  /** The cache holds what the stream `uses` leaves; while down there is no stream. */
  ghost predicate Tracks(c: System, s: State, run: Run, uses: seq<Submission>) {
    && FreshWhenChecked(c, s, run)
    && s.nonces == CacheAfter(LimitsOf(c), Calls(c.config.ttl, uses))
    && (!s.up ==> uses == [])
  }

  /** No process has used the cache yet. */
  ghost predicate Unused(s: State) {
    s.nonces == map[] && forall id | id in s.threads :: !s.threads[id].pc.Validated?
  }

  predicate WithoutCrash(run: Run) {
    forall i | 0 <= i < |run| :: !run[i].Crash?
  }

  lemma {:induction false} CheckedAtAppend(before: Run, l: Label, id: Id)
    ensures CheckedAt(before + [l], id) == if l.Check? && l.id == id then l.now else CheckedAt(before, id)
  {
    assert (before + [l])[..|before|] == before;
  }

  lemma {:induction false} CheckTracks(c: System, s: State, before: Run, l: Label, uses: seq<Submission>)
    requires Enabled(c, s, l) && l.Check? && Tracks(c, s, before, uses)
    ensures Tracks(c, CheckStep(c, s, l.id, l.now), before + [l], uses)
  {
    var next := CheckStep(c, s, l.id, l.now);
    forall id | id in next.threads && next.threads[id].pc.Validated?
      ensures WithinWindow(BodyOf(next.threads[id].request).timestamp, c.config.ttl, CheckedAt(before + [l], id))
    {
      CheckedAtAppend(before, l, id);
    }
  }

  lemma {:induction false} ApartTracks(c: System, s: State, next: State, before: Run, l: Label, uses: seq<Submission>)
    requires Tracks(c, s, before, uses) && !l.Check? && NoneValidated(s, next) && next.nonces == s.nonces
    requires next.up || !s.up
    ensures Tracks(c, next, before + [l], uses)
  {
    forall id | id in next.threads && next.threads[id].pc.Validated?
      ensures WithinWindow(BodyOf(next.threads[id].request).timestamp, c.config.ttl, CheckedAt(before + [l], id))
    {
      CheckedAtAppend(before, l, id);
    }
  }

  lemma {:induction false} RestartTracks(c: System, s: State, before: Run, uses: seq<Submission>)
    requires Enabled(c, s, Restart) && Tracks(c, s, before, uses)
    ensures Tracks(c, RestartStep(c, s), before + [Restart], uses)
  {
    ApartTracks(c, s, RestartStep(c, s), before, Restart, uses);
  }

  /** A validated thread at the nonce lock reaches the cache exactly when its signature verifies. */
  lemma {:induction false} UseReaches(c: System, s: State, before: Run, l: Label)
    requires Enabled(c, s, l) && l.Admit? && FreshWhenChecked(c, s, before)
    ensures |UseAt(s, before, l)| == 1
    ensures Reaches(c.config.ttl, UseAt(s, before, l)[0]) <==> l.signed
  {
  }

  lemma {:induction false} AdmitMeans(c: System, s: State, l: Label, body: Body)
    requires Enabled(c, s, l) && l.Admit?
    ensures var next := AdmitStep(c, s, l.id, l.signed, l.now);
            var limits, of := LimitsOf(c), BodyOf(s.threads[l.id].request);
            && next.nonces == (if l.signed then Used(s.nonces, limits.ttl, limits.maximum, Key(limits.digest, of), l.now) else s.nonces)
            && PassedAt(s, next, l, body)
               == if of == body && l.signed && Accepts(s.nonces, limits.maximum, Key(limits.digest, of), l.now) then [l.now] else []
  {
  }

  lemma {:induction false} CacheAppend(limits: Limits, uses: seq<Submission>, use: Submission)
    ensures CacheAfter(limits, Calls(limits.ttl, uses + [use]))
         == if Reaches(limits.ttl, use)
            then Used(CacheAfter(limits, Calls(limits.ttl, uses)), limits.ttl, limits.maximum, Key(limits.digest, use.body), use.usedAt)
            else CacheAfter(limits, Calls(limits.ttl, uses))
  {
    var calls := Calls(limits.ttl, uses);
    CallsAppend(limits.ttl, uses, use);
    assert calls + [] == calls;
    LogStep(limits, calls, use);
  }

  lemma {:induction false} AdmitCache(c: System, s: State, before: Run, l: Label, uses: seq<Submission>)
    requires Enabled(c, s, l) && l.Admit? && Tracks(c, s, before, uses)
    ensures AdmitStep(c, s, l.id, l.signed, l.now).nonces
         == CacheAfter(LimitsOf(c), Calls(c.config.ttl, uses + UseAt(s, before, l)))
  {
    UseReaches(c, s, before, l);
    var use := UseAt(s, before, l)[0];
    assert UseAt(s, before, l) == [use];
    AdmitMeans(c, s, l, use.body);
    CacheAppend(LimitsOf(c), uses, use);
  }

  lemma {:induction false} AdmitFresh(c: System, s: State, before: Run, l: Label)
    requires Enabled(c, s, l) && l.Admit? && FreshWhenChecked(c, s, before)
    ensures FreshWhenChecked(c, AdmitStep(c, s, l.id, l.signed, l.now), before + [l])
  {
    var next := AdmitStep(c, s, l.id, l.signed, l.now);
    forall id | id in next.threads && next.threads[id].pc.Validated?
      ensures WithinWindow(BodyOf(next.threads[id].request).timestamp, c.config.ttl, CheckedAt(before + [l], id))
    {
      CheckedAtAppend(before, l, id);
    }
  }

  lemma {:induction false} AdmitTracks(c: System, s: State, before: Run, l: Label, uses: seq<Submission>)
    requires Enabled(c, s, l) && l.Admit? && Tracks(c, s, before, uses)
    ensures Tracks(c, AdmitStep(c, s, l.id, l.signed, l.now), before + [l], uses + UseAt(s, before, l))
  {
    AdmitCache(c, s, before, l, uses);
    AdmitFresh(c, s, before, l);
  }

  lemma {:induction false} StepTracks(c: System, s: State, before: Run, l: Label, uses: seq<Submission>)
    requires Enabled(c, s, l) && !l.Crash? && Tracks(c, s, before, uses)
    ensures Tracks(c, Step(c, s, l), before + [l], uses + UseAt(s, before, l))
  {
    assert uses + [] == uses;
    if l.Check? {
      CheckTracks(c, s, before, l, uses);
    } else if l.Admit? {
      AdmitTracks(c, s, before, l, uses);
    } else if l.Restart? {
      RestartTracks(c, s, before, uses);
    } else {
      OtherApart(c, s, l);
      ApartTracks(c, s, Step(c, s, l), before, l, uses);
    }
  }

  /** Until a crash the broker's cache is the one its stream of uses leaves. */
  lemma {:induction false} RunTracks(c: System, start: State, run: Run)
    requires Unused(start) && Legal(c, start, run) && WithoutCrash(run)
    ensures Tracks(c, After(c, start, run), run, Uses(c, start, run))
  {
    if run != [] {
      var before, l := run[..|run| - 1], run[|run| - 1];
      assert forall i | 0 <= i < |before| :: before[i] == run[i];
      assert run == before + [l];
      RunTracks(c, start, before);
      StepTracks(c, After(c, start, before), before, l, Uses(c, start, before));
    }
  }

  // ----- Acceptances -----

  lemma {:induction false} SignedPasses(c: System, s: State, before: Run, l: Label, uses: seq<Submission>, body: Body)
    requires Enabled(c, s, l) && l.Admit? && l.signed && Tracks(c, s, before, uses)
    ensures Acceptances(LimitsOf(c), Calls(c.config.ttl, uses + UseAt(s, before, l)), body)
         == Acceptances(LimitsOf(c), Calls(c.config.ttl, uses), body)
            + PassedAt(s, AdmitStep(c, s, l.id, l.signed, l.now), l, body)
  {
    UseReaches(c, s, before, l);
    var use := UseAt(s, before, l)[0];
    assert UseAt(s, before, l) == [use];
    AdmitMeans(c, s, l, body);
    StreamAppend(LimitsOf(c), uses, use, body);
  }

  lemma {:induction false} UnsignedPasses(c: System, s: State, before: Run, l: Label, uses: seq<Submission>, body: Body)
    requires Enabled(c, s, l) && l.Admit? && !l.signed && Tracks(c, s, before, uses)
    ensures Calls(c.config.ttl, uses + UseAt(s, before, l)) == Calls(c.config.ttl, uses)
    ensures PassedAt(s, AdmitStep(c, s, l.id, l.signed, l.now), l, body) == []
  {
    UseReaches(c, s, before, l);
    var use := UseAt(s, before, l)[0];
    assert UseAt(s, before, l) == [use];
    CallsAppend(c.config.ttl, uses, use);
  }

  lemma {:induction false} AdmitPasses(c: System, s: State, before: Run, l: Label, uses: seq<Submission>, body: Body)
    requires Enabled(c, s, l) && l.Admit? && Tracks(c, s, before, uses)
    ensures Acceptances(LimitsOf(c), Calls(c.config.ttl, uses + UseAt(s, before, l)), body)
         == Acceptances(LimitsOf(c), Calls(c.config.ttl, uses), body)
            + PassedAt(s, AdmitStep(c, s, l.id, l.signed, l.now), l, body)
  {
    if l.signed {
      SignedPasses(c, s, before, l, uses, body);
    } else {
      UnsignedPasses(c, s, before, l, uses, body);
      assert Acceptances(LimitsOf(c), Calls(c.config.ttl, uses), body) + []
          == Acceptances(LimitsOf(c), Calls(c.config.ttl, uses), body);
    }
  }

  lemma {:induction false} OtherPasses(s: State, next: State, before: Run, l: Label, uses: seq<Submission>, times: seq<int>, body: Body)
    requires !l.Admit?
    ensures uses + UseAt(s, before, l) == uses && times + PassedAt(s, next, l, body) == times
  {
  }

  /** A request passes in the run exactly when its use is accepted in the stream. */
  lemma {:induction false} RunAccepts(c: System, start: State, run: Run, body: Body)
    requires Unused(start) && Legal(c, start, run) && WithoutCrash(run)
    ensures LetThroughAt(c, start, run, body) == Acceptances(LimitsOf(c), Calls(c.config.ttl, Uses(c, start, run)), body)
  {
    if run != [] {
      var before, l := run[..|run| - 1], run[|run| - 1];
      assert forall i | 0 <= i < |before| :: before[i] == run[i];
      var s, uses := After(c, start, before), Uses(c, start, before);
      RunAccepts(c, start, before, body);
      if l.Admit? {
        RunTracks(c, start, before);
        AdmitPasses(c, s, before, l, uses, body);
      } else {
        OtherPasses(s, After(c, start, run), before, l, uses, LetThroughAt(c, start, before, body), body);
      }
    }
  }

  /**
   Main result: in every run from a start to the next crash, with clock readings that, for the requests
   that take the nonce lock, do not decrease in its order and lie at most `maxDelay` apart, one signed
   body is let through at most three times, at least `ttl` apart, and only once when its timestamp lies more
   than `maxDelay` before the first time.
   */
  lemma {:induction false} RunLetsThroughAtMostThrice(c: System, start: State, run: Run, maxDelay: int, body: Body)
    requires Unused(start) && Legal(c, start, run) && WithoutCrash(run)
    requires 0 <= maxDelay < c.config.ttl
    requires InLockOrder(Calls(c.config.ttl, Uses(c, start, run))) && Prompt(maxDelay, Calls(c.config.ttl, Uses(c, start, run)))
    ensures var times := LetThroughAt(c, start, run, body);
            && SpacedBy(c.config.ttl, times)
            && |times| <= 3
            && (times != [] && body.timestamp + maxDelay < times[0] ==> |times| == 1)
  {
    RunAccepts(c, start, run, body);
    AtMostThreeAcceptances(LimitsOf(c), maxDelay, Uses(c, start, run), body);
  }

  // ----- Three is reached -----

  lemma {:induction false} LetThroughAppend(c: System, start: State, run: Run, l: Label, body: Body)
    requires Legal(c, start, run + [l])
    ensures Legal(c, start, run)
    ensures LetThroughAt(c, start, run + [l], body)
         == LetThroughAt(c, start, run, body) + PassedAt(After(c, start, run), After(c, start, run + [l]), l, body)
  {
    assert (run + [l])[..|run|] == run;
  }

  lemma {:induction false} LetThroughOther(c: System, start: State, run: Run, l: Label, body: Body)
    requires Legal(c, start, run + [l]) && !l.Admit?
    ensures Legal(c, start, run) && LetThroughAt(c, start, run + [l], body) == LetThroughAt(c, start, run, body)
  {
    LetThroughAppend(c, start, run, l, body);
    assert LetThroughAt(c, start, run, body) + [] == LetThroughAt(c, start, run, body);
  }

  lemma {:induction false} ArrivalPasses(c: System, start: State, sofar: Run, run: Run, id: Id, request: Request, now: int)
    requires run == sofar + [Arrive(id, request)] + [Check(id, now)] + [Admit(id, true, now)] && Legal(c, start, run)
    requires Legal(c, start, sofar) && Valid(c.config, request, now)
    requires After(c, start, run) == Admitted(c, After(c, start, sofar), id, request, now)
    ensures LetThroughAt(c, start, run, BodyOf(request)) == LetThroughAt(c, start, sofar, BodyOf(request)) + [now]
  {
    var body := BodyOf(request);
    var arrived := sofar + [Arrive(id, request)];
    var checked := arrived + [Check(id, now)];
    LetThroughAppend(c, start, checked, Admit(id, true, now), body);
    LetThroughOther(c, start, arrived, Check(id, now), body);
    LetThroughOther(c, start, sofar, Arrive(id, request), body);
    CheckedThread(c, start, sofar, id, request, now);
  }

  /** Just before the nonce lock the thread still carries its request. */
  lemma {:induction false} CheckedThread(c: System, start: State, sofar: Run, id: Id, request: Request, now: int)
    requires Legal(c, start, sofar + [Arrive(id, request)] + [Check(id, now)])
    requires Legal(c, start, sofar) && Valid(c.config, request, now)
    ensures var s := After(c, start, sofar + [Arrive(id, request)] + [Check(id, now)]);
            id in s.threads && s.threads[id].request == request
  {
    RunStep(c, start, sofar + [Arrive(id, request)], Check(id, now));
    RunStep(c, start, sofar, Arrive(id, request));
  }

  /** Up, with one waiting thread for each of the times, and nothing remembered beyond the window of the last. */
  ghost predicate Idle(c: System, s: State, times: seq<int>) {
    && s.up && (forall id | id in s.threads :: id < |times|)
    && forall k | k in s.nonces :: times != [] && s.nonces[k] <= times[|times| - 1] + c.config.ttl
  }

  lemma {:induction false} IdleAfter(c: System, s: State, times: seq<int>, id: Id, request: Request, now: int)
    requires Idle(c, s, times) && id == |times| && c.config.maximum > 0
    requires times != [] ==> times[|times| - 1] + c.config.ttl <= now
    ensures Accepts(s.nonces, c.config.maximum, NonceKey(c, request), now)
    ensures Idle(c, Admitted(c, s, id, request, now), times + [now])
  {
    ExpiredEntry(s.nonces, c.config.ttl, c.config.maximum, NonceKey(c, request), now);
  }

  /** A request can pass at all times at which it is valid, as long as they are a window apart. */
  lemma {:induction false} PassesAtEach(c: System, start: State, request: Request, times: seq<int>) returns (run: Run)
    requires Unused(start) && !start.up && start.threads == map[] && c.reload(start.disk).Some? && c.config.maximum > 0
    requires SpacedBy(c.config.ttl, times) && forall now | now in times :: Valid(c.config, request, now)
    ensures Legal(c, start, run) && FaultFreeRun(run) && Idle(c, After(c, start, run), times)
    ensures LetThroughAt(c, start, run, BodyOf(request)) == times
    decreases |times|
  {
    if times == [] {
      run := Extend(c, start, [], Restart);
      assert After(c, start, run) == RestartStep(c, start);
      LetThroughOther(c, start, [], Restart, BodyOf(request));
    } else {
      var before, now := times[..|times| - 1], times[|times| - 1];
      assert times == before + [now];
      assert forall i | 0 <= i < |before| :: before[i] == times[i];
      var sofar := PassesAtEach(c, start, request, before);
      run := PassAgain(c, start, sofar, request, before, now);
    }
  }

  lemma {:induction false} PassAgain(c: System, start: State, sofar: Run, request: Request, times: seq<int>, now: int) returns (run: Run)
    requires Legal(c, start, sofar) && FaultFreeRun(sofar) && c.config.maximum > 0
    requires Idle(c, After(c, start, sofar), times) && LetThroughAt(c, start, sofar, BodyOf(request)) == times
    requires Valid(c.config, request, now) && (times != [] ==> times[|times| - 1] + c.config.ttl <= now)
    ensures Legal(c, start, run) && FaultFreeRun(run) && Idle(c, After(c, start, run), times + [now])
    ensures LetThroughAt(c, start, run, BodyOf(request)) == times + [now]
  {
    IdleAfter(c, After(c, start, sofar), times, |times|, request, now);
    run := ArrivalAdmits(c, start, sofar, |times|, request, now);
    ArrivalPasses(c, start, sofar, run, |times|, request, now);
  }

  function ThreeTimes(t: int, ttl: int): seq<int> {
    [t - ttl, t, t + ttl]
  }

  lemma {:induction false} ThreeTimesValid(config: Config, request: Request, t: int)
    requires config.ttl > 0 && request.timestamp == Some(t) && Valid(config, request, t)
    ensures SpacedBy(config.ttl, ThreeTimes(t, config.ttl))
    ensures forall now | now in ThreeTimes(t, config.ttl) :: Valid(config, request, now)
  {
    forall now | now in ThreeTimes(t, config.ttl) ensures Valid(config, request, now) { ValidInWindow(config, request, t, now); }
  }

  /**
   The bound is reached: a request that is valid at its timestamp can pass three times in one process,
   at its earliest instant, at its timestamp and at its latest.
   */
  lemma {:induction false} RunLetsThroughThrice(c: System, start: State, request: Request, t: int) returns (run: Run)
    requires Unused(start) && !start.up && start.threads == map[] && c.reload(start.disk).Some?
    requires c.config.maximum > 0 && c.config.ttl > 0
    requires request.timestamp == Some(t) && Valid(c.config, request, t)
    ensures Legal(c, start, run) && FaultFreeRun(run)
    ensures LetThroughAt(c, start, run, BodyOf(request)) == [t - c.config.ttl, t, t + c.config.ttl]
  {
    ThreeTimesValid(c.config, request, t);
    run := PassesAtEach(c, start, request, ThreeTimes(t, c.config.ttl));
  }

  /** Only freshness depends on the clock. */
  lemma {:induction false} ValidInWindow(config: Config, request: Request, now: int, later: int)
    requires Valid(config, request, now) && WithinWindow(request.timestamp.value, config.ttl, later)
    ensures Valid(config, request, later)
  {
  }

  /** Whenever the broker is down, its next process starts unused. */
  lemma {:induction false} DownIsUnused(c: System, run: Run)
    requires Legal(c, INITIAL, run)
    ensures var s := After(c, INITIAL, run); !s.up ==> s.nonces == map[] && s.threads == map[]
  {
    if run != [] {
      DownIsUnused(c, run[..|run| - 1]);
      if !After(c, INITIAL, run).up { DownStep(c, After(c, INITIAL, run[..|run| - 1]), run[|run| - 1]); }
    }
  }

  lemma {:induction false} DownStep(c: System, s: State, l: Label)
    requires Enabled(c, s, l) && !Step(c, s, l).up
    ensures if l.Crash? then Step(c, s, l) == CrashStep(s)
            else !s.up && Step(c, s, l).nonces == s.nonces && Step(c, s, l).threads == s.threads
  {
    if s.up && !l.Crash? { UpStays(c, s, l); }
  }

  lemma {:induction false} UpStays(c: System, s: State, l: Label)
    requires Enabled(c, s, l) && s.up && !l.Crash?
    ensures Step(c, s, l).up
  {
    if !l.Check? && !l.Admit? { OtherApart(c, s, l); }
  }
}
