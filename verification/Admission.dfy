/**
 Freshness and replay together, within one process lifetime. A request is checked for freshness
 against one clock reading and its nonce is used at a second one; the window of the first and the
 lifetime of the second are the same `ttl`. `maxDelay` bounds the time between the two readings.
 */
module Admission {
  import opened LeaseKeys
  import opened Nonces
  import opened Requests

  datatype Body = Body(host: string, nonce: string, timestamp: int)

  /** One request on its way through a handler, in the order of the nonce lock. */
  datatype Submission = Submission(body: Body, freshAt: int, usedAt: int, signed: bool)

  /** The guards in front of `nonces.use`. */
  predicate Reaches(ttl: int, s: Submission) {
    WithinWindow(s.body.timestamp, ttl, s.freshAt) && s.signed
  }

  function Calls(ttl: int, stream: seq<Submission>): seq<Submission> {
    if stream == [] then []
    else
      var before, last := Calls(ttl, stream[..|stream| - 1]), stream[|stream| - 1];
      if Reaches(ttl, last) then before + [last] else before
  }

  datatype Limits = Limits(digest: Digest, ttl: int, maximum: int)

  function Key(digest: Digest, body: Body): string {
    digest(Preimage(body.host, body.nonce))
  }

  /** What the replay cache answers to these calls. */
  ghost function Log(limits: Limits, calls: seq<Submission>): History {
    if calls == [] then []
    else
      var before, last := Log(limits, calls[..|calls| - 1]), calls[|calls| - 1];
      var key := Key(limits.digest, last.body);
      before + [Call(key, last.usedAt,
                     Accepts(EntriesAfter(limits.ttl, limits.maximum, before), limits.maximum, key, last.usedAt))]
  }

  /** The instants at which one body was let through. */
  ghost function Acceptances(limits: Limits, calls: seq<Submission>, body: Body): seq<int> {
    if calls == [] then []
    else
      var n := |calls| - 1;
      var before := Acceptances(limits, calls[..n], body);
      if calls[n].body == body && Accepted(limits, calls, n) then before + [calls[n].usedAt] else before
  }

  ghost predicate Accepted(limits: Limits, calls: seq<Submission>, n: nat)
    requires n < |calls|
  {
    Accepts(EntriesAfter(limits.ttl, limits.maximum, Log(limits, calls[..n])), limits.maximum,
            Key(limits.digest, calls[n].body), calls[n].usedAt)
  }

  lemma {:induction false} LogRecorded(limits: Limits, calls: seq<Submission>)
    ensures Recorded(limits.ttl, limits.maximum, Log(limits, calls))
    ensures |Log(limits, calls)| == |calls|
  {
    if calls != [] {
      var h, before := Log(limits, calls), Log(limits, calls[..|calls| - 1]);
      LogRecorded(limits, calls[..|calls| - 1]);
      assert h[..|h| - 1] == before;
    }
  }

  lemma {:induction false} LogEntry(limits: Limits, calls: seq<Submission>, i: nat)
    requires i < |calls|
    ensures i < |Log(limits, calls)|
    ensures Log(limits, calls)[i] == Call(Key(limits.digest, calls[i].body), calls[i].usedAt, Accepted(limits, calls, i))
  {
    var before := calls[..|calls| - 1];
    LogRecorded(limits, before);
    if i < |before| {
      LogEntry(limits, before, i);
      AcceptedInPrefix(limits, calls, |before|, i);
    }
  }

  ghost predicate InLockOrder(stream: seq<Submission>) {
    forall i, j | 0 <= i < j < |stream| :: stream[i].usedAt <= stream[j].usedAt
  }

  /** Only uses that pass the guards come to the cache. */
  lemma {:induction false} CallsReach(ttl: int, stream: seq<Submission>)
    ensures forall s | s in Calls(ttl, stream) :: s in stream && Reaches(ttl, s)
  {
    if stream != [] {
      CallsReach(ttl, stream[..|stream| - 1]);
      assert forall s | s in stream[..|stream| - 1] :: s in stream;
    }
  }

  lemma {:induction false} CallsOfStream(ttl: int, stream: seq<Submission>)
    requires InLockOrder(stream)
    ensures InLockOrder(Calls(ttl, stream))
    ensures forall s | s in Calls(ttl, stream) :: s in stream && Reaches(ttl, s)
  {
    if stream != [] {
      var before, last := stream[..|stream| - 1], stream[|stream| - 1];
      CallsOfStream(ttl, before);
      forall s | s in before
        ensures s in stream && s.usedAt <= last.usedAt
      {
        var i :| 0 <= i < |before| && before[i] == s;
        assert stream[i] == s;
      }
    }
  }

  ghost predicate LetThrough(limits: Limits, calls: seq<Submission>, body: Body, i: int, t: int) {
    0 <= i < |calls| && calls[i].body == body && calls[i].usedAt == t && Accepted(limits, calls, i)
  }

  lemma {:induction false} AcceptedInPrefix(limits: Limits, calls: seq<Submission>, n: nat, i: nat)
    requires i < n <= |calls|
    ensures Accepted(limits, calls[..n], i) == Accepted(limits, calls, i)
  {
    assert calls[..n][..i] == calls[..i];
  }

  lemma {:induction false} LetThroughInPrefix(limits: Limits, calls: seq<Submission>, n: nat, body: Body, i: int, t: int)
    requires n <= |calls| && LetThrough(limits, calls[..n], body, i, t)
    ensures LetThrough(limits, calls, body, i, t)
  {
    AcceptedInPrefix(limits, calls, n, i);
  }

  lemma {:induction false} AcceptanceHasCall(limits: Limits, calls: seq<Submission>, body: Body, t: int)
    requires t in Acceptances(limits, calls, body)
    ensures exists i :: LetThrough(limits, calls, body, i, t)
  {
    var n := |calls| - 1;
    if t in Acceptances(limits, calls[..n], body) {
      AcceptanceHasCall(limits, calls[..n], body, t);
      var i :| LetThrough(limits, calls[..n], body, i, t);
      LetThroughInPrefix(limits, calls, n, body, i, t);
    } else {
      assert LetThrough(limits, calls, body, n, t);
    }
  }

  ghost predicate SpacedBy(gap: int, times: seq<int>) {
    forall i | 0 <= i < |times| - 1 :: times[i] + gap <= times[i + 1]
  }

  lemma {:induction false} FewSpaced(gap: int, times: seq<int>, latest: int, n: nat)
    requires SpacedBy(gap, times) && forall t | t in times :: t <= latest
    requires times != [] ==> latest < times[0] + n * gap
    ensures |times| <= n
  {
    if times != [] {
      assert times[0] in times;
      var rest := times[1..];
      assert forall i | 0 <= i < |rest| - 1 :: rest[i] == times[i + 1];
      assert forall t | t in rest :: t in times;
      assert n > 0;
      assert (n - 1) * gap == n * gap - gap;
      assert rest != [] ==> times[0] + gap <= rest[0];
      FewSpaced(gap, rest, latest, n - 1);
    }
  }

  /** Two acceptances of one body are at least `ttl` apart. */
  lemma {:induction false} AcceptancesSpaced(limits: Limits, calls: seq<Submission>, body: Body)
    requires InLockOrder(calls)
    ensures SpacedBy(limits.ttl, Acceptances(limits, calls, body))
  {
    if calls != [] {
      var n := |calls| - 1;
      var before := Acceptances(limits, calls[..n], body);
      AcceptancesSpaced(limits, calls[..n], body);
      if before != [] && calls[n].body == body && Accepted(limits, calls, n) {
        NextAcceptance(limits, calls, body, before[|before| - 1]);
      }
    }
  }

  lemma {:induction false} NextAcceptance(limits: Limits, calls: seq<Submission>, body: Body, t: int)
    requires calls != [] && InLockOrder(calls)
    requires t in Acceptances(limits, calls[..|calls| - 1], body)
    requires calls[|calls| - 1].body == body && Accepted(limits, calls, |calls| - 1)
    ensures t + limits.ttl <= calls[|calls| - 1].usedAt
  {
    var before := calls[..|calls| - 1];
    AcceptanceHasCall(limits, before, body, t);
    var i :| LetThrough(limits, before, body, i, t);
    WindowOver(limits, before, i, calls[|calls| - 1].usedAt);
  }

  /** A key accepted at `i` is accepted again only after its window. */
  lemma {:induction false} WindowOver(limits: Limits, calls: seq<Submission>, i: nat, now: int)
    requires i < |calls| && Accepted(limits, calls, i)
    requires InLockOrder(calls) && forall j | 0 <= j < |calls| :: calls[j].usedAt <= now
    requires Accepts(EntriesAfter(limits.ttl, limits.maximum, Log(limits, calls)), limits.maximum,
                     Key(limits.digest, calls[i].body), now)
    ensures calls[i].usedAt + limits.ttl <= now
  {
    var h := Log(limits, calls);
    LogRecorded(limits, calls);
    forall j | 0 <= j < |h| ensures h[j].now == calls[j].usedAt { LogEntry(limits, calls, j); }
    LogEntry(limits, calls, i);
    AcceptsByWindow(limits.ttl, limits.maximum, h, Key(limits.digest, calls[i].body), now);
  }

  ghost predicate Prompt(maxDelay: int, stream: seq<Submission>) {
    forall s | s in stream :: s.freshAt <= s.usedAt <= s.freshAt + maxDelay
  }

  /** Freshness confines the acceptances of a body to the window around its timestamp. */
  lemma {:induction false} AcceptancesConfined(limits: Limits, maxDelay: int, stream: seq<Submission>, body: Body, t: int)
    requires Prompt(maxDelay, Calls(limits.ttl, stream))
    requires t in Acceptances(limits, Calls(limits.ttl, stream), body)
    ensures body.timestamp - limits.ttl <= t <= body.timestamp + limits.ttl + maxDelay
  {
    var calls := Calls(limits.ttl, stream);
    CallsReach(limits.ttl, stream);
    AcceptanceHasCall(limits, calls, body, t);
    var i :| LetThrough(limits, calls, body, i, t);
    assert calls[i] in calls;
  }

  /**
   Main result: one signed body is let through at most three times, at least `ttl` apart, and only
   once when its timestamp lies more than `maxDelay` before its first acceptance. Only the requests
   that reach the cache need clock readings in order and close together.
   */
  lemma {:induction false} AtMostThreeAcceptances(limits: Limits, maxDelay: int, stream: seq<Submission>, body: Body)
    requires 0 <= maxDelay < limits.ttl
    requires InLockOrder(Calls(limits.ttl, stream)) && Prompt(maxDelay, Calls(limits.ttl, stream))
    ensures var times := Acceptances(limits, Calls(limits.ttl, stream), body);
            && SpacedBy(limits.ttl, times)
            && |times| <= 3
            && (times != [] && body.timestamp + maxDelay < times[0] ==> |times| == 1)
  {
    var times := Acceptances(limits, Calls(limits.ttl, stream), body);
    AcceptancesSpaced(limits, Calls(limits.ttl, stream), body);
    forall t | t in times
      ensures body.timestamp - limits.ttl <= t <= body.timestamp + limits.ttl + maxDelay
    {
      AcceptancesConfined(limits, maxDelay, stream, body, t);
    }
    assert times != [] ==> times[0] in times;
    FewSpaced(limits.ttl, times, body.timestamp + limits.ttl + maxDelay, 3);
    if times != [] && body.timestamp + maxDelay < times[0] {
      FewSpaced(limits.ttl, times, body.timestamp + limits.ttl + maxDelay, 1);
    }
  }

  /** The same body again, `ttl` after its first use. */
  function Repeat(ttl: int, first: Submission): Submission {
    var n, latest := first.usedAt + ttl, first.body.timestamp + ttl;
    Submission(first.body, if n <= latest then n else latest, n, true)
  }

  lemma {:induction false} CallsAppend(ttl: int, stream: seq<Submission>, last: Submission)
    ensures Calls(ttl, stream + [last]) == Calls(ttl, stream) + if Reaches(ttl, last) then [last] else []
  {
    assert (stream + [last])[..|stream|] == stream;
  }

  lemma {:induction false} AcceptancesAppend(limits: Limits, calls: seq<Submission>, last: Submission, body: Body)
    ensures Accepted(limits, calls + [last], |calls|)
       <==> Accepts(CacheAfter(limits, calls), limits.maximum, Key(limits.digest, last.body), last.usedAt)
    ensures Acceptances(limits, calls + [last], body)
         == Acceptances(limits, calls, body)
            + if last.body == body && Accepted(limits, calls + [last], |calls|) then [last.usedAt] else []
  {
    assert (calls + [last])[..|calls|] == calls;
  }

  /** Nothing is remembered for longer than the window after the latest use. */
  lemma {:induction false} CacheExpires(limits: Limits, calls: seq<Submission>, latest: int)
    requires forall i | 0 <= i < |calls| :: calls[i].usedAt <= latest
    ensures forall k | k in CacheAfter(limits, calls) :: CacheAfter(limits, calls)[k] <= latest + limits.ttl
  {
    if calls != [] {
      var before, last := calls[..|calls| - 1], calls[|calls| - 1];
      CacheExpires(limits, before, latest);
      LogStep(limits, before, last);
      assert calls == before + [last];
    }
  }

  /** The stream ends in a use of a body that is let through. */
  ghost predicate EndsAccepted(limits: Limits, stream: seq<Submission>) {
    var calls := Calls(limits.ttl, stream);
    stream != [] && Reaches(limits.ttl, stream[|stream| - 1]) && calls != [] && Accepted(limits, calls, |calls| - 1)
  }

  lemma {:induction false} RepeatPrompt(ttl: int, maxDelay: int, stream: seq<Submission>)
    requires 0 <= maxDelay < ttl && InLockOrder(stream) && Prompt(maxDelay, stream)
    requires stream != [] && Reaches(ttl, stream[|stream| - 1])
    requires stream[|stream| - 1].usedAt <= stream[|stream| - 1].body.timestamp + maxDelay
    ensures var second := Repeat(ttl, stream[|stream| - 1]);
            InLockOrder(stream + [second]) && Prompt(maxDelay, stream + [second]) && Reaches(ttl, second)
  {
    var first := stream[|stream| - 1];
    assert first in stream;
    var longer := stream + [Repeat(ttl, first)];
    forall i, j | 0 <= i < j < |longer| ensures longer[i].usedAt <= longer[j].usedAt {
      if i < |stream| - 1 { assert stream[i].usedAt <= first.usedAt; }
    }
  }

  lemma {:induction false} LaterAccepted(limits: Limits, stream: seq<Submission>, key: string, now: int)
    requires InLockOrder(stream) && EndsAccepted(limits, stream)
    requires now == stream[|stream| - 1].usedAt + limits.ttl
    ensures Accepts(CacheAfter(limits, Calls(limits.ttl, stream)), limits.maximum, key, now)
  {
    var latest, calls := stream[|stream| - 1].usedAt, Calls(limits.ttl, stream);
    CallsOfStream(limits.ttl, stream);
    forall i | 0 <= i < |calls| ensures calls[i].usedAt <= latest { assert calls[i] in stream; }
    CacheExpires(limits, calls, latest);
    ExpiredEntry(CacheAfter(limits, calls), limits.ttl, limits.maximum, key, now);
  }

  /** One more use that reaches a cache with room for it. */
  lemma {:induction false} StreamAppend(limits: Limits, stream: seq<Submission>, last: Submission, body: Body)
    requires Reaches(limits.ttl, last)
    ensures Acceptances(limits, Calls(limits.ttl, stream + [last]), body)
         == Acceptances(limits, Calls(limits.ttl, stream), body)
            + if last.body == body && Accepts(CacheAfter(limits, Calls(limits.ttl, stream)), limits.maximum,
                                              Key(limits.digest, last.body), last.usedAt)
              then [last.usedAt] else []
  {
    CallsAppend(limits.ttl, stream, last);
    AcceptancesAppend(limits, Calls(limits.ttl, stream), last, body);
  }

  lemma {:induction false} AcceptedAppend(limits: Limits, stream: seq<Submission>, last: Submission)
    requires Reaches(limits.ttl, last)
    requires Accepts(CacheAfter(limits, Calls(limits.ttl, stream)), limits.maximum, Key(limits.digest, last.body), last.usedAt)
    ensures Acceptances(limits, Calls(limits.ttl, stream + [last]), last.body)
         == Acceptances(limits, Calls(limits.ttl, stream), last.body) + [last.usedAt]
  {
    StreamAppend(limits, stream, last, last.body);
  }

  lemma {:induction false} NextUseAccepted(limits: Limits, stream: seq<Submission>, second: Submission)
    requires InLockOrder(stream) && EndsAccepted(limits, stream) && Reaches(limits.ttl, second)
    requires second.usedAt == stream[|stream| - 1].usedAt + limits.ttl
    ensures Acceptances(limits, Calls(limits.ttl, stream + [second]), second.body)
         == Acceptances(limits, Calls(limits.ttl, stream), second.body) + [second.usedAt]
  {
    LaterAccepted(limits, stream, Key(limits.digest, second.body), second.usedAt);
    AcceptedAppend(limits, stream, second);
  }

  /**
   After any uses whatever: when a body is let through no later than `maxDelay` after its timestamp,
   its use one window later is let through again.
   */
  lemma {:induction false} EarlyAcceptanceRepeats(limits: Limits, maxDelay: int, stream: seq<Submission>)
    requires 0 <= maxDelay < limits.ttl && InLockOrder(stream) && Prompt(maxDelay, stream)
    requires EndsAccepted(limits, stream)
    requires stream[|stream| - 1].usedAt <= stream[|stream| - 1].body.timestamp + maxDelay
    ensures var first := stream[|stream| - 1];
            var longer := stream + [Repeat(limits.ttl, first)];
            && InLockOrder(longer) && Prompt(maxDelay, longer)
            && Acceptances(limits, Calls(limits.ttl, longer), first.body)
               == Acceptances(limits, Calls(limits.ttl, stream), first.body) + [first.usedAt + limits.ttl]
  {
    RepeatPrompt(limits.ttl, maxDelay, stream);
    NextUseAccepted(limits, stream, Repeat(limits.ttl, stream[|stream| - 1]));
  }

  // ----- When a second use can be let through -----

  lemma {:induction false} AcceptancesGrow(limits: Limits, stream: seq<Submission>, more: seq<Submission>, body: Body)
    ensures Acceptances(limits, Calls(limits.ttl, stream), body) <= Acceptances(limits, Calls(limits.ttl, stream + more), body)
  {
    if more == [] {
      assert stream + more == stream;
    } else {
      var before, last := more[..|more| - 1], more[|more| - 1];
      AcceptancesGrow(limits, stream, before, body);
      assert stream + more == (stream + before) + [last];
      if Reaches(limits.ttl, last) {
        StreamAppend(limits, stream + before, last, body);
      } else {
        CallsAppend(limits.ttl, stream + before, last);
      }
    }
  }

  ghost predicate Continuation(maxDelay: int, stream: seq<Submission>, more: seq<Submission>) {
    InLockOrder(stream + more) && Prompt(maxDelay, stream + more)
  }

  /** Some continuation lets the body through once more. */
  ghost predicate CanRepeat(limits: Limits, maxDelay: int, stream: seq<Submission>, body: Body) {
    exists more :: Continuation(maxDelay, stream, more) && LetsThroughMore(limits, stream, more, body)
  }

  ghost predicate LetsThroughMore(limits: Limits, stream: seq<Submission>, more: seq<Submission>, body: Body) {
    |Acceptances(limits, Calls(limits.ttl, stream + more), body)| > |Acceptances(limits, Calls(limits.ttl, stream), body)|
  }

  lemma {:induction false} ContinuationCalls(ttl: int, maxDelay: int, stream: seq<Submission>, more: seq<Submission>)
    requires Continuation(maxDelay, stream, more)
    ensures InLockOrder(Calls(ttl, stream + more)) && Prompt(maxDelay, Calls(ttl, stream + more))
  {
    CallsOfStream(ttl, stream + more);
  }

  /** An acceptance that comes late is the last of its body. */
  lemma {:induction false} LateIsLast(limits: Limits, maxDelay: int, stream: seq<Submission>, more: seq<Submission>, body: Body)
    requires 0 <= maxDelay < limits.ttl && Continuation(maxDelay, stream, more)
    requires var times := Acceptances(limits, Calls(limits.ttl, stream), body);
             times != [] && body.timestamp + maxDelay < times[|times| - 1]
    ensures !LetsThroughMore(limits, stream, more, body)
  {
    var n := |Acceptances(limits, Calls(limits.ttl, stream), body)|;
    var times := Acceptances(limits, Calls(limits.ttl, stream + more), body);
    AcceptancesGrow(limits, stream, more, body);
    ContinuationCalls(limits.ttl, maxDelay, stream, more);
    AcceptancesSpaced(limits, Calls(limits.ttl, stream + more), body);
    forall t | t in times ensures t <= body.timestamp + limits.ttl + maxDelay {
      AcceptancesConfined(limits, maxDelay, stream + more, body, t);
    }
    var rest := times[n - 1..];
    assert forall i | 0 <= i < |rest| :: rest[i] == times[n - 1 + i];
    assert forall t | t in rest :: t in times;
    FewSpaced(limits.ttl, rest, body.timestamp + limits.ttl + maxDelay, 1);
  }

  lemma {:induction false} EndIsLastTime(limits: Limits, stream: seq<Submission>)
    requires EndsAccepted(limits, stream)
    ensures var last := stream[|stream| - 1];
            var times := Acceptances(limits, Calls(limits.ttl, stream), last.body);
            times != [] && times[|times| - 1] == last.usedAt
  {
    var before, last := stream[..|stream| - 1], stream[|stream| - 1];
    assert stream == before + [last];
    CallsAppend(limits.ttl, before, last);
    AcceptancesAppend(limits, Calls(limits.ttl, before), last, last.body);
  }

  /**
   The condition is exact: after any acceptance, a body can be let through again if and only if that
   acceptance came no later than `maxDelay` after its timestamp.
   */
  lemma {:induction false} RepeatsExactly(limits: Limits, maxDelay: int, stream: seq<Submission>)
    requires 0 <= maxDelay < limits.ttl && InLockOrder(stream) && Prompt(maxDelay, stream)
    requires EndsAccepted(limits, stream)
    ensures var last := stream[|stream| - 1];
            CanRepeat(limits, maxDelay, stream, last.body) <==> last.usedAt <= last.body.timestamp + maxDelay
  {
    var last := stream[|stream| - 1];
    EndIsLastTime(limits, stream);
    if last.usedAt <= last.body.timestamp + maxDelay {
      EarlyAcceptanceRepeats(limits, maxDelay, stream);
      assert Continuation(maxDelay, stream, [Repeat(limits.ttl, last)]);
      assert LetsThroughMore(limits, stream, [Repeat(limits.ttl, last)], last.body);
    } else {
      forall more | Continuation(maxDelay, stream, more)
        ensures !LetsThroughMore(limits, stream, more, last.body)
      {
        LateIsLast(limits, maxDelay, stream, more, last.body);
      }
    }
  }

  function PromptUse(body: Body, at: int): Submission {
    Submission(body, at, at, true)
  }

  /** A first use at the earliest instant, then at the timestamp and at the latest. */
  function ThreeUses(ttl: int, body: Body): seq<Submission> {
    [PromptUse(body, body.timestamp - ttl), PromptUse(body, body.timestamp), PromptUse(body, body.timestamp + ttl)]
  }

  lemma {:induction false} ThreeUsesOrdered(ttl: int, body: Body)
    requires 0 < ttl
    ensures InLockOrder(ThreeUses(ttl, body)) && Prompt(0, ThreeUses(ttl, body))
    ensures Repeats(ttl, ThreeUses(ttl, body), body)
  {
  }

  lemma {:induction false} ThreeUsesReach(ttl: int, body: Body)
    requires 0 < ttl
    ensures forall i | 0 <= i < 3 :: Reaches(ttl, ThreeUses(ttl, body)[i])
    ensures TimesOf(ThreeUses(ttl, body)) == [body.timestamp - ttl, body.timestamp, body.timestamp + ttl]
  {
  }

  /** Three is reached, with no delay at all between the two clock readings. */
  lemma {:induction false} ThreeAcceptances(limits: Limits, body: Body)
    requires 0 < limits.ttl && limits.maximum > 0
    ensures InLockOrder(ThreeUses(limits.ttl, body)) && Prompt(0, ThreeUses(limits.ttl, body))
    ensures Acceptances(limits, Calls(limits.ttl, ThreeUses(limits.ttl, body)), body)
         == [body.timestamp - limits.ttl, body.timestamp, body.timestamp + limits.ttl]
  {
    ThreeUsesOrdered(limits.ttl, body);
    ThreeUsesReach(limits.ttl, body);
    AllReach(limits.ttl, ThreeUses(limits.ttl, body));
    StreamAccepted(limits, ThreeUses(limits.ttl, body), body);
  }

  lemma {:induction false} StreamAccepted(limits: Limits, stream: seq<Submission>, body: Body)
    requires limits.maximum > 0 && Repeats(limits.ttl, stream, body) && Calls(limits.ttl, stream) == stream
    ensures Acceptances(limits, Calls(limits.ttl, stream), body) == TimesOf(stream)
  {
    EachAccepted(limits, stream, body);
  }

  lemma {:induction false} AllReach(ttl: int, stream: seq<Submission>)
    requires forall i | 0 <= i < |stream| :: Reaches(ttl, stream[i])
    ensures Calls(ttl, stream) == stream
  {
    if stream != [] {
      AllReach(ttl, stream[..|stream| - 1]);
      assert stream == stream[..|stream| - 1] + [stream[|stream| - 1]];
    }
  }

  function TimesOf(calls: seq<Submission>): seq<int> {
    seq(|calls|, i requires 0 <= i < |calls| => calls[i].usedAt)
  }

  ghost function CacheAfter(limits: Limits, calls: seq<Submission>): Entries {
    EntriesAfter(limits.ttl, limits.maximum, Log(limits, calls))
  }

  /** The replay cache after one more call. */
  lemma {:induction false} LogStep(limits: Limits, calls: seq<Submission>, last: Submission)
    ensures CacheAfter(limits, calls + [last])
         == Used(CacheAfter(limits, calls), limits.ttl, limits.maximum, Key(limits.digest, last.body), last.usedAt)
  {
    var before := Log(limits, calls);
    assert (calls + [last])[..|calls|] == calls;
    assert Log(limits, calls + [last])[..|before|] == before;
  }

  /** One entry that has expired, or none, leaves room. */
  lemma {:induction false} ExpiredEntry(entries: Entries, ttl: int, maximum: int, key: string, now: int)
    requires maximum > 0 && (forall k | k in entries :: entries[k] <= now)
    ensures Accepts(entries, maximum, key, now) && Used(entries, ttl, maximum, key, now) == map[key := now + ttl]
  {
    assert Pruned(entries, now) == map[];
  }

  /** Uses of one body, each at least `ttl` after the one before. */
  ghost predicate Repeats(ttl: int, calls: seq<Submission>, body: Body) {
    && (forall i | 0 <= i < |calls| :: calls[i].body == body)
    && forall i | 0 < i < |calls| :: calls[i - 1].usedAt + ttl <= calls[i].usedAt
  }

  lemma {:induction false} RepeatsPrefix(ttl: int, calls: seq<Submission>, body: Body)
    requires calls != [] && Repeats(ttl, calls, body)
    ensures Repeats(ttl, calls[..|calls| - 1], body)
  {
  }

  lemma {:induction false} CacheOfRepeats(limits: Limits, calls: seq<Submission>, body: Body)
    requires limits.maximum > 0 && Repeats(limits.ttl, calls, body)
    ensures CacheAfter(limits, calls)
         == if calls == [] then map[] else map[Key(limits.digest, body) := calls[|calls| - 1].usedAt + limits.ttl]
  {
    if calls != [] {
      var before, last := calls[..|calls| - 1], calls[|calls| - 1];
      RepeatsPrefix(limits.ttl, calls, body);
      CacheOfRepeats(limits, before, body);
      assert calls == before + [last];
      CacheRenewed(limits, before, last);
    }
  }

  lemma {:induction false} CacheRenewed(limits: Limits, before: seq<Submission>, last: Submission)
    requires limits.maximum > 0 && forall k | k in CacheAfter(limits, before) :: CacheAfter(limits, before)[k] <= last.usedAt
    ensures CacheAfter(limits, before + [last]) == map[Key(limits.digest, last.body) := last.usedAt + limits.ttl]
  {
    LogStep(limits, before, last);
    ExpiredEntry(CacheAfter(limits, before), limits.ttl, limits.maximum, Key(limits.digest, last.body), last.usedAt);
  }

  /** They are all accepted: the entry of one is gone at the next. */
  lemma {:induction false} EachAccepted(limits: Limits, calls: seq<Submission>, body: Body)
    requires limits.maximum > 0 && Repeats(limits.ttl, calls, body)
    ensures Acceptances(limits, calls, body) == TimesOf(calls)
  {
    if calls != [] {
      var before, last := calls[..|calls| - 1], calls[|calls| - 1];
      RepeatsPrefix(limits.ttl, calls, body);
      EachAccepted(limits, before, body);
      CacheOfRepeats(limits, before, body);
      ExpiredEntry(CacheAfter(limits, before), limits.ttl, limits.maximum, Key(limits.digest, body), last.usedAt);
      assert Accepted(limits, calls, |calls| - 1);
      assert TimesOf(calls) == TimesOf(before) + [last.usedAt];
    }
  }
}
