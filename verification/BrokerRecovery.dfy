/**
 Recovery. While nothing fails, every request that enters the critical section succeeds, whatever
 failed before: a recorded accessor that is long dead still revokes successfully. And there is
 always a way on: the holder of `operationMu` can finish, after which any admitted request can.
 */
module BrokerRecovery {
  import opened Strings
  import opened Requests
  import opened Nonces
  import opened StateCodec
  import opened Broker
  import opened BrokerInvariant
  import opened BrokerSequential

  predicate FaultFree(l: Label) {
    match l
    case RevokeFailed(_, _) => false
    case IssueRefused(_) => false
    case IssueLost(_) => false
    case SealFailed(_) => false
    case PersistFailed(_) => false
    case UndoFailed(_, _) => false
    case Crash => false
    case _ => true
  }

  ghost predicate FaultFreeRun(run: Run) {
    forall i | 0 <= i < |run| :: FaultFree(run[i])
  }

  // ----- Everything that happens without faults is success -----

  ghost predicate OnCourse(s: State) {
    s.lock.Some? && s.lock.value in s.threads ==> !s.threads[s.lock.value].pc.Undoing?
  }

  ghost predicate Successes(h: seq<Record>, from: nat) {
    forall i | from <= i < |h| :: h[i].reply == Some(SuccessOf(h[i].operation))
  }

  ghost predicate StaysOnCourse(s: State, next: State) {
    && OnCourse(next)
    && (next.history == s.history
        || exists r :: next.history == s.history + [r] && r.reply == Some(SuccessOf(r.operation)))
  }

  lemma {:induction false} ElsewhereOnCourse(s: State, next: State)
    requires OnCourse(s) && next.history == s.history && next.lock == s.lock
    requires s.lock.Some? && s.lock.value in next.threads ==>
               s.lock.value in s.threads && next.threads[s.lock.value] == s.threads[s.lock.value]
    ensures StaysOnCourse(s, next)
  {
  }

  lemma {:induction false} CheckOnCourse(c: System, s: State, id: Id, now: int)
    requires Core(s) && OnCourse(s) && At(s, id) && s.threads[id].pc.Received?
    ensures StaysOnCourse(s, CheckStep(c, s, id, now))
  {
    ElsewhereOnCourse(s, CheckStep(c, s, id, now));
  }

  lemma {:induction false} UsedOnCourse(s: State, id: Id, nonces: Entries)
    requires Core(s) && OnCourse(s) && At(s, id) && s.threads[id].pc.Validated?
    ensures StaysOnCourse(s, Goto(s.(nonces := nonces), id, Waiting, NO_ANSWERS))
    ensures StaysOnCourse(s, Reject(s.(nonces := nonces), id))
  {
    ElsewhereOnCourse(s, Goto(s.(nonces := nonces), id, Waiting, NO_ANSWERS));
    ElsewhereOnCourse(s, Reject(s.(nonces := nonces), id));
  }

  lemma {:induction false} AdmitOnCourse(c: System, s: State, id: Id, signed: bool, now: int)
    requires Core(s) && OnCourse(s) && At(s, id) && s.threads[id].pc.Validated?
    ensures StaysOnCourse(s, AdmitStep(c, s, id, signed, now))
  {
    UsedOnCourse(s, id, s.nonces);
    UsedOnCourse(s, id, Used(s.nonces, c.config.ttl, c.config.maximum, NonceKey(c, s.threads[id].request), now));
    assert s.(nonces := s.nonces) == s;
  }

  lemma {:induction false} OutsideOnCourse(c: System, s: State, l: Label)
    requires Core(s) && OnCourse(s) && Enabled(c, s, l) && (l.Check? || l.Admit?)
    ensures StaysOnCourse(s, Step(c, s, l))
  {
    if l.Check? { CheckOnCourse(c, s, l.id, l.now); } else { AdmitOnCourse(c, s, l.id, l.signed, l.now); }
  }

  lemma {:induction false} QuietOnCourse(c: System, s: State, l: Label)
    requires Core(s) && OnCourse(s) && Enabled(c, s, l)
    requires l.Arrive? || l.LateToken? || l.Expire? || l.Restart?
    ensures StaysOnCourse(s, Step(c, s, l))
  {
    ElsewhereOnCourse(s, Step(c, s, l));
  }

  lemma {:induction false} VaultOnCourse(c: System, s: State, l: Label)
    requires Core(s) && OnCourse(s) && Enabled(c, s, l)
    requires l.Acquire? || l.Look? || l.RevokeDone? || l.IssueDone? || l.SealDone?
    ensures StaysOnCourse(s, Step(c, s, l))
  {
    assert !l.Acquire? ==> s.lock == Some(l.id);
  }

  lemma {:induction false} StoreOnCourse(c: System, s: State, l: Label)
    requires Core(s) && OnCourse(s) && Enabled(c, s, l)
    requires l.BeginStore? || l.Rename? || l.Reply? || l.UndoDone?
    ensures StaysOnCourse(s, Step(c, s, l))
  {
    assert s.lock == Some(l.id);
  }

  lemma {:induction false} StepOnCourse(c: System, s: State, l: Label)
    requires Core(s) && OnCourse(s) && Enabled(c, s, l) && FaultFree(l)
    ensures StaysOnCourse(s, Step(c, s, l))
  {
    if l.Check? || l.Admit? {
      OutsideOnCourse(c, s, l);
    } else if l.Arrive? || l.LateToken? || l.Expire? || l.Restart? {
      QuietOnCourse(c, s, l);
    } else if l.BeginStore? || l.Rename? || l.Reply? || l.UndoDone? {
      StoreOnCourse(c, s, l);
    } else {
      VaultOnCourse(c, s, l);
    }
  }

  /**
   From any reachable state with `operationMu` free, every section that finishes in a fault-free
   continuation answers 200 or 204.
   */
  lemma {:induction false} FaultFreeSuccess(c: System, start: State, run: Run)
    requires c.WellFormed() && Invariant(c, start) && start.lock.None?
    requires Legal(c, start, run) && FaultFreeRun(run)
    ensures var s := After(c, start, run);
            OnCourse(s) && |start.history| <= |s.history| && Successes(s.history, |start.history|)
  {
    if run != [] {
      var before, l := run[..|run| - 1], run[|run| - 1];
      assert forall i | 0 <= i < |before| :: before[i] == run[i];
      FaultFreeSuccess(c, start, before);
      RunKeeps(c, start, before);
      StepOnCourse(c, After(c, start, before), l);
    }
  }

  // ----- There is always a way on -----

  function Rank(pc: Pc): nat {
    match pc
    case Received => 12
    case Validated => 11
    case Waiting => 10
    case Looking => 9
    case Revoking(_) => 8
    case Issuing => 7
    case Sealing(_) => 6
    case Storing(_) => 5
    case Dropping => 5
    case Persisting(_, _) => 4
    case Committed => 3
    case Undoing(_) => 2
  }

  /** The fault-free step of a thread in the critical section; Vault would make `a`. */
  function Onward(id: Id, pc: Pc, a: Accessor): Label {
    match pc
    case Looking => Look(id)
    case Revoking(_) => RevokeDone(id)
    case Issuing => IssueDone(id, a)
    case Sealing(_) => SealDone(id)
    case Storing(_) => BeginStore(id)
    case Dropping => BeginStore(id)
    case Persisting(_, _) => Rename(id)
    case Committed => Reply(id)
    case _ => UndoDone(id)
  }

  /** What a section does not touch: the replay cache, other threads, earlier records, other tokens' birth. */
  ghost predicate Aside(s: State, next: State, id: Id, a: Accessor) {
    && next.nonces == s.nonces && next.expired == s.expired && next.threads - {id} == s.threads - {id}
    && s.history <= next.history && next.created.Keys <= s.created.Keys + {a}
  }

  /** The section of `id` ended with its record, or `id` holds the lock at a lower rank. */
  ghost predicate Nearer(s: State, next: State, id: Id, a: Accessor)
    requires id in s.threads
  {
    && next.up && Aside(s, next, id, a)
    && if next.lock.None? then
         |next.history| == |s.history| + 1 && next.history[|s.history|].id == id
         && next.history[|s.history|].key == s.threads[id].key
         && next.history[|s.history|].operation == s.threads[id].request.operation
         && next.history[|s.history|].entry == s.threads[id].entry
       else
         next.lock == Some(id) && id in next.threads && next.history == s.history
         && next.threads[id].request == s.threads[id].request && next.threads[id].key == s.threads[id].key
         && next.threads[id].entry == s.threads[id].entry
         && Rank(next.threads[id].pc) < Rank(s.threads[id].pc)
         && (Rank(next.threads[id].pc) >= 7 ==> next.created == s.created)
  }

  ghost predicate Ready(s: State, id: Id, a: Accessor) {
    s.up && s.lock == Some(id) && id in s.threads && (Rank(s.threads[id].pc) >= 7 ==> FreshAccessor(s, a))
  }

  lemma {:induction false} OnwardEnabled(c: System, s: State, id: Id, a: Accessor)
    requires Core(s) && Ready(s, id, a)
    ensures Enabled(c, s, Onward(id, s.threads[id].pc, a))
  {
    var t := s.threads[id];
    assert InCritical(t.pc);
    if t.pc.Revoking? {
      assert s.disk[t.key] == t.pc.previous;
    }
  }

  lemma {:induction false} GotoNearer(s: State, told: State, id: Id, a: Accessor, pc: Pc, world: World)
    requires At(s, id) && s.lock == Some(id) && told.lock == s.lock && told.up && Aside(s, told, id, a)
    requires told.threads == s.threads && told.history == s.history && Rank(pc) < Rank(s.threads[id].pc)
    requires Rank(pc) >= 7 ==> told.created == s.created
    ensures Nearer(s, Goto(told, id, pc, world), id, a)
  {
  }

  lemma {:induction false} FinishNearer(s: State, told: State, id: Id, a: Accessor, world: World, status: Status)
    requires At(s, id) && told.threads == s.threads && told.history == s.history && told.up && Aside(s, told, id, a)
    ensures Nearer(s, Finish(told, id, world, status), id, a)
  {
  }

  lemma {:induction false} LookNearer(s: State, id: Id, a: Accessor)
    requires Core(s) && At(s, id) && s.lock == Some(id) && s.threads[id].pc.Looking?
    ensures Nearer(s, LookStep(s, id), id, a)
  {
    var t := s.threads[id];
    var accessor := Lookup(s.memory, t.key);
    if accessor != "" {
      GotoNearer(s, s, id, a, Revoking(accessor), t.world);
    } else if t.request.operation.Issue? {
      GotoNearer(s, s, id, a, Issuing, t.world);
    } else {
      FinishNearer(s, s, id, a, t.world, NoContent);
    }
  }

  lemma {:induction false} RevokeNearer(s: State, id: Id, a: Accessor)
    requires Core(s) && At(s, id) && s.lock == Some(id) && s.threads[id].pc.Revoking?
    ensures Nearer(s, RevokeStep(s, id, Acknowledged), id, a)
  {
    var t := s.threads[id];
    GotoNearer(s, Kill(s, t.pc.previous), id, a, if t.request.operation.Issue? then Issuing else Dropping, t.world.(revoke := Acknowledged));
  }

  lemma {:induction false} IssueNearer(s: State, id: Id, a: Accessor)
    requires Core(s) && At(s, id) && s.lock == Some(id) && s.threads[id].pc.Issuing?
    ensures Nearer(s, IssueDoneStep(s, id, a), id, a)
  {
    var t := s.threads[id];
    GotoNearer(s, Create(s, t.key, a), id, a, Sealing(a), t.world.(issue := Issued(a)));
  }

  lemma {:induction false} SealNearer(s: State, id: Id, a: Accessor)
    requires Core(s) && At(s, id) && s.lock == Some(id) && s.threads[id].pc.Sealing?
    ensures Nearer(s, SealDoneStep(s, id), id, a)
  {
    var t := s.threads[id];
    GotoNearer(s, s, id, a, Storing(t.pc.accessor), t.world.(sealed := true));
  }

  lemma {:induction false} BeginStoreNearer(s: State, id: Id, a: Accessor)
    requires Core(s) && At(s, id) && s.lock == Some(id) && (s.threads[id].pc.Storing? || s.threads[id].pc.Dropping?)
    ensures Nearer(s, BeginStoreStep(s, id), id, a)
  {
  }

  lemma {:induction false} RenameNearer(s: State, id: Id, a: Accessor)
    requires Core(s) && At(s, id) && s.lock == Some(id) && s.threads[id].pc.Persisting?
    ensures Nearer(s, RenameStep(s, id), id, a)
  {
  }

  lemma {:induction false} UndoNearer(s: State, id: Id, a: Accessor)
    requires Core(s) && At(s, id) && s.lock == Some(id) && s.threads[id].pc.Undoing?
    ensures Nearer(s, UndoStep(s, id, Acknowledged), id, a)
  {
    var t := s.threads[id];
    FinishNearer(s, Kill(s, t.pc.accessor), id, a, t.world.(undo := Acknowledged), ServerError);
  }

  lemma {:induction false} ReplyNearer(s: State, id: Id, a: Accessor)
    requires Core(s) && At(s, id) && s.lock == Some(id) && s.threads[id].pc.Committed?
    ensures var t := s.threads[id];
            Nearer(s, Finish(s.(storeLock := None), id, t.world, SuccessOf(t.request.operation)), id, a)
  {
    var t := s.threads[id];
    FinishNearer(s, s.(storeLock := None), id, a, t.world, SuccessOf(t.request.operation));
  }

  lemma {:induction false} VaultNearer(c: System, s: State, id: Id, a: Accessor)
    requires Core(s) && Ready(s, id, a) && Enabled(c, s, Onward(id, s.threads[id].pc, a))
    requires s.threads[id].pc.Looking? || s.threads[id].pc.Revoking?
    ensures Nearer(s, Step(c, s, Onward(id, s.threads[id].pc, a)), id, a)
  {
    if s.threads[id].pc.Looking? { LookNearer(s, id, a); } else { RevokeNearer(s, id, a); }
  }

  lemma {:induction false} TokenNearer(c: System, s: State, id: Id, a: Accessor)
    requires Core(s) && Ready(s, id, a) && Enabled(c, s, Onward(id, s.threads[id].pc, a))
    requires s.threads[id].pc.Issuing? || s.threads[id].pc.Sealing?
    ensures Nearer(s, Step(c, s, Onward(id, s.threads[id].pc, a)), id, a)
  {
    if s.threads[id].pc.Issuing? { IssueNearer(s, id, a); } else { SealNearer(s, id, a); }
  }

  lemma {:induction false} StoreNearer(c: System, s: State, id: Id, a: Accessor)
    requires Core(s) && Ready(s, id, a) && Enabled(c, s, Onward(id, s.threads[id].pc, a))
    requires s.threads[id].pc.Storing? || s.threads[id].pc.Dropping?
    ensures Nearer(s, Step(c, s, Onward(id, s.threads[id].pc, a)), id, a)
  {
    BeginStoreNearer(s, id, a);
  }

  lemma {:induction false} CommitNearer(c: System, s: State, id: Id, a: Accessor)
    requires Core(s) && Ready(s, id, a) && Enabled(c, s, Onward(id, s.threads[id].pc, a))
    requires s.threads[id].pc.Persisting? || s.threads[id].pc.Committed?
    ensures Nearer(s, Step(c, s, Onward(id, s.threads[id].pc, a)), id, a)
  {
    if s.threads[id].pc.Persisting? { RenameNearer(s, id, a); } else { ReplyNearer(s, id, a); }
  }

  lemma {:induction false} UndoingNearer(c: System, s: State, id: Id, a: Accessor)
    requires Core(s) && Ready(s, id, a) && Enabled(c, s, Onward(id, s.threads[id].pc, a))
    requires s.threads[id].pc.Undoing?
    ensures Nearer(s, Step(c, s, Onward(id, s.threads[id].pc, a)), id, a)
  {
    UndoNearer(s, id, a);
  }

  lemma {:induction false} OnwardNearer(c: System, s: State, id: Id, a: Accessor)
    requires Core(s) && Ready(s, id, a) && Enabled(c, s, Onward(id, s.threads[id].pc, a))
    ensures Nearer(s, Step(c, s, Onward(id, s.threads[id].pc, a)), id, a)
  {
    var pc := s.threads[id].pc;
    assert InCritical(pc);
    if pc.Looking? || pc.Revoking? {
      VaultNearer(c, s, id, a);
    } else if pc.Issuing? || pc.Sealing? {
      TokenNearer(c, s, id, a);
    } else if pc.Storing? || pc.Dropping? {
      StoreNearer(c, s, id, a);
    } else if pc.Persisting? || pc.Committed? {
      CommitNearer(c, s, id, a);
    } else {
      UndoingNearer(c, s, id, a);
    }
  }

  /** The section of `id` has ended with one more record, of its key and operation, and with nothing else changed. */
  ghost predicate Drained(before: State, s: State, id: Id, a: Accessor)
    requires id in before.threads
  {
    && s.up && s.lock.None? && Aside(before, s, id, a)
    && |s.history| == |before.history| + 1
    && s.history[|before.history|].id == id
    && s.history[|before.history|].key == before.threads[id].key
    && s.history[|before.history|].operation == before.threads[id].request.operation
    && s.history[|before.history|].entry == before.threads[id].entry
  }

  lemma {:induction false} DrainedSooner(s: State, next: State, last: State, id: Id, a: Accessor)
    requires id in s.threads && Nearer(s, next, id, a)
    requires if next.lock.None? then last == next else id in next.threads && Drained(next, last, id, a)
    ensures Drained(s, last, id, a)
  {
  }

  lemma {:induction false} Extend(c: System, start: State, run: Run, l: Label) returns (longer: Run)
    requires Legal(c, start, run) && FaultFreeRun(run) && Enabled(c, After(c, start, run), l) && FaultFree(l)
    ensures longer == run + [l] && Legal(c, start, longer) && FaultFreeRun(longer)
    ensures After(c, start, longer) == Step(c, After(c, start, run), l)
  {
    longer := run + [l];
    assert longer[..|longer| - 1] == run;
  }

  lemma {:induction false} OneOnward(c: System, start: State, sofar: Run, id: Id, a: Accessor) returns (run: Run)
    requires c.WellFormed() && Invariant(c, start) && Legal(c, start, sofar) && FaultFreeRun(sofar)
    requires Ready(After(c, start, sofar), id, a)
    ensures Legal(c, start, run) && FaultFreeRun(run)
    ensures Nearer(After(c, start, sofar), After(c, start, run), id, a)
  {
    var s := After(c, start, sofar);
    RunKeeps(c, start, sofar);
    OnwardEnabled(c, s, id, a);
    OnwardNearer(c, s, id, a);
    run := Extend(c, start, sofar, Onward(id, s.threads[id].pc, a));
  }

  /** The holder of the lock runs to its end without a fault. */
  lemma {:induction false} Drain(c: System, start: State, sofar: Run, id: Id, a: Accessor) returns (run: Run)
    requires c.WellFormed() && Invariant(c, start) && Legal(c, start, sofar) && FaultFreeRun(sofar)
    requires Ready(After(c, start, sofar), id, a)
    ensures Legal(c, start, run) && FaultFreeRun(run)
    ensures Drained(After(c, start, sofar), After(c, start, run), id, a)
    decreases Rank(After(c, start, sofar).threads[id].pc)
  {
    var s := After(c, start, sofar);
    run := OneOnward(c, start, sofar, id, a);
    var next := After(c, start, run);
    if next.lock.Some? {
      run := Drain(c, start, run, id, a);
    }
    DrainedSooner(s, next, After(c, start, run), id, a);
  }

  /** Whatever the holder is doing, the lock can become free again without a fault. */
  lemma {:induction false} LockCanBeFreed(c: System, s: State, a: Accessor) returns (run: Run)
    requires c.WellFormed() && Invariant(c, s) && s.up && FreshAccessor(s, a)
    ensures Legal(c, s, run) && FaultFreeRun(run)
    ensures var free := After(c, s, run);
            && free.up && free.lock.None? && free.nonces == s.nonces
            && free.threads.Keys <= s.threads.Keys && free.created.Keys <= s.created.Keys + {a}
  {
    run := [];
    if s.lock.Some? {
      var id := s.lock.value;
      run := Drain(c, s, [], id, a);
      var free := After(c, s, run);
      forall k | k in free.threads ensures k in s.threads {
        if k != id { assert k in free.threads - {id}; }
      }
    }
  }

  /** What a successful operation leaves: its lease, and every other lease as it was `before`. */
  ghost predicate Served(before: Leases, s: State, operation: Operation, key: string) {
    && s.memory == s.disk && s.disk - {key} == before - {key}
    && (operation.Issue? ==>
          key in s.disk && Get(s.created, s.disk[key]) == Some(key) && s.disk[key] in s.live)
    && (operation.Revoke? ==> key !in s.disk)
  }

  /** The one section between `before` and `s` was of `id`, answered success and did what success means. */
  ghost predicate Success(before: State, s: State, id: Id, operation: Operation, key: string) {
    && s.up && s.lock.None? && |s.history| == |before.history| + 1
    && s.history[|before.history|].id == id && s.history[|before.history|].key == key
    && s.history[|before.history|].reply == Some(SuccessOf(operation))
    && Served(before.disk, s, operation, key)
  }

  /**
   Main result: from every reachable state with the lock free, an admitted issue can go to its 200
   with the key recorded, and an admitted revoke to its 204 with the key gone.
   */
  lemma {:induction false} AdmittedRequestSucceeds(c: System, start: State, sofar: Run, id: Id, a: Accessor) returns (run: Run)
    requires c.WellFormed() && Invariant(c, start) && Ordered(start) && Sequential(start.history)
    requires start.lock.None? && Legal(c, start, sofar) && FaultFreeRun(sofar)
    requires var s := After(c, start, sofar);
             && At(s, id) && s.threads[id].pc.Waiting? && s.lock.None? && FreshAccessor(s, a)
    ensures Legal(c, start, run) && FaultFreeRun(run)
    ensures var before, s := After(c, start, sofar), After(c, start, run);
            var t := before.threads[id];
            Success(before, s, id, t.request.operation, t.key) && Aside(before, s, id, a)
  {
    var before := After(c, start, sofar);
    run := AcquireAndDrain(c, start, sofar, id, a);
    var s := After(c, start, run);
    HistoryGrows(c, start, sofar);
    LastSucceeds(c, start, run, |before.history|);
    OrderedOnwards(c, start, sofar);
    OrderedOnwards(c, start, run);
    RunKeeps(c, start, sofar);
    RunKeeps(c, start, run);
    LastDecides(before, s);
  }

  lemma {:induction false} AcquireAndDrain(c: System, start: State, sofar: Run, id: Id, a: Accessor) returns (run: Run)
    requires c.WellFormed() && Invariant(c, start) && Legal(c, start, sofar) && FaultFreeRun(sofar)
    requires var s := After(c, start, sofar);
             At(s, id) && s.threads[id].pc.Waiting? && s.lock.None? && FreshAccessor(s, a)
    ensures Legal(c, start, run) && FaultFreeRun(run)
    ensures var before, s := After(c, start, sofar), After(c, start, run);
            && |s.history| == |before.history| + 1 && s.up && s.lock.None? && Aside(before, s, id, a)
            && var r := s.history[|before.history|];
               r.id == id && r.key == before.threads[id].key && r.operation == before.threads[id].request.operation
               && r.entry == Now(before)
  {
    var before := After(c, start, sofar);
    var locked := Extend(c, start, sofar, Acquire(id));
    assert After(c, start, locked) == AcquireStep(before, id);
    run := Drain(c, start, locked, id, a);
    assert AcquireStep(before, id).threads - {id} == before.threads - {id};
  }

  lemma {:induction false} HistoryGrows(c: System, start: State, run: Run)
    requires c.WellFormed() && Invariant(c, start) && start.lock.None? && Legal(c, start, run) && FaultFreeRun(run)
    ensures |start.history| <= |After(c, start, run).history|
  {
    FaultFreeSuccess(c, start, run);
  }

  lemma {:induction false} LastSucceeds(c: System, start: State, run: Run, n: nat)
    requires c.WellFormed() && Invariant(c, start) && start.lock.None? && Legal(c, start, run) && FaultFreeRun(run)
    requires |start.history| <= n < |After(c, start, run).history|
    ensures var r := After(c, start, run).history[n]; r.reply == Some(SuccessOf(r.operation))
  {
    FaultFreeSuccess(c, start, run);
  }

  lemma {:induction false} OrderedOnwards(c: System, start: State, run: Run)
    requires c.WellFormed() && Invariant(c, start) && Ordered(start) && Sequential(start.history)
    requires Legal(c, start, run)
    ensures Ordered(After(c, start, run)) && Sequential(After(c, start, run).history)
  {
    if run != [] {
      var before := run[..|run| - 1];
      OrderedOnwards(c, start, before);
      RunKeeps(c, start, before);
      StepOrdered(c, After(c, start, before), run[|run| - 1]);
      ExtendedSequential(After(c, start, before).history, After(c, start, run).history);
    }
  }

  /** With the lock free, the last record tells what the section it ended has left. */
  lemma {:induction false} LastDecides(before: State, s: State)
    requires Ordered(before) && before.lock.None?
    requires Core(s) && Ordered(s) && Sequential(s.history) && s.up && s.lock.None?
    requires before.history <= s.history && |s.history| == |before.history| + 1
    requires before.expired == s.expired && before.expired <= before.created.Keys
    requires var r := s.history[|before.history|]; r.reply == Some(SuccessOf(r.operation)) && r.entry == Now(before)
    ensures var r := s.history[|before.history|]; Served(before.disk, s, r.operation, r.key)
  {
    var r := s.history[|before.history|];
    assert s.history[..|s.history| - 1] == before.history;
    assert Conforms(r) && r.entry.leases == before.disk && s.disk == r.exit.leases;
    if r.operation.Issue? {
      StillAlive(r, s);
    }
  }

  lemma {:induction false} StillAlive(r: Record, s: State)
    requires Conforms(r) && r.operation.Issue? && r.reply == Some(OK) && Follows(r.exit, Now(s)) && Core(s)
    ensures var a := r.world.issue.accessor;
            r.exit.leases == r.entry.leases[r.key := a] && Get(s.created, a) == Some(r.key) && a in s.live + s.expired
  {
    IssueOK(r);
    var a := r.world.issue.accessor;
    assert s.disk[r.key] == a;
  }

  // ----- A new request -----

  function Arrived(c: System, request: Request, pc: Pc): Thread {
    Thread(request, KeyOf(c.config, request), pc, NOTHING, NO_ANSWERS)
  }

  /** The three steps in front of the lock, taken by a new thread. */
  lemma {:induction false} ArrivalSteps(c: System, s: State, id: Id, request: Request, now: int)
    requires Valid(c.config, request, now) && Accepts(s.nonces, c.config.maximum, NonceKey(c, request), now)
    ensures var arrived := s.(threads := s.threads[id := Arrived(c, request, Received)]);
            CheckStep(c, arrived, id, now) == s.(threads := s.threads[id := Arrived(c, request, Validated)])
    ensures var checked := s.(threads := s.threads[id := Arrived(c, request, Validated)]);
            var used := Used(s.nonces, c.config.ttl, c.config.maximum, NonceKey(c, request), now);
            AdmitStep(c, checked, id, true, now) == s.(nonces := used, threads := s.threads[id := Arrived(c, request, Waiting)])
  {
  }

  /** A new thread with this request waits for the lock, and its nonce is used. */
  ghost function Admitted(c: System, s: State, id: Id, request: Request, now: int): State {
    s.(nonces := Used(s.nonces, c.config.ttl, c.config.maximum, NonceKey(c, request), now),
       threads := s.threads[id := Arrived(c, request, Waiting)])
  }

  /** A valid, signed request with an unused nonce, and room in the cache, is admitted. */
  lemma {:induction false} ArrivalAdmits(c: System, start: State, sofar: Run, id: Id, request: Request, now: int) returns (run: Run)
    requires Legal(c, start, sofar) && FaultFreeRun(sofar)
    requires var s := After(c, start, sofar);
             && s.up && id !in s.threads && Valid(c.config, request, now)
             && Accepts(s.nonces, c.config.maximum, NonceKey(c, request), now)
    ensures run == sofar + [Arrive(id, request)] + [Check(id, now)] + [Admit(id, true, now)]
    ensures Legal(c, start, run) && FaultFreeRun(run)
    ensures After(c, start, run) == Admitted(c, After(c, start, sofar), id, request, now)
  {
    var s := After(c, start, sofar);
    ArrivalSteps(c, s, id, request, now);
    run := Extend(c, start, sofar, Arrive(id, request));
    assert After(c, start, run) == s.(threads := s.threads[id := Arrived(c, request, Received)]);
    run := Extend(c, start, run, Check(id, now));
    assert After(c, start, run) == s.(threads := s.threads[id := Arrived(c, request, Validated)]);
    run := Extend(c, start, run, Admit(id, true, now));
  }

  lemma {:induction false} RunStep(c: System, s: State, run: Run, l: Label)
    ensures Legal(c, s, run + [l]) <==> Legal(c, s, run) && Enabled(c, After(c, s, run), l)
    ensures Legal(c, s, run + [l]) ==> After(c, s, run + [l]) == Step(c, After(c, s, run), l)
  {
    assert (run + [l])[..|run|] == run;
  }

  lemma {:induction false} RunsCompose(c: System, s: State, first: Run, second: Run)
    requires Legal(c, s, first) && Legal(c, After(c, s, first), second)
    ensures Legal(c, s, first + second) && After(c, s, first + second) == After(c, After(c, s, first), second)
  {
    if second == [] {
      assert first + second == first;
    } else {
      var init, l := second[..|second| - 1], second[|second| - 1];
      assert second == init + [l] && first + second == (first + init) + [l];
      RunStep(c, After(c, s, first), init, l);
      RunsCompose(c, s, first, init);
      RunStep(c, s, first + init, l);
    }
  }

  lemma {:induction false} FaultFreeTogether(first: Run, second: Run)
    requires FaultFreeRun(first) && FaultFreeRun(second)
    ensures FaultFreeRun(first + second)
  {
  }

  /**
   Main result: from every reachable state in which the broker is up, whatever any other request is
   doing, a new valid and signed request with an unused nonce can be served, without a fault.
   */
  lemma {:induction false} NewRequestServed(c: System, s: State, id: Id, request: Request, now: int, a: Accessor, b: Accessor)
    returns (freeing: Run, run: Run)
    requires c.WellFormed() && Invariant(c, s) && Ordered(s) && Sequential(s.history) && s.up
    requires id !in s.threads && Valid(c.config, request, now)
    requires Accepts(s.nonces, c.config.maximum, NonceKey(c, request), now)
    requires FreshAccessor(s, a) && FreshAccessor(s, b) && a != b
    ensures Legal(c, s, freeing) && Legal(c, s, freeing + run) && FaultFreeRun(freeing + run)
    ensures Success(After(c, s, freeing), After(c, s, freeing + run), id, request.operation, KeyOf(c.config, request))
  {
    freeing := LockCanBeFreed(c, s, a);
    var free := After(c, s, freeing);
    RunKeeps(c, s, freeing);
    OrderedOnwards(c, s, freeing);
    var admitted := ArrivalAdmits(c, free, [], id, request, now);
    run := AdmittedRequestSucceeds(c, free, admitted, id, b);
    RunsCompose(c, s, freeing, run);
    FaultFreeTogether(freeing, run);
  }

  /**
   After a crash, with a file the start accepts: restart, and one valid, signed request succeeds.
   The replay cache is empty, so its nonce is new.
   */
  lemma {:induction false} RestartServes(c: System, s: State, id: Id, request: Request, now: int, a: Accessor) returns (run: Run)
    requires c.WellFormed() && Invariant(c, s) && Ordered(s) && Sequential(s.history)
    requires !s.up && s.lock.None? && c.reload(s.disk).Some?
    requires Valid(c.config, request, now) && c.config.maximum > 0 && FreshAccessor(s, a)
    ensures Legal(c, s, run) && FaultFreeRun(run)
    ensures Success(s, After(c, s, run), id, request.operation, KeyOf(c.config, request))
    ensures After(c, s, run).created.Keys <= s.created.Keys + {a}
  {
    assert s.threads == map[];
    NewNonceAccepted(c.config.maximum, NonceKey(c, request), now);
    var restarted := Extend(c, s, [], Restart);
    assert After(c, s, restarted) == RestartStep(c, s);
    var admitted := ArrivalAdmits(c, s, restarted, id, request, now);
    run := AdmittedRequestSucceeds(c, s, admitted, id, a);
  }

  lemma {:induction false} NewNonceAccepted(maximum: int, key: string, now: int)
    requires maximum > 0
    ensures Accepts(map[], maximum, key, now)
  {
    assert Pruned(map[], now) == map[];
  }

  /** Every reachable state meets what the results above ask of their starting state. */
  lemma {:induction false} ReachableIsReady(c: System, run: Run)
    requires c.WellFormed() && Legal(c, INITIAL, run)
    ensures var s := After(c, INITIAL, run);
            && Invariant(c, s) && Ordered(s) && Sequential(s.history)
            && (!s.up ==> s.lock.None?)
  {
    RunOrdered(c, run);
  }
}
