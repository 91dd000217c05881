/**
 The interleaved broker refines a sequential one. `Sequentially` is an issue or a revoke as one
 atomic operation, a function of the state in which it starts and of the outside answers. In every
 run the critical sections, in the order of `operationMu`, are such operations, each starting from
 the lease map the one before it left; a crash cuts an operation off after the answers it has heard.
 Between operations and during them tokens may also expire, so what the operation leaves alive lives
 or has expired, and nothing else that it knows of lives.
 */
module BrokerSequential {
  import opened Strings
  import opened Requests
  import opened StateCodec
  import opened Broker
  import opened BrokerInvariant

  datatype Outcome = Outcome(leases: Leases, live: set<Accessor>, status: Status)

  function Without(live: set<Accessor>, a: Accessor, reply: VaultReply): set<Accessor> {
    if Effective(reply) then live - {a} else live
  }

  /** Revoke the recorded accessor, issue, encrypt, record; undo the issue when the rest fails. */
  function IssueOutcome(key: string, entry: Snapshot, w: World): Outcome {
    var prior := Get(entry.leases, key);
    var live := if prior.Some? then Without(entry.live, prior.value, w.revoke) else entry.live;
    if prior.Some? && w.revoke.Failed? then Outcome(entry.leases, live, BadGateway)
    else match w.issue
      case Refused => Outcome(entry.leases, live, BadGateway)
      case Lost => Outcome(entry.leases, live, BadGateway)
      case Issued(a) =>
        if w.sealed && w.persisted then Outcome(entry.leases[key := a], live + {a}, OK)
        else Outcome(entry.leases, Without(live + {a}, a, w.undo), ServerError)
  }

  /** Revoke the recorded accessor and forget it; nothing to do when there is none. */
  function RevokeOutcome(key: string, entry: Snapshot, w: World): Outcome {
    var prior := Get(entry.leases, key);
    if prior.None? then Outcome(entry.leases, entry.live, NoContent)
    else
      var live := Without(entry.live, prior.value, w.revoke);
      if w.revoke.Failed? then Outcome(entry.leases, live, BadGateway)
      else if w.persisted then Outcome(entry.leases - {key}, live, NoContent)
      else Outcome(entry.leases, live, ServerError)
  }

  function Sequentially(operation: Operation, key: string, entry: Snapshot, w: World): Outcome {
    if operation.Issue? then IssueOutcome(key, entry, w) else RevokeOutcome(key, entry, w)
  }

  // ----- A sequential history -----

  function Known(entry: Snapshot, w: World): set<Accessor> {
    entry.created.Keys + if w.issue.Issued? then {w.issue.accessor} else {}
  }

  ghost predicate Meets(operation: Operation, key: string, entry: Snapshot, w: World, now: Snapshot) {
    var o := Sequentially(operation, key, entry, w);
    && now.leases == o.leases
    && now.live * Known(entry, w) <= o.live <= now.live + now.expired
    && entry.expired <= now.expired
    && entry.created.Keys <= now.created.Keys
    && (key in entry.leases ==> entry.leases[key] in entry.created)
    && (w.issue.Issued? ==> w.issue.accessor !in entry.created && Get(now.created, w.issue.accessor) == Some(key))
  }

  /** A finished section did what the atomic operation does, and answered what it answers. */
  ghost predicate Conforms(r: Record) {
    && Meets(r.operation, r.key, r.entry, r.world, r.exit)
    && (r.reply.Some? ==> r.reply.value == Sequentially(r.operation, r.key, r.entry, r.world).status)
  }

  /** From `a` to `b` no lease changed, no token known at `a` came to life, and none died but by expiring. */
  ghost predicate Follows(a: Snapshot, b: Snapshot) {
    && a.leases == b.leases && a.created.Keys <= b.created.Keys
    && b.live * a.created.Keys <= a.live <= b.live + b.expired
    && a.expired <= b.expired
  }

  function Last(h: seq<Record>): Snapshot {
    if h == [] then NOTHING else h[|h| - 1].exit
  }

  ghost predicate Sequential(h: seq<Record>) {
    h != [] ==>
      && Sequential(h[..|h| - 1])
      && Follows(Last(h[..|h| - 1]), h[|h| - 1].entry)
      && Conforms(h[|h| - 1])
  }

  /** The lease map after performing the operations of a history one after the other. */
  ghost function Replay(h: seq<Record>): Leases {
    if h == [] then map[]
    else
      var r := h[|h| - 1];
      Sequentially(r.operation, r.key, r.entry.(leases := Replay(h[..|h| - 1])), r.world).leases
  }

  lemma {:induction false} ReplayReachesLast(h: seq<Record>)
    requires Sequential(h)
    ensures Replay(h) == Last(h).leases
  {
    if h != [] {
      ReplayReachesLast(h[..|h| - 1]);
      var r := h[|h| - 1];
      assert r.entry.(leases := Replay(h[..|h| - 1])) == r.entry;
    }
  }

  // ----- The section in progress -----

  /** The answers heard up to each program point. */
  ghost predicate Heard(t: Thread) {
    var prior := Get(t.entry.leases, t.key);
    var revoked := if prior.Some? then NO_ANSWERS.(revoke := Acknowledged) else NO_ANSWERS;
    match t.pc
    case Received => true
    case Validated => true
    case Waiting => true
    case Looking => t.world == NO_ANSWERS
    case Revoking(p) => prior == Some(p) && t.world == NO_ANSWERS
    case Issuing => t.world == revoked
    case Sealing(a) => t.world == revoked.(issue := Issued(a))
    case Storing(a) => t.world == revoked.(issue := Issued(a), sealed := true)
    case Undoing(a) => t.world == revoked.(issue := Issued(a), sealed := t.world.sealed)
    case Dropping => prior.Some? && t.world == revoked
    case Persisting(_, a) =>
      if t.request.operation.Issue? then t.world == revoked.(issue := Issued(a), sealed := true)
      else prior.Some? && t.world == revoked
    case Committed =>
      if t.request.operation.Issue? then
        t.world.issue.Issued? && t.world == revoked.(issue := t.world.issue, sealed := true, persisted := true)
      else prior.Some? && t.world == revoked.(persisted := true)
  }

  ghost predicate InProgress(s: State, t: Thread) {
    && Heard(t)
    && Meets(t.request.operation, t.key, t.entry, t.world, Now(s))
  }

  ghost predicate Ordered(s: State) {
    && (s.lock.None? ==> Follows(Last(s.history), Now(s)))
    && (s.lock.Some? ==> s.lock.value in s.threads
                         && Follows(Last(s.history), s.threads[s.lock.value].entry)
                         && InProgress(s, s.threads[s.lock.value]))
  }

  /** The history is kept, or extended by one finished section that follows it. */
  ghost predicate Extends(h: seq<Record>, next: seq<Record>) {
    || next == h
    || exists r :: next == h + [r] && Follows(Last(h), r.entry) && Conforms(r)
  }

  ghost predicate Advances(s: State, next: State) {
    Ordered(next) && Extends(s.history, next.history)
  }

  lemma {:induction false} ExtendedSequential(h: seq<Record>, next: seq<Record>)
    requires Sequential(h) && Extends(h, next)
    ensures Sequential(next)
  {
    if next != h {
      assert next[..|next| - 1] == h;
    }
  }

  // ----- Building blocks -----

  lemma {:induction false} GotoOrdered(s: State, next: State, id: Id, pc: Pc, world: World)
    requires Ordered(s) && s.lock == Some(id) && id in s.threads
    requires next.history == s.history && next.lock == s.lock && id in next.threads
    requires next.threads[id] == s.threads[id].(pc := pc, world := world)
    requires InProgress(next, next.threads[id])
    ensures Advances(s, next)
  {
  }

  lemma {:induction false} FinishOrdered(s: State, told: State, id: Id, world: World, status: Status)
    requires Ordered(s) && s.lock == Some(id) && id in s.threads
    requires told.history == s.history && id in told.threads && told.live <= told.created.Keys
    requires told.threads[id] == s.threads[id]
    requires var t := s.threads[id];
             && Meets(t.request.operation, t.key, t.entry, world, Now(told))
             && Sequentially(t.request.operation, t.key, t.entry, world).status == status
    ensures Advances(s, Finish(told, id, world, status))
  {
    assert Conforms(RecordOf(told, id, world, Some(status)));
  }

  // ----- The steps -----

  lemma {:induction false} ElsewhereOrdered(s: State, next: State)
    requires Ordered(s) && next.history == s.history && next.lock == s.lock && Now(next) == Now(s)
    requires s.lock.Some? ==> s.lock.value in next.threads && next.threads[s.lock.value] == s.threads[s.lock.value]
    ensures Advances(s, next)
  {
  }

  lemma {:induction false} AcquireOrdered(s: State, id: Id)
    requires Core(s) && Ordered(s) && At(s, id) && s.threads[id].pc.Waiting? && s.lock.None?
    ensures Advances(s, AcquireStep(s, id))
  {
    var t := AcquireStep(s, id).threads[id];
    assert Meets(t.request.operation, t.key, t.entry, t.world, Now(s));
  }

  lemma {:induction false} LookOrdered(s: State, id: Id)
    requires Core(s) && Ordered(s) && At(s, id) && s.threads[id].pc.Looking? && s.storeLock.None?
    ensures Advances(s, LookStep(s, id))
  {
    var t, next := s.threads[id], LookStep(s, id);
    assert s.lock == Some(id);
    LookFinds(s, id);
    if t.key in s.disk {
      GotoOrdered(s, next, id, Revoking(s.disk[t.key]), t.world);
    } else if t.request.operation.Issue? {
      GotoOrdered(s, next, id, Issuing, t.world);
    } else {
      FinishOrdered(s, s, id, t.world, NoContent);
    }
  }

  lemma {:induction false} RevokeOrdered(s: State, id: Id, reply: VaultReply)
    requires Core(s) && Ordered(s) && At(s, id) && s.threads[id].pc.Revoking?
    ensures Advances(s, RevokeStep(s, id, reply))
  {
    var t := s.threads[id];
    assert s.lock == Some(id);
    var told, world := if Effective(reply) then Kill(s, t.pc.previous) else s, t.world.(revoke := reply);
    assert Meets(t.request.operation, t.key, t.entry, world, Now(told));
    if reply.Failed? {
      FinishOrdered(s, told, id, world, BadGateway);
    } else {
      GotoOrdered(s, RevokeStep(s, id, reply), id, if t.request.operation.Issue? then Issuing else Dropping, world);
    }
  }

  lemma {:induction false} IssueDoneOrdered(s: State, id: Id, a: Accessor)
    requires Core(s) && Ordered(s) && At(s, id) && s.threads[id].pc.Issuing? && FreshAccessor(s, a)
    ensures Advances(s, IssueDoneStep(s, id, a))
  {
    var t := s.threads[id];
    assert s.lock == Some(id);
    GotoOrdered(s, IssueDoneStep(s, id, a), id, Sealing(a), t.world.(issue := Issued(a)));
  }

  lemma {:induction false} IssueFailedOrdered(s: State, id: Id, reply: IssueReply)
    requires Core(s) && Ordered(s) && At(s, id) && s.threads[id].pc.Issuing? && !reply.Issued?
    ensures Advances(s, IssueFailedStep(s, id, reply))
  {
    assert s.lock == Some(id);
    var finished := Finish(s, id, s.threads[id].world.(issue := reply), BadGateway);
    FinishOrdered(s, s, id, s.threads[id].world.(issue := reply), BadGateway);
    ElsewhereOrdered(finished, IssueFailedStep(s, id, reply));
  }

  lemma {:induction false} SealDoneOrdered(s: State, id: Id)
    requires Core(s) && Ordered(s) && At(s, id) && s.threads[id].pc.Sealing?
    ensures Advances(s, SealDoneStep(s, id))
  {
    var t := s.threads[id];
    assert s.lock == Some(id);
    GotoOrdered(s, SealDoneStep(s, id), id, Storing(t.pc.accessor), t.world.(sealed := true));
  }

  lemma {:induction false} SealFailedOrdered(s: State, id: Id)
    requires Core(s) && Ordered(s) && At(s, id) && s.threads[id].pc.Sealing?
    ensures Advances(s, Goto(s, id, Undoing(s.threads[id].pc.accessor), s.threads[id].world))
  {
    var t := s.threads[id];
    assert s.lock == Some(id);
    GotoOrdered(s, Goto(s, id, Undoing(t.pc.accessor), t.world), id, Undoing(t.pc.accessor), t.world);
  }

  lemma {:induction false} BeginStoreOrdered(s: State, id: Id)
    requires Core(s) && Ordered(s) && At(s, id) && s.storeLock.None?
    requires s.threads[id].pc.Storing? || s.threads[id].pc.Dropping?
    ensures Advances(s, BeginStoreStep(s, id))
  {
    var t, next := s.threads[id], BeginStoreStep(s, id);
    assert s.lock == Some(id) && s.memory == s.disk;
    GotoOrdered(s, next, id, next.threads[id].pc, t.world);
  }

  lemma {:induction false} RenameOrdered(s: State, id: Id)
    requires Core(s) && Ordered(s) && At(s, id) && s.threads[id].pc.Persisting?
    ensures Advances(s, RenameStep(s, id))
  {
    assert s.lock == Some(id);
    GotoOrdered(s, RenameStep(s, id), id, Committed, s.threads[id].world.(persisted := true));
  }

  lemma {:induction false} RollbackIssueOrdered(s: State, id: Id)
    requires Core(s) && Ordered(s) && At(s, id) && s.threads[id].pc.Persisting? && s.threads[id].request.operation.Issue?
    ensures Advances(s, RollbackStep(s, id))
  {
    var t := s.threads[id];
    assert s.lock == Some(id);
    GotoOrdered(s, RollbackStep(s, id), id, Undoing(t.pc.accessor), t.world);
  }

  lemma {:induction false} RollbackRevokeOrdered(s: State, id: Id)
    requires Core(s) && Ordered(s) && At(s, id) && s.threads[id].pc.Persisting? && s.threads[id].request.operation.Revoke?
    ensures Advances(s, RollbackStep(s, id))
  {
    assert s.lock == Some(id);
    FinishOrdered(s, RolledBack(s, id), id, s.threads[id].world, ServerError);
  }

  lemma {:induction false} ReplyOrdered(s: State, id: Id)
    requires Core(s) && Ordered(s) && At(s, id) && s.threads[id].pc.Committed?
    ensures var t := s.threads[id];
            Advances(s, Finish(s.(storeLock := None), id, t.world, SuccessOf(t.request.operation)))
  {
    var t := s.threads[id];
    assert s.lock == Some(id);
    FinishOrdered(s, s.(storeLock := None), id, t.world, SuccessOf(t.request.operation));
  }

  lemma {:induction false} UndoOrdered(s: State, id: Id, reply: VaultReply)
    requires Core(s) && Ordered(s) && At(s, id) && s.threads[id].pc.Undoing?
    ensures Advances(s, UndoStep(s, id, reply))
  {
    var t := s.threads[id];
    assert s.lock == Some(id);
    var told := if Effective(reply) then Kill(s, t.pc.accessor) else s;
    FinishOrdered(s, told, id, t.world.(undo := reply), ServerError);
  }

  lemma {:induction false} ExpireOrdered(s: State, a: Accessor)
    requires Ordered(s)
    ensures Advances(s, ExpireStep(s, a))
  {
    if s.lock.Some? {
      var t := s.threads[s.lock.value];
      assert (s.live - {a}) * Known(t.entry, t.world) <= s.live * Known(t.entry, t.world);
    }
  }

  lemma {:induction false} CreateOrdered(s: State, key: string, a: Accessor)
    requires Ordered(s) && FreshAccessor(s, a)
    ensures Advances(s, Create(s, key, a))
  {
    if s.lock.Some? {
      var t := s.threads[s.lock.value];
      assert a !in Known(t.entry, t.world);
      assert (s.live + {a}) * Known(t.entry, t.world) == s.live * Known(t.entry, t.world);
    } else {
      var known := Last(s.history).created.Keys;
      assert (s.live + {a}) * known == s.live * known;
    }
  }

  lemma {:induction false} CrashOrdered(s: State)
    requires Core(s) && Ordered(s)
    ensures Advances(s, CrashStep(s))
  {
    if s.lock.Some? {
      assert Conforms(RecordOf(s, s.lock.value, s.threads[s.lock.value].world, None));
    }
  }

  lemma {:induction false} ThreadStepOrdered(c: System, s: State, l: Label)
    requires Core(s) && Ordered(s) && Enabled(c, s, l)
    requires l.Acquire? || l.Look? || l.RevokeDone? || l.RevokeFailed? || l.IssueDone? || l.IssueRefused? || l.IssueLost?
    ensures Advances(s, Step(c, s, l))
  {
    match l
    case Acquire(id) => AcquireOrdered(s, id);
    case Look(id) => LookOrdered(s, id);
    case RevokeDone(id) => RevokeOrdered(s, id, Acknowledged);
    case RevokeFailed(id, e) => RevokeOrdered(s, id, Failed(e));
    case IssueDone(id, a) => IssueDoneOrdered(s, id, a);
    case IssueRefused(id) => IssueFailedOrdered(s, id, Refused);
    case IssueLost(id) => IssueFailedOrdered(s, id, Lost);
    case _ =>
  }

  lemma {:induction false} SealStepOrdered(c: System, s: State, l: Label)
    requires Core(s) && Ordered(s) && Enabled(c, s, l) && (l.SealDone? || l.SealFailed? || l.BeginStore?)
    ensures Advances(s, Step(c, s, l))
  {
    match l
    case SealDone(id) => SealDoneOrdered(s, id);
    case SealFailed(id) => SealFailedOrdered(s, id);
    case BeginStore(id) => BeginStoreOrdered(s, id);
    case _ =>
  }

  lemma {:induction false} PersistStepOrdered(c: System, s: State, l: Label)
    requires Core(s) && Ordered(s) && Enabled(c, s, l) && (l.Rename? || l.PersistFailed? || l.Reply?)
    ensures Advances(s, Step(c, s, l))
  {
    match l
    case Rename(id) => RenameOrdered(s, id);
    case PersistFailed(id) =>
      if s.threads[id].request.operation.Issue? { RollbackIssueOrdered(s, id); } else { RollbackRevokeOrdered(s, id); }
    case Reply(id) => ReplyOrdered(s, id);
    case _ =>
  }

  lemma {:induction false} CompensationOrdered(c: System, s: State, l: Label)
    requires Core(s) && Ordered(s) && Enabled(c, s, l) && (l.UndoDone? || l.UndoFailed?)
    ensures Advances(s, Step(c, s, l))
  {
    UndoOrdered(s, l.id, if l.UndoDone? then Acknowledged else Failed(l.effective));
  }

  lemma {:induction false} LateTokenOrdered(s: State, k: string, a: Accessor)
    requires Ordered(s) && FreshAccessor(s, a)
    ensures Advances(s, Create(s, k, a).(lost := s.lost - multiset{k}))
  {
    CreateOrdered(s, k, a);
    ElsewhereOrdered(Create(s, k, a), Create(s, k, a).(lost := s.lost - multiset{k}));
  }

  lemma {:induction false} TokenOrdered(c: System, s: State, l: Label)
    requires Ordered(s) && Enabled(c, s, l) && (l.LateToken? || l.Expire?)
    ensures Advances(s, Step(c, s, l))
  {
    match l
    case LateToken(k, a) => LateTokenOrdered(s, k, a);
    case Expire(a) => ExpireOrdered(s, a);
    case _ =>
  }

  lemma {:induction false} ProcessOrdered(c: System, s: State, l: Label)
    requires Core(s) && Ordered(s) && Enabled(c, s, l) && (l.Crash? || l.Restart?)
    ensures Advances(s, Step(c, s, l))
  {
    match l
    case Crash => CrashOrdered(s);
    case Restart => ElsewhereOrdered(s, RestartStep(c, s));
    case _ =>
  }

  lemma {:induction false} CheckOrdered(c: System, s: State, id: Id, now: int)
    requires Core(s) && Ordered(s) && At(s, id) && s.threads[id].pc.Received?
    ensures Advances(s, CheckStep(c, s, id, now))
  {
    ElsewhereOrdered(s, CheckStep(c, s, id, now));
  }

  lemma {:induction false} UsedOrdered(s: State, id: Id, nonces: Nonces.Entries)
    requires Core(s) && Ordered(s) && At(s, id) && s.threads[id].pc.Validated?
    ensures Advances(s, Goto(s.(nonces := nonces), id, Waiting, NO_ANSWERS))
    ensures Advances(s, Reject(s.(nonces := nonces), id))
  {
    ElsewhereOrdered(s, Goto(s.(nonces := nonces), id, Waiting, NO_ANSWERS));
    ElsewhereOrdered(s, Reject(s.(nonces := nonces), id));
  }

  lemma {:induction false} AdmitOrdered(c: System, s: State, id: Id, signed: bool, now: int)
    requires Core(s) && Ordered(s) && At(s, id) && s.threads[id].pc.Validated?
    ensures Advances(s, AdmitStep(c, s, id, signed, now))
  {
    UsedOrdered(s, id, s.nonces);
    UsedOrdered(s, id, Nonces.Used(s.nonces, c.config.ttl, c.config.maximum, NonceKey(c, s.threads[id].request), now));
    assert s.(nonces := s.nonces) == s;
  }

  lemma {:induction false} OutsideStepOrdered(c: System, s: State, l: Label)
    requires Core(s) && Ordered(s) && Enabled(c, s, l) && (l.Arrive? || l.Check? || l.Admit?)
    ensures Advances(s, Step(c, s, l))
  {
    match l
    case Arrive(id, r) =>
      ElsewhereOrdered(s, s.(threads := s.threads[id := Thread(r, KeyOf(c.config, r), Received, NOTHING, NO_ANSWERS)]));
    case Check(id, now) => CheckOrdered(c, s, id, now);
    case Admit(id, signed, now) => AdmitOrdered(c, s, id, signed, now);
    case _ =>
  }

  lemma {:induction false} StepOrdered(c: System, s: State, l: Label)
    requires Core(s) && Ordered(s) && Enabled(c, s, l)
    ensures Advances(s, Step(c, s, l))
  {
    if l.Arrive? || l.Check? || l.Admit? {
      OutsideStepOrdered(c, s, l);
    } else if l.SealDone? || l.SealFailed? || l.BeginStore? {
      SealStepOrdered(c, s, l);
    } else if l.Rename? || l.PersistFailed? || l.Reply? {
      PersistStepOrdered(c, s, l);
    } else if l.UndoDone? || l.UndoFailed? {
      CompensationOrdered(c, s, l);
    } else if l.LateToken? || l.Expire? {
      TokenOrdered(c, s, l);
    } else if l.Crash? || l.Restart? {
      ProcessOrdered(c, s, l);
    } else {
      ThreadStepOrdered(c, s, l);
    }
  }

  lemma {:induction false} RunOrdered(c: System, run: Run)
    requires c.WellFormed() && Legal(c, INITIAL, run)
    ensures Invariant(c, After(c, INITIAL, run)) && Ordered(After(c, INITIAL, run))
    ensures Sequential(After(c, INITIAL, run).history)
  {
    InvariantInitially(c);
    RunKeeps(c, INITIAL, run);
    if run != [] {
      var before := run[..|run| - 1];
      RunOrdered(c, before);
      StepOrdered(c, After(c, INITIAL, before), run[|run| - 1]);
      ExtendedSequential(After(c, INITIAL, before).history, After(c, INITIAL, run).history);
    }
  }

  // ----- Main results -----

  /**
   Every run is a sequential history: each finished section is the atomic operation for the answers
   it heard, with that operation's reply; and the file holds the lease map that performing the
   operations in order gives, the one in progress included as far as it has got.
   */
  lemma {:induction false} RefinesSequentialBroker(c: System, run: Run)
    requires c.WellFormed() && Legal(c, INITIAL, run)
    ensures var s := After(c, INITIAL, run);
            && Sequential(s.history)
            && (s.lock.None? ==> s.disk == Replay(s.history))
            && (s.lock.Some? ==>
                  && s.lock.value in s.threads
                  && var t := s.threads[s.lock.value];
                     && t.entry.leases == Replay(s.history)
                     && s.disk == Sequentially(t.request.operation, t.key, t.entry, t.world).leases)
            && (s.up && s.storeLock.None? ==> s.memory == s.disk)
  {
    RunOrdered(c, run);
    ReplayReachesLast(After(c, INITIAL, run).history);
  }

  /**
   A 200: the old accessor is dead, a new one was made for the key and lives unless it has expired,
   it is recorded, and no other lease changed.
   */
  lemma {:induction false} IssueOK(r: Record)
    requires Conforms(r) && r.operation.Issue? && r.reply == Some(OK)
    ensures var a := r.world.issue.accessor;
            && r.world.issue.Issued? && a !in r.entry.created && Get(r.exit.created, a) == Some(r.key)
            && a in r.exit.live + r.exit.expired
            && r.exit.leases == r.entry.leases[r.key := a]
    ensures r.key in r.entry.leases ==> r.entry.leases[r.key] !in r.exit.live
  {
    var a := r.world.issue.accessor;
    assert r.exit.leases == r.entry.leases[r.key := a];
    if r.key in r.entry.leases {
      var prior := r.entry.leases[r.key];
      assert prior in Known(r.entry, r.world) && prior !in Sequentially(r.operation, r.key, r.entry, r.world).live;
    }
  }

  /** A 204: the key is absent, its old accessor is dead, and nothing else changed. */
  lemma {:induction false} RevokeNoContent(r: Record)
    requires Conforms(r) && r.operation.Revoke? && r.reply == Some(NoContent)
    ensures r.exit.leases == r.entry.leases - {r.key} && r.key !in r.exit.leases
    ensures r.key in r.entry.leases ==> r.entry.leases[r.key] !in r.exit.live
  {
  }

  /** Any other reply leaves every lease as it was. */
  lemma {:induction false} FailureKeepsLeases(r: Record)
    requires Conforms(r) && r.reply.Some?
    ensures r.reply.value in (if r.operation.Issue? then {OK, ServerError, BadGateway} else {NoContent, ServerError, BadGateway})
    ensures r.reply.value in {ServerError, BadGateway} ==> r.exit.leases == r.entry.leases
  {
    assert r.exit.leases == Sequentially(r.operation, r.key, r.entry, r.world).leases;
  }

  /** The section asked Vault to revoke the recorded token, and Vault did not confirm it. */
  predicate RevokeUnconfirmed(r: Record) {
    r.key in r.entry.leases && r.world.revoke.Failed?
  }

  /**
   Which failure is answered how: 502 exactly when a call to Vault failed, the revoke of the recorded
   token or the issue; 500 exactly when Vault did its part and encryption or persisting failed; a
   revoke without a recorded token succeeds at once.
   */
  lemma {:induction false} RepliesExactly(r: Record)
    requires Conforms(r) && r.reply.Some?
    ensures r.reply == Some(BadGateway)
       <==> RevokeUnconfirmed(r) || (r.operation.Issue? && !r.world.issue.Issued?)
    ensures r.reply == Some(ServerError)
       <==> !RevokeUnconfirmed(r) && if r.operation.Issue? then r.world.issue.Issued? && !(r.world.sealed && r.world.persisted)
                          else r.key in r.entry.leases && !r.world.persisted
    ensures r.reply == Some(OK)
       <==> r.operation.Issue? && !RevokeUnconfirmed(r) && r.world.issue.Issued? && r.world.sealed && r.world.persisted
    ensures r.reply == Some(NoContent)
       <==> r.operation.Revoke? && (r.key in r.entry.leases ==> r.world.revoke.Acknowledged? && r.world.persisted)
  {
  }

  lemma {:induction false} ExpiredGrows(h: seq<Record>, i: nat)
    requires Sequential(h) && i < |h|
    ensures h[i].exit.expired <= Last(h).expired
  {
    if i < |h| - 1 {
      ExpiredGrows(h[..|h| - 1], i);
      assert h[..|h| - 1][i] == h[i];
    }
  }

  /** In every run a 200 leaves its token alive, unless an `Expire` step of the run names it. */
  lemma {:induction false} IssueLives(c: System, run: Run, i: nat)
    requires c.WellFormed() && Legal(c, INITIAL, run)
    requires i < |After(c, INITIAL, run).history|
    requires var r := After(c, INITIAL, run).history[i]; r.operation.Issue? && r.reply == Some(OK)
    ensures var r := After(c, INITIAL, run).history[i];
            && r.world.issue.Issued? && Get(r.exit.leases, r.key) == Some(r.world.issue.accessor)
            && (r.world.issue.accessor in r.exit.live || r.world.issue.accessor in ExpiredIn(run))
  {
    var s := After(c, INITIAL, run);
    RunOrdered(c, run);
    RunExpires(c, run);
    RecordConforms(s.history, i);
    ExpiredGrows(s.history, i);
    assert Last(s.history).expired <= s.expired;
    IssueOK(s.history[i]);
  }

  lemma {:induction false} RecordConforms(h: seq<Record>, i: nat)
    requires Sequential(h) && i < |h|
    ensures Conforms(h[i])
  {
    if i < |h| - 1 {
      RecordConforms(h[..|h| - 1], i);
      assert h[..|h| - 1][i] == h[i];
    }
  }

  /** No operation kills any token but the recorded one of its key. */
  lemma {:induction false} OthersSurvive(r: Record, a: Accessor)
    requires Conforms(r) && a in r.entry.live && a in r.entry.created && Get(r.entry.leases, r.key) != Some(a)
    ensures a in r.exit.live + r.exit.expired
  {
    assert a in Sequentially(r.operation, r.key, r.entry, r.world).live;
  }

  /** In every run the recorded accessor is dead by the time Vault is asked for a new one. */
  lemma {:induction false} OldDiesBeforeNew(c: System, run: Run, id: Id)
    requires c.WellFormed() && Legal(c, INITIAL, run)
    requires At(After(c, INITIAL, run), id) && After(c, INITIAL, run).threads[id].pc.Issuing?
    ensures var s := After(c, INITIAL, run);
            RecordedDead(s, s.threads[id].key) && PoliciesReach(c, s.threads[id])
  {
    RunOrdered(c, run);
    var s := After(c, INITIAL, run);
    assert s.lock == Some(id) && Checked(c, s.threads[id]);
  }

  /** The policies a thread hands to Vault are the canonical list of a small subset of the allowlist. */
  ghost predicate PoliciesReach(c: System, t: Thread) {
    t.request.operation.Issue? && PoliciesAccepted(c.config.allowed, t.request.operation.policies)
  }
}
