/**
 What every step of the broker keeps: the lock discipline, the agreement of memory and disk
 whenever the store lock is free, which accessors were made for which key, and what the holder of
 `operationMu` knows at each program point.
 */
module BrokerInvariant {
  import opened Strings
  import opened LeaseKeys
  import opened Requests
  import opened StateCodec
  import opened Broker

  predicate InCritical(pc: Pc) {
    !pc.Received? && !pc.Validated? && !pc.Waiting?
  }

  predicate InStore(pc: Pc) {
    pc.Persisting? || pc.Committed?
  }

  ghost predicate OneHolder(s: State) {
    && (forall id | id in s.threads :: InCritical(s.threads[id].pc) <==> s.lock == Some(id))
    && (s.lock.Some? ==> s.lock.value in s.threads)
  }

  ghost predicate Locks(s: State) {
    && OneHolder(s)
    && (s.storeLock.Some? <==> s.lock.Some? && InStore(s.threads[s.lock.value].pc))
    && (s.storeLock.Some? ==> s.storeLock == s.lock)
    && (!s.up ==> s.threads == map[])
  }

  /** Past validation a request has valid names and accepted policies. */
  ghost predicate Checked(c: System, t: Thread) {
    && t.key == KeyOf(c.config, t.request)
    && (!t.pc.Received? ==>
          && ValidName(t.request.host, 128) && ValidName(t.request.volume, 128)
          && (t.request.operation.Issue? ==> PoliciesAccepted(c.config.allowed, t.request.operation.policies)))
  }

  ghost predicate Requested(c: System, s: State) {
    forall id | id in s.threads :: Checked(c, s.threads[id])
  }

  ghost predicate Vault(s: State) {
    && s.live <= s.created.Keys && s.expired <= s.created.Keys && s.live !! s.expired
    && forall a | a in s.created :: ValidOpaqueSecret(a, MAX_ACCESSOR_BYTES)
  }

  /** Every recorded accessor was made for the key it is recorded under. */
  ghost predicate Disk(s: State) {
    forall k | k in s.disk :: LeaseKey(k) && s.disk[k] in s.created && s.created[s.disk[k]] == k
  }

  ghost predicate Memory(s: State) {
    s.up && s.storeLock.None? ==> s.memory == s.disk
  }

  ghost predicate RecordedDead(s: State, key: string) {
    key in s.disk ==> s.disk[key] !in s.live
  }

  /** An accessor made for `key` that is not recorded, while the recorded one is dead. */
  ghost predicate InHand(s: State, key: string, a: Accessor) {
    a in s.created && s.created[a] == key && Get(s.disk, key) != Some(a) && RecordedDead(s, key)
  }

  ghost predicate Holder(s: State, t: Thread) {
    var issue := t.request.operation.Issue?;
    match t.pc
    case Received => true
    case Validated => true
    case Waiting => true
    case Looking => true
    case Revoking(previous) => Get(s.disk, t.key) == Some(previous)
    case Issuing => issue && RecordedDead(s, t.key)
    case Sealing(a) => issue && InHand(s, t.key, a)
    case Storing(a) => issue && InHand(s, t.key, a)
    case Undoing(a) => issue && InHand(s, t.key, a)
    case Dropping => !issue && t.key in s.disk && RecordedDead(s, t.key)
    case Persisting(saved, a) =>
      && saved == Get(s.disk, t.key) && RecordedDead(s, t.key)
      && (issue ==> InHand(s, t.key, a) && s.memory == s.disk[t.key := a])
      && (!issue ==> t.key in s.disk && s.memory == s.disk - {t.key})
    case Committed =>
      && s.memory == s.disk
      && (issue ==> t.key in s.disk)
      && (!issue ==> t.key !in s.disk)
  }

  ghost predicate Core(s: State) {
    && Locks(s) && Vault(s) && Disk(s) && Memory(s)
    && (s.lock.Some? ==> Holder(s, s.threads[s.lock.value]))
  }

  ghost predicate Invariant(c: System, s: State) {
    Core(s) && Requested(c, s)
  }

  /** Threads go on with the same request, past validation if they were past it. */
  ghost predicate Carried(before: map<Id, Thread>, after: map<Id, Thread>) {
    forall id | id in after ::
      && id in before
      && after[id].request == before[id].request && after[id].key == before[id].key
      && (after[id].pc.Received? || !before[id].pc.Received?)
  }

  ghost predicate Kept(s: State, next: State) {
    Core(next) && Carried(s.threads, next.threads)
  }

  lemma {:induction false} InvariantInitially(c: System)
    ensures Invariant(c, INITIAL)
  {
  }

  // ----- The building blocks of steps -----

  /** The holder moves on without entering or leaving the store. */
  lemma {:induction false} GotoKeeps(s: State, id: Id, pc: Pc, world: World)
    requires Core(s) && s.lock == Some(id)
    requires InCritical(pc) && InStore(pc) == InStore(s.threads[id].pc)
    requires Holder(s, s.threads[id].(pc := pc))
    ensures Kept(s, Goto(s, id, pc, world))
  {
  }

  /** The holder answers; nothing is tentative any more. */
  lemma {:induction false} FinishKeeps(s: State, id: Id, world: World, status: Status)
    requires OneHolder(s) && Vault(s) && Disk(s)
    requires s.up && s.lock == Some(id) && s.storeLock.None? && s.memory == s.disk
    ensures Kept(s, Finish(s, id, world, status))
  {
  }

  /** Death of a token disturbs nothing. */
  lemma {:induction false} KillKeeps(s: State, a: Accessor)
    requires Core(s)
    ensures Kept(s, Kill(s, a))
  {
  }

  lemma {:induction false} ExpireKeeps(s: State, a: Accessor)
    requires Core(s) && a in s.live
    ensures Kept(s, ExpireStep(s, a))
  {
    KillKeeps(s, a);
  }

  /** A fresh accessor is recorded nowhere. */
  lemma {:induction false} CreateKeeps(s: State, key: string, a: Accessor)
    requires Core(s) && FreshAccessor(s, a)
    ensures Kept(s, Create(s, key, a))
  {
  }

  /** A thread outside the critical section changes or disappears. */
  lemma {:induction false} OutsiderKeeps(s: State, id: Id, t: Thread)
    requires Core(s) && s.up && (id in s.threads ==> !InCritical(s.threads[id].pc))
    requires !InCritical(t.pc)
    ensures Core(s.(threads := s.threads[id := t]))
    ensures Kept(s, Reject(s, id))
  {
  }

  lemma {:induction false} NoncesKeep(s: State, nonces: Nonces.Entries)
    requires Core(s)
    ensures Kept(s, s.(nonces := nonces))
  {
  }

  // ----- The steps -----

  lemma {:induction false} CheckKeeps(c: System, s: State, id: Id, now: int)
    requires Core(s) && At(s, id) && s.threads[id].pc.Received?
    ensures Core(CheckStep(c, s, id, now))
  {
    var t := s.threads[id];
    OutsiderKeeps(s, id, t);
    if Valid(c.config, t.request, now) { OutsiderKeeps(s, id, t.(pc := Validated, world := NO_ANSWERS)); }
  }

  lemma {:induction false} AdmitKeeps(c: System, s: State, id: Id, signed: bool, now: int)
    requires Core(s) && At(s, id) && s.threads[id].pc.Validated?
    ensures Kept(s, AdmitStep(c, s, id, signed, now))
  {
    var t := s.threads[id];
    var used := s.(nonces := Nonces.Used(s.nonces, c.config.ttl, c.config.maximum, NonceKey(c, t.request), now));
    NoncesKeep(s, used.nonces);
    OutsiderKeeps(s, id, t);
    OutsiderKeeps(used, id, t.(pc := Waiting, world := NO_ANSWERS));
  }

  lemma {:induction false} AcquireKeeps(s: State, id: Id)
    requires Core(s) && At(s, id) && s.threads[id].pc.Waiting? && s.lock.None?
    ensures Kept(s, AcquireStep(s, id))
  {
  }

  /** With the store lock free, the lookup reads the recorded accessor and never mistakes it for none. */
  lemma {:induction false} LookFinds(s: State, id: Id)
    requires Core(s) && At(s, id) && s.threads[id].pc.Looking? && s.storeLock.None?
    ensures s.memory == s.disk
    ensures var key := s.threads[id].key;
            if key in s.disk then Lookup(s.memory, key) == s.disk[key] && s.disk[key] != "" else Lookup(s.memory, key) == ""
  {
    var key := s.threads[id].key;
    if key in s.disk {
      assert ValidOpaqueSecret(s.disk[key], MAX_ACCESSOR_BYTES);
    }
  }

  lemma {:induction false} LookKeeps(s: State, id: Id)
    requires Core(s) && At(s, id) && s.threads[id].pc.Looking? && s.storeLock.None?
    ensures Kept(s, LookStep(s, id))
  {
    var t := s.threads[id];
    assert s.lock == Some(id);
    LookFinds(s, id);
    if t.key in s.disk {
      GotoKeeps(s, id, Revoking(s.disk[t.key]), t.world);
    } else if t.request.operation.Issue? {
      GotoKeeps(s, id, Issuing, t.world);
    } else {
      FinishKeeps(s, id, t.world, NoContent);
    }
  }

  lemma {:induction false} RevokeKeeps(s: State, id: Id, reply: VaultReply)
    requires Core(s) && At(s, id) && s.threads[id].pc.Revoking?
    ensures Kept(s, RevokeStep(s, id, reply))
  {
    var t := s.threads[id];
    assert s.lock == Some(id);
    var killed := if Effective(reply) then Kill(s, t.pc.previous) else s;
    KillKeeps(s, t.pc.previous);
    var told := t.world.(revoke := reply);
    if reply.Failed? {
      FinishKeeps(killed, id, told, BadGateway);
    } else {
      GotoKeeps(killed, id, if t.request.operation.Issue? then Issuing else Dropping, told);
    }
  }

  lemma {:induction false} IssueDoneKeeps(s: State, id: Id, a: Accessor)
    requires Core(s) && At(s, id) && s.threads[id].pc.Issuing? && FreshAccessor(s, a)
    ensures Kept(s, IssueDoneStep(s, id, a))
  {
    var t := s.threads[id];
    assert s.lock == Some(id);
    CreateKeeps(s, t.key, a);
    GotoKeeps(Create(s, t.key, a), id, Sealing(a), t.world.(issue := Issued(a)));
  }

  lemma {:induction false} IssueFailedKeeps(s: State, id: Id, reply: IssueReply)
    requires Core(s) && At(s, id) && s.threads[id].pc.Issuing?
    ensures Kept(s, IssueFailedStep(s, id, reply))
  {
    var told := s.threads[id].world.(issue := reply);
    FinishKeeps(s, id, told, BadGateway);
  }

  lemma {:induction false} SealKeeps(s: State, id: Id)
    requires Core(s) && At(s, id) && s.threads[id].pc.Sealing?
    ensures Kept(s, SealDoneStep(s, id))
    ensures Kept(s, Goto(s, id, Undoing(s.threads[id].pc.accessor), s.threads[id].world))
  {
    var t := s.threads[id];
    GotoKeeps(s, id, Storing(t.pc.accessor), t.world.(sealed := true));
    GotoKeeps(s, id, Undoing(t.pc.accessor), t.world);
  }

  lemma {:induction false} BeginStoreKeeps(s: State, id: Id)
    requires Core(s) && At(s, id) && s.storeLock.None?
    requires s.threads[id].pc.Storing? || s.threads[id].pc.Dropping?
    ensures Kept(s, BeginStoreStep(s, id))
  {
    var t := s.threads[id];
    assert s.lock == Some(id) && s.memory == s.disk;
    if t.pc.Storing? {
      assert ValidOpaqueSecret(t.pc.accessor, MAX_ACCESSOR_BYTES);
      var next := Goto(s, id, Persisting(Get(s.disk, t.key), t.pc.accessor), t.world)
        .(memory := s.disk[t.key := t.pc.accessor], storeLock := Some(id));
      assert Holder(next, next.threads[id]);
      assert Core(next);
    }
  }

  /** The tentative map is a good lease file, with or without the entry of the key. */
  lemma {:induction false} TentativeIsGood(s: State, id: Id)
    requires Core(s) && At(s, id) && s.threads[id].pc.Persisting? && LeaseKey(s.threads[id].key)
    ensures Disk(s.(disk := s.memory)) && (s.threads[id].key in s.memory <==> s.threads[id].request.operation.Issue?)
  {
    assert s.lock == Some(id);
  }

  lemma {:induction false} RenameKeeps(s: State, id: Id)
    requires Core(s) && At(s, id) && s.threads[id].pc.Persisting? && LeaseKey(s.threads[id].key)
    ensures Kept(s, RenameStep(s, id))
  {
    TentativeIsGood(s, id);
    var next := RenameStep(s, id);
    assert next.lock == s.lock == Some(id);
    assert Locks(next);
    assert Disk(next);
    assert Holder(next, next.threads[id]);
  }

  lemma {:induction false} RollbackRestores(s: State, id: Id)
    requires Core(s) && At(s, id) && s.threads[id].pc.Persisting?
    ensures RolledBack(s, id).memory == s.disk
  {
    var t := s.threads[id];
    assert s.lock == Some(id);
  }

  lemma {:induction false} RollbackKeeps(s: State, id: Id)
    requires Core(s) && At(s, id) && s.threads[id].pc.Persisting?
    ensures Kept(s, RollbackStep(s, id))
  {
    var t, r := s.threads[id], RolledBack(s, id);
    assert s.lock == Some(id);
    RollbackRestores(s, id);
    if t.request.operation.Issue? {
      var next := Goto(r, id, Undoing(t.pc.accessor), t.world);
      assert Holder(next, next.threads[id]);
    } else {
      FinishKeeps(r, id, t.world, ServerError);
    }
  }

  lemma {:induction false} ReplyKeeps(s: State, id: Id, world: World, status: Status)
    requires Core(s) && At(s, id) && s.threads[id].pc.Committed?
    ensures Kept(s, Finish(s.(storeLock := None), id, world, status))
  {
    FinishKeeps(s.(storeLock := None), id, world, status);
  }

  lemma {:induction false} UndoKeeps(s: State, id: Id, reply: VaultReply)
    requires Core(s) && At(s, id) && s.threads[id].pc.Undoing?
    ensures Kept(s, UndoStep(s, id, reply))
  {
    var t := s.threads[id];
    assert s.lock == Some(id);
    KillKeeps(s, t.pc.accessor);
    var killed := if Effective(reply) then Kill(s, t.pc.accessor) else s;
    FinishKeeps(killed, id, t.world.(undo := reply), ServerError);
  }

  lemma {:induction false} CrashKeeps(s: State)
    requires Core(s)
    ensures Kept(s, CrashStep(s))
  {
  }

  lemma {:induction false} RestartKeeps(c: System, s: State)
    requires c.WellFormed() && Core(s) && !s.up && c.reload(s.disk).Some?
    ensures Kept(s, RestartStep(c, s))
  {
    forall k | k in s.disk ensures ValidEntry(k, s.disk[k]) {}
    assert ValidLeases(s.disk);
  }

  lemma {:induction false} OutsideKeeps(c: System, s: State, l: Label)
    requires Core(s) && Enabled(c, s, l)
    requires l.Arrive? || l.Check? || l.Admit? || l.Acquire?
    ensures Core(Step(c, s, l))
    ensures l.Admit? || l.Acquire? ==> Carried(s.threads, Step(c, s, l).threads)
  {
    match l
    case Arrive(id, r) =>
      OutsiderKeeps(s, id, Thread(r, KeyOf(c.config, r), Received, NOTHING, NO_ANSWERS));
    case Check(id, now) => CheckKeeps(c, s, id, now);
    case Admit(id, signed, now) => AdmitKeeps(c, s, id, signed, now);
    case Acquire(id) => AcquireKeeps(s, id);
    case _ =>
  }

  lemma {:induction false} VaultKeeps(c: System, s: State, l: Label)
    requires Core(s) && Enabled(c, s, l)
    requires l.Look? || l.RevokeDone? || l.RevokeFailed? || l.IssueDone? || l.IssueRefused? || l.IssueLost?
    ensures Kept(s, Step(c, s, l))
  {
    match l
    case Look(id) => LookKeeps(s, id);
    case RevokeDone(id) => RevokeKeeps(s, id, Acknowledged);
    case RevokeFailed(id, effective) => RevokeKeeps(s, id, Failed(effective));
    case IssueDone(id, a) => IssueDoneKeeps(s, id, a);
    case IssueRefused(id) => IssueFailedKeeps(s, id, Refused);
    case IssueLost(id) => IssueFailedKeeps(s, id, Lost);
    case _ =>
  }

  lemma {:induction false} StoreKeeps(c: System, s: State, l: Label)
    requires Core(s) && Enabled(c, s, l)
    requires l.SealDone? || l.SealFailed? || l.BeginStore? || l.Rename? || l.PersistFailed? || l.Reply?
    requires LeaseKey(s.threads[l.id].key)
    ensures Kept(s, Step(c, s, l))
  {
    match l
    case SealDone(id) => SealKeeps(s, id);
    case SealFailed(id) => SealKeeps(s, id);
    case BeginStore(id) => BeginStoreKeeps(s, id);
    case Rename(id) => RenameKeeps(s, id);
    case PersistFailed(id) => RollbackKeeps(s, id);
    case Reply(id) => ReplyKeeps(s, id, s.threads[id].world, SuccessOf(s.threads[id].request.operation));
    case _ =>
  }

  lemma {:induction false} CompensationKeeps(c: System, s: State, l: Label)
    requires Core(s) && Enabled(c, s, l) && (l.UndoDone? || l.UndoFailed?)
    ensures Kept(s, Step(c, s, l))
  {
    UndoKeeps(s, l.id, if l.UndoDone? then Acknowledged else Failed(l.effective));
  }

  lemma {:induction false} TokenKeeps(c: System, s: State, l: Label)
    requires Core(s) && Enabled(c, s, l) && (l.LateToken? || l.Expire?)
    ensures Kept(s, Step(c, s, l))
  {
    match l
    case LateToken(key, a) => CreateKeeps(s, key, a);
    case Expire(a) => ExpireKeeps(s, a);
    case _ =>
  }

  lemma {:induction false} ProcessKeeps(c: System, s: State, l: Label)
    requires c.WellFormed() && Core(s) && Enabled(c, s, l) && (l.Crash? || l.Restart?)
    ensures Kept(s, Step(c, s, l))
  {
    match l
    case Crash => CrashKeeps(s);
    case Restart => RestartKeeps(c, s);
    case _ =>
  }

  lemma {:induction false} EnvironmentKeeps(c: System, s: State, l: Label)
    requires c.WellFormed() && Core(s) && Enabled(c, s, l)
    requires l.LateToken? || l.Expire? || l.Crash? || l.Restart?
    ensures Kept(s, Step(c, s, l))
  {
    if l.LateToken? || l.Expire? { TokenKeeps(c, s, l); } else { ProcessKeeps(c, s, l); }
  }

  lemma {:induction false} CarriedKeeps(c: System, s: State, next: State)
    requires Requested(c, s) && Carried(s.threads, next.threads)
    ensures Requested(c, next)
  {
    forall id | id in next.threads ensures Checked(c, next.threads[id]) {
      assert Checked(c, s.threads[id]);
    }
  }

  /** Arrival and validation, the steps that check a request. */
  lemma {:induction false} CheckedOnArrival(c: System, s: State, l: Label)
    requires Requested(c, s) && Enabled(c, s, l) && (l.Arrive? || l.Check?)
    ensures Requested(c, Step(c, s, l))
  {
    var next := Step(c, s, l);
    forall id | id in next.threads ensures Checked(c, next.threads[id]) {
      if id != l.id { assert Checked(c, s.threads[id]); }
    }
  }

  lemma {:induction false} StepKeeps(c: System, s: State, l: Label)
    requires c.WellFormed() && Invariant(c, s) && Enabled(c, s, l)
    ensures Invariant(c, Step(c, s, l))
  {
    if l.Arrive? || l.Check? || l.Admit? || l.Acquire? {
      OutsideKeeps(c, s, l);
    } else if l.Look? || l.RevokeDone? || l.RevokeFailed? || l.IssueDone? || l.IssueRefused? || l.IssueLost? {
      VaultKeeps(c, s, l);
    } else if l.UndoDone? || l.UndoFailed? {
      CompensationKeeps(c, s, l);
    } else if l.LateToken? || l.Expire? || l.Crash? || l.Restart? {
      EnvironmentKeeps(c, s, l);
    } else {
      assert Checked(c, s.threads[l.id]);
      StoreKeeps(c, s, l);
    }
    if l.Arrive? || l.Check? {
      CheckedOnArrival(c, s, l);
    } else {
      CarriedKeeps(c, s, Step(c, s, l));
    }
  }

  lemma {:induction false} RunKeeps(c: System, start: State, run: Run)
    requires c.WellFormed() && Invariant(c, start) && Legal(c, start, run)
    ensures Invariant(c, After(c, start, run))
  {
    if run != [] {
      RunKeeps(c, start, run[..|run| - 1]);
      StepKeeps(c, After(c, start, run[..|run| - 1]), run[|run| - 1]);
    }
  }

  // ----- Readers outside operationMu -----

  /** In every run, whoever holds the store lock between two operations counts the leases of the file. */
  lemma {:induction false} CountFinds(c: System, run: Run)
    requires c.WellFormed() && Legal(c, INITIAL, run)
    ensures var s := After(c, INITIAL, run);
            s.up && s.storeLock.None? ==> s.memory == s.disk && |s.memory| == |s.disk|
  {
    InvariantInitially(c);
    RunKeeps(c, INITIAL, run);
  }

  /** The lock is needed: until the rename the tentative map has another size, or another accessor. */
  lemma {:induction false} TentativeCount(c: System, run: Run, id: Id)
    requires c.WellFormed() && Legal(c, INITIAL, run)
    requires At(After(c, INITIAL, run), id) && After(c, INITIAL, run).threads[id].pc.Persisting?
    ensures var s := After(c, INITIAL, run); var t := s.threads[id];
            && s.memory != s.disk
            && |s.memory| == |s.disk| + (if t.request.operation.Revoke? then -1 else if t.key in s.disk then 0 else 1)
  {
    InvariantInitially(c);
    RunKeeps(c, INITIAL, run);
    var s := After(c, INITIAL, run);
    assert s.lock == Some(id);
    TentativeSizes(s.disk, s.threads[id].key, s.threads[id].pc.accessor);
  }

  lemma {:induction false} TentativeSizes(leases: Leases, key: string, a: Accessor)
    ensures |leases[key := a]| == |leases| + if key in leases then 0 else 1
    ensures key in leases ==> |leases - {key}| == |leases| - 1
  {
    assert leases[key := a].Keys == leases.Keys + {key} && |leases[key := a].Keys| == |leases[key := a]|;
    assert |leases.Keys| == |leases| && (leases - {key}).Keys == leases.Keys - {key};
    assert |(leases - {key}).Keys| == |leases - {key}|;
  }

  // ----- What expires -----

  lemma {:induction false} TokenStepExpires(c: System, s: State, l: Label)
    requires Enabled(c, s, l)
    requires l.RevokeDone? || l.RevokeFailed? || l.IssueDone? || l.IssueRefused? || l.IssueLost? || l.LateToken? || l.Expire?
    ensures Step(c, s, l).expired == s.expired + if l.Expire? then {l.accessor} else {}
  {
  }

  lemma {:induction false} StoreStepExpires(c: System, s: State, l: Label)
    requires Enabled(c, s, l)
    requires l.SealDone? || l.SealFailed? || l.BeginStore? || l.Rename? || l.PersistFailed?
    ensures Step(c, s, l).expired == s.expired
  {
  }

  lemma {:induction false} EndStepExpires(c: System, s: State, l: Label)
    requires Enabled(c, s, l) && (l.Reply? || l.UndoDone? || l.UndoFailed? || l.Crash? || l.Restart?)
    ensures Step(c, s, l).expired == s.expired
  {
  }

  lemma {:induction false} OuterStepExpires(c: System, s: State, l: Label)
    requires Enabled(c, s, l) && (l.Arrive? || l.Check? || l.Admit? || l.Acquire? || l.Look?)
    ensures Step(c, s, l).expired == s.expired
  {
  }

  /** Every step adds to the expired tokens what it says expires, and nothing else. */
  lemma {:induction false} StepExpires(c: System, s: State, l: Label)
    requires Enabled(c, s, l)
    ensures Step(c, s, l).expired == s.expired + if l.Expire? then {l.accessor} else {}
  {
    if l.RevokeDone? || l.RevokeFailed? || l.IssueDone? || l.IssueRefused? || l.IssueLost? || l.LateToken? || l.Expire? {
      TokenStepExpires(c, s, l);
    } else if l.SealDone? || l.SealFailed? || l.BeginStore? || l.Rename? || l.PersistFailed? {
      StoreStepExpires(c, s, l);
    } else if l.Reply? || l.UndoDone? || l.UndoFailed? || l.Crash? || l.Restart? {
      EndStepExpires(c, s, l);
    } else {
      OuterStepExpires(c, s, l);
    }
  }

  /** The accessors of the `Expire` steps of a run. */
  function ExpiredIn(run: Run): set<Accessor> {
    set i | 0 <= i < |run| && run[i].Expire? :: run[i].accessor
  }

  lemma {:induction false} ExpiredIsNamed(c: System, run: Run)
    requires Legal(c, INITIAL, run)
    ensures After(c, INITIAL, run).expired == ExpiredIn(run)
  {
    if run != [] {
      var before, l := run[..|run| - 1], run[|run| - 1];
      ExpiredIsNamed(c, before);
      StepExpires(c, After(c, INITIAL, before), l);
      assert run == before + [l];
      ExpiredAppend(before, l);
    }
  }

  /** After every run what has expired is what the run says expired, and none of it lives. */
  lemma {:induction false} RunExpires(c: System, run: Run)
    requires c.WellFormed() && Legal(c, INITIAL, run)
    ensures After(c, INITIAL, run).expired == ExpiredIn(run)
    ensures After(c, INITIAL, run).live !! ExpiredIn(run)
  {
    InvariantInitially(c);
    RunKeeps(c, INITIAL, run);
    ExpiredIsNamed(c, run);
  }

  lemma {:induction false} ExpiredAppend(run: Run, l: Label)
    ensures ExpiredIn(run + [l]) == ExpiredIn(run) + if l.Expire? then {l.accessor} else {}
  {
    var longer := run + [l];
    forall a ensures a in ExpiredIn(longer) <==> a in ExpiredIn(run) + if l.Expire? then {l.accessor} else {} {
      if a in ExpiredIn(run) {
        var i :| 0 <= i < |run| && run[i].Expire? && run[i].accessor == a;
        assert longer[i] == run[i];
      }
      if l.Expire? && a == l.accessor { assert longer[|run|] == l; }
    }
  }
}
