/**
 How many live tokens a key can have. A live accessor made for a key is the recorded one, the one
 the holder of `operationMu` has in hand, or an orphan; every orphan is paid for by a fault: a lost
 issue reply, a failed compensating revoke, or a crash with an accessor in hand or asked for.
 */
module BrokerOrphans {
  import opened Strings
  import opened Requests
  import opened Broker
  import opened BrokerInvariant

  ghost function LiveFor(s: State, key: string): set<Accessor> {
    set a | a in s.live && a in s.created && s.created[a] == key
  }

  function InFlight(t: Thread): Option<Accessor> {
    match t.pc
    case Sealing(a) => Some(a)
    case Storing(a) => Some(a)
    case Undoing(a) => Some(a)
    case Persisting(_, a) => if t.request.operation.Issue? then Some(a) else None
    case _ => None
  }

  /** The accessor the holder has made for `key` and not yet recorded. */
  function HeldFor(s: State, key: string): Option<Accessor> {
    if s.lock.Some? && s.lock.value in s.threads && s.threads[s.lock.value].key == key
    then InFlight(s.threads[s.lock.value]) else None
  }

  function AsSet(a: Option<Accessor>): set<Accessor> {
    if a.Some? then {a.value} else {}
  }

  ghost function Orphans(s: State, key: string): set<Accessor> {
    LiveFor(s, key) - AsSet(Get(s.disk, key)) - AsSet(HeldFor(s, key))
  }

  /** Orphans, and lost requests that may still turn into one. */
  ghost function Debt(s: State, key: string): nat {
    |Orphans(s, key)| + s.lost[key]
  }

  /** Whether a step is a fault that can cost `key` a token. */
  ghost predicate Faulty(s: State, l: Label, key: string) {
    match l
    case IssueLost(id) => id in s.threads && s.threads[id].key == key
    case UndoFailed(id, _) => id in s.threads && s.threads[id].key == key
    case Crash => HeldFor(s, key).Some? || Asking(s) == Some(key)
    case _ => false
  }

  ghost function Faults(c: System, run: Run, key: string): nat
    requires Legal(c, INITIAL, run)
  {
    if run == [] then 0
    else
      var n := |run| - 1;
      Faults(c, run[..n], key) + if Faulty(After(c, INITIAL, run[..n]), run[n], key) then 1 else 0
  }

  // ----- No other step makes an orphan -----

  ghost predicate NoNewOrphan(s: State, next: State, key: string) {
    Orphans(next, key) <= Orphans(s, key) && next.lost == s.lost
  }

  /** With the same tokens and the same file, what was in hand must stay in hand. */
  lemma {:induction false} SameTokens(s: State, next: State, key: string)
    requires next.live == s.live && next.created == s.created && next.lost == s.lost && next.disk == s.disk
    requires HeldFor(s, key).Some? ==> HeldFor(next, key) == HeldFor(s, key)
    ensures NoNewOrphan(s, next, key)
  {
  }

  lemma {:induction false} LookOrphans(s: State, id: Id, key: string)
    requires Core(s) && At(s, id) && s.threads[id].pc.Looking? && s.storeLock.None?
    ensures NoNewOrphan(s, LookStep(s, id), key)
  {
  }

  lemma {:induction false} RevokeOrphans(s: State, id: Id, reply: VaultReply, key: string)
    requires Core(s) && At(s, id) && s.threads[id].pc.Revoking?
    ensures NoNewOrphan(s, RevokeStep(s, id, reply), key)
  {
  }

  lemma {:induction false} IssueDoneOrphans(s: State, id: Id, a: Accessor, key: string)
    requires Core(s) && At(s, id) && s.threads[id].pc.Issuing? && FreshAccessor(s, a)
    ensures NoNewOrphan(s, IssueDoneStep(s, id, a), key)
  {
    assert s.lock == Some(id);
  }

  lemma {:induction false} SealOrphans(s: State, id: Id, key: string)
    requires Core(s) && At(s, id) && s.threads[id].pc.Sealing?
    ensures NoNewOrphan(s, SealDoneStep(s, id), key)
    ensures NoNewOrphan(s, Goto(s, id, Undoing(s.threads[id].pc.accessor), s.threads[id].world), key)
  {
    assert s.lock == Some(id);
  }

  lemma {:induction false} BeginStoreOrphans(s: State, id: Id, key: string)
    requires Core(s) && At(s, id) && s.storeLock.None?
    requires s.threads[id].pc.Storing? || s.threads[id].pc.Dropping?
    ensures NoNewOrphan(s, BeginStoreStep(s, id), key)
  {
    assert s.lock == Some(id) && s.memory == s.disk;
    SameTokens(s, BeginStoreStep(s, id), key);
  }

  /** The replaced or removed accessor is dead, and the new one is recorded. */
  lemma {:induction false} RenameOrphans(s: State, id: Id, key: string)
    requires Core(s) && At(s, id) && s.threads[id].pc.Persisting?
    ensures NoNewOrphan(s, RenameStep(s, id), key)
  {
    assert s.lock == Some(id);
  }

  lemma {:induction false} RollbackOrphans(s: State, id: Id, key: string)
    requires Core(s) && At(s, id) && s.threads[id].pc.Persisting?
    ensures NoNewOrphan(s, RollbackStep(s, id), key)
  {
    assert s.lock == Some(id);
    SameTokens(s, RollbackStep(s, id), key);
  }

  lemma {:induction false} ReplyOrphans(s: State, id: Id, world: World, status: Status, key: string)
    requires Core(s) && At(s, id) && s.threads[id].pc.Committed?
    ensures NoNewOrphan(s, Finish(s.(storeLock := None), id, world, status), key)
  {
    assert s.lock == Some(id);
  }

  lemma {:induction false} UndoDoneOrphans(s: State, id: Id, key: string)
    requires Core(s) && At(s, id) && s.threads[id].pc.Undoing?
    ensures NoNewOrphan(s, UndoStep(s, id, Acknowledged), key)
  {
    assert s.lock == Some(id);
  }

  lemma {:induction false} AcquireOrphans(s: State, id: Id, key: string)
    requires Core(s) && At(s, id) && s.threads[id].pc.Waiting? && s.lock.None?
    ensures NoNewOrphan(s, AcquireStep(s, id), key)
  {
  }

  /** A step that leaves Vault, the file and the holder alone. */
  lemma {:induction false} ElsewhereOrphans(s: State, next: State, key: string)
    requires next.live == s.live && next.created == s.created && next.lost == s.lost && next.disk == s.disk
    requires next.lock == s.lock
    requires s.lock.Some? ==> s.lock.value in s.threads && s.lock.value in next.threads
                              && next.threads[s.lock.value] == s.threads[s.lock.value]
    ensures NoNewOrphan(s, next, key)
  {
  }

  lemma {:induction false} CheckOrphans(c: System, s: State, id: Id, now: int, key: string)
    requires Core(s) && At(s, id) && s.threads[id].pc.Received?
    ensures NoNewOrphan(s, CheckStep(c, s, id, now), key)
  {
    ElsewhereOrphans(s, CheckStep(c, s, id, now), key);
  }

  lemma {:induction false} UsedOrphans(s: State, id: Id, nonces: Nonces.Entries, key: string)
    requires Core(s) && At(s, id) && s.threads[id].pc.Validated?
    ensures NoNewOrphan(s, Goto(s.(nonces := nonces), id, Waiting, NO_ANSWERS), key)
    ensures NoNewOrphan(s, Reject(s.(nonces := nonces), id), key)
  {
    ElsewhereOrphans(s, Goto(s.(nonces := nonces), id, Waiting, NO_ANSWERS), key);
    ElsewhereOrphans(s, Reject(s.(nonces := nonces), id), key);
  }

  lemma {:induction false} AdmitOrphans(c: System, s: State, id: Id, signed: bool, now: int, key: string)
    requires Core(s) && At(s, id) && s.threads[id].pc.Validated?
    ensures NoNewOrphan(s, AdmitStep(c, s, id, signed, now), key)
  {
    var nonces := Nonces.Used(s.nonces, c.config.ttl, c.config.maximum, NonceKey(c, s.threads[id].request), now);
    UsedOrphans(s, id, s.nonces, key);
    UsedOrphans(s, id, nonces, key);
    assert s.(nonces := s.nonces) == s;
  }

  lemma {:induction false} ArriveOrphans(s: State, id: Id, t: Thread, key: string)
    requires Core(s) && s.up && id !in s.threads
    ensures NoNewOrphan(s, s.(threads := s.threads[id := t]), key)
  {
    ElsewhereOrphans(s, s.(threads := s.threads[id := t]), key);
  }

  // ----- The steps that can make one -----

  lemma {:induction false} AddedAtMost(small: set<Accessor>, large: set<Accessor>, a: Accessor)
    requires small <= large + {a}
    ensures |small| <= |large| + 1
  {
    SubsetSize(small, large + {a});
  }

  /** At most `a` joins the orphans of its own key. */
  ghost predicate AtMostOneMore(s: State, next: State, key: string, a: Accessor, same: bool) {
    Orphans(next, key) <= Orphans(s, key) + if same then {a} else {}
  }

  lemma {:induction false} OneMoreDebt(s: State, next: State, key: string, a: Accessor, same: bool)
    requires AtMostOneMore(s, next, key, a, same)
    ensures |Orphans(next, key)| <= |Orphans(s, key)| + if same then 1 else 0
  {
    if same {
      AddedAtMost(Orphans(next, key), Orphans(s, key), a);
    } else {
      SubsetSize(Orphans(next, key), Orphans(s, key));
    }
  }

  lemma {:induction false} IssueFailedOrphans(s: State, id: Id, reply: IssueReply, key: string)
    requires Core(s) && At(s, id) && s.threads[id].pc.Issuing?
    ensures Orphans(IssueFailedStep(s, id, reply), key) == Orphans(s, key)
  {
    assert s.lock == Some(id);
  }

  lemma {:induction false} IssueFailedDebt(s: State, id: Id, reply: IssueReply, key: string)
    requires Core(s) && At(s, id) && s.threads[id].pc.Issuing?
    ensures Debt(IssueFailedStep(s, id, reply), key)
         <= Debt(s, key) + if reply.Lost? && s.threads[id].key == key then 1 else 0
  {
    IssueFailedOrphans(s, id, reply, key);
  }

  lemma {:induction false} UndoFailedOrphans(s: State, id: Id, effective: bool, key: string)
    requires Core(s) && At(s, id) && s.threads[id].pc.Undoing?
    ensures AtMostOneMore(s, UndoStep(s, id, Failed(effective)), key, s.threads[id].pc.accessor, s.threads[id].key == key)
    ensures UndoStep(s, id, Failed(effective)).lost == s.lost
  {
    assert s.lock == Some(id);
  }

  lemma {:induction false} UndoFailedDebt(s: State, id: Id, effective: bool, key: string)
    requires Core(s) && At(s, id) && s.threads[id].pc.Undoing?
    ensures Debt(UndoStep(s, id, Failed(effective)), key) <= Debt(s, key) + if s.threads[id].key == key then 1 else 0
  {
    UndoFailedOrphans(s, id, effective, key);
    OneMoreDebt(s, UndoStep(s, id, Failed(effective)), key, s.threads[id].pc.accessor, s.threads[id].key == key);
  }

  lemma {:induction false} CrashDebt(s: State, key: string)
    requires Core(s)
    ensures Debt(CrashStep(s), key) <= Debt(s, key) + if HeldFor(s, key).Some? || Asking(s) == Some(key) then 1 else 0
  {
    var next := CrashStep(s);
    if HeldFor(s, key).Some? {
      AddedAtMost(Orphans(next, key), Orphans(s, key), HeldFor(s, key).value);
    } else {
      assert Orphans(next, key) == Orphans(s, key);
    }
  }

  lemma {:induction false} LateTokenOrphans(s: State, k: string, a: Accessor, lost: multiset<string>, key: string)
    requires Core(s) && FreshAccessor(s, a)
    ensures AtMostOneMore(s, Create(s, k, a).(lost := lost), key, a, k == key)
  {
  }

  lemma {:induction false} LateTokenDebt(s: State, k: string, a: Accessor, key: string)
    requires Core(s) && k in s.lost && FreshAccessor(s, a)
    ensures Debt(Create(s, k, a).(lost := s.lost - multiset{k}), key) <= Debt(s, key)
  {
    var lost := s.lost - multiset{k};
    LateTokenOrphans(s, k, a, lost, key);
    OneMoreDebt(s, Create(s, k, a).(lost := lost), key, a, k == key);
    assert lost[key] == s.lost[key] - if k == key then 1 else 0;
  }

  lemma {:induction false} ExpireDebt(s: State, a: Accessor, key: string)
    ensures Debt(ExpireStep(s, a), key) <= Debt(s, key)
  {
    SubsetSize(Orphans(ExpireStep(s, a), key), Orphans(s, key));
  }

  lemma {:induction false} NoNewOrphanDebt(s: State, next: State, key: string)
    requires NoNewOrphan(s, next, key)
    ensures Debt(next, key) <= Debt(s, key)
  {
    SubsetSize(Orphans(next, key), Orphans(s, key));
  }

  ghost predicate Paid(s: State, next: State, l: Label, key: string) {
    Debt(next, key) <= Debt(s, key) + if Faulty(s, l, key) then 1 else 0
  }

  lemma {:induction false} EarlyDebt(c: System, s: State, l: Label, key: string)
    requires Core(s) && Enabled(c, s, l)
    requires l.Acquire? || l.Look? || l.RevokeDone? || l.RevokeFailed? || l.IssueDone? || l.IssueRefused? || l.IssueLost?
    ensures Paid(s, Step(c, s, l), l, key)
  {
    match l
    case Acquire(id) => AcquireOrphans(s, id, key); NoNewOrphanDebt(s, AcquireStep(s, id), key);
    case Look(id) => LookOrphans(s, id, key); NoNewOrphanDebt(s, LookStep(s, id), key);
    case RevokeDone(id) => RevokeOrphans(s, id, Acknowledged, key); NoNewOrphanDebt(s, RevokeStep(s, id, Acknowledged), key);
    case RevokeFailed(id, e) => RevokeOrphans(s, id, Failed(e), key); NoNewOrphanDebt(s, RevokeStep(s, id, Failed(e)), key);
    case IssueDone(id, a) => IssueDoneOrphans(s, id, a, key); NoNewOrphanDebt(s, IssueDoneStep(s, id, a), key);
    case IssueRefused(id) => IssueFailedDebt(s, id, Refused, key);
    case IssueLost(id) => IssueFailedDebt(s, id, Lost, key);
    case _ =>
  }

  lemma {:induction false} StoreDebt(c: System, s: State, l: Label, key: string)
    requires Core(s) && Enabled(c, s, l)
    requires l.BeginStore? || l.Rename? || l.PersistFailed?
    ensures Paid(s, Step(c, s, l), l, key)
  {
    match l
    case BeginStore(id) => BeginStoreOrphans(s, id, key); NoNewOrphanDebt(s, BeginStoreStep(s, id), key);
    case Rename(id) => RenameOrphans(s, id, key); NoNewOrphanDebt(s, RenameStep(s, id), key);
    case PersistFailed(id) => RollbackOrphans(s, id, key); NoNewOrphanDebt(s, RollbackStep(s, id), key);
    case _ =>
  }

  lemma {:induction false} LateDebt(c: System, s: State, l: Label, key: string)
    requires Core(s) && Enabled(c, s, l)
    requires l.SealDone? || l.SealFailed? || l.Reply?
    ensures Paid(s, Step(c, s, l), l, key)
  {
    match l
    case SealDone(id) => SealOrphans(s, id, key); NoNewOrphanDebt(s, SealDoneStep(s, id), key);
    case SealFailed(id) =>
      SealOrphans(s, id, key);
      NoNewOrphanDebt(s, Goto(s, id, Undoing(s.threads[id].pc.accessor), s.threads[id].world), key);
    case Reply(id) =>
      var t := s.threads[id];
      ReplyOrphans(s, id, t.world, SuccessOf(t.request.operation), key);
      NoNewOrphanDebt(s, Finish(s.(storeLock := None), id, t.world, SuccessOf(t.request.operation)), key);
    case _ =>
  }

  lemma {:induction false} OutsideDebt(c: System, s: State, l: Label, key: string)
    requires Core(s) && Enabled(c, s, l)
    requires l.Arrive? || l.Check? || l.Admit?
    ensures Paid(s, Step(c, s, l), l, key)
  {
    match l
    case Arrive(id, r) =>
      var t := Thread(r, KeyOf(c.config, r), Received, NOTHING, NO_ANSWERS);
      ArriveOrphans(s, id, t, key);
      NoNewOrphanDebt(s, s.(threads := s.threads[id := t]), key);
    case Check(id, now) => CheckOrphans(c, s, id, now, key); NoNewOrphanDebt(s, CheckStep(c, s, id, now), key);
    case Admit(id, signed, now) =>
      AdmitOrphans(c, s, id, signed, now, key);
      NoNewOrphanDebt(s, AdmitStep(c, s, id, signed, now), key);
    case _ =>
  }

  lemma {:induction false} OtherDebt(c: System, s: State, l: Label, key: string)
    requires Core(s) && Enabled(c, s, l)
    requires l.UndoDone? || l.UndoFailed? || l.LateToken? || l.Expire? || l.Crash? || l.Restart?
    ensures Paid(s, Step(c, s, l), l, key)
  {
    match l
    case UndoDone(id) => UndoDoneOrphans(s, id, key); NoNewOrphanDebt(s, Step(c, s, l), key);
    case UndoFailed(id, e) => UndoFailedDebt(s, id, e, key);
    case LateToken(k, a) => LateTokenDebt(s, k, a, key);
    case Expire(a) => ExpireDebt(s, a, key);
    case Crash => CrashDebt(s, key);
    case Restart =>
    case _ =>
  }

  lemma {:induction false} StepDebt(c: System, s: State, l: Label, key: string)
    requires Core(s) && Enabled(c, s, l)
    ensures Paid(s, Step(c, s, l), l, key)
  {
    if l.Arrive? || l.Check? || l.Admit? {
      OutsideDebt(c, s, l, key);
    } else if l.SealDone? || l.SealFailed? || l.Reply? {
      LateDebt(c, s, l, key);
    } else if l.BeginStore? || l.Rename? || l.PersistFailed? {
      StoreDebt(c, s, l, key);
    } else if l.UndoDone? || l.UndoFailed? || l.LateToken? || l.Expire? || l.Crash? || l.Restart? {
      OtherDebt(c, s, l, key);
    } else {
      EarlyDebt(c, s, l, key);
    }
  }

  // ----- Whole runs -----

  lemma {:induction false} DebtPaidByFaults(c: System, run: Run, key: string)
    requires c.WellFormed() && Legal(c, INITIAL, run)
    ensures Debt(After(c, INITIAL, run), key) <= Faults(c, run, key)
  {
    if run == [] {
      assert Orphans(INITIAL, key) == {};
    } else {
      var before := run[..|run| - 1];
      InvariantInitially(c);
      RunKeeps(c, INITIAL, before);
      DebtPaidByFaults(c, before, key);
      StepDebt(c, After(c, INITIAL, before), run[|run| - 1], key);
    }
  }

  /** While an accessor is in hand the recorded one is dead. */
  lemma {:induction false} OneTracked(s: State, key: string)
    requires Core(s)
    ensures |LiveFor(s, key)| <= 1 + |Orphans(s, key)|
  {
    var disk, held := Get(s.disk, key), HeldFor(s, key);
    var a := if held.Some? then held.value else if disk.Some? then disk.value else "";
    assert LiveFor(s, key) <= Orphans(s, key) + {a};
    AddedAtMost(LiveFor(s, key), Orphans(s, key), a);
  }

  /**
   Main result: after any run, a key has at most one live token more than the faults charged to
   it; without such a fault it never has more than one.
   */
  lemma {:induction false} LiveTokensBounded(c: System, run: Run, key: string)
    requires c.WellFormed() && Legal(c, INITIAL, run)
    ensures |LiveFor(After(c, INITIAL, run), key)| <= 1 + Faults(c, run, key)
  {
    InvariantInitially(c);
    RunKeeps(c, INITIAL, run);
    DebtPaidByFaults(c, run, key);
    OneTracked(After(c, INITIAL, run), key);
  }

  ghost predicate AccountedFor(s: State, a: Accessor) {
    && a in s.created
    && (Get(s.disk, s.created[a]) == Some(a) || HeldFor(s, s.created[a]) == Some(a) || a in Orphans(s, s.created[a]))
  }

  lemma {:induction false} LiveAccounted(s: State, a: Accessor)
    requires s.live <= s.created.Keys && a in s.live
    ensures AccountedFor(s, a)
  {
  }

  lemma {:induction false} OrphansPaid(c: System, run: Run, key: string)
    requires c.WellFormed() && Legal(c, INITIAL, run)
    ensures |Orphans(After(c, INITIAL, run), key)| <= Faults(c, run, key)
  {
    DebtPaidByFaults(c, run, key);
  }

  /**
   Each live accessor made for a key is the recorded one, the one the lock holder has in hand, or
   an orphan, and there are no more orphans than faults.
   */
  lemma {:induction false} LiveTokensAccounted(c: System, run: Run, a: Accessor)
    requires c.WellFormed() && Legal(c, INITIAL, run)
    requires a in After(c, INITIAL, run).live
    ensures var s := After(c, INITIAL, run);
            AccountedFor(s, a) && |Orphans(s, s.created[a])| <= Faults(c, run, s.created[a])
  {
    var s := After(c, INITIAL, run);
    InvariantInitially(c);
    RunKeeps(c, INITIAL, run);
    LiveAccounted(s, a);
    OrphansPaid(c, run, s.created[a]);
  }
}
