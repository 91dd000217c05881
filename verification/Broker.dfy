/**
 The lease broker as a small-step machine. Requests are threads with program counters; one label
 is one micro-step of one thread, or something the environment does: a token that Vault creates
 after its reply was lost, a token that dies outside the broker (its lease ends, or a revoke that
 had no answer takes effect late), a crash, a restart. A label carries what the outside world
 answered. Any enabled label may come next, so a run is an arbitrary interleaving with arbitrary
 faults.

 `entry` and `world` of a thread and `expired` and `history` of a state are bookkeeping: no step
 reads them to decide anything.
 */
module Broker {
  import opened Strings
  import opened LeaseKeys
  import opened Nonces
  import opened Requests
  import opened StateCodec

  type Accessor = string
  type Id = nat

  /**
   The operator's configuration, and what a start reads from the file a persist has written for a
   lease map: that map, or nothing when the start refuses the file.
   */
  datatype System = System(config: Config, reload: Leases -> Option<Leases>) {
    ghost predicate WellFormed() {
      && HexDigest(config.digest)
      && forall leases | ValidLeases(leases) :: reload(leases).None? || reload(leases) == Some(leases)
    }
  }

  /** The start-up code and the persisted text meet this assumption. */
  ghost function Reload(read: Reader, leases: Leases): Option<Leases> {
    match Load(read, Some(Written(leases)))
    case Loaded(found) => Some(found)
    case _ => None
  }

  /** The broker with the start-up code and the text of this repository. */
  ghost function Actual(config: Config, read: Reader): System {
    System(config, m => Reload(read, m))
  }

  lemma {:induction false} ReloadWellFormed(config: Config, read: Reader, leases: Leases)
    requires HexDigest(config.digest) && ReadsOwn(read)
    ensures Actual(config, read).WellFormed() && Actual(config, read).reload(leases) == Reload(read, leases)
    ensures ValidLeases(leases) ==> Reload(read, leases) == if Loadable(leases) then Some(leases) else None
  {
    forall m | ValidLeases(m) ensures Reload(read, m).None? || Reload(read, m) == Some(m) {
      LoadAfterPersist(read, m);
    }
    if ValidLeases(leases) { LoadAfterPersist(read, leases); }
  }

  datatype Pc =
    | Received                   // body read and decoded
    | Validated                  // request fields and freshness accepted
    | Waiting                    // host verified, nonce used; next is operationMu.Lock
    | Looking                    // operationMu held; next is state.accessor
    | Revoking(previous: Accessor)
    | Issuing
    | Sealing(accessor: Accessor)  // next is encryptLeaseRecord
    | Storing(accessor: Accessor)  // next is state.set
    | Dropping                   // next is state.remove
    | Persisting(saved: Option<Accessor>, accessor: Accessor) // store lock held, memory tentative
    | Committed                  // the file is renamed, store lock held
    | Undoing(accessor: Accessor)  // next is the compensating vault.revoke

  datatype Status = OK | NoContent | ServerError | BadGateway

  /** A failed revoke may or may not have reached the token. */
  datatype VaultReply = Acknowledged | Failed(effective: bool)
  datatype IssueReply = Refused | Lost | Issued(accessor: Accessor)

  /** What the outside world has answered to one operation so far; failure until answered. */
  datatype World = World(revoke: VaultReply, issue: IssueReply, sealed: bool, persisted: bool, undo: VaultReply)

  const NO_ANSWERS := World(Failed(false), Refused, false, false, Failed(false))

  datatype Snapshot = Snapshot(
    leases: Leases, live: set<Accessor>, expired: set<Accessor>, created: map<Accessor, string>)

  const NOTHING := Snapshot(map[], {}, {}, map[])

  datatype Thread = Thread(request: Request, key: string, pc: Pc, entry: Snapshot, world: World)

  /** A finished critical section; no reply means that a crash ended it. */
  datatype Record = Record(id: Id, operation: Operation, key: string, entry: Snapshot, world: World,
                           exit: Snapshot, reply: Option<Status>)

  datatype State = State(
    up: bool,
    created: map<Accessor, string>,  // every accessor Vault ever made, and the key it was made for
    live: set<Accessor>,
    expired: set<Accessor>,          // what died outside the broker
    lost: multiset<string>,          // keys of token requests that had no answer and may still be served
    memory: Leases,
    disk: Leases,                    // the map the lease file holds
    nonces: Entries,
    lock: Option<Id>,                // operationMu
    storeLock: Option<Id>,           // stateStore.mu
    threads: map<Id, Thread>,
    history: seq<Record>)

  const INITIAL := State(false, map[], {}, {}, multiset{}, map[], map[], map[], None, None, map[], [])

  datatype Label =
    | Arrive(id: Id, request: Request)
    | Check(id: Id, now: int)
    | Admit(id: Id, signed: bool, now: int)
    | Acquire(id: Id)
    | Look(id: Id)
    | RevokeDone(id: Id)
    | RevokeFailed(id: Id, effective: bool)
    | IssueDone(id: Id, accessor: Accessor)
    | IssueRefused(id: Id)
    | IssueLost(id: Id)
    | SealDone(id: Id)
    | SealFailed(id: Id)
    | BeginStore(id: Id)
    | Rename(id: Id)
    | PersistFailed(id: Id)
    | Reply(id: Id)
    | UndoDone(id: Id)
    | UndoFailed(id: Id, effective: bool)
    | LateToken(key: string, accessor: Accessor)
    | Expire(accessor: Accessor)
    | Crash
    | Restart

  function Get(leases: Leases, key: string): Option<Accessor> {
    if key in leases then Some(leases[key]) else None
  }

  /** `state.accessor`: the empty string stands for no entry. */
  function Lookup(leases: Leases, key: string): Accessor {
    if key in leases then leases[key] else ""
  }

  function Now(s: State): Snapshot {
    Snapshot(s.disk, s.live, s.expired, s.created)
  }

  predicate At(s: State, id: Id) {
    s.up && id in s.threads
  }

  predicate FreshAccessor(s: State, a: Accessor) {
    a !in s.created && ValidOpaqueSecret(a, MAX_ACCESSOR_BYTES)
  }

  ghost predicate Enabled(c: System, s: State, l: Label) {
    match l
    case Arrive(id, _) => s.up && id !in s.threads
    case Check(id, _) => At(s, id) && s.threads[id].pc.Received?
    case Admit(id, _, _) => At(s, id) && s.threads[id].pc.Validated?
    case Acquire(id) => At(s, id) && s.threads[id].pc.Waiting? && s.lock.None?
    case Look(id) => At(s, id) && s.threads[id].pc.Looking? && s.storeLock.None?
    case RevokeDone(id) =>
      At(s, id) && s.threads[id].pc.Revoking? && ValidOpaqueSecret(s.threads[id].pc.previous, MAX_ACCESSOR_BYTES)
    case RevokeFailed(id, _) => At(s, id) && s.threads[id].pc.Revoking?
    case IssueDone(id, a) => At(s, id) && s.threads[id].pc.Issuing? && FreshAccessor(s, a)
    case IssueRefused(id) => At(s, id) && s.threads[id].pc.Issuing?
    case IssueLost(id) => At(s, id) && s.threads[id].pc.Issuing?
    case SealDone(id) => At(s, id) && s.threads[id].pc.Sealing?
    case SealFailed(id) => At(s, id) && s.threads[id].pc.Sealing?
    case BeginStore(id) =>
      At(s, id) && (s.threads[id].pc.Storing? || s.threads[id].pc.Dropping?) && s.storeLock.None?
    case Rename(id) => At(s, id) && s.threads[id].pc.Persisting?
    case PersistFailed(id) => At(s, id) && s.threads[id].pc.Persisting?
    case Reply(id) => At(s, id) && s.threads[id].pc.Committed?
    case UndoDone(id) =>
      At(s, id) && s.threads[id].pc.Undoing? && ValidOpaqueSecret(s.threads[id].pc.accessor, MAX_ACCESSOR_BYTES)
    case UndoFailed(id, _) => At(s, id) && s.threads[id].pc.Undoing?
    case LateToken(k, a) => k in s.lost && FreshAccessor(s, a)
    case Expire(a) => a in s.live
    case Crash => s.up
    case Restart => !s.up && c.reload(s.disk).Some?
  }

  /** Thread `id` goes on at `pc`, having heard `world` so far. */
  function Goto(s: State, id: Id, pc: Pc, world: World): State
    requires id in s.threads
  {
    s.(threads := s.threads[id := s.threads[id].(pc := pc, world := world)])
  }

  /** The request is answered outside the critical section. */
  function Reject(s: State, id: Id): State {
    s.(threads := s.threads - {id})
  }

  function RecordOf(s: State, id: Id, world: World, reply: Option<Status>): Record
    requires id in s.threads
  {
    var t := s.threads[id];
    Record(id, t.request.operation, t.key, t.entry, world, Now(s), reply)
  }

  /** The response is written and operationMu released. */
  function Finish(s: State, id: Id, world: World, status: Status): State
    requires id in s.threads
  {
    s.(threads := s.threads - {id}, lock := None, history := s.history + [RecordOf(s, id, world, Some(status))])
  }

  function Create(s: State, key: string, a: Accessor): State {
    s.(created := s.created[a := key], live := s.live + {a})
  }

  function Kill(s: State, a: Accessor): State {
    s.(live := s.live - {a})
  }

  function ExpireStep(s: State, a: Accessor): State {
    Kill(s, a).(expired := s.expired + {a})
  }

  function NonceKey(c: System, r: Request): string {
    c.config.digest(Preimage(r.host, r.nonce))
  }

  ghost function Step(c: System, s: State, l: Label): State
    requires Enabled(c, s, l)
  {
    match l
    case Arrive(id, request) =>
      s.(threads := s.threads[id := Thread(request, KeyOf(c.config, request), Received, NOTHING, NO_ANSWERS)])
    case Check(id, now) => CheckStep(c, s, id, now)
    case Admit(id, signed, now) => AdmitStep(c, s, id, signed, now)
    case Acquire(id) => AcquireStep(s, id)
    case Look(id) => LookStep(s, id)
    case RevokeDone(id) => RevokeStep(s, id, Acknowledged)
    case RevokeFailed(id, effective) => RevokeStep(s, id, Failed(effective))
    case IssueDone(id, a) => IssueDoneStep(s, id, a)
    case IssueRefused(id) => IssueFailedStep(s, id, Refused)
    case IssueLost(id) => IssueFailedStep(s, id, Lost)
    case SealDone(id) => SealDoneStep(s, id)
    case SealFailed(id) => Goto(s, id, Undoing(s.threads[id].pc.accessor), s.threads[id].world)
    case BeginStore(id) => BeginStoreStep(s, id)
    case Rename(id) => RenameStep(s, id)
    case PersistFailed(id) => RollbackStep(s, id)
    case Reply(id) =>
      Finish(s.(storeLock := None), id, s.threads[id].world, SuccessOf(s.threads[id].request.operation))
    case UndoDone(id) => UndoStep(s, id, Acknowledged)
    case UndoFailed(id, effective) => UndoStep(s, id, Failed(effective))
    case LateToken(k, a) => Create(s, k, a).(lost := s.lost - multiset{k})
    case Expire(a) => ExpireStep(s, a)
    case Crash => CrashStep(s)
    case Restart => RestartStep(c, s)
  }

  function SuccessOf(operation: Operation): Status {
    if operation.Issue? then OK else NoContent
  }

  ghost function CheckStep(c: System, s: State, id: Id, now: int): State
    requires id in s.threads
  {
    if Valid(c.config, s.threads[id].request, now) then Goto(s, id, Validated, NO_ANSWERS) else Reject(s, id)
  }

  /** `verifyHostRequest`: the nonce is used only when the signature verifies. */
  ghost function AdmitStep(c: System, s: State, id: Id, signed: bool, now: int): State
    requires id in s.threads
  {
    var key := NonceKey(c, s.threads[id].request);
    if !signed then Reject(s, id)
    else
      var used := s.(nonces := Used(s.nonces, c.config.ttl, c.config.maximum, key, now));
      if Accepts(s.nonces, c.config.maximum, key, now) then Goto(used, id, Waiting, NO_ANSWERS) else Reject(used, id)
  }

  function AcquireStep(s: State, id: Id): State
    requires id in s.threads
  {
    s.(lock := Some(id), threads := s.threads[id := s.threads[id].(pc := Looking, entry := Now(s), world := NO_ANSWERS)])
  }

  function LookStep(s: State, id: Id): State
    requires id in s.threads
  {
    var t := s.threads[id];
    var accessor := Lookup(s.memory, t.key);
    if accessor != "" then Goto(s, id, Revoking(accessor), t.world)
    else if t.request.operation.Issue? then Goto(s, id, Issuing, t.world)
    else Finish(s, id, t.world, NoContent)
  }

  predicate Effective(reply: VaultReply) {
    reply.Acknowledged? || reply.effective
  }

  function RevokeStep(s: State, id: Id, reply: VaultReply): State
    requires id in s.threads && s.threads[id].pc.Revoking?
  {
    var t := s.threads[id];
    var told, world := if Effective(reply) then Kill(s, t.pc.previous) else s, t.world.(revoke := reply);
    if reply.Failed? then Finish(told, id, world, BadGateway)
    else Goto(told, id, if t.request.operation.Issue? then Issuing else Dropping, world)
  }

  function IssueDoneStep(s: State, id: Id, a: Accessor): State
    requires id in s.threads
  {
    var t := s.threads[id];
    Goto(Create(s, t.key, a), id, Sealing(a), t.world.(issue := Issued(a)))
  }

  /** After a lost reply Vault may still create the token. */
  function IssueFailedStep(s: State, id: Id, reply: IssueReply): State
    requires id in s.threads
  {
    var t := s.threads[id];
    var answered := Finish(s, id, t.world.(issue := reply), BadGateway);
    if reply.Lost? then answered.(lost := s.lost + multiset{t.key}) else answered
  }

  function SealDoneStep(s: State, id: Id): State
    requires id in s.threads && s.threads[id].pc.Sealing?
  {
    var t := s.threads[id];
    Goto(s, id, Storing(t.pc.accessor), t.world.(sealed := true))
  }

  /** The start of `stateStore.set` and `stateStore.remove`: the map is changed before it is written. */
  function BeginStoreStep(s: State, id: Id): State
    requires id in s.threads && (s.threads[id].pc.Storing? || s.threads[id].pc.Dropping?)
  {
    var t := s.threads[id];
    if t.pc.Storing? then
      if !ValidOpaqueSecret(t.pc.accessor, MAX_ACCESSOR_BYTES) then Goto(s, id, Undoing(t.pc.accessor), t.world)
      else
        Goto(s, id, Persisting(Get(s.memory, t.key), t.pc.accessor), t.world)
          .(memory := s.memory[t.key := t.pc.accessor], storeLock := Some(id))
    else if t.key !in s.memory then Finish(s, id, t.world, NoContent)
    else
      Goto(s, id, Persisting(Get(s.memory, t.key), ""), t.world)
        .(memory := s.memory - {t.key}, storeLock := Some(id))
  }

  function RenameStep(s: State, id: Id): State
    requires id in s.threads
  {
    Goto(s, id, Committed, s.threads[id].world.(persisted := true)).(disk := s.memory)
  }

  function RolledBack(s: State, id: Id): State
    requires id in s.threads && s.threads[id].pc.Persisting?
  {
    var t := s.threads[id];
    s.(memory := if t.pc.saved.Some? then s.memory[t.key := t.pc.saved.value] else s.memory - {t.key},
       storeLock := None)
  }

  function RollbackStep(s: State, id: Id): State
    requires id in s.threads && s.threads[id].pc.Persisting?
  {
    var t := s.threads[id];
    if t.request.operation.Issue? then Goto(RolledBack(s, id), id, Undoing(t.pc.accessor), t.world)
    else Finish(RolledBack(s, id), id, t.world, ServerError)
  }

  function UndoStep(s: State, id: Id, reply: VaultReply): State
    requires id in s.threads && s.threads[id].pc.Undoing?
  {
    var t := s.threads[id];
    Finish(if Effective(reply) then Kill(s, t.pc.accessor) else s, id, t.world.(undo := reply), ServerError)
  }

  /** The key for which the lock holder is waiting for a token. */
  function Asking(s: State): Option<string> {
    if s.lock.Some? && s.lock.value in s.threads && s.threads[s.lock.value].pc.Issuing?
    then Some(s.threads[s.lock.value].key) else None
  }

  /**
   Threads, locks, the memory map and the replay cache are gone; the file and Vault remain. A token
   request on the wire may still be served.
   */
  function CrashStep(s: State): State {
    var cut := if s.lock.Some? && s.lock.value in s.threads then [RecordOf(s, s.lock.value, s.threads[s.lock.value].world, None)] else [];
    s.(up := false, threads := map[], lock := None, storeLock := None, memory := map[], nonces := map[],
       lost := s.lost + (if Asking(s).Some? then multiset{Asking(s).value} else multiset{}),
       history := s.history + cut)
  }

  /** `loadStateStore` and `newServer`: the map comes from the file, the replay cache is empty. */
  function RestartStep(c: System, s: State): State
    requires c.reload(s.disk).Some?
  {
    s.(up := true, memory := c.reload(s.disk).value, nonces := map[])
  }

  // ----- Runs -----

  type Run = seq<Label>

  ghost predicate Legal(c: System, start: State, run: Run)
    decreases run, 0
  {
    run != [] ==>
      && Legal(c, start, run[..|run| - 1])
      && Enabled(c, After(c, start, run[..|run| - 1]), run[|run| - 1])
  }

  ghost function After(c: System, start: State, run: Run): State
    requires Legal(c, start, run)
    decreases run, 1
  {
    if run == [] then start else Step(c, After(c, start, run[..|run| - 1]), run[|run| - 1])
  }
}
