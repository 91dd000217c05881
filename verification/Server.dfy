/**
 The two handlers over the objects they drive: the replay cache, the lease store and Vault. A
 handler runs here without interleaving; its critical section is the operation that the small-step
 machine is proved to perform as if atomically.
 */
module Server {
  import opened Strings
  import opened LeaseKeys
  import opened Requests
  import opened StateCodec
  import opened Nonces
  import opened Broker
  import opened BrokerSequential
  import Store = StateStore

  datatype Response = BadRequest | Unauthorized | Answered(status: Status)

  /** Vault as the set of its live accessors; the replies are what the caller hears. */
  class Vault {
    var live: set<Accessor>

    constructor ()
      ensures live == {}
    {
      live := {};
    }

    method Revoke(accessor: Accessor, reply: VaultReply) returns (ok: bool)
      modifies this
      ensures ok == reply.Acknowledged?
      ensures live == Without(old(live), accessor, reply)
      ensures ok ==> accessor !in live
    {
      if Effective(reply) {
        live := live - {accessor};
      }
      return reply.Acknowledged?;
    }

    method Issue(reply: IssueReply) returns (accessor: Option<Accessor>)
      modifies this
      ensures accessor == if reply.Issued? then Some(reply.accessor) else None
      ensures live == old(live) + if reply.Issued? then {reply.accessor} else {}
    {
      match reply
      case Issued(a) =>
        live := live + {a};
        return Some(a);
      case _ =>
        return None;
    }
  }

  /** What the outside world answers to one handler. */
  datatype Replies = Replies(revoke: VaultReply, issue: IssueReply, sealed: bool, undo: VaultReply, files: Store.Answers) {
    function Heard(): World {
      World(revoke, issue, sealed, files.Succeeds(), undo)
    }

    /** An accessor that Vault's reply is accepted with is a valid secret. */
    predicate Plausible() {
      issue.Issued? ==> ValidOpaqueSecret(issue.accessor, MAX_ACCESSOR_BYTES)
    }
  }

  class Server {
    const config: Config
    const nonces: NonceCache
    const store: Store.StateStore
    const vault: Vault

    ghost predicate Valid()
      reads this, store, store.directory
    {
      && HexDigest(config.digest) && store.Valid() && ValidLeases(store.leases)
      && nonces.digest == config.digest && nonces.ttl == config.ttl && nonces.maximum == config.maximum
    }

    constructor (config: Config, store: Store.StateStore, vault: Vault)
      requires HexDigest(config.digest) && store.Valid() && ValidLeases(store.leases)
      ensures Valid() && fresh(nonces) && nonces.entries == map[]
      ensures this.config == config && this.store == store && this.vault == vault
    {
      this.config, this.store, this.vault := config, store, vault;
      nonces := new NonceCache(config.digest, config.ttl, config.maximum);
    }

    ghost function Now(): Snapshot
      reads store, vault
    {
      Snapshot(store.leases, vault.live, {}, map[])
    }

    /** Memory, the lease file and Vault are as the operation leaves them. */
    ghost predicate Reaches(outcome: Outcome)
      reads this, store, store.directory, vault
    {
      Valid() && store.leases == outcome.leases && vault.live == outcome.live
    }

    method VerifyHostRequest(request: Request, signed: bool, now: int) returns (admitted: bool)
      requires Valid()
      modifies nonces`entries
      ensures Valid()
      ensures admitted == (signed && Accepts(old(nonces.entries), config.maximum, nonces.digest(Preimage(request.host, request.nonce)), now))
      ensures nonces.entries ==
        if signed then Used(old(nonces.entries), config.ttl, config.maximum, nonces.digest(Preimage(request.host, request.nonce)), now)
        else old(nonces.entries)
    {
      if !signed {
        return false;
      }
      admitted := nonces.Use(request.host, request.nonce, now);
    }

    /** The critical section of `handleIssue`. */
    method IssueSection(key: string, replies: Replies) returns (status: Status)
      requires Valid() && LeaseKey(key) && replies.Plausible()
      requires replies.files.name !in store.directory.temporaries
      modifies store`leases, store.directory, vault
      ensures Reaches(IssueOutcome(key, old(Now()), replies.Heard()))
      ensures status == IssueOutcome(key, old(Now()), replies.Heard()).status
      ensures !replies.files.remove ==> store.directory.temporaries == old(store.directory.temporaries)
    {
      var previous := store.Accessor(key);
      if previous != "" {
        var revoked := vault.Revoke(previous, replies.revoke);
        if !revoked {
          return BadGateway;
        }
      }
      var issued := vault.Issue(replies.issue);
      if issued.None? {
        return BadGateway;
      }
      if !replies.sealed {
        var _ := vault.Revoke(issued.value, replies.undo);
        return ServerError;
      }
      var stored := store.Set(key, issued.value, replies.files);
      if !stored {
        var _ := vault.Revoke(issued.value, replies.undo);
        return ServerError;
      }
      return OK;
    }

    /** The critical section of `handleRevoke`. */
    method RevokeSection(key: string, replies: Replies) returns (status: Status)
      requires Valid() && replies.files.name !in store.directory.temporaries
      modifies store`leases, store.directory, vault
      ensures Reaches(RevokeOutcome(key, old(Now()), replies.Heard()))
      ensures status == RevokeOutcome(key, old(Now()), replies.Heard()).status
      ensures !replies.files.remove ==> store.directory.temporaries == old(store.directory.temporaries)
    {
      var accessor := store.Accessor(key);
      if accessor == "" {
        return NoContent;
      }
      var revoked := vault.Revoke(accessor, replies.revoke);
      if !revoked {
        return BadGateway;
      }
      var removed := store.Delete(key, replies.files);
      return if removed then NoContent else ServerError;
    }

    ghost predicate Admitted(request: Request, checked: int, signed: bool, used: int)
      reads this, nonces
    {
      && Requests.Valid(config, request, checked) && signed
      && Accepts(nonces.entries, config.maximum, nonces.digest(Preimage(request.host, request.nonce)), used)
    }

    /** The replay cache is used only for valid, signed requests. */
    ghost function EntriesAfter(request: Request, checked: int, signed: bool, used: int): Entries
      reads this, nonces
    {
      if Requests.Valid(config, request, checked) && signed
      then Used(nonces.entries, config.ttl, config.maximum, nonces.digest(Preimage(request.host, request.nonce)), used)
      else nonces.entries
    }

    method HandleIssue(request: Request, checked: int, signed: bool, used: int, replies: Replies) returns (response: Response)
      requires Valid() && request.operation.Issue? && replies.Plausible()
      requires replies.files.name !in store.directory.temporaries
      modifies nonces`entries, store`leases, store.directory, vault
      ensures Valid()
      ensures response.BadRequest? <==> !Requests.Valid(config, request, checked)
      ensures response.Answered? <==> old(Admitted(request, checked, signed, used))
      ensures nonces.entries == old(EntriesAfter(request, checked, signed, used))
      ensures !replies.files.remove ==> store.directory.temporaries == old(store.directory.temporaries)
      ensures !response.Answered? ==> Now() == old(Now()) && store.directory.target == old(store.directory.target)
      ensures response.Answered? ==>
        && Reaches(Sequentially(request.operation, KeyOf(config, request), old(Now()), replies.Heard()))
        && response.status == Sequentially(request.operation, KeyOf(config, request), old(Now()), replies.Heard()).status
    {
      var ok := Validate(config, request, checked);
      if !ok {
        return BadRequest;
      }
      ok := VerifyHostRequest(request, signed, used);
      if !ok {
        return Unauthorized;
      }
      var status := IssueSection(KeyOf(config, request), replies);
      return Answered(status);
    }

    method HandleRevoke(request: Request, checked: int, signed: bool, used: int, replies: Replies) returns (response: Response)
      requires Valid() && request.operation.Revoke?
      requires replies.files.name !in store.directory.temporaries
      modifies nonces`entries, store`leases, store.directory, vault
      ensures Valid()
      ensures response.BadRequest? <==> !Requests.Valid(config, request, checked)
      ensures response.Answered? <==> old(Admitted(request, checked, signed, used))
      ensures nonces.entries == old(EntriesAfter(request, checked, signed, used))
      ensures !replies.files.remove ==> store.directory.temporaries == old(store.directory.temporaries)
      ensures !response.Answered? ==> Now() == old(Now()) && store.directory.target == old(store.directory.target)
      ensures response.Answered? ==>
        && Reaches(Sequentially(request.operation, KeyOf(config, request), old(Now()), replies.Heard()))
        && response.status == Sequentially(request.operation, KeyOf(config, request), old(Now()), replies.Heard()).status
    {
      var ok := Validate(config, request, checked);
      if !ok {
        return BadRequest;
      }
      ok := VerifyHostRequest(request, signed, used);
      if !ok {
        return Unauthorized;
      }
      var status := RevokeSection(KeyOf(config, request), replies);
      return Answered(status);
    }
  }
}
