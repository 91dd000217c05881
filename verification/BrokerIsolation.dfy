/**
 Lease isolation: a step of a request for one key changes neither the recorded accessor of another
 key nor which of that key's tokens live; crashes and restarts change no key's. Distinct valid
 (host, volume) pairs have distinct keys.
 */
module BrokerIsolation {
  import opened Strings
  import opened LeaseKeys
  import opened Broker
  import opened BrokerInvariant
  import opened BrokerOrphans

  /** The step belongs to `key`: a thread working on it, or an event at one of its tokens. */
  ghost predicate Concerns(s: State, l: Label, key: string) {
    match l
    case Arrive(_, _) => false
    case LateToken(k, _) => k == key
    case Expire(a) => a in s.created && s.created[a] == key
    case Crash => false
    case Restart => false
    case _ => l.id in s.threads && s.threads[l.id].key == key
  }

  ghost predicate SameLease(s: State, next: State, key: string) {
    Get(next.disk, key) == Get(s.disk, key) && LiveFor(next, key) == LiveFor(s, key)
  }

  /** Only `a`, made for another key, is born or dies. */
  lemma {:induction false} OtherToken(s: State, next: State, a: Accessor, key: string)
    requires Get(next.disk, key) == Get(s.disk, key)
    requires next.live - {a} == s.live - {a} && next.created - {a} == s.created - {a}
    requires a in s.created ==> a in next.created && next.created[a] == s.created[a]
    requires a in next.created ==> next.created[a] != key
    ensures SameLease(s, next, key)
  {
    forall b ensures b in LiveFor(next, key) <==> b in LiveFor(s, key) {
      if b != a {
        assert b in next.live - {a} <==> b in s.live - {a};
        assert b in next.created - {a} <==> b in s.created - {a};
        if b in s.created { assert (next.created - {a})[b] == (s.created - {a})[b]; }
      }
    }
  }

  lemma {:induction false} RevokeIsolated(s: State, id: Id, reply: VaultReply, key: string)
    requires Core(s) && At(s, id) && s.threads[id].pc.Revoking? && s.threads[id].key != key
    ensures SameLease(s, RevokeStep(s, id, reply), key)
  {
    assert s.lock == Some(id);
    OtherToken(s, RevokeStep(s, id, reply), s.threads[id].pc.previous, key);
  }

  lemma {:induction false} IssueIsolated(s: State, id: Id, a: Accessor, key: string)
    requires Core(s) && At(s, id) && s.threads[id].pc.Issuing? && s.threads[id].key != key && FreshAccessor(s, a)
    ensures SameLease(s, IssueDoneStep(s, id, a), key)
  {
    OtherToken(s, IssueDoneStep(s, id, a), a, key);
  }

  lemma {:induction false} UndoIsolated(s: State, id: Id, reply: VaultReply, key: string)
    requires Core(s) && At(s, id) && s.threads[id].pc.Undoing? && s.threads[id].key != key
    ensures SameLease(s, UndoStep(s, id, reply), key)
  {
    assert s.lock == Some(id);
    OtherToken(s, UndoStep(s, id, reply), s.threads[id].pc.accessor, key);
  }

  lemma {:induction false} RenameIsolated(s: State, id: Id, key: string)
    requires Core(s) && At(s, id) && s.threads[id].pc.Persisting? && s.threads[id].key != key
    ensures SameLease(s, RenameStep(s, id), key)
  {
    assert s.lock == Some(id);
  }

  lemma {:induction false} LateTokenIsolated(s: State, k: string, a: Accessor, key: string)
    requires FreshAccessor(s, a) && k != key
    ensures SameLease(s, Create(s, k, a).(lost := s.lost - multiset{k}), key)
  {
    OtherToken(s, Create(s, k, a).(lost := s.lost - multiset{k}), a, key);
  }

  lemma {:induction false} QuietOutside(c: System, s: State, l: Label, key: string)
    requires Enabled(c, s, l) && (l.Arrive? || l.Check? || l.Admit? || l.Acquire?)
    ensures SameLease(s, Step(c, s, l), key)
  {
  }

  lemma {:induction false} QuietLookup(c: System, s: State, l: Label, key: string)
    requires Enabled(c, s, l) && (l.Look? || l.IssueRefused? || l.IssueLost?)
    ensures SameLease(s, Step(c, s, l), key)
  {
  }

  lemma {:induction false} QuietSeal(c: System, s: State, l: Label, key: string)
    requires Enabled(c, s, l) && (l.SealDone? || l.SealFailed? || l.BeginStore?)
    ensures SameLease(s, Step(c, s, l), key)
  {
  }

  lemma {:induction false} QuietEnd(c: System, s: State, l: Label, key: string)
    requires Enabled(c, s, l) && (l.PersistFailed? || l.Reply? || l.Crash? || l.Restart?)
    ensures SameLease(s, Step(c, s, l), key)
  {
  }

  lemma {:induction false} VaultStepIsolated(c: System, s: State, l: Label, key: string)
    requires Core(s) && Enabled(c, s, l) && !Concerns(s, l, key)
    requires l.RevokeDone? || l.RevokeFailed? || l.IssueDone? || l.UndoDone? || l.UndoFailed?
    ensures SameLease(s, Step(c, s, l), key)
  {
    match l
    case RevokeDone(id) => RevokeIsolated(s, id, Acknowledged, key);
    case RevokeFailed(id, e) => RevokeIsolated(s, id, Failed(e), key);
    case IssueDone(id, a) => IssueIsolated(s, id, a, key);
    case UndoDone(id) => UndoIsolated(s, id, Acknowledged, key);
    case UndoFailed(id, e) => UndoIsolated(s, id, Failed(e), key);
    case _ =>
  }

  lemma {:induction false} EventIsolated(c: System, s: State, l: Label, key: string)
    requires Core(s) && Enabled(c, s, l) && !Concerns(s, l, key)
    requires l.Rename? || l.LateToken? || l.Expire?
    ensures SameLease(s, Step(c, s, l), key)
  {
    match l
    case Rename(id) => RenameIsolated(s, id, key);
    case LateToken(k, a) => LateTokenIsolated(s, k, a, key);
    case Expire(a) => OtherToken(s, ExpireStep(s, a), a, key);
    case _ =>
  }

  lemma {:induction false} StepIsolated(c: System, s: State, l: Label, key: string)
    requires Core(s) && Enabled(c, s, l) && !Concerns(s, l, key)
    ensures SameLease(s, Step(c, s, l), key)
  {
    if l.Arrive? || l.Check? || l.Admit? || l.Acquire? {
      QuietOutside(c, s, l, key);
    } else if l.Look? || l.IssueRefused? || l.IssueLost? {
      QuietLookup(c, s, l, key);
    } else if l.SealDone? || l.SealFailed? || l.BeginStore? {
      QuietSeal(c, s, l, key);
    } else if l.PersistFailed? || l.Reply? || l.Crash? || l.Restart? {
      QuietEnd(c, s, l, key);
    } else if l.Rename? || l.LateToken? || l.Expire? {
      EventIsolated(c, s, l, key);
    } else {
      VaultStepIsolated(c, s, l, key);
    }
  }

  ghost predicate NeverConcerns(c: System, start: State, run: Run, key: string)
    requires Legal(c, start, run)
  {
    forall i | 0 <= i < |run| :: StepAt(c, start, run, i, key)
  }

  /** Step `i` of the run is not a step of `key`. */
  ghost predicate StepAt(c: System, start: State, run: Run, i: nat, key: string)
    requires i < |run|
  {
    Legal(c, start, run[..i]) && !Concerns(After(c, start, run[..i]), run[i], key)
  }

  /**
   Main result: over every run from a reachable state in which no step belongs to `key`, its
   recorded accessor and its live tokens stay what they were.
   */
  lemma {:induction false} RunIsolated(c: System, start: State, run: Run, key: string)
    requires c.WellFormed() && Invariant(c, start) && Legal(c, start, run)
    requires NeverConcerns(c, start, run, key)
    ensures SameLease(start, After(c, start, run), key)
  {
    if run != [] {
      var n := |run| - 1;
      var before := run[..n];
      forall i | 0 <= i < n ensures StepAt(c, start, before, i, key) {
        assert StepAt(c, start, run, i, key);
        assert before[..i] == run[..i];
      }
      RunIsolated(c, start, before, key);
      RunKeeps(c, start, before);
      assert StepAt(c, start, run, n, key);
      StepIsolated(c, After(c, start, before), run[n], key);
    }
  }

  /**
   A thread past validation concerns the key of a valid pair only if it is for that pair, provided
   the digest does not collide on the two.
   */
  lemma {:induction false} ThreadsConcernTheirPair(c: System, s: State, id: Id, host: string, volume: string)
    requires Invariant(c, s) && id in s.threads && !s.threads[id].pc.Received?
    requires ValidName(host, 128)
    requires var r := s.threads[id].request;
             (c.config.digest(Preimage(r.host, r.volume)) == c.config.digest(Preimage(host, volume))
              ==> Preimage(r.host, r.volume) == Preimage(host, volume))
    ensures var r := s.threads[id].request;
            s.threads[id].key == LeaseStateKey(c.config.digest, host, volume) <==> r.host == host && r.volume == volume
  {
    var r := s.threads[id].request;
    assert Checked(c, s.threads[id]);
    DistinctPairsDistinctKeys(c.config.digest, r.host, r.volume, host, volume);
  }
}
