/**
 The replay cache. `NonceCache.Use` prunes expired entries, then accepts a key that is not
 remembered while fewer than `maximum` keys are. The reference is the full history of calls:
 the pruned map answers exactly as the history does, for every sequence of clock readings.
 */
module Nonces {
  import opened Strings
  import opened LeaseKeys

  type Entries = map<string, int>

  function Pruned(entries: Entries, now: int): Entries {
    map k | k in entries && entries[k] > now :: entries[k]
  }

  predicate Accepts(entries: Entries, maximum: int, key: string, now: int) {
    key !in Pruned(entries, now) && |Pruned(entries, now)| < maximum
  }

  function Used(entries: Entries, ttl: int, maximum: int, key: string, now: int): Entries {
    if Accepts(entries, maximum, key, now)
    then Pruned(entries, now)[key := now + ttl]
    else Pruned(entries, now)
  }

  class NonceCache {
    const digest: Digest
    const ttl: int
    const maximum: int
    var entries: Entries

    constructor (digest: Digest, ttl: int, maximum: int)
      ensures this.digest == digest && this.ttl == ttl && this.maximum == maximum
      ensures entries == map[]
    {
      this.digest, this.ttl, this.maximum := digest, ttl, maximum;
      entries := map[];
    }

    /** `range` visits the keys in any order while the loop deletes from the map it visits. */
    method Use(host: string, nonce: string, now: int) returns (accepted: bool)
      modifies this`entries
      ensures accepted == Accepts(old(entries), maximum, digest(Preimage(host, nonce)), now)
      ensures entries == Used(old(entries), ttl, maximum, digest(Preimage(host, nonce)), now)
    {
      var key := digest(Preimage(host, nonce));
      var pending := entries.Keys;
      while pending != {}
        invariant pending <= old(entries).Keys
        invariant entries == map k | k in old(entries) && (k in pending || old(entries)[k] > now) :: old(entries)[k]
        decreases |pending|
      {
        var entry :| entry in pending;
        if entries[entry] <= now {
          entries := entries - {entry};
        }
        pending := pending - {entry};
      }
      assert entries == Pruned(old(entries), now);
      if key in entries || |entries| >= maximum {
        return false;
      }
      entries := entries[key := now + ttl];
      return true;
    }
  }

  // ----- The full history as reference -----

  datatype Call = Call(key: string, now: int, accepted: bool)

  type History = seq<Call>

  /** The map after the calls of `h`. */
  ghost function EntriesAfter(ttl: int, maximum: int, h: History): Entries {
    if h == [] then map[]
    else Used(EntriesAfter(ttl, maximum, h[..|h| - 1]), ttl, maximum, h[|h| - 1].key, h[|h| - 1].now)
  }

  /** `h` records what the cache answered to each of its calls. */
  ghost predicate Recorded(ttl: int, maximum: int, h: History) {
    h != [] ==>
      var before := h[..|h| - 1];
      && Recorded(ttl, maximum, before)
      && h[|h| - 1].accepted == Accepts(EntriesAfter(ttl, maximum, before), maximum, h[|h| - 1].key, h[|h| - 1].now)
  }

  /** The acceptance at `i` had not expired at any later clock reading of `h`. */
  ghost predicate Surviving(ttl: int, h: History, i: int)
    requires 0 <= i < |h|
  {
    h[i].accepted && forall j | i < j < |h| :: h[i].now + ttl > h[j].now
  }

  ghost function Remembered(ttl: int, h: History, now: int): set<string> {
    set i | 0 <= i < |h| && Surviving(ttl, h, i) && h[i].now + ttl > now :: h[i].key
  }

  /** The surviving acceptance at `i` accounts for an entry of `key` that expires at `expires`. */
  ghost predicate Backs(ttl: int, h: History, i: int, key: string, expires: int) {
    0 <= i < |h| && Surviving(ttl, h, i) && h[i].key == key && h[i].now + ttl == expires
  }

  ghost predicate Backed(ttl: int, entries: Entries, h: History) {
    forall k | k in entries :: exists i :: Backs(ttl, h, i, k, entries[k])
  }

  ghost predicate Kept(ttl: int, entries: Entries, h: History) {
    forall i | 0 <= i < |h| && Surviving(ttl, h, i) ::
      h[i].key in entries && entries[h[i].key] == h[i].now + ttl
  }

  lemma {:induction false} EntriesCorrespond(ttl: int, maximum: int, h: History)
    requires Recorded(ttl, maximum, h)
    ensures Backed(ttl, EntriesAfter(ttl, maximum, h), h)
    ensures Kept(ttl, EntriesAfter(ttl, maximum, h), h)
  {
    if h != [] {
      EntriesCorrespond(ttl, maximum, h[..|h| - 1]);
      BackedAfterCall(ttl, maximum, h);
      KeptAfterCall(ttl, maximum, h);
    }
  }

  lemma {:induction false} SurvivingAfterCall(ttl: int, h: History, i: int)
    requires 0 <= i < |h| - 1
    ensures Surviving(ttl, h, i) <==> Surviving(ttl, h[..|h| - 1], i) && h[i].now + ttl > h[|h| - 1].now
  {
    var before := h[..|h| - 1];
    assert forall j | 0 <= j < |before| :: before[j] == h[j];
    if Surviving(ttl, before, i) && h[i].now + ttl > h[|h| - 1].now {
      forall j | i < j < |h| ensures h[i].now + ttl > h[j].now {
        if j < |h| - 1 { assert before[i].now + ttl > before[j].now; }
      }
    }
  }

  lemma {:induction false} BackedAfterCall(ttl: int, maximum: int, h: History)
    requires h != [] && Recorded(ttl, maximum, h)
    requires Backed(ttl, EntriesAfter(ttl, maximum, h[..|h| - 1]), h[..|h| - 1])
    ensures Backed(ttl, EntriesAfter(ttl, maximum, h), h)
  {
    var before, last := h[..|h| - 1], h[|h| - 1];
    var prior := EntriesAfter(ttl, maximum, before);
    var entries := Used(prior, ttl, maximum, last.key, last.now);
    forall k | k in entries
      ensures exists i :: Backs(ttl, h, i, k, entries[k])
    {
      if last.accepted && k == last.key {
        assert Backs(ttl, h, |h| - 1, k, entries[k]);
      } else {
        var i :| Backs(ttl, before, i, k, prior[k]);
        SurvivingAfterCall(ttl, h, i);
        assert Backs(ttl, h, i, k, entries[k]);
      }
    }
  }

  lemma {:induction false} KeptAfterCall(ttl: int, maximum: int, h: History)
    requires h != [] && Recorded(ttl, maximum, h)
    requires Kept(ttl, EntriesAfter(ttl, maximum, h[..|h| - 1]), h[..|h| - 1])
    ensures Kept(ttl, EntriesAfter(ttl, maximum, h), h)
  {
    var before, last := h[..|h| - 1], h[|h| - 1];
    var prior := EntriesAfter(ttl, maximum, before);
    forall i | 0 <= i < |h| && Surviving(ttl, h, i)
      ensures h[i].key in EntriesAfter(ttl, maximum, h)
      ensures EntriesAfter(ttl, maximum, h)[h[i].key] == h[i].now + ttl
    {
      if i < |h| - 1 {
        SurvivingAfterCall(ttl, h, i);
        assert before[i] == h[i];
        assert h[i].key in Pruned(prior, last.now);
      }
    }
  }

  /**
   The pruned map refines the history: what survives a prune at `now` is exactly the set of keys
   whose acceptance outlives every later reading and `now`.
   */
  lemma {:induction false} PrunedIsRemembered(ttl: int, maximum: int, h: History, now: int)
    requires Recorded(ttl, maximum, h)
    ensures Pruned(EntriesAfter(ttl, maximum, h), now).Keys == Remembered(ttl, h, now)
  {
    EntriesCorrespond(ttl, maximum, h);
    var entries := EntriesAfter(ttl, maximum, h);
    forall k ensures k in Pruned(entries, now) <==> k in Remembered(ttl, h, now) {
      if k in Pruned(entries, now) {
        var i :| Backs(ttl, h, i, k, entries[k]);
      }
    }
  }

  /** Main result for any clock: acceptance is decided by the history alone. */
  lemma {:induction false} AcceptsByHistory(ttl: int, maximum: int, h: History, key: string, now: int)
    requires Recorded(ttl, maximum, h)
    ensures Accepts(EntriesAfter(ttl, maximum, h), maximum, key, now)
       <==> key !in Remembered(ttl, h, now) && |Remembered(ttl, h, now)| < maximum
  {
    PrunedIsRemembered(ttl, maximum, h, now);
    var p := Pruned(EntriesAfter(ttl, maximum, h), now);
    assert |p| == |p.Keys|;
  }

  ghost predicate NonDecreasing(h: History) {
    forall i, j | 0 <= i < j < |h| :: h[i].now <= h[j].now
  }

  /** The keys whose acceptance is still inside its window at `now`. */
  ghost function Unexpired(ttl: int, h: History, now: int): set<string> {
    set i | 0 <= i < |h| && h[i].accepted && h[i].now + ttl > now :: h[i].key
  }

  /**
   With a clock that does not step back in lock order: a call is accepted if and only if no
   earlier acceptance of its key is still in its window and fewer than `maximum` keys are.
   */
  lemma {:induction false} AcceptsByWindow(ttl: int, maximum: int, h: History, key: string, now: int)
    requires Recorded(ttl, maximum, h)
    requires NonDecreasing(h) && forall i | 0 <= i < |h| :: h[i].now <= now
    ensures Accepts(EntriesAfter(ttl, maximum, h), maximum, key, now)
       <==> && (forall i | 0 <= i < |h| && h[i].accepted && h[i].key == key :: h[i].now + ttl <= now)
            && |Unexpired(ttl, h, now)| < maximum
  {
    AcceptsByHistory(ttl, maximum, h, key, now);
    assert forall i | 0 <= i < |h| && h[i].now + ttl > now :: Surviving(ttl, h, i) == h[i].accepted;
    assert Remembered(ttl, h, now) == Unexpired(ttl, h, now);
  }

  /** The map never holds more than `maximum` keys. */
  lemma {:induction false} Bounded(ttl: int, maximum: nat, h: History)
    ensures |EntriesAfter(ttl, maximum, h)| <= maximum
  {
    if h != [] {
      var before := EntriesAfter(ttl, maximum, h[..|h| - 1]);
      var now := h[|h| - 1].now;
      Bounded(ttl, maximum, h[..|h| - 1]);
      PrunedNoLarger(before, now);
    }
  }

  lemma {:induction false} PrunedNoLarger(entries: Entries, now: int)
    ensures |Pruned(entries, now)| <= |entries|
  {
    var p := Pruned(entries, now);
    assert p.Keys <= entries.Keys;
    SubsetSize(p.Keys, entries.Keys);
  }

  /**
   The clock assumption is needed: after a reading `ttl` later, at which another key is used, any
   reading inside the first window lets the first key through a second time.
   */
  lemma {:induction false} ClockStepBack(ttl: int, maximum: int, key: string, other: string, start: int, t: int)
    requires maximum >= 2 && key != other && start <= t < start + ttl
    ensures var h := [Call(key, start, true), Call(other, start + ttl, true), Call(key, t, true)];
            Recorded(ttl, maximum, h) && h[0].now + ttl > h[2].now
  {
    var a, b, c := Call(key, start, true), Call(other, start + ttl, true), Call(key, t, true);
    var h := [a, b, c];
    assert h[..2] == [a, b] && [a, b][..1] == [a] && [a][..0] == [];
    assert EntriesAfter(ttl, maximum, []) == map[];
    assert Pruned(map[], start) == map[];
    assert EntriesAfter(ttl, maximum, [a]) == map[key := start + ttl];
    assert Pruned(map[key := start + ttl], start + ttl) == map[];
    assert EntriesAfter(ttl, maximum, [a, b]) == map[other := start + ttl + ttl];
    assert Pruned(map[other := start + ttl + ttl], t) == map[other := start + ttl + ttl];
    assert Recorded(ttl, maximum, []) && Recorded(ttl, maximum, [a]) && Recorded(ttl, maximum, [a, b]);
  }
}
