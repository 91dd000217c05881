/**
 Validation of signed requests. The time library is represented by its result: a timestamp is the
 instant it denotes, if any.
 */
module Requests {
  import opened Strings
  import opened LeaseKeys
  import opened Paths
  import opened Base64

  datatype Config = Config(allowed: set<string>, ttl: int, maximum: int, digest: Digest)

  /** An issue names the policies of the token and the file that is to hold it. */
  datatype Operation = Issue(policies: seq<string>, file: string, uid: string, gid: string, mode: string) | Revoke

  datatype Request = Request(
    operation: Operation, version: int, host: string, volume: string,
    timestamp: Option<int>, nonce: string)

  /** The key of the lease the request is about. */
  function KeyOf(config: Config, request: Request): string {
    LeaseStateKey(config.digest, request.host, request.volume)
  }

  const MAX_POLICIES: nat := 16

  /** `sort.StringsAreSorted`. */
  predicate StringsAreSorted(s: seq<string>) {
    forall i | 0 < i < |s| :: !Below(s[i], s[i - 1])
  }

  /** A non-empty set of at most 16 allowed policies, listed in strictly increasing order. */
  ghost predicate PoliciesAccepted(allowed: set<string>, policies: seq<string>) {
    && 1 <= |policies| <= MAX_POLICIES
    && StrictlyIncreasing(policies)
    && forall p | p in policies :: ValidName(p, 64) && p in allowed
  }

  /** Sorted neighbours that differ make a strictly increasing list. */
  lemma {:induction false} SortedDistinctIncreases(s: seq<string>, n: nat)
    requires n <= |s| && StringsAreSorted(s)
    requires forall i | 0 < i < n :: s[i] != s[i - 1]
    ensures StrictlyIncreasing(s[..n])
  {
    if n > 1 {
      SortedDistinctIncreases(s, n - 1);
      BelowTotal(s[n - 2], s[n - 1]);
      forall i, j | 0 <= i < j < n
        ensures Below(s[i], s[j])
      {
        if j < n - 1 {
          assert Below(s[..n - 1][i], s[..n - 1][j]);
        } else if i < n - 2 {
          assert Below(s[..n - 1][i], s[..n - 1][n - 2]);
          BelowTransitive(s[i], s[n - 2], s[n - 1]);
        }
      }
    }
  }

  lemma {:induction false} IncreasingIsSorted(s: seq<string>)
    requires StrictlyIncreasing(s)
    ensures StringsAreSorted(s) && forall i | 0 < i < |s| :: s[i] != s[i - 1]
  {
    forall i | 0 < i < |s|
      ensures !Below(s[i], s[i - 1]) && s[i] != s[i - 1]
    {
      assert Below(s[i - 1], s[i]);
      BelowIrreflexive(s[i]);
      if Below(s[i], s[i - 1]) { BelowTransitive(s[i], s[i - 1], s[i]); }
    }
  }

  method ValidatePolicies(policies: seq<string>, allowed: set<string>) returns (ok: bool)
    ensures ok <==> PoliciesAccepted(allowed, policies)
  {
    if StrictlyIncreasing(policies) { IncreasingIsSorted(policies); }
    if |policies| == 0 || |policies| > MAX_POLICIES || !StringsAreSorted(policies) {
      return false;
    }
    var previous := "";
    for i := 0 to |policies|
      invariant previous == if i == 0 then "" else policies[i - 1]
      invariant forall j | 0 <= j < i :: ValidName(policies[j], 64) && policies[j] in allowed
      invariant forall j | 0 < j < i :: policies[j] != policies[j - 1]
    {
      var policy := policies[i];
      if !ValidName(policy, 64) || policy == previous {
        return false;
      }
      if policy !in allowed {
        return false;
      }
      previous := policy;
    }
    SortedDistinctIncreases(policies, |policies|);
    assert policies[..|policies|] == policies;
    return true;
  }

  /** Two accepted lists with the same members are the same list. */
  lemma {:induction false} PoliciesCanonical(allowed: set<string>, a: seq<string>, b: seq<string>)
    requires PoliciesAccepted(allowed, a) && PoliciesAccepted(allowed, b)
    ensures Elements(a) == Elements(b) <==> a == b
    ensures Elements(a) <= allowed && Elements(a) != {}
  {
    NoElements(a);
    if Elements(a) == Elements(b) { EnumerationUnique(a, b); }
  }

  const NONCE_BYTES: nat := 24

  predicate WithinWindow(timestamp: int, window: int, now: int) {
    -window <= now - timestamp <= window
  }

  /** `validateFreshness`. */
  predicate Fresh(request: Request, window: int, now: int) {
    && request.timestamp.Some?
    && WithinWindow(request.timestamp.value, window, now)
    && DecodedLength(request.nonce) == Some(NONCE_BYTES)
  }

  ghost predicate FileAccepted(operation: Operation)
    requires operation.Issue?
  {
    SafePath(operation.file) && Ownership(operation.uid) && Ownership(operation.gid) && ReadOnlyMode(operation.mode)
  }

  /** `issueRequest.validate` and `revokeRequest.validate`. */
  ghost predicate Valid(config: Config, request: Request, now: int) {
    && request.version == 1 && ValidName(request.host, 128) && ValidName(request.volume, 128)
    && Fresh(request, config.ttl, now)
    && (request.operation.Issue? ==>
          FileAccepted(request.operation) && PoliciesAccepted(config.allowed, request.operation.policies))
  }

  method ValidateFile(operation: Operation) returns (ok: bool)
    requires operation.Issue?
    ensures ok <==> FileAccepted(operation)
  {
    ok := ValidRelativePath(operation.file);
    if ok { ok := ValidOwnership(operation.uid); }
    if ok { ok := ValidOwnership(operation.gid); }
    ok := ok && ReadOnlyMode(operation.mode);
  }

  method Validate(config: Config, request: Request, now: int) returns (ok: bool)
    ensures ok <==> Valid(config, request, now)
  {
    if request.version != 1 || !ValidName(request.host, 128) || !ValidName(request.volume, 128) {
      return false;
    }
    if request.operation.Issue? {
      ok := ValidateFile(request.operation);
      if !ok {
        return false;
      }
    }
    if !Fresh(request, config.ttl, now) {
      return false;
    }
    if request.operation.Issue? {
      ok := ValidatePolicies(request.operation.policies, config.allowed);
      return;
    }
    return true;
  }
}
