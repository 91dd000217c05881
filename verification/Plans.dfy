/**
 Plans: the transition of an accepted request, and what chains of accepted plans can reach, each
 request starting from the state that the plan before it leads to.
 */
module Plans {
  import opened Decimal
  import opened Planner
  import opened Strings

  datatype Transition = Transition(
    from: LeaseState, to: LeaseState, observed: nat, expected: nat, target: nat, renewals: nat)

  function TargetState(operation: Operation): LeaseState {
    if operation.Revoke? then Revoked else Active
  }

  function TargetRenewals(r: Request): nat {
    if r.operation.Renew? then Add64(r.lease.renewals, 1)
    else if r.operation.Issue? || r.operation.Rotate? then 0
    else r.lease.renewals
  }

  /** The transition of `BuildPlan`. */
  function PlanTransition(r: Request): Transition {
    Transition(r.lease.state, TargetState(r.operation), r.lease.observed, r.lease.expected, r.lease.target, TargetRenewals(r))
  }

  // ----- Chains of plans -----

  /** The next request starts from what the plan of the one before it reaches. */
  predicate Continues(before: Request, next: Request) {
    var t := PlanTransition(before);
    next.lease.state == t.to && next.lease.observed == t.target && next.lease.renewals == t.renewals
  }

  /** Admissible requests, each from the state the plan before it reaches, the first from an absent lease. */
  predicate AdmissibleChain(rs: seq<Request>) {
    && rs != [] && rs[0].lease.state.Absent?
    && (forall i | 0 <= i < |rs| :: Admissible(rs[i]))
    && forall i | 0 < i < |rs| :: Continues(rs[i - 1], rs[i])
  }

  function Rotations(rs: seq<Request>): nat {
    if rs == [] then 0
    else Rotations(rs[..|rs| - 1]) + if rs[|rs| - 1].operation.Rotate? then 1 else 0
  }

  /** Renewals since the last issue or rotation. */
  function RecentRenewals(rs: seq<Request>): nat {
    if rs == [] then 0
    else
      var last := rs[|rs| - 1].operation;
      if last.Issue? || last.Rotate? then 0
      else RecentRenewals(rs[..|rs| - 1]) + if last.Renew? then 1 else 0
  }

  /** One link: the first request, or one that continues a plan that left a live generation. */
  lemma {:induction false} Link(t: Transition, r: Request)
    requires Admissible(r)
    requires r.lease.state == t.to && r.lease.observed == t.target && r.lease.renewals == t.renewals
    requires t.target > 0 && !t.to.Absent?
    ensures var u := PlanTransition(r);
            && t.to.Active? && !r.operation.Issue? && r.lease.observed > 0 && !u.to.Absent?
            && (u.to.Revoked? <==> r.operation.Revoke?)
            && u.target == (if r.operation.Rotate? then t.target + 1 else t.target) < TWO_64
            && u.renewals == (if r.operation.Rotate? then 0 else if r.operation.Renew? then t.renewals + 1 else t.renewals)
            && u.renewals <= MAX_RENEWALS
  {
  }

  predicate Reached(rs: seq<Request>, t: Transition) {
    && t.target == 1 + Rotations(rs) && t.target < TWO_64
    && t.renewals == RecentRenewals(rs) <= MAX_RENEWALS
    && !t.to.Absent?
    && (t.to.Revoked? <==> rs != [] && rs[|rs| - 1].operation.Revoke?)
  }

  /**
   Main result for plans: along every chain of accepted requests from an absent lease, the
   generation counts rotations, the renewal count counts renewals since the last issue or rotation
   and stays within its bound, and no addition wraps.
   */
  lemma {:induction false} ChainReaches(rs: seq<Request>)
    requires AdmissibleChain(rs)
    ensures Reached(rs, PlanTransition(rs[|rs| - 1]))
  {
    var n := |rs| - 1;
    var before, last := rs[..n], rs[n];
    assert Admissible(last);
    if n > 0 {
      Prefix(rs);
      ChainReaches(before);
      assert Continues(rs[n - 1], last);
      Link(PlanTransition(rs[n - 1]), last);
    } else {
      assert before == [];
    }
  }

  lemma {:induction false} Prefix(rs: seq<Request>)
    requires AdmissibleChain(rs) && |rs| > 1
    ensures AdmissibleChain(rs[..|rs| - 1])
  {
    var before := rs[..|rs| - 1];
    assert forall i | 0 <= i < |before| :: before[i] == rs[i];
  }

  /** Only the first request issues, a revocation is the last, and generation 0 is left at once and for good. */
  lemma {:induction false} ChainOrder(rs: seq<Request>)
    requires AdmissibleChain(rs)
    ensures forall i | 0 <= i < |rs| :: rs[i].operation.Issue? <==> i == 0
    ensures forall i | 0 <= i < |rs| - 1 :: !rs[i].operation.Revoke?
    ensures forall i | 0 < i < |rs| :: rs[i].lease.observed > 0
  {
    var n := |rs| - 1;
    assert Admissible(rs[n]);
    if n > 0 {
      var before := rs[..n];
      Prefix(rs);
      ChainOrder(before);
      ChainReaches(before);
      assert Continues(rs[n - 1], rs[n]);
      Link(PlanTransition(rs[n - 1]), rs[n]);
      assert forall i | 0 <= i < n :: before[i] == rs[i];
    }
  }

  /** What may follow an accepted request: nothing after a revocation, and never a second issue. */
  predicate MayFollow(t: Transition, next: Operation) {
    && t.to.Active?
    && match next
       case Issue => false
       case Renew => t.renewals < MAX_RENEWALS
       case Rotate => t.target < MAX_UINT64
       case Revoke => true
  }

  ghost predicate Follows(before: Request, next: Operation, renewable: bool) {
    exists r :: WellFormed(r) && Continues(before, r) && r.operation == next && r.lease.renewable == renewable
  }

  lemma {:induction false} FollowerAdmitted(before: Request, r: Request)
    requires Admissible(before) && Admissible(r) && Continues(before, r)
    ensures MayFollow(PlanTransition(before), r.operation) && (r.operation.Renew? ==> r.lease.renewable)
  {
  }

  /** A lease for the follower, otherwise as before. */
  function NextLease(before: Request, next: Operation, renewable: bool): Lease {
    var t := PlanTransition(before);
    before.lease.(
      state := Active, observed := t.target, expected := t.target,
      target := if next.Rotate? then t.target + 1 else t.target,
      renewals := t.renewals, renewable := renewable)
  }

  lemma {:induction false} NextLeaseShape(before: Request, next: Operation, renewable: bool)
    requires LeaseWellShaped(before.lease) && PlanTransition(before).renewals <= MAX_RENEWALS
    ensures LeaseWellShaped(NextLease(before, next, renewable))
  {
  }

  lemma {:induction false} FollowerAdmissible(before: Request, next: Operation, renewable: bool)
    requires Admissible(before) && MayFollow(PlanTransition(before), next) && (next.Renew? ==> renewable)
    ensures Admissible(Request(next, before.refs, NextLease(before, next, renewable)))
    ensures PlanTransition(before).renewals <= MAX_RENEWALS
  {
  }

  lemma {:induction false} FollowerExists(before: Request, next: Operation, renewable: bool)
    requires WellFormed(before) && MayFollow(PlanTransition(before), next) && (next.Renew? ==> renewable)
    ensures Follows(before, next, renewable)
  {
    var r := Request(next, before.refs, NextLease(before, next, renewable));
    FollowerAdmissible(before, next, renewable);
    NextLeaseShape(before, next, renewable);
    assert Continues(before, r);
    assert r.lease.ref == before.lease.ref;
    assert WellShaped(r);
  }

  /** An accepted request can be followed by exactly the operations its plan leaves open, a renewal only if the lease says it is renewable. */
  lemma {:induction false} NextOperations(before: Request, next: Operation, renewable: bool)
    requires WellFormed(before)
    ensures Follows(before, next, renewable) <==> MayFollow(PlanTransition(before), next) && (next.Renew? ==> renewable)
  {
    forall r | WellFormed(r) && Continues(before, r) && r.operation == next && r.lease.renewable == renewable
      ensures MayFollow(PlanTransition(before), next) && (next.Renew? ==> renewable)
    {
      FollowerAdmitted(before, r);
    }
    if MayFollow(PlanTransition(before), next) && (next.Renew? ==> renewable) {
      FollowerExists(before, next, renewable);
    }
  }

  /** Each plan starts where the one before it ended, and the first from an absent lease of generation 0. */
  lemma {:induction false} ChainConnects(rs: seq<Request>, i: nat)
    requires AdmissibleChain(rs) && i < |rs|
    ensures var t := PlanTransition(rs[i]);
            && t.expected == t.observed
            && (if i == 0 then t.from.Absent? && t.observed == 0
                else t.from == PlanTransition(rs[i - 1]).to && t.observed == PlanTransition(rs[i - 1]).target)
  {
    assert Admissible(rs[i]);
    if i > 0 { assert Continues(rs[i - 1], rs[i]); }
  }

  /** What the plan of an accepted request says of the lease: where it was, and where the request takes it. */
  lemma {:induction false} PlanSays(r: Request)
    requires Admissible(r)
    ensures var t := PlanTransition(r);
            && t.from == r.lease.state && t.observed == t.expected == r.lease.observed
            && (t.from.Absent? <==> r.operation.Issue?) && !t.from.Revoked?
            && t.to == (if r.operation.Revoke? then Revoked else Active)
            && t.target == t.observed + (if r.operation.Issue? || r.operation.Rotate? then 1 else 0)
            && t.renewals == (if r.operation.Issue? || r.operation.Rotate? then 0
                              else r.lease.renewals + if r.operation.Renew? then 1 else 0)
  {
  }

  /** Revoked is final: no accepted request starts from it. */
  lemma {:induction false} RevokedIsTerminal(v: StrictJson.Value, r: Request)
    requires CanonicalValue(v) && ParseRequest(v) == Some(r)
    ensures !r.lease.state.Revoked?
    ensures r.lease.observed == 0 <==> r.lease.state.Absent?
  {
    RequestReads(v, r);
  }
}
