/** Session lifetimes, from the policy an admin may store to the cookies a browser gets. */
module SessionLifetimes {
  import opened Text
  import opened Int64

  // ------------------------------------------------------------------ session_policy

  datatype Field = Access | Refresh | Idle | Absolute

  datatype Policy = Policy(access: Option<int>, refresh: Option<int>, idle: Option<int>, absolute: Option<int>,
                           claims: seq<string>) {
    /** The policy with every lifetime outside keep left unset. */
    function Restrict(keep: set<Field>): Policy {
      Policy(if Access in keep then access else None,
             if Refresh in keep then refresh else None,
             if Idle in keep then idle else None,
             if Absolute in keep then absolute else None,
             claims)
    }
  }

  const MAX_ACCESS := 86400
  const MAX_REFRESH := 31536000
  const MAX_ABSOLUTE := 31536000

  function CheckRange(name: string, v: Option<int>, limit: int): Option<string> {
    if v.None? then None
    else if v.value <= 0 then Some(name + " must be > 0")
    else if v.value > limit then Some(name + " exceeds maximum")
    else None
  }

  function ValidateOrdering(p: Policy): Option<string> {
    if p.access.Some? && p.refresh.Some? && p.access.value >= p.refresh.value then
      Some("access_ttl must be less than refresh_ttl")
    else if p.access.Some? && p.idle.Some? && p.access.value > p.idle.value then
      Some("access_ttl must not exceed idle_timeout")
    else if p.idle.Some? && p.absolute.Some? && p.idle.value > p.absolute.value then
      Some("idle_timeout must not exceed absolute_timeout")
    else if p.idle.Some? && p.refresh.Some? && p.idle.value > p.refresh.value then
      Some("idle_timeout must not exceed refresh_ttl")
    else None
  }

  function Validate(p: Policy): Option<string> {
    var a := CheckRange("access_ttl", p.access, MAX_ACCESS);
    var r := CheckRange("refresh_ttl", p.refresh, MAX_REFRESH);
    var i := CheckRange("idle_timeout", p.idle, MAX_REFRESH);
    var b := CheckRange("absolute_timeout", p.absolute, MAX_ABSOLUTE);
    if a.Some? then a
    else if r.Some? then r
    else if i.Some? then i
    else if b.Some? then b
    else if exists c | c in p.claims :: c != "roles" then Some("unsupported access token claim")
    else ValidateOrdering(p)
  }

  predicate Accepted(p: Policy) { Validate(p).None? }

  predicate Within(v: Option<int>, limit: int) { v.Some? ==> 0 < v.value <= limit }

  predicate AtMost(a: Option<int>, b: Option<int>) { a.Some? && b.Some? ==> a.value <= b.value }

  predicate OnlyRoles(claims: seq<string>) { forall c | c in claims :: c == "roles" }

  /** The rules at once: ranges, claims, and four comparisons between lifetimes that are both set. */
  predicate Rules(p: Policy) {
    && Within(p.access, 86_400) && Within(p.refresh, 31_536_000)
    && Within(p.idle, 31_536_000) && Within(p.absolute, 31_536_000)
    && OnlyRoles(p.claims)
    && (p.access.Some? && p.refresh.Some? ==> p.access.value < p.refresh.value)
    && AtMost(p.access, p.idle) && AtMost(p.idle, p.absolute) && AtMost(p.idle, p.refresh)
  }

  /** The checks, whatever their order, accept exactly the policies that meet the rules. */
  lemma AcceptedIff(p: Policy)
    ensures Accepted(p) <==> Rules(p)
  {
  }

  /** Leaving lifetimes unset never makes an accepted policy unacceptable. */
  lemma UnsettingKeepsAcceptance(p: Policy, keep: set<Field>)
    requires Accepted(p)
    ensures Accepted(p.Restrict(keep))
  {
    AcceptedIff(p);
    AcceptedIff(p.Restrict(keep));
  }

  lemma PairAccepted(p: Policy, x: Field, y: Field)
    requires forall keep: set<Field> | |keep| <= 2 :: Accepted(p.Restrict(keep))
    ensures Rules(p.Restrict({x, y}))
  {
    assert Accepted(p.Restrict({x, y}));
    AcceptedIff(p.Restrict({x, y}));
  }

  /** All constraints are between at most two lifetimes: a policy is accepted exactly when each of
      its restrictions to at most two lifetimes is. */
  lemma PairsDecide(p: Policy)
    ensures Accepted(p) <==> forall keep: set<Field> | |keep| <= 2 :: Accepted(p.Restrict(keep))
  {
    hide Accepted;
    AcceptedIff(p);
    if Accepted(p) {
      forall keep: set<Field> | |keep| <= 2 ensures Accepted(p.Restrict(keep)) {
        UnsettingKeepsAcceptance(p, keep);
      }
    }
    if forall keep: set<Field> | |keep| <= 2 :: Accepted(p.Restrict(keep)) {
      PairAccepted(p, Access, Refresh);
      PairAccepted(p, Access, Idle);
      PairAccepted(p, Idle, Absolute);
      PairAccepted(p, Idle, Refresh);
      assert Rules(p);
    }
  }

  lemma TwoMembers(keep: set<Field>)
    ensures Access in keep && Refresh in keep ==> |keep| >= 2
  {
    if Access in keep && Refresh in keep {
      assert Refresh in keep - {Access};
      assert |keep - {Access}| == |keep| - 1;
    }
  }

  /** Single lifetimes do not decide: both are fine alone, not together. */
  lemma SinglesDoNotDecide()
    ensures
      var p := Policy(Some(5), Some(5), None, None, []);
      !Accepted(p) && forall keep: set<Field> | |keep| <= 1 :: Accepted(p.Restrict(keep))
  {
    var p := Policy(Some(5), Some(5), None, None, []);
    forall keep: set<Field> | |keep| <= 1 ensures Accepted(p.Restrict(keep)) {
      TwoMembers(keep);
    }
  }

  predicate Full(p: Policy) {
    p.access.Some? && p.refresh.Some? && p.idle.Some? && p.absolute.Some?
  }

  /** With every lifetime set, the rules are one chain from 0 to the limits, in which half of the
      range checks are redundant. */
  lemma FullPolicyOrder(p: Policy)
    requires Full(p)
    ensures Accepted(p) <==>
              && OnlyRoles(p.claims)
              && 0 < p.access.value <= 86_400 && p.access.value < p.refresh.value
              && p.access.value <= p.idle.value <= p.refresh.value <= 31_536_000
              && p.idle.value <= p.absolute.value <= 31_536_000
  {
    AcceptedIff(p);
  }

  /** q sets every lifetime that p sets to the same value. */
  predicate Extends(q: Policy, p: Policy) {
    && (p.access.Some? ==> q.access == p.access)
    && (p.refresh.Some? ==> q.refresh == p.refresh)
    && (p.idle.Some? ==> q.idle == p.idle)
    && (p.absolute.Some? ==> q.absolute == p.absolute)
    && q.claims == p.claims
  }

  /** The largest idle timeout that goes with p, and defaults that get out of the way. */
  function Completion(p: Policy): Policy {
    var access := if p.access.Some? then p.access.value else 1;
    var refresh := if p.refresh.Some? then p.refresh.value else MAX_REFRESH;
    var absolute := if p.absolute.Some? then p.absolute.value else MAX_ABSOLUTE;
    var idle := if p.idle.Some? then p.idle.value else if refresh < absolute then refresh else absolute;
    Policy(Some(access), Some(refresh), Some(idle), Some(absolute), p.claims)
  }

  /** Not every accepted policy is part of a fully specified one: an unset lifetime can stand between
      two that contradict each other.  Exactly two comparisons are missing from the checks. */
  lemma CompletableIff(p: Policy)
    ensures (exists q :: Extends(q, p) && Full(q) && Accepted(q)) <==>
              Accepted(p) && AtMost(p.access, p.absolute) && (p.refresh.Some? ==> p.refresh.value > 1)
  {
    hide Accepted;
    AcceptedIff(p);
    if q :| Extends(q, p) && Full(q) && Accepted(q) {
      AcceptedIff(q);
    }
    if Accepted(p) && AtMost(p.access, p.absolute) && (p.refresh.Some? ==> p.refresh.value > 1) {
      var q := Completion(p);
      AcceptedIff(q);
      assert Extends(q, p) && Full(q) && Accepted(q);
    }
  }

  /** The comment above the check also names absolute <= refresh; the code does not enforce it. */
  lemma AbsoluteMayExceedRefresh()
    ensures exists p :: Accepted(p) && p.absolute.Some? && p.refresh.Some? && p.absolute.value > p.refresh.value
  {
    assert Accepted(Policy(Some(1), Some(2), Some(1), Some(3), []));
  }

  // ------------------------------------------------------------------ cookies

  const SECOND: int := 1_000_000_000
  const REFRESH_FALLBACK: int := 30 * 24 * 3600 * SECOND

  /** time.Duration(n) * time.Second */
  function Seconds(n: int): int { Wrap(n * SECOND) }

  /** int(ttl / time.Second) */
  function MaxAge(ttl: int): int { Quotient(ttl, SECOND) }

  /** The lifetime a browser reads: none without the attribute (a session cookie), 0 for deletion. */
  function Attribute(maxAge: int): Option<nat> {
    if maxAge > 0 then Some(maxAge) else if maxAge < 0 then Some(0) else None
  }

  /** The Max-Age attributes of the access and the refresh cookie of a session. */
  function SessionCookies(expiresIn: int, refreshExpiresIn: int): (Option<nat>, Option<nat>) {
    var refresh := Seconds(refreshExpiresIn);
    (Attribute(MaxAge(Seconds(expiresIn))),
     Attribute(MaxAge(if refresh <= 0 then REFRESH_FALLBACK else refresh)))
  }

  /** A lifetime survives the trip through nanoseconds exactly when it is below about 292 years. */
  lemma MaxAgeIsExactIff(n: int)
    requires InRange(n)
    ensures MaxAge(Seconds(n)) == n <==> -9223372036 <= n <= 9223372036
  {
    var d := Seconds(n);
    if -9223372036 <= n <= 9223372036 {
      assert InRange(n * SECOND);
      assert d == n * SECOND;
    } else {
      assert -9223372036 <= MaxAge(d) <= 9223372036;
    }
  }

  /** The Max-Age attributes of any session whose lifetimes survive nanoseconds: a positive lifetime is
      kept, none makes a session cookie, a negative one deletes the access cookie; without a positive
      refresh lifetime the refresh cookie lives 30 days. */
  lemma CookieLifetimes(expiresIn: int, refreshExpiresIn: int)
    requires -9223372036 <= expiresIn <= 9223372036 && -9223372036 <= refreshExpiresIn <= 9223372036
    ensures
      var (a, r) := SessionCookies(expiresIn, refreshExpiresIn);
      && (if expiresIn > 0 then a == Some(expiresIn) else if expiresIn == 0 then a == None else a == Some(0))
      && r == Some(if refreshExpiresIn > 0 then refreshExpiresIn else 2_592_000)
  {
    MaxAgeIsExactIff(expiresIn);
    MaxAgeIsExactIff(refreshExpiresIn);
    assert InRange(refreshExpiresIn * SECOND);
  }

  /** Under every accepted policy the cookies live exactly as long as configured, and the refresh
      cookie outlives the access cookie, also when the refresh lifetime falls back to 30 days. */
  lemma RefreshCookieOutlivesAccess(p: Policy)
    requires Accepted(p) && p.access.Some?
    ensures
      var refresh := if p.refresh.Some? then p.refresh.value else 0;
      var (a, r) := SessionCookies(p.access.value, refresh);
      && a == Some(p.access.value)
      && r == Some(if p.refresh.Some? then refresh else 30 * 24 * 3600)
      && a.value < r.value
  {
    MaxAgeIsExactIff(p.access.value);
    if p.refresh.Some? {
      MaxAgeIsExactIff(p.refresh.value);
      assert Seconds(p.refresh.value) == p.refresh.value * SECOND;
    }
  }
}
