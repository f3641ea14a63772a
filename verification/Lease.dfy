/** Expiring proxy access for directory accounts: creation and notices (apps/api/src/routes/portalOidc.ts),
    sign-ins (apps/api/src/routes/oidc.ts), the sweep (apps/api/src/services/accessLease.ts) and the
    administrator's patch (apps/api/src/routes/proxyIdentity.ts). Times are milliseconds. */
module Lease {
  import opened Text

  const DAY: int := 86_400_000

  datatype Policy = Policy(leaseDays: nat, renewalWindowDays: nat) {
    function Lease(): int { leaseDays * DAY }
    function Window(): int { renewalWindowDays * DAY }
  }

  /** A window wider than the lease is cut to the lease. */
  function AccessLeasePolicy(leaseDays: nat, renewalWindowDays: nat): (p: Policy)
    ensures 0 <= p.Window() <= p.Lease() == leaseDays * 24 * 60 * 60 * 1000
    ensures renewalWindowDays <= leaseDays ==> p.Window() == renewalWindowDays * 24 * 60 * 60 * 1000
    ensures renewalWindowDays >= leaseDays ==> p.Window() == p.Lease()
  {
    Policy(leaseDays, if renewalWindowDays < leaseDays then renewalWindowDays else leaseDays)
  }

  datatype Status = Active | Disabled

  datatype Reason = ClaimWithdrawn | LeaseExpired

  datatype Account = Account(
    directory: bool,
    status: Status,
    disabledReason: Option<Reason>,
    validUntil: Option<int>,
    lastVerifiedAt: Option<int>,
    noticeAckAt: Option<int>)

  type Accounts = map<string, Account>

  datatype Audit = AuditDisabled(id: string,
                          reason: Reason) | AuditReactivated(id: string) | AuditAdminDisabled(id: string)

  // ----- the steps on one account -----

  function NewAccount(now: int, p: Policy): Account {
    Account(true, Active, None, Some(now + p.Lease()), Some(now), None)
  }

  /** The first moment at which a sign-in renews the lease. */
  function RenewableFrom(a: Account, p: Policy): int {
    match a.validUntil case None => 0 case Some(expiry) => expiry - p.Window()
  }

  predicate Renews(a: Account, now: int, p: Policy) { a.validUntil.None? || now >= RenewableFrom(a, p) }

  function Admitted(a: Account, now: int, p: Policy): Account {
    a.(lastVerifiedAt := Some(now),
       validUntil := if Renews(a, now, p) then Some(now + p.Lease()) else a.validUntil,
       status := if a.disabledReason.Some? then Active else a.status,
       disabledReason := None)
  }

  function Refused(a: Account): Account {
    if a.status == Active then a.(status := Disabled, disabledReason := Some(ClaimWithdrawn)) else a
  }

  predicate Stale(a: Account, now: int) {
    a.directory && a.status == Active && a.validUntil.Some? && a.validUntil.value < now
  }

  function SweptOne(a: Account, now: int): Account {
    if Stale(a, now) then a.(status := Disabled, disabledReason := Some(LeaseExpired)) else a
  }

  function Patched(a: Account, status: Option<Status>): Account {
    match status
    case None => a
    case Some(s) => a.(status := s, disabledReason := None)
  }

  function Swept(accounts: Accounts, now: int): Accounts { map id | id in accounts :: SweptOne(accounts[id], now) }

  /** What a sign-in records: it looks at the status before it. */
  function SignInAudits(id: string, a: Account, admitted: bool): seq<Audit> {
    if admitted then if a.status == Active then [] else [AuditReactivated(id)]
    else if a.status == Active then [AuditDisabled(id, ClaimWithdrawn)] else []
  }

  // ----- the table -----

  class AccountTable {
    const policy: Policy
    var accounts: Accounts
    var audits: seq<Audit>

    constructor (policy: Policy)
      ensures this.policy == policy && accounts == map[] && audits == []
    {
      this.policy, accounts, audits := policy, map[], [];
    }

    /** One person, one account. */
    method Create(id: string, now: int) returns (created: bool)
      modifies this
      ensures created == (id !in old(accounts)) && audits == old(audits)
      ensures accounts == if created then old(accounts)[id := NewAccount(now, policy)] else old(accounts)
    {
      if id in accounts { return false; }
      accounts := accounts[id := NewAccount(now, policy)];
      return true;
    }

    method SignIn(id: string, admitted: bool, now: int)
      modifies this
      ensures id !in old(accounts) || !old(accounts)[id].directory ==>
                accounts == old(accounts) && audits == old(audits)
      ensures id in old(accounts) && old(accounts)[id].directory ==>
                var a := old(accounts)[id];
                && accounts == old(accounts)[id := if admitted then Admitted(a, now, policy) else Refused(a)]
                && audits == old(audits) + SignInAudits(id, a, admitted)
    {
      if id !in accounts || !accounts[id].directory { return; }
      var account := accounts[id];
      if !admitted {
        if account.status == Active {
          accounts := accounts[id := account.(status := Disabled, disabledReason := Some(ClaimWithdrawn))];
          audits := audits + [AuditDisabled(id, ClaimWithdrawn)];
        }
        return;
      }
      var renews := account.validUntil.None? || now >= RenewableFrom(account, policy);
      accounts := accounts[id := Account(true,
                                         if account.disabledReason.Some? then Active else account.status,
                                         None,
                                         if renews then Some(now + policy.Lease()) else account.validUntil,
                                         Some(now),
                                         account.noticeAckAt)];
      if account.status != Active { audits := audits + [AuditReactivated(id)]; }
    }

    method Sweep(now: int) returns (count: nat)
      modifies this
      ensures accounts == Swept(old(accounts), now)
      ensures var stale := set id | id in old(accounts) && Stale(old(accounts)[id], now);
              count == |stale| && old(audits) <= audits && |audits| == |old(audits)| + count
              && forall audit :: audit in audits[|old(audits)|..] <==> exists id ::
                   id in stale && audit == AuditDisabled(id, LeaseExpired)
    {
      var changed := set id | id in accounts && Stale(accounts[id], now);
      accounts := Swept(accounts, now);
      count := |changed|;
      var todo := changed;
      while todo != {}
        invariant todo <= changed && accounts == Swept(old(accounts), now)
        invariant old(audits) <= audits && |audits| + |todo| == |old(audits)| + |changed|
        invariant forall audit :: audit in audits[|old(audits)|..] <==> exists id ::
                    id in changed - todo && audit == AuditDisabled(id, LeaseExpired)
        decreases |todo|
      {
        var id :| id in todo;
        ghost var before, left := audits, todo;
        todo := todo - {id};
        audits := audits + [AuditDisabled(id, LeaseExpired)];
        assert audits[|old(audits)|..] == before[|old(audits)|..] + [AuditDisabled(id, LeaseExpired)];
        assert changed - todo == (changed - left) + {id};
      }
    }

    method Patch(id: string, status: Option<Status>)
      modifies this
      ensures accounts
           == if id in old(accounts) then old(accounts)[id := Patched(old(accounts)[id], status)] else old(accounts)
      ensures var disables := id in old(accounts) && status == Some(Disabled) && old(accounts)[id].status != Disabled;
              audits == old(audits) + if disables then [AuditAdminDisabled(id)] else []
    {
      if id !in accounts { return; }
      var current := accounts[id];
      accounts := accounts[id := current.(status := if status.Some? then status.value else current.status,
                                          disabledReason := if status.Some? then None else current.disabledReason)];
      if status == Some(Disabled) && current.status != Disabled { audits := audits + [AuditAdminDisabled(id)]; }
    }

    method Acknowledge(id: string, now: int)
      modifies this`accounts
      ensures accounts == if id in old(accounts) && old(accounts)[id].directory
                          then old(accounts)[id := old(accounts)[id].(noticeAckAt := Some(now))] else old(accounts)
    {
      if id in accounts && accounts[id].directory {
        accounts := accounts[id := accounts[id].(noticeAckAt := Some(now))];
      }
    }
  }

  // ----- runs -----

  datatype Event =
    | CreateAccount(id: string, now: int)
    | CreateLocal(id: string, status: Status)
    | SignInEvent(id: string, admitted: bool, now: int)
    | SweepAll(now: int)
    | AdminPatch(id: string, newStatus: Option<Status>)
    | AcknowledgeNotice(id: string, now: int)
  {
    predicate Timed() { !CreateLocal? && !AdminPatch? }
  }

  function Step(accounts: Accounts, e: Event, p: Policy): Accounts {
    match e
    case CreateAccount(id, now) => if id in accounts then accounts else accounts[id := NewAccount(now, p)]
    case CreateLocal(id, status) => if id in accounts then accounts
                                    else accounts[id := Account(false, status, None, None, None, None)]
    case SignInEvent(id, admitted, now) =>
      if id !in accounts || !accounts[id].directory then accounts
      else accounts[id := if admitted then Admitted(accounts[id], now, p) else Refused(accounts[id])]
    case SweepAll(now) => Swept(accounts, now)
    case AdminPatch(id, status) => if id in accounts then accounts[id := Patched(accounts[id], status)] else accounts
    case AcknowledgeNotice(id, now) =>
      if id in accounts && accounts[id].directory then accounts[id := accounts[id].(noticeAckAt := Some(now))]
      else accounts
  }

  function RunOf(events: seq<Event>, p: Policy): Accounts {
    if events == [] then map[] else Step(RunOf(events[..|events| - 1], p), events[|events| - 1], p)
  }

  ghost predicate Timely(events: seq<Event>) {
    forall i, j :: 0 <= i < j < |events| && events[i].Timed() && events[j].Timed() ==> events[i].now <= events[j].now
  }

  ghost predicate Until(events: seq<Event>, clock: int) { forall e :: e in events && e.Timed() ==> e.now <= clock }

  // ----- what every run keeps -----

  /** A recorded reason means disabled; a directory account was verified at most one lease before its
      end of validity, and not in the future; a local account has no lease. */
  predicate Sound(a: Account, clock: int, p: Policy) {
    && (a.disabledReason.Some? ==> a.status == Disabled)
    && (a.directory ==> a.validUntil.Some? && a.lastVerifiedAt.Some?
                        && a.validUntil.value <= a.lastVerifiedAt.value + p.Lease() && a.lastVerifiedAt.value <= clock)
    && (!a.directory ==> a.validUntil.None? && a.disabledReason.None?)
  }

  ghost predicate AllSound(accounts: Accounts, clock: int, p: Policy) {
    forall id :: id in accounts ==> Sound(accounts[id], clock, p)
  }

  lemma StepKeepsSound(accounts: Accounts, e: Event, clock: int, p: Policy)
    requires AllSound(accounts, clock, p) && (e.Timed() ==> clock <= e.now)
    ensures AllSound(Step(accounts, e, p), if e.Timed() then e.now else clock, p)
  {
    hide Policy.Lease, Policy.Window;
  }

  lemma {:induction false} RunsAreSound(events: seq<Event>, clock: int, p: Policy)
    requires Timely(events) && Until(events, clock)
    ensures AllSound(RunOf(events, p), clock, p)
  {
    hide Sound, Step, Policy.Lease, Policy.Window;
    if events != [] {
      var init, e := events[..|events| - 1], events[|events| - 1];
      var before := if e.Timed() then e.now else clock;
      RunsAreSound(init, before, p);
      StepKeepsSound(RunOf(init, p), e, before, p);
      LaterClock(RunOf(events, p), before, clock, p);
    }
  }

  lemma LaterClock(accounts: Accounts, before: int, clock: int, p: Policy)
    requires AllSound(accounts, before, p) && before <= clock
    ensures AllSound(accounts, clock, p)
  {
    hide Policy.Lease;
  }

  lemma {:induction false} LatestTime(events: seq<Event>) returns (clock: int)
    ensures Until(events, clock)
  {
    if events == [] {
      clock := 0;
    } else {
      clock := LatestTime(events[..|events| - 1]);
      var e := events[|events| - 1];
      if e.Timed() && e.now > clock { clock := e.now; }
    }
  }

  /** Over every run valid_until is at most one lease after the last verification, and a recorded
      reason means that the account is disabled. */
  lemma LeaseIsBounded(events: seq<Event>, id: string, p: Policy)
    requires Timely(events) && id in RunOf(events, p)
    ensures var a := RunOf(events, p)[id];
            && (a.disabledReason.Some? ==> a.status == Disabled)
            && (a.directory ==> a.validUntil.Some? && a.lastVerifiedAt.Some?
                                && a.validUntil.value <= a.lastVerifiedAt.value + p.Lease())
  {
    hide Policy.Lease, Policy.Window;
    var clock := LatestTime(events);
    RunsAreSound(events, clock, p);
  }

  /** Right after a sweep every active directory account was verified within the last lease. */
  lemma ActiveMeansVerified(events: seq<Event>, now: int, id: string, p: Policy)
    requires Timely(events + [SweepAll(now)]) && id in RunOf(events + [SweepAll(now)], p)
    ensures var a := RunOf(events + [SweepAll(now)], p)[id];
            a.directory && a.status == Active ==>
              a.lastVerifiedAt.Some? && now - p.Lease() <= a.lastVerifiedAt.value <= now
  {
    hide Policy.Lease, Policy.Window;
    var all := events + [SweepAll(now)];
    assert all[..|events|] == events && all[|events|] == SweepAll(now);
    assert Until(all, now) by {
      forall e | e in all && e.Timed() ensures e.now <= now {
        var i :| 0 <= i < |all| && all[i] == e;
      }
    }
    RunsAreSound(all, now, p);
    assert RunOf(all, p) == Swept(RunOf(events, p), now);
  }

  /** An admitted sign-in leaves the lease open at that moment, and the account active unless an
      administrator had disabled it. */
  lemma AdmittedSignInIsCovered(events: seq<Event>, id: string, now: int, p: Policy)
    requires Timely(events) && id in RunOf(events, p) && RunOf(events, p)[id].directory
    ensures var a := RunOf(events, p)[id]; var next := Admitted(a, now, p);
            && next.validUntil.Some? && next.validUntil.value >= now && next.lastVerifiedAt == Some(now)
            && (next.status == Active <==> a.status == Active || a.disabledReason.Some?)
  {
    LeaseIsBounded(events, id, p);
  }

  // ----- renewals -----

  /** The event starts a new term of the account. */
  predicate StartsTerm(accounts: Accounts, e: Event, id: string, p: Policy) {
    match e
    case CreateAccount(i, now) => i == id && id !in accounts
    case SignInEvent(i, admitted, now) => i == id && admitted
         && id in accounts && accounts[id].directory && Renews(accounts[id], now, p)
    case _ => false
  }

  /** When the terms of an account began. */
  function TermStarts(events: seq<Event>, id: string, p: Policy): seq<int> {
    if events == [] then []
    else
      var init, e := events[..|events| - 1], events[|events| - 1];
      TermStarts(init, id, p) + if StartsTerm(RunOf(init, p), e, id, p) then [e.now] else []
  }

  /** When the renewal window of the current term opens: one lease after the last term began, less the window. */
  function WindowOpens(events: seq<Event>, id: string, p: Policy): int
    requires TermStarts(events, id, p) != []
  {
    var starts := TermStarts(events, id, p);
    starts[|starts| - 1] + p.Lease() - p.Window()
  }

  /** The end of the current term is one lease after it began. */
  lemma StepKeepsTerm(accounts: Accounts, e: Event, id: string, p: Policy, starts: seq<int>)
    requires id in accounts && accounts[id].directory ==>
               starts != [] && accounts[id].validUntil == Some(starts[|starts| - 1] + p.Lease())
    requires id !in accounts ==> starts == []
    ensures var next := Step(accounts, e, p);
            && (StartsTerm(accounts, e, id, p) ==>
                  id in next && next[id].directory && next[id].validUntil == Some(e.now + p.Lease()))
            && (!StartsTerm(accounts, e, id, p) && id in next && next[id].directory ==>
                  id in accounts && accounts[id].directory && next[id].validUntil == accounts[id].validUntil)
            && (id !in next ==> id !in accounts)
            && (StartsTerm(accounts, e, id, p) && starts != [] ==>
                  e.now - starts[|starts| - 1] >= p.Lease() - p.Window())
  {
    hide Policy.Lease, Policy.Window;
  }

  lemma {:induction false} TermsAreApart(events: seq<Event>, id: string, p: Policy)
    ensures var starts, accounts := TermStarts(events, id, p), RunOf(events, p);
            && (id in accounts && accounts[id].directory ==>
                  starts != [] && accounts[id].validUntil == Some(starts[|starts| - 1] + p.Lease()))
            && (id !in accounts ==> starts == [])
            && Spaced(starts, p.Lease() - p.Window())
  {
    hide Policy.Lease, Policy.Window, Step, Renews;
    if events != [] {
      var init, e := events[..|events| - 1], events[|events| - 1];
      TermsAreApart(init, id, p);
      StepKeepsTerm(RunOf(init, p), e, id, p, TermStarts(init, id, p));
      if StartsTerm(RunOf(init, p), e, id, p) { SpacedGrows(TermStarts(init, id, p), e.now, p.Lease() - p.Window()); }
    }
  }

  ghost predicate Spaced(starts: seq<int>, gap: int) {
    forall k :: 1 <= k < |starts| ==> starts[k] - starts[k - 1] >= gap
  }

  lemma SpacedGrows(starts: seq<int>, next: int, gap: int)
    requires Spaced(starts, gap) && (starts != [] ==> next - starts[|starts| - 1] >= gap)
    ensures Spaced(starts + [next], gap)
  {
  }

  /** The k-th and the m-th term of an account begin at least (m - k) times lease minus window apart,
      so that a period of any length holds only so many renewals. */
  lemma {:induction false} RenewalsAreSpaced(events: seq<Event>, id: string, k: nat, m: nat, p: Policy)
    requires k <= m < |TermStarts(events, id, p)|
    ensures TermStarts(events, id, p)[m] - TermStarts(events, id, p)[k] >= (m - k) * (p.Lease() - p.Window())
    decreases m
  {
    hide Policy.Lease, Policy.Window, TermStarts, RunOf;
    TermsAreApart(events, id, p);
    if k < m {
      RenewalsAreSpaced(events, id, k, m - 1, p);
      var gap := p.Lease() - p.Window();
      assert TermStarts(events, id, p)[m] - TermStarts(events, id, p)[m - 1] >= gap;
      assert (m - k) * gap == (m - 1 - k) * gap + gap;
    }
  }

  lemma TermsSnoc(events: seq<Event>, e: Event, id: string, p: Policy)
    ensures TermStarts(events + [e], id, p)
         == TermStarts(events, id, p) + if StartsTerm(RunOf(events, p), e, id, p) then [e.now] else []
  {
    hide RunOf, StartsTerm;
    assert (events + [e])[..|events|] == events;
  }

  lemma SignInStartsTerm(accounts: Accounts, id: string, admitted: bool, now: int, p: Policy)
    requires id in accounts && accounts[id].directory && accounts[id].validUntil.Some?
    ensures StartsTerm(accounts, SignInEvent(id, admitted, now), id, p)
       <==> admitted && now >= accounts[id].validUntil.value - p.Window()
  {
    hide Policy.Lease, Policy.Window;
  }

  /** A sign-in begins a new term exactly when it is admitted and the window of the current term is open. */
  lemma RenewsExactly(events: seq<Event>, id: string, admitted: bool, now: int, p: Policy)
    requires id in RunOf(events, p) && RunOf(events, p)[id].directory
    ensures TermStarts(events, id, p) != []
    ensures var after := events + [SignInEvent(id, admitted, now)];
            TermStarts(after, id, p)
            == TermStarts(events, id, p) + if admitted && now >= WindowOpens(events, id, p) then [now] else []
  {
    hide Spaced, RunOf, TermStarts, StartsTerm, Policy.Lease, Policy.Window;
    TermsAreApart(events, id, p);
    TermsSnoc(events, SignInEvent(id, admitted, now), id, p);
    SignInStartsTerm(RunOf(events, p), id, admitted, now, p);
  }

  // ----- who has access -----

  /** An account that is not active becomes active exactly when an administrator enables it, or when its
      owner signs in and is admitted although a reason was recorded. */
  lemma BecomesActiveExactly(accounts: Accounts, e: Event, id: string, p: Policy)
    requires id in accounts && accounts[id].status != Active
    ensures id in Step(accounts, e, p)
    ensures Step(accounts, e, p)[id].status == Active
       <==> e == AdminPatch(id, Some(Active))
            || (e.SignInEvent? && e.id == id && e.admitted
                && accounts[id].directory && accounts[id].disabledReason.Some?)
  {
    hide Policy.Lease, Policy.Window;
  }

  /** An active account stops being active exactly when an administrator disables it, when its owner signs in
      and is refused, or when a sweep finds its lease run out; the last two record the reason. */
  lemma LosesAccessExactly(accounts: Accounts, e: Event, id: string, p: Policy)
    requires id in accounts && accounts[id].status == Active
    ensures var a := accounts[id];
            var refused := e.SignInEvent? && e.id == id && !e.admitted && a.directory;
            var expired := e.SweepAll? && a.directory && a.validUntil.Some? && a.validUntil.value < e.now;
            id in Step(accounts, e, p) &&
            var next := Step(accounts, e, p)[id];
            && (next.status != Active <==> e == AdminPatch(id, Some(Disabled)) || refused || expired)
            && (refused ==> next == a.(status := Disabled, disabledReason := Some(ClaimWithdrawn)))
            && (expired ==> next == a.(status := Disabled, disabledReason := Some(LeaseExpired)))
  {
    hide Policy.Lease, Policy.Window;
  }

  /** Sweeps and refused sign-ins leave accounts alone that are not active, and a sweep leaves those alone
      whose lease has not run out. */
  lemma LeftAlone(accounts: Accounts, e: Event, id: string, p: Policy)
    requires id in accounts && (e.SweepAll? || (e.SignInEvent? && !e.admitted))
    requires accounts[id].status != Active
             || (e.SweepAll? && accounts[id].validUntil.Some? && accounts[id].validUntil.value >= e.now)
    ensures id in Step(accounts, e, p) && Step(accounts, e, p)[id] == accounts[id]
  {
    hide Policy.Lease, Policy.Window;
  }

  /** The event may give access back. */
  predicate GivesAccess(e: Event, id: string) {
    e == AdminPatch(id, Some(Active)) || (e.SignInEvent? && e.id == id && e.admitted)
  }

  /** A refused sign-in takes access away for good: however the run goes on, the account is not active until
      its owner is admitted or an administrator enables it. */
  lemma {:induction false} RefusalTakesAccess(before: seq<Event>, id: string, now: int, after: seq<Event>, p: Policy)
    requires id in RunOf(before, p) && RunOf(before, p)[id].directory
    requires forall e :: e in after ==> !GivesAccess(e, id)
    ensures var accounts := RunOf(before + [SignInEvent(id, false, now)] + after, p);
            id in accounts && accounts[id].status != Active
  {
    var events := before + [SignInEvent(id, false, now)] + after;
    var init, e := events[..|events| - 1], events[|events| - 1];
    assert RunOf(events, p) == Step(RunOf(init, p), e, p);
    hide Step, RunOf;
    if after == [] {
      assert init == before && e == SignInEvent(id, false, now);
      if RunOf(before, p)[id].status == Active {
        LosesAccessExactly(RunOf(before, p), e, id, p);
      } else {
        LeftAlone(RunOf(before, p), e, id, p);
      }
    } else {
      assert init == before + [SignInEvent(id, false, now)] + after[..|after| - 1] && e == after[|after| - 1];
      RefusalTakesAccess(before, id, now, after[..|after| - 1], p);
      assert e in after && !GivesAccess(e, id);
      BecomesActiveExactly(RunOf(init, p), e, id, p);
    }
  }

  /** What a sign-in writes to the audit log says whether it was refused to an active account. */
  lemma RefusalAuditExactly(accounts: Accounts, id: string, now: int, p: Policy)
    requires id in accounts && accounts[id].directory
    ensures var next := Step(accounts, SignInEvent(id, false, now), p);
            SignInAudits(id, accounts[id], false)
            == if next[id].status != accounts[id].status then [AuditDisabled(id, ClaimWithdrawn)] else []
  {
    hide Policy.Lease, Policy.Window;
  }

  /** A new account is active, verified, valid for one lease, and its notice is due. */
  lemma CreatedAccount(accounts: Accounts, id: string, now: int, p: Policy)
    requires id !in accounts
    ensures var a := Step(accounts, CreateAccount(id, now), p)[id];
            && a.directory && a.status == Active && a.lastVerifiedAt == Some(now)
            && a.validUntil == Some(now + p.Lease()) && forall at :: NoticeDue(a, at, p)
  {
    hide Policy.Lease, Policy.Window;
  }

  // ----- the administrator's decision -----

  predicate AdminDisabled(a: Account) { a.status == Disabled && a.disabledReason.None? }

  /** What was last decided about the status of the account: when it was created, and by every
      administrator's patch that names a status. */
  function LastDecision(events: seq<Event>, id: string, p: Policy): Option<Status> {
    if events == [] then None
    else
      var init := events[..|events| - 1];
      var known, before := id in RunOf(init, p), LastDecision(init, id, p);
      match events[|events| - 1]
      case CreateAccount(i, _) => if i == id && !known then Some(Active) else before
      case CreateLocal(i, status) => if i == id && !known then Some(status) else before
      case AdminPatch(i, status) => if i == id && known && status.Some? then status else before
      case _ => before
  }

  lemma StepKeepsDecision(accounts: Accounts, e: Event, id: string, p: Policy)
    requires id in accounts && !(e.AdminPatch? && e.id == id && e.newStatus.Some?)
    ensures id in Step(accounts, e, p) && (AdminDisabled(Step(accounts, e, p)[id]) <==> AdminDisabled(accounts[id]))
  {
    hide Policy.Lease, Policy.Window;
  }

  /** Over every run an account is disabled without a recorded reason exactly when the last decision
      about it was to disable it: sign-ins and sweeps neither lift that decision nor imitate it. */
  lemma {:induction false} AdminDecisionStands(events: seq<Event>, id: string, p: Policy)
    requires id in RunOf(events, p)
    ensures AdminDisabled(RunOf(events, p)[id]) <==> LastDecision(events, id, p) == Some(Disabled)
  {
    hide Policy.Lease, Policy.Window;
    var init, e := events[..|events| - 1], events[|events| - 1];
    var accounts := RunOf(init, p);
    assert RunOf(events, p) == Step(accounts, e, p);
    if id in accounts {
      AdminDecisionStands(init, id, p);
      if !(e.AdminPatch? && e.id == id && e.newStatus.Some?) { StepKeepsDecision(accounts, e, id, p); }
    }
  }

  /** The audit entry of an admitted sign-in says "reactivated" exactly for accounts that were
      disabled, and is wrong exactly for those an administrator had disabled. */
  lemma ReactivationAuditExactly(events: seq<Event>, id: string, now: int, p: Policy)
    requires Timely(events) && id in RunOf(events, p)
    ensures var a := RunOf(events, p)[id]; var next := Admitted(a, now, p);
            var says := AuditReactivated(id) in SignInAudits(id, a, true);
            var reactivated := a.status != Active && next.status == Active;
            (says <==> a.status != Active) && (says != reactivated <==> AdminDisabled(a))
  {
    hide Policy.Lease, Policy.Window;
    LeaseIsBounded(events, id, p);
  }

  // ----- the notice -----

  predicate InRenewalWindow(a: Account, now: int, p: Policy) { a.validUntil.Some? && now >= RenewableFrom(a, p) }

  predicate NoticeDue(a: Account, now: int, p: Policy) {
    a.noticeAckAt.None? || (InRenewalWindow(a, now, p) && a.noticeAckAt.value < RenewableFrom(a, p))
  }

  lemma AcknowledgementStays(accounts: Accounts, e: Event, id: string, p: Policy)
    requires id in accounts && accounts[id].directory && !(e.AcknowledgeNotice? && e.id == id)
    ensures var next := Step(accounts, e, p);
            id in next && next[id].directory && next[id].noticeAckAt == accounts[id].noticeAckAt
  {
    hide Policy.Lease, Policy.Window;
  }

  lemma {:induction false} LastAcknowledgement(before: seq<Event>, id: string, ack: int, after: seq<Event>, p: Policy)
    requires id in RunOf(before, p) && RunOf(before, p)[id].directory
    requires forall e :: e in after ==> !(e.AcknowledgeNotice? && e.id == id)
    ensures var accounts := RunOf(before + [AcknowledgeNotice(id, ack)] + after, p);
            id in accounts && accounts[id].directory && accounts[id].noticeAckAt == Some(ack)
  {
    hide Policy.Lease, Policy.Window;
    var events := before + [AcknowledgeNotice(id, ack)] + after;
    var init, e := events[..|events| - 1], events[|events| - 1];
    if after == [] {
      assert init == before && e == AcknowledgeNotice(id, ack);
    } else {
      assert init == before + [AcknowledgeNotice(id, ack)] + after[..|after| - 1] && e == after[|after| - 1];
      LastAcknowledgement(before, id, ack, after[..|after| - 1], p);
      AcknowledgementStays(RunOf(init, p), e, id, p);
    }
  }

  /** In every run, with the last acknowledgement at time ack, the notice is due exactly if the window of
      the current term has opened and had not at time ack: acknowledging inside the window silences the
      notice until another term begins and its window opens. */
  lemma NoticeOncePerTerm(before: seq<Event>, id: string, ack: int, after: seq<Event>, now: int, p: Policy)
    requires id in RunOf(before, p) && RunOf(before, p)[id].directory
    requires forall e :: e in after ==> !(e.AcknowledgeNotice? && e.id == id)
    ensures var events := before + [AcknowledgeNotice(id, ack)] + after;
            id in RunOf(events, p) && TermStarts(events, id, p) != [] && TermStarts(before, id, p) != []
            && (NoticeDue(RunOf(events, p)[id], now, p) <==> ack < WindowOpens(events, id, p) <= now)
            && (WindowOpens(before, id, p) <= ack && TermStarts(events, id, p) == TermStarts(before, id, p)
                ==> !NoticeDue(RunOf(events, p)[id], now, p))
  {
    hide Policy.Lease, Policy.Window, TermStarts, RunOf;
    var events := before + [AcknowledgeNotice(id, ack)] + after;
    LastAcknowledgement(before, id, ack, after, p);
    TermsAreApart(events, id, p);
    TermsAreApart(before, id, p);
  }

  /** A renewal brings the notice back when the next window opens, provided the window is shorter
      than the lease; with a window as long as the lease an acknowledgement at the moment of the
      renewal silences it for the whole term. */
  lemma RenewalBringsNoticeBack(a: Account, now: int, later: int, p: Policy)
    requires a.noticeAckAt.Some? && a.noticeAckAt.value <= now <= later && Renews(a, now, p)
    ensures p.Window() < p.Lease() ==>
              (NoticeDue(Admitted(a, now, p), later, p) <==> later >= now + p.Lease() - p.Window())
    ensures p.Window() == p.Lease() ==> (NoticeDue(Admitted(a, now, p), later, p) <==> a.noticeAckAt.value < now)
  {
    hide Policy.Window, Policy.Lease;
  }
}
