/** Account lockout (backend/routers/auth.py): the stored list of failed logins is pruned to a window,
    and decides as the full history would. Logins are sequential; times are in seconds. */
module Lockout {

  const LOCKOUT_ATTEMPTS := 5
  const LOCKOUT_WINDOW: real := 900.0

  /** The part of a list of times that lies in the window ending at now. */
  function Recent(times: seq<real>, now: real): (recent: seq<real>)
    ensures |recent| <= |times|
  {
    if times == [] then []
    else if times[0] > now - LOCKOUT_WINDOW then [times[0]] + Recent(times[1..], now)
    else Recent(times[1..], now)
  }

  /** The positions of the times that lie in the window. */
  ghost function InWindow(times: seq<real>, now: real): set<nat> {
    set i: nat | i < |times| && times[i] > now - 900.0
  }

  /** How a login attempt ends once it gets past the throttle and the lockout. */
  datatype Credential = EmptyPassword | LdapSuccess | LdapUserRefused | LocalSuccess | LocalRefused

  predicate Succeeds(c: Credential) {
    c.LdapSuccess? || c.LocalSuccess?
  }

  /** checkedAt and recordedAt are the clock readings of the lockout check and of the recording. */
  datatype Attempt = Attempt(throttled: bool, credential: Credential, checkedAt: real, recordedAt: real)

  datatype Response = Throttled | Locked | Refused | LoggedIn

  // ---- The implementation: a pruned list per user ----

  class LoginGuard {
    var attempts: map<string, seq<real>>

    constructor ()
      ensures attempts == map[]
    {
      attempts := map[];
    }

    function Stored(username: string): seq<real>
      reads this
    {
      if username in attempts then attempts[username] else []
    }

    method RecordFailedAttempt(username: string, now: real)
      modifies this
      ensures Stored(username) == Recent(old(Stored(username)), now) + [now]
      ensures forall u | u != username :: Stored(u) == old(Stored(u))
    {
      var kept := Recent(Stored(username), now);
      attempts := attempts[username := kept + [now]];
    }

    method ClearFailedAttempts(username: string)
      modifies this
      ensures Stored(username) == []
      ensures forall u | u != username :: Stored(u) == old(Stored(u))
    {
      attempts := attempts[username := []];
    }

    method IsLockedOut(username: string, now: real) returns (locked: bool)
      ensures locked <==> |InWindow(Stored(username), now)| >= 5
    {
      RecentCountsTheWindow(Stored(username), now);
      locked := |Recent(Stored(username), now)| >= LOCKOUT_ATTEMPTS;
    }

    method Login(username: string, a: Attempt) returns (response: Response)
      modifies this
      ensures (Stored(username), response) == PrunedStep(old(Stored(username)), a)
      ensures forall u | u != username :: Stored(u) == old(Stored(u))
    {
      if a.throttled {
        return Throttled;
      }
      RecentCountsTheWindow(Stored(username), a.checkedAt);
      var locked := IsLockedOut(username, a.checkedAt);
      if locked {
        return Locked;
      }
      match a.credential {
        case EmptyPassword =>
          RecordFailedAttempt(username, a.recordedAt);
          return Refused;
        case LdapSuccess =>
          ClearFailedAttempts(username);
          return LoggedIn;
        case LdapUserRefused =>
          RecordFailedAttempt(username, a.recordedAt);
          return Refused;
        case LocalRefused =>
          RecordFailedAttempt(username, a.recordedAt);
          return Refused;
        case LocalSuccess =>
          ClearFailedAttempts(username);
          return LoggedIn;
      }
    }
  }

  function PrunedStep(stored: seq<real>, a: Attempt): (seq<real>, Response) {
    if a.throttled then (stored, Throttled)
    else if |Recent(stored, a.checkedAt)| >= LOCKOUT_ATTEMPTS then (stored, Locked)
    else if Succeeds(a.credential) then ([], LoggedIn)
    else (Recent(stored, a.recordedAt) + [a.recordedAt], Refused)
  }

  // ---- The reference: every failure since the last success ----

  function FullStep(failures: seq<real>, a: Attempt): (seq<real>, Response) {
    if a.throttled then (failures, Throttled)
    else if |Recent(failures, a.checkedAt)| >= LOCKOUT_ATTEMPTS then (failures, Locked)
    else if Succeeds(a.credential) then ([], LoggedIn)
    else (failures + [a.recordedAt], Refused)
  }

  /** The clock never runs backwards. */
  ghost predicate Chronological(run: seq<Attempt>) {
    && (forall i | 0 <= i < |run| :: run[i].checkedAt <= run[i].recordedAt)
    && (forall i, j | 0 <= i < j < |run| :: run[i].recordedAt <= run[j].checkedAt)
  }

  ghost function Stored(run: seq<Attempt>): seq<real> {
    if run == [] then [] else PrunedStep(Stored(run[..|run| - 1]), run[|run| - 1]).0
  }

  ghost function Failures(run: seq<Attempt>): seq<real> {
    if run == [] then [] else FullStep(Failures(run[..|run| - 1]), run[|run| - 1]).0
  }

  // ---- Pruning ----

  lemma {:induction false} RecentAppends(s: seq<real>, t: real, now: real)
    ensures Recent(s + [t], now) == Recent(s, now) + Recent([t], now)
  {
    if s == [] {
      assert s + [t] == [t];
    } else {
      assert (s + [t])[1..] == s[1..] + [t];
      RecentAppends(s[1..], t, now);
    }
  }

  /** Recent keeps one entry for each position in the window. */
  lemma {:induction false} RecentCountsTheWindow(times: seq<real>, now: real)
    ensures |Recent(times, now)| == |InWindow(times, now)|
  {
    if times == [] {
      assert InWindow(times, now) == {};
    } else {
      hide Recent;
      var n := |times| - 1;
      assert times == times[..n] + [times[n]];
      RecentCountsTheWindow(times[..n], now);
      RecentAppends(times[..n], times[n], now);
      RecentOfOne(times[n], now);
      assert InWindow(times, now) == InWindow(times[..n], now) + if times[n] > now - LOCKOUT_WINDOW then {n} else {};
    }
  }

  lemma RecentOfOne(t: real, now: real)
    ensures Recent([t], now) == if t > now - LOCKOUT_WINDOW then [t] else []
  {
  }

  /** Recent keeps the times in the window as often as they occur, and no others. */
  lemma {:induction false} RecentIsTheWindow(times: seq<real>, now: real, t: real)
    ensures multiset(Recent(times, now))[t] == if t > now - 900.0 then multiset(times)[t] else 0
  {
    if times != [] {
      RecentIsTheWindow(times[1..], now, t);
      assert times == [times[0]] + times[1..];
    }
  }

  lemma {:induction false} RecentOfRecent(s: seq<real>, then': real, now: real)
    requires then' <= now
    ensures Recent(Recent(s, then'), now) == Recent(s, now)
  {
    if s != [] {
      RecentOfRecent(s[1..], then', now);
      if s[0] > then' - LOCKOUT_WINDOW {
        assert Recent(s, then')[1..] == Recent(s[1..], then');
      }
    }
  }

  /** From time `now` on, the two lists show the same failures in the window. */
  ghost predicate Agree(stored: seq<real>, failures: seq<real>, now: real) {
    forall t: real :: t >= now ==> Recent(stored, t) == Recent(failures, t)
  }

  lemma RecordingKeepsAgreement(stored: seq<real>, failures: seq<real>, now: real, t: real)
    requires Agree(stored, failures, now) && now <= t
    ensures Agree(Recent(stored, t) + [t], failures + [t], t)
  {
    forall u: real | u >= t
      ensures Recent(Recent(stored, t) + [t], u) == Recent(failures + [t], u)
    {
      RecentAppends(Recent(stored, t), t, u);
      RecentAppends(failures, t, u);
      RecentOfRecent(stored, t, u);
    }
  }

  lemma PrunedAgrees(stored: seq<real>, failures: seq<real>, a: Attempt, now: real)
    requires Agree(stored, failures, now)
    requires now <= a.checkedAt <= a.recordedAt
    requires |stored| <= LOCKOUT_ATTEMPTS
    ensures PrunedStep(stored, a).1 == FullStep(failures, a).1
    ensures Agree(PrunedStep(stored, a).0, FullStep(failures, a).0, a.recordedAt)
    ensures |PrunedStep(stored, a).0| <= LOCKOUT_ATTEMPTS
  {
    RecentOfRecent(stored, a.checkedAt, a.recordedAt);
    RecordingKeepsAgreement(stored, failures, now, a.recordedAt);
  }

  /** Over every chronological run, the pruned list answers every further attempt as the full failure
      history would, and it never holds more than five entries. */
  lemma {:induction false} PruningNeverChangesAnAnswer(run: seq<Attempt>, next: Attempt)
    requires Chronological(run + [next])
    ensures PrunedStep(Stored(run), next).1 == FullStep(Failures(run), next).1
    ensures |Stored(run)| <= LOCKOUT_ATTEMPTS
    ensures Agree(Stored(run), Failures(run), next.checkedAt)
  {
    hide Recent, PrunedStep, FullStep, Agree;
    if run == [] {
      EmptyAgrees(next.checkedAt);
      assert (run + [next])[0] == next;
      PrunedAgrees([], [], next, next.checkedAt);
    } else {
      var before, last := run[..|run| - 1], run[|run| - 1];
      assert run == before + [last];
      var all := run + [next];
      assert all[|run| - 1] == last && all[|run|] == next;
      assert forall i | 0 <= i < |run| :: all[i] == run[i];
      PruningNeverChangesAnAnswer(before, last);
      PrunedAgrees(Stored(before), Failures(before), last, last.checkedAt);
      LaterAgree(Stored(run), Failures(run), last.recordedAt, next.checkedAt);
      PrunedAgrees(Stored(run), Failures(run), next, next.checkedAt);
    }
  }

  lemma EmptyAgrees(now: real)
    ensures Agree([], [], now)
  {
  }

  lemma LaterAgree(stored: seq<real>, failures: seq<real>, now: real, later: real)
    requires Agree(stored, failures, now) && now <= later
    ensures Agree(stored, failures, later)
  {
  }

  // ---- Who gets in ----

  lemma AnswerExactly(failures: seq<real>, a: Attempt)
    ensures var (failures', response) := FullStep(failures, a);
            var locked := |InWindow(failures, a.checkedAt)| >= 5;
            && (response == Throttled <==> a.throttled)
            && (response == Locked <==> !a.throttled && locked)
            && (response == LoggedIn <==>
                  !a.throttled && !locked && (a.credential == LdapSuccess || a.credential == LocalSuccess))
            && (response == Refused <==>
                  !a.throttled && !locked && a.credential in {EmptyPassword, LdapUserRefused, LocalRefused})
            && failures' == if response == LoggedIn then []
                            else if response == Refused then failures + [a.recordedAt]
                            else failures
  {
    RecentCountsTheWindow(failures, a.checkedAt);
  }

  /** Over every chronological run of attempts, the implementation answers the next one: with a log-in exactly
      if it is not throttled, fewer than five of the failures since the last log-in lie in the 900 s before
      it, and its credentials are right; and with a refusal exactly if they are not, an empty password
      among them. */
  lemma AnsweredExactly(run: seq<Attempt>, next: Attempt)
    requires Chronological(run + [next])
    ensures var response := PrunedStep(Stored(run), next).1;
            var locked := |InWindow(Failures(run), next.checkedAt)| >= 5;
            && (response == Throttled <==> next.throttled)
            && (response == Locked <==> !next.throttled && locked)
            && (response == LoggedIn <==>
                  !next.throttled && !locked && (next.credential == LdapSuccess || next.credential == LocalSuccess))
            && (response == Refused <==>
                  !next.throttled && !locked && next.credential in {EmptyPassword, LdapUserRefused, LocalRefused})
  {
    hide PrunedStep, FullStep, InWindow, Agree;
    PruningNeverChangesAnAnswer(run, next);
    AnswerExactly(Failures(run), next);
  }

  /** The failures that count: a log-in empties them, an attempt with an empty password, a refused LDAP user or
      wrong local credentials that is neither throttled nor locked out joins them, nothing else does. */
  lemma FailuresExactly(run: seq<Attempt>, a: Attempt)
    ensures Failures([]) == []
    ensures var locked := |InWindow(Failures(run), a.checkedAt)| >= 5;
            Failures(run + [a]) ==
              if a.throttled || locked then Failures(run)
              else if a.credential == LdapSuccess || a.credential == LocalSuccess then []
              else Failures(run) + [a.recordedAt]
  {
    hide FullStep, InWindow;
    assert (run + [a])[..|run|] == run;
    AnswerExactly(Failures(run), a);
  }

  // ---- How fast failures can come ----

  lemma {:induction false} RecentKeepsTail(s: seq<real>, now: real, k: nat)
    requires k <= |s|
    requires forall i | |s| - k <= i < |s| :: s[i] > now - LOCKOUT_WINDOW
    ensures |Recent(s, now)| >= k
  {
    if s != [] {
      if k == |s| {
        RecentKeepsTail(s[1..], now, k - 1);
      } else {
        RecentKeepsTail(s[1..], now, k);
      }
    }
  }

  /** Times in order, each at least the window after the fifth one before it. */
  ghost predicate Spaced(s: seq<real>) {
    && (forall i, j | 0 <= i < j < |s| :: s[i] <= s[j])
    && (forall i | 5 <= i < |s| :: s[i] >= s[i - 5] + 900.0)
  }

  lemma SpacedGrows(f: seq<real>, checkedAt: real, t: real)
    requires Spaced(f) && checkedAt <= t
    requires forall x | x in f :: x <= checkedAt
    requires |Recent(f, checkedAt)| < LOCKOUT_ATTEMPTS
    ensures Spaced(f + [t])
  {
    hide Recent;
    assert forall i | 0 <= i < |f| :: f[i] in f;
    if |f| >= LOCKOUT_ATTEMPTS && f[|f| - LOCKOUT_ATTEMPTS] > checkedAt - LOCKOUT_WINDOW {
      RecentKeepsTail(f, checkedAt, LOCKOUT_ATTEMPTS);
      assert false;
    }
  }

  /** In a stretch without success, six failures in a row take at least the window. */
  lemma {:induction false} FailuresAreSpaced(run: seq<Attempt>)
    requires Chronological(run)
    ensures Spaced(Failures(run))
    ensures forall t | t in Failures(run) :: run != [] && t <= run[|run| - 1].recordedAt
  {
    hide Spaced, Recent;
    if run == [] {
      assert Spaced([]) by { EmptyIsSpaced(); }
    } else {
      var before, a := run[..|run| - 1], run[|run| - 1];
      FailuresAreSpaced(before);
      EmptyIsSpaced();
      var f := Failures(before);
      forall t | t in f ensures t <= a.checkedAt {
        assert before[|before| - 1] == run[|run| - 2];
      }
      if |Recent(f, a.checkedAt)| < LOCKOUT_ATTEMPTS {
        SpacedGrows(f, a.checkedAt, a.recordedAt);
      }
    }
  }

  lemma EmptyIsSpaced()
    ensures Spaced([])
  {
  }
}
