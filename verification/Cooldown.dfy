/** The notification cooldown (backend/notifications.py, _is_rate_limited): a table of the last time
    each title went out, from which old entries are evicted. Times are in seconds. */
module Cooldown {

  const COOLDOWN_SECONDS: real := 300.0

  /** A notification of the given title; key is the title stripped and lowered, now the clock reading. */
  datatype Call = Call(key: string, now: real)

  predicate Stale(sentAt: real, now: real) {
    now - sentAt > COOLDOWN_SECONDS * 2.0
  }

  predicate Limited(recent: map<string, real>, c: Call) {
    c.key in recent && c.now - recent[c.key] < COOLDOWN_SECONDS
  }

  function Evicted(recent: map<string, real>, now: real): map<string, real> {
    map k | k in recent && !Stale(recent[k], now) :: recent[k]
  }

  function Step(recent: map<string, real>, c: Call): map<string, real> {
    var kept := Evicted(recent, c.now);
    if Limited(kept, c) then kept else kept[c.key := c.now]
  }

  class Notifier {
    var recent: map<string, real>

    constructor ()
      ensures recent == map[]
    {
      recent := map[];
    }

    method IsRateLimited(c: Call) returns (limited: bool)
      modifies this
      ensures recent == Step(old(recent), c)
      ensures limited == Limited(Evicted(old(recent), c.now), c)
    {
      recent := map k | k in recent && !Stale(recent[k], c.now) :: recent[k];
      if c.key in recent && c.now - recent[c.key] < COOLDOWN_SECONDS {
        return true;
      }
      recent := recent[c.key := c.now];
      return false;
    }
  }

  // ---- Runs ----

  ghost predicate Chronological(run: seq<Call>) {
    forall i, j | 0 <= i < j < |run| :: run[i].now <= run[j].now
  }

  /** The table after a run, and the calls that went out, in order and never forgotten. */
  ghost function Run(run: seq<Call>): (map<string, real>, seq<Call>) {
    if run == [] then (map[], []) else
    var (recent, sent) := Run(run[..|run| - 1]);
    var c := run[|run| - 1];
    (Step(recent, c), if Limited(Evicted(recent, c.now), c) then sent else sent + [c])
  }

  /** Judged on the whole history: the title went out within the cooldown. */
  ghost predicate SentRecently(sent: seq<Call>, c: Call) {
    exists s :: s in sent && s.key == c.key && c.now - s.now < 300.0
  }

  /** An entry is the last time its title went out; a title that went out and has no entry went out
      more than two cooldowns ago. */
  ghost predicate Tracks(recent: map<string, real>, sent: seq<Call>, now: real) {
    && (forall s | s in sent :: s.now <= now)
    && (forall k | k in recent :: Call(k, recent[k]) in sent)
    && (forall s | s in sent && s.key in recent :: s.now <= recent[s.key])
    && (forall s | s in sent && s.key !in recent :: Stale(s.now, now))
  }

  ghost predicate Spaced(sent: seq<Call>) {
    forall i, j | 0 <= i < j < |sent| && sent[i].key == sent[j].key :: sent[j].now - sent[i].now >= 300.0
  }

  lemma DecisionMatchesHistory(recent: map<string, real>, sent: seq<Call>, now: real, c: Call)
    requires Tracks(recent, sent, now) && now <= c.now
    ensures Limited(Evicted(recent, c.now), c) <==> SentRecently(sent, c)
  {
    if Limited(Evicted(recent, c.now), c) {
      assert Call(c.key, recent[c.key]) in sent;
    }
  }

  lemma StepTracks(recent: map<string, real>, sent: seq<Call>, now: real, c: Call)
    requires Tracks(recent, sent, now) && now <= c.now
    ensures Tracks(Step(recent, c), if Limited(Evicted(recent, c.now), c) then sent else sent + [c], c.now)
  {
    var sent' := if Limited(Evicted(recent, c.now), c) then sent else sent + [c];
    forall s | s in sent' && s != c ensures s in sent {
    }
  }

  lemma SentStaysSpaced(sent: seq<Call>, c: Call)
    requires Spaced(sent) && !SentRecently(sent, c)
    ensures Spaced(sent + [c])
  {
    forall i | 0 <= i < |sent| && sent[i].key == c.key ensures c.now - sent[i].now >= 300.0 {
      assert sent[i] in sent;
    }
  }

  lemma {:induction false} RunTracks(run: seq<Call>, now: real)
    requires Chronological(run) && forall c | c in run :: c.now <= now
    ensures Tracks(Run(run).0, Run(run).1, now) && Spaced(Run(run).1)
  {
    if run != [] {
      hide Tracks, Spaced, Step, Limited, SentRecently;
      var before, c := run[..|run| - 1], run[|run| - 1];
      RunTracks(before, c.now);
      var (recent, sent) := Run(before);
      DecisionMatchesHistory(recent, sent, c.now, c);
      StepTracks(recent, sent, c.now, c);
      if !SentRecently(sent, c) {
        SentStaysSpaced(sent, c);
      }
      TracksLater(Run(run).0, Run(run).1, c.now, now);
    }
  }

  lemma TracksLater(recent: map<string, real>, sent: seq<Call>, now: real, later: real)
    requires Tracks(recent, sent, now) && now <= later
    ensures Tracks(recent, sent, later)
  {
  }

  /** Over every chronological run: evicting never changes a decision (the next call is limited exactly
      when its title went out within the cooldown), and equal titles go out a cooldown apart. */
  lemma EvictionNeverChangesADecision(run: seq<Call>, c: Call)
    requires Chronological(run + [c])
    ensures Limited(Evicted(Run(run).0, c.now), c) <==> SentRecently(Run(run).1, c)
    ensures Spaced(Run(run).1)
  {
    LastIsLatest(run, c);
    RunTracks(run, c.now);
    DecisionMatchesHistory(Run(run).0, Run(run).1, c.now, c);
  }

  lemma LastIsLatest(run: seq<Call>, c: Call)
    requires Chronological(run + [c])
    ensures Chronological(run) && forall b | b in run + [c] :: b.now <= c.now
  {
    var all := run + [c];
    assert all[|run|] == c;
    forall i, j | 0 <= i < j < |run| ensures run[i].now <= run[j].now {
      assert all[i] == run[i] && all[j] == run[j];
    }
    forall b | b in all ensures b.now <= c.now {
      var i :| 0 <= i < |all| && all[i] == b;
    }
  }

  /** After a call the table holds exactly the titles that went out within the last 600 seconds, each
      with the last time it did. */
  lemma TableExactly(run: seq<Call>, c: Call)
    requires Chronological(run + [c])
    ensures var recent, sent := Run(run + [c]).0, Run(run + [c]).1;
            && (forall k :: k in recent <==> exists s :: s in sent && s.key == k && c.now - s.now <= 600.0)
            && (forall k | k in recent :: Call(k, recent[k]) in sent)
            && (forall s | s in sent && s.key in recent :: s.now <= recent[s.key])
  {
    var all := run + [c];
    LastIsLatest(run, c);
    RunTracks(all, c.now);
    assert all[..|run|] == run;
    var recent, sent := Run(all).0, Run(all).1;
    forall k | k in recent ensures exists s :: s in sent && s.key == k && c.now - s.now <= 600.0 {
      assert Call(k, recent[k]) in sent;
    }
  }
}
