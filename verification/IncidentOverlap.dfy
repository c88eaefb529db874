/** Incident handlers that overlap (backend/routers/api_v1.py, backend/scheduler.py,
    backend/services/correlation.py): each reads the table, waits, and commits the columns it changed.
    No row is locked and none is read again before the commit. */
module IncidentOverlap {
  import opened Options
  import opened DiskIncident

  /** A handler or job between its read and its commit: what it read, and what it does. */
  datatype Handler = Handler(seen: seq<Incident>, e: Event)

  datatype State = State(table: seq<Incident>, waiting: seq<Handler>)

  /** A handler that never commits (a lost connection, a body that does not parse) just keeps waiting. */
  datatype Move = Read(e: Event) | Commit(k: nat)

  // ---- What a commit writes ----

  /** The object-relational mapper writes a column only if its value is not the one that was read. */
  function Column<T(==)>(current: T, seen: T, target: T): T {
    if target == seen then current else target
  }

  function MergeRow(current: Incident, seen: Incident, target: Incident): Incident {
    Incident(current.rule, Column(current.severity, seen.severity, target.severity),
             Column(current.status, seen.status, target.status),
             Column(current.resolvedAt, seen.resolvedAt, target.resolvedAt))
  }

  function Merge(table: seq<Incident>, seen: seq<Incident>, target: seq<Incident>): (merged: seq<Incident>) {
    seq(|table|, i requires 0 <= i < |table| =>
      if i < |seen| && i < |target| then MergeRow(table[i], seen[i], target[i]) else table[i])
    + if |target| > |seen| then target[|seen|..] else []
  }

  function Apply(s: State, m: Move): State {
    match m
    case Read(e) => s.(waiting := s.waiting + [Handler(s.table, e)])
    case Commit(k) =>
      if k >= |s.waiting| then s
      else
        var h := s.waiting[k];
        State(Merge(s.table, h.seen, Step(h.seen, h.e)), s.waiting[..k] + s.waiting[k + 1..])
  }

  function After(s: State, moves: seq<Move>): State {
    if moves == [] then s else Apply(After(s, moves[..|moves| - 1]), moves[|moves| - 1])
  }

  /** One request to acknowledge: it looks at the incident, waits for the request body, and writes. */
  class AcknowledgeRequest {
    const id: nat
    var seen: Option<Incident>

    constructor (id: nat)
      ensures this.id == id && seen == None
    {
      this.id, seen := id, None;
    }

    /** 200 stands for going on to read the body. */
    method ReadIncident(db: IncidentTable) returns (code: int)
      modifies this
      ensures code == if id >= |db.table| then 404 else if db.table[id].status == Resolved then 400 else 200
      ensures seen == if code == 200 then Some(db.table[id]) else None
    {
      seen := None;
      if id >= |db.table| {
        return 404;
      }
      if db.table[id].status == Resolved {
        return 400;
      }
      seen := Some(db.table[id]);
      return 200;
    }

    /** Runs when the body has arrived; table is what the request read. */
    method WriteIncident(db: IncidentTable, ghost table: seq<Incident>)
      requires id < |table| <= |db.table| && Live(table[id]) && seen == Some(table[id])
      modifies db
      ensures db.table == Merge(old(db.table), table, Step(table, Acknowledge(id)))
    {
      if seen.value.status != Acknowledged {
        db.table := db.table[id := db.table[id].(status := Acknowledged)];
      }
    }
  }

  // ---- What a commit does to a row ----

  /** The handler acknowledges incident i: it read it open. One that was acknowledged already is not
      written again, and a resolved one is refused. */
  predicate Acknowledges(h: Handler, i: nat) {
    h.e == Acknowledge(i) && i < |h.seen| && h.seen[i].status == Open
  }

  /** The handler resolves incident i: it read it live. */
  predicate Resolves(h: Handler, i: nat) {
    && i < |h.seen| && Live(h.seen[i])
    && match h.e
       case Sweep(stay, _) => h.seen[i].rule == DISK_RULE || i !in stay
       case Resolve(id, _) => id == i
       case DiskCheck(usedPct, _) => usedPct < DISK_WARNING_PCT && FindLive(h.seen) == i
       case _ => false
  }

  /** The handler opens a disk incident: the check found the disk full and no live disk incident. */
  predicate Opens(h: Handler) {
    h.e.DiskCheck? && h.e.usedPct >= DISK_WARNING_PCT && FindLive(h.seen) == |h.seen|
  }

  lemma StepRow(seen: seq<Incident>, e: Event, i: nat)
    requires i < |seen|
    ensures |seen| <= |Step(seen, e)|
    ensures var h, a, b := Handler(seen, e), seen[i], Step(seen, e)[i];
            && b.rule == a.rule
            && b.status == (if Acknowledges(h, i) then Acknowledged else if Resolves(h, i) then Resolved else a.status)
            && (b.severity == a.severity || b.severity == Critical)
            && (b.resolvedAt == a.resolvedAt || b.resolvedAt.Some?)
            && (Resolves(h, i) ==> b.resolvedAt.Some?)
  {
  }

  lemma StepTail(seen: seq<Incident>, e: Event)
    ensures |seen| <= |Step(seen, e)| <= |seen| + 1
    ensures |Step(seen, e)| > |seen| ==> Step(seen, e)[|seen|].status == Open && Step(seen, e)[|seen|].resolvedAt.None?
    ensures |Step(seen, e)| > |seen| && Step(seen, e)[|seen|].rule == DISK_RULE <==> Opens(Handler(seen, e))
  {
  }

  /** What a commit makes of row i. */
  ghost predicate RowAfter(h: Handler, a: Incident, b: Incident, i: nat) {
    && b.rule == a.rule
    && b.status == (if Acknowledges(h, i) then Acknowledged else if Resolves(h, i) then Resolved else a.status)
    && (a.severity == Critical ==> b.severity == Critical)
    && (a.resolvedAt.Some? ==> b.resolvedAt.Some?)
    && (Resolves(h, i) && (h.seen[i].resolvedAt.Some? ==> a.resolvedAt.Some?) ==> b.resolvedAt.Some?)
    && (a.resolvedAt.None? && b.resolvedAt.Some? ==> Resolves(h, i) || (i < |h.seen| && h.seen[i].status == Resolved))
  }

  lemma CommitRow(s: State, k: nat, i: nat)
    requires k < |s.waiting| && i < |s.table|
    ensures var t := Apply(s, Commit(k)).table;
            i < |t| && RowAfter(s.waiting[k], s.table[i], t[i], i)
  {
    hide Step, FindLive;
    var h := s.waiting[k];
    if i < |h.seen| {
      StepRow(h.seen, h.e, i);
      OnlyResolvingSetsTheTime(h.seen, h.e, i);
    }
  }

  lemma OnlyResolvingSetsTheTime(seen: seq<Incident>, e: Event, i: nat)
    requires i < |seen|
    ensures |seen| <= |Step(seen, e)|
    ensures Step(seen, e)[i].resolvedAt != seen[i].resolvedAt ==>
              Resolves(Handler(seen, e), i) || seen[i].status == Resolved
  {
  }

  lemma CommitTail(s: State, k: nat)
    requires k < |s.waiting|
    ensures var h, t := s.waiting[k], Apply(s, Commit(k)).table;
            && |s.table| <= |t| <= |s.table| + 1
            && (|t| > |s.table| ==> t[|s.table|].status == Open && t[|s.table|].resolvedAt.None?)
            && (|t| > |s.table| && t[|s.table|].rule == DISK_RULE <==> Opens(h))
  {
    hide Step, FindLive;
    StepTail(s.waiting[k].seen, s.waiting[k].e);
  }

  /** A commit writes to a row that its handler had read the columns that the handler changed, each with
      the value it computed from what it had read, and leaves every other column and row as it finds it;
      what the handler added is appended. */
  lemma CommitExactly(s: State, k: nat, i: nat)
    requires k < |s.waiting| && i < |s.table|
    ensures var h := s.waiting[k];
            var s', target := Apply(s, Commit(k)), Step(h.seen, h.e);
            && |h.seen| <= |target| && |s.table| <= |s'.table|
            && s'.table[|s.table|..] == target[|h.seen|..]
            && (i >= |h.seen| ==> s'.table[i] == s.table[i])
            && (i < |h.seen| ==>
                  var row, row' := s.table[i], s'.table[i];
                  && row'.rule == row.rule
                  && row'.severity == (if target[i].severity != h.seen[i].severity then target[i].severity
                                       else row.severity)
                  && row'.status == (if target[i].status != h.seen[i].status then target[i].status else row.status)
                  && row'.resolvedAt == (if target[i].resolvedAt != h.seen[i].resolvedAt then target[i].resolvedAt
                                         else row.resolvedAt))
  {
    hide Step, FindLive;
    var h := s.waiting[k];
    StepTail(h.seen, h.e);
  }

  // ---- What holds under every overlap ----

  /** What the handlers have seen is an earlier state of the table. */
  ghost predicate SeenIsOlder(s: State) {
    forall h | h in s.waiting ::
      && |h.seen| <= |s.table|
      && forall i | 0 <= i < |h.seen| ::
           && h.seen[i].rule == s.table[i].rule
           && (h.seen[i].resolvedAt.Some? ==> s.table[i].resolvedAt.Some?)
           && (h.seen[i].status == Resolved ==> h.seen[i].resolvedAt.Some?)
  }

  ghost predicate ResolvedHasTime(table: seq<Incident>) {
    forall i | 0 <= i < |table| :: table[i].status == Resolved ==> table[i].resolvedAt.Some?
  }

  ghost predicate Consistent(s: State) {
    SeenIsOlder(s) && ResolvedHasTime(s.table)
  }

  /** What no overlap can undo: incidents stay, with their rule; severity never drops; a time of
      resolution is never taken back. */
  ghost predicate Keeps(t: seq<Incident>, t': seq<Incident>) {
    && |t| <= |t'|
    && forall i | 0 <= i < |t| ::
         && t'[i].rule == t[i].rule
         && (t[i].severity == Critical ==> t'[i].severity == Critical)
         && (t[i].resolvedAt.Some? ==> t'[i].resolvedAt.Some?)
  }

  lemma MoveKeeps(s: State, m: Move)
    requires Consistent(s)
    ensures Keeps(s.table, Apply(s, m).table) && Consistent(Apply(s, m))
  {
    hide Merge, Step, RowAfter;
    var s' := Apply(s, m);
    if m.Commit? && m.k < |s.waiting| {
      var h := s.waiting[m.k];
      CommitTail(s, m.k);
      forall i | 0 <= i < |s.table|
        ensures i < |s'.table| && s'.table[i].rule == s.table[i].rule
        ensures s.table[i].severity == Critical ==> s'.table[i].severity == Critical
        ensures s.table[i].resolvedAt.Some? ==> s'.table[i].resolvedAt.Some?
        ensures s'.table[i].status == Resolved ==> s'.table[i].resolvedAt.Some?
      {
        CommitRow(s, m.k, i);
        RowKeeps(h, s.table[i], s'.table[i], i);
      }
    }
  }

  lemma RowKeeps(h: Handler, a: Incident, b: Incident, i: nat)
    requires RowAfter(h, a, b, i)
    ensures b.rule == a.rule
    ensures a.severity == Critical ==> b.severity == Critical
    ensures a.resolvedAt.Some? ==> b.resolvedAt.Some?
    ensures b.status == (if Acknowledges(h, i) then Acknowledged else if Resolves(h, i) then Resolved else a.status)
    ensures && (i < |h.seen| && h.seen[i].resolvedAt.Some? ==> a.resolvedAt.Some?)
            && (a.status == Resolved ==> a.resolvedAt.Some?)
            && b.status == Resolved
            ==> b.resolvedAt.Some?
  {
  }

  /** Under every overlap no incident disappears or changes its rule, severity never drops, no time of
      resolution is taken back, and a resolved incident has one. */
  lemma {:induction false} OverlapKeeps(s: State, moves: seq<Move>)
    requires Consistent(s)
    ensures Keeps(s.table, After(s, moves).table) && Consistent(After(s, moves))
  {
    if moves != [] {
      hide Apply, Consistent;
      var n := |moves| - 1;
      OverlapKeeps(s, moves[..n]);
      MoveKeeps(After(s, moves[..n]), moves[n]);
    }
  }

  // ---- Exactly when a property lasts ----

  ghost predicate Always(s: State, moves: seq<Move>, good: State -> bool) {
    forall n | 0 <= n <= |moves| :: good(After(s, moves[..n]))
  }

  ghost predicate Never(s: State, moves: seq<Move>, bad: (State, Move) -> bool) {
    forall n | 0 <= n < |moves| :: !bad(After(s, moves[..n]), moves[n])
  }

  lemma AfterOneMore(s: State, moves: seq<Move>, n: nat)
    requires n < |moves|
    ensures After(s, moves[..n + 1]) == Apply(After(s, moves[..n]), moves[n])
  {
    assert moves[..n + 1][..n] == moves[..n];
  }

  /** A property that only bad moves end lasts throughout a run exactly when the run has none. */
  lemma LastsExactly(s: State, moves: seq<Move>, good: State -> bool, bad: (State, Move) -> bool)
    requires good(s)
    requires forall n | 0 <= n < |moves| && good(After(s, moves[..n])) ::
               good(Apply(After(s, moves[..n]), moves[n])) <==> !bad(After(s, moves[..n]), moves[n])
    ensures Always(s, moves, good) <==> Never(s, moves, bad)
  {
    hide Apply, After;
    if Never(s, moves, bad) {
      var n := 0;
      assert good(After(s, moves[..0])) by { StartOfRun(s, moves); }
      while n < |moves|
        invariant n <= |moves|
        invariant forall k | 0 <= k <= n :: good(After(s, moves[..k]))
      {
        AfterOneMore(s, moves, n);
        n := n + 1;
      }
    }
    if Always(s, moves, good) {
      forall n | 0 <= n < |moves| ensures !bad(After(s, moves[..n]), moves[n]) {
        AfterOneMore(s, moves, n);
      }
    }
  }

  lemma StartOfRun(s: State, moves: seq<Move>)
    ensures After(s, moves[..0]) == s
  {
  }

  // ---- When resolved is final ----

  /** The move commits an acknowledgement of incident i that was read while it was open. */
  ghost predicate StaleWrite(s: State, m: Move, i: nat) {
    m.Commit? && m.k < |s.waiting| && Acknowledges(s.waiting[m.k], i)
  }

  ghost predicate IsResolved(s: State, i: nat) {
    i < |s.table| && s.table[i].status == Resolved
  }

  lemma MoveUnresolvesExactly(s: State, m: Move, i: nat)
    requires IsResolved(s, i)
    ensures IsResolved(Apply(s, m), i) <==> !StaleWrite(s, m, i)
  {
    hide Merge, Step;
    if m.Commit? && m.k < |s.waiting| { CommitRow(s, m.k, i); }
  }

  /** A resolved incident stays resolved throughout a run if and only if the run commits no
      acknowledgement of it that was read while it was open. */
  lemma ResolvedIsFinalExactly(s: State, moves: seq<Move>, i: nat)
    requires IsResolved(s, i)
    ensures (forall n | 0 <= n <= |moves| :: IsResolved(After(s, moves[..n]), i)) <==>
              (forall n | 0 <= n < |moves| :: !StaleWrite(After(s, moves[..n]), moves[n], i))
  {
    hide Apply, After, StaleWrite, IsResolved;
    forall n | 0 <= n < |moves| && IsResolved(After(s, moves[..n]), i)
      ensures IsResolved(Apply(After(s, moves[..n]), moves[n]), i) <==> !StaleWrite(After(s, moves[..n]), moves[n], i)
    {
      MoveUnresolvesExactly(After(s, moves[..n]), moves[n], i);
    }
    LastsExactly(s, moves, t => IsResolved(t, i), (t, m) => StaleWrite(t, m, i));
  }

  // ---- When a live disk incident stays live ----

  ghost predicate IsLiveDisk(s: State, i: nat) {
    i < |s.table| && LiveDisk(s.table[i])
  }

  /** The move commits a resolution of incident i by a handler that read it live. */
  ghost predicate Resolving(s: State, m: Move, i: nat) {
    m.Commit? && m.k < |s.waiting| && Resolves(s.waiting[m.k], i) && !Acknowledges(s.waiting[m.k], i)
  }

  lemma MoveResolvesExactly(s: State, m: Move, i: nat)
    requires IsLiveDisk(s, i)
    ensures IsLiveDisk(Apply(s, m), i) <==> !Resolving(s, m, i)
  {
    hide Merge, Step;
    if m.Commit? && m.k < |s.waiting| { CommitRow(s, m.k, i); }
  }

  /** A live disk incident stays live throughout a run if and only if no handler that read it live
      commits its resolution. */
  lemma StaysLiveExactly(s: State, moves: seq<Move>, i: nat)
    requires IsLiveDisk(s, i)
    ensures (forall n | 0 <= n <= |moves| :: IsLiveDisk(After(s, moves[..n]), i)) <==>
              (forall n | 0 <= n < |moves| :: !Resolving(After(s, moves[..n]), moves[n], i))
  {
    hide Apply, After, Resolving, IsLiveDisk;
    forall n | 0 <= n < |moves| && IsLiveDisk(After(s, moves[..n]), i)
      ensures IsLiveDisk(Apply(After(s, moves[..n]), moves[n]), i) <==> !Resolving(After(s, moves[..n]), moves[n], i)
    {
      MoveResolvesExactly(After(s, moves[..n]), moves[n], i);
    }
    LastsExactly(s, moves, t => IsLiveDisk(t, i), (t, m) => Resolving(t, m, i));
  }

  // ---- When at most one disk incident is live ----

  ghost predicate OneLiveDisk(s: State) {
    forall i, j | 0 <= i < j < |s.table| :: !(LiveDisk(s.table[i]) && LiveDisk(s.table[j]))
  }

  /** The move brings a resolved disk incident back to life. */
  ghost predicate Revives(s: State, m: Move, i: nat) {
    IsResolved(s, i) && s.table[i].rule == DISK_RULE && StaleWrite(s, m, i)
  }

  /** The move opens a disk incident that its check did not see, or brings one back, beside a live one. */
  ghost predicate MakesSecond(s: State, m: Move) {
    && (exists j: nat :: IsLiveDisk(s, j))
    && m.Commit? && m.k < |s.waiting|
    && (Opens(s.waiting[m.k]) || exists i: nat :: Revives(s, m, i))
  }

  lemma RowLivesExactly(s: State, k: nat, i: nat)
    requires k < |s.waiting| && i < |s.table|
    ensures IsLiveDisk(Apply(s, Commit(k)), i) <==>
              Revives(s, Commit(k), i) || (IsLiveDisk(s, i) && !Resolving(s, Commit(k), i))
  {
    hide Merge, Step;
    CommitRow(s, k, i);
  }

  lemma NewRowLivesExactly(s: State, k: nat)
    requires k < |s.waiting|
    ensures |s.table| <= |Apply(s, Commit(k)).table| <= |s.table| + 1
    ensures IsLiveDisk(Apply(s, Commit(k)), |s.table|) <==> Opens(s.waiting[k])
  {
    hide Merge, Step;
    CommitTail(s, k);
  }

  lemma MoveDoublesExactly(s: State, m: Move)
    requires OneLiveDisk(s)
    ensures OneLiveDisk(Apply(s, m)) <==> !MakesSecond(s, m)
  {
    hide Apply, IsLiveDisk, OneLiveDisk, Opens, Revives;
    if m.Commit? && m.k < |s.waiting| {
      CommitDoublesExactly(s, m.k);
    } else {
      NothingWritten(s, m);
    }
  }

  lemma NothingWritten(s: State, m: Move)
    requires !(m.Commit? && m.k < |s.waiting|)
    ensures Apply(s, m).table == s.table
    ensures OneLiveDisk(Apply(s, m)) == OneLiveDisk(s)
  {
  }

  lemma OneLiveDiskMeans(s: State)
    ensures OneLiveDisk(s) <==> forall i: nat, j: nat | i < j :: !(IsLiveDisk(s, i) && IsLiveDisk(s, j))
  {
    hide LiveDisk;
    assert forall i: nat | i < |s.table| :: IsLiveDisk(s, i) == LiveDisk(s.table[i]);
  }

  /** One commit touches one row: it revives, or opens, or resolves. */
  lemma OneKindOfCommit(s: State, k: nat, i: nat, j: nat)
    requires k < |s.waiting|
    ensures Revives(s, Commit(k), i) ==> !Opens(s.waiting[k]) && !Resolving(s, Commit(k), j)
    ensures Opens(s.waiting[k]) ==> !Resolving(s, Commit(k), j)
    ensures Revives(s, Commit(k), i) && Revives(s, Commit(k), j) ==> i == j
    ensures Revives(s, Commit(k), i) ==> i < |s.table| && !IsLiveDisk(s, i)
  {
  }

  /** The move makes row i live. */
  ghost predicate MakesLive(s: State, k: nat, i: nat) {
    k < |s.waiting| && (Revives(s, Commit(k), i) || (i == |s.table| && Opens(s.waiting[k])))
  }

  lemma LiveAfterExactly(s: State, k: nat, i: nat)
    requires k < |s.waiting|
    ensures IsLiveDisk(Apply(s, Commit(k)), i) <==>
              MakesLive(s, k, i) || (IsLiveDisk(s, i) && !Resolving(s, Commit(k), i))
  {
    hide Apply, IsLiveDisk, Opens, Revives, Resolving;
    RowsBeyond(s, i);
    RowsBeyond(Apply(s, Commit(k)), i);
    NewRowLivesExactly(s, k);
    OneKindOfCommit(s, k, i, i);
    if i < |s.table| { RowLivesExactly(s, k, i); }
  }

  lemma MakesLiveAlone(s: State, k: nat, i: nat, j: nat)
    requires MakesLive(s, k, i)
    ensures !IsLiveDisk(s, i) && !Resolving(s, Commit(k), j)
    ensures MakesLive(s, k, j) ==> i == j
  {
    hide IsLiveDisk, Opens, Revives, Resolving;
    RowsBeyond(s, i);
    OneKindOfCommit(s, k, i, j);
    OneKindOfCommit(s, k, j, i);
  }

  lemma CommitDoublesExactly(s: State, k: nat)
    requires OneLiveDisk(s) && k < |s.waiting|
    ensures OneLiveDisk(Apply(s, Commit(k))) <==> !MakesSecond(s, Commit(k))
  {
    hide Apply, IsLiveDisk, OneLiveDisk, Opens, Revives, Resolving, MakesLive;
    var s' := Apply(s, Commit(k));
    OneLiveDiskMeans(s);
    OneLiveDiskMeans(s');
    if MakesSecond(s, Commit(k)) {
      var j: nat :| IsLiveDisk(s, j);
      var i := WhatItMakesLive(s, k);
      MakesLiveAlone(s, k, i, j);
      LiveAfterExactly(s, k, i);
      LiveAfterExactly(s, k, j);
    } else {
      forall i: nat, j: nat | i < j ensures !(IsLiveDisk(s', i) && IsLiveDisk(s', j)) {
        LiveAfterExactly(s, k, i);
        LiveAfterExactly(s, k, j);
        if MakesLive(s, k, i) {
          MakesLiveAlone(s, k, i, j);
          NoSecondAlone(s, k, i, j);
        } else if MakesLive(s, k, j) {
          NoSecondAlone(s, k, j, i);
        }
      }
    }
  }

  lemma WhatItMakesLive(s: State, k: nat) returns (i: nat)
    requires MakesSecond(s, Commit(k))
    ensures MakesLive(s, k, i)
  {
    hide IsLiveDisk, Opens, Revives;
    if Opens(s.waiting[k]) {
      i := |s.table|;
    } else {
      i :| Revives(s, Commit(k), i);
    }
  }

  lemma NoSecondAlone(s: State, k: nat, i: nat, j: nat)
    requires !MakesSecond(s, Commit(k)) && MakesLive(s, k, i)
    ensures !IsLiveDisk(s, j)
  {
    hide IsLiveDisk, Opens, Revives;
  }

  /** With overlapping handlers, at most one disk incident is live throughout a run if and only if none of
      its moves brings one to life beside a live one: by a check that had read the table before the live
      one was there, or by an acknowledgement of a resolved one that was read while it was open. */
  lemma OneLiveDiskExactly(s: State, moves: seq<Move>)
    requires OneLiveDisk(s)
    ensures (forall n | 0 <= n <= |moves| :: OneLiveDisk(After(s, moves[..n]))) <==>
              (forall n | 0 <= n < |moves| :: !MakesSecond(After(s, moves[..n]), moves[n]))
  {
    hide Apply, After, MakesSecond, OneLiveDisk;
    forall n | 0 <= n < |moves| && OneLiveDisk(After(s, moves[..n]))
      ensures OneLiveDisk(Apply(After(s, moves[..n]), moves[n])) <==> !MakesSecond(After(s, moves[..n]), moves[n])
    {
      MoveDoublesExactly(After(s, moves[..n]), moves[n]);
    }
    LastsExactly(s, moves, t => OneLiveDisk(t), (t, m) => MakesSecond(t, m));
  }

  lemma RowsBeyond(s: State, i: nat)
    ensures IsLiveDisk(s, i) ==> i < |s.table|
  {
  }

  // ---- When resolved_at is set exactly on the resolved ----

  ghost predicate TimesFit(s: State) {
    forall i | 0 <= i < |s.table| :: s.table[i].resolvedAt.Some? <==> s.table[i].status == Resolved
  }

  /** The move takes a resolved incident back. */
  ghost predicate Unresolves(s: State, m: Move) {
    exists i: nat :: IsResolved(s, i) && StaleWrite(s, m, i)
  }

  lemma RowFitsExactly(s: State, k: nat, i: nat)
    requires Consistent(s) && TimesFit(s) && k < |s.waiting| && i < |s.table|
    ensures var t := Apply(s, Commit(k)).table;
            && i < |t|
            && ((t[i].resolvedAt.Some? <==> t[i].status == Resolved) <==>
                  !(IsResolved(s, i) && StaleWrite(s, Commit(k), i)))
  {
    hide Merge, Step;
    CommitRow(s, k, i);
  }

  lemma MoveFitsExactly(s: State, m: Move)
    requires Consistent(s) && TimesFit(s)
    ensures TimesFit(Apply(s, m)) <==> !Unresolves(s, m)
  {
    hide Apply, Merge, Step, IsResolved, StaleWrite, Consistent;
    if m.Commit? && m.k < |s.waiting| {
      CommitTail(s, m.k);
      forall i: nat | i < |s.table|
        ensures var t := Apply(s, m).table;
                && i < |t|
                && ((t[i].resolvedAt.Some? <==> t[i].status == Resolved) <==>
                      !(IsResolved(s, i) && StaleWrite(s, m, i)))
      {
        RowFitsExactly(s, m.k, i);
      }
      ResolvedIsInTable(s);
    } else {
      NothingWritten(s, m);
      NothingStale(s, m);
    }
  }

  lemma ResolvedIsInTable(s: State)
    ensures forall i: nat | IsResolved(s, i) :: i < |s.table|
  {
  }

  lemma NothingStale(s: State, m: Move)
    requires !(m.Commit? && m.k < |s.waiting|)
    ensures !Unresolves(s, m)
  {
  }

  /** resolved_at is set exactly on the resolved incidents throughout a run if and only if no move takes a
      resolved incident back. */
  lemma TimesFitExactly(s: State, moves: seq<Move>)
    requires Consistent(s) && TimesFit(s)
    ensures (forall n | 0 <= n <= |moves| :: TimesFit(After(s, moves[..n]))) <==>
              (forall n | 0 <= n < |moves| :: !Unresolves(After(s, moves[..n]), moves[n]))
  {
    hide Apply, After, Unresolves, TimesFit, Consistent;
    forall n | 0 <= n < |moves| && TimesFit(After(s, moves[..n]))
      ensures TimesFit(Apply(After(s, moves[..n]), moves[n])) <==> !Unresolves(After(s, moves[..n]), moves[n])
    {
      OverlapKeeps(s, moves[..n]);
      MoveFitsExactly(After(s, moves[..n]), moves[n]);
    }
    LastsExactly(s, moves, t => TimesFit(t), (t, m) => Unresolves(t, m));
  }

  // ---- Handlers that do not overlap ----

  /** Each event is read and committed before the next. */
  function Serial(events: seq<Event>): seq<Move> {
    if events == [] then []
    else Serial(events[..|events| - 1]) + [Read(events[|events| - 1]), Commit(0)]
  }

  lemma MergeOfOwn(table: seq<Incident>, target: seq<Incident>)
    requires |table| <= |target| && forall i | 0 <= i < |table| :: table[i].rule == target[i].rule
    ensures Merge(table, table, target) == target
  {
    var merged := Merge(table, table, target);
    assert forall i | 0 <= i < |table| :: merged[i] == target[i];
    assert merged == target[..|table|] + target[|table|..];
  }

  lemma StepIsMerge(table: seq<Incident>, e: Event)
    ensures Merge(table, table, Step(table, e)) == Step(table, e)
  {
    hide Step, FindLive, Merge;
    StepTail(table, e);
    forall i | 0 <= i < |table| ensures table[i].rule == Step(table, e)[i].rule { StepRow(table, e, i); }
    MergeOfOwn(table, Step(table, e));
  }

  /** Without overlap a run is one of the atomic steps. */
  lemma {:induction false} SerialRunsAreAtomic(table: seq<Incident>, events: seq<Event>)
    ensures After(State(table, []), Serial(events)) == State(Run(table, events), [])
  {
    if events != [] {
      hide Step, Merge, After;
      var n := |events| - 1;
      var e := events[n];
      SerialRunsAreAtomic(table, events[..n]);
      var t := Run(table, events[..n]);
      StepIsMerge(t, e);
      var s, mid := State(table, []), State(t, [Handler(t, e)]);
      var moves := Extend(s, Serial(events[..n]), Read(e), State(t, []), mid);
      moves := Extend(s, moves, Commit(0), mid, State(Step(t, e), []));
      assert moves == Serial(events);
    } else {
      EmptyRun(State(table, []));
    }
  }

  // ---- Two runs with two live disk incidents ----

  lemma Extend(s: State, moves: seq<Move>, m: Move, now: State, next: State) returns (moves': seq<Move>)
    requires After(s, moves) == now && Apply(now, m) == next
    ensures moves' == moves + [m] && After(s, moves') == next
  {
    moves' := moves + [m];
    assert moves'[..|moves|] == moves;
  }

  /** Two checks that both read the table while no disk incident was live both open one. */
  lemma OverlappingChecksOpenTwo() returns (moves: seq<Move>)
    ensures var s := After(State([], []), moves); IsLiveDisk(s, 0) && IsLiveDisk(s, 1)
  {
    hide After, Merge, Step;
    var check, first := DiskCheck(85.0, 0.0), Incident(DISK_RULE, Warning, Open, None);
    var h := Handler([], check);
    OpenedFirst(check, first);
    var s0 := State([], []);
    EmptyRun(s0);
    moves := Extend(s0, [], Read(check), s0, State([], [h]));
    moves := Extend(s0, moves, Read(check), State([], [h]), State([], [h, h]));
    moves := Extend(s0, moves, Commit(0), State([], [h, h]), State([first], [h]));
    moves := Extend(s0, moves, Commit(0), State([first], [h]), State([first, first], []));
  }

  lemma OpenedFirst(check: Event, first: Incident)
    requires check == DiskCheck(85.0, 0.0) && first == Incident(DISK_RULE, Warning, Open, None)
    ensures Step([], check) == [first]
    ensures Merge([], [], [first]) == [first] && Merge([first], [], [first]) == [first, first]
  {
  }

  /** An acknowledgement reads the incident while it is open and writes it when the incident has been
      resolved and the next one opened: two are live, and the first one has a time of resolution. */
  lemma LateAcknowledgementRevives() returns (moves: seq<Move>)
    ensures var s := After(State([], []), moves);
            IsLiveDisk(s, 0) && IsLiveDisk(s, 1) && s.table[0].resolvedAt.Some? && s.waiting == []
  {
    hide After, Merge, Step;
    var full, low, ack := DiskCheck(85.0, 0.0), DiskCheck(50.0, 1.0), Acknowledge(0);
    var first := Incident(DISK_RULE, Warning, Open, None);
    var closed := first.(status := Resolved, resolvedAt := Some(1.0));
    var revived := closed.(status := Acknowledged);
    FirstCheck(first);
    LowCheck(first, closed);
    NextCheck(first, closed);
    LateWrite(first, closed, revived);
    var a := Handler([first], ack);
    var s0, s1 := State([], []), State([first], [a]);
    EmptyRun(s0);
    moves := Extend(s0, [], Read(full), s0, State([], [Handler([], full)]));
    moves := Extend(s0, moves, Commit(0), State([], [Handler([], full)]), State([first], []));
    moves := Extend(s0, moves, Read(ack), State([first], []), s1);
    moves := Extend(s0, moves, Read(low), s1, State([first], [a, Handler([first], low)]));
    moves := Extend(s0, moves, Commit(1), State([first], [a, Handler([first], low)]), State([closed], [a]));
    moves := Extend(s0, moves, Read(full), State([closed], [a]), State([closed], [a, Handler([closed], full)]));
    moves := Extend(s0, moves, Commit(1), State([closed], [a, Handler([closed], full)]), State([closed, first], [a]));
    moves := Extend(s0, moves, Commit(0), State([closed, first], [a]), State([revived, first], []));
  }

  lemma FirstCheck(first: Incident)
    requires first == Incident(DISK_RULE, Warning, Open, None)
    ensures Merge([], [], Step([], DiskCheck(85.0, 0.0))) == [first]
  {
    StepIsMerge([], DiskCheck(85.0, 0.0));
  }

  lemma LowCheck(first: Incident, closed: Incident)
    requires first == Incident(DISK_RULE, Warning, Open, None)
    requires closed == first.(status := Resolved, resolvedAt := Some(1.0))
    ensures Merge([first], [first], Step([first], DiskCheck(50.0, 1.0))) == [closed]
  {
    hide Merge;
    StepIsMerge([first], DiskCheck(50.0, 1.0));
  }

  lemma NextCheck(first: Incident, closed: Incident)
    requires first == Incident(DISK_RULE, Warning, Open, None)
    requires closed == first.(status := Resolved, resolvedAt := Some(1.0))
    ensures Merge([closed], [closed], Step([closed], DiskCheck(85.0, 0.0))) == [closed, first]
  {
    hide Merge;
    StepIsMerge([closed], DiskCheck(85.0, 0.0));
    assert FindLive([closed]) == 1;
  }

  lemma LateWrite(first: Incident, closed: Incident, revived: Incident)
    requires first == Incident(DISK_RULE, Warning, Open, None)
    requires closed == first.(status := Resolved, resolvedAt := Some(1.0))
    requires revived == closed.(status := Acknowledged)
    ensures Merge([closed, first], [first], Step([first], Acknowledge(0))) == [revived, first]
  {
    assert Step([first], Acknowledge(0)) == [first.(status := Acknowledged)];
  }

  lemma EmptyRun(s: State)
    ensures After(s, []) == s
  {
  }
}
