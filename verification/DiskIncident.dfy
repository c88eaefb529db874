/** The disk-space incident (backend/scheduler.py, check_disk_space) under operators who acknowledge and
    resolve (backend/routers/api_v1.py) and under the correlation engine's sweep
    (backend/services/correlation.py, _auto_resolve). Here each of them reads and commits in one step;
    IncidentOverlap is about the ones that overlap. */
module DiskIncident {
  import opened Options

  const DISK_WARNING_PCT: real := 80.0
  const DISK_CRITICAL_PCT: real := 90.0
  const DISK_RULE := "disk_space"

  datatype Severity = Warning | Critical

  datatype Status = Open | Acknowledged | Resolved

  datatype Incident = Incident(rule: string, severity: Severity, status: Status, resolvedAt: Option<real>)

  predicate Live(i: Incident) {
    i.status != Resolved
  }

  predicate LiveDisk(i: Incident) {
    i.rule == DISK_RULE && Live(i)
  }

  /** usedPct is the usage rounded to one decimal. The sweep decides about the incidents of other rules by
      itself: stay are those it leaves alone. */
  datatype Event =
    | DiskCheck(usedPct: real, now: real)
    | Acknowledge(id: nat)
    | Resolve(id: nat, now: real)
    | Sweep(stay: set<nat>, now: real)
    | Raise(rule: string, severity: Severity)   // another job opens an incident of its own

  /** The first live disk incident; |table| when there is none. Incidents are numbered by position. */
  function FindLive(table: seq<Incident>): (i: nat)
    ensures i <= |table|
    ensures i < |table| ==> LiveDisk(table[i])
    ensures forall j | 0 <= j < i :: !LiveDisk(table[j])
  {
    if table == [] || LiveDisk(table[0]) then 0 else 1 + FindLive(table[1..])
  }

  function Close(i: Incident, now: real): Incident {
    i.(status := Resolved, resolvedAt := Some(now))
  }

  function Swept(table: seq<Incident>, stay: set<nat>, now: real): (t: seq<Incident>) {
    seq(|table|, i requires 0 <= i < |table| =>
      if LiveDisk(table[i]) || (Live(table[i]) && i !in stay) then Close(table[i], now) else table[i])
  }

  function Step(table: seq<Incident>, e: Event): seq<Incident> {
    match e
    case DiskCheck(usedPct, now) =>
      var i := FindLive(table);
      if usedPct < DISK_WARNING_PCT then
        if i < |table| then table[i := Close(table[i], now)] else table
      else
        var severity := if usedPct >= DISK_CRITICAL_PCT then Critical else Warning;
        if i < |table| then
          if severity == Critical then table[i := table[i].(severity := Critical)] else table
        else table + [Incident(DISK_RULE, severity, Open, None)]
    case Acknowledge(id) =>
      if id < |table| && Live(table[id]) then table[id := table[id].(status := Acknowledged)] else table
    case Resolve(id, now) => if id < |table| then table[id := Close(table[id], now)] else table
    case Sweep(stay, now) => Swept(table, stay, now)
    case Raise(rule, severity) =>
      if rule == DISK_RULE then table else table + [Incident(rule, severity, Open, None)]
  }

  class IncidentTable {
    var table: seq<Incident>

    constructor ()
      ensures table == []
    {
      table := [];
    }

    /** The query for a live disk incident. */
    method FirstLiveDisk() returns (i: nat)
      ensures i == FindLive(table)
    {
      i := 0;
      while i < |table| && !LiveDisk(table[i])
        invariant i <= |table|
        invariant FindLive(table) == i + FindLive(table[i..])
      {
        i := i + 1;
      }
    }

    method CheckDiskSpace(usedPct: real, now: real)
      modifies this
      ensures table == Step(old(table), DiskCheck(usedPct, now))
    {
      var existing := FirstLiveDisk();
      if usedPct < DISK_WARNING_PCT {
        if existing < |table| {
          table := table[existing := table[existing].(status := Resolved, resolvedAt := Some(now))];
        }
        return;
      }
      var severity := if usedPct >= DISK_CRITICAL_PCT then Critical else Warning;
      if existing < |table| {
        if severity == Critical && table[existing].severity != Critical {
          table := table[existing := table[existing].(severity := Critical)];
        }
      } else {
        table := table + [Incident(DISK_RULE, severity, Open, None)];
      }
    }

    /** A request during which nothing else commits. code is the HTTP status of the answer. */
    method AcknowledgeIncident(id: nat) returns (code: int)
      modifies this
      ensures table == Step(old(table), Acknowledge(id))
      ensures code == if id >= |old(table)| then 404 else if !Live(old(table)[id]) then 400 else 200
    {
      if id >= |table| {
        return 404;
      }
      if table[id].status == Resolved {
        return 400;
      }
      table := table[id := table[id].(status := Acknowledged)];
      return 200;
    }

    method ResolveIncident(id: nat, now: real) returns (code: int)
      modifies this
      ensures table == Step(old(table), Resolve(id, now))
      ensures code == if id >= |old(table)| then 404 else 200
    {
      if id >= |table| {
        return 404;
      }
      table := table[id := table[id].(status := Resolved, resolvedAt := Some(now))];
      return 200;
    }
  }

  // ---- Every run ----

  function Run(table: seq<Incident>, events: seq<Event>): seq<Incident> {
    if events == [] then table else Step(Run(table, events[..|events| - 1]), events[|events| - 1])
  }

  /** At most one disk incident is live, and exactly the resolved incidents carry a resolution time. */
  ghost predicate Sound(table: seq<Incident>) {
    && (forall i, j | 0 <= i < j < |table| :: !(LiveDisk(table[i]) && LiveDisk(table[j])))
    && (forall i | 0 <= i < |table| :: table[i].resolvedAt.Some? <==> table[i].status == Resolved)
  }

  /** What becomes of an incident: a resolved one stays resolved, and severity never falls. */
  ghost predicate Moves(a: Incident, b: Incident) {
    && a.rule == b.rule
    && (a.status == Resolved ==> b.status == Resolved && b.severity == a.severity)
    && (a.severity == Critical ==> b.severity == Critical)
    && (a.status == Acknowledged ==> b.status != Open)
  }

  ghost predicate MovesForward(t: seq<Incident>, t': seq<Incident>) {
    |t| <= |t'| && forall i | 0 <= i < |t| :: Moves(t[i], t'[i])
  }

  ghost predicate TimeFits(i: Incident) {
    i.resolvedAt.Some? <==> i.status == Resolved
  }

  lemma StepOnRow(table: seq<Incident>, e: Event, i: nat)
    requires i < |table| && TimeFits(table[i])
    ensures i < |Step(table, e)|
    ensures LiveDisk(Step(table, e)[i]) ==> LiveDisk(table[i])
    ensures TimeFits(Step(table, e)[i])
    ensures Moves(table[i], Step(table, e)[i])
  {
    hide FindLive;
  }

  lemma StepBeyond(table: seq<Incident>, e: Event)
    ensures |table| <= |Step(table, e)| <= |table| + 1
    ensures |Step(table, e)| > |table| ==>
              && TimeFits(Step(table, e)[|table|])
              && (LiveDisk(Step(table, e)[|table|]) ==> forall i | 0 <= i < |table| :: !LiveDisk(table[i]))
  {
  }

  lemma StepKeepsSound(table: seq<Incident>, e: Event)
    requires Sound(table)
    ensures Sound(Step(table, e))
  {
    hide Step, LiveDisk;
    StepBeyond(table, e);
    forall i: nat | i < |table|
      ensures LiveDisk(Step(table, e)[i]) ==> LiveDisk(table[i])
      ensures TimeFits(Step(table, e)[i])
    {
      StepOnRow(table, e, i);
    }
  }

  lemma StepMovesForward(table: seq<Incident>, e: Event)
    requires Sound(table)
    ensures MovesForward(table, Step(table, e))
  {
    hide Step, Moves;
    StepBeyond(table, e);
    forall i: nat | i < |table| ensures Moves(table[i], Step(table, e)[i]) {
      StepOnRow(table, e, i);
    }
  }

  /** In any order of disk checks, operators, sweeps and other jobs of which each has committed before the
      next one reads: at most one disk incident is live, resolved_at is set exactly on resolved incidents,
      resolved is final, and severity never drops. */
  lemma {:induction false} EveryRunIsSound(table: seq<Incident>, events: seq<Event>)
    requires Sound(table)
    ensures Sound(Run(table, events)) && MovesForward(table, Run(table, events))
  {
    if events != [] {
      hide Step, Sound;
      var before := events[..|events| - 1];
      EveryRunIsSound(table, before);
      StepKeepsSound(Run(table, before), events[|events| - 1]);
      StepMovesForward(Run(table, before), events[|events| - 1]);
    }
  }

  /** A disk check leaves a live disk incident exactly when the usage is at the warning level, and then
      a critical one if it is at the critical level. */
  lemma CheckDecidesExactly(table: seq<Incident>, usedPct: real, now: real)
    requires Sound(table)
    ensures var t := Step(table, DiskCheck(usedPct, now));
            && ((exists i | 0 <= i < |t| :: LiveDisk(t[i])) <==> usedPct >= DISK_WARNING_PCT)
            && (usedPct >= DISK_CRITICAL_PCT ==> forall i | 0 <= i < |t| && LiveDisk(t[i]) :: t[i].severity == Critical)
  {
    var t := Step(table, DiskCheck(usedPct, now));
    var k := FindLive(table);
    if usedPct >= DISK_WARNING_PCT {
      assert LiveDisk(t[k]);
    }
  }

  lemma LiveDiskIsFound(table: seq<Incident>, i: nat)
    requires Sound(table) && i < |table| && LiveDisk(table[i])
    ensures FindLive(table) == i
  {
  }

  /** What closes the live disk incident i. */
  predicate Closes(e: Event, i: nat) {
    || e.Sweep?
    || (e.Resolve? && e.id == i)
    || (e.DiskCheck? && e.usedPct < DISK_WARNING_PCT)
  }

  lemma StepClosesExactly(table: seq<Incident>, e: Event, i: nat)
    requires Sound(table) && i < |table| && LiveDisk(table[i])
    ensures i < |Step(table, e)|
    ensures LiveDisk(Step(table, e)[i]) <==> !Closes(e, i)
  {
    LiveDiskIsFound(table, i);
  }

  /** A live disk incident is still live after a run without overlaps exactly when the run held no sweep,
      no resolve of that incident, and no check that found the usage below the warning level. */
  lemma {:induction false} StaysLiveExactly(table: seq<Incident>, events: seq<Event>, i: nat)
    requires Sound(table) && i < |table| && LiveDisk(table[i])
    ensures i < |Run(table, events)|
    ensures LiveDisk(Run(table, events)[i]) <==> forall e | e in events :: !Closes(e, i)
  {
    if events != [] {
      hide Step, Sound, Closes;
      var n := |events| - 1;
      var before, last := events[..n], events[n];
      StaysLiveExactly(table, before, i);
      EveryRunIsSound(table, before);
      EveryRunIsSound(table, events);
      var t := Run(table, before);
      assert events == before + [last];
      StepMovesForward(t, last);
      if LiveDisk(t[i]) {
        StepClosesExactly(t, last, i);
      } else {
        assert Moves(table[i], t[i]) && Moves(t[i], Run(table, events)[i]);
      }
    }
  }

  // ---- What a step does, field by field ----

  ghost predicate LiveDiskRow(i: Incident) {
    i.rule == "disk_space" && i.status in {Open, Acknowledged}
  }

  /** Row i is the live disk incident; if there are several, the first of them. */
  ghost predicate FirstLiveRow(table: seq<Incident>, i: nat)
    requires i < |table|
  {
    LiveDiskRow(table[i]) && forall j | 0 <= j < i :: !LiveDiskRow(table[j])
  }

  ghost predicate ClosesRow(table: seq<Incident>, i: nat, e: Event)
    requires i < |table|
  {
    || (e.Resolve? && e.id == i)
    || (e.DiskCheck? && e.usedPct < 80.0 && FirstLiveRow(table, i))
    || (e.Sweep? && table[i].status in {Open, Acknowledged} && (table[i].rule == "disk_space" || i !in e.stay))
  }

  /** A row never loses its rule. Only a check at 90 or more changes its severity, only an acknowledgement
      of an incident that is not resolved makes it acknowledged, and it is closed, with the time, by a
      resolve, by a check below 80 while it is the live disk incident, and by a sweep that does not leave
      it alone. */
  lemma RowExactly(table: seq<Incident>, e: Event, i: nat)
    requires i < |table|
    ensures i < |Step(table, e)|
    ensures var row, row' := table[i], Step(table, e)[i];
            && row'.rule == row.rule
            && row'.severity == (if e.DiskCheck? && e.usedPct >= 90.0 && FirstLiveRow(table, i) then Critical
                                 else row.severity)
            && row'.status == (if ClosesRow(table, i, e) then Resolved
                               else if e == Acknowledge(i) && row.status == Open then Acknowledged
                               else row.status)
            && row'.resolvedAt == (if ClosesRow(table, i, e) then Some(e.now) else row.resolvedAt)
  {
    hide FindLive;
    FirstIsFound(table, i);
  }

  lemma FirstIsFound(table: seq<Incident>, i: nat)
    requires i < |table|
    ensures FirstLiveRow(table, i) <==> FindLive(table) == i
  {
    var k := FindLive(table);
    assert forall j | 0 <= j < |table| :: LiveDisk(table[j]) <==> LiveDiskRow(table[j]);
  }

  /** An incident is opened by a check at 80 or more that finds no live disk incident, with the severity
      of that check, and by the jobs that raise incidents of other rules. */
  lemma OpenedExactly(table: seq<Incident>, e: Event)
    ensures var added := Step(table, e)[|table|..];
            if e.DiskCheck? && e.usedPct >= 80.0 && forall i | 0 <= i < |table| :: !LiveDiskRow(table[i]) then
              added == [Incident("disk_space", if e.usedPct < 90.0 then Warning else Critical, Open, None)]
            else if e.Raise? && e.rule != "disk_space" then
              added == [Incident(e.rule, e.severity, Open, None)]
            else added == []
  {
    assert forall i | 0 <= i < |table| :: LiveDisk(table[i]) <==> LiveDiskRow(table[i]);
  }

  /** A disk incident that is still live after a run is critical exactly when it was so before or some
      check found the usage at 90 or more, and acknowledged exactly when it was so before or somebody
      acknowledged it; a warning-level check changes nothing about it. */
  lemma {:induction false} LiveDiskExactly(table: seq<Incident>, events: seq<Event>, i: nat)
    requires Sound(table) && i < |table| && i < |Run(table, events)| && LiveDiskRow(Run(table, events)[i])
    ensures LiveDiskRow(table[i])
    ensures var row := Run(table, events)[i];
            && (row.severity == Critical <==>
                  table[i].severity == Critical || exists e :: e in events && e.DiskCheck? && e.usedPct >= 90.0)
            && (row.status == Acknowledged <==> table[i].status == Acknowledged || Acknowledge(i) in events)
            && row.resolvedAt == None
  {
    if events == [] {
      assert TimeFits(table[i]);
    } else {
      hide Step, Sound, LiveDiskRow;
      var n := |events| - 1;
      var before, last := events[..n], events[n];
      EveryRunIsSound(table, before);
      LiveDiskStep(Run(table, before), last, i);
      LiveDiskExactly(table, before, i);
      assert events == before + [last];
    }
  }

  lemma LiveDiskStep(table: seq<Incident>, e: Event, i: nat)
    requires Sound(table) && i < |Step(table, e)| && LiveDiskRow(Step(table, e)[i]) && i < |table|
    ensures LiveDiskRow(table[i])
    ensures var row, row' := table[i], Step(table, e)[i];
            && (row'.severity == Critical <==> row.severity == Critical || (e.DiskCheck? && e.usedPct >= 90.0))
            && (row'.status == Acknowledged <==> row.status == Acknowledged || e == Acknowledge(i))
            && row'.resolvedAt == row.resolvedAt
  {
    hide Step;
    RowExactly(table, e, i);
  }

  /** The sweep knows nothing of disks: it resolves the disk incident however full the disk is, and
      each further check opens another one. */
  lemma {:induction false} SweepMakesTheIncidentFlap(usedPct: real, rounds: nat)
    requires usedPct >= DISK_WARNING_PCT
    ensures var t := Run([], Rounds(usedPct, rounds));
            |t| == rounds && forall i | 0 <= i < rounds :: t[i].rule == DISK_RULE && t[i].status == Resolved
  {
    if rounds > 0 {
      hide Step;
      SweepMakesTheIncidentFlap(usedPct, rounds - 1);
      var before := Rounds(usedPct, rounds - 1);
      var check, sweep := DiskCheck(usedPct, 0.0), Sweep({}, 0.0);
      var all := Rounds(usedPct, rounds);
      assert all[..|all| - 1] == before + [check] && (before + [check])[..|before|] == before;
      var t := Run([], before);
      SweptCheck(t, usedPct);
      assert Run([], all) == Step(Step(t, check), sweep);
    }
  }

  lemma SweptCheck(t: seq<Incident>, usedPct: real)
    requires usedPct >= DISK_WARNING_PCT
    requires forall i | 0 <= i < |t| :: t[i].rule == DISK_RULE && t[i].status == Resolved
    ensures var t' := Step(Step(t, DiskCheck(usedPct, 0.0)), Sweep({}, 0.0));
            |t'| == |t| + 1 && forall i | 0 <= i < |t'| :: t'[i].rule == DISK_RULE && t'[i].status == Resolved
  {
    assert FindLive(t) == |t|;
    var checked := Step(t, DiskCheck(usedPct, 0.0));
    assert forall i | 0 <= i < |checked| :: checked[i].rule == DISK_RULE;
  }

  function Rounds(usedPct: real, rounds: nat): seq<Event> {
    if rounds == 0 then [] else Rounds(usedPct, rounds - 1) + [DiskCheck(usedPct, 0.0), Sweep({}, 0.0)]
  }
}
