/** The bounded concurrent runner of a probe's round (agent/src/checks.rs): one task per assignment, at
    most 64 of them at work, and the results collected in assignment order. */
module CheckRunner {
  import opened Options
  import opened HostCheck

  const MAX_CONCURRENT_CHECKS := 64

  // ---- The round ----

  /** Queued waits for a permit; Working holds one; Lost was cancelled or panicked. */
  datatype Task = Queued | Working | Done(result: CheckResult) | Lost

  datatype Round = Round(tasks: seq<Task>, permits: nat, results: seq<CheckResult>)

  /** What can happen next, in any order the runtime picks: the round spawns its next task, a task takes
      a permit, finishes its check or dies, or the round takes the result of the next handle. */
  datatype Event = Spawn | Grab(i: nat) | Finish(i: nat, attempts: seq<Attempt>) | Die(i: nat) | Await

  function Start(): Round {
    Round([], MAX_CONCURRENT_CHECKS, [])
  }

  predicate Ended(t: Task) {
    t.Done? || t.Lost?
  }

  function LostResult(hostId: int): CheckResult {
    CheckResult(hostId, false, None, map[])
  }

  function Collected(hostId: int, t: Task): CheckResult {
    if t.Done? then t.result else LostResult(hostId)
  }

  ghost predicate Enabled(work: seq<Assignment>, r: Round, e: Event) {
    match e
    case Spawn => |r.tasks| < |work|
    case Grab(i) => i < |r.tasks| && r.tasks[i].Queued? && r.permits > 0
    case Finish(i, attempts) => i < |r.tasks| <= |work| && r.tasks[i].Working? && Fits(work[i], attempts)
    case Die(i) => i < |r.tasks| && !Ended(r.tasks[i])
    case Await => |r.results| < |r.tasks| == |work| && Ended(r.tasks[|r.results|])
  }

  function Next(work: seq<Assignment>, r: Round, e: Event): Round
    requires Enabled(work, r, e)
  {
    match e
    case Spawn => r.(tasks := r.tasks + [Queued])
    case Grab(i) => r.(tasks := r.tasks[i := Working], permits := r.permits - 1)
    case Finish(i, attempts) =>
      r.(tasks := r.tasks[i := Done(ResultOf(work[i], attempts))], permits := r.permits + 1)
    case Die(i) =>
      r.(tasks := r.tasks[i := Lost], permits := if r.tasks[i].Working? then r.permits + 1 else r.permits)
    case Await =>
      var k := |r.results|;
      r.(results := r.results + [Collected(work[k].hostId, r.tasks[k])])
  }

  class CheckRound {
    const work: seq<Assignment>
    var tasks: seq<Task>
    var permits: nat
    var results: seq<CheckResult>

    constructor (work: seq<Assignment>)
      ensures this.work == work && View() == Start()
    {
      this.work := work;
      tasks, permits, results := [], MAX_CONCURRENT_CHECKS, [];
    }

    function View(): Round
      reads this
    {
      Round(tasks, permits, results)
    }

    method SpawnNext()
      requires Enabled(work, View(), Spawn)
      modifies this
      ensures View() == Next(work, old(View()), Spawn)
    {
      tasks := tasks + [Queued];
    }

    method Acquire(i: nat)
      requires Enabled(work, View(), Grab(i))
      modifies this
      ensures View() == Next(work, old(View()), Grab(i))
    {
      permits := permits - 1;
      tasks := tasks[i := Working];
    }

    /** The permit goes back when the task's future is dropped, after its check. */
    method Complete(i: nat, attempts: seq<Attempt>)
      requires Enabled(work, View(), Finish(i, attempts))
      modifies this
      ensures View() == Next(work, old(View()), Finish(i, attempts))
    {
      var result := RunOne(work[i], attempts);
      tasks := tasks[i := Done(result)];
      permits := permits + 1;
    }

    method Unwind(i: nat)
      requires Enabled(work, View(), Die(i))
      modifies this
      ensures View() == Next(work, old(View()), Die(i))
    {
      if tasks[i].Working? {
        permits := permits + 1;
      }
      tasks := tasks[i := Lost];
    }

    method AwaitNext()
      requires Enabled(work, View(), Await)
      modifies this
      ensures View() == Next(work, old(View()), Await)
    {
      var k := |results|;
      if tasks[k].Done? {
        results := results + [tasks[k].result];
      } else {
        results := results + [LostResult(work[k].hostId)];
      }
    }

    /** The last loop of the round, once every task has ended. */
    method AwaitAll()
      requires |tasks| == |work| && |results| <= |work|
      requires forall t | t in tasks :: Ended(t)
      modifies this
      ensures tasks == old(tasks) && permits == old(permits)
      ensures |results| == |work| && results[..old(|results|)] == old(results)
      ensures forall k | old(|results|) <= k < |work| :: results[k] == Collected(work[k].hostId, tasks[k])
    {
      while |results| < |work|
        invariant tasks == old(tasks) && permits == old(permits)
        invariant old(|results|) <= |results| <= |work| && results[..old(|results|)] == old(results)
        invariant forall k | old(|results|) <= k < |results| :: results[k] == Collected(work[k].hostId, tasks[k])
        decreases |work| - |results|
      {
        AwaitNext();
      }
    }
  }

  // ---- Runs ----

  /** Where a list of events leads, if each was possible in its turn. */
  ghost function After(work: seq<Assignment>, events: seq<Event>): Option<Round> {
    if events == [] then Some(Start())
    else
      var n := |events| - 1;
      var before := After(work, events[..n]);
      if before.Some? && Enabled(work, before.value, events[n]) then Some(Next(work, before.value, events[n]))
      else None
  }

  ghost function InFlight(tasks: seq<Task>): nat {
    if tasks == [] then 0
    else InFlight(tasks[..|tasks| - 1]) + if tasks[|tasks| - 1].Working? then 1 else 0
  }

  /** How many events are still to come before a task has ended. */
  ghost function Ahead(t: Task): nat {
    if t.Queued? then 2 else if t.Working? then 1 else 0
  }

  ghost function AllAhead(tasks: seq<Task>): nat {
    if tasks == [] then 0 else AllAhead(tasks[..|tasks| - 1]) + Ahead(tasks[|tasks| - 1])
  }

  ghost function Remaining(work: seq<Assignment>, r: Round): int {
    AllAhead(r.tasks) + 3 * (|work| - |r.tasks|) + (|work| - |r.results|)
  }

  ghost predicate Finished(work: seq<Assignment>, r: Round) {
    |r.results| == |work|
  }

  /** What the events so far say about task i. */
  ghost predicate Accounted(work: seq<Assignment>, events: seq<Event>, r: Round, i: nat)
    requires i < |r.tasks| <= |work|
  {
    && (r.tasks[i].Lost? <==> Die(i) in events)
    && (forall at | Finish(i, at) in events :: Fits(work[i], at) && r.tasks[i] == Done(ResultOf(work[i], at)))
    && (r.tasks[i].Done? ==> exists at :: Finish(i, at) in events)
  }

  ghost predicate Sound(work: seq<Assignment>, r: Round) {
    && |r.results| <= |r.tasks| <= |work|
    && r.permits + InFlight(r.tasks) == MAX_CONCURRENT_CHECKS
    && (r.results != [] ==> |r.tasks| == |work|)
    && forall k | 0 <= k < |r.results| ::
         Ended(r.tasks[k]) && r.results[k] == Collected(work[k].hostId, r.tasks[k])
  }

  lemma {:induction false} ReplaceTask(tasks: seq<Task>, i: nat, t: Task)
    requires i < |tasks|
    ensures InFlight(tasks[i := t]) + (if tasks[i].Working? then 1 else 0)
         == InFlight(tasks) + (if t.Working? then 1 else 0)
    ensures AllAhead(tasks[i := t]) + Ahead(tasks[i]) == AllAhead(tasks) + Ahead(t)
  {
    var n := |tasks| - 1;
    if i == n {
      assert tasks[i := t][..n] == tasks[..n];
    } else {
      assert tasks[i := t][..n] == tasks[..n][i := t];
      ReplaceTask(tasks[..n], i, t);
    }
  }

  lemma AppendTask(tasks: seq<Task>, t: Task)
    ensures InFlight(tasks + [t]) == InFlight(tasks) + if t.Working? then 1 else 0
    ensures AllAhead(tasks + [t]) == AllAhead(tasks) + Ahead(t)
  {
    assert (tasks + [t])[..|tasks|] == tasks;
  }

  lemma StepKeepsSound(work: seq<Assignment>, r: Round, e: Event)
    requires Sound(work, r) && Enabled(work, r, e)
    ensures Sound(work, Next(work, r, e))
    ensures Remaining(work, Next(work, r, e)) < Remaining(work, r)
  {
    hide InFlight, AllAhead, ResultOf, Fits;
    var r' := Next(work, r, e);
    match e {
      case Spawn => AppendTask(r.tasks, Queued);
      case Await =>
      case Grab(i) => ReplaceTask(r.tasks, i, r'.tasks[i]);
      case Finish(i, _) => ReplaceTask(r.tasks, i, r'.tasks[i]);
      case Die(i) => ReplaceTask(r.tasks, i, r'.tasks[i]);
    }
  }

  lemma StepKeepsAccounts(work: seq<Assignment>, before: seq<Event>, r: Round, e: Event, i: nat)
    requires Sound(work, r) && Enabled(work, r, e)
    requires forall k | 0 <= k < |r.tasks| :: Accounted(work, before, r, k)
    requires forall x | x in before && (x.Finish? || x.Die?) :: x.i < |r.tasks|
    requires i < |Next(work, r, e).tasks|
    ensures |Next(work, r, e).tasks| <= |work| && Accounted(work, before + [e], Next(work, r, e), i)
  {
    hide InFlight, ResultOf, Fits;
    var events := before + [e];
    assert forall x :: x in events <==> x in before || x == e;
    if i < |r.tasks| {
      assert Accounted(work, before, r, i);
      if e.Finish? && e.i == i {
        assert Finish(i, e.attempts) in events;
      }
    }
  }

  lemma {:induction false} RunIsSound(work: seq<Assignment>, events: seq<Event>)
    requires After(work, events).Some?
    ensures var r := After(work, events).value;
            && Sound(work, r) && |events| + Remaining(work, r) <= 4 * |work|
            && (forall i | 0 <= i < |r.tasks| :: Accounted(work, events, r, i))
            && (forall x | x in events && (x.Finish? || x.Die?) :: x.i < |r.tasks|)
  {
    hide Accounted, ResultOf, Fits, Sound, Remaining;
    if events == [] {
      StartIsSound(work);
    } else {
      var n := |events| - 1;
      RunIsSound(work, events[..n]);
      var r, e := After(work, events[..n]).value, events[n];
      var r' := Next(work, r, e);
      assert events == events[..n] + [e];
      StepKeepsSound(work, r, e);
      forall i | 0 <= i < |r'.tasks| ensures |r'.tasks| <= |work| && Accounted(work, events, r', i) {
        StepKeepsAccounts(work, events[..n], r, e, i);
      }
    }
  }

  lemma StartIsSound(work: seq<Assignment>)
    ensures Sound(work, Start()) && Remaining(work, Start()) == 4 * |work|
  {
  }

  // ---- What every interleaving gives ----

  ghost function AtWork(tasks: seq<Task>): set<nat> {
    set i: nat | i < |tasks| && tasks[i].Working?
  }

  lemma {:induction false} InFlightCounts(tasks: seq<Task>)
    ensures InFlight(tasks) == |AtWork(tasks)|
  {
    if tasks != [] {
      var n := |tasks| - 1;
      InFlightCounts(tasks[..n]);
      assert AtWork(tasks) == AtWork(tasks[..n]) + if tasks[n].Working? then {n} else {};
    } else {
      assert AtWork(tasks) == {};
    }
  }

  /** At most 64 checks are ever in flight, and a queued task can start exactly while there are fewer. */
  lemma NeverMoreThanTheLimit(work: seq<Assignment>, events: seq<Event>)
    requires After(work, events).Some?
    ensures var r := After(work, events).value;
            && |AtWork(r.tasks)| <= 64
            && forall i: nat | i < |r.tasks| && r.tasks[i].Queued? ::
                 Enabled(work, r, Grab(i)) <==> |AtWork(r.tasks)| < 64
  {
    hide AtWork;
    RunIsSound(work, events);
    InFlightCounts(After(work, events).value.tasks);
  }

  /** What may happen to a task: the round spawns tasks as long as assignments are left, a task at work may
      finish with any outcome of its checks, one that has not ended may be lost at any time, and the result
      of the next handle is taken once all tasks are spawned and that one has ended. */
  lemma PossibleExactly(work: seq<Assignment>, events: seq<Event>, i: nat, attempts: seq<Attempt>)
    requires After(work, events).Some? && i < |After(work, events).value.tasks|
    ensures |After(work, events).value.tasks| <= |work|
    ensures var r := After(work, events).value;
            && (Enabled(work, r, Spawn) <==> |r.tasks| < |work|)
            && (Enabled(work, r, Finish(i, attempts)) <==>
                  r.tasks[i] == Working && |attempts| == |ParseCheckTypes(work[i].checkType)|)
            && (Enabled(work, r, Die(i)) <==> r.tasks[i] in {Queued, Working})
            && (|r.results| == i ==>
                  (Enabled(work, r, Await) <==> |r.tasks| == |work| && r.tasks[i] !in {Queued, Working}))
  {
    hide After, InFlight, AllAhead, Accounted, ParseCheckTypes, Collected;
    RunIsSound(work, events);
  }

  lemma {:induction false} NoneInFlight(tasks: seq<Task>)
    requires forall t | t in tasks :: !t.Working?
    ensures InFlight(tasks) == 0
  {
    if tasks != [] {
      NoneInFlight(tasks[..|tasks| - 1]);
    }
  }

  /** The round always ends: no interleaving has more than four events per assignment, and as long as
      the round is not finished something other than the death of a task can happen. */
  lemma RoundAlwaysEnds(work: seq<Assignment>, events: seq<Event>) returns (next: Event)
    requires After(work, events).Some?
    ensures |events| <= 4 * |work|
    ensures var r := After(work, events).value;
            !Finished(work, r) ==> Enabled(work, r, next) && !next.Die?
  {
    next := Await;
    hide Accounted, ResultOf, InFlight, AllAhead;
    RunIsSound(work, events);
    var r := After(work, events).value;
    if !Finished(work, r) {
      if |r.tasks| < |work| {
        next := Spawn;
      } else if Ended(r.tasks[|r.results|]) {
        next := Await;
      } else if i :| 0 <= i < |r.tasks| && r.tasks[i].Working? {
        var at := seq(|ParseCheckTypes(work[i].checkType)|, _ => NotPerformed);
        next := Finish(i, at);
      } else {
        NoneInFlight(r.tasks);
        next := Grab(|r.results|);
      }
    }
  }

  /** A finished round has one result per assignment, in assignment order and under its host: what the
      task's own checks gave if it finished, and a plain failure if it died; each task did exactly
      one of the two, and every permit is back. */
  lemma FinishedRoundIsComplete(work: seq<Assignment>, events: seq<Event>)
    requires After(work, events).Some? && Finished(work, After(work, events).value)
    ensures var r := After(work, events).value;
            && |r.results| == |work| && r.permits == 64
            && forall i | 0 <= i < |work| ::
                 && r.results[i].hostId == work[i].hostId
                 && (Die(i) in events ==> r.results[i] == CheckResult(work[i].hostId, false, None, map[]))
                 && (Die(i) in events <==> !exists at :: Finish(i, at) in events)
                 && forall at | Finish(i, at) in events ::
                      Fits(work[i], at) && r.results[i] == ResultOf(work[i], at)
  {
    hide Fits, InFlight, AllAhead;
    RunIsSound(work, events);
    var r := After(work, events).value;
    NoneInFlight(r.tasks);
    forall i | 0 <= i < |work|
      ensures r.results[i].hostId == work[i].hostId
      ensures Die(i) in events ==> r.results[i] == LostResult(work[i].hostId)
      ensures Die(i) in events <==> !exists at :: Finish(i, at) in events
      ensures forall at | Finish(i, at) in events ::
                Fits(work[i], at) && r.results[i] == ResultOf(work[i], at)
    {
      assert Accounted(work, events, r, i);
    }
  }

  /** A host is reported up only if its task finished and, by its own checks, found it up. */
  lemma SuccessIsNeverInvented(work: seq<Assignment>, events: seq<Event>, i: nat)
    requires After(work, events).Some? && Finished(work, After(work, events).value) && i < |work|
    ensures |After(work, events).value.results| == |work|
    ensures After(work, events).value.results[i].success ==>
              exists at, j :: Finish(i, at) in events && Fits(work[i], at) && 0 <= j < |at|
                              && Answered(work[i], ParseCheckTypes(work[i].checkType), at, j)
  {
    FinishedRoundIsComplete(work, events);
    if After(work, events).value.results[i].success {
      assert Die(i) !in events;
      var at :| Finish(i, at) in events;
      SomeCheckAnswered(work[i], at);
    }
  }

  lemma SomeCheckAnswered(a: Assignment, attempts: seq<Attempt>)
    requires Fits(a, attempts) && ResultOf(a, attempts).success
    ensures exists j :: 0 <= j < |attempts| && Answered(a, ParseCheckTypes(a.checkType), attempts, j)
  {
    hide Performable, ParseCheckTypes, ResultFor;
    var types := ParseCheckTypes(a.checkType);
    SuccessExactly(a, types, attempts);
    if "icmp" in types {
      var j :| 0 <= j < |types| && types[j] == "icmp";
      assert Answered(a, types, attempts, j);
    }
  }
}
