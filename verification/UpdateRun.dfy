/** The step runner of the self-update (sidecar/orchestrator.py) and the server that admits one run at
    a time (sidecar/update-server.py): every state they write. */
module UpdateRun {
  import opened Options

  const MAX_ERROR_CHARS := 500

  datatype StepStatus = Pending | Running | Succeeded | Failed

  datatype Step = Step(name: string, status: StepStatus, detail: Option<string>)

  datatype RunStatus = InProgress | Done | Aborted

  /** One value of the update state, as it is written to the state file. */
  datatype Snapshot = Snapshot(runId: string, status: RunStatus, step: Option<string>, steps: seq<Step>,
                               error: Option<string>, finished: bool)

  /** How a step function ends. */
  datatype Outcome = Returns(detail: string) | Raises(message: string)

  function LastChars(s: string, n: nat): (t: string)
    ensures |t| <= n
  {
    if |s| <= n then s else s[|s| - n..]
  }

  function NewState(runId: string, names: seq<string>): Snapshot {
    Snapshot(runId, InProgress, None, seq(|names|, i requires 0 <= i < |names| => Step(names[i], Pending, None)),
             None, false)
  }

  /** The first step of that name; |steps| when there is none. */
  function ByName(steps: seq<Step>, name: string): (i: nat)
    ensures i <= |steps|
    ensures i < |steps| ==> steps[i].name == name
    ensures forall j | 0 <= j < i :: steps[j].name != name
  {
    if steps == [] || steps[0].name == name then 0 else 1 + ByName(steps[1..], name)
  }

  function Mark(s: Snapshot, name: string, status: StepStatus, detail: Option<string>): Snapshot {
    var i := ByName(s.steps, name);
    if i == |s.steps| then s else s.(steps := s.steps[i := s.steps[i].(status := status, detail := detail)])
  }

  function DetailOf(s: Snapshot, name: string): Option<string> {
    var i := ByName(s.steps, name);
    if i < |s.steps| then s.steps[i].detail else None
  }

  function Begin(s: Snapshot, name: string): Snapshot {
    Mark(s.(step := Some(name)), name, Running, DetailOf(s, name))
  }

  function Finish(s: Snapshot, name: string, o: Outcome): Snapshot {
    match o
    case Returns(detail) => Mark(s, name, Succeeded, Some(detail))
    case Raises(message) =>
      Mark(s, name, Failed, DetailOf(s, name))
        .(status := Aborted, error := Some(name + ": " + LastChars(message, MAX_ERROR_CHARS)), finished := true)
  }

  function Complete(s: Snapshot): Snapshot {
    s.(step := None, status := Done, finished := true)
  }

  /** The states written from state s on, with the given steps still to run. */
  function WritesFrom(s: Snapshot, names: seq<string>, outcomes: seq<Outcome>): (writes: seq<Snapshot>)
    requires |outcomes| == |names|
    ensures |writes| > 0
    decreases |names|
  {
    if names == [] then [Complete(s)] else
    var begun := Begin(s, names[0]);
    var ended := Finish(begun, names[0], outcomes[0]);
    if outcomes[0].Raises? then [begun, ended]
    else [begun, ended] + WritesFrom(ended, names[1..], outcomes[1..])
  }

  /** All the states one run writes. */
  function Writes(runId: string, names: seq<string>, outcomes: seq<Outcome>): (writes: seq<Snapshot>)
    requires |outcomes| == |names|
    ensures |writes| > 0
  {
    [NewState(runId, names)] + WritesFrom(NewState(runId, names), names, outcomes)
  }

  /** How many step functions are called: all up to the first that raises. */
  function Calls(outcomes: seq<Outcome>): (n: nat)
    ensures n <= |outcomes|
    ensures forall i | 0 <= i < n - 1 :: outcomes[i].Returns?
    ensures n < |outcomes| ==> n > 0 && outcomes[n - 1].Raises?
  {
    if outcomes == [] then 0 else if outcomes[0].Raises? then 1 else 1 + Calls(outcomes[1..])
  }

  /** What the state file holds after the writes, when some of them fail. */
  function FileAfter(file: Option<Snapshot>, writes: seq<Snapshot>, succeeds: seq<bool>): Option<Snapshot> {
    if writes == [] then file
    else if |writes| - 1 < |succeeds| && succeeds[|writes| - 1] then Some(writes[|writes| - 1])
    else FileAfter(file, writes[..|writes| - 1], succeeds)
  }

  lemma FileAfterGrows(file: Option<Snapshot>, writes: seq<Snapshot>, w: Snapshot, succeeds: seq<bool>)
    ensures FileAfter(file, writes + [w], succeeds)
         == if |writes| < |succeeds| && succeeds[|writes|] then Some(w) else FileAfter(file, writes, succeeds)
  {
    assert (writes + [w])[..|writes|] == writes;
  }

  // ---- The runner ----

  class UpdateState {
    var current: Snapshot
    /** The states written so far, and what the state file holds. */
    var writes: seq<Snapshot>
    var file: Option<Snapshot>
    /** Which writes succeed, and what the file held before the run. */
    const succeeds: seq<bool>
    const oldFile: Option<Snapshot>

    ghost predicate Valid()
      reads this
    {
      file == FileAfter(oldFile, writes, succeeds)
    }

    constructor (runId: string, names: seq<string>, succeeds: seq<bool>, oldFile: Option<Snapshot>)
      ensures Valid() && this.succeeds == succeeds && this.oldFile == oldFile
      ensures current == NewState(runId, names) && writes == []
    {
      current, writes, file := NewState(runId, names), [], oldFile;
      this.succeeds, this.oldFile := succeeds, oldFile;
    }

    method FindStep(name: string) returns (i: nat)
      ensures i == ByName(current.steps, name)
    {
      i := 0;
      while i < |current.steps| && current.steps[i].name != name
        invariant i <= |current.steps|
        invariant ByName(current.steps, name) == i + ByName(current.steps[i..], name)
      {
        i := i + 1;
      }
    }

    /** An OSError while writing is logged and otherwise ignored. */
    method WriteState()
      requires Valid()
      modifies this`writes, this`file
      ensures Valid()
      ensures writes == old(writes) + [current]
    {
      FileAfterGrows(oldFile, writes, current, succeeds);
      if |writes| < |succeeds| && succeeds[|writes|] {
        file := Some(current);
      }
      writes := writes + [current];
    }

    method SetStatus(name: string, status: StepStatus)
      modifies this`current
      ensures current == Mark(old(current), name, status, DetailOf(old(current), name))
    {
      var i := FindStep(name);
      if i < |current.steps| {
        current := current.(steps := current.steps[i := current.steps[i].(status := status)]);
      }
    }

    method SetOk(name: string, detail: string)
      modifies this`current
      ensures current == Mark(old(current), name, Succeeded, Some(detail))
    {
      var i := FindStep(name);
      if i < |current.steps| {
        var step := current.steps[i].(status := Succeeded, detail := Some(detail));
        current := current.(steps := current.steps[i := step]);
      }
    }

    /** One turn of the runner's loop. */
    method RunStep(name: string, o: Outcome)
      requires Valid()
      modifies this
      ensures Valid()
      ensures writes == old(writes) + [Begin(old(current), name), current]
      ensures current == Finish(Begin(old(current), name), name, o)
    {
      current := current.(step := Some(name));
      SetStatus(name, Running);
      WriteState();
      match o {
        case Returns(detail) =>
          SetOk(name, detail);
        case Raises(message) =>
          SetStatus(name, Failed);
          current := current.(status := Aborted,
                              error := Some(name + ": " + LastChars(message, MAX_ERROR_CHARS)),
                              finished := true);
      }
      WriteState();
    }
  }

  lemma LoopStep(done: seq<Snapshot>, s: Snapshot, names: seq<string>, outcomes: seq<Outcome>, i: nat)
    requires i < |names| == |outcomes|
    ensures var begun := Begin(s, names[i]);
            var ended := Finish(begun, names[i], outcomes[i]);
            && done + WritesFrom(s, names[i..], outcomes[i..])
               == done + [begun, ended]
                  + (if outcomes[i].Raises? then [] else WritesFrom(ended, names[i + 1..], outcomes[i + 1..]))
            && Calls(outcomes[i..]) == 1 + (if outcomes[i].Raises? then 0 else Calls(outcomes[i + 1..]))
  {
    hide Begin, Finish;
    assert names[i..][1..] == names[i + 1..] && outcomes[i..][1..] == outcomes[i + 1..];
  }

  /** Runs the steps in order; the first one that raises ends the run. */
  method RunUpdate(runId: string, names: seq<string>, outcomes: seq<Outcome>, succeeds: seq<bool>,
                   oldFile: Option<Snapshot>)
    returns (state: UpdateState, called: seq<string>)
    requires |outcomes| == |names|
    ensures fresh(state)
    ensures state.writes == Writes(runId, names, outcomes)
    ensures state.current == state.writes[|state.writes| - 1]
    ensures state.file == FileAfter(oldFile, state.writes, succeeds)
    ensures called == names[..Calls(outcomes)]
  {
    hide Begin, Finish, FileAfter, NewState, WritesFrom, Calls;
    state := new UpdateState(runId, names, succeeds, oldFile);
    called := [];
    state.WriteState();
    var i := 0;
    assert names[0..] == names && outcomes[0..] == outcomes;
    while i < |names|
      invariant 0 <= i <= |names|
      invariant fresh(state) && state.Valid() && state.succeeds == succeeds && state.oldFile == oldFile
      invariant state.writes != [] && state.current == state.writes[|state.writes| - 1]
      invariant Writes(runId, names, outcomes) == state.writes + WritesFrom(state.current, names[i..], outcomes[i..])
      invariant called == names[..i] && Calls(outcomes) == i + Calls(outcomes[i..])
    {
      LoopStep(state.writes, state.current, names, outcomes, i);
      state.RunStep(names[i], outcomes[i]);
      called := called + [names[i]];
      if outcomes[i].Raises? {
        return;
      }
      i := i + 1;
    }
    assert WritesFrom(state.current, [], []) == [Complete(state.current)] by { LastWrite(state.current); }
    assert names[i..] == [] && outcomes[i..] == [] && names[..i] == names;
    state.current := state.current.(step := None, status := Done, finished := true);
    state.WriteState();
  }

  lemma LastWrite(s: Snapshot)
    ensures WritesFrom(s, [], []) == [Complete(s)] && Calls([]) == 0
  {
  }

  // ---- The shape of the states of one run ----

  ghost predicate Distinct(names: seq<string>) {
    forall i, j | 0 <= i < j < |names| :: names[i] != names[j]
  }

  ghost predicate HasNames(s: Snapshot, names: seq<string>) {
    |s.steps| == |names| && forall i | 0 <= i < |names| :: s.steps[i].name == names[i]
  }

  /** k steps succeeded; the next one has the given status; the ones after it are pending. */
  ghost predicate At(s: Snapshot, k: nat, status: StepStatus) {
    && k <= |s.steps|
    && (forall j | 0 <= j < k :: s.steps[j].status == Succeeded)
    && (k < |s.steps| ==> s.steps[k].status == status)
    && (forall j | k < j < |s.steps| :: s.steps[j].status == Pending)
  }

  /** A prefix of successes, at most one step running or failed, and the rest pending. */
  ghost predicate Shaped(s: Snapshot) {
    exists k: nat, status :: At(s, k, status) && status != Succeeded
  }

  /** A state before the end of the run. */
  ghost predicate Unfinished(s: Snapshot) {
    s.status == InProgress && !s.finished && s.error == None && forall t | t in s.steps :: t.status != Failed
  }

  /** A step stays as it is, begins or ends. */
  ghost predicate Forward(a: Snapshot, b: Snapshot) {
    && |a.steps| == |b.steps|
    && forall j | 0 <= j < |a.steps| ::
         && a.steps[j].name == b.steps[j].name
         && (|| a.steps[j] == b.steps[j]
             || (a.steps[j].status == Pending && b.steps[j].status == Running)
             || (a.steps[j].status == Running && b.steps[j].status in {Succeeded, Failed}))
  }

  ghost predicate Progresses(writes: seq<Snapshot>) {
    && (forall i | 0 <= i < |writes| :: Shaped(writes[i]))
    && (forall i | 0 <= i < |writes| - 1 :: Unfinished(writes[i]))
    && (forall i | 0 <= i < |writes| - 1 :: Forward(writes[i], writes[i + 1]))
  }

  /** How a run ends: done with every step succeeded, or aborted at the step that raised, the ones
      before it succeeded, the ones after it never begun. */
  ghost predicate EndsAs(last: Snapshot, names: seq<string>, outcomes: seq<Outcome>)
    requires |names| == |outcomes|
  {
    var n := Calls(outcomes);
    && HasNames(last, names) && last.finished
    && if n > 0 && outcomes[n - 1].Raises?
       then && last.status == Aborted && At(last, n - 1, Failed)
            && last.error == Some(names[n - 1] + ": " + LastChars(outcomes[n - 1].message, MAX_ERROR_CHARS))
       else last.status == Done && At(last, |names|, Pending) && last.error == None && last.step == None
  }

  lemma {:induction false} ByNameIsIndex(steps: seq<Step>, k: nat)
    requires k < |steps|
    requires forall j | 0 <= j < k :: steps[j].name != steps[k].name
    ensures ByName(steps, steps[k].name) == k
  {
    if k > 0 {
      assert forall j | 0 <= j < k - 1 :: steps[1..][j] == steps[j + 1];
      ByNameIsIndex(steps[1..], k - 1);
    }
  }

  lemma BeginMoves(s: Snapshot, names: seq<string>, k: nat)
    requires Distinct(names) && HasNames(s, names) && k < |names|
    requires At(s, k, Pending) && Unfinished(s)
    ensures var begun := Begin(s, names[k]);
            Forward(s, begun) && At(begun, k, Running) && Shaped(begun) && Unfinished(begun) && HasNames(begun, names)
  {
    ByNameIsIndex(s.steps, k);
    var begun := Begin(s, names[k]);
    assert begun.steps == s.steps[k := begun.steps[k]];
    assert At(begun, k, Running);
  }

  lemma FinishMoves(begun: Snapshot, names: seq<string>, k: nat, o: Outcome)
    requires Distinct(names) && HasNames(begun, names) && k < |names|
    requires At(begun, k, Running) && Unfinished(begun)
    ensures var ended := Finish(begun, names[k], o);
            && Forward(begun, ended) && HasNames(ended, names)
            && (o.Returns? ==> At(ended, k + 1, Pending) && Unfinished(ended))
            && (o.Raises? ==>
                  && At(ended, k, Failed) && Shaped(ended) && ended.status == Aborted && ended.finished
                  && ended.error == Some(names[k] + ": " + LastChars(o.message, MAX_ERROR_CHARS)))
  {
    ByNameIsIndex(begun.steps, k);
    var ended := Finish(begun, names[k], o);
    assert ended.steps == begun.steps[k := ended.steps[k]];
    assert o.Raises? ==> At(ended, k, Failed);
  }

  lemma PrependProgress(s: Snapshot, rest: seq<Snapshot>)
    requires rest != [] && Progresses(rest)
    requires Shaped(s) && Unfinished(s) && Forward(s, rest[0])
    ensures Progresses([s] + rest)
  {
    hide Shaped, Unfinished, Forward;
    var all := [s] + rest;
    assert forall i | 1 <= i < |all| :: all[i] == rest[i - 1];
    forall i | 0 <= i < |all| - 1 ensures Forward(all[i], all[i + 1]) {
      if i > 0 { assert Forward(rest[i - 1], rest[i]); }
    }
  }

  lemma {:induction false} TailShape(s: Snapshot, names: seq<string>, outcomes: seq<Outcome>, k: nat)
    requires |outcomes| == |names| && k <= |names|
    requires Distinct(names) && HasNames(s, names) && At(s, k, Pending) && Unfinished(s)
    requires Calls(outcomes) == k + Calls(outcomes[k..]) && forall i | 0 <= i < k :: outcomes[i].Returns?
    ensures var writes := WritesFrom(s, names[k..], outcomes[k..]);
            Progresses([s] + writes) && EndsAs(writes[|writes| - 1], names, outcomes)
    decreases |names| - k
  {
    hide Begin, Finish, Forward, At, Progresses, HasNames, Unfinished, Shaped, EndsAs, WritesFrom, Calls;
    PendingIsShaped(s, k);
    if k == |names| {
      LastShape(s, names, outcomes);
    } else {
      var begun := Begin(s, names[k]);
      var ended := Finish(begun, names[k], outcomes[k]);
      WritesSplit(s, names, outcomes, k);
      BeginMoves(s, names, k);
      FinishMoves(begun, names, k, outcomes[k]);
      if outcomes[k].Raises? {
        SingleProgress(ended);
        assert [ended] + [] == [ended];
        PrependTwo(s, begun, ended, []);
        AbortedEnd(ended, names, outcomes, k);
      } else {
        var rest := WritesFrom(ended, names[k + 1..], outcomes[k + 1..]);
        TailShape(ended, names, outcomes, k + 1);
        PrependTwo(s, begun, ended, rest);
      }
    }
  }

  lemma WritesSplit(s: Snapshot, names: seq<string>, outcomes: seq<Outcome>, k: nat)
    requires k < |names| == |outcomes|
    ensures var begun := Begin(s, names[k]);
            var ended := Finish(begun, names[k], outcomes[k]);
            var rest := if outcomes[k].Raises? then [] else WritesFrom(ended, names[k + 1..], outcomes[k + 1..]);
            var writes := WritesFrom(s, names[k..], outcomes[k..]);
            && writes == [begun] + ([ended] + rest)
            && writes[|writes| - 1] == ([ended] + rest)[|rest|]
            && Calls(outcomes[k..]) == 1 + (if outcomes[k].Raises? then 0 else Calls(outcomes[k + 1..]))
  {
    hide Begin, Finish;
    assert names[k..][1..] == names[k + 1..] && outcomes[k..][1..] == outcomes[k + 1..];
  }

  lemma PrependTwo(s: Snapshot, begun: Snapshot, ended: Snapshot, rest: seq<Snapshot>)
    requires Progresses([ended] + rest)
    requires Shaped(s) && Unfinished(s) && Forward(s, begun)
    requires Shaped(begun) && Unfinished(begun) && Forward(begun, ended)
    ensures Progresses([s] + ([begun] + ([ended] + rest)))
  {
    hide Shaped, Unfinished, Forward, Progresses;
    PrependProgress(begun, [ended] + rest);
    PrependProgress(s, [begun] + ([ended] + rest));
  }

  lemma PendingIsShaped(s: Snapshot, k: nat)
    requires At(s, k, Pending)
    ensures Shaped(s)
  {
  }

  lemma SingleProgress(s: Snapshot)
    requires Shaped(s)
    ensures Progresses([s])
  {
  }

  lemma AbortedEnd(ended: Snapshot, names: seq<string>, outcomes: seq<Outcome>, k: nat)
    requires |outcomes| == |names| && k < |names| && outcomes[k].Raises? && Calls(outcomes) == k + 1
    requires HasNames(ended, names) && At(ended, k, Failed) && ended.status == Aborted && ended.finished
    requires ended.error == Some(names[k] + ": " + LastChars(outcomes[k].message, MAX_ERROR_CHARS))
    ensures EndsAs(ended, names, outcomes)
  {
  }

  lemma LastShape(s: Snapshot, names: seq<string>, outcomes: seq<Outcome>)
    requires |outcomes| == |names|
    requires HasNames(s, names) && At(s, |names|, Pending) && Unfinished(s)
    requires Calls(outcomes) == |names| && forall i | 0 <= i < |names| :: outcomes[i].Returns?
    ensures var writes := WritesFrom(s, names[|names|..], outcomes[|names|..]);
            Progresses([s] + writes) && EndsAs(writes[|writes| - 1], names, outcomes)
  {
    var last := Complete(s);
    var n := |names|;
    assert names[n..] == [] && outcomes[n..] == [];
    LastWrite(s);
    assert At(last, n, Pending) && Shaped(last);
    assert Shaped(s);
    assert Forward(s, last);
  }

  /** For distinctly named steps with any outcomes: every state written is successes, then at most one
      step running or failed, then pending; steps only move forward; the run ends done exactly when
      every step returned, and otherwise aborted at the one step that raised. */
  lemma EveryStateIsShaped(runId: string, names: seq<string>, outcomes: seq<Outcome>)
    requires |outcomes| == |names| && Distinct(names)
    ensures var writes := Writes(runId, names, outcomes);
            Progresses(writes) && EndsAs(writes[|writes| - 1], names, outcomes)
  {
    var s := NewState(runId, names);
    assert At(s, 0, Pending) && Unfinished(s) && HasNames(s, names);
    assert names[0..] == names && outcomes[0..] == outcomes;
    TailShape(s, names, outcomes, 0);
  }

  lemma {:induction false} SameNamesSameIndex(a: seq<Step>, b: seq<Step>, name: string)
    requires |a| == |b| && forall j | 0 <= j < |a| :: a[j].name == b[j].name
    ensures ByName(a, name) == ByName(b, name)
  {
    hide ByName;
  }

  /** One marking reaches the first step of the name and no other. */
  lemma MarkReachesTheFirst(s: Snapshot, name: string, status: StepStatus, detail: Option<string>, j: nat)
    requires j < |s.steps|
    ensures var t := Mark(s, name, status, detail);
            && |t.steps| == |s.steps| && (forall i | 0 <= i < |s.steps| :: t.steps[i].name == s.steps[i].name)
            && t.steps[j].status == if ByName(s.steps, name) == j then status else s.steps[j].status
  {
  }

  lemma StepReachesTheFirst(s: Snapshot, name: string, o: Outcome, j: nat)
    requires o.Returns? && j < |s.steps|
    ensures var t := Finish(Begin(s, name), name, o);
            && |t.steps| == |s.steps| && (forall i | 0 <= i < |s.steps| :: t.steps[i].name == s.steps[i].name)
            && t.steps[j].status == (if ByName(s.steps, name) == j then Succeeded else s.steps[j].status)
            && t.status == s.status
  {
    hide ByName;
    var s' := s.(step := Some(name));
    var begun := Begin(s, name);
    MarkReachesTheFirst(s', name, Running, DetailOf(s, name), j);
    MarkReachesTheFirst(begun, name, Succeeded, Some(o.detail), j);
    SameNamesSameIndex(s.steps, begun.steps, name);
  }

  lemma LastOfReturning(s: Snapshot, names: seq<string>, outcomes: seq<Outcome>)
    requires |outcomes| == |names| > 0 && outcomes[0].Returns?
    ensures var ended := Finish(Begin(s, names[0]), names[0], outcomes[0]);
            var writes, rest := WritesFrom(s, names, outcomes), WritesFrom(ended, names[1..], outcomes[1..]);
            writes[|writes| - 1] == rest[|rest| - 1]
  {
    hide Begin, Finish;
  }

  /** Running the named steps from s on reaches step j. */
  ghost predicate Reaches(s: Snapshot, names: seq<string>, j: nat) {
    j < |s.steps| && s.steps[j].name in names && ByName(s.steps, s.steps[j].name) == j
  }

  lemma ReachesFirstOrLater(s: Snapshot, names: seq<string>, o: Outcome, j: nat)
    requires names != [] && o.Returns? && j < |s.steps|
    ensures var t := Finish(Begin(s, names[0]), names[0], o);
            && |t.steps| == |s.steps| && t.status == s.status
            && (Reaches(s, names, j) <==> Reaches(s, [names[0]], j) || Reaches(t, names[1..], j))
            && t.steps[j].status == if Reaches(s, [names[0]], j) then Succeeded else s.steps[j].status
  {
    hide ByName, Begin, Finish;
    var t := Finish(Begin(s, names[0]), names[0], o);
    StepReachesTheFirst(s, names[0], o, j);
    SameNamesSameIndex(s.steps, t.steps, s.steps[j].name);
    assert names == [names[0]] + names[1..];
  }

  /** If every step function returns, exactly the first steps of the names run are marked. */
  lemma {:induction false} RunMarksTheFirsts(s: Snapshot, names: seq<string>, outcomes: seq<Outcome>, j: nat)
    requires |outcomes| == |names| && j < |s.steps|
    requires forall o | o in outcomes :: o.Returns?
    ensures var writes := WritesFrom(s, names, outcomes);
            var last := writes[|writes| - 1];
            && last.status == Done && |last.steps| == |s.steps|
            && last.steps[j].status == if Reaches(s, names, j) then Succeeded else s.steps[j].status
    decreases |names|
  {
    if names == [] {
      LastWrite(s);
    } else {
      hide Reaches, Begin, Finish, WritesFrom;
      var ended := Finish(Begin(s, names[0]), names[0], outcomes[0]);
      LastOfReturning(s, names, outcomes);
      ReachesFirstOrLater(s, names, outcomes[0], j);
      RunMarksTheFirsts(ended, names[1..], outcomes[1..], j);
    }
  }

  /** When every step function returns, the run is reported done, and each step ends as succeeded
      exactly if no earlier step has its name; otherwise it is pending to the end. */
  lemma DoneStepsExactly(runId: string, names: seq<string>, outcomes: seq<Outcome>, j: nat)
    requires |outcomes| == |names| && j < |names|
    requires forall o | o in outcomes :: o.Returns?
    ensures var writes := Writes(runId, names, outcomes);
            var last := writes[|writes| - 1];
            && last.status == Done && |last.steps| == |names|
            && last.steps[j].status == if names[j] in names[..j] then Pending else Succeeded
  {
    hide ByName, WritesFrom;
    var s := NewState(runId, names);
    RunMarksTheFirsts(s, names, outcomes, j);
    assert names[j] in names;
    if names[j] in names[..j] {
      var i :| 0 <= i < j && names[i] == names[j];
      assert s.steps[i].name == s.steps[j].name;
    } else {
      forall k | 0 <= k < j ensures s.steps[k].name != names[j] {
        assert names[..j][k] == names[k];
      }
    }
  }

  /** A run whose step functions all return has all its steps succeeded if and only if their names are
      distinct. */
  lemma AllSucceedExactly(runId: string, names: seq<string>, outcomes: seq<Outcome>)
    requires |outcomes| == |names|
    requires forall o | o in outcomes :: o.Returns?
    ensures var writes := Writes(runId, names, outcomes);
            var last := writes[|writes| - 1];
            && last.status == Done
            && ((forall t | t in last.steps :: t.status == Succeeded) <==> Distinct(names))
  {
    hide Writes;
    var writes := Writes(runId, names, outcomes);
    var last := writes[|writes| - 1];
    if names == [] {
      NothingToRun(runId);
    } else {
      forall j | 0 <= j < |names|
        ensures last.status == Done && |last.steps| == |names|
        ensures last.steps[j].status == if names[j] in names[..j] then Pending else Succeeded
      {
        DoneStepsExactly(runId, names, outcomes, j);
      }
      DoneStepsExactly(runId, names, outcomes, 0);
      forall i, j | 0 <= i < j < |names| && names[i] == names[j] ensures last.steps[j].status == Pending {
        assert names[..j][i] == names[j];
      }
      forall j | 0 <= j < |names| && names[j] in names[..j] ensures !Distinct(names) {
        var i :| 0 <= i < j && names[..j][i] == names[j];
      }
      assert forall j | 0 <= j < |names| :: last.steps[j] in last.steps;
    }
  }

  lemma NothingToRun(runId: string)
    ensures var writes := Writes(runId, [], []);
            var last := writes[|writes| - 1]; last.status == Done && last.steps == []
  {
    LastWrite(NewState(runId, []));
  }

  /** The names must be distinct: a second step of the same name is never marked, yet the run is done. */
  lemma DuplicateNamesLoseAStep()
    ensures var writes := Writes("r", ["pull", "pull"], [Returns("x"), Returns("y")]);
            var last := writes[|writes| - 1];
            last.status == Done && last.steps[1].status == Pending
  {
    var names, outcomes := ["pull", "pull"], [Returns("x"), Returns("y")];
    var s0 := NewState("r", names);
    assert ByName(s0.steps, "pull") == 0;
    var s1 := Finish(Begin(s0, "pull"), "pull", outcomes[0]);
    assert s1.steps[0].name == "pull" && s1.steps[1] == s0.steps[1];
    assert ByName(s1.steps, "pull") == 0;
    var s2 := Finish(Begin(s1, "pull"), "pull", outcomes[1]);
    assert s2.steps[1] == s0.steps[1];
    assert names[1..] == ["pull"] && outcomes[1..] == [Returns("y")];
    assert WritesFrom(s1, ["pull"], [Returns("y")]) == [Begin(s1, "pull"), s2] + WritesFrom(s2, [], []);
    LastWrite(s2);
    var w := Writes("r", names, outcomes);
    assert WritesFrom(s0, names, outcomes)
        == [Begin(s0, "pull"), s1] + WritesFrom(s1, ["pull"], [Returns("y")]);
    assert w[|w| - 1] == Complete(s2);
  }

  // ---- Every state of one run ----

  predicate AllReturn(outcomes: seq<Outcome>, k: nat)
    requires k <= |outcomes|
  {
    forall i | 0 <= i < k :: outcomes[i].Returns?
  }

  /** k steps succeeded, each with the detail that its function returned; the next one is in the given
      status, the ones after it are pending. */
  function StepsAt(names: seq<string>, outcomes: seq<Outcome>, k: nat, status: StepStatus): seq<Step>
    requires |outcomes| == |names| && k <= |names| && AllReturn(outcomes, k)
  {
    seq(|names|, j requires 0 <= j < |names| =>
      if j < k then Step(names[j], Succeeded, Some(outcomes[j].detail))
      else Step(names[j], if j == k then status else Pending, None))
  }

  function Before(run: RunSpec, k: nat): Snapshot
    requires k <= |run.names| && AllReturn(run.outcomes, k)
  {
    Snapshot(run.runId, InProgress, if k == 0 then None else Some(run.names[k - 1]),
             StepsAt(run.names, run.outcomes, k, Pending), None, false)
  }

  function During(run: RunSpec, k: nat): Snapshot
    requires k < |run.names| && AllReturn(run.outcomes, k)
  {
    Snapshot(run.runId, InProgress, Some(run.names[k]), StepsAt(run.names, run.outcomes, k, Running), None, false)
  }

  lemma MarkedAt(s: Snapshot, k: nat, status: StepStatus, detail: Option<string>)
    requires Distinct(seq(|s.steps|, i requires 0 <= i < |s.steps| => s.steps[i].name)) && k < |s.steps|
    ensures Mark(s, s.steps[k].name, status, detail)
         == s.(steps := s.steps[k := Step(s.steps[k].name, status, detail)])
    ensures DetailOf(s, s.steps[k].name) == s.steps[k].detail
  {
    var names := seq(|s.steps|, i requires 0 <= i < |s.steps| => s.steps[i].name);
    forall j | 0 <= j < k ensures s.steps[j].name != s.steps[k].name {
      assert names[j] != names[k];
    }
    ByNameIsIndex(s.steps, k);
  }

  lemma BeginExactly(run: RunSpec, k: nat)
    requires Distinct(run.names) && k < |run.names| && AllReturn(run.outcomes, k)
    ensures Begin(Before(run, k), run.names[k]) == During(run, k)
  {
    var s := Before(run, k).(step := Some(run.names[k]));
    assert seq(|s.steps|, i requires 0 <= i < |s.steps| => s.steps[i].name) == run.names;
    MarkedAt(s, k, Running, None);
    assert Begin(Before(run, k), run.names[k]).steps == During(run, k).steps;
  }

  lemma FinishExactly(run: RunSpec, k: nat)
    requires Distinct(run.names) && k < |run.names| && AllReturn(run.outcomes, k)
    ensures var ended := Finish(During(run, k), run.names[k], run.outcomes[k]);
            match run.outcomes[k]
            case Returns(_) => AllReturn(run.outcomes, k + 1) && ended == Before(run, k + 1)
            case Raises(message) =>
              ended == Snapshot(run.runId, Aborted, Some(run.names[k]), StepsAt(run.names, run.outcomes, k, Failed),
                                Some(run.names[k] + ": "
                                     + if |message| <= 500 then message else message[|message| - 500..]), true)
  {
    var s := During(run, k);
    assert seq(|s.steps|, i requires 0 <= i < |s.steps| => s.steps[i].name) == run.names;
    match run.outcomes[k]
    case Returns(detail) =>
      MarkedAt(s, k, Succeeded, Some(detail));
      assert Finish(s, run.names[k], run.outcomes[k]).steps == Before(run, k + 1).steps;
    case Raises(_) =>
      MarkedAt(s, k, Failed, None);
      assert Finish(s, run.names[k], run.outcomes[k]).steps == StepsAt(run.names, run.outcomes, k, Failed);
  }

  lemma {:induction false} WritesUpTo(run: RunSpec, k: nat) returns (done: seq<Snapshot>)
    requires Distinct(run.names) && k <= |run.names| && AllReturn(run.outcomes, k)
    ensures |done| == 2 * k + 1 && done[0] == NewState(run.runId, run.names)
    ensures Writes(run.runId, run.names, run.outcomes)
         == done + WritesFrom(Before(run, k), run.names[k..], run.outcomes[k..])
  {
    hide Begin, Finish, WritesFrom, Before, During;
    if k == 0 {
      done := [NewState(run.runId, run.names)];
      FirstIsNew(run);
      assert run.names[0..] == run.names && run.outcomes[0..] == run.outcomes;
    } else {
      var earlier := WritesUpTo(run, k - 1);
      LoopStep(earlier, Before(run, k - 1), run.names, run.outcomes, k - 1);
      BeginExactly(run, k - 1);
      FinishExactly(run, k - 1);
      done := earlier + [During(run, k - 1), Before(run, k)];
    }
  }

  lemma FirstIsNew(run: RunSpec)
    ensures Before(run, 0) == NewState(run.runId, run.names)
  {
  }

  /** Every state that a run of distinctly named steps writes. The first has every step pending. Step k,
      if all before it returned, writes two: with itself running, and then with itself succeeded, or the
      aborted state with its name and the last 500 characters of the message. A run in which all steps
      return writes one more, done. */
  lemma StatesExactly(run: RunSpec, k: nat)
    requires Distinct(run.names) && k <= |run.names| && AllReturn(run.outcomes, k)
    ensures var writes := Writes(run.runId, run.names, run.outcomes);
            && |writes| > 2 * k + 1
            && writes[0] == Snapshot(run.runId, InProgress, None, StepsAt(run.names, run.outcomes, 0, Pending),
                                     None, false)
            && (k == |run.names| ==>
                  && |writes| == 2 * k + 2
                  && writes[2 * k + 1] == Snapshot(run.runId, Done, None,
                                                   StepsAt(run.names, run.outcomes, k, Pending), None, true))
            && (k < |run.names| ==>
                  && |writes| > 2 * k + 2
                  && writes[2 * k + 1] == Snapshot(run.runId, InProgress, Some(run.names[k]),
                                                   StepsAt(run.names, run.outcomes, k, Running), None, false)
                  && match run.outcomes[k]
                     case Returns(_) =>
                       && AllReturn(run.outcomes, k + 1)
                       && writes[2 * k + 2] == Snapshot(run.runId, InProgress, Some(run.names[k]),
                                                        StepsAt(run.names, run.outcomes, k + 1, Pending), None, false)
                     case Raises(message) =>
                       && |writes| == 2 * k + 3
                       && writes[2 * k + 2] ==
                            Snapshot(run.runId, Aborted, Some(run.names[k]),
                                     StepsAt(run.names, run.outcomes, k, Failed),
                                     Some(run.names[k] + ": "
                                          + if |message| <= 500 then message else message[|message| - 500..]), true))
  {
    hide Begin, Finish, WritesFrom, StepsAt;
    var done := WritesUpTo(run, k);
    FirstIsNew(run);
    if k == |run.names| {
      assert run.names[k..] == [] && run.outcomes[k..] == [];
      LastWrite(Before(run, k));
    } else {
      LoopStep(done, Before(run, k), run.names, run.outcomes, k);
      BeginExactly(run, k);
      FinishExactly(run, k);
    }
  }

  /** The state file holds the last state whose write succeeded; if none did, what it held before. */
  lemma {:induction false} FileHoldsTheLast(file: Option<Snapshot>, writes: seq<Snapshot>, succeeds: seq<bool>, k: int)
    requires -1 <= k < |writes| == |succeeds| && (k >= 0 ==> succeeds[k])
    requires forall i | k < i < |writes| :: !succeeds[i]
    ensures FileAfter(file, writes, succeeds) == if k >= 0 then Some(writes[k]) else file
  {
    if |writes| > k + 1 {
      var n := |writes| - 1;
      FileHoldsTheLast(file, writes[..n], succeeds[..n], k);
      FileAfterIgnoresLater(file, writes[..n], succeeds[..n], succeeds[n]);
      assert succeeds == succeeds[..n] + [succeeds[n]];
    }
  }

  // ---- One run at a time ----

  datatype Plan = Plan(runId: string, names: seq<string>, outcomes: seq<Outcome>)

  /** A run to come: its steps, and how each of them will end if it is reached. */
  type RunSpec = p: Plan | |p.outcomes| == |p.names| witness Plan("", [], [])

  /** The worker thread: what its run has still to write. */
  datatype Worker = Worker(run: RunSpec, todo: seq<Snapshot>)

  /** file is what the state file holds, runState the last known state. */
  datatype Server = Server(worker: Option<Worker>, file: Option<Snapshot>, runState: Option<Snapshot>,
                           written: seq<Snapshot>)

  datatype Event = Post(run: RunSpec) | Write(succeeds: bool) | ThreadEnds

  function ServerStep(s: Server, e: Event): Server
  {
    match e
    case Post(run) =>
      if s.worker.Some? then s
      else s.(worker := Some(Worker(run, Writes(run.runId, run.names, run.outcomes))), runState := None)
    case Write(succeeds) =>
      if s.worker.None? || s.worker.value.todo == [] then s else
      var w := s.worker.value;
      s.(worker := Some(w.(todo := w.todo[1..])), written := s.written + [w.todo[0]],
         file := if succeeds then Some(w.todo[0]) else s.file)
    case ThreadEnds =>
      if s.worker.None? || s.worker.value.todo != [] || s.written == [] then s
      else s.(worker := None, runState := Some(s.written[|s.written| - 1]))
  }

  class UpdateServer {
    var worker: Option<Worker>
    var file: Option<Snapshot>
    var runState: Option<Snapshot>
    var written: seq<Snapshot>

    constructor (file: Option<Snapshot>)
      ensures View() == Server(None, file, None, [])
    {
      this.file := file;
      worker, runState, written := None, None, [];
    }

    function View(): Server
      reads this
    {
      Server(worker, file, runState, written)
    }

    /** A second request while a worker lives is turned away with 409. */
    method StartRun(run: RunSpec) returns (code: int)
      modifies this
      ensures View() == ServerStep(old(View()), Post(run))
      ensures code == if old(worker).Some? then 409 else 202
    {
      if worker.Some? {
        return 409;
      }
      runState := None;
      worker := Some(Worker(run, Writes(run.runId, run.names, run.outcomes)));
      return 202;
    }

    /** The live state: the file if it can be read, else the last known state, else idle (None). */
    method CurrentStatus() returns (status: Option<Snapshot>)
      ensures status == Reported(View())
    {
      if file.Some? {
        return file;
      }
      return runState;
    }
  }

  function Reported(s: Server): Option<Snapshot> {
    if s.file.Some? then s.file else s.runState
  }

  ghost function ServerAfter(file: Option<Snapshot>, events: seq<Event>): Server
  {
    if events == [] then Server(None, file, None, [])
    else ServerStep(ServerAfter(file, events[..|events| - 1]), events[|events| - 1])
  }

  ghost function AllWrites(runs: seq<RunSpec>): seq<Snapshot>
  {
    if runs == [] then [] else
    var last := runs[|runs| - 1];
    AllWrites(runs[..|runs| - 1]) + Writes(last.runId, last.names, last.outcomes)
  }

  /** What has been written, with what the live worker has still to write, is a sequence of whole runs. */
  ghost predicate WholeRuns(s: Server, runs: seq<RunSpec>) {
    && AllWrites(runs) == s.written + (if s.worker.Some? then s.worker.value.todo else [])
    && (s.worker.Some? ==> runs != [] && runs[|runs| - 1] == s.worker.value.run)
  }

  lemma ServerStepKeepsWholeRuns(s: Server, runs: seq<RunSpec>, e: Event) returns (runs': seq<RunSpec>)
    requires WholeRuns(s, runs)
    ensures WholeRuns(ServerStep(s, e), runs')
    ensures runs' == if e.Post? && s.worker.None? then runs + [e.run] else runs
  {
    hide Writes;
    runs' := runs;
    match e {
      case Post(run) =>
        if s.worker.None? {
          runs' := runs + [run];
          assert runs'[..|runs|] == runs;
        }
      case Write(_) =>
        hide AllWrites;
        if s.worker.Some? && s.worker.value.todo != [] {
          var todo := s.worker.value.todo;
          assert s.written + todo == s.written + [todo[0]] + todo[1..];
        }
      case ThreadEnds =>
        hide AllWrites;
    }
  }

  /** Whatever requests arrive, the states written are those of whole runs one after the other, up to
      the part that the live worker has still to write. */
  lemma {:induction false} RunsNeverInterleave(file: Option<Snapshot>, events: seq<Event>) returns (runs: seq<RunSpec>)
    ensures WholeRuns(ServerAfter(file, events), runs)
    ensures forall r | r in runs :: Post(r) in events
  {
    if events == [] {
      runs := [];
    } else {
      var before, e := events[..|events| - 1], events[|events| - 1];
      var earlier := RunsNeverInterleave(file, before);
      runs := ServerStepKeepsWholeRuns(ServerAfter(file, before), earlier, e);
    }
  }

  /** While a run lives, what is reported is what the file holds, and idle if there is none: the state
      of the run before it is forgotten. */
  lemma {:induction false} LiveRunReportsTheFile(file: Option<Snapshot>, events: seq<Event>)
    ensures var s := ServerAfter(file, events); s.worker.Some? ==> s.runState == None && Reported(s) == s.file
  {
    if events != [] {
      hide Writes;
      LiveRunReportsTheFile(file, events[..|events| - 1]);
    }
  }

  // ---- What is reported after a run ----

  /** Which of its writes the current run has got through to the file. */
  ghost function RunFlags(file: Option<Snapshot>, events: seq<Event>): seq<bool> {
    if events == [] then [] else
    var before, e := events[..|events| - 1], events[|events| - 1];
    var s := ServerAfter(file, before);
    if e.Post? && s.worker.None? then []
    else if e.Write? && s.worker.Some? && s.worker.value.todo != [] then RunFlags(file, before) + [e.succeeds]
    else RunFlags(file, before)
  }

  /** What the file held when the current run was admitted. */
  ghost function FileAtPost(file: Option<Snapshot>, events: seq<Event>): Option<Snapshot> {
    if events == [] then file else
    var before, e := events[..|events| - 1], events[|events| - 1];
    var s := ServerAfter(file, before);
    if e.Post? && s.worker.None? then s.file else FileAtPost(file, before)
  }

  /** The live worker has written the first |flags| states of its run. */
  ghost predicate MidRun(s: Server, flags: seq<bool>, old': Option<Snapshot>)
    requires s.worker.Some?
  {
    var run := s.worker.value.run;
    var writes := Writes(run.runId, run.names, run.outcomes);
    var k := |flags|;
    && k <= |writes| && s.worker.value.todo == writes[k..]
    && s.file == FileAfter(old', writes[..k], flags)
    && (k > 0 ==> s.written != [] && s.written[|s.written| - 1] == writes[k - 1])
  }

  lemma {:induction false} FileAfterIgnoresLater(file: Option<Snapshot>, writes: seq<Snapshot>,
                                                 flags: seq<bool>, b: bool)
    requires |writes| <= |flags|
    ensures FileAfter(file, writes, flags + [b]) == FileAfter(file, writes, flags)
  {
    if writes != [] { FileAfterIgnoresLater(file, writes[..|writes| - 1], flags, b); }
  }

  lemma WriteKeepsMidRun(s: Server, flags: seq<bool>, old': Option<Snapshot>, succeeds: bool)
    requires s.worker.Some? && s.worker.value.todo != [] && MidRun(s, flags, old')
    ensures ServerStep(s, Write(succeeds)).worker.Some?
    ensures MidRun(ServerStep(s, Write(succeeds)), flags + [succeeds], old')
  {
    hide FileAfter, Writes;
    var run := s.worker.value.run;
    var writes := Writes(run.runId, run.names, run.outcomes);
    var k := |flags|;
    assert writes[..k + 1] == writes[..k] + [writes[k]];
    FileAfterGrows(old', writes[..k], writes[k], flags + [succeeds]);
    FileAfterIgnoresLater(old', writes[..k], flags, succeeds);
  }

  lemma {:induction false} RunIsMidRun(file: Option<Snapshot>, events: seq<Event>)
    ensures var s := ServerAfter(file, events);
            s.worker.Some? ==> MidRun(s, RunFlags(file, events), FileAtPost(file, events))
  {
    if events != [] {
      var before, e := events[..|events| - 1], events[|events| - 1];
      var s := ServerAfter(file, before);
      RunIsMidRun(file, before);
      if s.worker.Some? && e.Write? && s.worker.value.todo != [] {
        hide MidRun;
        WriteKeepsMidRun(s, RunFlags(file, before), FileAtPost(file, before), e.succeeds);
      } else if s.worker.None? && e.Post? {
        PostStartsMidRun(s, e.run);
      }
    }
  }

  lemma PostStartsMidRun(s: Server, run: RunSpec)
    requires s.worker.None?
    ensures MidRun(ServerStep(s, Post(run)), [], s.file)
  {
  }

  /** Only the last state of a run is finished. */
  lemma {:induction false} OnlyTheLastIsFinished(s: Snapshot, names: seq<string>, outcomes: seq<Outcome>)
    requires |outcomes| == |names| && !s.finished
    ensures var writes := WritesFrom(s, names, outcomes);
            && (forall i | 0 <= i < |writes| - 1 :: !writes[i].finished)
            && writes[|writes| - 1].finished
    decreases |names|
  {
    if names != [] {
      hide ByName;
      var ended := Finish(Begin(s, names[0]), names[0], outcomes[0]);
      if outcomes[0].Returns? { OnlyTheLastIsFinished(ended, names[1..], outcomes[1..]); }
    }
  }

  lemma {:induction false} FileHoldsASuccess(file: Option<Snapshot>, writes: seq<Snapshot>, succeeds: seq<bool>)
    requires |writes| <= |succeeds|
    ensures (forall i | 0 <= i < |writes| :: !succeeds[i]) ==> FileAfter(file, writes, succeeds) == file
    ensures (exists i | 0 <= i < |writes| :: succeeds[i]) ==>
              exists i :: 0 <= i < |writes| && succeeds[i] && FileAfter(file, writes, succeeds) == Some(writes[i])
    ensures writes != [] && succeeds[|writes| - 1] ==>
              FileAfter(file, writes, succeeds) == Some(writes[|writes| - 1])
  {
    if writes != [] {
      var n := |writes| - 1;
      FileHoldsASuccess(file, writes[..n], succeeds);
    }
  }

  /** When the worker of a run ends, what is reported is the final state of that run exactly when its
      last write of the state file succeeded, or none of its writes did and the run had found no file, or
      that very state in it: an older file wins over the state in memory. */
  lemma ReportsTheEndExactly(file: Option<Snapshot>, events: seq<Event>)
    requires ServerAfter(file, events).worker.Some? && ServerAfter(file, events).worker.value.todo == []
    ensures var run := ServerAfter(file, events).worker.value.run;
            var writes := Writes(run.runId, run.names, run.outcomes);
            var n := |writes| - 1;
            var flags, old' := RunFlags(file, events), FileAtPost(file, events);
            var s' := ServerAfter(file, events + [ThreadEnds]);
            && |flags| == |writes| && s'.worker.None? && s'.runState == Some(writes[n])
            && (Reported(s') == Some(writes[n]) <==>
                  flags[n] || ((old'.None? || old' == Some(writes[n])) && forall i | 0 <= i <= n :: !flags[i]))
  {
    hide FileAfter, WritesFrom, NewState, RunFlags, FileAtPost;
    var run := ServerAfter(file, events).worker.value.run;
    var writes := Writes(run.runId, run.names, run.outcomes);
    var flags, old' := RunFlags(file, events), FileAtPost(file, events);
    RunIsMidRun(file, events);
    assert (events + [ThreadEnds])[..|events|] == events;
    assert writes[..|writes|] == writes;
    FileHoldsASuccess(old', writes, flags);
    WritesFinishOnce(run);
  }

  /** The run is admitted, and its first k writes fail. */
  ghost function Missed(run: RunSpec, k: nat): seq<Event> {
    if k == 0 then [Post(run)] else Missed(run, k - 1) + [Write(false)]
  }

  lemma MissedGrows(run: RunSpec, file: Option<Snapshot>, k: nat)
    requires k > 0
    ensures ServerAfter(file, Missed(run, k)) == ServerStep(ServerAfter(file, Missed(run, k - 1)), Write(false))
  {
    hide ServerStep;
    var before := Missed(run, k - 1);
    assert (before + [Write(false)])[..|before|] == before;
  }

  lemma OneMiss(s: Server, run: RunSpec, writes: seq<Snapshot>, k: nat)
    requires 0 < k <= |writes|
    requires s == Server(Some(Worker(run, writes[k - 1..])), s.file, None, writes[..k - 1])
    ensures ServerStep(s, Write(false)) == Server(Some(Worker(run, writes[k..])), s.file, None, writes[..k])
  {
    assert writes[..k - 1] + [writes[k - 1]] == writes[..k];
    assert writes[k - 1..][1..] == writes[k..];
  }

  lemma {:induction false} MissedWrites(run: RunSpec, file: Option<Snapshot>, k: nat)
    requires k <= |Writes(run.runId, run.names, run.outcomes)|
    ensures var writes := Writes(run.runId, run.names, run.outcomes);
            ServerAfter(file, Missed(run, k)) == Server(Some(Worker(run, writes[k..])), file, None, writes[..k])
  {
    hide Writes;
    var writes := Writes(run.runId, run.names, run.outcomes);
    if k == 0 {
      assert [Post(run)][..0] == [];
      assert writes[0..] == writes && writes[..0] == [];
    } else {
      hide ServerStep, Missed;
      MissedWrites(run, file, k - 1);
      MissedGrows(run, file, k);
      var s := Server(Some(Worker(run, writes[k - 1..])), file, None, writes[..k - 1]);
      OneMiss(s, run, writes, k);
    }
  }

  /** Whatever the run, if none of its writes reaches the file, an older state there is what is reported
      after its end. */
  lemma OldFileHidesTheEnd(run: RunSpec, older: Snapshot)
    requires var writes := Writes(run.runId, run.names, run.outcomes); writes[|writes| - 1] != older
    ensures var writes := Writes(run.runId, run.names, run.outcomes);
            var s := ServerAfter(Some(older), Missed(run, |writes|) + [ThreadEnds]);
            && s.worker.None? && s.runState == Some(writes[|writes| - 1])
            && Reported(s) == Some(older) && Reported(s) != s.runState
  {
    hide Writes;
    var writes := Writes(run.runId, run.names, run.outcomes);
    var events := Missed(run, |writes|);
    MissedWrites(run, Some(older), |writes|);
    assert (events + [ThreadEnds])[..|events|] == events;
    assert writes[..|writes|] == writes;
  }

  lemma WritesFinishOnce(run: RunSpec)
    ensures var writes := Writes(run.runId, run.names, run.outcomes);
            && (forall i | 0 <= i < |writes| - 1 :: !writes[i].finished)
            && writes[|writes| - 1].finished
  {
    hide WritesFrom;
    OnlyTheLastIsFinished(NewState(run.runId, run.names), run.names, run.outcomes);
  }
}
