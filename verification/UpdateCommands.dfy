/** The six steps of the self-update (sidecar/orchestrator.py) and the commands they issue, whatever
    the commands return. */
module UpdateCommands {
  import Text
  import UpdateRun

  const EXPECTED_REF := "refs/heads/main"
  const MIN_FREE_BYTES := 2 * 1024 * 1024 * 1024

  /** The commands, without the arguments that only name files and revisions. */
  datatype Command =
    | GitStatus | GitSymbolicRef | DockerInspect
    | PgDump
    | GitRevParse | GitPull | GitRevList
    | ComposeBuild | ComposeAlembicUpgrade | ComposeUp

  /** A command completes, or raises (it cannot be started, or it times out). */
  datatype Reply = Completed(code: int, stdout: string) | Threw(message: string)

  datatype Issued = Issued(command: Command, reply: Reply)

  /** Everything the steps learn from outside: the reply to each command may depend on all that was
      issued before. */
  datatype Env = Env(answer: (seq<Issued>, Command) -> Reply, repoMounted: bool, dockerSocket: bool,
                     diskFree: int, backupDirUsable: bool)

  datatype StepKind = Preflight | Backup | Pull | Build | Migrate | Restart

  const DEFAULT_STEPS: seq<StepKind> := [Preflight, Backup, Pull, Build, Migrate, Restart]

  // ---- The reference: what each step issues, and what each reply must show ----

  datatype Check = NoRaise | ExitZero | EmptyOutput | OnExpectedRef | SaysTrue

  predicate Passes(check: Check, reply: Reply) {
    reply.Completed? &&
    match check
    case NoRaise => true
    case ExitZero => reply.code == 0
    case EmptyOutput => reply.code == 0 && Text.Strip(reply.stdout) == ""
    case OnExpectedRef => reply.code == 0 && Text.Strip(reply.stdout) == EXPECTED_REF
    case SaysTrue => reply.code == 0 && Text.Strip(reply.stdout) == "true"
  }

  datatype Line = Line(command: Command, check: Check)

  function Script(k: StepKind): seq<Line> {
    match k
    case Preflight => [Line(GitStatus, EmptyOutput), Line(GitSymbolicRef, OnExpectedRef), Line(DockerInspect, SaysTrue)]
    case Backup => [Line(PgDump, ExitZero)]
    case Pull => [Line(GitRevParse, ExitZero), Line(GitPull, ExitZero), Line(GitSymbolicRef, OnExpectedRef),
                  Line(GitRevParse, ExitZero), Line(GitRevList, NoRaise)]
    case Build => [Line(ComposeBuild, ExitZero)]
    case Migrate => [Line(ComposeAlembicUpgrade, ExitZero)]
    case Restart => [Line(ComposeUp, ExitZero)]
  }

  /** What a step checks before it issues anything. */
  predicate Gate(env: Env, k: StepKind) {
    match k
    case Preflight => env.repoMounted && env.dockerSocket && env.diskFree >= MIN_FREE_BYTES
    case Backup => env.backupDirUsable
    case _ => true
  }

  /** The trace after a script, and whether every check passed; the first that fails ends it. */
  function Play(env: Env, trace: seq<Issued>, script: seq<Line>): (seq<Issued>, bool)
    decreases |script|
  {
    if script == [] then (trace, true) else
    var reply := env.answer(trace, script[0].command);
    var trace' := trace + [Issued(script[0].command, reply)];
    if Passes(script[0].check, reply) then Play(env, trace', script[1..]) else (trace', false)
  }

  function PlayStep(env: Env, trace: seq<Issued>, k: StepKind): (seq<Issued>, bool) {
    if Gate(env, k) then Play(env, trace, Script(k)) else (trace, false)
  }

  function PlaySteps(env: Env, trace: seq<Issued>, steps: seq<StepKind>): (seq<Issued>, bool)
    decreases |steps|
  {
    if steps == [] then (trace, true) else
    var (trace', ok) := PlayStep(env, trace, steps[0]);
    if ok then PlaySteps(env, trace', steps[1..]) else (trace', false)
  }

  /** One more line of a script. */
  lemma PlayLine(env: Env, trace: seq<Issued>, script: seq<Line>, i: nat)
    requires i < |script|
    ensures var reply := env.answer(trace, script[i].command);
            var trace' := trace + [Issued(script[i].command, reply)];
            Play(env, trace, script[i..]) ==
              if !Passes(script[i].check, reply) then (trace', false)
              else if i + 1 == |script| then (trace', true)
              else Play(env, trace', script[i + 1..])
  {
    assert script[i..][1..] == script[i + 1..];
  }

  // ---- The steps ----

  class Ctx {
    const env: Env
    var trace: seq<Issued>

    constructor (env: Env)
      ensures this.env == env && trace == []
    {
      this.env := env;
      trace := [];
    }

    method RunCmd(command: Command) returns (reply: Reply)
      modifies this
      ensures reply == env.answer(old(trace), command)
      ensures trace == old(trace) + [Issued(command, reply)]
    {
      reply := env.answer(trace, command);
      trace := trace + [Issued(command, reply)];
    }

    method StepPreflight() returns (ok: bool)
      modifies this
      ensures (trace, ok) == PlayStep(env, old(trace), Preflight)
    {
      hide Play;
      if !env.repoMounted {
        return false;
      }
      if !env.dockerSocket {
        return false;
      }
      if env.diskFree < MIN_FREE_BYTES {
        return false;
      }
      ghost var script := Script(Preflight);
      assert script[0..] == script;
      PlayLine(env, trace, script, 0);
      var status := RunCmd(GitStatus);
      if status.Threw? || status.code != 0 {
        return false;
      }
      if Text.Strip(status.stdout) != "" {
        return false;
      }
      PlayLine(env, trace, script, 1);
      var head := RunCmd(GitSymbolicRef);
      if head.Threw? || head.code != 0 || Text.Strip(head.stdout) != EXPECTED_REF {
        return false;
      }
      PlayLine(env, trace, script, 2);
      var inspect := RunCmd(DockerInspect);
      if inspect.Threw? || inspect.code != 0 || Text.Strip(inspect.stdout) != "true" {
        return false;
      }
      return true;
    }

    method StepBackup() returns (ok: bool)
      modifies this
      ensures (trace, ok) == PlayStep(env, old(trace), Backup)
    {
      hide Play;
      if !env.backupDirUsable {
        return false;
      }
      ghost var script := Script(Backup);
      assert script[0..] == script;
      PlayLine(env, trace, script, 0);
      var dump := RunCmd(PgDump);
      return dump.Completed? && dump.code == 0;
    }

    method StepPull() returns (ok: bool)
      modifies this
      ensures (trace, ok) == PlayStep(env, old(trace), Pull)
    {
      hide Play;
      ghost var script := Script(Pull);
      assert script[0..] == script;
      PlayLine(env, trace, script, 0);
      var before := RunCmd(GitRevParse);
      if before.Threw? || before.code != 0 {
        return false;
      }
      PlayLine(env, trace, script, 1);
      var pull := RunCmd(GitPull);
      if pull.Threw? || pull.code != 0 {
        return false;
      }
      PlayLine(env, trace, script, 2);
      var head := RunCmd(GitSymbolicRef);
      if head.Threw? || head.code != 0 || Text.Strip(head.stdout) != EXPECTED_REF {
        return false;
      }
      PlayLine(env, trace, script, 3);
      var after := RunCmd(GitRevParse);
      if after.Threw? || after.code != 0 {
        return false;
      }
      PlayLine(env, trace, script, 4);
      var count := RunCmd(GitRevList);
      return !count.Threw?;
    }

    method StepBuild() returns (ok: bool)
      modifies this
      ensures (trace, ok) == PlayStep(env, old(trace), Build)
    {
      hide Play;
      ghost var script := Script(Build);
      assert script[0..] == script;
      PlayLine(env, trace, script, 0);
      var result := RunCmd(ComposeBuild);
      return result.Completed? && result.code == 0;
    }

    method StepMigrate() returns (ok: bool)
      modifies this
      ensures (trace, ok) == PlayStep(env, old(trace), Migrate)
    {
      hide Play;
      ghost var script := Script(Migrate);
      assert script[0..] == script;
      PlayLine(env, trace, script, 0);
      var result := RunCmd(ComposeAlembicUpgrade);
      return result.Completed? && result.code == 0;
    }

    method StepRestart() returns (ok: bool)
      modifies this
      ensures (trace, ok) == PlayStep(env, old(trace), Restart)
    {
      hide Play;
      ghost var script := Script(Restart);
      assert script[0..] == script;
      PlayLine(env, trace, script, 0);
      var result := RunCmd(ComposeUp);
      return result.Completed? && result.code == 0;
    }

    method RunStep(k: StepKind) returns (ok: bool)
      modifies this
      ensures (trace, ok) == PlayStep(env, old(trace), k)
    {
      match k {
        case Preflight => ok := StepPreflight();
        case Backup => ok := StepBackup();
        case Pull => ok := StepPull();
        case Build => ok := StepBuild();
        case Migrate => ok := StepMigrate();
        case Restart => ok := StepRestart();
      }
    }

    /** The runner's loop over the default steps. */
    method RunDefaultSteps() returns (ok: bool, called: nat)
      requires trace == []
      modifies this
      ensures (trace, ok) == PlaySteps(env, [], DEFAULT_STEPS)
      ensures called == UpdateRun.Calls(StepOutcomes(env, [], DEFAULT_STEPS))
    {
      hide PlayStep;
      called := 0;
      while called < |DEFAULT_STEPS|
        invariant 0 <= called <= |DEFAULT_STEPS|
        invariant PlaySteps(env, [], DEFAULT_STEPS) == PlaySteps(env, trace, DEFAULT_STEPS[called..])
        invariant UpdateRun.Calls(StepOutcomes(env, [], DEFAULT_STEPS))
               == called + UpdateRun.Calls(StepOutcomes(env, trace, DEFAULT_STEPS[called..]))
      {
        assert DEFAULT_STEPS[called..][1..] == DEFAULT_STEPS[called + 1..];
        var passed := RunStep(DEFAULT_STEPS[called]);
        called := called + 1;
        if !passed {
          return false, called;
        }
      }
      return true, called;
    }
  }

  /** The outcomes the runner sees; steps after the first failure are never reached. */
  function StepOutcomes(env: Env, trace: seq<Issued>, steps: seq<StepKind>): (outcomes: seq<UpdateRun.Outcome>)
    ensures |outcomes| == |steps|
    decreases |steps|
  {
    if steps == [] then [] else
    var (trace', ok) := PlayStep(env, trace, steps[0]);
    [if ok then UpdateRun.Returns("") else UpdateRun.Raises("")] + StepOutcomes(env, trace', steps[1..])
  }

  /** The runner calls a step exactly when every step before it has passed. */
  lemma {:induction false} CalledExactly(env: Env, trace: seq<Issued>, steps: seq<StepKind>, k: nat)
    requires k < |steps|
    ensures k < UpdateRun.Calls(StepOutcomes(env, trace, steps)) <==> PlaySteps(env, trace, steps[..k]).1
    decreases |steps|
  {
    hide PlayStep, PlaySteps, StepOutcomes, UpdateRun.Calls;
    var (trace', ok) := PlayStep(env, trace, steps[0]);
    OneMoreCall(env, trace, steps);
    if k == 0 {
      assert PlaySteps(env, trace, steps[..0]) == (trace, true) by { NothingPlayed(env, trace); }
    } else {
      FirstPlayed(env, trace, steps, k);
      if ok {
        CalledExactly(env, trace', steps[1..], k - 1);
      }
    }
  }

  lemma OneMoreCall(env: Env, trace: seq<Issued>, steps: seq<StepKind>)
    requires steps != []
    ensures var (trace', ok) := PlayStep(env, trace, steps[0]);
            UpdateRun.Calls(StepOutcomes(env, trace, steps)) ==
              1 + if ok then UpdateRun.Calls(StepOutcomes(env, trace', steps[1..])) else 0
  {
    hide PlayStep;
    var (trace', _) := PlayStep(env, trace, steps[0]);
    assert StepOutcomes(env, trace, steps)[1..] == StepOutcomes(env, trace', steps[1..]);
  }

  lemma NothingPlayed(env: Env, trace: seq<Issued>)
    ensures PlaySteps(env, trace, []) == (trace, true)
    ensures Answered(env, []) && Passed([], [])
  {
  }

  lemma FirstPlayed(env: Env, trace: seq<Issued>, steps: seq<StepKind>, k: nat)
    requires 0 < k <= |steps|
    ensures var (trace', ok) := PlayStep(env, trace, steps[0]);
            PlaySteps(env, trace, steps[..k]) ==
              if ok then PlaySteps(env, trace', steps[1..][..k - 1]) else (trace', false)
  {
    hide PlayStep;
    assert steps[..k][1..] == steps[1..][..k - 1] && steps[..k][0] == steps[0];
  }

  // ---- What can be issued, and after what ----

  /** The trace is an initial part of the script, and only its last reply may have failed its check. */
  ghost predicate Follows(trace: seq<Issued>, script: seq<Line>) {
    && |trace| <= |script|
    && (forall i | 0 <= i < |trace| :: trace[i].command == script[i].command)
    && (forall i | 0 <= i < |trace| - 1 :: Passes(script[i].check, trace[i].reply))
  }

  ghost predicate Passed(trace: seq<Issued>, script: seq<Line>) {
    && |trace| == |script|
    && (forall i | 0 <= i < |trace| :: trace[i].command == script[i].command)
    && (forall i | 0 <= i < |trace| :: Passes(script[i].check, trace[i].reply))
  }

  lemma {:induction false} PlayFollows(env: Env, trace: seq<Issued>, done: seq<Line>, script: seq<Line>)
    requires Passed(trace, done)
    ensures var (trace', ok) := Play(env, trace, script);
            Follows(trace', done + script) && (ok <==> Passed(trace', done + script))
    decreases |script|
  {
    if script == [] {
      assert done + script == done;
    } else {
      var l := script[0];
      var reply := env.answer(trace, l.command);
      var trace' := trace + [Issued(l.command, reply)];
      assert done + script == done + [l] + script[1..];
      if Passes(l.check, reply) {
        PlayFollows(env, trace', done + [l], script[1..]);
      } else {
        assert (done + script)[|done|] == l && trace'[|done|].reply == reply;
      }
    }
  }

  function Flatten(steps: seq<StepKind>): seq<Line> {
    if steps == [] then [] else Script(steps[0]) + Flatten(steps[1..])
  }

  lemma {:induction false} PlayStepsFollows(env: Env, trace: seq<Issued>, done: seq<Line>, steps: seq<StepKind>)
    requires Passed(trace, done)
    ensures var (trace', ok) := PlaySteps(env, trace, steps);
            Follows(trace', done + Flatten(steps)) && (ok ==> Passed(trace', done + Flatten(steps)))
    decreases |steps|
  {
    if steps == [] {
      assert done + [] == done;
    } else {
      hide Script, Play, PlayStep, Follows, Passed;
      var (trace', ok) := PlayStep(env, trace, steps[0]);
      var through := done + Script(steps[0]);
      PlayStepFollows(env, trace, done, steps[0]);
      assert done + Flatten(steps) == through + Flatten(steps[1..]);
      if ok {
        PlayStepsFollows(env, trace', through, steps[1..]);
      } else {
        FollowsLonger(trace', through, Flatten(steps[1..]));
      }
    }
  }

  lemma PlayStepFollows(env: Env, trace: seq<Issued>, done: seq<Line>, k: StepKind)
    requires Passed(trace, done)
    ensures var (trace', ok) := PlayStep(env, trace, k);
            Follows(trace', done + Script(k)) && (ok ==> Passed(trace', done + Script(k)))
  {
    hide Script, Play, Gate;
    PlayFollows(env, trace, done, Script(k));
    GateOrPlay(env, trace, k);
  }

  lemma FollowsLonger(trace: seq<Issued>, script: seq<Line>, more: seq<Line>)
    requires Follows(trace, script)
    ensures Follows(trace, script + more)
  {
  }

  lemma GateOrPlay(env: Env, trace: seq<Issued>, k: StepKind)
    ensures PlayStep(env, trace, k) == (trace, false) || PlayStep(env, trace, k) == Play(env, trace, Script(k))
  {
  }

  /** The twelve commands of a full update. */
  const FULL_SCRIPT: seq<Line> := [
    Line(GitStatus, EmptyOutput), Line(GitSymbolicRef, OnExpectedRef), Line(DockerInspect, SaysTrue),
    Line(PgDump, ExitZero),
    Line(GitRevParse, ExitZero), Line(GitPull, ExitZero), Line(GitSymbolicRef, OnExpectedRef),
    Line(GitRevParse, ExitZero), Line(GitRevList, NoRaise),
    Line(ComposeBuild, ExitZero),
    Line(ComposeAlembicUpgrade, ExitZero),
    Line(ComposeUp, ExitZero)]

  lemma FlattenIsFullScript()
    ensures Flatten(DEFAULT_STEPS) == FULL_SCRIPT
  {
    var s := DEFAULT_STEPS;
    assert Flatten(s[6..]) == [];
    assert s[5..][1..] == s[6..] && Flatten(s[5..]) == Script(Restart) + Flatten(s[6..]);
    assert s[4..][1..] == s[5..] && Flatten(s[4..]) == Script(Migrate) + Flatten(s[5..]);
    assert s[3..][1..] == s[4..] && Flatten(s[3..]) == Script(Build) + Flatten(s[4..]);
    assert s[2..][1..] == s[3..] && Flatten(s[2..]) == Script(Pull) + Flatten(s[3..]);
    assert s[1..][1..] == s[2..] && Flatten(s[1..]) == Script(Backup) + Flatten(s[2..]);
    assert s[0..] == s && Flatten(s) == Script(Preflight) + Flatten(s[1..]);
  }

  /** Command c was issued between positions lo and hi, and its reply passed the check. */
  ghost predicate IssuedWell(trace: seq<Issued>, lo: int, hi: int, c: Command, check: Check) {
    exists j :: 0 <= j < |trace| && lo <= j < hi && trace[j].command == c && Passes(check, trace[j].reply)
  }

  /** A pull that exited with zero, after which HEAD was read again as the expected ref. */
  ghost predicate PulledAndReread(trace: seq<Issued>, hi: int) {
    exists p :: 0 <= p < |trace| && p < hi && trace[p].command == GitPull && Passes(ExitZero, trace[p].reply)
                && IssuedWell(trace, p + 1, hi, GitSymbolicRef, OnExpectedRef)
  }

  /** Whatever the commands return, in terms of the script: the schema is upgraded only after a dump, a pull
      whose HEAD was read again, and a build, all passed and in this order; the containers are replaced only after a
      successful upgrade; nothing is issued after a reply that failed its check; and the update
      succeeds only with all twelve commands passed. */
  lemma CommandsComeInOrder(env: Env)
    ensures var (trace, ok) := PlaySteps(env, [], DEFAULT_STEPS);
            && (forall i | 0 <= i < |trace| && trace[i].command == ComposeAlembicUpgrade ::
                  && IssuedWell(trace, 0, i, PgDump, ExitZero)
                  && PulledAndReread(trace, i)
                  && IssuedWell(trace, 0, i, ComposeBuild, ExitZero))
            && (forall i | 0 <= i < |trace| && trace[i].command == ComposeUp ::
                  IssuedWell(trace, 0, i, ComposeAlembicUpgrade, ExitZero))
            && Follows(trace, FULL_SCRIPT)
            && (ok ==> Passed(trace, FULL_SCRIPT))
  {
    PlayStepsFollows(env, [], [], DEFAULT_STEPS);
    FlattenIsFullScript();
    assert [] + FULL_SCRIPT == FULL_SCRIPT;
    var (trace, ok) := PlaySteps(env, [], DEFAULT_STEPS);
    UpgradeComesLast(trace);
  }

  lemma UpgradeComesLast(trace: seq<Issued>)
    requires Follows(trace, FULL_SCRIPT)
    ensures forall i | 0 <= i < |trace| && trace[i].command == ComposeAlembicUpgrade ::
              && IssuedWell(trace, 0, i, PgDump, ExitZero)
              && PulledAndReread(trace, i)
              && IssuedWell(trace, 0, i, ComposeBuild, ExitZero)
    ensures forall i | 0 <= i < |trace| && trace[i].command == ComposeUp ::
              IssuedWell(trace, 0, i, ComposeAlembicUpgrade, ExitZero)
  {
    hide Passes;
    forall i | 0 <= i < |trace| && trace[i].command == ComposeAlembicUpgrade
      ensures IssuedWell(trace, 0, i, PgDump, ExitZero) && PulledAndReread(trace, i)
              && IssuedWell(trace, 0, i, ComposeBuild, ExitZero)
    {
      assert FULL_SCRIPT[i].command == ComposeAlembicUpgrade;
      assert i == 10;
      assert Passes(FULL_SCRIPT[3].check, trace[3].reply);
      assert Passes(FULL_SCRIPT[5].check, trace[5].reply);
      assert Passes(FULL_SCRIPT[6].check, trace[6].reply);
      assert Passes(FULL_SCRIPT[9].check, trace[9].reply);
    }
    forall i | 0 <= i < |trace| && trace[i].command == ComposeUp
      ensures IssuedWell(trace, 0, i, ComposeAlembicUpgrade, ExitZero)
    {
      assert FULL_SCRIPT[i].command == ComposeUp;
      assert i == 11;
      assert Passes(FULL_SCRIPT[10].check, trace[10].reply);
    }
  }

  // ---- The same in terms of exit codes and output ----

  /** The twelve commands in order. */
  const COMMANDS: seq<Command> := [
    GitStatus, GitSymbolicRef, DockerInspect, PgDump, GitRevParse, GitPull, GitSymbolicRef, GitRevParse, GitRevList,
    ComposeBuild, ComposeAlembicUpgrade, ComposeUp]

  /** A reply that lets the update go on: the command completed, with exit code 0 unless it only counts the
      commits, and what it printed is what is wanted. */
  ghost predicate Good(x: Issued) {
    && x.reply.Completed?
    && (x.command != GitRevList ==> x.reply.code == 0)
    && (x.command == GitStatus ==> Text.Strip(x.reply.stdout) == "")
    && (x.command == GitSymbolicRef ==> Text.Strip(x.reply.stdout) == "refs/heads/main")
    && (x.command == DockerInspect ==> Text.Strip(x.reply.stdout) == "true")
  }

  /** Every reply is what the outside gave to that command after the commands before it. */
  ghost predicate Answered(env: Env, trace: seq<Issued>) {
    forall i | 0 <= i < |trace| :: trace[i].reply == env.answer(trace[..i], trace[i].command)
  }

  lemma {:induction false} PlayAnswers(env: Env, trace: seq<Issued>, script: seq<Line>)
    requires Answered(env, trace)
    ensures Answered(env, Play(env, trace, script).0)
    decreases |script|
  {
    if script != [] {
      var reply := env.answer(trace, script[0].command);
      var trace' := trace + [Issued(script[0].command, reply)];
      assert forall i | 0 <= i < |trace| :: trace'[..i] == trace[..i] && trace'[i] == trace[i];
      assert trace'[..|trace|] == trace;
      PlayAnswers(env, trace', script[1..]);
    }
  }

  lemma {:induction false} PlayStepsAnswer(env: Env, trace: seq<Issued>, steps: seq<StepKind>)
    requires Answered(env, trace)
    ensures Answered(env, PlaySteps(env, trace, steps).0)
    decreases |steps|
  {
    if steps != [] {
      hide Script, Answered, Gate, Play;
      PlayAnswers(env, trace, Script(steps[0]));
      var (trace', ok) := PlayStep(env, trace, steps[0]);
      if ok { PlayStepsAnswer(env, trace', steps[1..]); }
    }
  }

  /** A script ends early only at a reply that failed its check. */
  lemma {:induction false} PlayStops(env: Env, trace: seq<Issued>, script: seq<Line>)
    ensures var (trace', ok) := Play(env, trace, script);
            && |trace| <= |trace'| <= |trace| + |script|
            && (ok ==> |trace'| == |trace| + |script|)
            && (!ok ==> |trace'| > |trace|
                        && !Passes(script[|trace'| - |trace| - 1].check, trace'[|trace'| - 1].reply))
    decreases |script|
  {
    if script != [] {
      hide Passes;
      var reply := env.answer(trace, script[0].command);
      PlayStops(env, trace + [Issued(script[0].command, reply)], script[1..]);
    }
  }

  /** An update ends early only at a reply that failed its check, or before a step whose gate is shut. */
  ghost predicate Stopped(env: Env, from: nat, trace': seq<Issued>, steps: seq<StepKind>) {
    || (from < |trace'| <= from + |Flatten(steps)|
        && !Passes(Flatten(steps)[|trace'| - from - 1].check, trace'[|trace'| - 1].reply))
    || (exists k :: 0 <= k < |steps| && !Gate(env, steps[k]) && |trace'| == from + |Flatten(steps[..k])|)
  }

  lemma FlattenPrefix(steps: seq<StepKind>, k: nat)
    requires 0 < k <= |steps|
    ensures Flatten(steps[..k]) == Script(steps[0]) + Flatten(steps[1..][..k - 1])
  {
    assert steps[..k][1..] == steps[1..][..k - 1];
  }

  lemma {:induction false} PlayStepsStop(env: Env, trace: seq<Issued>, steps: seq<StepKind>)
    ensures var (trace', ok) := PlaySteps(env, trace, steps);
            && (ok ==> |trace'| == |trace| + |Flatten(steps)| && forall k | 0 <= k < |steps| :: Gate(env, steps[k]))
            && (!ok ==> Stopped(env, |trace|, trace', steps))
    decreases |steps|
  {
    if steps != [] {
      hide Script, Play, PlayStep, Gate, Passes, Stopped;
      var (mid, passed) := PlayStep(env, trace, steps[0]);
      if !Gate(env, steps[0]) {
        GateShut(env, trace, steps[0]);
        StoppedFirst(env, trace, mid, steps);
      } else {
        GateOpen(env, trace, steps[0]);
        PlayStops(env, trace, Script(steps[0]));
        if !passed {
          StoppedFirst(env, trace, mid, steps);
        } else {
          PlayStepsStop(env, mid, steps[1..]);
          var (trace', ok) := PlaySteps(env, mid, steps[1..]);
          if !ok { StoppedLater(env, |trace|, |mid|, trace', steps); }
        }
      }
    }
  }

  lemma StoppedFirst(env: Env, trace: seq<Issued>, mid: seq<Issued>, steps: seq<StepKind>)
    requires steps != []
    requires var script := Script(steps[0]);
             || (!Gate(env, steps[0]) && |mid| == |trace|)
             || (|trace| < |mid| <= |trace| + |script|
                 && !Passes(script[|mid| - |trace| - 1].check, mid[|mid| - 1].reply))
    ensures Stopped(env, |trace|, mid, steps)
  {
    hide Script, Gate, Passes;
    assert Flatten(steps) == Script(steps[0]) + Flatten(steps[1..]);
    assert steps[..0] == [];
  }

  lemma GateShut(env: Env, trace: seq<Issued>, k: StepKind)
    requires !Gate(env, k)
    ensures PlayStep(env, trace, k) == (trace, false)
  {
  }

  lemma GateOpen(env: Env, trace: seq<Issued>, k: StepKind)
    requires Gate(env, k)
    ensures PlayStep(env, trace, k) == Play(env, trace, Script(k))
  {
  }

  lemma StoppedLater(env: Env, from: nat, mid: nat, trace': seq<Issued>, steps: seq<StepKind>)
    requires steps != [] && mid == from + |Script(steps[0])| && Stopped(env, mid, trace', steps[1..])
    ensures Stopped(env, from, trace', steps)
  {
    hide Script, Gate, Passes;
    assert Flatten(steps) == Script(steps[0]) + Flatten(steps[1..]);
    if k :| 0 <= k < |steps| - 1 && !Gate(env, steps[1..][k]) && |trace'| == mid + |Flatten(steps[1..][..k])| {
      FlattenPrefix(steps, k + 1);
      assert steps[k + 1] == steps[1..][k];
    }
  }

  lemma PassesIsGood(i: nat, reply: Reply)
    requires i < 12
    ensures |FULL_SCRIPT| == |COMMANDS| == 12 && FULL_SCRIPT[i].command == COMMANDS[i]
    ensures Passes(FULL_SCRIPT[i].check, reply) <==> Good(Issued(COMMANDS[i], reply))
  {
  }

  lemma FirstGates(env: Env, k: nat)
    requires k < |DEFAULT_STEPS| && !Gate(env, DEFAULT_STEPS[k])
    ensures (k == 0 && !(env.repoMounted && env.dockerSocket && env.diskFree >= 2147483648))
            || (k == 1 && !env.backupDirUsable)
    ensures |Flatten(DEFAULT_STEPS[..k])| == if k == 0 then 0 else 3
  {
    var s := DEFAULT_STEPS;
    assert s[..0] == [];
    assert s[..1] == [Preflight] && s[..1][1..] == [];
    assert Flatten(s[..1]) == Script(Preflight) + Flatten(s[..1][1..]);
  }

  lemma StepsBehindGates(env: Env, trace: seq<Issued>)
    requires trace == PlaySteps(env, [], DEFAULT_STEPS).0
    ensures |trace| > 0 ==> env.repoMounted && env.dockerSocket && env.diskFree >= 2147483648
    ensures |trace| > 3 ==> env.backupDirUsable
  {
    hide Play;
    var s := DEFAULT_STEPS;
    assert s[0] == Preflight && s[1..][0] == Backup;
    PlayStops(env, [], Script(Preflight));
  }

  lemma FollowsInCommands(trace: seq<Issued>)
    requires Follows(trace, FULL_SCRIPT)
    ensures |trace| <= 12 && forall i | 0 <= i < |trace| :: trace[i].command == COMMANDS[i]
    ensures forall i | 0 <= i < |trace| - 1 :: Good(trace[i])
    ensures Passed(trace, FULL_SCRIPT) ==> |trace| == 12 && Good(trace[11])
    ensures trace != [] ==>
              (Passes(FULL_SCRIPT[|trace| - 1].check, trace[|trace| - 1].reply) <==> Good(trace[|trace| - 1]))
  {
    hide Passes, Good;
    forall i: nat | i < |trace|
      ensures trace[i].command == COMMANDS[i] && (Passes(FULL_SCRIPT[i].check, trace[i].reply) <==> Good(trace[i]))
    {
      PassesIsGood(i, trace[i].reply);
      assert trace[i] == Issued(COMMANDS[i], trace[i].reply);
    }
  }

  lemma StoppedAtGates(env: Env, trace: seq<Issued>)
    requires Stopped(env, 0, trace, DEFAULT_STEPS)
    ensures || (0 < |trace| <= 12 && !Passes(FULL_SCRIPT[|trace| - 1].check, trace[|trace| - 1].reply))
            || (trace == [] && !(env.repoMounted && env.dockerSocket && env.diskFree >= 2147483648))
            || (|trace| == 3 && !env.backupDirUsable)
  {
    hide Passes, Gate, Script, Flatten;
    FlattenIsFullScript();
    if k :| 0 <= k < |DEFAULT_STEPS| && !Gate(env, DEFAULT_STEPS[k]) && |trace| == |Flatten(DEFAULT_STEPS[..k])| {
      FirstGates(env, k);
    }
  }

  /** Exactly what an update issues, whatever the outside answers: the twelve commands in order, each only
      after good replies to all before it. It ends after the last, at a bad reply, before the first command
      if the repository, the Docker socket or 2 GiB of free space are missing, or before the dump if
      the backup directory cannot be used; it succeeds exactly if all twelve replies are good. */
  lemma IssuedExactly(env: Env)
    ensures var (trace, ok) := PlaySteps(env, [], DEFAULT_STEPS);
            && Answered(env, trace)
            && |trace| <= 12 && (forall i | 0 <= i < |trace| :: trace[i].command == COMMANDS[i])
            && (forall i | 0 <= i < |trace| - 1 :: Good(trace[i]))
            && (ok <==> |trace| == 12 && Good(trace[11]))
            && (|trace| < 12 && (trace == [] || Good(trace[|trace| - 1])) ==>
                  || (trace == [] && !(env.repoMounted && env.dockerSocket && env.diskFree >= 2147483648))
                  || (|trace| == 3 && !env.backupDirUsable))
            && (|trace| > 0 ==> env.repoMounted && env.dockerSocket && env.diskFree >= 2147483648)
            && (|trace| > 3 ==> env.backupDirUsable)
  {
    hide Follows, Passed, Passes, Good, Gate, Play, PlayStep, PlaySteps, Script, Flatten, Answered, Stopped;
    var (trace, ok) := PlaySteps(env, [], DEFAULT_STEPS);
    NothingPlayed(env, []);
    PlayStepsAnswer(env, [], DEFAULT_STEPS);
    PlayStepsFollows(env, [], [], DEFAULT_STEPS);
    PlayStepsStop(env, [], DEFAULT_STEPS);
    FlattenIsFullScript();
    assert [] + FULL_SCRIPT == FULL_SCRIPT;
    FollowsInCommands(trace);
    StepsBehindGates(env, trace);
    if !ok { StoppedAtGates(env, trace); }
  }

  /** Whatever the commands return: the schema is upgraded only after a dump that exited with 0, a pull that
      exited with 0 and after which HEAD read refs/heads/main, and a build that exited with 0. */
  lemma UpgradeIsGuarded(env: Env, i: nat)
    requires i < |PlaySteps(env, [], DEFAULT_STEPS).0|
    requires PlaySteps(env, [], DEFAULT_STEPS).0[i].command == ComposeAlembicUpgrade
    ensures var trace := PlaySteps(env, [], DEFAULT_STEPS).0;
            && (exists d: nat :: d < i && trace[d].command == PgDump
                                 && trace[d].reply.Completed? && trace[d].reply.code == 0)
            && (exists p: nat, h: nat :: p < h < i
                  && trace[p].command == GitPull && trace[p].reply.Completed? && trace[p].reply.code == 0
                  && trace[h].command == GitSymbolicRef && trace[h].reply.Completed? && trace[h].reply.code == 0
                  && Text.Strip(trace[h].reply.stdout) == "refs/heads/main")
            && (exists b: nat :: b < i && trace[b].command == ComposeBuild
                                 && trace[b].reply.Completed? && trace[b].reply.code == 0)
  {
    hide PlaySteps, Good;
    IssuedExactly(env);
    var trace := PlaySteps(env, [], DEFAULT_STEPS).0;
    assert i == 10;
    GoodMeans(trace[3]);
    GoodMeans(trace[5]);
    GoodMeans(trace[6]);
    GoodMeans(trace[9]);
    assert trace[3].command == PgDump && trace[9].command == ComposeBuild;
    assert trace[5].command == GitPull && trace[6].command == GitSymbolicRef;
  }

  lemma GoodMeans(x: Issued)
    requires Good(x) && x.command != GitRevList
    ensures x.reply.Completed? && x.reply.code == 0
    ensures x.command == GitSymbolicRef ==> Text.Strip(x.reply.stdout) == "refs/heads/main"
    ensures x.command == GitStatus ==> Text.Strip(x.reply.stdout) == ""
  {
  }

  /** The containers are replaced only after an upgrade that exited with 0. */
  lemma RestartIsGuarded(env: Env, i: nat)
    requires i < |PlaySteps(env, [], DEFAULT_STEPS).0|
    requires PlaySteps(env, [], DEFAULT_STEPS).0[i].command == ComposeUp
    ensures var trace := PlaySteps(env, [], DEFAULT_STEPS).0;
            exists u: nat :: u < i && trace[u].command == ComposeAlembicUpgrade
                             && trace[u].reply.Completed? && trace[u].reply.code == 0
  {
    hide PlaySteps, Good;
    IssuedExactly(env);
    var trace := PlaySteps(env, [], DEFAULT_STEPS).0;
    assert i == 11;
    GoodMeans(trace[10]);
    assert trace[10].command == ComposeAlembicUpgrade;
  }

  /** Nothing follows a git status that failed or printed anything. */
  lemma DirtyTreeEndsTheUpdate(env: Env, i: nat)
    requires i + 1 < |PlaySteps(env, [], DEFAULT_STEPS).0|
    requires PlaySteps(env, [], DEFAULT_STEPS).0[i].command == GitStatus
    ensures var reply := PlaySteps(env, [], DEFAULT_STEPS).0[i].reply;
            reply.Completed? && reply.code == 0 && Text.Strip(reply.stdout) == ""
  {
    hide PlaySteps, Good;
    IssuedExactly(env);
    GoodMeans(PlaySteps(env, [], DEFAULT_STEPS).0[i]);
  }
}
