/** The probe side of the heartbeat (agent/src/main.rs, agent/src/checks.rs): the bounded buffer of
    undelivered results, the main loop around it, and what every run delivers. */
module Heartbeat {
  import opened Options

  const MAX_PENDING_RESULTS := 1000

  /** serial numbers the results of a process in the order in which they were produced. */
  datatype CheckResult = CheckResult(serial: nat, hostId: int, success: bool)

  // ---- The buffer ----

  /** The part of a sequence that a buffer capped at MAX_PENDING_RESULTS keeps. */
  function Newest(s: seq<CheckResult>): (kept: seq<CheckResult>) {
    if |s| <= MAX_PENDING_RESULTS then s else s[|s| - MAX_PENDING_RESULTS..]
  }

  lemma NewestGrows(s: seq<CheckResult>, r: CheckResult)
    ensures Newest(s + [r]) == (if |s| >= MAX_PENDING_RESULTS then Newest(s)[1..] else Newest(s)) + [r]
    ensures |Newest(s)| == if |s| <= MAX_PENDING_RESULTS then |s| else MAX_PENDING_RESULTS
  {
  }

  lemma NewestOfShort(s: seq<CheckResult>)
    requires |s| <= MAX_PENDING_RESULTS
    ensures Newest(s) == s
  {
  }

  lemma NewestIsCapped(s: seq<CheckResult>)
    ensures |Newest(s)| <= MAX_PENDING_RESULTS
  {
  }

  lemma PushOne(s: seq<CheckResult>, results: seq<CheckResult>, i: nat, buf: seq<CheckResult>)
    requires i < |results| && buf == Newest(s + results[..i])
    ensures |buf| <= MAX_PENDING_RESULTS
    ensures (if |buf| >= MAX_PENDING_RESULTS then buf[1..] else buf) + [results[i]] == Newest(s + results[..i + 1])
  {
    hide Newest;
    NewestGrows(s + results[..i], results[i]);
    assert s + results[..i + 1] == s + results[..i] + [results[i]];
  }

  class PendingResults {
    var buf: seq<CheckResult>
    var dropped: nat

    constructor ()
      ensures buf == [] && dropped == 0
    {
      buf, dropped := [], 0;
    }

    method PushRound(results: seq<CheckResult>) returns (droppedNow: nat)
      requires |buf| <= MAX_PENDING_RESULTS
      modifies this
      ensures buf == Newest(old(buf) + results)
      ensures droppedNow == |old(buf) + results| - |buf|
      ensures dropped == old(dropped) + droppedNow
      ensures |buf| <= MAX_PENDING_RESULTS
    {
      hide Newest;
      droppedNow := 0;
      NewestOfShort(buf);
      assert buf + results[..0] == buf;
      for i := 0 to |results|
        invariant buf == Newest(old(buf) + results[..i])
        invariant droppedNow == |old(buf)| + i - |buf|
        invariant dropped == old(dropped)
      {
        PushOne(old(buf), results, i, buf);
        if |buf| >= MAX_PENDING_RESULTS {
          buf := buf[1..];
          droppedNow := droppedNow + 1;
        }
        buf := buf + [results[i]];
      }
      assert results[..|results|] == results;
      NewestIsCapped(old(buf) + results);
      if droppedNow > 0 {
        dropped := dropped + droppedNow;
      }
    }

    method Clear()
      modifies this
      ensures buf == [] && dropped == old(dropped)
    {
      buf := [];
    }
  }

  // ---- The main loop ----

  /** What becomes of a report. Lost: the server did not take it. ReplyLost: the server took it but
      the agent saw an error. Answered: the agent read the reply. */
  datatype Net = Lost | ReplyLost | Answered(uninstall: bool, checks: Option<seq<int>>)

  /** One turn of the loop: its metrics may fail; otherwise it reports, looks for an update, and runs a
      round of checks whose verdicts are given; a missing verdict is a check task that was lost. */
  datatype Turn = NoMetrics | Beat(net: Net, updateApplied: bool, clientBuilds: bool, verdicts: seq<bool>)

  datatype Agent = Agent(running: bool, assignments: seq<int>, haveClient: bool, nextSerial: nat,
                         pending: seq<CheckResult>, dropped: nat)

  function Round(assignments: seq<int>, serial: nat, verdicts: seq<bool>): (results: seq<CheckResult>)
    ensures |results| == |assignments|
  {
    seq(|assignments|, i requires 0 <= i < |assignments| =>
      CheckResult(serial + i, assignments[i], i < |verdicts| && verdicts[i]))
  }

  function Report(a: Agent, net: Net): Agent {
    if !net.Answered? then a
    else if net.uninstall then a.(pending := [], running := false)
    else a.(pending := [], assignments := if net.checks.Some? then net.checks.value else [])
  }

  function RoundOf(a: Agent, t: Turn): seq<CheckResult>
    requires t.Beat?
  {
    if !a.running || a.assignments == [] || !(a.haveClient || t.clientBuilds) then []
    else Round(a.assignments, a.nextSerial, t.verdicts)
  }

  function RunRound(a: Agent, t: Turn): Agent
    requires t.Beat?
  {
    var results := RoundOf(a, t);
    var buffered := a.pending + results;
    a.(haveClient := a.haveClient || (a.running && a.assignments != [] && t.clientBuilds),
       nextSerial := a.nextSerial + |results|,
       pending := if results == [] then a.pending else Newest(buffered),
       dropped := a.dropped + if results == [] then 0 else |buffered| - |Newest(buffered)|)
  }

  function Update(a: Agent, applied: bool): Agent {
    if a.running && applied then a.(running := false) else a
  }

  function Step(a: Agent, t: Turn): Agent {
    if !a.running || t.NoMetrics? then a
    else RunRound(Update(Report(a, t.net), t.updateApplied), t)
  }

  class ProbeLoop {
    var running: bool
    var assignments: seq<int>
    var haveClient: bool
    var nextSerial: nat
    const pending: PendingResults

    constructor ()
      ensures View() == Agent(true, [], false, 0, [], 0)
      ensures fresh(pending)
    {
      running, assignments, haveClient, nextSerial := true, [], false, 0;
      pending := new PendingResults();
    }

    function View(): Agent
      reads this, pending
    {
      Agent(running, assignments, haveClient, nextSerial, pending.buf, pending.dropped)
    }

    /** One turn; sent is what the report carried. */
    method TakeTurn(t: Turn) returns (sent: Option<seq<CheckResult>>)
      requires |pending.buf| <= MAX_PENDING_RESULTS
      modifies this, pending
      ensures View() == Step(old(View()), t)
      ensures sent == if old(running) && t.Beat? then Some(old(pending.buf)) else None
      ensures |pending.buf| <= MAX_PENDING_RESULTS
    {
      hide Newest, Round;
      sent := None;
      if !running || t.NoMetrics? {
        return;
      }
      sent := Some(pending.buf);
      match t.net {
        case Answered(uninstall, checks) =>
          pending.Clear();
          if uninstall {
            running := false;
            return;
          }
          assignments := if checks.Some? then checks.value else [];
        case _ =>
      }
      if t.updateApplied {
        running := false;
        return;
      }
      if assignments == [] {
        return;
      }
      if !haveClient {
        if !t.clientBuilds {
          return;
        }
        haveClient := true;
      }
      var results := Round(assignments, nextSerial, t.verdicts);
      nextSerial := nextSerial + |results|;
      var _ := pending.PushRound(results);
    }
  }

  // ---- Runs ----

  /** A report the server took. */
  datatype Batch = Batch(results: seq<CheckResult>, answered: bool)

  /** The agent with the whole history of its results: the ones produced, the serials discarded by the
      buffer, the serials cleared from it, and the batches the server took. */
  datatype World = World(agent: Agent, produced: seq<CheckResult>, discarded: set<nat>, cleared: set<nat>,
                         received: seq<Batch>)

  ghost function Serials(s: seq<CheckResult>): set<nat> {
    set r | r in s :: r.serial
  }

  /** The first half of a turn: the report, and the update that may follow it. What leaves the buffer
      here is cleared. */
  ghost function Reported(w: World, t: Turn): World
    requires t.Beat?
  {
    var agent := Update(Report(w.agent, t.net), t.updateApplied);
    w.(agent := agent,
       cleared := w.cleared + (Serials(w.agent.pending) - Serials(agent.pending)),
       received := if t.net.Lost? then w.received else w.received + [Batch(w.agent.pending, t.net.Answered?)])
  }

  /** The second half: the round of checks. What leaves the buffer here is discarded. */
  ghost function Checked(w: World, t: Turn): World
    requires t.Beat?
  {
    var results := RoundOf(w.agent, t);
    var agent := RunRound(w.agent, t);
    w.(agent := agent,
       produced := w.produced + results,
       discarded := w.discarded + (Serials(w.agent.pending + results) - Serials(agent.pending)))
  }

  ghost function Advance(w: World, t: Turn): (w': World)
    ensures w'.agent == Step(w.agent, t)
  {
    if !w.agent.running || t.NoMetrics? then w else Checked(Reported(w, t), t)
  }

  ghost function Run(turns: seq<Turn>): World {
    if turns == [] then World(Agent(true, [], false, 0, [], 0), [], {}, {}, [])
    else Advance(Run(turns[..|turns| - 1]), turns[|turns| - 1])
  }

  /** The buffer is the newest part of what was produced. */
  ghost predicate PendingIsSuffix(w: World) {
    && |w.agent.pending| <= |w.produced|
    && w.agent.pending == w.produced[|w.produced| - |w.agent.pending|..]
    && |w.agent.pending| <= 1000
  }

  ghost predicate Numbered(w: World) {
    && w.agent.nextSerial == |w.produced|
    && forall i | 0 <= i < |w.produced| :: w.produced[i].serial == i
  }

  /** Each result has exactly one fate. */
  ghost predicate Partitioned(w: World) {
    var first := |w.produced| - |w.agent.pending|;
    && w.discarded !! w.cleared
    && forall k: nat :: k in w.discarded + w.cleared <==> k < first
  }

  ghost predicate OnlyCapDiscards(w: World) {
    && |w.discarded| == w.agent.dropped
    && forall k | k in w.discarded :: k + 1000 < |w.produced|
  }

  /** Where a batch that is not empty starts and ends in what was produced. */
  ghost function Start(b: Batch): nat
    requires b.results != []
  {
    b.results[0].serial
  }

  ghost function End(b: Batch): nat
    requires b.results != []
  {
    Start(b) + |b.results|
  }

  ghost predicate Contiguous(produced: seq<CheckResult>, b: Batch)
    requires b.results != []
  {
    End(b) <= |produced| && b.results == produced[Start(b)..End(b)]
  }

  /** Every batch is a contiguous piece of what was produced; batches never step back, and nothing that
      was in an answered batch is ever sent again. */
  ghost predicate InOrder(w: World) {
    && (forall b | b in w.received && b.results != [] :: Contiguous(w.produced, b))
    && (forall i, j | 0 <= i < j < |w.received| && w.received[i].results != [] && w.received[j].results != [] ::
          && Start(w.received[i]) <= Start(w.received[j])
          && End(w.received[i]) <= End(w.received[j])
          && (w.received[i].answered ==> End(w.received[i]) <= Start(w.received[j])))
  }

  /** What was cleared was in a request the server answered. */
  ghost predicate ClearedWasAnswered(w: World) {
    forall k | k in w.cleared ::
      k < |w.produced| && exists b :: b in w.received && b.answered && w.produced[k] in b.results
  }

  /** No batch reaches past the point from which results are still pending. */
  ghost predicate BatchesAreBehind(w: World) {
    var first := |w.produced| - |w.agent.pending|;
    forall b | b in w.received && b.results != [] ::
      Start(b) <= first && (b.answered ==> End(b) <= first)
  }

  ghost predicate Delivered(w: World) {
    && PendingIsSuffix(w) && Numbered(w) && Partitioned(w) && OnlyCapDiscards(w)
    && InOrder(w) && ClearedWasAnswered(w) && BatchesAreBehind(w)
  }

  // ---- The proof ----

  ghost function First(w: World): int {
    |w.produced| - |w.agent.pending|
  }

  lemma SerialsOfSuffix(produced: seq<CheckResult>, lo: nat)
    requires lo <= |produced|
    requires forall i | 0 <= i < |produced| :: produced[i].serial == i
    ensures forall k: nat :: k in Serials(produced[lo..]) <==> lo <= k < |produced|
  {
    forall k: nat | lo <= k < |produced| ensures k in Serials(produced[lo..]) {
      assert produced[lo..][k - lo] == produced[k];
    }
  }

  lemma {:induction false} RangeSize(s: set<nat>, lo: nat, hi: nat)
    requires lo <= hi
    requires forall k: nat :: k in s <==> lo <= k < hi
    ensures |s| == hi - lo
    decreases hi - lo
  {
    if lo == hi {
      assert s == {};
    } else {
      RangeSize(s - {lo}, lo + 1, hi);
      assert |s - {lo}| == |s| - 1;
    }
  }

  /** What the first half of a turn does to the history. */
  ghost predicate ReportStep(w: World, w': World, net: Net) {
    && w'.produced == w.produced && w'.discarded == w.discarded
    && w'.agent.nextSerial == w.agent.nextSerial && w'.agent.dropped == w.agent.dropped
    && w'.agent.pending == (if net.Answered? then [] else w.agent.pending)
    && w'.cleared == (if net.Answered? then w.cleared + Serials(w.agent.pending) else w.cleared)
    && w'.received == (if net.Lost? then w.received else w.received + [Batch(w.agent.pending, net.Answered?)])
  }

  lemma ReportedIsReportStep(w: World, t: Turn)
    requires t.Beat?
    ensures ReportStep(w, Reported(w, t), t.net)
  {
    assert Serials([]) == {};
  }

  lemma ReportStepKeepsFates(w: World, w': World, net: Net)
    requires ReportStep(w, w', net)
    requires PendingIsSuffix(w) && Numbered(w) && Partitioned(w) && OnlyCapDiscards(w)
    ensures PendingIsSuffix(w') && Numbered(w') && Partitioned(w') && OnlyCapDiscards(w')
  {
    hide Serials;
    SerialsOfSuffix(w.produced, First(w));
    if net.Answered? {
      var s := Serials(w.agent.pending);
      forall k: nat ensures k in w'.discarded + w'.cleared <==> k < |w'.produced| {
        assert k in s <==> First(w) <= k < |w.produced|;
        assert k in w.discarded + w.cleared <==> k < First(w);
      }
      forall k: nat | k in w'.discarded ensures k !in w'.cleared {
        assert k in w.discarded + w.cleared;
        assert k !in s;
      }
    }
  }

  lemma ReportStepKeepsOrder(w: World, w': World, net: Net)
    requires ReportStep(w, w', net)
    requires PendingIsSuffix(w) && Numbered(w) && InOrder(w) && BatchesAreBehind(w)
    ensures InOrder(w') && BatchesAreBehind(w')
  {
    hide Serials, Contiguous, Start, End;
    if !net.Lost? {
      var b := Batch(w.agent.pending, net.Answered?);
      if b.results != [] { PendingBatch(w, b); }
      AppendedBatchIsInOrder(w, w', b);
      AppendedBatchIsBehind(w, w', b);
    }
  }

  lemma AppendedBatchIsInOrder(w: World, w': World, b: Batch)
    requires w'.produced == w.produced && w'.received == w.received + [b]
    requires InOrder(w) && BatchesAreBehind(w)
    requires b.results != [] ==> Start(b) == First(w) && End(b) == |w.produced| && Contiguous(w.produced, b)
    ensures InOrder(w')
  {
    hide Start, End, Contiguous;
    var n := |w.received|;
    forall c | c in w'.received && c.results != [] ensures Contiguous(w'.produced, c) {
      assert c in w.received || c == b;
    }
    forall i, j | 0 <= i < j < n + 1 && w'.received[i].results != [] && w'.received[j].results != []
      ensures Start(w'.received[i]) <= Start(w'.received[j]) && End(w'.received[i]) <= End(w'.received[j])
      ensures w'.received[i].answered ==> End(w'.received[i]) <= Start(w'.received[j])
    {
      var c := w.received[i];
      assert w'.received[i] == c && c in w.received;
      if j == n {
        ContiguousEnds(w.produced, c);
      } else {
        assert w'.received[j] == w.received[j];
      }
    }
  }

  lemma AppendedBatchIsBehind(w: World, w': World, b: Batch)
    requires w'.produced == w.produced && w'.received == w.received + [b]
    requires w'.agent.pending == if b.answered then [] else w.agent.pending
    requires |w.agent.pending| <= |w.produced| && BatchesAreBehind(w)
    requires b.results != [] ==> Start(b) == First(w) && End(b) == |w.produced|
    ensures BatchesAreBehind(w')
  {
    hide Start, End;
    forall c | c in w'.received && c.results != []
      ensures Start(c) <= First(w') && (c.answered ==> End(c) <= First(w'))
    {
      assert c in w.received || c == b;
    }
  }

  lemma ContiguousEnds(produced: seq<CheckResult>, b: Batch)
    requires b.results != [] && Contiguous(produced, b)
    ensures End(b) <= |produced|
  {
  }

  lemma PendingBatch(w: World, b: Batch)
    requires PendingIsSuffix(w) && Numbered(w)
    requires b.results == w.agent.pending && b.results != []
    ensures Start(b) == First(w) && End(b) == |w.produced| && Contiguous(w.produced, b)
  {
    assert b.results[0] == w.produced[First(w)];
  }

  lemma ReportStepKeepsCleared(w: World, w': World, net: Net)
    requires ReportStep(w, w', net)
    requires PendingIsSuffix(w) && Numbered(w) && ClearedWasAnswered(w)
    ensures ClearedWasAnswered(w')
  {
    hide Serials;
    SerialsOfSuffix(w.produced, First(w));
    forall k | k in w'.cleared
      ensures k < |w'.produced| && exists b :: b in w'.received && b.answered && w'.produced[k] in b.results
    {
      if k in w.cleared {
        var b :| b in w.received && b.answered && w.produced[k] in b.results;
        assert b in w'.received;
      } else {
        var b := Batch(w.agent.pending, true);
        assert b in w'.received;
        assert w.agent.pending[k - First(w)] == w.produced[k];
      }
    }
  }

  /** What the second half of a turn does to the history. */
  ghost predicate CheckStep(w: World, w': World) {
    && |w.produced| <= |w'.produced| && w'.produced[..|w.produced|] == w.produced
    && w'.agent.pending == Newest(w.agent.pending + w'.produced[|w.produced|..])
    && w'.discarded == w.discarded
                       + (Serials(w.agent.pending + w'.produced[|w.produced|..]) - Serials(w'.agent.pending))
    && w'.agent.dropped + |w'.agent.pending| == w.agent.dropped + |w.agent.pending| + |w'.produced| - |w.produced|
    && w'.agent.nextSerial == w.agent.nextSerial + |w'.produced| - |w.produced|
    && (forall i | |w.produced| <= i < |w'.produced| ::
          w'.produced[i].serial == w.agent.nextSerial + i - |w.produced|)
    && w'.cleared == w.cleared && w'.received == w.received
  }

  lemma CheckedIsCheckStep(w: World, t: Turn)
    requires t.Beat? && |w.agent.pending| <= MAX_PENDING_RESULTS
    ensures CheckStep(w, Checked(w, t))
  {
    var results := RoundOf(w.agent, t);
    var w' := Checked(w, t);
    assert w'.produced[|w.produced|..] == results;
    assert w.agent.pending + [] == w.agent.pending;
    assert forall i | 0 <= i < |results| :: results[i].serial == w.agent.nextSerial + i;
  }

  lemma CheckStepKeepsSuffix(w: World, w': World)
    requires CheckStep(w, w')
    requires PendingIsSuffix(w) && Numbered(w)
    ensures PendingIsSuffix(w') && Numbered(w')
    ensures w.agent.pending + w'.produced[|w.produced|..] == w'.produced[First(w)..]
    ensures First(w) <= First(w')
    ensures First(w) < First(w') ==> |w'.agent.pending| == MAX_PENDING_RESULTS
  {
    hide Serials;
    assert w'.produced == w.produced + w'.produced[|w.produced|..];
    assert w.agent.pending + w'.produced[|w.produced|..] == w'.produced[First(w)..];
    assert forall i | 0 <= i < |w.produced| :: w'.produced[i] == w.produced[i];
  }

  lemma CheckStepKeepsFates(w: World, w': World)
    requires CheckStep(w, w')
    requires PendingIsSuffix(w) && Numbered(w) && Partitioned(w) && OnlyCapDiscards(w)
    ensures Partitioned(w') && OnlyCapDiscards(w')
  {
    hide Serials, Newest;
    CheckStepKeepsSuffix(w, w');
    SerialsOfSuffix(w'.produced, First(w));
    SerialsOfSuffix(w'.produced, First(w'));
    var gone := Serials(w'.produced[First(w)..]) - Serials(w'.agent.pending);
    DiscardMore(w.discarded, w.cleared, gone, First(w), First(w'));
  }

  lemma DiscardMore(discarded: set<nat>, cleared: set<nat>, gone: set<nat>, lo: nat, hi: nat)
    requires lo <= hi
    requires discarded !! cleared
    requires forall k: nat :: k in discarded + cleared <==> k < lo
    requires forall k: nat :: k in gone <==> lo <= k < hi
    ensures (discarded + gone) !! cleared
    ensures forall k: nat :: k in discarded + gone + cleared <==> k < hi
    ensures |discarded + gone| == |discarded| + hi - lo
  {
    RangeSize(gone, lo, hi);
    forall k: nat | k in gone ensures k !in discarded + cleared {
    }
    assert discarded !! gone;
  }

  lemma CheckStepKeepsOrder(w: World, w': World)
    requires CheckStep(w, w')
    requires PendingIsSuffix(w) && Numbered(w)
    requires InOrder(w) && ClearedWasAnswered(w) && BatchesAreBehind(w)
    ensures InOrder(w') && ClearedWasAnswered(w') && BatchesAreBehind(w')
  {
    hide Serials, Newest;
    CheckStepKeepsSuffix(w, w');
    assert forall i | 0 <= i < |w.produced| :: w'.produced[i] == w.produced[i];
    forall b | b in w.received && b.results != [] ensures Contiguous(w'.produced, b) {
      assert w'.produced[Start(b)..End(b)] == w.produced[Start(b)..End(b)];
    }
  }

  /** Over every run of one agent process and every fate of its reports: each result ever produced is
      pending, discarded or cleared, and only one of them; the pending ones are the newest, at most
      1000; dropped_total counts the discarded ones, each of which had at least 1000 newer results;
      what was cleared was in a request the server answered; and the server receives contiguous
      batches that never step back and never repeat answered results. */
  lemma {:induction false} EveryRunDelivers(turns: seq<Turn>)
    ensures Delivered(Run(turns))
  {
    hide Checked, Reported, ReportStep, CheckStep, PendingIsSuffix, Numbered, Partitioned, OnlyCapDiscards, InOrder,
      ClearedWasAnswered, BatchesAreBehind;
    if turns == [] {
      EmptyRunDelivers();
    } else {
      var n := |turns| - 1;
      EveryRunDelivers(turns[..n]);
      var w := Run(turns[..n]);
      if w.agent.running && turns[n].Beat? {
        AdvanceDelivers(w, turns[n]);
      }
    }
  }

  lemma AdvanceDelivers(w: World, t: Turn)
    requires Delivered(w) && t.Beat?
    ensures Delivered(Checked(Reported(w, t), t))
  {
    hide Checked, Reported, ReportStep, CheckStep, Numbered, Partitioned, OnlyCapDiscards, InOrder,
      ClearedWasAnswered, BatchesAreBehind;
    var m := Reported(w, t);
    ReportedIsReportStep(w, t);
    ReportStepKeepsFates(w, m, t.net);
    ReportStepKeepsOrder(w, m, t.net);
    ReportStepKeepsCleared(w, m, t.net);
    CheckedIsCheckStep(m, t);
    CheckStepKeepsSuffix(m, Checked(m, t));
    CheckStepKeepsFates(m, Checked(m, t));
    CheckStepKeepsOrder(m, Checked(m, t));
  }

  lemma EmptyRunDelivers()
    ensures Delivered(Run([]))
  {
  }

  // ---- What a turn does ----

  /** Running check i of the round fails or succeeds by its verdict, and fails if its task was lost. */
  ghost predicate IsRound(results: seq<CheckResult>, assignments: seq<int>, serial: nat, verdicts: seq<bool>) {
    && |results| == |assignments|
    && forall i | 0 <= i < |results| ::
         && results[i].serial == serial + i && results[i].hostId == assignments[i]
         && (results[i].success <==> i < |verdicts| && verdicts[i])
  }

  lemma TurnSplits(turns: seq<Turn>, t: Turn)
    requires Run(turns).agent.running && t.Beat?
    ensures Run(turns + [t]) == Checked(Reported(Run(turns), t), t)
  {
    hide Checked, Reported;
    assert (turns + [t])[..|turns|] == turns;
  }

  lemma ReportExactly(w: World, t: Turn)
    requires w.agent.running && t.Beat?
    ensures var a, m := w.agent, Reported(w, t);
            && (m.agent.running <==> !t.updateApplied && !(t.net.Answered? && t.net.uninstall))
            && m.agent.assignments == (if t.net.Answered? && !t.net.uninstall then
                                         if t.net.checks.Some? then t.net.checks.value else []
                                       else a.assignments)
            && m.agent.haveClient == a.haveClient && m.agent.nextSerial == a.nextSerial && m.produced == w.produced
            && m.agent.pending == (if t.net.Answered? then [] else a.pending)
            && m.received == w.received + if t.net.Lost? then [] else [Batch(a.pending, t.net.Answered?)]
  {
    hide Serials;
  }

  lemma ChecksExactly(m: World, t: Turn)
    requires t.Beat? && |m.agent.pending| <= 1000
    ensures var a, w' := m.agent, Checked(m, t);
            var a' := w'.agent;
            && a'.running == a.running && a'.assignments == a.assignments && w'.received == m.received
            && (a'.haveClient <==> a.haveClient || (a.running && a.assignments != [] && t.clientBuilds))
            && |m.produced| <= |w'.produced| && w'.produced[..|m.produced|] == m.produced
            && IsRound(w'.produced[|m.produced|..], if a.running && a'.haveClient then a.assignments else [],
                       a.nextSerial, t.verdicts)
            && |a'.pending| ==
                 (var all := |a.pending| + |w'.produced| - |m.produced|; if all <= 1000 then all else 1000)
  {
    hide Serials;
    var results := RoundOf(m.agent, t);
    assert (m.produced + results)[|m.produced|..] == results;
    assert IsRound(results, if m.agent.running && Checked(m, t).agent.haveClient then m.agent.assignments else [],
                   m.agent.nextSerial, t.verdicts);
  }

  /** A turn of an agent that runs. It stops at an answer that uninstalls it or at an applied update. An
      answer that does not replaces the assignments, by nothing if it names none. If the agent goes on,
      has assignments, and has a client or builds one now, it produces one result for each assignment.
      An answered buffer is emptied before them, and of the rest the newest 1000 are kept. */
  lemma TurnExactly(turns: seq<Turn>, t: Turn)
    requires Run(turns).agent.running && t.Beat?
    ensures var w, w' := Run(turns), Run(turns + [t]);
            var a, a' := w.agent, w'.agent;
            var sent := if t.net.Answered? then 0 else |a.pending|;
            && (a'.running <==> !t.updateApplied && !(t.net.Answered? && t.net.uninstall))
            && a'.assignments == (if t.net.Answered? && !t.net.uninstall then
                                    if t.net.checks.Some? then t.net.checks.value else []
                                  else a.assignments)
            && (a'.haveClient <==> a.haveClient || (a'.running && a'.assignments != [] && t.clientBuilds))
            && |w.produced| <= |w'.produced| && w'.produced[..|w.produced|] == w.produced
            && IsRound(w'.produced[|w.produced|..], if a'.running && a'.haveClient then a'.assignments else [],
                       |w.produced|, t.verdicts)
            && |a'.pending| == (var all := sent + |w'.produced| - |w.produced|; if all <= 1000 then all else 1000)
            && w'.received == w.received + if t.net.Lost? then [] else [Batch(a.pending, t.net.Answered?)]
  {
    hide Run, Checked, Reported, IsRound, Partitioned, OnlyCapDiscards, InOrder, ClearedWasAnswered, BatchesAreBehind;
    EveryRunDelivers(turns);
    TurnSplits(turns, t);
    ReportExactly(Run(turns), t);
    ChecksExactly(Reported(Run(turns), t), t);
  }

  lemma StandstillExactly(turns: seq<Turn>, t: Turn)
    requires !Run(turns).agent.running || t.NoMetrics?
    ensures Run(turns + [t]) == Run(turns)
  {
    assert (turns + [t])[..|turns|] == turns;
  }

  /** The agent runs exactly until a turn applies an update or reads an answer that uninstalls it. */
  lemma {:induction false} RunsExactly(turns: seq<Turn>)
    ensures Run(turns).agent.running <==>
              forall t | t in turns && t.Beat? :: !t.updateApplied && !(t.net.Answered? && t.net.uninstall)
  {
    if turns != [] {
      hide Run;
      var n := |turns| - 1;
      var before, last := turns[..n], turns[n];
      assert turns == before + [last];
      RunsExactly(before);
      if Run(before).agent.running && last.Beat? {
        TurnExactly(before, last);
      } else {
        StandstillExactly(before, last);
      }
    } else {
      assert Run(turns).agent.running;
    }
  }

  /** What a running agent checks are the assignments of the last answer it read, and nothing before. */
  lemma {:induction false} AssignmentsExactly(turns: seq<Turn>, k: int)
    requires Run(turns).agent.running && -1 <= k < |turns|
    requires k >= 0 ==> turns[k].Beat? && turns[k].net.Answered?
    requires forall i | k < i < |turns| :: !(turns[i].Beat? && turns[i].net.Answered?)
    ensures Run(turns).agent.assignments
         == if k >= 0 && turns[k].net.checks.Some? then turns[k].net.checks.value else []
  {
    RunsExactly(turns);
    if turns != [] {
      hide Run, IsRound;
      var n := |turns| - 1;
      var before, last := turns[..n], turns[n];
      assert turns == before + [last] && last in turns;
      RunsExactly(before);
      assert forall t | t in before :: t in turns;
      if last.Beat? { TurnExactly(before, last); } else { StandstillExactly(before, last); }
      if k < n {
        AssignmentsExactly(before, k);
      }
    }
  }
}
