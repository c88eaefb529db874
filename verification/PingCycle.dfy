/** One cycle of the core's ping job (backend/scheduler.py, run_ping_checks): the latch on
    port_error and the grace-period notices, for all hosts, and what every run of cycles keeps. */
module PingCycle {
  import opened Options

  const PORT_ERROR_SET_THRESHOLD := 3
  const PORT_ERROR_CLEAR_THRESHOLD := 2

  /** The result of one host check. serviceChecked: some check other than ICMP ran. */
  datatype Outcome = Outcome(hostId: int, online: bool, portError: bool, serviceChecked: bool)

  /** Everything the job keeps about one host. latched is the port_error column, None when the
      host has no row any more. */
  datatype HostState = HostState(fails: nat, passes: nat, latched: Option<bool>, since: Option<real>, notified: bool)

  // ---- What one cycle does to one host ----

  function CountService(h: HostState, o: Outcome): HostState {
    if h.latched.None? || !o.online || !o.serviceChecked then h
    else if o.portError then h.(passes := 0, fails := h.fails + 1)
    else h.(fails := 0, passes := h.passes + 1)
  }

  function Latch(h: HostState): HostState {
    if h.latched == Some(false) && h.fails >= PORT_ERROR_SET_THRESHOLD then h.(latched := Some(true))
    else if h.latched == Some(true) && h.passes >= PORT_ERROR_CLEAR_THRESHOLD then h.(latched := Some(false))
    else h
  }

  function TrackOnline(h: HostState, online: bool, now: real): HostState {
    if online then h.(since := None, notified := false)
    else if h.since.None? then h.(since := Some(now))
    else h
  }

  function FirstPass(h: HostState, o: Outcome, now: real): HostState {
    TrackOnline(Latch(CountService(h, o)), o.online, now)
  }

  predicate RaisesOffline(h: HostState, o: Outcome, now: real, graceMinutes: nat) {
    && !o.online && h.since.Some? && !h.notified
    && (now - h.since.value) / 60.0 >= graceMinutes as real
  }

  predicate RaisesOnline(h: HostState, o: Outcome, prevSuccess: Option<bool>) {
    o.online && h.notified && prevSuccess == Some(false)
  }

  function SecondPass(h: HostState, o: Outcome, now: real, graceMinutes: nat): HostState {
    if RaisesOffline(h, o, now, graceMinutes) then h.(notified := true) else h
  }

  function Step(h: HostState, o: Outcome, now: real, graceMinutes: nat): HostState {
    SecondPass(FirstPass(h, o, now), o, now, graceMinutes)
  }

  // ---- The job ----

  function Get<V>(m: map<int, V>, id: int): Option<V> {
    if id in m then Some(m[id]) else None
  }

  function GetOrZero(m: map<int, nat>, id: int): nat {
    if id in m then m[id] else 0
  }

  predicate Distinct(results: seq<Outcome>) {
    forall i, j | 0 <= i < j < |results| :: results[i].hostId != results[j].hostId
  }

  predicate Has(results: seq<Outcome>, id: int) {
    exists o :: o in results && o.hostId == id
  }

  /** A notice list names each host once, and only hosts of this cycle. */
  predicate NoticeList(ids: seq<int>, results: seq<Outcome>) {
    && (forall a, b | 0 <= a < b < |ids| :: ids[a] != ids[b])
    && (forall id | id in ids :: Has(results, id))
  }

  lemma DistinctPrefix(results: seq<Outcome>, i: nat)
    requires Distinct(results) && i < |results|
    ensures results[..i + 1] == results[..i] + [results[i]]
    ensures !Has(results[..i], results[i].hostId)
    ensures forall id :: Has(results[..i + 1], id) <==> Has(results[..i], id) || id == results[i].hostId
  {
    forall id | Has(results[..i], id) || id == results[i].hostId
      ensures Has(results[..i + 1], id)
    {
      if id == results[i].hostId {
        assert results[i] in results[..i + 1];
      } else {
        var o :| o in results[..i] && o.hostId == id;
        assert o in results[..i + 1];
      }
    }
  }

  class PingJob {
    var offlineSince: map<int, real>
    var graceNotified: set<int>
    var failStreak: map<int, nat>
    var passStreak: map<int, nat>
    /** The port_error column of the ping_hosts table. */
    var portError: map<int, bool>

    constructor (portError: map<int, bool>)
      ensures forall id :: View(id) == HostState(0, 0, Get(portError, id), None, false)
    {
      this.portError := portError;
      offlineSince, graceNotified, failStreak, passStreak := map[], {}, map[], map[];
    }

    function View(id: int): HostState
      reads this
    {
      HostState(if id in failStreak then failStreak[id] else 0, if id in passStreak then passStreak[id] else 0,
                if id in portError then Some(portError[id]) else None,
                if id in offlineSince then Some(offlineSince[id]) else None, id in graceNotified)
    }

    method UpdateLatch(o: Outcome)
      modifies this`failStreak, this`passStreak, this`portError
      ensures View(o.hostId) == Latch(CountService(old(View(o.hostId)), o))
      ensures forall id | id != o.hostId :: View(id) == old(View(id))
    {
      var id := o.hostId;
      if id in portError {
        if o.online && o.serviceChecked {
          if o.portError {
            passStreak := passStreak - {id};
            failStreak := failStreak[id := GetOrZero(failStreak, id) + 1];
          } else {
            failStreak := failStreak - {id};
            passStreak := passStreak[id := GetOrZero(passStreak, id) + 1];
          }
        }
        var latched := portError[id];
        if !latched && GetOrZero(failStreak, id) >= PORT_ERROR_SET_THRESHOLD {
          latched := true;
        } else if latched && GetOrZero(passStreak, id) >= PORT_ERROR_CLEAR_THRESHOLD {
          latched := false;
        }
        portError := portError[id := latched];
      }
    }

    method Track(o: Outcome, now: real, prevSuccess: Option<bool>) returns (cameOnline: bool)
      modifies this`offlineSince, this`graceNotified
      ensures View(o.hostId) == TrackOnline(old(View(o.hostId)), o.online, now)
      ensures forall id | id != o.hostId :: View(id) == old(View(id))
      ensures cameOnline == RaisesOnline(old(View(o.hostId)), o, prevSuccess)
    {
      var id := o.hostId;
      cameOnline := false;
      if !o.online {
        if id !in offlineSince {
          offlineSince := offlineSince[id := now];
        }
      } else {
        var wasNotified := id in graceNotified;
        offlineSince := offlineSince - {id};
        graceNotified := graceNotified - {id};
        cameOnline := prevSuccess == Some(false) && wasNotified;
      }
    }

    /** The body of the first loop. */
    method Record(o: Outcome, now: real, prevSuccess: Option<bool>) returns (cameOnline: bool)
      modifies this
      ensures View(o.hostId) == FirstPass(old(View(o.hostId)), o, now)
      ensures forall id | id != o.hostId :: View(id) == old(View(id))
      ensures cameOnline == RaisesOnline(old(View(o.hostId)), o, prevSuccess)
    {
      UpdateLatch(o);
      cameOnline := Track(o, now, prevSuccess);
    }

    method RecordAll(results: seq<Outcome>, now: real, prevSuccess: map<int, bool>) returns (cameOnline: seq<int>)
      requires Distinct(results)
      modifies this
      ensures forall o | o in results :: View(o.hostId) == FirstPass(old(View(o.hostId)), o, now)
      ensures forall id | !Has(results, id) :: View(id) == old(View(id))
      ensures forall o | o in results ::
                o.hostId in cameOnline <==> RaisesOnline(old(View(o.hostId)), o, Get(prevSuccess, o.hostId))
      ensures NoticeList(cameOnline, results)
    {
      hide FirstPass, RaisesOnline;
      cameOnline := [];
      for i := 0 to |results|
        invariant forall o | o in results[..i] :: View(o.hostId) == FirstPass(old(View(o.hostId)), o, now)
        invariant forall id | !Has(results[..i], id) :: View(id) == old(View(id))
        invariant forall o | o in results[..i] ::
                    o.hostId in cameOnline <==> RaisesOnline(old(View(o.hostId)), o, Get(prevSuccess, o.hostId))
        invariant NoticeList(cameOnline, results[..i])
      {
        var o := results[i];
        DistinctPrefix(results, i);
        var online := Record(o, now, Get(prevSuccess, o.hostId));
        if online {
          cameOnline := cameOnline + [o.hostId];
        }
      }
      assert results[..|results|] == results;
    }

    /** The body of the second loop. */
    method Notify(o: Outcome, now: real, graceMinutes: nat) returns (offline: bool)
      modifies this`graceNotified
      ensures View(o.hostId) == SecondPass(old(View(o.hostId)), o, now, graceMinutes)
      ensures forall id | id != o.hostId :: View(id) == old(View(id))
      ensures offline == RaisesOffline(old(View(o.hostId)), o, now, graceMinutes)
    {
      offline := false;
      var id := o.hostId;
      if !o.online && id in offlineSince && id !in graceNotified {
        var elapsed := (now - offlineSince[id]) / 60.0;
        if elapsed >= graceMinutes as real {
          offline := true;
          graceNotified := graceNotified + {id};
        }
      }
    }

    method NotifyAll(results: seq<Outcome>, now: real, graceMinutes: nat) returns (wentOffline: seq<int>)
      requires Distinct(results)
      modifies this
      ensures forall o | o in results :: View(o.hostId) == SecondPass(old(View(o.hostId)), o, now, graceMinutes)
      ensures forall id | !Has(results, id) :: View(id) == old(View(id))
      ensures forall o | o in results ::
                o.hostId in wentOffline <==> RaisesOffline(old(View(o.hostId)), o, now, graceMinutes)
      ensures NoticeList(wentOffline, results)
    {
      hide SecondPass, RaisesOffline;
      wentOffline := [];
      for i := 0 to |results|
        invariant forall o | o in results[..i] ::
                    View(o.hostId) == SecondPass(old(View(o.hostId)), o, now, graceMinutes)
        invariant forall id | !Has(results[..i], id) :: View(id) == old(View(id))
        invariant forall o | o in results[..i] ::
                    o.hostId in wentOffline <==> RaisesOffline(old(View(o.hostId)), o, now, graceMinutes)
        invariant NoticeList(wentOffline, results[..i])
      {
        var o := results[i];
        DistinctPrefix(results, i);
        var offline := Notify(o, now, graceMinutes);
        if offline {
          wentOffline := wentOffline + [o.hostId];
        }
      }
      assert results[..|results|] == results;
    }

    /** A whole cycle: one pass that records, one that raises the overdue offline notices. */
    method RunCycle(results: seq<Outcome>, now: real, graceMinutes: nat, prevSuccess: map<int, bool>)
      returns (wentOffline: seq<int>, cameOnline: seq<int>)
      requires forall i, j | 0 <= i < j < |results| :: results[i].hostId != results[j].hostId
      modifies this
      ensures forall o | o in results :: View(o.hostId) == Step(old(View(o.hostId)), o, now, graceMinutes)
      ensures forall id | (forall o | o in results :: o.hostId != id) :: View(id) == old(View(id))
      ensures forall o | o in results :: o.hostId in wentOffline <==>
                RaisesOffline(FirstPass(old(View(o.hostId)), o, now), o, now, graceMinutes)
      ensures forall o | o in results ::
                o.hostId in cameOnline <==>
                  RaisesOnline(old(View(o.hostId)), o,
                               if o.hostId in prevSuccess then Some(prevSuccess[o.hostId]) else None)
      ensures forall id | id in wentOffline || id in cameOnline :: exists o :: o in results && o.hostId == id
      ensures forall a, b | 0 <= a < b < |wentOffline| :: wentOffline[a] != wentOffline[b]
      ensures forall a, b | 0 <= a < b < |cameOnline| :: cameOnline[a] != cameOnline[b]
    {
      hide FirstPass, SecondPass, RaisesOffline, RaisesOnline;
      cameOnline := RecordAll(results, now, prevSuccess);
      wentOffline := NotifyAll(results, now, graceMinutes);
    }
  }

  // ---- Runs of one process, seen from one host ----

  /** A cycle that checked the host, or a router writing its port_error column. */
  datatype Event =
    | Cycle(o: Outcome, now: real, graceMinutes: nat, prevSuccess: Option<bool>)
    | WritePortError(value: bool)

  function Apply(h: HostState, e: Event): HostState {
    match e
    case Cycle(o, now, graceMinutes, _) => Step(h, o, now, graceMinutes)
    case WritePortError(value) => h.(latched := Some(value))
  }

  /** The state a fresh process reaches; the column starts as the database left it. */
  function After(latched: bool, events: seq<Event>): HostState {
    if events == [] then HostState(0, 0, Some(latched), None, false)
    else Apply(After(latched, events[..|events| - 1]), events[|events| - 1])
  }

  // ---- The latch ----

  predicate Counted(e: Event) {
    e.Cycle? && e.o.online && e.o.serviceChecked
  }

  /** The service verdicts (true: failed) of the counted cycles, in order. */
  ghost function Counts(events: seq<Event>): seq<bool> {
    if events == [] then [] else
    var n := |events| - 1;
    Counts(events[..n]) + if Counted(events[n]) then [events[n].o.portError] else []
  }

  /** s ends in at least k values v. */
  ghost predicate EndsIn(s: seq<bool>, v: bool, k: nat) {
    k <= |s| && forall i | |s| - k <= i < |s| :: s[i] == v
  }

  /** s ends in exactly k values v. */
  ghost predicate TrailingRun(s: seq<bool>, v: bool, k: nat) {
    EndsIn(s, v, k) && !EndsIn(s, v, k + 1)
  }

  lemma {:induction false} RowStays(latched: bool, events: seq<Event>)
    ensures After(latched, events).latched.Some?
  {
    if events != [] { RowStays(latched, events[..|events| - 1]); }
  }

  lemma TrailingRunGrows(s: seq<bool>, k: nat, m: nat, v: bool)
    requires TrailingRun(s, v, k) && TrailingRun(s, !v, m)
    ensures TrailingRun(s + [v], v, k + 1) && TrailingRun(s + [v], !v, 0)
  {
    var t := s + [v];
    assert t[|s|] == v;
    if EndsIn(t, v, k + 2) {
      forall i | |s| - (k + 1) <= i < |s| ensures s[i] == v {
        assert t[i] == s[i];
      }
    }
  }

  lemma StreaksStep(h: HostState, e: Event)
    requires h.latched.Some?
    ensures var h' := Apply(h, e);
            && h'.fails == (if !Counted(e) then h.fails else if e.o.portError then h.fails + 1 else 0)
            && h'.passes == (if !Counted(e) then h.passes else if e.o.portError then 0 else h.passes + 1)
  {
  }

  /** A host whose row is gone keeps its streaks and gets no row; its offline notices go on. */
  lemma RowlessExactly(h: HostState, e: Event)
    requires h.latched.None? && e.Cycle?
    ensures var h' := Apply(h, e);
            && h'.fails == h.fails && h'.passes == h.passes && h'.latched == None
            && h'.since == Apply(h.(latched := Some(false)), e).since
            && h'.notified == Apply(h.(latched := Some(false)), e).notified
  {
  }

  /** The two streak counters are the lengths of the failed and of the passed run that the counted
      cycles end in; so they are never both positive. */
  lemma {:induction false} StreaksAreTrailingRuns(latched: bool, events: seq<Event>)
    ensures TrailingRun(Counts(events), true, After(latched, events).fails)
    ensures TrailingRun(Counts(events), false, After(latched, events).passes)
    ensures After(latched, events).fails == 0 || After(latched, events).passes == 0
  {
    if events != [] {
      var n := |events| - 1;
      var h := After(latched, events[..n]);
      var e := events[n];
      var c := Counts(events[..n]);
      StreaksAreTrailingRuns(latched, events[..n]);
      RowStays(latched, events[..n]);
      StreaksStep(h, e);
      assert c + [] == c;
      if Counted(e) {
        if e.o.portError {
          TrailingRunGrows(Counts(events[..n]), h.fails, h.passes, true);
        } else {
          TrailingRunGrows(Counts(events[..n]), h.passes, h.fails, false);
        }
      }
    }
  }

  lemma EndsInShorter(s: seq<bool>, v: bool, k: nat, m: nat)
    requires TrailingRun(s, v, k)
    ensures EndsIn(s, v, m) <==> m <= k
  {
    forall a: nat, b: nat | a <= b && EndsIn(s, v, b)
      ensures EndsIn(s, v, a)
    {
    }
  }

  /** A cycle sets a clear flag exactly when the last three counted cycles failed, and clears a set
      flag exactly when the last two passed. */
  lemma LatchMovesExactly(latched: bool, events: seq<Event>, e: Event)
    requires e.Cycle?
    ensures After(latched, events).latched == Some(false) ==>
              (After(latched, events + [e]).latched == Some(true) <==> EndsIn(Counts(events + [e]), true, 3))
    ensures After(latched, events).latched == Some(true) ==>
              (After(latched, events + [e]).latched == Some(false) <==> EndsIn(Counts(events + [e]), false, 2))
  {
    var h := After(latched, events + [e]);
    assert (events + [e])[..|events|] == events;
    RowStays(latched, events);
    StreaksAreTrailingRuns(latched, events + [e]);
    EndsInShorter(Counts(events + [e]), true, h.fails, 3);
    EndsInShorter(Counts(events + [e]), false, h.passes, 2);
  }

  /** How often the cycles of a run set the flag. */
  ghost function Sets(latched: bool, events: seq<Event>): nat {
    if events == [] then 0 else
    var n := |events| - 1;
    Sets(latched, events[..n]) +
    if events[n].Cycle? && After(latched, events[..n]).latched == Some(false)
       && After(latched, events).latched == Some(true) then 1 else 0
  }

  ghost function Clears(latched: bool, events: seq<Event>): nat {
    if events == [] then 0 else
    var n := |events| - 1;
    Clears(latched, events[..n]) +
    if events[n].Cycle? && After(latched, events[..n]).latched == Some(true)
       && After(latched, events).latched == Some(false) then 1 else 0
  }

  ghost function Credit(h: HostState): nat {
    if h.latched == Some(true) then h.passes else h.fails
  }

  /** What holds between cycles as long as nobody else writes the column. */
  ghost predicate Settled(h: HostState) {
    && h.latched.Some?
    && (h.fails == 0 || h.passes == 0)
    && (if h.latched.value then h.passes < PORT_ERROR_CLEAR_THRESHOLD else h.fails < PORT_ERROR_SET_THRESHOLD)
  }

  lemma BudgetStep(h: HostState, e: Event)
    requires Settled(h) && e.Cycle?
    ensures Settled(Apply(h, e))
    ensures (if h.latched == Some(false) && Apply(h, e).latched == Some(true) then 3 else 0)
            + (if h.latched == Some(true) && Apply(h, e).latched == Some(false) then 2 else 0)
            + Credit(Apply(h, e))
            <= Credit(h) + (if Counted(e) then 1 else 0)
  {
  }

  lemma {:induction false} TransitionBudgetWithCredit(latched: bool, events: seq<Event>)
    requires forall e | e in events :: e.Cycle?
    ensures 3 * Sets(latched, events) + 2 * Clears(latched, events) + Credit(After(latched, events)) <= |Counts(events)|
    ensures Settled(After(latched, events))
  {
    hide Apply, Credit, Settled;
    if events == [] {
      assert Credit(After(latched, events)) == 0 && Settled(After(latched, events)) by { EmptyRunIsSettled(latched); }
    } else {
      var n := |events| - 1;
      TransitionBudgetWithCredit(latched, events[..n]);
      BudgetStep(After(latched, events[..n]), events[n]);
    }
  }

  lemma EmptyRunIsSettled(latched: bool)
    ensures Credit(After(latched, [])) == 0 && Settled(After(latched, []))
  {
  }

  /** Without outside writes, n counted cycles cannot flap the flag more than the thresholds allow. */
  lemma TransitionBudget(latched: bool, events: seq<Event>)
    requires forall e | e in events :: e.Cycle?
    ensures 3 * Sets(latched, events) + 2 * Clears(latched, events) <= |Counts(events)|
  {
    TransitionBudgetWithCredit(latched, events);
  }

  /** A router's reset does not clear the streaks. The next cycle sets the flag again exactly when it
      fails after two counted failures, or counts nothing, be it without any service check, after three. */
  lemma OutsideResetIsUndone(latched: bool, events: seq<Event>, e: Event)
    requires e.Cycle?
    ensures After(latched, events + [WritePortError(false)]).latched == Some(false)
    ensures After(latched, events + [WritePortError(false), e]).latched == Some(true) <==>
              if Counted(e) then e.o.portError && EndsIn(Counts(events), true, 2)
              else EndsIn(Counts(events), true, 3)
  {
    var es := events + [WritePortError(false)];
    assert es[..|events|] == events;
    assert events + [WritePortError(false), e] == es + [e];
    LatchMovesExactly(latched, es, e);
    assert (es + [e])[..|es|] == es;
    var c, c' := Counts(events), Counts(es + [e]);
    assert c' == if Counted(e) then c + [e.o.portError] else c;
    RowStays(latched, es);
    if Counted(e) {
      assert EndsIn(c', true, 3) ==> c'[|c'| - 1];
      assert forall i | 0 <= i < |c| :: c'[i] == c[i];
    }
  }

  /** Three failures set the flag, a router resets it, and a cycle that cannot check the service sets it
      again. */
  lemma ResetCanBeUndone(id: int) returns (events: seq<Event>)
    ensures |events| == 5 && events[3] == WritePortError(false) && !Counted(events[4])
    ensures After(false, events[..3]).latched == Some(true)
    ensures After(false, events[..4]).latched == Some(false) && After(false, events).latched == Some(true)
  {
    var fail := Cycle(Outcome(id, true, true, true), 0.0, 5, None);
    var dark := Cycle(Outcome(id, false, false, true), 60.0, 5, Some(true));
    var three := [fail, fail, fail];
    ThreeFailures(fail);
    OutsideResetIsUndone(false, three, dark);
    events := three + [WritePortError(false), dark];
    assert events[..3] == three && events[..4] == three + [WritePortError(false)];
  }

  lemma ThreeFailures(fail: Event)
    requires Counted(fail) && fail.o.portError
    ensures Counts([fail, fail, fail]) == [true, true, true]
    ensures After(false, [fail, fail, fail]).latched == Some(true)
  {
    var one, two, three := [fail], [fail, fail], [fail, fail, fail];
    assert one[..0] == [] && two[..1] == one && three[..2] == two;
    assert Counts(one) == Counts([]) + [true];
    assert Counts(two) == Counts(one) + [true];
    assert Counts(three) == Counts(two) + [true];
    assert After(false, one) == Apply(After(false, []), fail);
    assert After(false, two) == Apply(After(false, one), fail);
    assert After(false, three) == Apply(After(false, two), fail);
  }

  // ---- The grace notices ----

  ghost predicate OfflineAt(events: seq<Event>, i: int) {
    0 <= i < |events| && events[i].Cycle? && !events[i].o.online
  }

  ghost predicate OnlineAt(events: seq<Event>, i: int) {
    0 <= i < |events| && events[i].Cycle? && events[i].o.online
  }

  /** The host has not been seen online from event i on. */
  ghost predicate Dark(events: seq<Event>, i: int) {
    forall k | i <= k :: !OnlineAt(events, k)
  }

  /** i is the first failed observation since the host was last seen online. */
  ghost predicate EpisodeStart(events: seq<Event>, i: int) {
    && OfflineAt(events, i) && Dark(events, i)
    && forall j | 0 <= j < i && OfflineAt(events, j) :: !Dark(events, j)
  }

  lemma SinceStep(h: HostState, e: Event)
    ensures var h' := Apply(h, e);
            && (!e.Cycle? ==> h'.since == h.since && h'.notified == h.notified)
            && (e.Cycle? && e.o.online ==> h'.since == None && !h'.notified)
            && (e.Cycle? && !e.o.online ==>
                  && h'.since == (if h.since.Some? then h.since else Some(e.now))
                  && h'.notified == (h.notified || (e.now - h'.since.value) / 60.0 >= e.graceMinutes as real))
  {
  }

  /** The recorded time is that of the first failed observation since the host was last seen online,
      and only hosts with a recorded time are marked as notified. */
  lemma {:induction false} SinceIsEpisodeStart(latched: bool, events: seq<Event>)
    ensures After(latched, events).since.None? ==> forall i :: !EpisodeStart(events, i)
    ensures After(latched, events).since.Some? ==>
              exists i :: EpisodeStart(events, i) && events[i].now == After(latched, events).since.value
    ensures After(latched, events).notified ==> After(latched, events).since.Some?
  {
    hide Apply;
    if events == [] {
      assert After(latched, events).since == None && !After(latched, events).notified;
    } else {
      var n := |events| - 1;
      var before, e := events[..n], events[n];
      var h := After(latched, before);
      SinceIsEpisodeStart(latched, before);
      SinceStep(h, e);
      EpisodeStep(before, e);
      assert events == before + [e];
      if h.since.Some? {
        var i :| EpisodeStart(before, i) && before[i].now == h.since.value;
        assert events[i] == before[i];
      }
    }
  }

  /** How one more event moves the start of the offline episode. */
  lemma EpisodeStep(before: seq<Event>, e: Event)
    ensures var events := before + [e];
            && (e.Cycle? && e.o.online ==> forall i :: !EpisodeStart(events, i))
            && (!e.Cycle? ==> forall i :: EpisodeStart(events, i) <==> EpisodeStart(before, i))
            && (e.Cycle? && !e.o.online ==>
                  if exists i :: EpisodeStart(before, i)
                  then forall i :: EpisodeStart(events, i) <==> EpisodeStart(before, i)
                  else EpisodeStart(events, |before|))
  {
    var events := before + [e];
    forall k | 0 <= k < |before| ensures events[k] == before[k] {
    }
    assert forall k | k != |before| :: OnlineAt(events, k) <==> OnlineAt(before, k);
    assert forall k | k != |before| :: OfflineAt(events, k) <==> OfflineAt(before, k);
    if e.Cycle? && e.o.online {
      assert OnlineAt(events, |before|);
    } else {
      assert forall k :: OnlineAt(events, k) <==> OnlineAt(before, k);
      assert forall i :: Dark(events, i) <==> Dark(before, i);
      if forall i :: !EpisodeStart(before, i) {
        forall j | OfflineAt(before, j) ensures !Dark(before, j) {
          if Dark(before, j) { FirstDark(before, j); }
        }
      } else {
        var i :| EpisodeStart(before, i);
        assert OfflineAt(before, i) && Dark(before, i);
      }
    }
  }

  lemma FirstDark(events: seq<Event>, j: int)
    requires OfflineAt(events, j) && Dark(events, j)
    ensures exists i :: EpisodeStart(events, i)
    decreases j
  {
    if i :| 0 <= i < j && OfflineAt(events, i) && Dark(events, i) {
      FirstDark(events, i);
    } else {
      assert EpisodeStart(events, j);
    }
  }

  /** A notice about the host, with the offline episode it belongs to. */
  datatype Notice =
    | WentOffline(episode: nat, since: real, at: real, graceMinutes: nat)
    | CameOnline(episode: nat)

  /** The number of the current offline episode: how often the host has been seen online. */
  ghost function Episode(events: seq<Event>): nat {
    if events == [] then 0 else
    var n := |events| - 1;
    Episode(events[..n]) + if OnlineAt(events, n) then 1 else 0
  }

  ghost function NoticesOfStep(h: HostState, e: Event, episode: nat): seq<Notice> {
    match e
    case Cycle(o, now, graceMinutes, prevSuccess) =>
      var mid := FirstPass(h, o, now);
      (if RaisesOnline(h, o, prevSuccess) then [CameOnline(episode)] else [])
      + (if RaisesOffline(mid, o, now, graceMinutes)
         then [WentOffline(episode, mid.since.value, now, graceMinutes)] else [])
    case WritePortError(_) => []
  }

  /** All the notices a run raises for the host. */
  ghost function Notices(latched: bool, events: seq<Event>): seq<Notice> {
    if events == [] then [] else
    var n := |events| - 1;
    Notices(latched, events[..n]) + NoticesOfStep(After(latched, events[..n]), events[n], Episode(events[..n]))
  }

  ghost predicate Raised(ns: seq<Notice>, episode: nat) {
    exists i :: 0 <= i < |ns| && ns[i].WentOffline? && ns[i].episode == episode
  }

  /** At most one offline notice an episode, each after its grace; at most one back-online notice an
      episode, and only after that episode's offline notice. */
  ghost predicate Disciplined(ns: seq<Notice>) {
    && (forall i, j | 0 <= i < j < |ns| && ns[i].WentOffline? && ns[j].WentOffline? :: ns[i].episode < ns[j].episode)
    && (forall i, j | 0 <= i < j < |ns| && ns[i].CameOnline? && ns[j].CameOnline? :: ns[i].episode < ns[j].episode)
    && (forall i | 0 <= i < |ns| && ns[i].WentOffline? :: (ns[i].at - ns[i].since) / 60.0 >= ns[i].graceMinutes as real)
    && (forall j | 0 <= j < |ns| && ns[j].CameOnline? :: Raised(ns[..j], ns[j].episode))
  }

  /** The notices so far against the current state. */
  ghost predicate Consistent(ns: seq<Notice>, h: HostState, episode: nat) {
    && Disciplined(ns)
    && (forall i | 0 <= i < |ns| && ns[i].CameOnline? :: ns[i].episode < episode)
    && (forall i | 0 <= i < |ns| && ns[i].WentOffline? :: ns[i].episode <= episode)
    && (h.notified <==> Raised(ns, episode))
  }

  lemma NoticesStep(h: HostState, e: Event, episode: nat)
    ensures var extra := NoticesOfStep(h, e, episode);
            var h' := Apply(h, e);
            if e.Cycle? && e.o.online then
              !h'.notified && (extra == [] || (extra == [CameOnline(episode)] && h.notified))
            else
              || (extra == [] && h'.notified == h.notified)
              || (|extra| == 1 && extra[0].WentOffline? && extra[0].episode == episode && !h.notified && h'.notified
                  && (extra[0].at - extra[0].since) / 60.0 >= extra[0].graceMinutes as real)
  {
  }

  lemma RaisedGrows(ns: seq<Notice>, n: Notice)
    ensures forall k: nat :: Raised(ns + [n], k) <==> Raised(ns, k) || (n.WentOffline? && n.episode == k)
    ensures forall j | 0 <= j <= |ns| :: (ns + [n])[..j] == ns[..j]
  {
    var t := ns + [n];
    assert t[|ns|] == n;
    forall k: nat | Raised(ns, k) ensures Raised(t, k) {
      var i :| 0 <= i < |ns| && ns[i].WentOffline? && ns[i].episode == k;
      assert t[i] == ns[i];
    }
  }

  lemma DisciplinedGrows(ns: seq<Notice>, n: Notice)
    requires Disciplined(ns)
    requires n.WentOffline? ==>
               && (forall i | 0 <= i < |ns| && ns[i].WentOffline? :: ns[i].episode < n.episode)
               && (n.at - n.since) / 60.0 >= n.graceMinutes as real
    requires n.CameOnline? ==>
               && (forall i | 0 <= i < |ns| && ns[i].CameOnline? :: ns[i].episode < n.episode)
               && Raised(ns, n.episode)
    ensures Disciplined(ns + [n])
  {
    hide Raised;
    var t := ns + [n];
    RaisedGrows(ns, n);
    assert forall i | 0 <= i < |ns| :: t[i] == ns[i];
  }

  lemma EarlierEpisodes(ns: seq<Notice>, episode: nat)
    requires forall i | 0 <= i < |ns| && ns[i].WentOffline? :: ns[i].episode <= episode
    requires !Raised(ns, episode)
    ensures forall i | 0 <= i < |ns| && ns[i].WentOffline? :: ns[i].episode < episode
  {
  }

  lemma ConsistentStep(ns: seq<Notice>, h: HostState, e: Event, episode: nat)
    requires Consistent(ns, h, episode)
    ensures Consistent(ns + NoticesOfStep(h, e, episode), Apply(h, e),
                       episode + if e.Cycle? && e.o.online then 1 else 0)
  {
    hide Apply, NoticesOfStep, Disciplined;
    NoticesStep(h, e, episode);
    var extra := NoticesOfStep(h, e, episode);
    if extra == [] {
      assert ns + extra == ns;
    } else {
      assert extra == [extra[0]];
      if extra[0].WentOffline? { EarlierEpisodes(ns, episode); }
      DisciplinedGrows(ns, extra[0]);
      RaisedGrows(ns, extra[0]);
      assert forall i | 0 <= i < |ns| :: (ns + extra)[i] == ns[i];
    }
  }

  lemma {:induction false} RunIsConsistent(latched: bool, events: seq<Event>)
    ensures Consistent(Notices(latched, events), After(latched, events), Episode(events))
  {
    hide Apply, NoticesOfStep, Consistent;
    if events == [] {
      EmptyRunIsConsistent(latched);
    } else {
      var n := |events| - 1;
      RunIsConsistent(latched, events[..n]);
      ConsistentStep(Notices(latched, events[..n]), After(latched, events[..n]), events[n], Episode(events[..n]));
    }
  }

  lemma EmptyRunIsConsistent(latched: bool)
    ensures Consistent(Notices(latched, []), After(latched, []), Episode([]))
  {
  }

  /** Over every run: one offline notice at most for each offline episode, never before the grace of
      its cycle has elapsed, and each back-online notice closes an episode that had raised one. */
  lemma NoticesAreDisciplined(latched: bool, events: seq<Event>)
    ensures Disciplined(Notices(latched, events))
  {
    RunIsConsistent(latched, events);
  }

  lemma {:induction false} EpisodesCount(events: seq<Event>, i: nat)
    requires i < |events| && OnlineAt(events, i)
    ensures Episode(events[..i]) < Episode(events)
  {
    var n := |events| - 1;
    if i < n {
      assert OnlineAt(events[..n], i) && events[..n][..i] == events[..i];
      EpisodesCount(events[..n], i);
    }
  }

  lemma BackOnlineStep(h: HostState, e: Event, episode: nat, k: nat)
    ensures CameOnline(k) in NoticesOfStep(h, e, episode) <==>
              k == episode && e.Cycle? && e.o.online && h.notified && e.prevSuccess == Some(false)
  {
  }

  /** The episode that a host's return online ends gets its back-online notice, at once or never: exactly
      when it had raised an offline notice and that cycle knew of a failed check before it. A cycle whose
      look-up of the previous state failed loses the notice. */
  lemma {:induction false} BackOnlineExactly(latched: bool, events: seq<Event>, i: nat)
    requires i < |events| && OnlineAt(events, i)
    ensures var k := Episode(events[..i]);
            CameOnline(k) in Notices(latched, events) <==>
              Raised(Notices(latched, events[..i]), k) && events[i].prevSuccess == Some(false)
  {
    hide NoticesOfStep, Raised, Apply, Disciplined;
    var n, k := |events| - 1, Episode(events[..i]);
    var ns := Notices(latched, events[..n]);
    BackOnlineStep(After(latched, events[..n]), events[n], Episode(events[..n]), k);
    if i == n {
      RunIsConsistent(latched, events[..n]);
      assert CameOnline(k) !in ns;
    } else {
      assert OnlineAt(events[..n], i) && events[..n][..i] == events[..i] && events[..n][i] == events[i];
      BackOnlineExactly(latched, events[..n], i);
      EpisodesCount(events[..n], i);
    }
  }

  /** An offline notice comes no earlier than the grace of its cycle after the first failed
      observation since the host was last seen online. */
  lemma OfflineNoticeIsTimely(latched: bool, events: seq<Event>, e: Event)
    requires e.Cycle?
    requires RaisesOffline(FirstPass(After(latched, events), e.o, e.now), e.o, e.now, e.graceMinutes)
    ensures exists i :: EpisodeStart(events + [e], i)
                        && (e.now - (events + [e])[i].now) / 60.0 >= e.graceMinutes as real
  {
    var run := events + [e];
    assert run[..|events|] == events;
    SinceIsEpisodeStart(latched, run);
    var i :| EpisodeStart(run, i) && run[i].now == After(latched, run).since.value;
  }

  /** At event j the host is seen offline, at least the grace of that cycle after event i. */
  ghost predicate OverdueAt(events: seq<Event>, i: int, j: int)
    requires 0 <= i < |events| && events[i].Cycle?
  {
    i <= j && OfflineAt(events, j) && events[j].now - events[i].now >= 60.0 * events[j].graceMinutes as real
  }

  lemma OneEpisodeStart(events: seq<Event>, i: int, j: int)
    requires EpisodeStart(events, i) && EpisodeStart(events, j)
    ensures i == j
  {
  }

  /** In an offline episode that began at event i the host is marked as notified exactly when some cycle
      since saw it overdue. */
  lemma {:induction false} NotifiedExactly(latched: bool, events: seq<Event>, i: int)
    requires EpisodeStart(events, i)
    ensures After(latched, events).since == Some(events[i].now)
    ensures After(latched, events).notified <==> exists j :: OverdueAt(events, i, j)
  {
    hide Apply, Dark, EpisodeStart;
    assert OfflineAt(events, i) by { StartIsOffline(events, i); }
    var n := |events| - 1;
    var before, e := events[..n], events[n];
    assert events == before + [e];
    var h := After(latched, before);
    SinceStep(h, e);
    if i == n {
      NewEpisode(latched, before, e);
      assert OverdueAt(events, i, n) <==> 0.0 >= e.graceMinutes as real;
    } else {
      StartStays(before, e, i);
      NotifiedExactly(latched, before, i);
      OverdueGrows(before, e, i);
    }
  }

  /** An episode that begins now finds nothing recorded. */
  lemma NewEpisode(latched: bool, before: seq<Event>, e: Event)
    requires EpisodeStart(before + [e], |before|)
    ensures e.Cycle? && !e.o.online
    ensures After(latched, before).since.None? && !After(latched, before).notified
  {
    hide Apply, Dark, EpisodeStart;
    EpisodeStep(before, e);
    SinceIsEpisodeStart(latched, before);
    StartIsOffline(before + [e], |before|);
    if s :| EpisodeStart(before, s) {
      StartIsOffline(before, s);
      OneEpisodeStart(before + [e], |before|, s);
      assert false;
    }
  }

  lemma StartIsOffline(events: seq<Event>, i: int)
    requires EpisodeStart(events, i)
    ensures OfflineAt(events, i)
  {
  }

  lemma StartStays(before: seq<Event>, e: Event, i: int)
    requires EpisodeStart(before + [e], i) && i < |before|
    ensures EpisodeStart(before, i) && !(e.Cycle? && e.o.online)
  {
    hide EpisodeStart;
    EpisodeStep(before, e);
    if e.Cycle? && !e.o.online && forall s :: !EpisodeStart(before, s) {
      OneEpisodeStart(before + [e], i, |before|);
      assert false;
    }
  }

  lemma OverdueGrows(before: seq<Event>, e: Event, i: int)
    requires 0 <= i < |before| && before[i].Cycle?
    ensures (exists j :: OverdueAt(before + [e], i, j)) <==>
              || (exists j :: OverdueAt(before, i, j))
              || (e.Cycle? && !e.o.online && e.now - before[i].now >= 60.0 * e.graceMinutes as real)
  {
    var events := before + [e];
    assert forall j | 0 <= j < |before| :: events[j] == before[j];
    assert forall j | j < |before| :: OverdueAt(events, i, j) <==> OverdueAt(before, i, j);
    assert OverdueAt(events, i, |before|) <==>
           e.Cycle? && !e.o.online && e.now - before[i].now >= 60.0 * e.graceMinutes as real;
  }

  /** The offline notice of an episode is raised at the first cycle that sees the host overdue: offline,
      and at least the grace of that cycle, in minutes, after the failed observation that began it. */
  lemma OfflineExactly(latched: bool, events: seq<Event>, e: Event, i: int)
    requires e.Cycle? && EpisodeStart(events + [e], i)
    ensures RaisesOffline(FirstPass(After(latched, events), e.o, e.now), e.o, e.now, e.graceMinutes) <==>
              OverdueAt(events + [e], i, |events|) && forall j | j < |events| :: !OverdueAt(events + [e], i, j)
  {
    hide Apply, Dark, EpisodeStart, FirstPass, RaisesOffline;
    var run := events + [e];
    assert run[..|events|] == events;
    StartIsOffline(run, i);
    NotifiedExactly(latched, run, i);
    RaisedByStep(After(latched, events), e);
    if i == |events| {
      NewEpisode(latched, events, e);
    } else {
      StartStays(events, e, i);
      NotifiedExactly(latched, events, i);
      assert forall j | j < |events| :: OverdueAt(run, i, j) <==> OverdueAt(events, i, j);
    }
  }

  lemma RaisedByStep(h: HostState, e: Event)
    requires e.Cycle?
    ensures RaisesOffline(FirstPass(h, e.o, e.now), e.o, e.now, e.graceMinutes) <==>
              !e.o.online && !h.notified && Apply(h, e).notified
  {
  }
}
