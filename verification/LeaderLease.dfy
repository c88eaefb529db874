/** Scheduler leadership (backend/scheduler.py, backend/services/shared_state.py): several instances
    contend for one lease; the holder runs the scheduled jobs. */
module LeaderLease {
  import opened Options

  const LEADER_TTL_SECONDS: real := 30.0

  datatype Lease = Lease(holder: int, expiry: real)

  // ---- The lock ----

  predicate Grants(lease: Option<Lease>, id: int, now: real) {
    lease.None? || lease.value.expiry <= now || lease.value.holder == id
  }

  class LeaseStore {
    var lease: Option<Lease>

    constructor ()
      ensures lease == None
    {
      lease := None;
    }

    /** Acquire if free or expired, or renew if already held. */
    method TryAcquire(id: int, now: real) returns (granted: bool)
      modifies this
      ensures granted == Grants(old(lease), id, now)
      ensures lease == if granted then Some(Lease(id, now + LEADER_TTL_SECONDS)) else old(lease)
    {
      match lease {
        case Some(cur) =>
          if cur.expiry <= now || cur.holder == id {
            lease := Some(Lease(id, now + LEADER_TTL_SECONDS));
            granted := true;
          } else {
            granted := false;
          }
        case None =>
          lease := Some(Lease(id, now + LEADER_TTL_SECONDS));
          granted := true;
      }
    }
  }

  // ---- One instance ----

  datatype Poll = Reply(granted: bool) | Error

  class LeaderNode {
    var isLeader: bool
    /** Whether the job scheduler is running rather than paused. */
    var resumed: bool

    constructor ()
      ensures !isLeader && !resumed
    {
      isLeader, resumed := false, false;
    }

    /** Resume or pause on a transition only; calls counts the calls made to the job scheduler. */
    method ApplyLeadership(leader: bool) returns (calls: nat)
      modifies this
      ensures isLeader == leader
      ensures resumed == if leader != old(isLeader) then leader else old(resumed)
      ensures calls == if leader != old(isLeader) then 1 else 0
    {
      calls := 0;
      if leader && !isLeader {
        resumed, calls := true, 1;
        isLeader := true;
      } else if !leader && isLeader {
        resumed, calls := false, 1;
        isLeader := false;
      }
    }

    /** The body of the leadership loop: an error keeps everything as it was. */
    method TakePoll(poll: Poll)
      requires resumed == isLeader
      modifies this
      ensures isLeader == if poll.Reply? then poll.granted else old(isLeader)
      ensures resumed == isLeader
    {
      match poll {
        case Reply(granted) => var _ := ApplyLeadership(granted);
        case Error =>
      }
    }
  }

  // ---- All the instances ----

  /** reply: an answer of the lock that has not arrived yet, with the time at which it was computed.
      polled: that time for the last answer that did arrive. */
  datatype Node = Node(alive: bool, leader: bool, resumed: bool, reply: Option<(bool, real)>, polled: Option<real>)

  /** grants: when each instance was last granted the lease. */
  datatype System = System(now: real, lease: Option<Lease>, nodes: map<int, Node>, grants: map<int, real>)

  datatype Event =
    | Tick(seconds: real)
    | Start(id: int)
    | Stop(id: int)
    | Ask(id: int)      // the lock decides a request of the instance
    | Arrive(id: int)   // its answer reaches the instance
    | Fail(id: int)     // its answer is lost: the poll ends in an error

  ghost predicate Enabled(s: System, e: Event) {
    match e
    case Tick(seconds) => seconds >= 0.0
    case Start(id) => id in s.nodes ==> !s.nodes[id].alive
    case Stop(id) => id in s.nodes && s.nodes[id].alive
    case Ask(id) => id in s.nodes && s.nodes[id].alive && s.nodes[id].reply.None?
    case Arrive(id) => id in s.nodes && s.nodes[id].alive && s.nodes[id].reply.Some?
    case Fail(id) => id in s.nodes && s.nodes[id].alive && s.nodes[id].reply.Some?
  }

  ghost function Apply(s: System, e: Event): System
    requires Enabled(s, e)
  {
    match e
    case Tick(seconds) => s.(now := s.now + seconds)
    case Start(id) => s.(nodes := s.nodes[id := Node(true, false, false, None, None)])
    case Stop(id) => s.(nodes := s.nodes[id := s.nodes[id].(alive := false, resumed := false, reply := None)])
    case Ask(id) =>
      var granted := Grants(s.lease, id, s.now);
      s.(lease := if granted then Some(Lease(id, s.now + LEADER_TTL_SECONDS)) else s.lease,
         grants := if granted then s.grants[id := s.now] else s.grants,
         nodes := s.nodes[id := s.nodes[id].(reply := Some((granted, s.now)))])
    case Arrive(id) =>
      var node := s.nodes[id];
      var leader := node.reply.value.0;
      s.(nodes := s.nodes[id := node.(leader := leader,
                                      resumed := if leader != node.leader then leader else node.resumed,
                                      reply := None, polled := Some(node.reply.value.1))])
    case Fail(id) => s.(nodes := s.nodes[id := s.nodes[id].(reply := None)])
  }

  ghost predicate Runs(s: System, events: seq<Event>, s': System)
    decreases |events|
  {
    if events == [] then s' == s
    else Enabled(s, events[0]) && Runs(Apply(s, events[0]), events[1..], s')
  }

  const INITIAL: System := System(0.0, None, map[], map[])

  ghost predicate Reachable(s: System) {
    exists events :: Runs(INITIAL, events, s)
  }

  // ---- Mutual exclusion ----

  ghost predicate Leads(s: System, id: int) {
    id in s.nodes && s.nodes[id].alive && s.nodes[id].leader
  }

  /** The instance has not had the lease granted within its term. */
  ghost predicate Overdue(s: System, id: int) {
    id !in s.grants || s.grants[id] + 30.0 <= s.now
  }

  ghost predicate Claims(s: System, id: int) {
    id in s.nodes && s.nodes[id].alive
    && (s.nodes[id].leader || (s.nodes[id].reply.Some? && s.nodes[id].reply.value.0))
  }

  /** The lease is the newest grant, and whoever was granted it within the term holds it. */
  ghost predicate LeaseTracksGrants(s: System) {
    && (s.lease.Some? ==>
          && s.lease.value.holder in s.grants
          && s.lease.value.expiry == s.grants[s.lease.value.holder] + LEADER_TTL_SECONDS)
    && (forall id | id in s.grants :: s.grants[id] <= s.now)
    && (forall id | Claims(s, id) :: id in s.grants)
    && (forall id | id in s.grants && s.now < s.grants[id] + LEADER_TTL_SECONDS ::
          s.lease == Some(Lease(id, s.grants[id] + LEADER_TTL_SECONDS)))
  }

  /** A scheduler runs exactly where a live instance believes it leads; answers are not from the future. */
  ghost predicate NodesAreSound(s: System) {
    && (forall id | id in s.nodes :: s.nodes[id].resumed == (s.nodes[id].alive && s.nodes[id].leader))
    && (forall id | id in s.nodes && s.nodes[id].reply.Some? :: s.nodes[id].reply.value.1 <= s.now)
    && (forall id | id in s.nodes && s.nodes[id].polled.Some? :: s.nodes[id].polled.value <= s.now)
  }

  ghost predicate LeaseInvariant(s: System) {
    LeaseTracksGrants(s) && NodesAreSound(s)
  }

  lemma StepKeepsLease(s: System, e: Event)
    requires LeaseTracksGrants(s) && Enabled(s, e)
    ensures LeaseTracksGrants(Apply(s, e))
  {
    var s' := Apply(s, e);
    forall id | Claims(s', id) ensures id in s'.grants {
      assert Claims(s, id) || (e.Ask? && e.id == id);
    }
  }

  lemma StepKeepsNodes(s: System, e: Event)
    requires NodesAreSound(s) && Enabled(s, e)
    ensures NodesAreSound(Apply(s, e))
  {
  }

  lemma {:induction false} RunKeepsInvariant(s: System, events: seq<Event>, s': System)
    requires LeaseInvariant(s) && Runs(s, events, s')
    ensures LeaseInvariant(s')
    decreases |events|
  {
    if events != [] {
      hide Apply, LeaseTracksGrants, NodesAreSound;
      StepKeepsLease(s, events[0]);
      StepKeepsNodes(s, events[0]);
      RunKeepsInvariant(Apply(s, events[0]), events[1..], s');
    }
  }

  lemma ReachableInvariant(s: System)
    requires Reachable(s)
    ensures LeaseInvariant(s)
  {
    var events :| Runs(INITIAL, events, s);
    RunKeepsInvariant(INITIAL, events, s);
  }

  /** In every reachable state the scheduler runs exactly where the instance believes it leads, and of
      two leaders at least one is overdue: it did not complete a poll within the term of its lease. */
  lemma AtMostOneTimelyLeader(s: System, i: int, j: int)
    requires Reachable(s)
    ensures i in s.nodes ==> s.nodes[i].resumed == Leads(s, i)
    ensures Leads(s, i) && Leads(s, j) && !Overdue(s, i) && !Overdue(s, j) ==> i == j
  {
    ReachableInvariant(s);
  }

  /** If no leader is overdue, at most one scheduler runs. */
  lemma MutualExclusion(s: System)
    requires Reachable(s)
    requires forall id | Leads(s, id) :: !Overdue(s, id)
    ensures forall i, j | i in s.nodes && j in s.nodes && s.nodes[i].resumed && s.nodes[j].resumed :: i == j
  {
    forall i, j | i in s.nodes && j in s.nodes && s.nodes[i].resumed && s.nodes[j].resumed ensures i == j {
      AtMostOneTimelyLeader(s, i, j);
      AtMostOneTimelyLeader(s, j, i);
    }
  }

  /** Exactly when the next poll of j leaves two leaders: when i is overdue and no third instance
      holds the lease. */
  lemma SecondLeaderExactly(s: System, i: int, j: int)
    requires Reachable(s)
    requires i != j && Leads(s, i) && Enabled(s, Ask(j))
    ensures Enabled(Apply(s, Ask(j)), Arrive(j))
    ensures var s' := Apply(Apply(s, Ask(j)), Arrive(j));
            Leads(s', i) && Leads(s', j) <==>
              && Overdue(s, i)
              && (s.lease.Some? && s.lease.value.holder !in {i, j} ==> s.lease.value.expiry <= s.now)
  {
    ReachableInvariant(s);
    assert Claims(s, i);
  }

  lemma RunsMore(s: System, events: seq<Event>, s': System, e: Event)
    requires Runs(s, events, s') && Enabled(s', e)
    ensures Runs(s, events + [e], Apply(s', e))
    decreases |events|
  {
    if events == [] {
      assert (events + [e])[1..] == [];
    } else {
      RunsMore(Apply(s, events[0]), events[1..], s', e);
      assert (events + [e])[1..] == events[1..] + [e];
    }
  }

  lemma ReachableMore(s: System, e: Event) returns (s': System)
    requires Reachable(s) && Enabled(s, e)
    ensures Reachable(s') && s' == Apply(s, e)
  {
    var events :| Runs(INITIAL, events, s);
    RunsMore(INITIAL, events, s, e);
    s' := Apply(s, e);
  }

  /** Without the timing hypothesis two schedulers can run: the first leader's polls fail for 30 s,
      and it keeps its state on errors. */
  lemma LeaderWithFailingPollsIsDoubled() returns (s: System)
    ensures Reachable(s)
    ensures Leads(s, 1) && Leads(s, 2) && s.nodes[1].resumed && s.nodes[2].resumed
  {
    assert Runs(INITIAL, [], INITIAL);
    s := ReachableMore(INITIAL, Start(1));
    s := ReachableMore(s, Start(2));
    s := ReachableMore(s, Ask(1));
    s := ReachableMore(s, Arrive(1));
    s := ReachableMore(s, Tick(30.0));
    s := ReachableMore(s, Ask(2));
    s := ReachableMore(s, Arrive(2));
  }

  // ---- Handover ----

  /** Only instances of the group ask for the lease, and j neither stops nor restarts. */
  ghost predicate Calm(events: seq<Event>, group: set<int>, j: int) {
    forall e | e in events ::
      && (e.Ask? ==> e.id in group)
      && (e.Stop? || e.Start? ==> e.id != j)
  }

  /** From time t on: the lease is an old one or the group's, and once an answer to j was computed
      after every old lease had expired, the group holds the lease; alone, j leads. */
  ghost predicate HandingOver(s: System, group: set<int>, j: int, t: real) {
    var late := t + LEADER_TTL_SECONDS;
    && t <= s.now && j in s.nodes && s.nodes[j].alive
    && (s.lease.Some? ==> s.lease.value.holder in group || s.lease.value.expiry <= late)
    && (s.nodes[j].reply.Some? && s.nodes[j].reply.value.1 >= late ==>
          && s.lease.Some? && s.lease.value.holder in group
          && (group == {j} ==> s.nodes[j].reply.value.0))
    && (s.nodes[j].polled.Some? && s.nodes[j].polled.value >= late ==>
          && s.lease.Some? && s.lease.value.holder in group
          && (group == {j} ==> s.nodes[j].leader))
  }

  lemma HandoverStep(s: System, e: Event, group: set<int>, j: int, t: real)
    requires Enabled(s, e) && Calm([e], group, j) && j in group
    requires HandingOver(s, group, j, t)
    ensures HandingOver(Apply(s, e), group, j, t)
  {
    assert e in [e];
  }

  lemma {:induction false} HandoverRun(s: System, events: seq<Event>, s': System, group: set<int>, j: int, t: real)
    requires Runs(s, events, s') && Calm(events, group, j) && j in group
    requires HandingOver(s, group, j, t)
    ensures HandingOver(s', group, j, t)
    decreases |events|
  {
    if events != [] {
      HandoverStep(s, events[0], group, j, t);
      HandoverRun(Apply(s, events[0]), events[1..], s', group, j, t);
    }
  }

  /** After the leader stops asking (it is outside the group), an instance j whose polls keep
      completing, the last one asked no more than a period ago, has seen the lease move to the group
      within the term of 30 s plus that period; if j is alone, j leads. An instance asks every 10 s. */
  lemma StandbyTakesOver(s: System, events: seq<Event>, s': System, group: set<int>, j: int,
                         period: real)
    requires Reachable(s) && Runs(s, events, s')
    requires j in group && j in s.nodes && s.nodes[j].alive && Calm(events, group, j)
    requires s'.now >= s.now + 30.0 + period
    requires j in s'.nodes && s'.nodes[j].polled.Some? && s'.nodes[j].polled.value >= s'.now - period
    ensures s'.lease.Some? && s'.lease.value.holder in group
    ensures group == {j} ==> Leads(s', j) && s'.nodes[j].resumed
  {
    ReachableInvariant(s);
    RunKeepsInvariant(s, events, s');
    HandoverRun(s, events, s', group, j, s.now);
  }

  // ---- Handover to a group of standbys ----

  /** Only members of the group ask for the lease, and none of them stops or restarts. */
  ghost predicate CalmGroup(e: Event, group: set<int>) {
    && (e.Ask? ==> e.id in group)
    && (e.Stop? || e.Start? ==> e.id !in group)
  }

  /** Each member has completed a poll that was asked no longer than the period ago. */
  ghost predicate Prompt(s: System, group: set<int>, period: real) {
    forall id | id in group ::
      && id in s.nodes && s.nodes[id].alive
      && s.nodes[id].polled.Some? && s.nodes[id].polled.value >= s.now - period
  }

  /** A run throughout which the group is calm and prompt. */
  ghost predicate PromptRun(s: System, events: seq<Event>, s': System, group: set<int>, period: real)
    decreases |events|
  {
    && Prompt(s, group, period)
    && if events == [] then s' == s
       else && Enabled(s, events[0]) && CalmGroup(events[0], group)
            && PromptRun(Apply(s, events[0]), events[1..], s', group, period)
  }

  /** Every later poll of the holder has renewed its lease. */
  ghost predicate HolderRenews(s: System) {
    s.lease.Some? && s.lease.value.holder in s.nodes ==>
      var node := s.nodes[s.lease.value.holder];
      && (node.polled.Some? ==> s.lease.value.expiry >= node.polled.value + LEADER_TTL_SECONDS)
      && (node.reply.Some? ==> s.lease.value.expiry >= node.reply.value.1 + LEADER_TTL_SECONDS)
  }

  lemma StepKeepsRenewal(s: System, e: Event)
    requires Enabled(s, e) && NodesAreSound(s) && HolderRenews(s)
    ensures HolderRenews(Apply(s, e))
  {
  }

  lemma {:induction false} RunKeepsRenewal(s: System, events: seq<Event>, s': System)
    requires Runs(s, events, s') && NodesAreSound(s) && HolderRenews(s)
    ensures HolderRenews(s')
    decreases |events|
  {
    if events != [] {
      hide Apply, NodesAreSound, HolderRenews;
      StepKeepsNodes(s, events[0]);
      StepKeepsRenewal(s, events[0]);
      RunKeepsRenewal(Apply(s, events[0]), events[1..], s');
    }
  }

  lemma ReachableRenewal(s: System)
    requires Reachable(s)
    ensures HolderRenews(s)
  {
    var events :| Runs(INITIAL, events, s);
    RunKeepsRenewal(INITIAL, events, s);
  }

  /** An answer to a member that was computed after every old lease had expired tells whether that
      member holds the lease, and the group holds it. */
  ghost predicate Settling(s: System, group: set<int>, t: real) {
    var late := t + LEADER_TTL_SECONDS;
    && (s.lease.Some? ==> s.lease.value.holder in group || s.lease.value.expiry <= late)
    && (forall id | id in group && id in s.nodes && s.nodes[id].reply.Some? && s.nodes[id].reply.value.1 >= late ::
          && s.lease.Some? && s.lease.value.holder in group
          && (s.nodes[id].reply.value.0 <==> s.lease.value.holder == id))
    && (forall id | id in group && id in s.nodes && s.nodes[id].polled.Some? && s.nodes[id].polled.value >= late ::
          && s.lease.Some? && s.lease.value.holder in group
          && (s.nodes[id].leader <==> s.lease.value.holder == id))
  }

  lemma SettlingStep(s: System, e: Event, group: set<int>, period: real, t: real)
    requires Enabled(s, e) && CalmGroup(e, group) && Prompt(s, group, period)
    requires period < LEADER_TTL_SECONDS
    requires NodesAreSound(s) && HolderRenews(s) && Settling(s, group, t)
    ensures Settling(Apply(s, e), group, t)
  {
    if e.Ask? && s.lease.Some? && s.lease.value.holder in group {
      assert s.lease.value.expiry > s.now;
    }
  }

  lemma {:induction false} SettlingRun(s: System, events: seq<Event>, s': System, group: set<int>,
                                       period: real, t: real)
    requires PromptRun(s, events, s', group, period) && period < LEADER_TTL_SECONDS
    requires NodesAreSound(s) && HolderRenews(s) && Settling(s, group, t)
    ensures Settling(s', group, t) && Prompt(s', group, period) && NodesAreSound(s')
    decreases |events|
  {
    if events != [] {
      hide Apply, NodesAreSound, HolderRenews, Settling, Prompt, CalmGroup;
      SettlingStep(s, events[0], group, period, t);
      StepKeepsNodes(s, events[0]);
      StepKeepsRenewal(s, events[0]);
      SettlingRun(Apply(s, events[0]), events[1..], s', group, period, t);
    }
  }

  /** After the leader stops asking, a group of standbys each of whose polls is asked at most a period
      after the one before, the period being shorter than the term, has exactly one leader when the term
      and one period are over: the member that holds the lease. */
  lemma GroupTakesOver(s: System, events: seq<Event>, s': System, group: set<int>, period: real)
    requires Reachable(s) && PromptRun(s, events, s', group, period)
    requires (exists id :: id in group) && period < 30.0
    requires s'.now >= s.now + 30.0 + period
    ensures s'.lease.Some? && s'.lease.value.holder in group
    ensures forall id | id in group ::
              id in s'.nodes && Leads(s', id) == s'.nodes[id].resumed == (id == s'.lease.value.holder)
  {
    var id :| id in group;
    ReachableInvariant(s);
    ReachableRenewal(s);
    SettlingRun(s, events, s', group, period, s.now);
    assert Settling(s', group, s.now) && id in s'.nodes;
  }

  // ---- A leader that keeps polling ----

  /** A run throughout which instance i does not stop, and has completed a poll that was asked no longer
      than the period ago; the other instances do what they like. */
  ghost predicate SteadyRun(s: System, events: seq<Event>, s': System, i: int, period: real)
    decreases |events|
  {
    && i in s.nodes && s.nodes[i].alive && s.nodes[i].polled.Some? && s.nodes[i].polled.value >= s.now - period
    && if events == [] then s' == s
       else && Enabled(s, events[0]) && events[0] != Stop(i)
            && SteadyRun(Apply(s, events[0]), events[1..], s', i, period)
  }

  /** An answer on its way to the holder of the lease says that it leads. */
  ghost predicate HolderIsTold(s: System) {
    s.lease.Some? && s.lease.value.holder in s.nodes && s.nodes[s.lease.value.holder].reply.Some? ==>
      s.nodes[s.lease.value.holder].reply.value.0
  }

  lemma {:induction false} RunKeepsTold(s: System, events: seq<Event>, s': System)
    requires Runs(s, events, s') && HolderIsTold(s)
    ensures HolderIsTold(s')
    decreases |events|
  {
    if events != [] {
      assert HolderIsTold(Apply(s, events[0]));
      RunKeepsTold(Apply(s, events[0]), events[1..], s');
    }
  }

  ghost predicate HoldsAndLeads(s: System, i: int) {
    s.lease.Some? && s.lease.value.holder == i && Leads(s, i)
  }

  lemma {:induction false} SteadyHolderStays(s: System, events: seq<Event>, s': System, i: int, period: real)
    requires LeaseInvariant(s) && HolderRenews(s) && HolderIsTold(s)
    requires HoldsAndLeads(s, i) && SteadyRun(s, events, s', i, period) && period < 30.0
    ensures LeaseInvariant(s') && HoldsAndLeads(s', i) && s'.now < s'.lease.value.expiry
    decreases |events|
  {
    if events != [] {
      var next := Apply(s, events[0]);
      assert HolderIsTold(next) && HoldsAndLeads(next, i);
      StepKeepsLease(s, events[0]);
      StepKeepsNodes(s, events[0]);
      StepKeepsRenewal(s, events[0]);
      SteadyHolderStays(next, events[1..], s', i, period);
    }
  }

  /** A leader that holds the lease keeps both, whatever the others ask, while its completed polls are
      less than the term of 30 s apart: asking every 10 s, it may lose two answers in a row. Its
      scheduler runs on and no other instance's poll is granted. */
  lemma SteadyLeaderKeepsLeading(s: System, events: seq<Event>, s': System, i: int, period: real)
    requires Reachable(s) && HoldsAndLeads(s, i)
    requires SteadyRun(s, events, s', i, period) && period < 30.0
    ensures HoldsAndLeads(s', i) && s'.nodes[i].resumed
    ensures forall j | j != i :: !Grants(s'.lease, j, s'.now)
  {
    var before :| Runs(INITIAL, before, s);
    RunKeepsInvariant(INITIAL, before, s);
    RunKeepsTold(INITIAL, before, s);
    ReachableRenewal(s);
    SteadyHolderStays(s, events, s', i, period);
  }

  // ---- What a poll does ----

  /** A live instance without an answer on its way can always poll. It wins exactly when the lease is
      free, expired or its own; the lease is then its own for 30 s from now, and its scheduler runs
      exactly if it won. A lost answer leaves the instance as it was, though the lease may be its own. */
  lemma PollExactly(s: System, id: int)
    requires Reachable(s) && id in s.nodes && s.nodes[id].alive && s.nodes[id].reply == None
    ensures Enabled(s, Ask(id)) && Enabled(Apply(s, Ask(id)), Arrive(id)) && Enabled(Apply(s, Ask(id)), Fail(id))
    ensures var wins := s.lease.None? || s.lease.value.expiry <= s.now || s.lease.value.holder == id;
            var answered := Apply(Apply(s, Ask(id)), Arrive(id));
            var lost := Apply(Apply(s, Ask(id)), Fail(id));
            && answered.lease == lost.lease == (if wins then Some(Lease(id, s.now + 30.0)) else s.lease)
            && answered.nodes == s.nodes[id := Node(true, wins, wins, None, Some(s.now))]
            && lost.nodes == s.nodes
            && answered.now == lost.now == s.now
  {
    ReachableInvariant(s);
  }

  /** Time passes by any amount; a live instance can stop at any time, and starts again as a standby that
      has never polled. Neither touches the lease or another instance. */
  lemma RestartForgets(s: System, id: int, seconds: real)
    requires id in s.nodes && s.nodes[id].alive && seconds >= 0.0
    ensures Enabled(s, Stop(id)) && Enabled(Apply(s, Stop(id)), Tick(seconds))
    ensures var down := Apply(Apply(s, Stop(id)), Tick(seconds));
            && !Leads(down, id) && Enabled(down, Start(id))
            && Apply(down, Start(id)) ==
                 System(s.now + seconds, s.lease, s.nodes[id := Node(true, false, false, None, None)], s.grants)
  {
  }
}
