/** One cycle of the integration collector (backend/scheduler.py, run_integration_checks): of the
    members of a cluster group, one writes the data and the others record that they stand by. */
module ClusterPrimary {

  /** How polling one configuration goes. Skipped: gone, disabled, or not due. Unreadable: its stored
      configuration does not decrypt. Raised: any other exception. clusterName is "" when none was
      reported. */
  datatype Attempt = Skipped | Unreadable | Raised | Failed | Collected(clusterName: string)

  datatype RowKind = Data | Standby | Failure

  datatype Row = Row(configId: int, kind: RowKind)

  /** A configuration as the job first reads it: its id and integration type. */
  datatype Config = Config(id: int, kind: string)

  /** group: the cluster_group column, "" when unset. owners: the groups written in this cycle. */
  datatype JobState = JobState(group: map<int, string>, owners: set<(string, string)>, rows: seq<Row>)

  function GroupOf(group: map<int, string>, id: int): string {
    if id in group then group[id] else ""
  }

  /** The group after a poll: Proxmox fills in a missing one from the cluster's own name. */
  function GroupAfter(kind: string, group: string, a: Attempt): string {
    if a.Collected? && kind == "proxmox" && group == "" && a.clusterName != "" then a.clusterName else group
  }

  function CheckOne(s: JobState, c: Config, a: Attempt): JobState {
    match a
    case Skipped => s
    case Unreadable => s.(rows := s.rows + [Row(c.id, Failure)])
    case Raised => s.(rows := s.rows + [Row(c.id, Failure)])
    case Failed => s.(rows := s.rows + [Row(c.id, Failure)])
    case Collected(_) =>
      var g := GroupAfter(c.kind, GroupOf(s.group, c.id), a);
      var group := if g != GroupOf(s.group, c.id) then s.group[c.id := g] else s.group;
      if g == "" then JobState(group, s.owners, s.rows + [Row(c.id, Data)])
      else if (c.kind, g) in s.owners then JobState(group, s.owners, s.rows + [Row(c.id, Standby)])
      else JobState(group, s.owners + {(c.kind, g)}, s.rows + [Row(c.id, Data)])
  }

  function AttemptAt(attempts: map<int, Attempt>, id: int): Attempt {
    if id in attempts then attempts[id] else Skipped
  }

  function CheckAll(s: JobState, order: seq<Config>, attempts: map<int, Attempt>): JobState {
    if order == [] then s else
    var n := |order| - 1;
    CheckOne(CheckAll(s, order[..n], attempts), order[n], AttemptAt(attempts, order[n].id))
  }

  // ---- The order in which the job visits the configurations ----

  function IdsOf(configs: seq<Config>, kind: string): seq<int> {
    if configs == [] then [] else
    var n := |configs| - 1;
    IdsOf(configs[..n], kind) + if configs[n].kind == kind then [configs[n].id] else []
  }

  /** The types in the order of their first configuration. */
  function KindsOf(configs: seq<Config>): (kinds: seq<string>)
    ensures forall kind :: kind in kinds <==> exists c :: c in configs && c.kind == kind
    ensures forall i, j | 0 <= i < j < |kinds| :: kinds[i] != kinds[j]
  {
    if configs == [] then [] else
    var n := |configs| - 1;
    var earlier := KindsOf(configs[..n]);
    assert configs == configs[..n] + [configs[n]];
    if configs[n].kind in earlier then earlier else earlier + [configs[n].kind]
  }

  function Tagged(ids: seq<int>, kind: string): seq<Config> {
    seq(|ids|, i requires 0 <= i < |ids| => Config(ids[i], kind))
  }

  function Visits(kinds: seq<string>, configs: seq<Config>, registry: set<string>): seq<Config> {
    if kinds == [] then [] else
    var n := |kinds| - 1;
    Visits(kinds[..n], configs, registry)
    + if kinds[n] in registry then Tagged(IdsOf(configs, kinds[n]), kinds[n]) else []
  }

  // ---- The job ----

  class CollectorJob {
    var group: map<int, string>
    var owners: set<(string, string)>
    var rows: seq<Row>

    constructor (group: map<int, string>)
      ensures View() == JobState(group, {}, [])
    {
      this.group, owners, rows := group, {}, [];
    }

    function View(): JobState
      reads this
    {
      JobState(group, owners, rows)
    }

    method CheckConfig(c: Config, a: Attempt)
      modifies this
      ensures View() == CheckOne(old(View()), c, a)
    {
      match a {
        case Skipped =>
        case Unreadable => rows := rows + [Row(c.id, Failure)];
        case Raised => rows := rows + [Row(c.id, Failure)];
        case Failed => rows := rows + [Row(c.id, Failure)];
        case Collected(clusterName) =>
          if c.kind == "proxmox" && GroupOf(group, c.id) == "" && clusterName != "" {
            group := group[c.id := clusterName];
          }
          var g := GroupOf(group, c.id);
          var isStandby := g != "" && (c.kind, g) in owners;
          if isStandby {
            rows := rows + [Row(c.id, Standby)];
          } else {
            if g != "" {
              owners := owners + {(c.kind, g)};
            }
            rows := rows + [Row(c.id, Data)];
          }
      }
    }

    /** The loop over the configurations of one type. */
    method CheckKind(kind: string, ids: seq<int>, attempts: map<int, Attempt>,
                     ghost start: JobState, ghost before: seq<Config>)
      requires View() == CheckAll(start, before, attempts)
      modifies this
      ensures View() == CheckAll(start, before + Tagged(ids, kind), attempts)
    {
      hide CheckOne;
      assert before + Tagged([], kind) == before;
      assert ids[..0] == [];
      for j := 0 to |ids|
        invariant View() == CheckAll(start, before + Tagged(ids[..j], kind), attempts)
      {
        var c := Config(ids[j], kind);
        assert before + Tagged(ids[..j + 1], kind) == before + Tagged(ids[..j], kind) + [c];
        CheckAllGrows(start, before + Tagged(ids[..j], kind), c, attempts);
        CheckConfig(c, AttemptAt(attempts, ids[j]));
      }
      assert ids[..|ids|] == ids;
    }

    method RunChecks(configs: seq<Config>, registry: set<string>, attempts: map<int, Attempt>)
      modifies this
      ensures View() == CheckAll(old(View()).(owners := {}), Visits(KindsOf(configs), configs, registry), attempts)
    {
      hide CheckAll, IdsOf, KindsOf;
      owners := {};
      ghost var start := View();
      var kinds, byKind := GroupByKind(configs);
      assert kinds[..0] == [];
      assert CheckAll(start, [], attempts) == start by { CheckAllOfNone(start, attempts); }
      for i := 0 to |kinds|
        invariant View() == CheckAll(start, Visits(kinds[..i], configs, registry), attempts)
      {
        var kind := kinds[i];
        assert kinds[..i + 1][..i] == kinds[..i];
        ghost var before := Visits(kinds[..i], configs, registry);
        assert before + [] == before;
        if kind in registry {
          CheckKind(kind, byKind[kind], attempts, start, before);
        }
      }
      assert kinds[..|kinds|] == kinds;
    }
  }

  lemma CheckAllOfNone(s: JobState, attempts: map<int, Attempt>)
    ensures CheckAll(s, [], attempts) == s
  {
  }

  lemma CheckAllGrows(s: JobState, order: seq<Config>, c: Config, attempts: map<int, Attempt>)
    ensures CheckAll(s, order + [c], attempts) == CheckOne(CheckAll(s, order, attempts), c, AttemptAt(attempts, c.id))
  {
    assert (order + [c])[..|order|] == order;
  }

  lemma KindsOfNone(configs: seq<Config>)
    ensures KindsOf(configs[..0]) == [] && forall kind :: IdsOf(configs[..0], kind) == []
  {
  }

  lemma KindsOneMore(configs: seq<Config>, i: nat)
    requires i < |configs|
    ensures var c, earlier := configs[i], KindsOf(configs[..i]);
            && KindsOf(configs[..i + 1]) == (if c.kind in earlier then earlier else earlier + [c.kind])
            && forall kind :: IdsOf(configs[..i + 1], kind)
                           == IdsOf(configs[..i], kind) + if c.kind == kind then [c.id] else []
  {
    assert configs[..i + 1][..i] == configs[..i];
  }

  method GroupByKind(configs: seq<Config>) returns (kinds: seq<string>, byKind: map<string, seq<int>>)
    ensures kinds == KindsOf(configs)
    ensures forall kind | kind in kinds :: kind in byKind && byKind[kind] == IdsOf(configs, kind)
  {
    hide KindsOf, IdsOf;
    kinds, byKind := [], map[];
    KindsOfNone(configs);
    for i := 0 to |configs|
      invariant kinds == KindsOf(configs[..i])
      invariant forall kind :: kind in kinds <==> kind in byKind
      invariant forall kind | kind in byKind :: byKind[kind] == IdsOf(configs[..i], kind)
      invariant forall kind | kind !in byKind :: IdsOf(configs[..i], kind) == []
    {
      var c := configs[i];
      KindsOneMore(configs, i);
      if c.kind !in byKind {
        kinds := kinds + [c.kind];
        byKind := byKind[c.kind := []];
      }
      byKind := byKind[c.kind := byKind[c.kind] + [c.id]];
    }
    assert configs[..|configs|] == configs;
  }

  // ---- What a cycle writes for each configuration ----

  /** The kinds of the rows written for a configuration, in order. */
  ghost function Of(rows: seq<Row>, id: int): seq<RowKind> {
    if rows == [] then [] else
    var n := |rows| - 1;
    Of(rows[..n], id) + if rows[n].configId == id then [rows[n].kind] else []
  }

  ghost function Effective(group: map<int, string>, c: Config, attempts: map<int, Attempt>): string {
    GroupAfter(c.kind, GroupOf(group, c.id), AttemptAt(attempts, c.id))
  }

  /** c was collected as a member of the group g of its type. */
  ghost predicate Member(group: map<int, string>, attempts: map<int, Attempt>, c: Config, kind: string, g: string) {
    c.kind == kind && AttemptAt(attempts, c.id).Collected? && Effective(group, c, attempts) == g
  }

  /** The rows due for c when a member of its group has, or has not, been collected before it. */
  ghost function Due(group: map<int, string>, attempts: map<int, Attempt>, c: Config, preceded: bool): seq<RowKind> {
    match AttemptAt(attempts, c.id)
    case Skipped => []
    case Collected(_) => if Effective(group, c, attempts) != "" && preceded then [Standby] else [Data]
    case _ => [Failure]
  }

  ghost predicate PrecededIn(group: map<int, string>, attempts: map<int, Attempt>, earlier: seq<Config>, c: Config) {
    exists b :: b in earlier && Member(group, attempts, b, c.kind, Effective(group, c, attempts))
  }

  ghost predicate Visited(order: seq<Config>, id: int) {
    exists c :: c in order && c.id == id
  }

  /** The state after the visits in order, against the start of the cycle. */
  ghost predicate RowsAreDue(group: map<int, string>, attempts: map<int, Attempt>, order: seq<Config>, s: JobState) {
    forall i | 0 <= i < |order| ::
      Of(s.rows, order[i].id) == Due(group, attempts, order[i], PrecededIn(group, attempts, order[..i], order[i]))
  }

  ghost predicate OthersUntouched(group: map<int, string>, order: seq<Config>, s: JobState) {
    forall id | !Visited(order, id) :: Of(s.rows, id) == [] && GroupOf(s.group, id) == GroupOf(group, id)
  }

  ghost predicate OwnersAreMembers(group: map<int, string>, attempts: map<int, Attempt>, order: seq<Config>,
                                   s: JobState)
  {
    forall kind, g :: (kind, g) in s.owners <==>
      g != "" && exists c :: c in order && Member(group, attempts, c, kind, g)
  }

  ghost predicate CycleInvariant(group: map<int, string>, attempts: map<int, Attempt>, order: seq<Config>,
                                 s: JobState)
  {
    && RowsAreDue(group, attempts, order, s) && OthersUntouched(group, order, s)
    && OwnersAreMembers(group, attempts, order, s)
  }

  ghost predicate DistinctIds(order: seq<Config>) {
    forall i, j | 0 <= i < j < |order| :: order[i].id != order[j].id
  }

  lemma OfGrows(rows: seq<Row>, r: Row, id: int)
    ensures Of(rows + [r], id) == Of(rows, id) + if r.configId == id then [r.kind] else []
  {
    assert (rows + [r])[..|rows|] == rows;
  }

  /** What one visit does, in terms of the group g that c ends up in. */
  lemma CheckOneWrites(s: JobState, c: Config, a: Attempt)
    ensures var s' := CheckOne(s, c, a);
            var g := GroupAfter(c.kind, GroupOf(s.group, c.id), a);
            var due := if a.Skipped? then [] else if !a.Collected? then [Failure]
                       else if g != "" && (c.kind, g) in s.owners then [Standby] else [Data];
            && Of(s'.rows, c.id) == Of(s.rows, c.id) + due
            && (forall id | id != c.id ::
                  Of(s'.rows, id) == Of(s.rows, id) && GroupOf(s'.group, id) == GroupOf(s.group, id))
            && s'.owners == (if a.Collected? && g != "" then s.owners + {(c.kind, g)} else s.owners)
  {
    var s' := CheckOne(s, c, a);
    assert Of(s.rows, c.id) + [] == Of(s.rows, c.id);
    if !a.Skipped? {
      var r := s'.rows[|s'.rows| - 1];
      assert s'.rows == s.rows + [r];
      forall id ensures Of(s'.rows, id) == Of(s.rows, id) + if r.configId == id then [r.kind] else [] {
        OfGrows(s.rows, r, id);
      }
    }
  }

  lemma CycleStep(group: map<int, string>, attempts: map<int, Attempt>, order: seq<Config>, s: JobState, c: Config)
    requires CycleInvariant(group, attempts, order, s)
    requires !Visited(order, c.id)
    ensures CycleInvariant(group, attempts, order + [c], CheckOne(s, c, AttemptAt(attempts, c.id)))
  {
    hide CheckOne, Of;
    CheckOneWrites(s, c, AttemptAt(attempts, c.id));
    var s' := CheckOne(s, c, AttemptAt(attempts, c.id));
    RowsStep(group, attempts, order, s, s', c);
    VisitedGrows(order, c);
    assert OthersUntouched(group, order + [c], s');
    OwnersStep(group, attempts, order, s, s', c);
  }

  lemma VisitedGrows(order: seq<Config>, c: Config)
    ensures forall id :: Visited(order + [c], id) <==> Visited(order, id) || id == c.id
  {
    assert forall b :: b in order + [c] <==> b in order || b == c;
    forall id | Visited(order, id) ensures Visited(order + [c], id) {
      var b :| b in order && b.id == id;
      assert b in order + [c];
    }
    assert c in order + [c];
  }

  lemma RowsStep(group: map<int, string>, attempts: map<int, Attempt>, order: seq<Config>,
                 s: JobState, s': JobState, c: Config)
    requires CycleInvariant(group, attempts, order, s)
    requires !Visited(order, c.id)
    requires var a := AttemptAt(attempts, c.id);
             var g := GroupAfter(c.kind, GroupOf(s.group, c.id), a);
             && Of(s'.rows, c.id) == Of(s.rows, c.id)
                  + (if a.Skipped? then [] else if !a.Collected? then [Failure]
                     else if g != "" && (c.kind, g) in s.owners then [Standby] else [Data])
             && forall id | id != c.id :: Of(s'.rows, id) == Of(s.rows, id)
    ensures RowsAreDue(group, attempts, order + [c], s')
  {
    hide Of, GroupAfter, Member;
    var order' := order + [c];
    forall i | 0 <= i < |order'|
      ensures Of(s'.rows, order'[i].id)
           == Due(group, attempts, order'[i], PrecededIn(group, attempts, order'[..i], order'[i]))
    {
      assert order'[..i] == order[..i];
      if i < |order| {
        assert order[i] in order;
      } else {
        assert order[..i] == order;
      }
    }
  }

  lemma OwnersStep(group: map<int, string>, attempts: map<int, Attempt>, order: seq<Config>,
                   s: JobState, s': JobState, c: Config)
    requires OwnersAreMembers(group, attempts, order, s)
    requires GroupOf(s.group, c.id) == GroupOf(group, c.id)
    requires var a := AttemptAt(attempts, c.id);
             var g := GroupAfter(c.kind, GroupOf(s.group, c.id), a);
             s'.owners == if a.Collected? && g != "" then s.owners + {(c.kind, g)} else s.owners
    ensures OwnersAreMembers(group, attempts, order + [c], s')
  {
    hide GroupAfter;
    forall kind, g
      ensures (kind, g) in s'.owners <==> g != "" && exists b :: b in order + [c] && Member(group, attempts, b, kind, g)
    {
      MembersGrow(group, attempts, order, c, kind, g);
    }
  }

  lemma MembersGrow(group: map<int, string>, attempts: map<int, Attempt>, order: seq<Config>, c: Config,
                    kind: string, g: string)
    ensures (exists b :: b in order + [c] && Member(group, attempts, b, kind, g)) <==>
              (exists b :: b in order && Member(group, attempts, b, kind, g)) || Member(group, attempts, c, kind, g)
  {
    hide Member;
    assert forall b :: b in order + [c] <==> b in order || b == c;
  }

  lemma {:induction false} CheckAllInvariant(group: map<int, string>, attempts: map<int, Attempt>, order: seq<Config>)
    requires DistinctIds(order)
    ensures CycleInvariant(group, attempts, order, CheckAll(JobState(group, {}, []), order, attempts))
  {
    if order != [] {
      hide CycleInvariant, CheckOne;
      var n := |order| - 1;
      CheckAllInvariant(group, attempts, order[..n]);
      assert !Visited(order[..n], order[n].id);
      CycleStep(group, attempts, order[..n], CheckAll(JobState(group, {}, []), order[..n], attempts), order[n]);
      assert order == order[..n] + [order[n]];
    }
  }

  // ---- The order of the visits ----

  /** Configurations as the database returns them: by rising id. */
  ghost predicate Ascending(configs: seq<Config>) {
    forall i, j | 0 <= i < j < |configs| :: configs[i].id < configs[j].id
  }

  lemma {:induction false} IdsOfAscend(configs: seq<Config>, kind: string)
    requires Ascending(configs)
    ensures forall i, j | 0 <= i < j < |IdsOf(configs, kind)| :: IdsOf(configs, kind)[i] < IdsOf(configs, kind)[j]
    ensures forall id :: id in IdsOf(configs, kind) <==> Config(id, kind) in configs
  {
    if configs != [] {
      var n := |configs| - 1;
      IdsOfAscend(configs[..n], kind);
      assert configs == configs[..n] + [configs[n]];
      var before := IdsOf(configs[..n], kind);
      forall k | 0 <= k < |before| ensures before[k] < configs[n].id {
        assert before[k] in before;
        var i :| 0 <= i < n && configs[..n][i] == Config(before[k], kind);
        assert configs[i] == Config(before[k], kind);
      }
    }
  }

  /** Members of one type are visited by rising id. */
  ghost predicate AscendsByKind(order: seq<Config>) {
    forall i, j | 0 <= i < j < |order| && order[i].kind == order[j].kind :: order[i].id < order[j].id
  }

  lemma SameIdSameConfig(configs: seq<Config>, b: Config, c: Config)
    requires Ascending(configs) && b in configs && c in configs && b.id == c.id
    ensures b == c
  {
    var i :| 0 <= i < |configs| && configs[i] == b;
    var j :| 0 <= j < |configs| && configs[j] == c;
  }

  lemma {:induction false} VisitsAreSound(kinds: seq<string>, configs: seq<Config>, registry: set<string>)
    requires Ascending(configs)
    requires forall i, j | 0 <= i < j < |kinds| :: kinds[i] != kinds[j]
    ensures forall c :: c in Visits(kinds, configs, registry) <==>
              c in configs && c.kind in kinds && c.kind in registry
    ensures AscendsByKind(Visits(kinds, configs, registry))
  {
    if kinds != [] {
      var n := |kinds| - 1;
      var kind := kinds[n];
      VisitsAreSound(kinds[..n], configs, registry);
      assert kinds == kinds[..n] + [kind];
      var before := Visits(kinds[..n], configs, registry);
      assert forall k :: k in kinds <==> k in kinds[..n] || k == kind;
      if kind in registry {
        var ids := IdsOf(configs, kind);
        IdsOfAscend(configs, kind);
        var batch := Tagged(ids, kind);
        forall c ensures c in batch <==> c in configs && c.kind == kind {
          if c in configs && c.kind == kind {
            assert c.id in ids;
            var i :| 0 <= i < |ids| && ids[i] == c.id;
            assert batch[i] == c;
          }
        }
        forall i | 0 <= i < |before| ensures before[i].kind != kind {
          assert before[i] in before;
        }
        AppendAscends(before, batch, kind);
      }
    }
  }

  lemma AppendAscends(before: seq<Config>, batch: seq<Config>, kind: string)
    requires AscendsByKind(before)
    requires forall i | 0 <= i < |before| :: before[i].kind != kind
    requires forall i | 0 <= i < |batch| :: batch[i].kind == kind
    requires forall i, j | 0 <= i < j < |batch| :: batch[i].id < batch[j].id
    ensures AscendsByKind(before + batch)
  {
  }

  lemma VisitsAreDistinct(configs: seq<Config>, order: seq<Config>)
    requires Ascending(configs) && AscendsByKind(order) && forall c | c in order :: c in configs
    ensures DistinctIds(order)
  {
    forall i, j | 0 <= i < j < |order| ensures order[i].id != order[j].id {
      assert order[i] in order && order[j] in order;
      if order[i].id == order[j].id {
        SameIdSameConfig(configs, order[i], order[j]);
        assert false;
      }
    }
  }

  /** Some configuration with a lower id was collected as a member of c's group. */
  ghost predicate LowerMember(group: map<int, string>, attempts: map<int, Attempt>, configs: seq<Config>, c: Config) {
    exists b :: b in configs && b.id < c.id && Member(group, attempts, b, c.kind, Effective(group, c, attempts))
  }

  ghost function Cycle(configs: seq<Config>, registry: set<string>, attempts: map<int, Attempt>,
                       group: map<int, string>): JobState
  {
    CheckAll(JobState(group, {}, []), Visits(KindsOf(configs), configs, registry), attempts)
  }

  /** In one cycle every configuration of a known type that was polled, or could not be decrypted, gets
      exactly one row: a failure, the data, or the standby marker when a member of its group with a
      lower id was collected. */
  lemma EachConfigGetsItsRow(configs: seq<Config>, registry: set<string>, attempts: map<int, Attempt>,
                             group: map<int, string>, c: Config)
    requires Ascending(configs) && c in configs
    ensures Of(Cycle(configs, registry, attempts, group).rows, c.id) ==
              if c.kind in registry then Due(group, attempts, c, LowerMember(group, attempts, configs, c)) else []
  {
    hide Of, Due, Member, Effective, CheckAll, Visits;
    var order := Visits(KindsOf(configs), configs, registry);
    VisitsAreSound(KindsOf(configs), configs, registry);
    VisitsAreDistinct(configs, order);
    CheckAllInvariant(group, attempts, order);
    if c.kind in registry {
      assert c in order;
      var i :| 0 <= i < |order| && order[i] == c;
      PrecededMeansLower(group, attempts, configs, registry, order, i);
    } else {
      forall b | b in order ensures b.id != c.id {
        if b.id == c.id { SameIdSameConfig(configs, b, c); }
      }
      assert !Visited(order, c.id);
    }
  }

  lemma PrecededMeansLower(group: map<int, string>, attempts: map<int, Attempt>, configs: seq<Config>,
                           registry: set<string>, order: seq<Config>, i: nat)
    requires AscendsByKind(order) && i < |order|
    requires forall c :: c in order <==> c in configs && c.kind in registry
    ensures PrecededIn(group, attempts, order[..i], order[i]) <==> LowerMember(group, attempts, configs, order[i])
  {
    hide Effective;
    var c := order[i];
    var g := Effective(group, c, attempts);
    assert c in order;
    forall b | b in order[..i] && Member(group, attempts, b, c.kind, g) ensures b in configs && b.id < c.id {
      var j :| 0 <= j < i && order[..i][j] == b;
      assert order[j] == b && b in order;
    }
    forall b | b in configs && b.id < c.id && Member(group, attempts, b, c.kind, g) ensures b in order[..i] {
      assert b in order;
      var j :| 0 <= j < |order| && order[j] == b;
      assert order[..i][j] == b;
    }
  }

  /** Every group with a collected member has one primary: its collected member with the lowest id
      writes the data, and all the other collected members write the standby marker. */
  lemma OnePrimaryPerGroup(configs: seq<Config>, registry: set<string>, attempts: map<int, Attempt>,
                           group: map<int, string>, kind: string, g: string) returns (p: Config)
    requires Ascending(configs) && kind in registry && g != ""
    requires exists c :: c in configs && Member(group, attempts, c, kind, g)
    ensures p in configs && Member(group, attempts, p, kind, g)
    ensures Of(Cycle(configs, registry, attempts, group).rows, p.id) == [Data]
    ensures forall c | c in configs && Member(group, attempts, c, kind, g) && c != p ::
              c.id > p.id && Of(Cycle(configs, registry, attempts, group).rows, c.id) == [Standby]
  {
    hide Of, Cycle;
    var some :| some in configs && Member(group, attempts, some, kind, g);
    p := LowestMember(configs, attempts, group, kind, g, some);
    EachConfigGetsItsRow(configs, registry, attempts, group, p);
    forall c | c in configs && Member(group, attempts, c, kind, g) && c != p
      ensures c.id > p.id && Of(Cycle(configs, registry, attempts, group).rows, c.id) == [Standby]
    {
      if c.id == p.id { SameIdSameConfig(configs, c, p); }
      EachConfigGetsItsRow(configs, registry, attempts, group, c);
    }
  }

  lemma LowestMember(configs: seq<Config>, attempts: map<int, Attempt>, group: map<int, string>,
                     kind: string, g: string, some: Config) returns (p: Config)
    requires some in configs && Member(group, attempts, some, kind, g)
    ensures p in configs && Member(group, attempts, p, kind, g)
    ensures forall c | c in configs && Member(group, attempts, c, kind, g) :: p.id <= c.id
  {
    hide Member;
    p := some;
    var i := 0;
    while i < |configs|
      invariant 0 <= i <= |configs|
      invariant p in configs && Member(group, attempts, p, kind, g)
      invariant forall j | 0 <= j < i && Member(group, attempts, configs[j], kind, g) :: p.id <= configs[j].id
    {
      if Member(group, attempts, configs[i], kind, g) && configs[i].id < p.id {
        p := configs[i];
      }
      i := i + 1;
    }
  }

  // ---- The same in terms of the stored groups and the reported cluster names ----

  /** c was collected and belongs to the named group g: by the group stored for it, or, for Proxmox without
      one, by the cluster name it reported. */
  ghost predicate InGroup(group: map<int, string>, attempts: map<int, Attempt>, c: Config, g: string) {
    && g != ""
    && c.id in attempts && attempts[c.id].Collected?
    && (|| (c.id in group && group[c.id] == g)
        || ((c.id !in group || group[c.id] == "") && c.kind == "proxmox" && attempts[c.id].clusterName == g))
  }

  lemma MemberIsInGroup(group: map<int, string>, attempts: map<int, Attempt>, c: Config, kind: string, g: string)
    requires g != ""
    ensures Member(group, attempts, c, kind, g) <==> c.kind == kind && InGroup(group, attempts, c, g)
  {
  }

  /** A member of its group with a lower id was collected. */
  ghost predicate Follows(group: map<int, string>, attempts: map<int, Attempt>, configs: seq<Config>, c: Config) {
    exists b, g: string :: b in configs && b.id < c.id && b.kind == c.kind
                           && InGroup(group, attempts, b, g) && InGroup(group, attempts, c, g)
  }

  lemma LowerMemberFollows(group: map<int, string>, attempts: map<int, Attempt>, configs: seq<Config>, c: Config)
    requires c.id in attempts && attempts[c.id].Collected?
    ensures Follows(group, attempts, configs, c) <==>
              Effective(group, c, attempts) != "" && LowerMember(group, attempts, configs, c)
  {
    hide Member, InGroup;
    var e := Effective(group, c, attempts);
    if e != "" {
      EffectiveIsInGroup(group, attempts, c);
      if b :| b in configs && b.id < c.id && Member(group, attempts, b, c.kind, e) {
        MemberIsInGroup(group, attempts, b, c.kind, e);
        assert InGroup(group, attempts, b, e) && InGroup(group, attempts, c, e);
      }
    }
    if b, g: string :| b in configs && b.id < c.id && b.kind == c.kind
                       && InGroup(group, attempts, b, g) && InGroup(group, attempts, c, g) {
      InGroupIsEffective(group, attempts, c, g);
      MemberIsInGroup(group, attempts, b, c.kind, g);
    }
  }

  lemma EffectiveIsInGroup(group: map<int, string>, attempts: map<int, Attempt>, c: Config)
    requires c.id in attempts && attempts[c.id].Collected? && Effective(group, c, attempts) != ""
    ensures InGroup(group, attempts, c, Effective(group, c, attempts))
  {
  }

  lemma InGroupIsEffective(group: map<int, string>, attempts: map<int, Attempt>, c: Config, g: string)
    requires InGroup(group, attempts, c, g)
    ensures g != "" && Effective(group, c, attempts) == g
  {
  }

  /** The rows of one cycle: one failure for a poll that failed or a configuration that does not decrypt; for
      a collected one the standby marker exactly when a member of its group with a lower id was collected,
      and else the data; nothing for the rest. */
  lemma RowsExactly(configs: seq<Config>, registry: set<string>, attempts: map<int, Attempt>,
                    group: map<int, string>, c: Config)
    requires Ascending(configs) && c in configs
    ensures Of(Cycle(configs, registry, attempts, group).rows, c.id) ==
              if c.kind !in registry || c.id !in attempts || attempts[c.id] == Skipped then []
              else if attempts[c.id] in {Unreadable, Raised, Failed} then [Failure]
              else if Follows(group, attempts, configs, c) then [Standby]
              else [Data]
  {
    hide Of, Cycle, LowerMember, Follows, Effective;
    EachConfigGetsItsRow(configs, registry, attempts, group, c);
    if c.id in attempts && attempts[c.id].Collected? {
      LowerMemberFollows(group, attempts, configs, c);
    }
  }

  /** Two Proxmox nodes without a stored group that report the same cluster: the one with the lower id
      writes the data, unless a still lower member of that group was collected, and the other stands by. */
  lemma TwoNodesOfOneCluster(configs: seq<Config>, registry: set<string>, attempts: map<int, Attempt>,
                             group: map<int, string>, b: Config, c: Config, name: string)
    requires Ascending(configs) && b in configs && c in configs && b.id < c.id
    requires b.kind == "proxmox" && c.kind == "proxmox" && "proxmox" in registry && name != ""
    requires b.id !in group && c.id !in group
    requires b.id in attempts && attempts[b.id] == Collected(name)
    requires c.id in attempts && attempts[c.id] == Collected(name)
    requires forall a | a in configs && a.id < b.id && a.kind == "proxmox" :: !InGroup(group, attempts, a, name)
    ensures Of(Cycle(configs, registry, attempts, group).rows, b.id) == [Data]
    ensures Of(Cycle(configs, registry, attempts, group).rows, c.id) == [Standby]
  {
    hide Of, Cycle;
    RowsExactly(configs, registry, attempts, group, b);
    RowsExactly(configs, registry, attempts, group, c);
    assert InGroup(group, attempts, b, name) && InGroup(group, attempts, c, name);
  }

  /** Without a stored group, other types and nodes that report no cluster name never stand by. */
  lemma UngroupedWritesItsData(configs: seq<Config>, registry: set<string>, attempts: map<int, Attempt>,
                               group: map<int, string>, c: Config, name: string)
    requires Ascending(configs) && c in configs && c.kind in registry
    requires c.id !in group && c.id in attempts && attempts[c.id] == Collected(name)
    requires c.kind != "proxmox" || name == ""
    ensures Of(Cycle(configs, registry, attempts, group).rows, c.id) == [Data]
  {
    hide Of, Cycle;
    RowsExactly(configs, registry, attempts, group, c);
  }

  lemma CheckOneGroups(s: JobState, c: Config, a: Attempt)
    ensures var before := GroupOf(s.group, c.id);
            GroupOf(CheckOne(s, c, a).group, c.id) ==
              if a.Collected? && before == "" && c.kind == "proxmox" then a.clusterName else before
    ensures forall id | id != c.id :: GroupOf(CheckOne(s, c, a).group, id) == GroupOf(s.group, id)
  {
  }

  lemma {:induction false} CheckAllGroups(s: JobState, order: seq<Config>, attempts: map<int, Attempt>, c: Config)
    requires DistinctIds(order)
    ensures var before := GroupOf(s.group, c.id);
            var after := GroupOf(CheckAll(s, order, attempts).group, c.id);
            if c in order && c.id in attempts && attempts[c.id].Collected? && before == "" && c.kind == "proxmox"
            then after == attempts[c.id].clusterName
            else (c in order || !Visited(order, c.id)) ==> after == before
  {
    if order != [] {
      hide CheckOne;
      var n := |order| - 1;
      CheckAllGroups(s, order[..n], attempts, c);
      CheckOneGroups(CheckAll(s, order[..n], attempts), order[n], AttemptAt(attempts, order[n].id));
      assert order == order[..n] + [order[n]];
      assert order[n] in order;
      assert forall b | b in order[..n] :: b in order && b.id != order[n].id;
    }
  }

  /** The stored groups after one cycle: a collected Proxmox node without one has the cluster name it
      reported, and every other configuration has what it had. */
  lemma GroupsExactly(configs: seq<Config>, registry: set<string>, attempts: map<int, Attempt>,
                      group: map<int, string>, c: Config)
    requires Ascending(configs) && c in configs
    ensures GroupOf(Cycle(configs, registry, attempts, group).group, c.id) ==
              if "proxmox" in registry && c.kind == "proxmox" && (c.id !in group || group[c.id] == "")
                 && c.id in attempts && attempts[c.id].Collected?
              then attempts[c.id].clusterName
              else if c.id in group then group[c.id] else ""
  {
    hide CheckAll, Visits;
    var order := Visits(KindsOf(configs), configs, registry);
    VisitsAreSound(KindsOf(configs), configs, registry);
    VisitsAreDistinct(configs, order);
    CheckAllGroups(JobState(group, {}, []), order, attempts, c);
    if c.kind !in registry {
      forall b | b in order ensures b.id != c.id {
        if b.id == c.id { SameIdSameConfig(configs, b, c); }
      }
    }
  }
}
