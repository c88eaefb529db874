/** The database dumps kept by the self-update (sidecar/orchestrator.py): listing, pruning to the
    retention, and the backup step that adds one. */
module Backups {
  import opened Options

  const BACKUP_PREFIX := "pre-update-"
  const BACKUP_SUFFIX := ".dump.gz"

  /** A file of the backup directory. Asking for its mtime, or removing it, may fail. */
  datatype File = File(mtime: real, statable: bool, removable: bool)

  datatype Entry = Entry(name: string, mtime: real)

  predicate IsBackup(name: string) {
    && BACKUP_PREFIX <= name
    && |BACKUP_SUFFIX| <= |name| && name[|name| - |BACKUP_SUFFIX|..] == BACKUP_SUFFIX
  }

  // ---- Listing, newest first ----

  /** The dumps among the listed names, in the order listed. */
  function Dumps(files: map<string, File>, names: seq<string>): (entries: seq<Entry>) {
    if names == [] then [] else
    var rest := Dumps(files, names[1..]);
    var name := names[0];
    if IsBackup(name) && name in files && files[name].statable then [Entry(name, files[name].mtime)] + rest else rest
  }

  /** Into a list sorted by falling mtime, behind the entries of the same mtime. */
  function Insert(s: seq<Entry>, e: Entry): (t: seq<Entry>) {
    if s == [] || s[|s| - 1].mtime >= e.mtime then s + [e]
    else Insert(s[..|s| - 1], e) + [s[|s| - 1]]
  }

  /** Python's stable sort by mtime, reversed. */
  function NewestFirst(s: seq<Entry>): (t: seq<Entry>) {
    if s == [] then [] else Insert(NewestFirst(s[..|s| - 1]), s[|s| - 1])
  }

  /** Python's entries[r:], for any r. */
  function Tail(s: seq<Entry>, r: int): (t: seq<Entry>) {
    if r >= |s| then [] else if r >= 0 then s[r..] else if -r >= |s| then s else s[|s| + r..]
  }

  function Min(a: int, b: int): int {
    if a <= b then a else b
  }

  /** The listing shows each file once. */
  ghost predicate Lists(names: seq<string>, files: map<string, File>) {
    && (forall i, j | 0 <= i < j < |names| :: names[i] != names[j])
    && (forall name :: name in names <==> name in files)
  }

  function ListBackups(files: map<string, File>, listing: Option<seq<string>>): seq<Entry> {
    if listing.None? then [] else NewestFirst(Dumps(files, listing.value))
  }

  ghost function Names(s: seq<Entry>): set<string> {
    set e | e in s :: e.name
  }

  /** The files without those of the entries that can be removed. */
  function Without(files: map<string, File>, s: seq<Entry>): map<string, File> {
    map name | name in files && !(files[name].removable && exists e :: e in s && e.name == name) :: files[name]
  }

  function Prune(files: map<string, File>, retention: int, listing: Option<seq<string>>): map<string, File> {
    Without(files, Tail(ListBackups(files, listing), retention))
  }

  class BackupDir {
    var files: map<string, File>

    constructor (files: map<string, File>)
      ensures this.files == files
    {
      this.files := files;
    }

    /** Delete all but the newest dumps; the listing is what the directory shows, None if it cannot be read. */
    method PruneBackups(retention: int, listing: Option<seq<string>>) returns (kept: int)
      modifies this
      ensures files == Prune(old(files), retention, listing)
      ensures kept == Min(|ListBackups(old(files), listing)|, retention)
    {
      var entries := ListBackups(files, listing);
      var doomed := Tail(entries, retention);
      for i := 0 to |doomed|
        invariant files == Without(old(files), doomed[..i])
      {
        assert doomed[..i + 1] == doomed[..i] + [doomed[i]];
        var name := doomed[i].name;
        if name in files && files[name].removable {
          files := files - {name};
        }
      }
      assert doomed[..|doomed|] == doomed;
      return Min(|entries|, retention);
    }

    /** Dump, then prune; a failed dump is removed again. The listing is the one after the dump. */
    method StepBackup(stamp: string, dump: File, dumpOk: bool, retention: int, listing: Option<seq<string>>)
      returns (ok: bool)
      modifies this
      ensures ok == dumpOk
      ensures var name := "pre-update-" + stamp + ".dump.gz";
              files == if dumpOk then Prune(old(files)[name := dump], retention, listing)
                       else if dump.removable then old(files) - {name} else old(files)[name := dump]
    {
      var name := BACKUP_PREFIX + stamp + BACKUP_SUFFIX;
      files := files[name := dump];
      if !dumpOk {
        if dump.removable {
          files := files - {name};
        }
        return false;
      }
      var _ := PruneBackups(retention, listing);
      return true;
    }
  }

  // ---- The names ----

  /** The dumps are the files whose name is some stamp between "pre-update-" and ".dump.gz"; the two
      cannot overlap. */
  lemma BackupNamesExactly(name: string)
    ensures IsBackup(name) <==> exists stamp :: name == "pre-update-" + stamp + ".dump.gz"
  {
    if IsBackup(name) {
      var k := |name| - |".dump.gz"|;
      assert name[k..] == ".dump.gz" && name[k] == '.';
      assert k >= |"pre-update-"|;
      var stamp := name[|"pre-update-"|..k];
      assert name == name[..|"pre-update-"|] + stamp + name[k..];
      assert name == "pre-update-" + stamp + ".dump.gz";
    }
    forall stamp | name == "pre-update-" + stamp + ".dump.gz" ensures IsBackup(name) {
      assert name[..|"pre-update-"|] == "pre-update-";
      assert name[|name| - |".dump.gz"|..] == ".dump.gz";
    }
  }

  // ---- The order ----

  ghost predicate Falling(s: seq<Entry>) {
    forall i, j | 0 <= i < j < |s| :: s[i].mtime >= s[j].mtime
  }

  ghost predicate DistinctNames(s: seq<Entry>) {
    forall i, j | 0 <= i < j < |s| :: s[i].name != s[j].name
  }

  ghost predicate NotOlder(s: seq<Entry>, e: Entry) {
    forall i | 0 <= i < |s| :: s[i].mtime >= e.mtime
  }

  ghost predicate Older(s: seq<Entry>, e: Entry) {
    forall i | 0 <= i < |s| :: s[i].mtime < e.mtime
  }

  lemma OlderGrows(s: seq<Entry>, last: Entry, e: Entry)
    requires Older(s, e) && last.mtime < e.mtime
    ensures Older(s + [last], e)
  {
  }

  lemma FrontFalls(front: seq<Entry>, last: Entry)
    requires Falling(front + [last])
    ensures Falling(front)
  {
    assert forall i | 0 <= i < |front| :: (front + [last])[i] == front[i];
  }

  lemma LastIsLeast(s: seq<Entry>, e: Entry)
    requires Falling(s) && (s == [] || s[|s| - 1].mtime >= e.mtime)
    ensures NotOlder(s, e)
  {
  }

  lemma InsertBeforeLast(front: seq<Entry>, last: Entry, e: Entry)
    requires last.mtime < e.mtime
    ensures Insert(front + [last], e) == Insert(front, e) + [last]
  {
    assert (front + [last])[..|front|] == front;
  }

  /** Where Insert puts e: behind the entries a that are as new, before the older ones b. */
  lemma {:induction false} InsertSplits(s: seq<Entry>, e: Entry) returns (a: seq<Entry>, b: seq<Entry>)
    requires Falling(s)
    ensures s == a + b && Insert(s, e) == a + [e] + b
    ensures NotOlder(a, e) && Older(b, e)
  {
    if s == [] || s[|s| - 1].mtime >= e.mtime {
      a, b := s, [];
      LastIsLeast(s, e);
    } else {
      hide Insert, Falling, Older, NotOlder;
      var front, last := s[..|s| - 1], s[|s| - 1];
      assert s == front + [last];
      FrontFalls(front, last);
      var c;
      a, c := InsertSplits(front, e);
      OlderGrows(c, last, e);
      InsertBeforeLast(front, last, e);
      b := c + [last];
      assert a + c + [last] == a + b;
      assert a + [e] + c + [last] == a + [e] + b;
    }
  }

  lemma InsertFalls(s: seq<Entry>, e: Entry)
    requires Falling(s)
    ensures Falling(Insert(s, e))
    ensures forall x :: x in Insert(s, e) <==> x in s || x == e
    ensures DistinctNames(s) && (forall x | x in s :: x.name != e.name) ==> DistinctNames(Insert(s, e))
    ensures |Insert(s, e)| == |s| + 1
  {
    hide Insert;
    var a, b := InsertSplits(s, e);
    MiddleFalls(a, b, e);
    if DistinctNames(s) && forall x | x in s :: x.name != e.name { MiddleIsDistinct(a, b, e); }
  }

  lemma MiddleFalls(a: seq<Entry>, b: seq<Entry>, e: Entry)
    requires Falling(a + b)
    requires NotOlder(a, e) && Older(b, e)
    ensures Falling(a + [e] + b)
  {
    var s, t := a + b, a + [e] + b;
    forall i, j | 0 <= i < j < |t| ensures t[i].mtime >= t[j].mtime {
      if i != |a| && j != |a| {
        var i', j' := if i < |a| then i else i - 1, if j < |a| then j else j - 1;
        assert t[i] == s[i'] && t[j] == s[j'];
      }
    }
  }

  lemma MiddleIsDistinct(a: seq<Entry>, b: seq<Entry>, e: Entry)
    requires DistinctNames(a + b) && forall x | x in a + b :: x.name != e.name
    ensures DistinctNames(a + [e] + b)
  {
    var s, t := a + b, a + [e] + b;
    forall i, j | 0 <= i < j < |t| ensures t[i].name != t[j].name {
      var i', j' := if i < |a| then i else i - 1, if j < |a| then j else j - 1;
      if i == |a| {
        assert t[j] == s[j'] && s[j'] in s;
      } else if j == |a| {
        assert t[i] == s[i'] && s[i'] in s;
      } else {
        assert t[i] == s[i'] && t[j] == s[j'];
      }
    }
  }

  lemma {:induction false} NewestFirstFalls(s: seq<Entry>)
    ensures Falling(NewestFirst(s))
    ensures forall x :: x in NewestFirst(s) <==> x in s
    ensures DistinctNames(s) ==> DistinctNames(NewestFirst(s))
    ensures |NewestFirst(s)| == |s|
  {
    if s != [] {
      hide Insert, Falling;
      var n := |s| - 1;
      NewestFirstFalls(s[..n]);
      InsertFalls(NewestFirst(s[..n]), s[n]);
      assert s == s[..n] + [s[n]];
      if DistinctNames(s) {
        forall x | x in NewestFirst(s[..n]) ensures x.name != s[n].name {
          var i :| 0 <= i < n && s[..n][i] == x;
        }
      }
    }
  }

  // ---- What the listing shows ----

  ghost function DumpNames(files: map<string, File>): set<string> {
    set name | name in files && IsBackup(name) && files[name].statable
  }

  lemma {:induction false} DumpsAreListed(files: map<string, File>, names: seq<string>)
    requires forall i, j | 0 <= i < j < |names| :: names[i] != names[j]
    ensures forall e :: e in Dumps(files, names) <==>
              e.name in names && e.name in DumpNames(files) && e.mtime == files[e.name].mtime
    ensures DistinctNames(Dumps(files, names))
  {
    if names != [] {
      DumpsAreListed(files, names[1..]);
      assert names == [names[0]] + names[1..];
    }
  }

  /** The listing holds every dump once, newest first. */
  lemma ListingIsSound(files: map<string, File>, names: seq<string>)
    requires Lists(names, files)
    ensures var entries := ListBackups(files, Some(names));
            && Falling(entries) && DistinctNames(entries)
            && Names(entries) == DumpNames(files) && |entries| == |DumpNames(files)|
            && forall e | e in entries :: e.name in files && e.mtime == files[e.name].mtime
  {
    hide NewestFirst;
    var dumps := Dumps(files, names);
    DumpsAreListed(files, names);
    NewestFirstFalls(dumps);
    var entries := ListBackups(files, Some(names));
    assert Names(entries) == DumpNames(files) by {
      forall name | name in DumpNames(files) ensures name in Names(entries) {
        assert Entry(name, files[name].mtime) in entries;
      }
    }
    NamesSize(entries);
  }

  lemma {:induction false} NamesSize(s: seq<Entry>)
    requires DistinctNames(s)
    ensures |Names(s)| == |s|
  {
    if s == [] {
      assert Names(s) == {};
    } else {
      var n := |s| - 1;
      NamesSize(s[..n]);
      assert s == s[..n] + [s[n]];
      assert Names(s) == Names(s[..n]) + {s[n].name};
      assert s[n].name !in Names(s[..n]);
    }
  }

  // ---- What pruning leaves ----

  lemma TailSplits(s: seq<Entry>, r: int) returns (m: nat)
    ensures m <= |s| && s == s[..m] + Tail(s, r) && Tail(s, r) == s[m..]
    ensures m == if r >= 0 then Min(|s|, r) else if -r >= |s| then 0 else |s| + r
  {
    m := if r >= 0 then Min(|s|, r) else if -r >= |s| then 0 else |s| + r;
  }

  lemma IndexOf(s: seq<Entry>, lo: nat, hi: nat, name: string) returns (i: nat)
    requires lo <= hi <= |s| && name in Names(s[lo..hi])
    ensures lo <= i < hi && s[i].name == name
  {
    var e :| e in s[lo..hi] && e.name == name;
    var j :| 0 <= j < hi - lo && s[lo..hi][j] == e;
    i := lo + j;
  }

  lemma NameAt(s: seq<Entry>, lo: nat, hi: nat, i: nat)
    requires lo <= i < hi <= |s|
    ensures s[i].name in Names(s[lo..hi])
  {
    assert s[lo..hi][i - lo] == s[i];
  }

  lemma SplitNames(s: seq<Entry>, m: nat)
    requires DistinctNames(s) && m <= |s|
    ensures Names(s) == Names(s[..m]) + Names(s[m..]) && Names(s[..m]) !! Names(s[m..])
    ensures |Names(s[..m])| == m
  {
    hide Names;
    NamesOfHalves(s, m);
    NamesSize(s[..m]);
    assert s[m..] == s[m..|s|] && s[..m] == s[0..m];
    forall name | name in Names(s[..m]) ensures name !in Names(s[m..]) {
      if name in Names(s[m..]) {
        var i := IndexOf(s, 0, m, name);
        var j := IndexOf(s, m, |s|, name);
        assert false;
      }
    }
  }

  lemma NamesOfHalves(s: seq<Entry>, m: nat)
    requires m <= |s|
    ensures Names(s) == Names(s[..m]) + Names(s[m..])
  {
    assert s == s[..m] + s[m..];
  }

  /** Pruning touches nothing but dumps, whatever the retention. */
  lemma PruneTouchesOnlyDumps(files: map<string, File>, retention: int, names: seq<string>)
    requires Lists(names, files)
    ensures var left := Prune(files, retention, Some(names));
            && (forall name | name in left :: name in files && left[name] == files[name])
            && (forall name | name in files && name !in left :: name in DumpNames(files))
  {
    var entries := ListBackups(files, Some(names));
    ListingIsSound(files, names);
    var m := TailSplits(entries, retention);
    forall name | name in files && name !in Prune(files, retention, Some(names)) ensures name in DumpNames(files) {
      var e :| e in Tail(entries, retention) && e.name == name;
      assert e in entries;
      assert e.name in Names(entries);
    }
  }

  /** A dump goes exactly when it is listed past the retention and can be removed. */
  lemma SurvivesExactly(files: map<string, File>, retention: int, names: seq<string>, m: nat, name: string)
    requires Lists(names, files) && name in DumpNames(files)
    requires m <= |ListBackups(files, Some(names))|
    requires Tail(ListBackups(files, Some(names)), retention) == ListBackups(files, Some(names))[m..]
    ensures name in Prune(files, retention, Some(names)) <==>
              !files[name].removable || name in Names(ListBackups(files, Some(names))[..m])
  {
    hide ListBackups;
    var entries := ListBackups(files, Some(names));
    ListingIsSound(files, names);
    SplitNames(entries, m);
  }

  /** The dumps that are listed past the retention and cannot be removed. */
  ghost function Stuck(files: map<string, File>, retention: int, names: seq<string>): set<string> {
    set e | e in Tail(ListBackups(files, Some(names)), retention) && e.name in files && !files[e.name].removable ::
      e.name
  }

  lemma PrunedNames(files: map<string, File>, retention: int, names: seq<string>, m: nat)
    requires Lists(names, files)
    requires m <= |ListBackups(files, Some(names))|
    requires Tail(ListBackups(files, Some(names)), retention) == ListBackups(files, Some(names))[m..]
    ensures var kept, stuck := Names(ListBackups(files, Some(names))[..m]), Stuck(files, retention, names);
            && DumpNames(Prune(files, retention, Some(names))) == kept + stuck && kept !! stuck
            && |kept| == m
  {
    hide ListBackups, Prune, Falling, Tail, Names, Stuck, DistinctNames, Lists, DumpNames;
    var entries := ListBackups(files, Some(names));
    ListingIsSound(files, names);
    SplitNames(entries, m);
    var kept, stuck := Names(entries[..m]), Stuck(files, retention, names);
    DumpsLeft(files, retention, names);
    forall name | name in DumpNames(files)
      ensures name in Prune(files, retention, Some(names)) <==> name in kept + stuck
      ensures name in files
    {
      SurvivesExactly(files, retention, names, m, name);
      StuckExactly(files, retention, names, m, name);
    }
    forall name | name in stuck ensures name in DumpNames(files) && name !in kept {
      StuckExactly(files, retention, names, m, name);
    }
  }

  lemma DumpsLeft(files: map<string, File>, retention: int, names: seq<string>)
    requires Lists(names, files)
    ensures forall name :: name in DumpNames(Prune(files, retention, Some(names))) <==>
              name in DumpNames(files) && name in Prune(files, retention, Some(names))
    ensures forall name | name in DumpNames(files) :: name in files
  {
    hide ListBackups, Tail;
  }

  lemma StuckExactly(files: map<string, File>, retention: int, names: seq<string>, m: nat, name: string)
    requires m <= |ListBackups(files, Some(names))|
    requires Tail(ListBackups(files, Some(names)), retention) == ListBackups(files, Some(names))[m..]
    ensures name in Stuck(files, retention, names) <==>
              name in Names(ListBackups(files, Some(names))[m..]) && name in files && !files[name].removable
  {
    hide ListBackups, Tail;
  }

  lemma PrunedCount(files: map<string, File>, retention: int, names: seq<string>, m: nat)
    requires Lists(names, files)
    requires m <= |ListBackups(files, Some(names))|
    requires Tail(ListBackups(files, Some(names)), retention) == ListBackups(files, Some(names))[m..]
    ensures |DumpNames(Prune(files, retention, Some(names)))| == m + |Stuck(files, retention, names)|
  {
    hide ListBackups, Prune, Tail, Stuck, Names;
    PrunedNames(files, retention, names, m);
  }

  /** With a retention that is not negative, pruning leaves the newest dumps up to the retention, and
      beside them just the older ones that cannot be removed. */
  lemma PruneLeavesTheNewest(files: map<string, File>, retention: int, names: seq<string>)
    requires Lists(names, files)
    requires retention >= 0
    ensures var left := Prune(files, retention, Some(names));
            var stuck := Stuck(files, retention, names);
            && stuck <= DumpNames(left)
            && |DumpNames(left) - stuck| == Min(|DumpNames(files)|, retention)
            && (forall name | name in stuck :: name in files && !files[name].removable)
            && (forall kept, other | kept in DumpNames(left) - stuck
                                     && other in DumpNames(files) - (DumpNames(left) - stuck) ::
                  files[kept].mtime >= files[other].mtime)
  {
    hide ListBackups, Names, Prune, DistinctNames, Tail, Falling, Stuck, DumpNames, Lists;
    var entries := ListBackups(files, Some(names));
    ListingIsSound(files, names);
    var m := TailSplits(entries, retention);
    PrunedNames(files, retention, names, m);
    SplitNames(entries, m);
    var left := Prune(files, retention, Some(names));
    var stuck := Stuck(files, retention, names);
    assert DumpNames(left) - stuck == Names(entries[..m]);
    assert DumpNames(files) - (DumpNames(left) - stuck) == Names(entries[m..]);
    HalvesAreOrdered(files, entries, m);
    forall name | name in stuck ensures name in files && !files[name].removable {
      StuckExactly(files, retention, names, m, name);
    }
  }

  lemma HalvesAreOrdered(files: map<string, File>, entries: seq<Entry>, m: nat)
    requires Falling(entries) && m <= |entries|
    requires forall e | e in entries :: e.name in files && e.mtime == files[e.name].mtime
    ensures forall kept, other | kept in Names(entries[..m]) && other in Names(entries[m..]) ::
              kept in files && other in files && files[kept].mtime >= files[other].mtime
  {
    hide Names;
    assert entries[m..] == entries[m..|entries|] && entries[..m] == entries[0..m];
    forall kept, other | kept in Names(entries[..m]) && other in Names(entries[m..])
      ensures kept in files && other in files && files[kept].mtime >= files[other].mtime
    {
      var i := IndexOf(entries, 0, m, kept);
      var j := IndexOf(entries, m, |entries|, other);
      assert entries[i] in entries && entries[j] in entries;
    }
  }

  /** The returned count is the number of dumps left exactly when the retention is not negative and
      every dump past it can be removed. */
  lemma ReturnedCountExactly(files: map<string, File>, retention: int, names: seq<string>)
    requires Lists(names, files)
    ensures Min(|ListBackups(files, Some(names))|, retention) == |DumpNames(Prune(files, retention, Some(names)))| <==>
              && retention >= 0
              && forall e | e in Tail(ListBackups(files, Some(names)), retention) ::
                   e.name in files && files[e.name].removable
  {
    hide ListBackups, Prune, Tail, DumpNames;
    var entries := ListBackups(files, Some(names));
    ListingIsSound(files, names);
    var m := TailSplits(entries, retention);
    PrunedCount(files, retention, names, m);
    var stuck := Stuck(files, retention, names);
    forall e | e in Tail(entries, retention) ensures e.name in files {
      assert e in entries;
    }
    if e :| e in Tail(entries, retention) && !files[e.name].removable {
      assert e.name in stuck;
      assert |stuck| > 0;
    } else {
      assert stuck == {};
    }
  }

  /** The dump a successful backup step has just made, strictly the newest, is still there afterwards
      exactly when the retention is positive, or negative with more dumps than it takes away, or when
      it cannot be removed. */
  lemma FreshDumpSurvivesExactly(files: map<string, File>, retention: int, names: seq<string>, fresh': string)
    requires Lists(names, files)
    requires fresh' in DumpNames(files)
    requires forall name | name in DumpNames(files) && name != fresh' :: files[name].mtime < files[fresh'].mtime
    ensures fresh' in Prune(files, retention, Some(names)) <==>
              retention > 0 || (retention < 0 && |DumpNames(files)| + retention > 0) || !files[fresh'].removable
  {
    hide ListBackups, Names, Prune, Tail, Falling, DistinctNames, Lists;
    var entries := ListBackups(files, Some(names));
    ListingIsSound(files, names);
    var m := TailSplits(entries, retention);
    SurvivesExactly(files, retention, names, m, fresh');
    NewestIsFirst(files, entries, fresh');
    FirstSurvives(entries, m);
  }

  lemma NewestIsFirst(files: map<string, File>, entries: seq<Entry>, fresh': string)
    requires Falling(entries) && DistinctNames(entries) && Names(entries) == DumpNames(files)
    requires forall e | e in entries :: e.name in files && e.mtime == files[e.name].mtime
    requires fresh' in DumpNames(files)
    requires forall name | name in DumpNames(files) && name != fresh' :: files[name].mtime < files[fresh'].mtime
    ensures entries != [] && entries[0].name == fresh'
  {
    assert entries[0..|entries|] == entries;
    var i := IndexOf(entries, 0, |entries|, fresh');
    NameAt(entries, 0, |entries|, 0);
    assert entries[0] in entries && entries[i] in entries;
    assert entries[0].mtime >= entries[i].mtime;
  }

  lemma FirstSurvives(entries: seq<Entry>, m: nat)
    requires DistinctNames(entries) && entries != [] && m <= |entries|
    ensures entries[0].name in Names(entries[..m]) <==> m > 0
  {
    if m > 0 { assert entries[..m][0] == entries[0]; }
  }

  /** The file a backup step makes is one of the dumps. */
  lemma BackupStepMakesADump(files: map<string, File>, stamp: string, dump: File)
    requires dump.statable
    ensures var name := "pre-update-" + stamp + ".dump.gz";
            DumpNames(files[name := dump]) == DumpNames(files) + {name}
  {
    var name := "pre-update-" + stamp + ".dump.gz";
    assert name[..|BACKUP_PREFIX|] == BACKUP_PREFIX;
    assert name[|name| - |BACKUP_SUFFIX|..] == BACKUP_SUFFIX;
  }

  /** A dump that cannot be removed is left but not counted. */
  lemma StuckDumpIsNotCounted(stamp: string, dump: File)
    requires dump.statable && !dump.removable
    ensures var name := "pre-update-" + stamp + ".dump.gz";
            var files := map[][name := dump];
            Min(|ListBackups(files, Some([name]))|, 0) == 0 && DumpNames(Prune(files, 0, Some([name]))) == {name}
  {
    hide ListBackups, Prune;
    var name := "pre-update-" + stamp + ".dump.gz";
    var files: map<string, File> := map[][name := dump];
    BackupStepMakesADump(map[], stamp, dump);
    assert Lists([name], files);
    PruneTouchesOnlyDumps(files, 0, [name]);
    ListingIsSound(files, [name]);
    var m := TailSplits(ListBackups(files, Some([name])), 0);
    SurvivesExactly(files, 0, [name], m, name);
  }

  /** A successful backup step with a positive retention leaves its own dump in place. */
  lemma BackupStepKeepsItsDump(files: map<string, File>, stamp: string, dump: File, retention: int, names: seq<string>)
    requires dump.statable && retention > 0
    requires var name := "pre-update-" + stamp + ".dump.gz";
             var after := files[name := dump];
             && Lists(names, after)
             && forall other | other in DumpNames(after) && other != name :: after[other].mtime < dump.mtime
    ensures var name := "pre-update-" + stamp + ".dump.gz";
            name in Prune(files[name := dump], retention, Some(names))
  {
    hide Prune, Lists, DumpNames;
    BackupStepMakesADump(files, stamp, dump);
    var name := "pre-update-" + stamp + ".dump.gz";
    FreshDumpSurvivesExactly(files[name := dump], retention, names, name);
  }
}
