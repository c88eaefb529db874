/** One host's check on a probe (agent/src/checks.rs): the configured check types, their outcomes, and
    the one result they are folded into. */
module HostCheck {
  import opened Options
  import opened Text

  datatype Assignment = Assignment(hostId: int, hostname: string, ip: Option<string>, checkType: string,
                                   port: Option<nat>)

  /** What trying one check gives; NotPerformed is an error on the way (no ping binary, a name that
      cannot be made into a request). */
  datatype Attempt = Reply(ok: bool, latency: Option<real>) | NotPerformed

  datatype SubResult = SubResult(key: string, isIcmp: bool, ok: bool, latency: Option<real>)

  datatype CheckResult = CheckResult(hostId: int, success: bool, latency: Option<real>, detail: map<string, bool>)

  // ---- The configured types ----

  function Split(raw: string): seq<string>
    decreases |raw|
  {
    var piece := UpTo(raw, ',');
    if |piece| == |raw| then [piece] else [piece] + Split(raw[|piece| + 1..])
  }

  function Clean(pieces: seq<string>): (types: seq<string>)
    ensures forall t | t in types :: t != ""
  {
    if pieces == [] then []
    else
      var t := Lower(Strip(pieces[0]));
      (if t == "" then [] else [t]) + Clean(pieces[1..])
  }

  /** An empty list of types means a ping. */
  function ParseCheckTypes(raw: string): (types: seq<string>)
    ensures types != [] && forall t | t in types :: t != ""
  {
    var types := Clean(Split(raw));
    if types == [] then ["icmp"] else types
  }

  ghost function Join(pieces: seq<string>): string
    requires pieces != []
  {
    if |pieces| == 1 then pieces[0] else pieces[0] + "," + Join(pieces[1..])
  }

  lemma {:induction false} UpToComma(piece: string, rest: string)
    requires ',' !in piece
    ensures UpTo(piece + "," + rest, ',') == piece
  {
    var s := piece + "," + rest;
    if piece != "" {
      assert s[0] == piece[0] && piece[0] in piece && s[1..] == piece[1..] + "," + rest;
      UpToComma(piece[1..], rest);
    }
  }

  lemma {:induction false} SplitOfJoin(pieces: seq<string>)
    requires pieces != [] && forall p | p in pieces :: ',' !in p
    ensures Split(Join(pieces)) == pieces
    decreases |pieces|
  {
    var first := pieces[0];
    assert first in pieces;
    if |pieces| == 1 {
      UpToOfMissing(first, ',');
    } else {
      var rest := Join(pieces[1..]);
      SplitOfJoin(pieces[1..]);
      UpToComma(first, rest);
      assert Join(pieces)[|first| + 1..] == rest;
    }
  }

  lemma SplitStep(raw: string)
    requires |UpTo(raw, ',')| < |raw|
    ensures var piece := UpTo(raw, ',');
            var rest := raw[|piece| + 1..];
            raw == piece + "," + rest && Split(raw) == [piece] + Split(rest)
  {
    hide UpTo;
    var k := |UpTo(raw, ',')|;
    UpToStopsAt(raw, ',');
    assert raw == raw[..k] + raw[k..] && raw[k..] == [raw[k]] + raw[k + 1..];
  }

  lemma {:induction false} JoinOfSplit(raw: string)
    ensures Split(raw) != [] && Join(Split(raw)) == raw
    ensures forall p | p in Split(raw) :: ',' !in p
    decreases |raw|
  {
    var piece := UpTo(raw, ',');
    if |piece| < |raw| {
      hide UpTo;
      var rest := raw[|piece| + 1..];
      JoinOfSplit(rest);
      SplitStep(raw);
      assert Split(raw)[1..] == Split(rest);
    }
  }

  lemma {:induction false} CleanHolds(pieces: seq<string>)
    ensures forall t :: t in Clean(pieces) <==> exists p :: p in pieces && t == Lower(Strip(p)) && t != ""
  {
    if pieces != [] {
      hide Strip, Lower;
      CleanHolds(pieces[1..]);
      assert pieces == [pieces[0]] + pieces[1..];
    }
  }

  lemma {:induction false} CleanOfBlanks(pieces: seq<string>)
    requires forall p | p in pieces :: Strip(p) == ""
    ensures Clean(pieces) == []
  {
    if pieces != [] {
      hide Strip, Lower;
      CleanOfBlanks(pieces[1..]);
    }
  }

  lemma {:induction false} CleanKeepsOrder(pieces: seq<string>)
    requires forall p | p in pieces :: Strip(p) != ""
    ensures |Clean(pieces)| == |pieces| && forall i | 0 <= i < |pieces| :: Clean(pieces)[i] == Lower(Strip(pieces[i]))
  {
    if pieces != [] {
      hide Strip, Lower;
      CleanKeepsOrder(pieces[1..]);
      assert Clean(pieces) == [Lower(Strip(pieces[0]))] + Clean(pieces[1..]);
    }
  }

  /** The types of comma-separated pieces are the pieces that are not blank, without the blanks around
      them and in lower case, in order if none is blank; a ping if all are. JoinOfSplit says that every
      setting is such a list of pieces. */
  lemma ParsedExactly(pieces: seq<string>)
    requires pieces != [] && forall p | p in pieces :: ',' !in p
    ensures (forall p | p in pieces :: Strip(p) == "") ==> ParseCheckTypes(Join(pieces)) == ["icmp"]
    ensures (exists p :: p in pieces && Strip(p) != "") ==>
              forall t :: t in ParseCheckTypes(Join(pieces)) <==>
                exists p :: p in pieces && t == Lower(Strip(p)) && t != ""
    ensures (forall p | p in pieces :: Strip(p) != "") ==>
              && |ParseCheckTypes(Join(pieces))| == |pieces|
              && forall i | 0 <= i < |pieces| :: ParseCheckTypes(Join(pieces))[i] == Lower(Strip(pieces[i]))
  {
    hide Strip, Split, Join, Clean;
    SplitOfJoin(pieces);
    CleanHolds(pieces);
    if forall p | p in pieces :: Strip(p) == "" { CleanOfBlanks(pieces); }
    if forall p | p in pieces :: Strip(p) != "" { CleanKeepsOrder(pieces); }
    if p :| p in pieces && Strip(p) != "" {
      assert Lower(Strip(p)) in Clean(pieces);
    }
  }

  lemma TwoPingsParsed()
    ensures ParseCheckTypes("icmp, icmp") == ["icmp", "icmp"]
  {
    hide Strip, ParseCheckTypes;
    var pieces := ["icmp", " icmp"];
    assert Join(pieces) == "icmp, icmp" by { assert Join(pieces[1..]) == " icmp"; }
    StripOfTight("icmp");
    StripOfBlank("icmp");
    assert " " + "icmp" == " icmp";
    LowerOfLower("icmp");
    ParsedExactly(pieces);
  }

  // ---- One check ----

  predicate ValidTarget(target: string) {
    target != "" && target[0] != '-' && target[0] != '/' && forall c | c in target :: !IsSpace(c)
  }

  function Ip(a: Assignment): string {
    if a.ip.Some? then Strip(a.ip.value) else ""
  }

  function NetworkTarget(a: Assignment): string {
    if Ip(a) == "" then Strip(a.hostname) else Ip(a)
  }

  function HttpTarget(a: Assignment): string {
    if Strip(a.hostname) == "" then Ip(a) else Strip(a.hostname)
  }

  /** The check is of a known type and has a usable target. */
  predicate Performable(a: Assignment, ct: string) {
    if ct == "icmp" || ct == "tcp" || "tcp:" <= ct then ValidTarget(NetworkTarget(a))
    else (ct == "http" || ct == "https") && ValidTarget(HttpTarget(a))
  }

  function Execute(a: Assignment, ct: string, attempt: Attempt): Attempt {
    if Performable(a, ct) then attempt else NotPerformed
  }

  function Decimal(n: nat): string {
    (if n < 10 then "" else Decimal(n / 10)) + ['0' + (n % 10) as char]
  }

  function DetailLabel(ct: string, port: Option<nat>): (key: string)
    ensures key == "icmp" <==> ct == "icmp"
  {
    if port.Some? && ct == "tcp" then
      var key := "tcp:" + Decimal(port.value);
      assert key[0] == 't';
      key
    else ct
  }

  /** Two types share a label only as a plain tcp check and the tcp check of the assigned port. */
  lemma LabelsCollideExactly(s: string, t: string, port: Option<nat>)
    ensures DetailLabel(s, port) == DetailLabel(t, port) <==>
              s == t || (port.Some? && (s == "tcp" || t == "tcp") &&
                         "tcp:" + Decimal(port.value) == if s == "tcp" then t else s)
  {
    if port.Some? {
      assert |"tcp:" + Decimal(port.value)| > |"tcp"|;
    }
  }

  /** A check can be carried out if it is a ping or a tcp check, with or without a port, and the stripped
      ip, or the hostname if that is blank, is a target; or if it is an http or https check and the
      stripped hostname, or the ip if that is blank, is one. A target is not blank, holds no blank, and
      does not start as an option or a path would. */
  lemma PerformableExactly(a: Assignment, ct: string)
    ensures var ip := if a.ip.Some? then Strip(a.ip.value) else "";
            var host := Strip(a.hostname);
            var network := ct in {"icmp", "tcp"} || (|ct| >= 4 && ct[..4] == "tcp:");
            var target := if ip == "" then host else if host == "" || network then ip else host;
            Performable(a, ct) <==>
              && (network || ct in {"http", "https"})
              && target != "" && target[0] !in {'-', '/'}
              && forall c | c in target :: c !in {' ', '\t', '\n', '\r'}
  {
    hide Strip;
  }

  /** A digit stands for itself, and ten times a number and a digit is the number followed by the digit. */
  lemma DecimalExactly(m: nat, d: nat)
    requires d < 10
    ensures Decimal(d) == ["0123456789"[d]]
    ensures m > 0 ==> Decimal(10 * m + d) == Decimal(m) + Decimal(d)
  {
    assert (10 * m + d) / 10 == m && (10 * m + d) % 10 == d;
  }

  /** Only a plain tcp check of a host with a port is named otherwise than its type: by the port too. */
  lemma LabelExactly(ct: string, port: Option<nat>)
    ensures DetailLabel(ct, port) == if ct != "tcp" || port == None then ct else "tcp:" + Decimal(port.value)
  {
  }

  function SubOf(a: Assignment, ct: string, attempt: Attempt): SubResult {
    var done := Execute(a, ct, attempt);
    SubResult(DetailLabel(ct, a.port), ct == "icmp", done.Reply? && done.ok,
              if done.Reply? then done.latency else None)
  }

  // ---- The fold ----

  predicate Success(subs: seq<SubResult>) {
    if exists s | s in subs :: s.isIcmp then forall s | s in subs && s.isIcmp :: s.ok
    else exists s | s in subs :: s.ok
  }

  function FirstIcmp(subs: seq<SubResult>): Option<SubResult> {
    if subs == [] then None else if subs[0].isIcmp then Some(subs[0]) else FirstIcmp(subs[1..])
  }

  function FirstMeasured(subs: seq<SubResult>): Option<real> {
    if subs == [] then None else if subs[0].latency.Some? then subs[0].latency else FirstMeasured(subs[1..])
  }

  function Latency(subs: seq<SubResult>): Option<real> {
    var icmp := FirstIcmp(subs);
    if icmp.Some? && icmp.value.latency.Some? then icmp.value.latency else FirstMeasured(subs)
  }

  function Detail(subs: seq<SubResult>): map<string, bool> {
    if subs == [] then map[]
    else
      var last := subs[|subs| - 1];
      Detail(subs[..|subs| - 1])[last.key := last.ok]
  }

  function Subs(a: Assignment, types: seq<string>, attempts: seq<Attempt>): (subs: seq<SubResult>)
    requires |types| == |attempts|
    ensures |subs| == |types|
  {
    seq(|types|, j requires 0 <= j < |types| => SubOf(a, types[j], attempts[j]))
  }

  ghost predicate Fits(a: Assignment, attempts: seq<Attempt>) {
    |attempts| == |ParseCheckTypes(a.checkType)|
  }

  /** The result of the given types of check. */
  function ResultFor(a: Assignment, types: seq<string>, attempts: seq<Attempt>): CheckResult
    requires |types| == |attempts|
  {
    var subs := Subs(a, types, attempts);
    CheckResult(a.hostId, Success(subs), Latency(subs), Detail(subs))
  }

  function ResultOf(a: Assignment, attempts: seq<Attempt>): CheckResult
    requires Fits(a, attempts)
  {
    ResultFor(a, ParseCheckTypes(a.checkType), attempts)
  }

  /** Runs the types in turn; a check that cannot be performed counts as failed. */
  method RunOne(a: Assignment, attempts: seq<Attempt>) returns (r: CheckResult)
    requires Fits(a, attempts)
    ensures r == ResultOf(a, attempts)
  {
    var types := ParseCheckTypes(a.checkType);
    var subs := [];
    for j := 0 to |types|
      invariant |subs| == j
      invariant forall k | 0 <= k < j :: subs[k] == SubOf(a, types[k], attempts[k])
    {
      var ok, latency := false, None;
      match Execute(a, types[j], attempts[j]) {
        case Reply(answered, measured) => ok, latency := answered, measured;
        case NotPerformed =>
      }
      subs := subs + [SubResult(DetailLabel(types[j], a.port), types[j] == "icmp", ok, latency)];
    }
    assert subs == Subs(a, types, attempts);
    r := Summarize(a.hostId, subs);
  }

  method Summarize(hostId: int, subs: seq<SubResult>) returns (r: CheckResult)
    ensures r == CheckResult(hostId, Success(subs), Latency(subs), Detail(subs))
  {
    var detail := map[];
    for j := 0 to |subs|
      invariant detail == Detail(subs[..j])
    {
      assert subs[..j + 1][..j] == subs[..j];
      detail := detail[subs[j].key := subs[j].ok];
    }
    assert subs[..|subs|] == subs;
    r := CheckResult(hostId, Success(subs), Latency(subs), detail);
  }

  // ---- What the result means ----

  /** Check j was carried out and the host answered it. */
  ghost predicate Answered(a: Assignment, types: seq<string>, attempts: seq<Attempt>, j: nat)
    requires j < |types| == |attempts|
  {
    Performable(a, types[j]) && attempts[j].Reply? && attempts[j].ok
  }

  /** A host is up exactly when every ping of it was answered, or, with no ping among its types, when
      some check was: a check that could not be performed never makes a success. */
  lemma SuccessExactly(a: Assignment, types: seq<string>, attempts: seq<Attempt>)
    requires |types| == |attempts|
    ensures ResultFor(a, types, attempts).success <==>
              if "icmp" in types then
                forall j | 0 <= j < |types| && types[j] == "icmp" :: Answered(a, types, attempts, j)
              else exists j | 0 <= j < |types| :: Answered(a, types, attempts, j)
  {
    hide Performable, DetailLabel;
    var subs := Subs(a, types, attempts);
    assert forall j | 0 <= j < |types| :: subs[j] in subs && (subs[j].ok <==> Answered(a, types, attempts, j));
    if "icmp" in types {
      var j :| 0 <= j < |types| && types[j] == "icmp";
      assert subs[j].isIcmp;
    }
  }

  ghost function Measured(a: Assignment, types: seq<string>, attempts: seq<Attempt>, j: nat): Option<real>
    requires j < |types| == |attempts|
  {
    if Performable(a, types[j]) && attempts[j].Reply? then attempts[j].latency else None
  }

  /** Types[j] is the first ping. */
  ghost predicate FirstPing(types: seq<string>, j: nat) {
    j < |types| && types[j] == "icmp" && "icmp" !in types[..j]
  }

  lemma {:induction false} FirstMeasuredIsLeast(subs: seq<SubResult>) returns (j: nat)
    ensures j <= |subs| && forall k | 0 <= k < j :: subs[k].latency.None?
    ensures FirstMeasured(subs) == if j < |subs| then subs[j].latency else None
    ensures j < |subs| ==> subs[j].latency.Some?
  {
    if subs == [] || subs[0].latency.Some? {
      j := 0;
    } else {
      j := FirstMeasuredIsLeast(subs[1..]);
      assert forall k | 1 <= k < |subs| :: subs[k] == subs[1..][k - 1];
      j := j + 1;
    }
  }

  lemma {:induction false} FirstIcmpIsLeast(subs: seq<SubResult>) returns (j: nat)
    ensures j <= |subs| && forall k | 0 <= k < j :: !subs[k].isIcmp
    ensures FirstIcmp(subs) == if j < |subs| then Some(subs[j]) else None
    ensures j < |subs| ==> subs[j].isIcmp
  {
    if subs == [] || subs[0].isIcmp {
      j := 0;
    } else {
      j := FirstIcmpIsLeast(subs[1..]);
      assert forall k | 1 <= k < |subs| :: subs[k] == subs[1..][k - 1];
      j := j + 1;
    }
  }

  /** The latency is the first ping's if that one measured any, and otherwise the first one measured;
      it is missing only when nothing measured any. */
  lemma LatencyExactly(a: Assignment, types: seq<string>, attempts: seq<Attempt>)
    requires |types| == |attempts|
    ensures var latency := ResultFor(a, types, attempts).latency;
            && (latency.None? <==> forall j | 0 <= j < |types| :: Measured(a, types, attempts, j).None?)
            && (forall p: nat | FirstPing(types, p) && Measured(a, types, attempts, p).Some? ::
                  latency == Measured(a, types, attempts, p))
            && (forall j | 0 <= j < |types| && Measured(a, types, attempts, j).Some?
                           && (forall k | 0 <= k < j :: Measured(a, types, attempts, k).None?)
                           && (forall p: nat | FirstPing(types, p) :: Measured(a, types, attempts, p).None?) ::
                  latency == Measured(a, types, attempts, j))
  {
    hide Performable, DetailLabel, FirstIcmp, FirstMeasured;
    var subs := Subs(a, types, attempts);
    var first := FirstMeasuredIsLeast(subs);
    var ping := FirstIcmpIsLeast(subs);
    assert forall j | 0 <= j < |types| ::
        subs[j].latency == Measured(a, types, attempts, j) && (subs[j].isIcmp <==> types[j] == "icmp");
    assert ping < |types| ==> FirstPing(types, ping);
    forall p: nat | FirstPing(types, p) ensures p == ping {
      FirstPingIs(types, p, ping);
    }
  }

  lemma FirstPingIs(types: seq<string>, p: nat, ping: nat)
    requires FirstPing(types, p)
    requires ping <= |types| && forall k | 0 <= k < ping :: types[k] != "icmp"
    requires ping < |types| ==> types[ping] == "icmp"
    ensures p == ping
  {
    forall k | 0 <= k < p ensures types[k] != "icmp" {
      assert types[..p][k] == types[k];
    }
  }

  // ---- Success and detail ----

  /** What a reader of the detail alone would take for success. */
  ghost predicate DetailSucceeds(detail: map<string, bool>) {
    if "icmp" in detail then detail["icmp"] else exists k | k in detail :: detail[k]
  }

  /** No check that can be performed and that decides about success shares its key with a later one. */
  ghost predicate DecidersHaveOwnKeys(a: Assignment, types: seq<string>) {
    forall i, j | 0 <= i < j < |types| && DetailLabel(types[i], a.port) == DetailLabel(types[j], a.port)
                  && Performable(a, types[i]) ::
      "icmp" in types && types[i] != "icmp"
  }

  lemma {:induction false} KeyHasSub(subs: seq<SubResult>, k: string)
    requires k in Detail(subs)
    ensures exists s :: s in subs && s.key == k
  {
    var n := |subs| - 1;
    if subs[n].key == k {
      assert subs[n] in subs;
    } else {
      KeyHasSub(subs[..n], k);
      var s :| s in subs[..n] && s.key == k;
      assert s in subs;
    }
  }

  /** The value under k is the outcome of the last check with that key. */
  lemma {:induction false} DetailValue(subs: seq<SubResult>, k: string) returns (j: nat)
    requires exists s :: s in subs && s.key == k
    ensures j < |subs| && subs[j].key == k && k in Detail(subs) && Detail(subs)[k] == subs[j].ok
    ensures forall m | j < m < |subs| :: subs[m].key != k
  {
    var n := |subs| - 1;
    if subs[n].key == k {
      j := n;
    } else {
      var i :| 0 <= i < |subs| && subs[i].key == k;
      assert subs[..n][i] in subs[..n];
      j := DetailValue(subs[..n], k);
    }
  }

  ghost predicate PingsAreNamed(subs: seq<SubResult>) {
    forall s | s in subs :: s.isIcmp <==> s.key == "icmp"
  }

  lemma SubsAreNamed(a: Assignment, types: seq<string>, attempts: seq<Attempt>)
    requires |types| == |attempts|
    ensures PingsAreNamed(Subs(a, types, attempts))
  {
  }

  lemma PingKeyDecides(subs: seq<SubResult>, i: nat)
    requires PingsAreNamed(subs) && i < |subs| && subs[i].isIcmp
    requires forall m | 0 <= m < |subs| && subs[m].isIcmp :: m == i
    ensures Success(subs) == DetailSucceeds(Detail(subs)) == subs[i].ok
  {
    hide Detail;
    assert subs[i] in subs;
    var j := DetailValue(subs, "icmp");
    assert subs[j] in subs;
  }

  lemma NoPingAnswered(subs: seq<SubResult>, i: nat)
    requires PingsAreNamed(subs) && i < |subs| && subs[i].isIcmp
    requires forall m | 0 <= m < |subs| && subs[m].isIcmp :: !subs[m].ok
    ensures !Success(subs) && !DetailSucceeds(Detail(subs))
  {
    hide Detail;
    assert subs[i] in subs;
    var j := DetailValue(subs, "icmp");
    assert subs[j] in subs;
  }

  lemma OtherKeysDecide(subs: seq<SubResult>)
    requires PingsAreNamed(subs) && forall s | s in subs :: !s.isIcmp
    requires forall i, j | 0 <= i < j < |subs| && subs[i].key == subs[j].key :: !subs[i].ok
    ensures Success(subs) == DetailSucceeds(Detail(subs))
  {
    hide Detail;
    forall k | k in Detail(subs) ensures k != "icmp" && (Detail(subs)[k] ==> Success(subs)) {
      KeyHasSub(subs, k);
      var j := DetailValue(subs, k);
      assert subs[j] in subs;
    }
    if s :| s in subs && s.ok {
      var i :| 0 <= i < |subs| && subs[i] == s;
      var j := DetailValue(subs, s.key);
      assert j == i;
    }
  }

  /** With keys of their own for the deciders the detail says what success says. */
  lemma OwnKeysAgree(a: Assignment, types: seq<string>, attempts: seq<Attempt>)
    requires |types| == |attempts| && DecidersHaveOwnKeys(a, types)
    ensures var r := ResultFor(a, types, attempts); r.success == DetailSucceeds(r.detail)
  {
    hide Performable, DetailLabel, Detail, Success, DetailSucceeds;
    var subs := Subs(a, types, attempts);
    SubsAreNamed(a, types, attempts);
    if "icmp" in types {
      var i :| 0 <= i < |types| && types[i] == "icmp";
      if Performable(a, "icmp") {
        PingKeyDecides(subs, i);
      } else {
        NoPingAnswered(subs, i);
      }
    } else {
      OtherKeysDecide(subs);
    }
  }

  /** Only check i fails if it is a ping, and only check i is answered if it is not. */
  ghost function Clash(types: seq<string>, i: nat): seq<Attempt>
    requires i < |types|
  {
    seq(|types|, k requires 0 <= k < |types| => Reply((k == i) != (types[i] == "icmp"), None))
  }

  lemma HiddenFailure(subs: seq<SubResult>, i: nat, j: nat)
    requires PingsAreNamed(subs) && i < j < |subs| && subs[i].isIcmp && subs[j].isIcmp
    requires forall m | 0 <= m < |subs| && subs[m].isIcmp :: subs[m].ok <==> m != i
    ensures !Success(subs) && DetailSucceeds(Detail(subs))
  {
    hide Detail;
    assert subs[i] in subs && subs[j] in subs;
    var last := DetailValue(subs, "icmp");
    assert subs[last] in subs;
  }

  lemma HiddenSuccess(subs: seq<SubResult>, i: nat, j: nat)
    requires PingsAreNamed(subs) && i < j < |subs| && subs[i].key == subs[j].key
    requires forall s | s in subs :: !s.isIcmp
    requires forall m | 0 <= m < |subs| :: subs[m].ok <==> m == i
    ensures Success(subs) && !DetailSucceeds(Detail(subs))
  {
    hide Detail;
    assert subs[i] in subs;
    forall k | k in Detail(subs) ensures k != "icmp" && !Detail(subs)[k] {
      KeyHasSub(subs, k);
      var last := DetailValue(subs, k);
      assert subs[last] in subs;
    }
  }

  /** Two deciding checks under one key can make the detail contradict success. */
  lemma SharedKeyDisagrees(a: Assignment, types: seq<string>) returns (attempts: seq<Attempt>)
    requires !DecidersHaveOwnKeys(a, types)
    ensures |types| == |attempts|
    ensures var r := ResultFor(a, types, attempts); r.success != DetailSucceeds(r.detail)
  {
    hide Performable, DetailLabel, Detail, Success, DetailSucceeds;
    var i, j :| 0 <= i < j < |types| && DetailLabel(types[i], a.port) == DetailLabel(types[j], a.port)
                && Performable(a, types[i]) && !("icmp" in types && types[i] != "icmp");
    attempts := Clash(types, i);
    var subs := Subs(a, types, attempts);
    SubsAreNamed(a, types, attempts);
    assert forall m | 0 <= m < |types| :: types[m] in types;
    if types[i] == "icmp" {
      HiddenFailure(subs, i, j);
    } else {
      HiddenSuccess(subs, i, j);
    }
  }

  /** The detail map tells success whatever the host answers if and only if no check that can be
      performed and that decides about success shares its key with a later one. */
  lemma DetailTellsSuccessExactly(a: Assignment, types: seq<string>)
    ensures (forall attempts | |attempts| == |types| ::
               ResultFor(a, types, attempts).success == DetailSucceeds(ResultFor(a, types, attempts).detail))
            <==> DecidersHaveOwnKeys(a, types)
  {
    hide DetailLabel, Performable, DecidersHaveOwnKeys, ResultFor;
    if DecidersHaveOwnKeys(a, types) {
      forall attempts | |attempts| == |types|
        ensures ResultFor(a, types, attempts).success == DetailSucceeds(ResultFor(a, types, attempts).detail)
      {
        OwnKeysAgree(a, types, attempts);
      }
    } else {
      var attempts := SharedKeyDisagrees(a, types);
    }
  }

  /** "icmp, icmp" is such a configuration, for every host that can be pinged. */
  lemma TwoPingsCanDisagree(a: Assignment) returns (attempts: seq<Attempt>)
    requires a.checkType == "icmp, icmp" && ValidTarget(NetworkTarget(a))
    ensures Fits(a, attempts)
    ensures ResultOf(a, attempts).success != DetailSucceeds(ResultOf(a, attempts).detail)
  {
    hide ParseCheckTypes, ResultFor, DetailSucceeds, ValidTarget, NetworkTarget;
    TwoPingsParsed();
    attempts := SharedPingDisagrees(a);
  }

  lemma SharedPingDisagrees(a: Assignment) returns (attempts: seq<Attempt>)
    requires ValidTarget(NetworkTarget(a))
    ensures |attempts| == 2
    ensures var r := ResultFor(a, ["icmp", "icmp"], attempts); r.success != DetailSucceeds(r.detail)
  {
    hide ResultFor, DetailSucceeds, ValidTarget, NetworkTarget;
    var types := ["icmp", "icmp"];
    assert types[0] == types[1] == "icmp";
    attempts := SharedKeyDisagrees(a, types);
  }
}
