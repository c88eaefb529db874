/** Adding scanned hosts (backend/routers/subnet_scanner.py): an index of the monitored hosts, the match
    of a scan result against it, and the loop that adds what is not matched. */
module AutoAdd {
  import opened Options
  import Text

  /** The fields of a monitored host that matching looks at. */
  datatype Host = Host(name: string, hostname: string)

  /** dnsName is "" when there is none. */
  datatype ScanResult = ScanResult(ip: string, alive: bool, dnsName: string)

  /** A hostname as the index knows it: without scheme, path and port. */
  function HostKey(hostname: string): string {
    var bare := Text.DropPrefix(Text.DropPrefix(Text.Strip(hostname), "https://"), "http://");
    Text.Lower(Text.UpTo(Text.UpTo(bare, '/'), ':'))
  }

  function NameKey(name: string): string {
    Text.Lower(Text.Strip(name))
  }

  /** What is left of a hostname: from url, which neither starts nor ends blank, first "https://" and then
      "http://" is dropped; of the rest only what comes before the first slash or colon counts, in lower
      case. */
  lemma HostKeyExactly(left: string, scheme: string, host: string, rest: string, right: string)
    requires forall c | c in left || c in right :: c in {' ', '\t', '\n', '\r'}
    requires var url := scheme + host + rest;
             url != "" ==> url[0] !in {' ', '\t', '\n', '\r'} && url[|url| - 1] !in {' ', '\t', '\n', '\r'}
    requires scheme in {"", "https://", "http://", "https://http://"}
    requires scheme == "" ==> !("https://" <= host + rest)
    requires scheme in {"", "https://"} ==> !("http://" <= host + rest)
    requires '/' !in host && ':' !in host && (rest == "" || rest[0] == '/' || rest[0] == ':')
    ensures HostKey(left + scheme + host + rest + right) == Text.Lower(host)
  {
    hide HostKey, Text.Strip, Text.UpTo, Text.Lower, Text.DropPrefix;
    var url := scheme + host + rest;
    Text.StripExactly(left, url, right);
    assert left + scheme + host + rest + right == left + url + right;
    assert url == scheme + (host + rest);
    SchemeIsDropped(scheme, host + rest);
    BareHost(host, rest);
    KeyOfParts(left + scheme + host + rest + right, url, host + rest, host);
  }

  lemma KeyOfParts(s: string, url: string, bare: string, host: string)
    requires Text.Strip(s) == url
    requires Text.DropPrefix(Text.DropPrefix(url, "https://"), "http://") == bare
    requires Text.UpTo(Text.UpTo(bare, '/'), ':') == host
    ensures HostKey(s) == Text.Lower(host)
  {
  }

  lemma SchemeIsDropped(scheme: string, bare: string)
    requires scheme in {"", "https://", "http://", "https://http://"}
    requires scheme == "" ==> !("https://" <= bare)
    requires scheme in {"", "https://"} ==> !("http://" <= bare)
    ensures Text.DropPrefix(Text.DropPrefix(scheme + bare, "https://"), "http://") == bare
  {
    if scheme == "" {
      assert scheme + bare == bare;
    } else if scheme == "https://" {
      assert (scheme + bare)[8..] == bare;
    } else if scheme == "http://" {
      assert (scheme + bare)[4] == ':' && "https://"[4] == 's';
      assert (scheme + bare)[7..] == bare;
    } else {
      assert "https://http://" == "https://" + "http://";
      assert (scheme + bare)[8..] == "http://" + bare;
      assert ("http://" + bare)[7..] == bare;
    }
  }

  lemma BareHost(host: string, rest: string)
    requires '/' !in host && ':' !in host && (rest == "" || rest[0] == '/' || rest[0] == ':')
    ensures Text.UpTo(Text.UpTo(host + rest, '/'), ':') == host
  {
    Text.UpToSkips(host, rest, '/');
    var before := Text.UpTo(rest, '/');
    Text.UpToSkips(host, before, ':');
  }

  /** A name counts without the blanks around it and in lower case. */
  lemma NameKeyExactly(left: string, name: string, right: string)
    requires forall c | c in left || c in right :: c in {' ', '\t', '\n', '\r'}
    requires name != "" ==>
               name[0] !in {' ', '\t', '\n', '\r'} && name[|name| - 1] !in {' ', '\t', '\n', '\r'}
    ensures NameKey(left + name + right) == Text.Lower(name)
  {
    Text.StripExactly(left, name, right);
  }

  function Enter(idx: map<string, Host>, key: string, h: Host): map<string, Host> {
    if key == "" then idx else idx[key := h]
  }

  function Index(hosts: seq<Host>): map<string, Host> {
    if hosts == [] then map[] else
    var h := hosts[|hosts| - 1];
    Enter(Enter(Index(hosts[..|hosts| - 1]), HostKey(h.hostname), h), NameKey(h.name), h)
  }

  /** The keys a scan result is looked up by. */
  function LookupKeys(r: ScanResult): seq<string> {
    if r.dnsName == "" then [r.ip]
    else [r.ip, Text.Lower(r.dnsName), Text.Lower(Text.UpTo(r.dnsName, '.'))]
  }

  function Match(r: ScanResult, idx: map<string, Host>): Option<Host> {
    if r.ip in idx then Some(idx[r.ip])
    else if r.dnsName == "" then None
    else if Text.Lower(r.dnsName) in idx then Some(idx[Text.Lower(r.dnsName)])
    else if Text.Lower(Text.UpTo(r.dnsName, '.')) in idx then Some(idx[Text.Lower(Text.UpTo(r.dnsName, '.'))])
    else None
  }

  ghost predicate Matched(r: ScanResult, keys: set<string>) {
    exists k :: k in LookupKeys(r) && k in keys
  }

  /** A result is matched exactly when one of its keys is in the index. */
  lemma MatchFindsExactly(r: ScanResult, idx: map<string, Host>)
    ensures Match(r, idx).Some? <==> Matched(r, idx.Keys)
  {
    var keys := LookupKeys(r);
    assert keys[0] == r.ip;
    if r.dnsName != "" {
      assert keys[1] == Text.Lower(r.dnsName) && keys[2] == Text.Lower(Text.UpTo(r.dnsName, '.'));
    }
  }

  lemma LookupKeysExactly(r: ScanResult)
    ensures forall k :: k in LookupKeys(r) <==>
              k == r.ip || (r.dnsName != "" && k in {Text.Lower(r.dnsName), Text.Lower(Text.UpTo(r.dnsName, '.'))})
  {
  }

  /** The match is by the address before the DNS name, and by the name before its first label. */
  lemma MatchPrefers(r: ScanResult, idx: map<string, Host>, k: string)
    requires k in LookupKeys(r) && k in idx && Match(r, idx) != Some(idx[k])
    ensures k != r.ip
    ensures r.ip in idx || (k != Text.Lower(r.dnsName) && Text.Lower(r.dnsName) in idx)
  {
  }

  // ---- The loop ----

  datatype State = State(idx: map<string, Host>, addresses: set<string>, added: seq<Host>)

  function Addresses(hosts: seq<Host>): set<string> {
    set h | h in hosts :: Text.Strip(h.hostname)
  }

  function NewHost(r: ScanResult): Host {
    Host(if r.dnsName == "" then r.ip else Text.UpTo(r.dnsName, '.'), r.ip)
  }

  /** A host is added under its address, and named by the first label of its DNS name, or by its address
      if it has none. */
  lemma NewHostExactly(ip: string, alive: bool, first: string, more: string)
    requires '.' !in first
    ensures NewHost(ScanResult(ip, alive, "")) == Host(ip, ip)
    ensures first != "" ==> NewHost(ScanResult(ip, alive, first)) == Host(first, ip)
    ensures NewHost(ScanResult(ip, alive, first + "." + more)) == Host(first, ip)
  {
    Text.UpToOfMissing(first, '.');
    Text.UpToExactly(first, '.', more);
  }

  predicate Adds(s: State, r: ScanResult, valid: string -> bool) {
    r.alive && Match(r, s.idx).None? && r.ip !in s.addresses && valid(r.ip)
  }

  function Step(s: State, r: ScanResult, valid: string -> bool): State {
    if Adds(s, r, valid) then
      State(s.idx[r.ip := NewHost(r)], s.addresses + {r.ip}, s.added + [NewHost(r)])
    else s
  }

  function Scan(hosts: seq<Host>, results: seq<ScanResult>, valid: string -> bool): State {
    if results == [] then State(Index(hosts), Addresses(hosts), [])
    else Step(Scan(hosts, results[..|results| - 1], valid), results[|results| - 1], valid)
  }

  lemma IndexOfNone(hosts: seq<Host>)
    ensures Index(hosts[..0]) == map[]
  {
  }

  lemma IndexOneMore(hosts: seq<Host>, i: nat)
    requires i < |hosts|
    ensures Index(hosts[..i + 1])
         == Enter(Enter(Index(hosts[..i]), HostKey(hosts[i].hostname), hosts[i]), NameKey(hosts[i].name), hosts[i])
  {
    hide HostKey, NameKey, Enter;
    assert hosts[..i + 1][..i] == hosts[..i];
  }

  class HostTable {
    var hosts: seq<Host>

    constructor (hosts: seq<Host>)
      ensures this.hosts == hosts
    {
      this.hosts := hosts;
    }

    method BuildMonitoredIndex() returns (idx: map<string, Host>)
      ensures idx == Index(hosts)
    {
      hide Index, HostKey, NameKey;
      idx := map[];
      IndexOfNone(hosts);
      for i := 0 to |hosts|
        invariant idx == Index(hosts[..i])
      {
        IndexOneMore(hosts, i);
        var h := hosts[i];
        var hostname := HostKey(h.hostname);
        if hostname != "" {
          idx := idx[hostname := h];
        }
        var name := NameKey(h.name);
        if name != "" {
          idx := idx[name := h];
        }
      }
      assert hosts[..|hosts|] == hosts;
    }

    method AutoAddHosts(results: seq<ScanResult>, valid: string -> bool) returns (count: nat)
      modifies this
      ensures hosts == old(hosts) + Scan(old(hosts), results, valid).added
      ensures count == |hosts| - |old(hosts)|
    {
      hide Index, Match, Addresses, NewHost;
      var idx := BuildMonitoredIndex();
      var existing := Addresses(hosts);
      var added: seq<Host> := [];
      for i := 0 to |results|
        invariant hosts == old(hosts)
        invariant State(idx, existing, added) == Scan(hosts, results[..i], valid)
      {
        assert results[..i + 1][..i] == results[..i];
        var r := results[i];
        if r.alive {
          if Match(r, idx).None? && r.ip !in existing && valid(r.ip) {
            var h := NewHost(r);
            existing := existing + {r.ip};
            idx := idx[r.ip := h];
            added := added + [h];
          }
        }
      }
      assert results[..|results|] == results;
      hosts := hosts + added;
      count := |added|;
    }
  }

  // ---- What a scan leaves ----

  ghost predicate Covered(r: ScanResult, s: State, valid: string -> bool) {
    r.alive && valid(r.ip) ==> Matched(r, s.idx.Keys) || r.ip in s.addresses
  }

  ghost predicate AddedOnce(s: State) {
    forall i, j | 0 <= i < j < |s.added| :: s.added[i].hostname != s.added[j].hostname
  }

  /** The state of the loop against the hosts it started from. */
  ghost predicate ScanInvariant(hosts: seq<Host>, s: State) {
    && s.idx.Keys == Index(hosts).Keys + (set h | h in s.added :: h.hostname)
    && s.addresses == Addresses(hosts) + (set h | h in s.added :: h.hostname)
    && AddedOnce(s)
    && (forall h | h in s.added :: h.hostname !in Addresses(hosts))
  }

  lemma StepKeepsInvariant(hosts: seq<Host>, s: State, r: ScanResult, valid: string -> bool)
    requires ScanInvariant(hosts, s)
    ensures ScanInvariant(hosts, Step(s, r, valid))
  {
    hide Index, Addresses, Match;
    if Adds(s, r, valid) {
      var s' := Step(s, r, valid);
      var h := NewHost(r);
      assert forall g :: g in s'.added <==> g in s.added || g == h;
      assert (set g | g in s'.added :: g.hostname) == (set g | g in s.added :: g.hostname) + {r.ip};
      forall i | 0 <= i < |s.added| ensures s.added[i].hostname != r.ip {
        assert s.added[i] in s.added;
      }
    }
  }

  lemma {:induction false} ScanKeepsInvariant(hosts: seq<Host>, results: seq<ScanResult>, valid: string -> bool)
    ensures ScanInvariant(hosts, Scan(hosts, results, valid))
  {
    hide ScanInvariant, Step, Index, Addresses;
    if results == [] {
      assert ScanInvariant(hosts, Scan(hosts, results, valid)) by { EmptyScan(hosts, valid); }
    } else {
      var n := |results| - 1;
      ScanKeepsInvariant(hosts, results[..n], valid);
      StepKeepsInvariant(hosts, Scan(hosts, results[..n], valid), results[n], valid);
    }
  }

  lemma EmptyScan(hosts: seq<Host>, valid: string -> bool)
    ensures ScanInvariant(hosts, Scan(hosts, [], valid))
  {
  }

  lemma {:induction false} ScanCovers(hosts: seq<Host>, results: seq<ScanResult>, valid: string -> bool)
    ensures forall r | r in results :: Covered(r, Scan(hosts, results, valid), valid)
    ensures forall h | h in Scan(hosts, results, valid).added ::
              exists r :: r in results && r.alive && valid(r.ip) && h == NewHost(r)
  {
    if results != [] {
      hide Index, Addresses, Match, NewHost, LookupKeys;
      var n := |results| - 1;
      var before, last := results[..n], results[n];
      var s := Scan(hosts, before, valid);
      ScanCovers(hosts, before, valid);
      assert results == before + [last];
      assert forall r :: r in results <==> r in before || r == last;
      MatchFindsExactly(last, s.idx);
      forall r | r in before ensures Covered(r, Scan(hosts, results, valid), valid) {
        assert Covered(r, s, valid);
      }
    }
  }

  /** Every live result with a valid address ends up matched, or is the address of some host; the added
      hosts have distinct addresses that no host had before. */
  lemma EveryLiveAddressIsCovered(hosts: seq<Host>, results: seq<ScanResult>, valid: string -> bool)
    ensures var s := Scan(hosts, results, valid);
            && AddedOnce(s)
            && (forall h | h in s.added :: h.hostname !in Addresses(hosts))
            && (forall r | r in results && r.alive && valid(r.ip) ::
                  Matched(r, s.idx.Keys) || r.ip in Addresses(hosts) || exists h :: h in s.added && h.hostname == r.ip)
  {
    hide Index, Addresses;
    var s := Scan(hosts, results, valid);
    ScanKeepsInvariant(hosts, results, valid);
    ScanCovers(hosts, results, valid);
    forall r | r in results && r.alive && valid(r.ip)
      ensures Matched(r, s.idx.Keys) || r.ip in Addresses(hosts) || exists h :: h in s.added && h.hostname == r.ip
    {
      assert Covered(r, s, valid);
    }
  }

  // ---- A second scan with the same results ----

  lemma EnterKeys(idx: map<string, Host>, key: string, h: Host)
    ensures forall k :: k in Enter(idx, key, h).Keys <==> k in idx.Keys || (k != "" && k == key)
  {
  }

  lemma LastKeys(hosts: seq<Host>)
    requires hosts != []
    ensures var n := |hosts| - 1;
            forall k :: k in Index(hosts).Keys <==>
              || k in Index(hosts[..n]).Keys
              || (k != "" && (k == HostKey(hosts[n].hostname) || k == NameKey(hosts[n].name)))
  {
    hide HostKey, NameKey, Enter;
    var n := |hosts| - 1;
    var h := hosts[n];
    EnterKeys(Index(hosts[..n]), HostKey(h.hostname), h);
    EnterKeys(Enter(Index(hosts[..n]), HostKey(h.hostname), h), NameKey(h.name), h);
  }

  lemma {:induction false} IndexKeys(hosts: seq<Host>)
    ensures forall k :: k in Index(hosts).Keys <==>
              k != "" && exists h :: h in hosts && (k == HostKey(h.hostname) || k == NameKey(h.name))
  {
    if hosts != [] {
      hide HostKey, NameKey;
      var n := |hosts| - 1;
      var h := hosts[n];
      IndexKeys(hosts[..n]);
      LastKeys(hosts);
      assert hosts == hosts[..n] + [h];
      forall k | k in Index(hosts).Keys
        ensures k != "" && exists g :: g in hosts && (k == HostKey(g.hostname) || k == NameKey(g.name))
      {
        if k in Index(hosts[..n]).Keys {
          var g :| g in hosts[..n] && (k == HostKey(g.hostname) || k == NameKey(g.name));
          assert g in hosts;
        }
      }
    }
  }

  /** The host is recognised in the result: by its address, its bare hostname or its name. */
  ghost predicate Knows(h: Host, r: ScanResult) {
    || Text.Strip(h.hostname) == r.ip
    || (HostKey(h.hostname) != "" && HostKey(h.hostname) in LookupKeys(r))
    || (NameKey(h.name) != "" && NameKey(h.name) in LookupKeys(r))
  }

  ghost predicate Known(r: ScanResult, hosts: seq<Host>) {
    exists h :: h in hosts && Knows(h, r)
  }

  /** The index and the set of addresses recognise a result exactly when some host does. */
  lemma KnownExactly(r: ScanResult, hosts: seq<Host>)
    ensures Known(r, hosts) <==> r.ip in Addresses(hosts) || Matched(r, Index(hosts).Keys)
  {
    hide Index, HostKey, NameKey, LookupKeys, Text.Strip;
    IndexKeys(hosts);
    if Matched(r, Index(hosts).Keys) {
      var k :| k in LookupKeys(r) && k in Index(hosts).Keys;
      var h :| h in hosts && (k == HostKey(h.hostname) || k == NameKey(h.name));
      assert Knows(h, r);
    }
    if r.ip in Addresses(hosts) {
      var h :| h in hosts && Text.Strip(h.hostname) == r.ip;
      assert Knows(h, r);
    }
  }

  /** ipaddress accepts neither blanks around an address nor an empty one. */
  ghost predicate RejectsBlanks(valid: string -> bool) {
    forall s :: valid(s) ==> s != "" && Text.Strip(s) == s
  }

  /** No host knows the result, and one of its keys is, letter for letter, the address of an added host,
      which the index built from the stored hosts does not hold. */
  ghost predicate LeansOnAdded(r: ScanResult, hosts: seq<Host>, added: seq<Host>) {
    && !Known(r, hosts + added)
    && exists h :: h in added && h.hostname in LookupKeys(r) && HostKey(h.hostname) != h.hostname
  }

  lemma AddressesOfBoth(hosts: seq<Host>, added: seq<Host>)
    requires forall h | h in added :: Text.Strip(h.hostname) == h.hostname
    ensures Addresses(hosts + added) == Addresses(hosts) + (set h | h in added :: h.hostname)
  {
    assert forall h :: h in hosts + added <==> h in hosts || h in added;
  }

  lemma UncoveredLeans(hosts: seq<Host>, results: seq<ScanResult>, valid: string -> bool, r: ScanResult)
    requires RejectsBlanks(valid) && r in results && r.alive && valid(r.ip)
    requires !Known(r, hosts + Scan(hosts, results, valid).added)
    ensures LeansOnAdded(r, hosts, Scan(hosts, results, valid).added)
  {
    hide Index, Addresses, HostKey, LookupKeys, NewHost, Scan, Known;
    var s := Scan(hosts, results, valid);
    KnownExactly(r, hosts + s.added);
    ScanKeepsInvariant(hosts, results, valid);
    ScanCovers(hosts, results, valid);
    AddedAreStripped(hosts, results, valid);
    AddressesOfBoth(hosts, s.added);
    assert Covered(r, s, valid);
    var k :| k in LookupKeys(r) && k in s.idx.Keys;
    assert k !in Index(hosts).Keys by {
      if k in Index(hosts).Keys { OldKeysStay(hosts, s.added, k); }
    }
    var h :| h in s.added && h.hostname == k;
    if HostKey(h.hostname) == h.hostname {
      AddressKeyIsIndexed(hosts, s.added, h, r);
    }
  }

  lemma OldKeysStay(hosts: seq<Host>, added: seq<Host>, k: string)
    requires k in Index(hosts).Keys
    ensures k in Index(hosts + added).Keys
  {
    hide HostKey, NameKey;
    IndexKeys(hosts);
    IndexKeys(hosts + added);
    var h :| h in hosts && (k == HostKey(h.hostname) || k == NameKey(h.name));
    assert h in hosts + added;
  }

  lemma AddressKeyIsIndexed(hosts: seq<Host>, added: seq<Host>, h: Host, r: ScanResult)
    requires h in added && HostKey(h.hostname) == h.hostname && h.hostname in LookupKeys(r)
    requires r.ip !in Addresses(hosts + added)
    ensures Matched(r, Index(hosts + added).Keys) || h.hostname == ""
  {
    hide HostKey, NameKey, LookupKeys;
    IndexKeys(hosts + added);
    assert h in hosts + added;
  }

  lemma AddedAreStripped(hosts: seq<Host>, results: seq<ScanResult>, valid: string -> bool)
    requires RejectsBlanks(valid)
    ensures forall h | h in Scan(hosts, results, valid).added ::
              valid(h.hostname) && h.hostname != "" && Text.Strip(h.hostname) == h.hostname
  {
    hide Scan, Text.Strip;
    ScanCovers(hosts, results, valid);
  }

  lemma SecondScanByAdded(hosts: seq<Host>, results: seq<ScanResult>, valid: string -> bool)
    requires RejectsBlanks(valid)
    ensures var added := Scan(hosts, results, valid).added;
            Scan(hosts + added, results, valid).added == [] <==>
              forall r | r in results && r.alive && valid(r.ip) :: !LeansOnAdded(r, hosts, added)
  {
    hide Scan, HostKey, LookupKeys, Known, RejectsBlanks;
    var added := Scan(hosts, results, valid).added;
    AddsNothingExactly(hosts + added, results, valid);
    forall r | r in results && r.alive && valid(r.ip) && !Known(r, hosts + added)
      ensures LeansOnAdded(r, hosts, added)
    {
      UncoveredLeans(hosts, results, valid, r);
    }
  }

  /** A scan adds nothing exactly when every live result with a valid address is known to some host. */
  lemma AddsNothingExactly(hosts: seq<Host>, results: seq<ScanResult>, valid: string -> bool)
    ensures Scan(hosts, results, valid).added == [] <==>
              forall r | r in results && r.alive && valid(r.ip) :: Known(r, hosts)
  {
    hide Scan, Known, Matched, Index, Addresses;
    AddsNothingByIndex(hosts, results, valid);
    forall r: ScanResult ensures Known(r, hosts) <==> r.ip in Addresses(hosts) || Matched(r, Index(hosts).Keys) {
      KnownExactly(r, hosts);
    }
  }

  lemma AddsAtFirst(hosts: seq<Host>, r: ScanResult, valid: string -> bool)
    ensures Adds(State(Index(hosts), Addresses(hosts), []), r, valid) <==>
              r.alive && valid(r.ip) && r.ip !in Addresses(hosts) && !Matched(r, Index(hosts).Keys)
  {
    hide Index, Addresses, Match, LookupKeys, Matched;
    MatchFindsExactly(r, Index(hosts));
  }

  lemma {:induction false} AddsNothingByIndex(hosts: seq<Host>, results: seq<ScanResult>, valid: string -> bool)
    ensures Scan(hosts, results, valid).added == [] <==>
              forall r | r in results && r.alive && valid(r.ip) ::
                r.ip in Addresses(hosts) || Matched(r, Index(hosts).Keys)
    ensures Scan(hosts, results, valid).added == [] ==>
              Scan(hosts, results, valid) == State(Index(hosts), Addresses(hosts), [])
  {
    if results != [] {
      hide Index, Addresses, Match, LookupKeys, NewHost, Matched, Adds;
      var n := |results| - 1;
      var before, last := results[..n], results[n];
      AddsNothingByIndex(hosts, before, valid);
      assert results == before + [last];
      assert forall r :: r in results <==> r in before || r == last;
      AddsAtFirst(hosts, last, valid);
    } else {
      assert Scan(hosts, results, valid) == State(Index(hosts), Addresses(hosts), []);
    }
  }

  // ---- The same, over the hosts and the results alone ----

  /** Result i is added: it is live and valid, no host knows it, and no earlier result that was added has
      an address among its keys. */
  ghost predicate Chosen(hosts: seq<Host>, results: seq<ScanResult>, valid: string -> bool, i: nat)
    requires i < |results|
  {
    var r := results[i];
    && r.alive && valid(r.ip) && !Known(r, hosts)
    && forall j: nat | j < i && Chosen(hosts, results, valid, j) :: results[j].ip !in LookupKeys(r)
  }

  lemma {:induction false} ChosenInPrefix(hosts: seq<Host>, results: seq<ScanResult>, valid: string -> bool,
                                          n: nat, i: nat)
    requires i < n <= |results|
    ensures Chosen(hosts, results[..n], valid, i) <==> Chosen(hosts, results, valid, i)
    decreases i
  {
    hide Known, LookupKeys;
    forall j: nat | j < i ensures Chosen(hosts, results[..n], valid, j) <==> Chosen(hosts, results, valid, j) {
      ChosenInPrefix(hosts, results, valid, n, j);
    }
  }

  lemma AddsExactly(hosts: seq<Host>, s: State, r: ScanResult, valid: string -> bool)
    requires ScanInvariant(hosts, s)
    ensures Adds(s, r, valid) <==>
              r.alive && valid(r.ip) && !Known(r, hosts) && forall h | h in s.added :: h.hostname !in LookupKeys(r)
  {
    hide Known, Index, Addresses, Match, AddedOnce;
    KnownExactly(r, hosts);
    MatchFindsExactly(r, s.idx);
    assert LookupKeys(r)[0] == r.ip;
  }

  /** The added hosts are those of the chosen results. */
  lemma {:induction false} AddedExactly(hosts: seq<Host>, results: seq<ScanResult>, valid: string -> bool)
    ensures forall h :: h in Scan(hosts, results, valid).added <==>
              exists i: nat :: i < |results| && Chosen(hosts, results, valid, i) && h == NewHost(results[i])
  {
    if results != [] {
      hide Known, LookupKeys, Index, Addresses, Adds, NewHost, ScanInvariant, Chosen;
      var n := |results| - 1;
      var s := Scan(hosts, results[..n], valid);
      AddedExactly(hosts, results[..n], valid);
      forall i: nat | i < n ensures Chosen(hosts, results[..n], valid, i) <==> Chosen(hosts, results, valid, i) {
        ChosenInPrefix(hosts, results, valid, n, i);
      }
      LastIsChosenExactly(hosts, results, valid);
    }
  }

  lemma LastIsChosenExactly(hosts: seq<Host>, results: seq<ScanResult>, valid: string -> bool)
    requires results != []
    requires var n := |results| - 1;
             forall h :: h in Scan(hosts, results[..n], valid).added <==>
               exists i: nat :: i < n && Chosen(hosts, results, valid, i) && h == NewHost(results[i])
    ensures var n := |results| - 1;
            Adds(Scan(hosts, results[..n], valid), results[n], valid) <==> Chosen(hosts, results, valid, n)
  {
    hide Known, LookupKeys, Index, Addresses, Adds, ScanInvariant, Scan;
    var n := |results| - 1;
    var s := Scan(hosts, results[..n], valid);
    ScanKeepsInvariant(hosts, results[..n], valid);
    AddsExactly(hosts, s, results[n], valid);
    forall j: nat | j < n && Chosen(hosts, results, valid, j) ensures NewHost(results[j]) in s.added {
    }
  }

  /** Result i was passed over for a chosen result whose raw address is one of its keys, and none of the
      hosts stored for chosen results knows it. */
  ghost predicate LeansOnRawAddress(hosts: seq<Host>, results: seq<ScanResult>, valid: string -> bool, i: nat)
    requires i < |results|
  {
    var r := results[i];
    && r.alive && valid(r.ip) && !Known(r, hosts)
    && (exists j: nat :: j < |results| && Chosen(hosts, results, valid, j) && results[j].ip in LookupKeys(r)
                         && HostKey(results[j].ip) != results[j].ip)
    && (forall j: nat | j < |results| && Chosen(hosts, results, valid, j) :: !Knows(NewHost(results[j]), r))
  }

  lemma KnownByEither(r: ScanResult, hosts: seq<Host>, added: seq<Host>)
    ensures Known(r, hosts + added) <==> Known(r, hosts) || Known(r, added)
  {
    hide Knows;
    assert forall h :: h in hosts + added <==> h in hosts || h in added;
  }

  lemma LeansExactly(hosts: seq<Host>, results: seq<ScanResult>, valid: string -> bool, i: nat)
    requires i < |results| && results[i].alive && valid(results[i].ip)
    ensures LeansOnRawAddress(hosts, results, valid, i) <==>
              LeansOnAdded(results[i], hosts, Scan(hosts, results, valid).added)
  {
    hide Knows, LookupKeys, HostKey, Scan, Chosen;
    var r, added := results[i], Scan(hosts, results, valid).added;
    AddedExactly(hosts, results, valid);
    KnownByEither(r, hosts, added);
    assert forall j: nat | j < |results| && Chosen(hosts, results, valid, j) :: NewHost(results[j]) in added;
  }

  /** A second scan with the same results adds nothing if and only if the first one passed no result
      over for a raw address that it did not keep. */
  lemma SecondScanAddsNothingExactly(hosts: seq<Host>, results: seq<ScanResult>, valid: string -> bool)
    requires RejectsBlanks(valid)
    ensures var added := Scan(hosts, results, valid).added;
            Scan(hosts + added, results, valid).added == [] <==>
              forall i: nat | i < |results| :: !LeansOnRawAddress(hosts, results, valid, i)
  {
    hide Scan, LeansOnAdded, RejectsBlanks;
    var added := Scan(hosts, results, valid).added;
    SecondScanByAdded(hosts, results, valid);
    forall i: nat | i < |results| && results[i].alive && valid(results[i].ip)
      ensures LeansOnRawAddress(hosts, results, valid, i) <==> LeansOnAdded(results[i], hosts, added)
    {
      LeansExactly(hosts, results, valid, i);
    }
    assert forall i | 0 <= i < |results| :: results[i] in results;
  }

  /** In particular when no live result that the hosts do not know is named by the address of another
      such one, unless that address is its own index key; IPv4 addresses are. */
  lemma PlainNamesAreIdempotent(hosts: seq<Host>, results: seq<ScanResult>, valid: string -> bool)
    requires RejectsBlanks(valid)
    requires forall r, q | r in results && q in results && r.alive && valid(r.ip) && q.alive && valid(q.ip)
                           && !Known(r, hosts) && !Known(q, hosts) ::
               q.ip in LookupKeys(r) && q.ip != r.ip ==> HostKey(q.ip) == q.ip
    ensures var added := Scan(hosts, results, valid).added; Scan(hosts + added, results, valid).added == []
  {
    hide Scan, HostKey, LookupKeys, Knows, RejectsBlanks, Known;
    SecondScanAddsNothingExactly(hosts, results, valid);
    forall i: nat | i < |results| ensures !LeansOnRawAddress(hosts, results, valid, i) {
      var r := results[i];
      if j: nat :| j < |results| && Chosen(hosts, results, valid, j) && results[j].ip in LookupKeys(r)
                   && HostKey(results[j].ip) != results[j].ip && r.alive && valid(r.ip) && !Known(r, hosts)
      {
        assert results[j] in results && r in results;
        assert results[j].ip == r.ip;
        ValidIsTight(valid, r.ip);
        OwnAddressKnows(NewHost(results[j]), r);
      }
    }
  }

  lemma ValidIsTight(valid: string -> bool, ip: string)
    requires RejectsBlanks(valid) && valid(ip)
    ensures Text.Strip(ip) == ip
  {
  }

  lemma OwnAddressKnows(h: Host, r: ScanResult)
    requires h.hostname == r.ip && Text.Strip(h.hostname) == h.hostname
    ensures Knows(h, r)
  {
  }

  lemma DottedDigitsAreTheirOwnKey(ip: string)
    requires ip != "" && forall c | c in ip :: '0' <= c <= '9' || c == '.'
    ensures HostKey(ip) == ip
  {
    assert ip[0] in ip && ip[|ip| - 1] in ip;
    Text.StripOfTight(ip);
    Text.UpToOfMissing(ip, '/');
    Text.UpToOfMissing(ip, ':');
    Text.LowerOfLower(ip);
  }

  lemma ColonAddressIsNotItsKey(ip: string)
    requires ':' in ip
    ensures HostKey(ip) != ip
  {
    var bare := Text.DropPrefix(Text.DropPrefix(Text.Strip(ip), "https://"), "http://");
    var short := Text.UpTo(Text.UpTo(bare, '/'), ':');
    assert ':' !in short;
    assert forall i | 0 <= i < |short| :: short[i] in short;
    assert forall i | 0 <= i < |short| :: Text.Lower(short)[i] != ':';
  }

  /** A second scan can add a host: its DNS name is the IPv6 address of a host added in the first one,
      under another name. */
  lemma SecondScanCanAdd(a: string, d: string, b: string, valid: string -> bool)
    requires RejectsBlanks(valid) && valid(a) && valid(b)
    requires ':' in a && '.' !in a && Text.Lower(a) == a
    requires d != "" && NameKey(Text.UpTo(d, '.')) !in {a, b}
    requires b != a && b != HostKey(a)
    ensures var results := [ScanResult(a, true, d), ScanResult(b, true, a)];
            var added := Scan([], results, valid).added;
            && added == [Host(Text.UpTo(d, '.'), a)]
            && Scan(added, results, valid).added == [Host(Text.UpTo(a, '.'), b)]
  {
    hide HostKey, NameKey, RejectsBlanks, Text.Lower, Text.Strip, Text.UpTo, Step, Scan, Index, Addresses;
    var r1, r2 := ScanResult(a, true, d), ScanResult(b, true, a);
    var h := Host(Text.UpTo(d, '.'), a);
    ScanOfTwo([], r1, r2, valid);
    ScanOfTwo([h], r1, r2, valid);
    FirstScanAddsOne(r1, r2, h, valid);
    SecondScanAddsOther(r1, r2, h, valid);
  }

  lemma ScanOfTwo(hosts: seq<Host>, r1: ScanResult, r2: ScanResult, valid: string -> bool)
    ensures Scan(hosts, [r1, r2], valid) == Step(Step(State(Index(hosts), Addresses(hosts), []), r1, valid), r2, valid)
  {
    hide Step, Index, Addresses;
    assert [r1, r2][..1] == [r1] && [r1][..0] == [];
    assert Scan(hosts, [], valid) == State(Index(hosts), Addresses(hosts), []);
    assert Scan(hosts, [r1], valid) == Step(Scan(hosts, [], valid), r1, valid);
  }

  lemma FirstScanAddsOne(r1: ScanResult, r2: ScanResult, h: Host, valid: string -> bool)
    requires r1.alive && r2.alive && valid(r1.ip) && r1.dnsName != "" && r2.dnsName != ""
    requires h == Host(Text.UpTo(r1.dnsName, '.'), r1.ip)
    requires r2.dnsName == r1.ip && Text.Lower(r1.ip) == r1.ip
    ensures Step(Step(State(Index([]), Addresses([]), []), r1, valid), r2, valid).added == [h]
  {
    assert Index([]) == map[] && Addresses([]) == {};
    assert Match(r1, map[]).None?;
    var s := Step(State(map[], {}, []), r1, valid);
    assert r1.ip in s.idx;
    assert Match(r2, s.idx).Some?;
  }

  lemma SecondScanAddsOther(r1: ScanResult, r2: ScanResult, h: Host, valid: string -> bool)
    requires RejectsBlanks(valid) && valid(r1.ip) && valid(r2.ip) && r2.alive
    requires h == Host(Text.UpTo(r1.dnsName, '.'), r1.ip)
    requires r2.dnsName == r1.ip && Text.Lower(r1.ip) == r1.ip && ':' in r1.ip && '.' !in r1.ip
    requires NameKey(h.name) != r1.ip && NameKey(h.name) != r2.ip && r2.ip != r1.ip && r2.ip != HostKey(r1.ip)
    ensures Step(Step(State(Index([h]), Addresses([h]), []), r1, valid), r2, valid).added == [NewHost(r2)]
  {
    hide HostKey, NameKey, Text.Lower, Text.Strip, Text.UpTo, Index;
    ColonAddressIsNotItsKey(r1.ip);
    Text.UpToOfMissing(r1.ip, '.');
    IndexKeys([h]);
    assert Addresses([h]) == {r1.ip};
    var s := State(Index([h]), Addresses([h]), []);
    assert Step(s, r1, valid) == s;
    assert Match(r2, s.idx).None?;
  }
}
