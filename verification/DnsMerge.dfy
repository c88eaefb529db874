/** The DNS job (backend/scheduler.py, resolve_host_dns): names and addresses are filled in, and hosts
    that duplicate the address of a better-known one are removed. */
module DnsMerge {
  import Text

  /** ip is "" while no address is known. */
  datatype Host = Host(id: int, name: string, hostname: string, ip: string, source: string)

  /** What counts as an address, and the answers of the resolver by host id; a failed or late lookup has
      no entry. */
  datatype Dns = Dns(isIp: string -> bool, reverse: map<int, string>, forward: map<int, string>)

  predicate Authoritative(source: string) {
    source == "proxmox" || source == "unifi"
  }

  predicate Mergeable(source: string) {
    source == "scanner" || source == "manual"
  }

  /** Address to host id, over the hosts that do not come from the scanner; the last one wins. */
  function Index(hosts: seq<Host>): map<string, int> {
    if hosts == [] then map[] else
    var n := |hosts| - 1;
    var h := hosts[n];
    if h.ip != "" && h.source != "scanner" then Index(hosts[..n])[h.ip := h.id] else Index(hosts[..n])
  }

  predicate IpNamed(h: Host, dns: Dns) {
    var hostname := Text.Strip(h.hostname);
    hostname != "" && dns.isIp(hostname)
  }

  /** The address a host stands for: its own, or the one it is named by. */
  function Address(h: Host, dns: Dns): string {
    if h.ip != "" then h.ip else if IpNamed(h, dns) then Text.Strip(h.hostname) else ""
  }

  predicate Duplicate(h: Host, index: map<string, int>, dns: Dns) {
    && IpNamed(h, dns) && Mergeable(h.source)
    && Address(h, dns) in index && index[Address(h, dns)] != h.id
  }

  /** What the job fills in for a host that it keeps. */
  function Resolved(h: Host, dns: Dns): Host {
    var hostname := Text.Strip(h.hostname);
    if hostname == "" then h
    else if dns.isIp(hostname) then
      var short := if h.id in dns.reverse then Text.UpTo(dns.reverse[h.id], '.') else "";
      var name := if Mergeable(h.source) && short != "" && short != hostname then short else h.name;
      h.(name := name, ip := if h.ip == "" then hostname else h.ip)
    else if h.ip == "" && !Authoritative(h.source) && h.id in dns.forward then h.(ip := dns.forward[h.id])
    else h
  }

  function Visit(h: Host, index: map<string, int>, dns: Dns): Host {
    if Duplicate(h, index, dns) then h else Resolved(h, dns)
  }

  function Doomed(hosts: seq<Host>, index: map<string, int>, dns: Dns): (ids: seq<int>) {
    if hosts == [] then [] else
    var n := |hosts| - 1;
    Doomed(hosts[..n], index, dns) + if Duplicate(hosts[n], index, dns) then [hosts[n].id] else []
  }

  function Visited(hosts: seq<Host>, index: map<string, int>, dns: Dns): (visited: seq<Host>) {
    seq(|hosts|, i requires 0 <= i < |hosts| => Visit(hosts[i], index, dns))
  }

  function Without(hosts: seq<Host>, ids: seq<int>): seq<Host> {
    if hosts == [] then [] else
    var n := |hosts| - 1;
    Without(hosts[..n], ids) + if hosts[n].id in ids then [] else [hosts[n]]
  }

  lemma {:induction false} WithoutKeepsTheRest(hosts: seq<Host>, ids: seq<int>)
    ensures forall h :: h in Without(hosts, ids) <==> h in hosts && h.id !in ids
  {
    if hosts != [] {
      var n := |hosts| - 1;
      WithoutKeepsTheRest(hosts[..n], ids);
      assert hosts == hosts[..n] + [hosts[n]];
    }
  }

  function Run(hosts: seq<Host>, dns: Dns): seq<Host> {
    Without(Visited(hosts, Index(hosts), dns), Doomed(hosts, Index(hosts), dns))
  }

  // ---- The job ----

  class HostTable {
    var hosts: seq<Host>

    constructor (hosts: seq<Host>)
      ensures this.hosts == hosts
    {
      this.hosts := hosts;
    }

    method ResolveHostDns(dns: Dns)
      modifies this
      ensures hosts == Run(old(hosts), dns)
    {
      hide Resolved, Duplicate, Index;
      var ipToHost := IndexByAddress(hosts);
      var toDelete: seq<int> := [];
      ghost var before := hosts;
      for i := 0 to |hosts|
        invariant |hosts| == |before|
        invariant toDelete == Doomed(before[..i], ipToHost, dns)
        invariant forall j | 0 <= j < i :: hosts[j] == Visit(before[j], ipToHost, dns)
        invariant forall j | i <= j < |hosts| :: hosts[j] == before[j]
      {
        var h := hosts[i];
        assert before[..i + 1][..i] == before[..i];
        var merge, updated := VisitHost(h, ipToHost, dns);
        if merge {
          toDelete := toDelete + [h.id];
        } else {
          hosts := hosts[i := updated];
        }
      }
      assert before[..|before|] == before;
      assert hosts == Visited(before, ipToHost, dns);
      hosts := Without(hosts, toDelete);
    }
  }

  method IndexByAddress(hosts: seq<Host>) returns (ipToHost: map<string, int>)
    ensures ipToHost == Index(hosts)
  {
    ipToHost := map[];
    for i := 0 to |hosts|
      invariant ipToHost == Index(hosts[..i])
    {
      var h := hosts[i];
      assert hosts[..i + 1][..i] == hosts[..i];
      if h.ip != "" && h.source != "scanner" {
        ipToHost := ipToHost[h.ip := h.id];
      }
    }
    assert hosts[..|hosts|] == hosts;
  }

  /** The loop body for one host. */
  method VisitHost(h: Host, ipToHost: map<string, int>, dns: Dns) returns (merge: bool, updated: Host)
    ensures merge == Duplicate(h, ipToHost, dns)
    ensures !merge ==> updated == Resolved(h, dns)
  {
    merge, updated := false, h;
    var hostname := Text.Strip(h.hostname);
    if hostname == "" {
      return;
    }
    if dns.isIp(hostname) {
      if Mergeable(h.source) {
        var checkIp := if h.ip != "" then h.ip else hostname;
        if checkIp in ipToHost && ipToHost[checkIp] != h.id {
          return true, h;
        }
        if h.id in dns.reverse {
          var short := Text.UpTo(dns.reverse[h.id], '.');
          if short != "" && short != hostname {
            updated := updated.(name := short);
          }
        }
      }
      if h.ip == "" {
        updated := updated.(ip := hostname);
      }
    } else if h.ip == "" && !Authoritative(h.source) {
      if h.id in dns.forward {
        updated := updated.(ip := dns.forward[h.id]);
      }
    }
  }

  // ---- What the job keeps ----

  ghost predicate DistinctIds(hosts: seq<Host>) {
    forall i, j | 0 <= i < j < |hosts| :: hosts[i].id != hosts[j].id
  }

  lemma SameId(hosts: seq<Host>, g: Host, h: Host)
    requires DistinctIds(hosts) && g in hosts && h in hosts && g.id == h.id
    ensures g == h
  {
    var i :| 0 <= i < |hosts| && hosts[i] == g;
    var j :| 0 <= j < |hosts| && hosts[j] == h;
  }

  /** An indexed address belongs to a host that has it and does not come from the scanner. */
  lemma {:induction false} IndexIsSound(hosts: seq<Host>)
    ensures forall ip :: ip in Index(hosts) ==>
              exists h :: h in hosts && h.id == Index(hosts)[ip] && h.ip == ip && ip != "" && h.source != "scanner"
    ensures forall h | h in hosts && h.ip != "" && h.source != "scanner" :: h.ip in Index(hosts)
  {
    if hosts != [] {
      var n := |hosts| - 1;
      IndexIsSound(hosts[..n]);
      assert hosts == hosts[..n] + [hosts[n]];
      assert forall h | h in hosts[..n] :: h in hosts;
    }
  }

  lemma {:induction false} DoomedAreDuplicates(hosts: seq<Host>, index: map<string, int>, dns: Dns)
    ensures forall id :: id in Doomed(hosts, index, dns) <==>
              exists h :: h in hosts && h.id == id && Duplicate(h, index, dns)
  {
    if hosts != [] {
      hide Duplicate;
      var n := |hosts| - 1;
      DoomedAreDuplicates(hosts[..n], index, dns);
      assert hosts == hosts[..n] + [hosts[n]];
      assert forall h :: h in hosts <==> h in hosts[..n] || h == hosts[n];
    }
  }

  lemma VisitKeepsId(h: Host, index: map<string, int>, dns: Dns)
    ensures Visit(h, index, dns).id == h.id && Visit(h, index, dns).source == h.source
    ensures Visit(h, index, dns).hostname == h.hostname
  {
  }

  /** The hosts left are the resolved ones that are not duplicates. */
  lemma LeftExactly(hosts: seq<Host>, dns: Dns, x: Host)
    requires DistinctIds(hosts)
    ensures x in Run(hosts, dns) <==>
              exists h :: h in hosts && !Duplicate(h, Index(hosts), dns) && x == Resolved(h, dns)
  {
    hide Resolved, Duplicate;
    var index := Index(hosts);
    var visited := Visited(hosts, index, dns);
    DoomedAreDuplicates(hosts, index, dns);
    WithoutKeepsTheRest(visited, Doomed(hosts, index, dns));
    if x in Run(hosts, dns) {
      var i :| 0 <= i < |hosts| && visited[i] == x;
      VisitKeepsId(hosts[i], index, dns);
      assert hosts[i] in hosts;
    }
    if h :| h in hosts && !Duplicate(h, index, dns) && x == Resolved(h, dns) {
      var i :| 0 <= i < |hosts| && hosts[i] == h;
      assert visited[i] == x;
      VisitKeepsId(h, index, dns);
      if x.id in Doomed(hosts, index, dns) {
        var g :| g in hosts && g.id == x.id && Duplicate(g, index, dns);
        SameId(hosts, g, h);
        assert false;
      }
    }
  }

  /** The host that an address is indexed to is never deleted itself, and keeps the address. */
  lemma IndexedHostSurvives(hosts: seq<Host>, dns: Dns, ip: string) returns (s: Host)
    requires DistinctIds(hosts) && ip in Index(hosts)
    ensures s in Run(hosts, dns) && s.id == Index(hosts)[ip] && s.ip == ip
  {
    IndexIsSound(hosts);
    var h :| h in hosts && h.id == Index(hosts)[ip] && h.ip == ip && ip != "" && h.source != "scanner";
    s := Resolved(h, dns);
    LeftExactly(hosts, dns, s);
  }

  /** No address is lost: whatever address some host stood for, a host has it afterwards. */
  lemma NoAddressIsLost(hosts: seq<Host>, dns: Dns, h: Host) returns (s: Host)
    requires DistinctIds(hosts) && h in hosts && Address(h, dns) != ""
    ensures s in Run(hosts, dns) && s.ip == Address(h, dns)
    ensures Duplicate(h, Index(hosts), dns) ==> s.id != h.id
  {
    if Duplicate(h, Index(hosts), dns) {
      s := IndexedHostSurvives(hosts, dns, Address(h, dns));
    } else {
      s := Resolved(h, dns);
      LeftExactly(hosts, dns, s);
    }
  }

  // ---- The address a host is checked by ----

  /** A host for which the address a will be checked, or is on record. */
  ghost predicate Bears(h: Host, a: string) {
    h.ip == a || Text.Strip(h.hostname) == a
  }

  /** The forward lookup gives the host the address a. */
  ghost predicate Learns(h: Host, a: string, dns: Dns) {
    && h.ip == "" && Text.Strip(h.hostname) != "" && !IpNamed(h, dns) && !Authoritative(h.source)
    && h.id in dns.forward && dns.forward[h.id] == a
  }

  lemma ResolvedBears(h: Host, a: string, dns: Dns)
    requires a != ""
    ensures Bears(Resolved(h, dns), a) <==> Bears(h, a) || Learns(h, a, dns)
  {
    hide Text.Strip, Text.UpTo;
  }

  /** The address in the hostname, by which a host is checked, is borne by some host afterwards exactly
      unless the host is merged for another address, the one on its record, and no host that stays has or
      learns the one in its name. */
  lemma HostnameSurvivesExactly(hosts: seq<Host>, dns: Dns, h: Host)
    requires DistinctIds(hosts) && h in hosts && IpNamed(h, dns)
    ensures var a := Text.Strip(h.hostname);
            (exists x :: x in Run(hosts, dns) && Bears(x, a)) <==>
              (Duplicate(h, Index(hosts), dns) && Address(h, dns) != a ==>
                 exists g :: g in hosts && !Duplicate(g, Index(hosts), dns) && (Bears(g, a) || Learns(g, a, dns)))
  {
    hide Resolved, Duplicate, Run, Index, Text.Strip, Learns;
    var a := Text.Strip(h.hostname);
    if x :| x in Run(hosts, dns) && Bears(x, a) {
      LeftExactly(hosts, dns, x);
      var g :| g in hosts && !Duplicate(g, Index(hosts), dns) && x == Resolved(g, dns);
      ResolvedBears(g, a, dns);
    }
    if !Duplicate(h, Index(hosts), dns) {
      LeftExactly(hosts, dns, Resolved(h, dns));
      ResolvedBears(h, a, dns);
    } else if Address(h, dns) == a {
      var s := NoAddressIsLost(hosts, dns, h);
      assert Bears(s, a);
    } else if g :| g in hosts && !Duplicate(g, Index(hosts), dns) && (Bears(g, a) || Learns(g, a, dns)) {
      LeftExactly(hosts, dns, Resolved(g, dns));
      ResolvedBears(g, a, dns);
    }
  }

  /** A manual host that was renamed to another address is merged for its old one, and nothing is left
      that would check the new one. */
  lemma RenamedHostIsLost(a: string, old': string, name: string, dns: Dns)
    requires a != "" && old' != "" && a != old' && Text.Strip(a) == a && dns.isIp(a) && !dns.isIp(name)
    requires Text.Strip(name) == name && name != "" && name != a
    ensures var hosts := [Host(1, a, a, old', "manual"), Host(2, name, name, old', "proxmox")];
            forall x | x in Run(hosts, dns) :: !Bears(x, a)
  {
    hide Text.Strip, Run, Index;
    var h, g := Host(1, a, a, old', "manual"), Host(2, name, name, old', "proxmox");
    var hosts := [h, g];
    IndexOfTwo(h, g);
    HostnameSurvivesExactly(hosts, dns, h);
  }

  lemma IndexOfTwo(h: Host, g: Host)
    requires h.ip == g.ip != "" && h.source != "scanner" && g.source != "scanner"
    ensures h.ip in Index([h, g]) && Index([h, g])[h.ip] == g.id
  {
    assert [h, g][..1] == [h];
  }

  /** Afterwards no IP-named scanner or manual host is left whose address the index gave to another. */
  lemma NoIndexedDuplicateIsLeft(hosts: seq<Host>, dns: Dns, x: Host)
    requires DistinctIds(hosts)
    requires x in Run(hosts, dns) && IpNamed(x, dns) && Mergeable(x.source)
    ensures x.ip != ""
    ensures x.ip in Index(hosts) ==> Index(hosts)[x.ip] == x.id
  {
    LeftExactly(hosts, dns, x);
    var h :| h in hosts && !Duplicate(h, Index(hosts), dns) && x == Resolved(h, dns);
  }

  /** A host is deleted exactly when it is an IP-named scanner or manual host whose address the index
      gave to another host. */
  lemma DeletedExactly(hosts: seq<Host>, dns: Dns, h: Host)
    requires DistinctIds(hosts) && h in hosts
    ensures (forall x | x in Run(hosts, dns) :: x.id != h.id) <==> Duplicate(h, Index(hosts), dns)
  {
    hide Duplicate;
    var index := Index(hosts);
    if Duplicate(h, index, dns) {
      forall x | x in Run(hosts, dns) ensures x.id != h.id {
        LeftExactly(hosts, dns, x);
        var g :| g in hosts && !Duplicate(g, index, dns) && x == Resolved(g, dns);
        VisitKeepsId(g, index, dns);
        if g.id == h.id { SameId(hosts, g, h); }
      }
    } else {
      LeftExactly(hosts, dns, Resolved(h, dns));
      VisitKeepsId(h, index, dns);
    }
  }

  // ---- What the job does, field by field ----

  /** Host k is the last one with the address ip that does not come from the scanner. */
  ghost predicate IsLastWith(hosts: seq<Host>, ip: string, k: nat) {
    && k < |hosts| && hosts[k].ip == ip && hosts[k].source != "scanner"
    && forall j | k < j < |hosts| :: hosts[j].ip != ip || hosts[j].source == "scanner"
  }

  lemma {:induction false} IndexIsTheLast(hosts: seq<Host>, ip: string, k: nat)
    requires IsLastWith(hosts, ip, k) && ip != ""
    ensures ip in Index(hosts) && Index(hosts)[ip] == hosts[k].id
  {
    var n := |hosts| - 1;
    if k < n {
      assert hosts[n].ip != ip || hosts[n].source == "scanner";
      IndexIsTheLast(hosts[..n], ip, k);
    }
  }

  lemma {:induction false} LastWith(hosts: seq<Host>, ip: string) returns (k: nat)
    ensures k <= |hosts|
    ensures k < |hosts| ==> IsLastWith(hosts, ip, k)
    ensures k == |hosts| ==> forall h | h in hosts :: h.ip != ip || h.source == "scanner"
  {
    k := |hosts|;
    if hosts != [] {
      var n := |hosts| - 1;
      if hosts[n].ip == ip && hosts[n].source != "scanner" {
        k := n;
      } else {
        k := LastWith(hosts[..n], ip);
        if k == n {
          k := |hosts|;
          assert hosts == hosts[..n] + [hosts[n]];
        }
      }
    }
  }

  /** A host is merged exactly when its hostname is an address, it comes from the scanner or was added by
      hand, and the last host outside the scanner with the address on its record, or with the one it is
      named by if there is none, is another one. */
  lemma MergedExactly(hosts: seq<Host>, dns: Dns, h: Host)
    requires DistinctIds(hosts) && h in hosts
    ensures var a := if h.ip == "" then Text.Strip(h.hostname) else h.ip;
            (forall x | x in Run(hosts, dns) :: x.id != h.id) <==>
              && Text.Strip(h.hostname) != "" && dns.isIp(Text.Strip(h.hostname))
              && h.source in {"scanner", "manual"}
              && exists k: nat :: IsLastWith(hosts, a, k) && hosts[k].id != h.id
  {
    hide Index, Run, Text.Strip;
    var a := if h.ip == "" then Text.Strip(h.hostname) else h.ip;
    DeletedExactly(hosts, dns, h);
    IndexIsSound(hosts);
    if a != "" {
      var k := LastWith(hosts, a);
      if k < |hosts| {
        IndexIsTheLast(hosts, a, k);
        forall l: nat | IsLastWith(hosts, a, l) ensures l == k {
        }
      }
    }
  }

  /** A host that stays keeps its id, hostname and source. An empty address is filled in: with the hostname
      if that is an address, else with the answer of the forward lookup unless the host comes from Proxmox
      or UniFi. A scanner or manual host named by an address is renamed to the first label of the reverse
      lookup's answer, unless that is empty or the same. */
  lemma KeptExactly(hosts: seq<Host>, dns: Dns, h: Host, x: Host)
    requires DistinctIds(hosts) && h in hosts && x in Run(hosts, dns) && x.id == h.id
    ensures x.hostname == h.hostname && x.source == h.source
    ensures var hostname := Text.Strip(h.hostname);
            x.ip == (if h.ip != "" || hostname == "" then h.ip
                     else if dns.isIp(hostname) then hostname
                     else if h.source !in {"proxmox", "unifi"} && h.id in dns.forward then dns.forward[h.id]
                     else "")
    ensures var hostname := Text.Strip(h.hostname);
            if hostname != "" && dns.isIp(hostname) && h.source in {"scanner", "manual"} && h.id in dns.reverse
               && Text.UpTo(dns.reverse[h.id], '.') !in {"", hostname}
            then x.name == Text.UpTo(dns.reverse[h.id], '.') else x.name == h.name
  {
    hide Index, Run, Duplicate, Text.Strip, Text.UpTo;
    LeftExactly(hosts, dns, x);
    var g :| g in hosts && !Duplicate(g, Index(hosts), dns) && x == Resolved(g, dns);
    SameId(hosts, g, h);
  }
}
