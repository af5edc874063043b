/**
 What the discovery aggregators report, told from the log entries themselves: who asked, how often, from when to when,
 and how many tokens, at four bytes a token for proxy entries and none for DNS entries.
 */
module DiscoveryEntries {
  import opened Aggregates
  import opened Discovery
  import opened Options
  import opened Sorting

  /** The host of a proxy entry; a URL without one counts as the empty host. */
  function HostOf(e: ProxyEntry): string {
    match e.hostname
    case Some(h) => h
    case None => ""
  }

  function DnsWhere(es: seq<DnsEntry>, host: string -> bool): seq<DnsEntry> {
    Filter(es, (e: DnsEntry) => host(e.hostname))
  }

  function ProxyWhere(es: seq<ProxyEntry>, host: string -> bool): seq<ProxyEntry> {
    Filter(es, (e: ProxyEntry) => host(HostOf(e)))
  }

  /** Four bytes count as one token, entry by entry. */
  function TokensOf(es: seq<ProxyEntry>): int {
    if es == [] then 0 else TokensOf(es[..|es| - 1]) + es[|es| - 1].bytes / 4
  }

  ghost predicate Spans(first: int, last: int, ds: seq<DnsEntry>, ps: seq<ProxyEntry>) {
    && (forall e :: e in ds ==> first <= e.timestamp <= last)
    && (forall e :: e in ps ==> first <= e.timestamp <= last)
    && ((exists e :: e in ds && e.timestamp == first) || (exists e :: e in ps && e.timestamp == first))
    && ((exists e :: e in ds && e.timestamp == last) || (exists e :: e in ps && e.timestamp == last))
  }

  function Sources(ds: seq<DnsEntry>, ps: seq<ProxyEntry>): set<string> {
    (set e | e in ds :: e.sourceIp) + (set e | e in ps :: e.sourceIp)
  }

  /** `a` is what these entries amount to. */
  ghost predicate Describes(a: Aggregate, ds: seq<DnsEntry>, ps: seq<ProxyEntry>) {
    if ds == [] && ps == [] then a == Nothing
    else
      && a.Seen? && a.requests == |ds| + |ps| && a.users == Sources(ds, ps) && a.tokens == TokensOf(ps)
      && Spans(a.first, a.last, ds, ps)
  }

  // ----- One entry more -----

  lemma OneMoreDns(a: Aggregate, ds: seq<DnsEntry>, e: DnsEntry)
    requires Describes(a, ds, [])
    ensures Describes(Join(a, One(DnsSighting(e))), ds + [e], [])
  {
    var more := ds + [e];
    assert e in more && forall d :: d in ds ==> d in more;
    assert Sources(more, []) == Sources(ds, []) + {e.sourceIp};
  }

  lemma OneMoreProxy(a: Aggregate, ps: seq<ProxyEntry>, e: ProxyEntry)
    requires Describes(a, [], ps)
    ensures Describes(Join(a, One(ProxySighting(e))), [], ps + [e])
  {
    var more := ps + [e];
    assert e in more && (forall p :: p in ps ==> p in more) && more[..|ps|] == ps;
    assert Sources([], more) == Sources([], ps) + {e.sourceIp};
  }

  lemma BothKinds(a: Aggregate, b: Aggregate, ds: seq<DnsEntry>, ps: seq<ProxyEntry>)
    requires Describes(a, ds, []) && Describes(b, [], ps)
    ensures Describes(Join(a, b), ds, ps)
  {
    assert Sources(ds, ps) == Sources(ds, []) + Sources([], ps);
  }

  lemma DnsStep(front: seq<DnsEntry>, e: DnsEntry, host: string -> bool, which: Sighting -> bool)
    requires which(DnsSighting(e)) == host(e.hostname)
    ensures DnsWhere(front + [e], host) == if host(e.hostname) then DnsWhere(front, host) + [e] else DnsWhere(front, host)
    ensures Total(DnsSightings(front + [e]), which)
         == if host(e.hostname) then Join(Total(DnsSightings(front), which), One(DnsSighting(e)))
            else Total(DnsSightings(front), which)
  {
    FilterAppend(front, [e], (x: DnsEntry) => host(x.hostname));
    assert DnsSightings(front + [e])[..|front|] == DnsSightings(front);
  }

  lemma {:induction false} DnsAmounts(es: seq<DnsEntry>, host: string -> bool, which: Sighting -> bool)
    requires forall s :: which(s) == host(s.host)
    ensures Describes(Total(DnsSightings(es), which), DnsWhere(es, host), [])
  {
    if es != [] {
      var front, e := es[..|es| - 1], es[|es| - 1];
      assert es == front + [e];
      DnsAmounts(front, host, which);
      HostOfDns(e);
      DnsStep(front, e, host, which);
      if host(e.hostname) {
        OneMoreDns(Total(DnsSightings(front), which), DnsWhere(front, host), e);
      }
    }
  }

  lemma HostOfDns(e: DnsEntry)
    ensures DnsSighting(e).host == e.hostname && DnsSighting(e).source == "dns"
  {
  }

  lemma HostOfProxy(e: ProxyEntry)
    ensures ProxySighting(e).host == HostOf(e) && ProxySighting(e).source == "proxy"
  {
  }

  lemma ProxyStep(front: seq<ProxyEntry>, e: ProxyEntry, host: string -> bool, which: Sighting -> bool)
    requires which(ProxySighting(e)) == host(HostOf(e))
    ensures ProxyWhere(front + [e], host) == if host(HostOf(e)) then ProxyWhere(front, host) + [e] else ProxyWhere(front, host)
    ensures Total(ProxySightings(front + [e]), which)
         == if host(HostOf(e)) then Join(Total(ProxySightings(front), which), One(ProxySighting(e)))
            else Total(ProxySightings(front), which)
  {
    FilterAppend(front, [e], (x: ProxyEntry) => host(HostOf(x)));
    assert ProxySightings(front + [e])[..|front|] == ProxySightings(front);
  }

  lemma {:induction false} ProxyAmounts(es: seq<ProxyEntry>, host: string -> bool, which: Sighting -> bool)
    requires forall s :: which(s) == host(s.host)
    ensures Describes(Total(ProxySightings(es), which), [], ProxyWhere(es, host))
  {
    if es != [] {
      var front, e := es[..|es| - 1], es[|es| - 1];
      assert es == front + [e];
      ProxyAmounts(front, host, which);
      HostOfProxy(e);
      ProxyStep(front, e, host, which);
      if host(HostOf(e)) {
        OneMoreProxy(Total(ProxySightings(front), which), ProxyWhere(front, host), e);
      }
    }
  }

  lemma EntriesAmount(dns: seq<DnsEntry>, proxy: seq<ProxyEntry>, host: string -> bool, which: Sighting -> bool)
    requires forall s :: which(s) == host(s.host)
    ensures Describes(Total(DnsSightings(dns) + ProxySightings(proxy), which), DnsWhere(dns, host), ProxyWhere(proxy, host))
  {
    DnsAmounts(dns, host, which);
    ProxyAmounts(proxy, host, which);
    TotalConcat(DnsSightings(dns), ProxySightings(proxy), which);
    BothKinds(Total(DnsSightings(dns), which), Total(ProxySightings(proxy), which), DnsWhere(dns, host), ProxyWhere(proxy, host));
  }

  // ----- Usage summaries -----

  /** Hosts of provider `p`; those that no provider matches go by "unknown". */
  function HostsOf(matcher: Matcher, p: string): string -> bool {
    (h: string) => matcher(h) == Some(p) || (matcher(h) == None && p == "unknown")
  }

  /** The merged summary of a provider amounts to exactly the entries of its hosts. */
  lemma SummaryAmountsToItsEntries(matcher: Matcher, dns: seq<DnsEntry>, proxy: seq<ProxyEntry>, p: string)
    ensures Describes(
              SummaryTotal(UsageOf(matcher, dns, proxy), p),
              DnsWhere(dns, HostsOf(matcher, p)), ProxyWhere(proxy, HostsOf(matcher, p)))
    ensures var m := UsageOf(matcher, dns, proxy); p in m ==> m[p].userCount == |m[p].userList|
  {
    UsageConserves(matcher, dns, proxy, p);
    EntriesAmount(dns, proxy, HostsOf(matcher, p), Named(matcher, p));
    AnalysisConserves(matcher, DnsSightings(dns), p);
    AnalysisConserves(matcher, ProxySightings(proxy), p);
  }

  /** A summary of one log is named after the first host seen, and carries no classification. */
  lemma {:induction false} SummaryIsNamedAfterTheFirst(matcher: Matcher, ss: seq<Sighting>, p: string)
    ensures var m, hits := Analyzed(matcher, ss), Filter(ss, Named(matcher, p));
            && (p in m <==> hits != [])
            && (p in m ==>
                  m[p].serviceName == hits[0].host && m[p].provider == matcher(hits[0].host) && m[p].classification == None)
  {
    if ss != [] {
      var front, s := ss[..|ss| - 1], ss[|ss| - 1];
      assert ss == front + [s];
      SummaryIsNamedAfterTheFirst(matcher, front, p);
      FilterAppend(front, [s], Named(matcher, p));
    }
  }

  /** Two summaries of one provider: the DNS side gives the name, and the classification unless it has none. */
  lemma MergedNames(dns: Summaries, proxy: Summaries, p: string)
    requires p in dns && p in proxy
    ensures var m := MergedSummaries(dns, proxy);
            && p in m && m[p].serviceName == dns[p].serviceName && m[p].provider == Some(p)
            && (dns[p].classification in {None, Some("")} ==> m[p].classification == proxy[p].classification)
            && (dns[p].classification !in {None, Some("")} ==> m[p].classification == dns[p].classification)
            && m[p].userCount == |dns[p].userList + proxy[p].userList|
  {
  }

  // ----- Records -----

  function AtKey(matcher: Matcher, k: Key): Sighting -> bool {
    (s: Sighting) => matcher(s.host) == Some(k.provider) && s.host == k.host
  }

  function SourcesOf(ss: seq<Sighting>, which: Sighting -> bool): set<string> {
    set s | s in ss && which(s) :: s.source
  }

  lemma SourcesOfMore(front: seq<Sighting>, s: Sighting, which: Sighting -> bool)
    ensures SourcesOf(front + [s], which) == SourcesOf(front, which) + (if which(s) then {s.source} else {})
  {
  }

  /** Under one key: a group if anything was seen, with what was seen. */
  ghost predicate IsGroupOf(at: map<Key, Info>, k: Key, total: Aggregate, sources: set<string>) {
    && (k in at <==> total.Seen?)
    && (k in at ==> RecordTotal(RecordOf(at[k])) == total && at[k].sources == sources)
  }

  lemma GroupStep(matcher: Matcher, g: Groups, s: Sighting, k: Key, total: Aggregate, sources: set<string>)
    requires IsGroupOf(g.at, k, total, sources) && (total.Nothing? ==> sources == {})
    requires k in g.at ==> g.at[k].users == g.at[k].ipAddresses
    ensures var mine := AtKey(matcher, k)(s);
            IsGroupOf(
              AddTo(g, matcher, s).at, k, if mine then Join(total, One(s)) else total,
              sources + (if mine then {s.source} else {}))
  {
    if AtKey(matcher, k)(s) {
      assert k == Key(matcher(s.host).value, s.host);
      NextOfGroup(if k in g.at then g.at[k] else NewInfo(k, s), s, k, k in g.at);
    }
  }

  /** Each group amounts to the sightings under its key. */
  lemma {:induction false} GroupAmounts(matcher: Matcher, ss: seq<Sighting>, k: Key)
    ensures IsGroupOf(Grouped(matcher, ss).at, k, Total(ss, AtKey(matcher, k)), SourcesOf(ss, AtKey(matcher, k)))
  {
    if ss != [] {
      var front, s := ss[..|ss| - 1], ss[|ss| - 1];
      assert ss == front + [s];
      GroupAmounts(matcher, front, k);
      GroupedIsProper(matcher, front);
      SourcesOfMore(front, s, AtKey(matcher, k));
      if Total(front, AtKey(matcher, k)).Nothing? {
        NoneYet(front, AtKey(matcher, k));
      }
      GroupStep(matcher, Grouped(matcher, front), s, k, Total(front, AtKey(matcher, k)), SourcesOf(front, AtKey(matcher, k)));
    }
  }

  lemma NoneYet(ss: seq<Sighting>, which: Sighting -> bool)
    requires Total(ss, which).Nothing?
    ensures SourcesOf(ss, which) == {}
  {
    forall s | s in ss && which(s) ensures false {
      TotalSees(ss, which, s);
    }
  }

  lemma {:induction false} TotalSees(ss: seq<Sighting>, which: Sighting -> bool, s: Sighting)
    requires s in ss && which(s)
    ensures Total(ss, which).Seen?
  {
    var front := ss[..|ss| - 1];
    assert ss == front + [ss[|ss| - 1]];
    if s in front {
      TotalSees(front, which, s);
    }
  }

  lemma NextOfGroup(i: Info, s: Sighting, k: Key, known: bool)
    requires if known then i.users == i.ipAddresses else i == NewInfo(k, s)
    ensures RecordTotal(RecordOf(Bump(i, s))) == if known then Join(RecordTotal(RecordOf(i)), One(s)) else One(s)
    ensures Bump(i, s).sources == if known then i.sources + {s.source} else {s.source}
  {
  }

  /** Hosts of a record: one host, of one provider. */
  function ThatHost(matcher: Matcher, provider: string, host: string): string -> bool {
    (h: string) => h == host && matcher(h) == Some(provider)
  }

  /** A record amounts to exactly the entries of its host, and names the logs they are in. */
  ghost predicate Reports(matcher: Matcher, dns: seq<DnsEntry>, proxy: seq<ProxyEntry>, r: MergedRecord) {
    var host := ThatHost(matcher, r.provider, r.serviceName);
    && (DnsWhere(dns, host) != [] || ProxyWhere(proxy, host) != [])
    && Describes(RecordTotal(r), DnsWhere(dns, host), ProxyWhere(proxy, host))
    && r.totalUsers == |r.ipAddresses| && r.hostnames == {r.serviceName}
    && r.sources == (if DnsWhere(dns, host) != [] then {"dns"} else {})
                    + (if ProxyWhere(proxy, host) != [] then {"proxy"} else {})
  }

  lemma SourcesAreTheLogs(dns: seq<DnsEntry>, proxy: seq<ProxyEntry>, host: string -> bool, which: Sighting -> bool)
    requires forall s :: which(s) == host(s.host)
    ensures SourcesOf(DnsSightings(dns) + ProxySightings(proxy), which)
         == (if DnsWhere(dns, host) != [] then {"dns"} else {}) + (if ProxyWhere(proxy, host) != [] then {"proxy"} else {})
  {
    var ds, ps := DnsSightings(dns), ProxySightings(proxy);
    var sources := SourcesOf(ds + ps, which);
    FilterMembers(dns, (e: DnsEntry) => host(e.hostname));
    FilterMembers(proxy, (e: ProxyEntry) => host(HostOf(e)));
    forall s | s in ds + ps && which(s)
      ensures (s.source == "dns" && DnsWhere(dns, host) != []) || (s.source == "proxy" && ProxyWhere(proxy, host) != [])
    {
      if s in ds {
        var i :| 0 <= i < |ds| && ds[i] == s;
        HostOfDns(dns[i]);
        assert dns[i] in DnsWhere(dns, host);
      } else {
        var i :| 0 <= i < |ps| && ps[i] == s;
        HostOfProxy(proxy[i]);
        assert proxy[i] in ProxyWhere(proxy, host);
      }
    }
    if DnsWhere(dns, host) != [] {
      var e := DnsWhere(dns, host)[0];
      assert e in DnsWhere(dns, host) && e in dns;
      var i :| 0 <= i < |dns| && dns[i] == e;
      HostOfDns(e);
      assert ds[i] in ds + ps && which(ds[i]);
      assert "dns" in sources;
    }
    if ProxyWhere(proxy, host) != [] {
      var e := ProxyWhere(proxy, host)[0];
      assert e in ProxyWhere(proxy, host) && e in proxy;
      var i :| 0 <= i < |proxy| && proxy[i] == e;
      HostOfProxy(e);
      assert ps[i] in ds + ps && which(ps[i]);
      assert "proxy" in sources;
    }
  }

  lemma GroupReports(matcher: Matcher, dns: seq<DnsEntry>, proxy: seq<ProxyEntry>, k: Key)
    ensures var at, host := Grouped(matcher, DnsSightings(dns) + ProxySightings(proxy)).at, ThatHost(matcher, k.provider, k.host);
            && (k in at <==> DnsWhere(dns, host) != [] || ProxyWhere(proxy, host) != [])
            && (k in at ==>
                  var r := RecordOf(at[k]);
                  r.provider == k.provider && r.serviceName == k.host && Reports(matcher, dns, proxy, r))
  {
    var ss, host := DnsSightings(dns) + ProxySightings(proxy), ThatHost(matcher, k.provider, k.host);
    GroupAmounts(matcher, ss, k);
    GroupedIsProper(matcher, ss);
    EntriesAmount(dns, proxy, host, AtKey(matcher, k));
    SourcesAreTheLogs(dns, proxy, host, AtKey(matcher, k));
  }

  lemma {:induction false} ListedRecords(order: seq<Key>, at: map<Key, Info>, r: MergedRecord)
    requires forall k :: k in order ==> k in at
    ensures r in ListRecords(order, at) <==> exists k :: k in order && r == RecordOf(at[k])
  {
    if order != [] {
      assert order == [order[0]] + order[1..];
      ListedRecords(order[1..], at, r);
    }
  }

  /** Every record reports exactly the entries of its provider and host. */
  lemma RecordsReportTheirEntries(matcher: Matcher, dns: seq<DnsEntry>, proxy: seq<ProxyEntry>, r: MergedRecord)
    requires r in RecordsFor(matcher, DnsSightings(dns) + ProxySightings(proxy))
    ensures Reports(matcher, dns, proxy, r)
  {
    var ss := DnsSightings(dns) + ProxySightings(proxy);
    var g := Grouped(matcher, ss);
    GroupedIsProper(matcher, ss);
    SortKeepsMembers(ListRecords(g.order, g.at), LatestFirst);
    ListedRecords(g.order, g.at, r);
    var k :| k in g.order && r == RecordOf(g.at[k]);
    GroupReports(matcher, dns, proxy, k);
  }

  /** Every provider and host with an entry has a record. */
  lemma EveryHostHasARecord(matcher: Matcher, dns: seq<DnsEntry>, proxy: seq<ProxyEntry>, provider: string, host: string)
    requires var h := ThatHost(matcher, provider, host); DnsWhere(dns, h) != [] || ProxyWhere(proxy, h) != []
    ensures exists r :: r in RecordsFor(matcher, DnsSightings(dns) + ProxySightings(proxy))
                        && r.provider == provider && r.serviceName == host
  {
    var ss, k := DnsSightings(dns) + ProxySightings(proxy), Key(provider, host);
    var g := Grouped(matcher, ss);
    GroupedIsProper(matcher, ss);
    GroupReports(matcher, dns, proxy, k);
    var r := RecordOf(g.at[k]);
    ListedRecords(g.order, g.at, r);
    SortKeepsMembers(ListRecords(g.order, g.at), LatestFirst);
    assert r in RecordsFor(matcher, ss);
  }
}
