/**
 Two aggregators over the same DNS and proxy logs: `DedupMerge` groups by provider and hostname
 (discovery/dedup_merge.py), `UsageAnalyzer` by provider (discovery/usage_analyzer.py).  They share no code, and
 the main theorem says that they agree.
 */
module Discovery {
  import opened Aggregates
  import opened Options
  import opened Sorting

  datatype DnsEntry = DnsEntry(hostname: string, sourceIp: string, timestamp: int)

  /** `hostname` is the host of the request's URL, if it has one. */
  datatype ProxyEntry = ProxyEntry(hostname: Option<string>, sourceIp: string, timestamp: int, bytes: int)

  /** The provider a hostname belongs to; one fixed matcher is used throughout. */
  type Matcher = string -> Option<string>

  function DnsSighting(e: DnsEntry): Sighting {
    Sighting(e.hostname, e.timestamp, e.sourceIp, 0, "dns")
  }

  function ProxySighting(e: ProxyEntry): Sighting {
    Sighting(e.hostname.GetOr(""), e.timestamp, e.sourceIp, e.bytes / 4, "proxy")
  }

  function DnsSightings(es: seq<DnsEntry>): (s: seq<Sighting>)
    ensures |s| == |es|
  {
    seq(|es|, i requires 0 <= i < |es| => DnsSighting(es[i]))
  }

  function ProxySightings(es: seq<ProxyEntry>): (s: seq<Sighting>)
    ensures |s| == |es|
  {
    seq(|es|, i requires 0 <= i < |es| => ProxySighting(es[i]))
  }

  // ----- DedupMerge -----

  datatype Key = Key(provider: string, host: string)

  datatype Info = Info(
    serviceName: string, provider: string, sources: set<string>, hostnames: set<string>, ipAddresses: set<string>,
    first: int, last: int, totalRequests: nat, users: set<string>, tokens: int)

  datatype MergedRecord = MergedRecord(
    serviceName: string, provider: string, sources: set<string>, hostnames: set<string>, ipAddresses: set<string>,
    first: int, last: int, totalRequests: nat, totalUsers: nat, tokens: int)

  /** A dictionary together with its insertion order. */
  datatype Groups = Groups(order: seq<Key>, at: map<Key, Info>)

  function NewInfo(k: Key, s: Sighting): Info {
    Info(k.host, k.provider, {}, {}, {}, s.time, s.time, 0, {}, 0)
  }

  function Bump(i: Info, s: Sighting): Info {
    i.(sources := i.sources + {s.source},
       hostnames := i.hostnames + {s.host},
       ipAddresses := i.ipAddresses + {s.ip},
       totalRequests := i.totalRequests + 1,
       users := i.users + {s.ip},
       tokens := i.tokens + s.tokens,
       first := Earlier(s.time, i.first),
       last := Later(s.time, i.last))
  }

  function AddTo(g: Groups, matcher: Matcher, s: Sighting): Groups {
    var m := matcher(s.host);
    if m.None? then g
    else
      var k := Key(m.value, s.host);
      Groups(
        if k in g.at then g.order else g.order + [k],
        g.at[k := Bump(if k in g.at then g.at[k] else NewInfo(k, s), s)])
  }

  function Grouped(matcher: Matcher, ss: seq<Sighting>): Groups {
    if ss == [] then Groups([], map[]) else AddTo(Grouped(matcher, ss[..|ss| - 1]), matcher, ss[|ss| - 1])
  }

  function RecordOf(i: Info): MergedRecord {
    MergedRecord(
      i.serviceName, i.provider, i.sources, i.hostnames, i.ipAddresses, i.first, i.last, i.totalRequests, |i.users|, i.tokens)
  }

  /** Records in insertion order. */
  function ListRecords(order: seq<Key>, at: map<Key, Info>): seq<MergedRecord>
    requires forall k :: k in order ==> k in at
  {
    if order == [] then [] else [RecordOf(at[order[0]])] + ListRecords(order[1..], at)
  }

  predicate LatestFirst(a: MergedRecord, b: MergedRecord) {
    a.last >= b.last
  }

  ghost predicate Proper(g: Groups) {
    && (forall k :: k in g.order <==> k in g.at)
    && (forall i, j :: 0 <= i < j < |g.order| ==> g.order[i] != g.order[j])
    && (forall k :: k in g.at ==> g.at[k].provider == k.provider && g.at[k].users == g.at[k].ipAddresses)
    && (forall k :: k in g.at ==> g.at[k].serviceName == k.host && g.at[k].hostnames == {k.host})
  }

  lemma {:induction false} GroupedIsProper(matcher: Matcher, ss: seq<Sighting>)
    ensures Proper(Grouped(matcher, ss))
  {
    if ss == [] {
    } else {
      GroupedIsProper(matcher, ss[..|ss| - 1]);
    }
  }

  ghost function RecordsFor(matcher: Matcher, ss: seq<Sighting>): seq<MergedRecord> {
    var g := Grouped(matcher, ss);
    GroupedIsProper(matcher, ss);
    Sort(ListRecords(g.order, g.at), LatestFirst)
  }

  /** One pass of the body shared by the two loops. */
  method Record(g: Groups, matcher: Matcher, s: Sighting) returns (g': Groups)
    ensures g' == AddTo(g, matcher, s)
  {
    var match' := matcher(s.host);
    if match'.None? {
      return g;
    }
    var key := Key(match'.value, s.host);
    g' := g;
    if key !in g'.at {
      g' := Groups(g'.order + [key], g'.at[key := NewInfo(key, s)]);
    }
    var info := g'.at[key];
    info := info.(sources := info.sources + {s.source});
    info := info.(hostnames := info.hostnames + {s.host});
    info := info.(ipAddresses := info.ipAddresses + {s.ip});
    info := info.(totalRequests := info.totalRequests + 1);
    info := info.(users := info.users + {s.ip});
    info := info.(tokens := info.tokens + s.tokens);
    if s.time < info.first {
      info := info.(first := s.time);
    }
    if s.time > info.last {
      info := info.(last := s.time);
    }
    g' := Groups(g'.order, g'.at[key := info]);
  }

  method GroupDns(dns: seq<DnsEntry>, matcher: Matcher) returns (groups: Groups)
    ensures groups == Grouped(matcher, DnsSightings(dns))
  {
    groups := Groups([], map[]);
    ghost var ss := DnsSightings(dns);
    for k := 0 to |dns|
      invariant groups == Grouped(matcher, ss[..k])
    {
      GroupedStep(matcher, ss, k);
      groups := Record(groups, matcher, DnsSighting(dns[k]));
    }
    assert ss[..|ss|] == ss;
  }

  /** The second loop goes on with the groups of the first. */
  method GroupProxy(start: Groups, proxy: seq<ProxyEntry>, matcher: Matcher, ghost before: seq<Sighting>)
    returns (groups: Groups)
    requires start == Grouped(matcher, before)
    ensures groups == Grouped(matcher, before + ProxySightings(proxy))
  {
    groups := start;
    GroupedEnds(matcher, before, proxy);
    for k := 0 to |proxy|
      invariant groups == GroupedUpTo(matcher, before, proxy, k)
    {
      GroupedProxyStep(matcher, before, proxy, k);
      groups := Record(groups, matcher, ProxySighting(proxy[k]));
    }
  }

  ghost function GroupedUpTo(matcher: Matcher, before: seq<Sighting>, proxy: seq<ProxyEntry>, k: nat): Groups
    requires k <= |proxy|
  {
    Grouped(matcher, (before + ProxySightings(proxy))[..|before| + k])
  }

  lemma GroupedEnds(matcher: Matcher, before: seq<Sighting>, proxy: seq<ProxyEntry>)
    ensures GroupedUpTo(matcher, before, proxy, 0) == Grouped(matcher, before)
    ensures GroupedUpTo(matcher, before, proxy, |proxy|) == Grouped(matcher, before + ProxySightings(proxy))
  {
    var ss := before + ProxySightings(proxy);
    assert ss[..|before|] == before && ss[..|before| + |proxy|] == ss;
  }

  lemma GroupedProxyStep(matcher: Matcher, before: seq<Sighting>, proxy: seq<ProxyEntry>, k: nat)
    requires k < |proxy|
    ensures GroupedUpTo(matcher, before, proxy, k + 1)
         == AddTo(GroupedUpTo(matcher, before, proxy, k), matcher, ProxySighting(proxy[k]))
  {
    var ss := before + ProxySightings(proxy);
    GroupedStep(matcher, ss, |before| + k);
    assert ss[|before| + k] == ProxySighting(proxy[k]);
  }

  lemma GroupedStep(matcher: Matcher, ss: seq<Sighting>, k: nat)
    requires k < |ss|
    ensures Grouped(matcher, ss[..k + 1]) == AddTo(Grouped(matcher, ss[..k]), matcher, ss[k])
  {
    assert ss[..k + 1][..k] == ss[..k];
  }

  method ToRecords(groups: Groups) returns (records: seq<MergedRecord>)
    requires forall k :: k in groups.order ==> k in groups.at
    ensures records == ListRecords(groups.order, groups.at)
  {
    records := [];
    for k := 0 to |groups.order|
      invariant records + ListRecords(groups.order[k..], groups.at) == ListRecords(groups.order, groups.at)
    {
      assert groups.order[k..][1..] == groups.order[k + 1..];
      records := records + [RecordOf(groups.at[groups.order[k]])];
    }
  }

  method Merge(dns: seq<DnsEntry>, proxy: seq<ProxyEntry>, matcher: Matcher) returns (records: seq<MergedRecord>)
    ensures records == RecordsFor(matcher, DnsSightings(dns) + ProxySightings(proxy))
  {
    var groups := GroupDns(dns, matcher);
    groups := GroupProxy(groups, proxy, matcher, DnsSightings(dns));
    GroupedIsProper(matcher, DnsSightings(dns) + ProxySightings(proxy));
    records := ToRecords(groups);
    records := Sort(records, LatestFirst);
  }

  // ----- UsageAnalyzer -----

  datatype UsageSummary = UsageSummary(
    serviceName: string, provider: Option<string>, requestCount: nat, userCount: nat, userList: set<string>,
    first: int, last: int, tokens: int, classification: Option<string>)

  type Summaries = map<string, UsageSummary>

  const UNKNOWN := "unknown"

  function ProviderName(matcher: Matcher, s: Sighting): string {
    matcher(s.host).GetOr(UNKNOWN)
  }

  function NewSummary(matcher: Matcher, s: Sighting): UsageSummary {
    UsageSummary(s.host, matcher(s.host), 0, 0, {}, s.time, s.time, 0, None)
  }

  function BumpSummary(u: UsageSummary, s: Sighting): UsageSummary {
    var users := u.userList + {s.ip};
    u.(requestCount := u.requestCount + 1, userList := users, userCount := |users|,
       tokens := u.tokens + s.tokens, first := Earlier(s.time, u.first), last := Later(s.time, u.last))
  }

  function Summarize(matcher: Matcher, m: Summaries, s: Sighting): Summaries {
    var p := ProviderName(matcher, s);
    m[p := BumpSummary(if p in m then m[p] else NewSummary(matcher, s), s)]
  }

  function Analyzed(matcher: Matcher, ss: seq<Sighting>): Summaries {
    if ss == [] then map[] else Summarize(matcher, Analyzed(matcher, ss[..|ss| - 1]), ss[|ss| - 1])
  }

  /** One pass of the body shared by `analyze_dns` and `analyze_proxy`. */
  method Observe(m: Summaries, matcher: Matcher, s: Sighting) returns (m': Summaries)
    ensures m' == Summarize(matcher, m, s)
  {
    var provider := ProviderName(matcher, s);
    m' := m;
    if provider !in m' {
      m' := m'[provider := NewSummary(matcher, s)];
    }
    var g := m'[provider];
    g := g.(requestCount := g.requestCount + 1);
    g := g.(userList := g.userList + {s.ip});
    g := g.(userCount := |g.userList|);
    g := g.(tokens := g.tokens + s.tokens);
    if s.time < g.first {
      g := g.(first := s.time);
    }
    if s.time > g.last {
      g := g.(last := s.time);
    }
    m' := m'[provider := g];
  }

  method AnalyzeDns(entries: seq<DnsEntry>, matcher: Matcher) returns (m: Summaries)
    ensures m == Analyzed(matcher, DnsSightings(entries))
  {
    m := map[];
    ghost var ss := DnsSightings(entries);
    for k := 0 to |entries|
      invariant m == Analyzed(matcher, ss[..k])
    {
      assert ss[..k + 1][..k] == ss[..k];
      m := Observe(m, matcher, DnsSighting(entries[k]));
    }
    assert ss[..|ss|] == ss;
  }

  method AnalyzeProxy(entries: seq<ProxyEntry>, matcher: Matcher) returns (m: Summaries)
    ensures m == Analyzed(matcher, ProxySightings(entries))
  {
    m := map[];
    ghost var ss := ProxySightings(entries);
    for k := 0 to |entries|
      invariant m == Analyzed(matcher, ss[..k])
    {
      assert ss[..k + 1][..k] == ss[..k];
      m := Observe(m, matcher, ProxySighting(entries[k]));
    }
    assert ss[..|ss|] == ss;
  }

  function MergeTwo(provider: string, dns: UsageSummary, proxy: UsageSummary): UsageSummary {
    var users := dns.userList + proxy.userList;
    UsageSummary(
      dns.serviceName, Some(provider), dns.requestCount + proxy.requestCount, |users|, users,
      Earlier(dns.first, proxy.first), Later(dns.last, proxy.last), dns.tokens + proxy.tokens,
      if dns.classification.Some? && dns.classification.value != "" then dns.classification else proxy.classification)
  }

  function MergedSummaries(dns: Summaries, proxy: Summaries): Summaries {
    map p | p in dns.Keys + proxy.Keys ::
      if p in dns && p in proxy then MergeTwo(p, dns[p], proxy[p]) else if p in dns then dns[p] else proxy[p]
  }

  /** The providers are visited in any order. */
  method MergeSummaries(dns: Summaries, proxy: Summaries) returns (merged: Summaries)
    ensures merged == MergedSummaries(dns, proxy)
  {
    var todo := dns.Keys + proxy.Keys;
    merged := map[];
    while todo != {}
      invariant todo <= dns.Keys + proxy.Keys
      invariant merged == map p | p in dns.Keys + proxy.Keys - todo :: MergedSummaries(dns, proxy)[p]
    {
      var p :| p in todo;
      if p in dns && p in proxy {
        merged := merged[p := MergeTwo(p, dns[p], proxy[p])];
      } else if p in dns {
        merged := merged[p := dns[p]];
      } else {
        merged := merged[p := proxy[p]];
      }
      todo := todo - {p};
    }
  }

  // ----- What each side has seen -----

  function RecordTotal(r: MergedRecord): Aggregate {
    Seen(r.totalRequests, r.ipAddresses, r.first, r.last, r.tokens)
  }

  function SummaryTotal(m: Summaries, p: string): Aggregate {
    if p in m then Seen(m[p].requestCount, m[p].userList, m[p].first, m[p].last, m[p].tokens) else Nothing
  }

  /** All records of one provider, taken together. */
  function ProviderTotal(records: seq<MergedRecord>, p: string): Aggregate {
    if records == [] then Nothing
    else Join(if records[0].provider == p then RecordTotal(records[0]) else Nothing, ProviderTotal(records[1..], p))
  }

  function Matched(matcher: Matcher, p: string): Sighting -> bool {
    (s: Sighting) => matcher(s.host) == Some(p)
  }

  function Unmatched(matcher: Matcher): Sighting -> bool {
    (s: Sighting) => matcher(s.host).None?
  }

  function Named(matcher: Matcher, p: string): Sighting -> bool {
    (s: Sighting) => ProviderName(matcher, s) == p
  }

  // ----- DedupMerge conserves what it sees -----

  lemma {:induction false} InsertKeepsTotal(x: MergedRecord, s: seq<MergedRecord>, p: string)
    ensures ProviderTotal(Insert(x, s, LatestFirst), p) == ProviderTotal([x] + s, p)
  {
    assert ([x] + s)[1..] == s;
    if s != [] && !LatestFirst(x, s[0]) {
      var a := if x.provider == p then RecordTotal(x) else Nothing;
      var b := if s[0].provider == p then RecordTotal(s[0]) else Nothing;
      InsertKeepsTotal(x, s[1..], p);
      assert ([x] + s[1..])[1..] == s[1..];
      var r := [s[0]] + Insert(x, s[1..], LatestFirst);
      assert r[1..] == Insert(x, s[1..], LatestFirst);
      JoinLaws(b, a, ProviderTotal(s[1..], p));
      JoinLaws(a, b, ProviderTotal(s[1..], p));
    }
  }

  lemma {:induction false} SortKeepsTotal(s: seq<MergedRecord>, p: string)
    ensures ProviderTotal(Sort(s, LatestFirst), p) == ProviderTotal(s, p)
  {
    if s == [] {
    } else {
      SortKeepsTotal(s[1..], p);
      InsertKeepsTotal(s[0], Sort(s[1..], LatestFirst), p);
      assert ([s[0]] + Sort(s[1..], LatestFirst))[1..] == Sort(s[1..], LatestFirst);
    }
  }

  /** Groups that are not listed do not matter. */
  lemma {:induction false} UnlistedIsIrrelevant(order: seq<Key>, at: map<Key, Info>, k: Key, i: Info)
    requires forall j :: j in order ==> j in at && j != k
    ensures ListRecords(order, at[k := i]) == ListRecords(order, at)
  {
    if order == [] {
    } else {
      assert order[0] in order && forall j :: j in order[1..] ==> j in order;
      UnlistedIsIrrelevant(order[1..], at, k, i);
    }
  }

  ghost predicate Listed(order: seq<Key>, at: map<Key, Info>) {
    && (forall j :: j in order ==> j in at && at[j].provider == j.provider && at[j].users == at[j].ipAddresses)
    && (forall i, j :: 0 <= i < j < |order| ==> order[i] != order[j])
  }

  lemma ListedTail(order: seq<Key>, at: map<Key, Info>)
    requires order != [] && Listed(order, at)
    ensures order[0] in order && Listed(order[1..], at)
    ensures forall j :: j in order[1..] <==> j in order && j != order[0]
  {
    assert order == [order[0]] + order[1..];
  }

  lemma BumpedTotal(i: Info, s: Sighting)
    requires i.users == i.ipAddresses
    ensures RecordTotal(RecordOf(Bump(i, s))) == Join(RecordTotal(RecordOf(i)), One(s))
  {
  }

  /** Updating one group adds one sighting to its provider and leaves every other provider alone. */
  lemma {:induction false} BumpAddsOne(order: seq<Key>, at: map<Key, Info>, k: Key, s: Sighting, p: string)
    requires Listed(order, at) && k in order
    ensures ProviderTotal(ListRecords(order, at[k := Bump(at[k], s)]), p)
         == Join(ProviderTotal(ListRecords(order, at), p), if k.provider == p then One(s) else Nothing)
  {
    ListedTail(order, at);
    var at', extra := at[k := Bump(at[k], s)], if k.provider == p then One(s) else Nothing;
    var rest := ProviderTotal(ListRecords(order[1..], at), p);
    var head := if order[0].provider == p then RecordTotal(RecordOf(at[order[0]])) else Nothing;
    ListHead(order, at, p);
    ListHead(order, at', p);
    if order[0] == k {
      UnlistedIsIrrelevant(order[1..], at, k, Bump(at[k], s));
      BumpedTotal(at[k], s);
      JoinLaws(head, extra, rest);
      JoinLaws(head, rest, extra);
      JoinLaws(rest, extra, Nothing);
    } else {
      BumpAddsOne(order[1..], at, k, s, p);
      JoinLaws(head, rest, extra);
    }
  }

  lemma ListHead(order: seq<Key>, at: map<Key, Info>, p: string)
    requires order != [] && (forall j :: j in order ==> j in at) && at[order[0]].provider == order[0].provider
    ensures ProviderTotal(ListRecords(order, at), p)
         == Join(
              if order[0].provider == p then RecordTotal(RecordOf(at[order[0]])) else Nothing,
              ProviderTotal(ListRecords(order[1..], at), p))
  {
    assert ListRecords(order, at)[1..] == ListRecords(order[1..], at);
  }

  lemma FirstRecord(at: map<Key, Info>, k: Key, s: Sighting, p: string)
    ensures ProviderTotal(ListRecords([k], at[k := Bump(NewInfo(k, s), s)]), p) == if k.provider == p then One(s) else Nothing
  {
    var at' := at[k := Bump(NewInfo(k, s), s)];
    assert [k][1..] == [];
    assert ListRecords([k], at') == [RecordOf(at'[k])];
  }

  lemma {:induction false} AppendAddsOne(order: seq<Key>, at: map<Key, Info>, k: Key, s: Sighting, p: string)
    requires forall j :: j in order ==> j in at && j != k
    ensures ProviderTotal(ListRecords(order + [k], at[k := Bump(NewInfo(k, s), s)]), p)
         == Join(ProviderTotal(ListRecords(order, at), p), if k.provider == p then One(s) else Nothing)
  {
    var at' := at[k := Bump(NewInfo(k, s), s)];
    if order == [] {
      FirstRecord(at, k, s, p);
      assert order + [k] == [k];
    } else {
      forall j | j in order[1..] ensures j in at && j != k {
        assert j in order;
      }
      AppendAddsOne(order[1..], at, k, s, p);
      assert (order + [k])[1..] == order[1..] + [k];
      var head := if at[order[0]].provider == p then RecordTotal(RecordOf(at[order[0]])) else Nothing;
      JoinLaws(head, ProviderTotal(ListRecords(order[1..], at), p), if k.provider == p then One(s) else Nothing);
    }
  }

  lemma {:induction false} GroupsConserve(matcher: Matcher, ss: seq<Sighting>, p: string)
    ensures Proper(Grouped(matcher, ss))
    ensures var g := Grouped(matcher, ss);
            ProviderTotal(ListRecords(g.order, g.at), p) == Total(ss, Matched(matcher, p))
  {
    GroupedIsProper(matcher, ss);
    if ss != [] {
      var front, s := ss[..|ss| - 1], ss[|ss| - 1];
      GroupsConserve(matcher, front, p);
      var g := Grouped(matcher, front);
      if matcher(s.host).Some? {
        var k := Key(matcher(s.host).value, s.host);
        if k in g.at {
          BumpAddsOne(g.order, g.at, k, s, p);
          JoinLaws(Total(front, Matched(matcher, p)), Nothing, Nothing);
        } else {
          AppendAddsOne(g.order, g.at, k, s, p);
          JoinLaws(Total(front, Matched(matcher, p)), Nothing, Nothing);
        }
      }
    }
  }

  /** The records of a provider add up to exactly the sightings matched to it. */
  lemma RecordsConserve(matcher: Matcher, ss: seq<Sighting>, p: string)
    ensures ProviderTotal(RecordsFor(matcher, ss), p) == Total(ss, Matched(matcher, p))
  {
    GroupsConserve(matcher, ss, p);
    var g := Grouped(matcher, ss);
    SortKeepsTotal(ListRecords(g.order, g.at), p);
  }

  // ----- One record per provider and hostname -----

  predicate SameKey(a: MergedRecord, b: MergedRecord) {
    a.provider == b.provider && a.serviceName == b.serviceName
  }

  ghost predicate Deduplicated(records: seq<MergedRecord>) {
    forall i, j :: 0 <= i < j < |records| ==> !SameKey(records[i], records[j])
  }

  lemma {:induction false} InsertStaysDeduplicated(x: MergedRecord, s: seq<MergedRecord>)
    requires Deduplicated(s) && forall y :: y in s ==> !SameKey(x, y)
    ensures Deduplicated(Insert(x, s, LatestFirst))
  {
    if s != [] && !LatestFirst(x, s[0]) {
      InsertStaysDeduplicated(x, s[1..]);
      InsertPermutes(x, s[1..], LatestFirst);
      var rest := Insert(x, s[1..], LatestFirst);
      forall j | 0 <= j < |rest| ensures !SameKey(s[0], rest[j]) {
        assert rest[j] in multiset(rest);
        assert s[0] in s && !SameKey(x, s[0]);
        if rest[j] != x {
          var i :| 0 <= i < |s[1..]| && s[1..][i] == rest[j];
          assert !SameKey(s[0], s[i + 1]);
        }
      }
    }
  }

  lemma {:induction false} SortStaysDeduplicated(s: seq<MergedRecord>)
    requires Deduplicated(s)
    ensures Deduplicated(Sort(s, LatestFirst))
  {
    if s == [] {
    } else {
      SortStaysDeduplicated(s[1..]);
      SortKeepsMembers(s[1..], LatestFirst);
      InsertStaysDeduplicated(s[0], Sort(s[1..], LatestFirst));
    }
  }

  lemma {:induction false} ListAt(order: seq<Key>, at: map<Key, Info>, i: nat)
    requires (forall k :: k in order ==> k in at) && i < |order|
    ensures |ListRecords(order, at)| == |order| && ListRecords(order, at)[i] == RecordOf(at[order[i]])
  {
    if |order| > 1 {
      ListAt(order[1..], at, if i == 0 then 0 else i - 1);
    }
  }

  /** Records are deduplicated by provider and hostname, latest first. */
  lemma RecordsAreDeduplicated(matcher: Matcher, ss: seq<Sighting>)
    ensures Deduplicated(RecordsFor(matcher, ss)) && SortedBy(RecordsFor(matcher, ss), LatestFirst)
  {
    GroupedIsProper(matcher, ss);
    var g := Grouped(matcher, ss);
    var list := ListRecords(g.order, g.at);
    forall i, j | 0 <= i < j < |list| ensures !SameKey(list[i], list[j]) {
      ListLength(g.order, g.at);
      ListAt(g.order, g.at, i);
      ListAt(g.order, g.at, j);
    }
    SortStaysDeduplicated(list);
    SortSorts(list, LatestFirst);
  }

  lemma {:induction false} ListLength(order: seq<Key>, at: map<Key, Info>)
    requires forall k :: k in order ==> k in at
    ensures |ListRecords(order, at)| == |order|
  {
    if order == [] {
    } else {
      ListLength(order[1..], at);
    }
  }

  // ----- UsageAnalyzer conserves what it sees -----

  lemma {:induction false} AnalysisConserves(matcher: Matcher, ss: seq<Sighting>, p: string)
    ensures SummaryTotal(Analyzed(matcher, ss), p) == Total(ss, Named(matcher, p))
    ensures p in Analyzed(matcher, ss) ==> Analyzed(matcher, ss)[p].userCount == |Analyzed(matcher, ss)[p].userList|
  {
    if ss == [] {
    } else {
      AnalysisConserves(matcher, ss[..|ss| - 1], p);
      SummarizeAddsOne(matcher, Analyzed(matcher, ss[..|ss| - 1]), ss[|ss| - 1], p);
    }
  }

  lemma SummarizeAddsOne(matcher: Matcher, m: Summaries, s: Sighting, p: string)
    requires p in m ==> m[p].userCount == |m[p].userList|
    ensures var m' := Summarize(matcher, m, s);
            && SummaryTotal(m', p) == Join(SummaryTotal(m, p), if ProviderName(matcher, s) == p then One(s) else Nothing)
            && (p in m' ==> m'[p].userCount == |m'[p].userList|)
  {
  }

  lemma MergeJoins(dns: Summaries, proxy: Summaries, p: string)
    ensures SummaryTotal(MergedSummaries(dns, proxy), p) == Join(SummaryTotal(dns, p), SummaryTotal(proxy, p))
  {
  }

  function UsageOf(matcher: Matcher, dns: seq<DnsEntry>, proxy: seq<ProxyEntry>): Summaries {
    MergedSummaries(Analyzed(matcher, DnsSightings(dns)), Analyzed(matcher, ProxySightings(proxy)))
  }

  lemma UsageConserves(matcher: Matcher, dns: seq<DnsEntry>, proxy: seq<ProxyEntry>, p: string)
    ensures SummaryTotal(UsageOf(matcher, dns, proxy), p)
         == Total(DnsSightings(dns) + ProxySightings(proxy), Named(matcher, p))
  {
    AnalysisConserves(matcher, DnsSightings(dns), p);
    AnalysisConserves(matcher, ProxySightings(proxy), p);
    MergeJoins(Analyzed(matcher, DnsSightings(dns)), Analyzed(matcher, ProxySightings(proxy)), p);
    TotalConcat(DnsSightings(dns), ProxySightings(proxy), Named(matcher, p));
  }

  // ----- The two agree -----

  /**
   For every provider the records of `DedupMerge`, taken together, report the same requests, users, first and
   last time and tokens as the merged summary of `UsageAnalyzer`; the group "unknown" also holds everything
   that no provider matched.
   */
  lemma AggregatorsAgree(matcher: Matcher, dns: seq<DnsEntry>, proxy: seq<ProxyEntry>, p: string)
    ensures var ss := DnsSightings(dns) + ProxySightings(proxy);
            SummaryTotal(UsageOf(matcher, dns, proxy), p)
            == Join(
                 ProviderTotal(RecordsFor(matcher, ss), p),
                 if p == UNKNOWN then Total(ss, Unmatched(matcher)) else Nothing)
  {
    var ss := DnsSightings(dns) + ProxySightings(proxy);
    RecordsConserve(matcher, ss, p);
    UsageConserves(matcher, dns, proxy, p);
    if p == UNKNOWN {
      TotalSplits(ss, Named(matcher, p), Matched(matcher, p), Unmatched(matcher));
    } else {
      TotalAgrees(ss, Named(matcher, p), Matched(matcher, p));
      JoinLaws(Total(ss, Matched(matcher, p)), Nothing, Nothing);
    }
  }

  function CountOf(a: Aggregate): nat {
    if a.Nothing? then 0 else a.requests
  }

  function SumCounts(m: Summaries, names: seq<string>): nat {
    if names == [] then 0 else CountOf(SummaryTotal(m, names[0])) + SumCounts(m, names[1..])
  }

  function SumTotals(matcher: Matcher, ss: seq<Sighting>, names: seq<string>): nat {
    if names == [] then 0 else CountOf(Total(ss, Named(matcher, names[0]))) + SumTotals(matcher, ss, names[1..])
  }

  lemma {:induction false} OneMoreSighting(matcher: Matcher, ss: seq<Sighting>, names: seq<string>)
    requires ss != [] && forall i, j :: 0 <= i < j < |names| ==> names[i] != names[j]
    ensures SumTotals(matcher, ss, names)
         == SumTotals(matcher, ss[..|ss| - 1], names)
            + (if ProviderName(matcher, ss[|ss| - 1]) in names then 1 else 0)
  {
    if names == [] {
    } else {
      OneMoreSighting(matcher, ss, names[1..]);
      assert names == [names[0]] + names[1..];
    }
  }

  lemma {:induction false} EveryoneIsCounted(matcher: Matcher, ss: seq<Sighting>, names: seq<string>)
    requires forall i, j :: 0 <= i < j < |names| ==> names[i] != names[j]
    requires forall s :: s in ss ==> ProviderName(matcher, s) in names
    ensures SumTotals(matcher, ss, names) == |ss|
  {
    if ss == [] {
      NothingToCount(matcher, names);
    } else {
      EveryoneIsCounted(matcher, ss[..|ss| - 1], names);
      OneMoreSighting(matcher, ss, names);
    }
  }

  lemma {:induction false} NothingToCount(matcher: Matcher, names: seq<string>)
    ensures SumTotals(matcher, [], names) == 0
  {
    if names == [] {
    } else {
      NothingToCount(matcher, names[1..]);
    }
  }

  lemma {:induction false} SameSums(
    matcher: Matcher, dns: seq<DnsEntry>, proxy: seq<ProxyEntry>, names: seq<string>)
    ensures SumCounts(UsageOf(matcher, dns, proxy), names)
         == SumTotals(matcher, DnsSightings(dns) + ProxySightings(proxy), names)
  {
    if names == [] {
    } else {
      UsageConserves(matcher, dns, proxy, names[0]);
      SameSums(matcher, dns, proxy, names[1..]);
    }
  }

  /** Over any listing of the merged summaries, the request counts add up to the number of log entries. */
  lemma CountsAddUp(matcher: Matcher, dns: seq<DnsEntry>, proxy: seq<ProxyEntry>, names: seq<string>)
    requires forall i, j :: 0 <= i < j < |names| ==> names[i] != names[j]
    requires forall p :: p in UsageOf(matcher, dns, proxy) ==> p in names
    ensures SumCounts(UsageOf(matcher, dns, proxy), names) == |dns| + |proxy|
  {
    var ss := DnsSightings(dns) + ProxySightings(proxy);
    forall s | s in ss ensures ProviderName(matcher, s) in names {
      UsageConserves(matcher, dns, proxy, ProviderName(matcher, s));
      SeenIsNotNothing(ss, Named(matcher, ProviderName(matcher, s)), s);
    }
    SameSums(matcher, dns, proxy, names);
    EveryoneIsCounted(matcher, ss, names);
  }

  lemma {:induction false} SeenIsNotNothing(ss: seq<Sighting>, which: Sighting -> bool, s: Sighting)
    requires s in ss && which(s)
    ensures Total(ss, which) != Nothing
  {
    var front := ss[..|ss| - 1];
    assert ss == front + [ss[|ss| - 1]];
    if s in front {
      SeenIsNotNothing(front, which, s);
    }
  }
}
