/**
 The route table of the gateway (gateway/router.py): a list of entries with a side list of wildcard entries.
 `Scan` looks a host up in the entries alone; the side list is proved to be redundant.
 */
module RouteTable {
  import opened Options
  import opened Sorting
  import opened Text

  datatype RouteEntry = RouteEntry(hostname: string, provider: string, targetUrl: string, port: Option<nat>)

  predicate IsWildcard(e: RouteEntry) {
    "*." <= e.hostname
  }

  predicate SameHost(a: string, b: string) {
    FoldAll(a) == FoldAll(b)
  }

  /** The pattern of a wildcard entry: the suffix alone, or the suffix after a dot. */
  predicate MatchesWildcard(e: RouteEntry, host: string)
    requires IsWildcard(e)
  {
    var suffix := e.hostname[2..];
    || SameHost(host, suffix)
    || (|host| > |suffix| && host[|host| - |suffix| - 1] == '.' && SameHost(host[|host| - |suffix|..], suffix))
  }

  /** ASCII white space, as `str.strip` sees it. */
  predicate IsSpace(c: char) {
    '\t' <= c <= '\r' || '\U{1C}' <= c <= ' '
  }

  function StripLeft(s: string): string {
    if s != "" && IsSpace(s[0]) then StripLeft(s[1..]) else s
  }

  function StripRight(s: string): string {
    if s != "" && IsSpace(s[|s| - 1]) then StripRight(s[..|s| - 1]) else s
  }

  function Strip(s: string): string {
    StripRight(StripLeft(s))
  }

  /** Host and, after the last colon, port of an already stripped name. */
  datatype Target = Target(host: string, port: Option<string>)

  predicate AllDigits(s: string) {
    s != "" && forall i :: 0 <= i < |s| ==> IsDigit(s[i])
  }

  function LastColon(s: string): int {
    if s == "" then -1 else if s[|s| - 1] == ':' then |s| - 1 else LastColon(s[..|s| - 1])
  }

  function Split(name: string): Target {
    var at := LastColon(name);
    if 0 <= at < |name| then
      Target(name[..at], if AllDigits(name[at + 1..]) then Some(name[at + 1..]) else None)
    else Target(name, None)
  }

  predicate PortIs(e: RouteEntry, port: string) {
    e.port.Some? && Decimal(e.port.value) == port
  }

  // ----- Looking up in the entries alone -----

  function First(es: seq<RouteEntry>, wanted: RouteEntry -> bool): Option<RouteEntry> {
    if es == [] then None else if wanted(es[0]) then Some(es[0]) else First(es[1..], wanted)
  }

  function IsExact(host: string): RouteEntry -> bool {
    (e: RouteEntry) => !IsWildcard(e) && SameHost(host, e.hostname)
  }

  function IsWild(host: string): RouteEntry -> bool {
    (e: RouteEntry) => IsWildcard(e) && MatchesWildcard(e, host)
  }

  function HasPort(port: string): RouteEntry -> bool {
    (e: RouteEntry) => PortIs(e, port)
  }

  /** Exact names first, then wildcards, then the port. */
  function Scan(entries: seq<RouteEntry>, name: string): Option<RouteEntry> {
    var t := Split(Strip(name));
    var exact, wild := First(entries, IsExact(t.host)), First(entries, IsWild(t.host));
    if exact.Some? then exact
    else if wild.Some? then wild
    else if t.port.Some? then First(entries, HasPort(t.port.value))
    else None
  }

  function Wildcards(): RouteEntry -> bool {
    (e: RouteEntry) => IsWildcard(e)
  }

  function Other(hostname: string): RouteEntry -> bool {
    (e: RouteEntry) => e.hostname != hostname
  }

  function WithoutHost(entries: seq<RouteEntry>, hostname: string): seq<RouteEntry> {
    Filter(entries, Other(hostname))
  }

  ghost predicate UniqueHosts(entries: seq<RouteEntry>) {
    forall i, j :: 0 <= i < j < |entries| ==> entries[i].hostname != entries[j].hostname
  }

  /** The providers known from the start. */
  function DefaultRoutes(): seq<RouteEntry> {
    [
      RouteEntry("api.openai.com", "openai", "https://api.openai.com", None),
      RouteEntry("*.openai.com", "openai", "https://api.openai.com", None),
      RouteEntry("api.anthropic.com", "anthropic", "https://api.anthropic.com", None),
      RouteEntry("generativelanguage.googleapis.com", "gemini", "https://generativelanguage.googleapis.com", None),
      RouteEntry("localhost", "ollama", "http://localhost:11434", Some(11434)),
      RouteEntry("127.0.0.1", "ollama", "http://127.0.0.1:11434", Some(11434)),
      RouteEntry("api.deepseek.com", "deepseek", "https://api.deepseek.com", None),
      RouteEntry("api.mistral.ai", "mistral", "https://api.mistral.ai", None),
      RouteEntry("api.cohere.ai", "cohere", "https://api.cohere.ai", None),
      RouteEntry("api.together.xyz", "together", "https://api.together.xyz", None),
      RouteEntry("api.perplexity.ai", "perplexity", "https://api.perplexity.ai", None)
    ]
  }

  /** Length and two characters tell the default names apart. */
  lemma DefaultsAreUnique()
    ensures UniqueHosts(DefaultRoutes())
  {
    var es := DefaultRoutes();
    forall i, j | 0 <= i < j < |es| ensures es[i].hostname != es[j].hostname {
      var a, b := es[i].hostname, es[j].hostname;
      assert |a| != |b| || a[0] != b[0] || a[4] != b[4];
    }
  }

  class Table {
    var entries: seq<RouteEntry>
    var wildcards: seq<RouteEntry>

    ghost predicate Valid()
      reads this
    {
      UniqueHosts(entries) && wildcards == Filter(entries, Wildcards())
    }

    constructor ()
      ensures Valid() && entries == DefaultRoutes()
    {
      entries, wildcards := [], [];
      new;
      DefaultsAreUnique();
      var defaults := DefaultRoutes();
      for k := 0 to |defaults|
        invariant entries == defaults[..k] && wildcards == Filter(entries, Wildcards())
      {
        FilterAppend(entries, [defaults[k]], Wildcards());
        entries := entries + [defaults[k]];
        if IsWildcard(defaults[k]) {
          wildcards := wildcards + [defaults[k]];
        }
        assert entries == defaults[..k + 1];
      }
    }

    method Lookup(name: string) returns (found: Option<RouteEntry>)
      requires Valid()
      ensures found == Scan(entries, name)
    {
      var t := Split(Strip(name));
      found := FindFirst(entries, IsExact(t.host));
      if found.Some? {
        return;
      }
      FirstOfFiltered(entries, Wildcards(), IsWild(t.host));
      found := FindFirst(wildcards, IsWild(t.host));
      if found.Some? {
        return;
      }
      if t.port.Some? {
        found := FindFirst(entries, HasPort(t.port.value));
      }
    }

    method RemoveRoute(hostname: string)
      requires Valid()
      modifies this
      ensures Valid() && entries == WithoutHost(old(entries), hostname)
    {
      FiltersCommute(entries, Wildcards(), Other(hostname));
      UniqueAfterFilter(entries, Other(hostname));
      entries := WithoutHost(entries, hostname);
      wildcards := WithoutHost(wildcards, hostname);
    }

    method AddRoute(entry: RouteEntry)
      requires Valid()
      modifies this
      ensures Valid() && entries == WithoutHost(old(entries), entry.hostname) + [entry]
    {
      RemoveRoute(entry.hostname);
      FilterMembers(old(entries), Other(entry.hostname));
      assert forall i :: 0 <= i < |entries| ==> entries[i] in entries;
      FilterAppend(entries, [entry], Wildcards());
      entries := entries + [entry];
      if IsWildcard(entry) {
        wildcards := wildcards + [entry];
      }
    }
  }

  method FindFirst(es: seq<RouteEntry>, wanted: RouteEntry -> bool) returns (found: Option<RouteEntry>)
    ensures found == First(es, wanted)
  {
    for i := 0 to |es|
      invariant First(es, wanted) == First(es[i..], wanted)
    {
      assert es[i..][1..] == es[i + 1..];
      if wanted(es[i]) {
        return Some(es[i]);
      }
    }
    found := None;
  }

  /** Searching the side list is searching the entries, because only wildcards can match a pattern. */
  lemma {:induction false} FirstOfFiltered(es: seq<RouteEntry>, keep: RouteEntry -> bool, wanted: RouteEntry -> bool)
    requires forall e :: e in es && wanted(e) ==> keep(e)
    ensures First(Filter(es, keep), wanted) == First(es, wanted)
  {
    if es == [] {
    } else {
      FirstOfFiltered(es[1..], keep, wanted);
      var rest := Filter(es[1..], keep);
      assert Filter(es, keep) == if keep(es[0]) then [es[0]] + rest else rest;
      assert ([es[0]] + rest)[1..] == rest;
      assert es[0] in es && forall e :: e in es[1..] ==> e in es;
    }
  }

  lemma {:induction false} FiltersCommute(es: seq<RouteEntry>, p: RouteEntry -> bool, q: RouteEntry -> bool)
    ensures Filter(Filter(es, p), q) == Filter(Filter(es, q), p)
  {
    if es == [] {
    } else {
      FiltersCommute(es[1..], p, q);
      var a, b := Filter(es[1..], p), Filter(es[1..], q);
      assert ([es[0]] + a)[1..] == a && ([es[0]] + b)[1..] == b;
      assert Filter(es, p) == if p(es[0]) then [es[0]] + a else a;
      assert Filter(es, q) == if q(es[0]) then [es[0]] + b else b;
      assert Filter([es[0]] + a, q) == (if q(es[0]) then [es[0]] else []) + Filter(a, q);
      assert Filter([es[0]] + b, p) == (if p(es[0]) then [es[0]] else []) + Filter(b, p);
    }
  }

  lemma {:induction false} UniqueAfterFilter(es: seq<RouteEntry>, keep: RouteEntry -> bool)
    requires UniqueHosts(es)
    ensures UniqueHosts(Filter(es, keep))
  {
    if es == [] {
    } else {
      UniqueAfterFilter(es[1..], keep);
      FilterMembers(es[1..], keep);
      var r := Filter(es[1..], keep);
      forall j | 0 <= j < |r| ensures es[0].hostname != r[j].hostname {
        assert r[j] in es[1..];
      }
    }
  }

  /** A lookup misses exactly when no entry matches by name, by pattern or by port. */
  lemma ScanMissesIff(entries: seq<RouteEntry>, name: string)
    ensures var t := Split(Strip(name));
            Scan(entries, name).None? <==>
              forall e :: e in entries ==>
                !IsExact(t.host)(e) && !IsWild(t.host)(e) && (t.port.Some? ==> !PortIs(e, t.port.value))
  {
    var t := Split(Strip(name));
    FirstMissesIff(entries, IsExact(t.host));
    FirstMissesIff(entries, IsWild(t.host));
    if t.port.Some? {
      FirstMissesIff(entries, HasPort(t.port.value));
    }
  }

  lemma {:induction false} FirstMissesIff(es: seq<RouteEntry>, wanted: RouteEntry -> bool)
    ensures First(es, wanted).None? <==> forall e :: e in es ==> !wanted(e)
    ensures First(es, wanted).Some? ==> First(es, wanted).value in es && wanted(First(es, wanted).value)
  {
    if es == [] {
    } else {
      FirstMissesIff(es[1..], wanted);
      assert es == [es[0]] + es[1..];
    }
  }

  lemma {:induction false} LastColonIff(s: string)
    ensures LastColon(s) == -1 <==> ':' !in s
  {
    if s == "" {
    } else {
      LastColonIff(s[..|s| - 1]);
      assert s == s[..|s| - 1] + [s[|s| - 1]];
    }
  }

  lemma {:induction false} StripShortens(s: string)
    ensures |StripLeft(s)| <= |s| && (|StripLeft(s)| == |s| ==> StripLeft(s) == s)
    ensures forall c :: c in StripLeft(s) ==> c in s
  {
    if s != "" && IsSpace(s[0]) {
      StripShortens(s[1..]);
    }
  }

  lemma {:induction false} StripRightShortens(s: string)
    ensures |StripRight(s)| <= |s| && (|StripRight(s)| == |s| ==> StripRight(s) == s)
    ensures forall c :: c in StripRight(s) ==> c in s
  {
    if s != "" && IsSpace(s[|s| - 1]) {
      StripRightShortens(s[..|s| - 1]);
    }
  }

  /** No entry of the list is wanted. */
  ghost predicate NoneIs(es: seq<RouteEntry>, wanted: RouteEntry -> bool) {
    forall e :: e in es ==> !wanted(e)
  }

  /** What makes the last entry the answer for a host and a port. */
  ghost predicate LastAnswers(older: seq<RouteEntry>, entry: RouteEntry, t: Target) {
    && NoneIs(older, IsExact(t.host))
    && (|| IsExact(t.host)(entry)
        || (&& NoneIs(older, IsWild(t.host))
            && (|| IsWild(t.host)(entry)
                || (t.port.Some? && PortIs(entry, t.port.value) && NoneIs(older, HasPort(t.port.value))))))
  }

  lemma LastIsFirstIff(older: seq<RouteEntry>, entry: RouteEntry, wanted: RouteEntry -> bool)
    requires entry !in older
    ensures First(older + [entry], wanted) == Some(entry) <==> NoneIs(older, wanted) && wanted(entry)
    ensures First(older + [entry], wanted).None? <==> NoneIs(older, wanted) && !wanted(entry)
  {
    FirstAppend(older, entry, wanted);
    FirstMissesIff(older, wanted);
  }

  /** For any name, the entry added last answers exactly when nothing older comes first. */
  lemma LastEntryIsFoundIff(older: seq<RouteEntry>, entry: RouteEntry, name: string)
    requires entry !in older
    ensures Scan(older + [entry], name) == Some(entry) <==> LastAnswers(older, entry, Split(Strip(name)))
  {
    var t := Split(Strip(name));
    LastIsFirstIff(older, entry, IsExact(t.host));
    LastIsFirstIff(older, entry, IsWild(t.host));
    if t.port.Some? {
      LastIsFirstIff(older, entry, HasPort(t.port.value));
    }
  }

  /** Any entry just added: it answers for its own name exactly when no other entry answers first. */
  lemma AddedRouteIsFoundIff(entries: seq<RouteEntry>, entry: RouteEntry)
    ensures Scan(WithoutHost(entries, entry.hostname) + [entry], entry.hostname) == Some(entry)
       <==> LastAnswers(WithoutHost(entries, entry.hostname), entry, Split(Strip(entry.hostname)))
  {
    FilterMembers(entries, Other(entry.hostname));
    LastEntryIsFoundIff(WithoutHost(entries, entry.hostname), entry, entry.hostname);
  }

  lemma OwnTarget(name: string)
    requires ':' !in name
    ensures Split(Strip(name)) == Target(Strip(name), None)
    ensures |Strip(name)| <= |name| && (|Strip(name)| == |name| ==> Strip(name) == name)
  {
    StripShortens(name);
    StripRightShortens(StripLeft(name));
    LastColonIff(Strip(name));
  }

  /** A plain name: no other plain entry may equal it up to case, and there may be no white space around it. */
  lemma AddedPlainRouteIsFoundIff(entries: seq<RouteEntry>, entry: RouteEntry)
    requires !IsWildcard(entry) && ':' !in entry.hostname
    ensures Scan(WithoutHost(entries, entry.hostname) + [entry], entry.hostname) == Some(entry)
       <==> && Strip(entry.hostname) == entry.hostname
            && forall e :: e in entries && e.hostname != entry.hostname && !IsWildcard(e) ==>
                 !SameHost(entry.hostname, e.hostname)
  {
    AddedRouteIsFoundIff(entries, entry);
    OwnTarget(entry.hostname);
    FilterMembers(entries, Other(entry.hostname));
  }

  lemma WildcardsFoldToWildcards(a: string, b: string)
    requires "*." <= a && SameHost(a, b)
    ensures "*." <= b
  {
    assert FoldAll(a)[0] == '*' && FoldAll(a)[1] == '.';
    assert Fold(b[0]) == '*' && Fold(b[1]) == '.';
  }

  lemma {:induction false} StripRightEnds(s: string)
    ensures StripRight(s) != "" ==> !IsSpace(StripRight(s)[|StripRight(s)| - 1])
    ensures StripRight(s) != s ==> s != "" && IsSpace(s[|s| - 1])
  {
    if s != "" && IsSpace(s[|s| - 1]) {
      StripRightEnds(s[..|s| - 1]);
    }
  }

  lemma {:induction false} StripRightKeepsStart(s: string)
    requires s != "" && !IsSpace(s[0])
    ensures StripRight(s) != "" && StripRight(s)[0] == s[0]
  {
    if IsSpace(s[|s| - 1]) {
      StripRightKeepsStart(s[..|s| - 1]);
    }
  }

  /** Stripping a wildcard takes off white space at its end only, and then it no longer matches its own pattern. */
  lemma StrippedWildcardMatchesIff(entry: RouteEntry)
    requires IsWildcard(entry)
    ensures MatchesWildcard(entry, Strip(entry.hostname)) <==> Strip(entry.hostname) == entry.hostname
    ensures "*." <= Strip(entry.hostname)
  {
    var h := entry.hostname;
    StrippedWildcard(h);
    if Strip(h) == h {
      assert h[|h| - |h[2..]|..] == h[2..];
    } else {
      SpaceAtTheEnd(Strip(h), h[2..]);
    }
  }

  lemma StrippedWildcard(h: string)
    requires "*." <= h
    ensures "*." <= Strip(h) && !IsSpace(Strip(h)[|Strip(h)| - 1])
    ensures Strip(h) != h ==> |h| > 2 && IsSpace(h[|h| - 1])
  {
    assert h[0] == '*' && h[1] == '.' && StripLeft(h) == h;
    StripRightEnds(h);
    StripRightKeepsStart(h);
    StripRightKeepsDot(h);
  }

  lemma {:induction false} StripRightKeepsDot(s: string)
    requires |s| >= 2 && !IsSpace(s[0]) && !IsSpace(s[1])
    ensures |StripRight(s)| >= 2 && StripRight(s)[..2] == s[..2]
  {
    if IsSpace(s[|s| - 1]) {
      StripRightKeepsDot(s[..|s| - 1]);
      assert s[..|s| - 1][..2] == s[..2];
    }
  }

  /** A host that does not end in white space does not end like a suffix that does. */
  lemma SpaceAtTheEnd(host: string, suffix: string)
    requires host != "" && !IsSpace(host[|host| - 1]) && suffix != "" && IsSpace(suffix[|suffix| - 1])
    ensures !SameHost(host, suffix)
    ensures |suffix| <= |host| ==> !SameHost(host[|host| - |suffix|..], suffix)
  {
    if |suffix| == |host| {
      assert Fold(host[|host| - 1]) != Fold(suffix[|suffix| - 1]);
    }
    if |suffix| <= |host| {
      var end := host[|host| - |suffix|..];
      assert end[|end| - 1] == host[|host| - 1];
      assert FoldAll(end)[|end| - 1] != FoldAll(suffix)[|suffix| - 1];
    }
  }

  /** A wildcard: no older wildcard may cover it, and there may be no white space behind it. */
  lemma AddedWildcardIsFoundIff(entries: seq<RouteEntry>, entry: RouteEntry)
    requires IsWildcard(entry) && ':' !in entry.hostname
    ensures Scan(WithoutHost(entries, entry.hostname) + [entry], entry.hostname) == Some(entry)
       <==> && Strip(entry.hostname) == entry.hostname
            && forall e :: e in entries && e.hostname != entry.hostname && IsWildcard(e) ==>
                 !MatchesWildcard(e, entry.hostname)
  {
    var h := entry.hostname;
    AddedRouteIsFoundIff(entries, entry);
    OwnTarget(h);
    StrippedWildcardMatchesIff(entry);
    FilterMembers(entries, Other(h));
    forall e | e in entries ensures !IsExact(Strip(h))(e) {
      if SameHost(Strip(h), e.hostname) {
        WildcardsFoldToWildcards(Strip(h), e.hostname);
      }
    }
  }

  /** For instance an upper-case variant of a default route never answers. */
  lemma CaseVariantIsShadowed(entry: RouteEntry)
    requires entry.hostname == "LOCALHOST"
    ensures Scan(WithoutHost(DefaultRoutes(), entry.hostname) + [entry], entry.hostname) != Some(entry)
  {
    var shadow := LocalDefault();
    SameLetters(entry.hostname, shadow.hostname);
    AddedPlainRouteIsFoundIff(DefaultRoutes(), entry);
  }

  lemma LocalDefault() returns (e: RouteEntry)
    ensures e in DefaultRoutes() && e.hostname == "localhost"
  {
    e := DefaultRoutes()[4];
  }

  lemma SameLetters(a: string, b: string)
    requires a == "LOCALHOST" && b == "localhost"
    ensures SameHost(a, b) && a != b && ':' !in a && !("*." <= a) && !("*." <= b)
  {
    assert a[0] != b[0] && a[0] != '*' && b[0] != '*';
    assert Fold(a[0]) == b[0] && Fold(a[1]) == b[1] && Fold(a[2]) == b[2] && Fold(a[3]) == b[3] && Fold(a[4]) == b[4];
    assert Fold(a[5]) == b[5] && Fold(a[6]) == b[6] && Fold(a[7]) == b[7] && Fold(a[8]) == b[8];
    assert forall i :: 0 <= i < 9 ==> Fold(b[i]) == b[i];
  }

  lemma {:induction false} FirstAppend(es: seq<RouteEntry>, e: RouteEntry, wanted: RouteEntry -> bool)
    ensures First(es + [e], wanted)
         == if First(es, wanted).Some? then First(es, wanted) else if wanted(e) then Some(e) else None
  {
    if es == [] {
      assert [e][1..] == [];
    } else {
      assert (es + [e])[1..] == es[1..] + [e];
      FirstAppend(es[1..], e, wanted);
    }
  }
}
