/**
 How the route table reads the name it is asked for (gateway/router.py, `lookup`): white space around it, the part
 behind the last colon, and when that part is a port.
 */
module RouteNames {
  import opened Options
  import opened RouteTable
  import opened Sorting
  import opened Text

  /** The ASCII characters that `str.strip` removes. */
  const WHITE := {'\t', '\n', '\U{0B}', '\U{0C}', '\r', '\U{1C}', '\U{1D}', '\U{1E}', '\U{1F}', ' '}

  lemma WhiteIs(c: char)
    ensures IsSpace(c) <==> c in WHITE
  {
    assert '\t' as int == 9 && '\r' as int == 13 && ' ' as int == 32;
    assert IsSpace(c) <==> 9 <= c as int <= 13 || 28 <= c as int <= 32;
    assert c in WHITE <==> c as int in {9, 10, 11, 12, 13, 28, 29, 30, 31, 32};
  }

  predicate AllWhite(s: string) {
    forall i :: 0 <= i < |s| ==> s[i] in WHITE
  }

  lemma {:induction false} StripLeftIs(s: string) returns (before: string)
    ensures s == before + StripLeft(s) && AllWhite(before)
    ensures StripLeft(s) != "" ==> StripLeft(s)[0] !in WHITE
  {
    if s != "" && IsSpace(s[0]) {
      var rest := StripLeftIs(s[1..]);
      WhiteIs(s[0]);
      before := [s[0]] + rest;
    } else {
      before := "";
      if s != "" {
        WhiteIs(s[0]);
      }
    }
  }

  lemma {:induction false} StripRightIs(s: string) returns (behind: string)
    ensures s == StripRight(s) + behind && AllWhite(behind)
    ensures StripRight(s) != "" ==> StripRight(s)[|StripRight(s)| - 1] !in WHITE
  {
    if s != "" && IsSpace(s[|s| - 1]) {
      var rest := StripRightIs(s[..|s| - 1]);
      WhiteIs(s[|s| - 1]);
      behind := rest + [s[|s| - 1]];
    } else {
      behind := "";
      if s != "" {
        WhiteIs(s[|s| - 1]);
      }
    }
  }

  /** No white space at either end. */
  predicate IsTrimmed(s: string) {
    s == "" || (s[0] !in WHITE && s[|s| - 1] !in WHITE)
  }

  /** Stripping removes white space at both ends and nothing else. */
  lemma StripIs(s: string) returns (before: string, behind: string)
    ensures s == before + Strip(s) + behind && AllWhite(before) && AllWhite(behind) && IsTrimmed(Strip(s))
  {
    before := StripLeftIs(s);
    behind := StripRightIs(StripLeft(s));
    assert s == before + (Strip(s) + behind);
  }

  /** Only one trimmed text can be left. */
  lemma StripIsUnique(before: string, middle: string, behind: string)
    requires AllWhite(before) && AllWhite(behind) && IsTrimmed(middle)
    ensures Strip(before + middle + behind) == middle
  {
    StripLeftSkips(before, middle + behind);
    assert before + middle + behind == before + (middle + behind);
    if middle == "" {
      assert middle + behind == behind;
      StripLeftSkips(behind, "");
      assert behind + "" == behind;
      assert StripLeft("") == "" && StripRight("") == "";
    } else {
      WhiteIs(middle[0]);
      assert StripLeft(middle + behind) == middle + behind;
      StripRightSkips(middle, behind);
      WhiteIs(middle[|middle| - 1]);
    }
  }

  lemma {:induction false} StripLeftSkips(before: string, rest: string)
    requires AllWhite(before)
    ensures StripLeft(before + rest) == StripLeft(rest)
  {
    if before == "" {
      assert before + rest == rest;
    } else {
      WhiteIs(before[0]);
      assert (before + rest)[1..] == before[1..] + rest;
      StripLeftSkips(before[1..], rest);
    }
  }

  lemma {:induction false} StripRightSkips(s: string, behind: string)
    requires AllWhite(behind)
    ensures StripRight(s + behind) == StripRight(s)
  {
    if behind == "" {
      assert s + behind == s;
    } else {
      var n := |behind| - 1;
      WhiteIs(behind[n]);
      assert (s + behind)[..|s + behind| - 1] == s + behind[..n];
      StripRightSkips(s, behind[..n]);
    }
  }

  // ----- The last colon -----

  lemma {:induction false} LastColonAt(host: string, port: string)
    requires ':' !in port
    ensures LastColon(host + ":" + port) == |host|
  {
    var s := host + ":" + port;
    if port == "" {
      assert s[|s| - 1] == ':';
    } else {
      assert s[|s| - 1] == port[|port| - 1] && port[|port| - 1] in port;
      assert s[..|s| - 1] == host + ":" + port[..|port| - 1];
      LastColonAt(host, port[..|port| - 1]);
    }
  }

  /** A row of one or more decimal digits. */
  predicate IsNumber(s: string) {
    |s| >= 1 && forall i :: 0 <= i < |s| ==> s[i] in "0123456789"
  }

  /** What follows the last colon is cut off in any case, and is a port exactly if it is a number. */
  lemma SplitAtTheLastColon(host: string, port: string)
    requires ':' !in port
    ensures Split(host + ":" + port) == Target(host, if IsNumber(port) then Some(port) else None)
  {
    var name := host + ":" + port;
    LastColonAt(host, port);
    assert name[..|host|] == host && name[|host| + 1..] == port;
    forall i | 0 <= i < |port| ensures IsDigit(port[i]) <==> port[i] in "0123456789" {
      DigitIs(port[i]);
    }
  }

  lemma NoColonNoPort(name: string)
    requires ':' !in name
    ensures Split(name) == Target(name, None)
  {
    LastColonIff(name);
  }

  // ----- Lookups -----

  /** A port in the table is found by its decimal number and by nothing else. */
  lemma PortIsItsNumber(e: RouteEntry, n: nat)
    ensures PortIs(e, Decimal(n)) <==> e.port == Some(n)
  {
    DecimalDenotes(n);
    if e.port.Some? {
      DecimalDenotes(e.port.value);
    }
  }

  lemma DigitsHaveNoColon(s: string)
    requires s != "" && forall i :: 0 <= i < |s| ==> '0' <= s[i] <= '9'
    ensures ':' !in s && IsNumber(s) && s[|s| - 1] !in WHITE
  {
    forall i | 0 <= i < |s| ensures s[i] in "0123456789" {
      DigitIs(s[i]);
    }
    WhiteIs(s[|s| - 1]);
  }

  /** A host with a port, and white space around both: the host decides if any entry matches it, else the port does. */
  lemma LookupWithPort(entries: seq<RouteEntry>, before: string, host: string, n: nat, behind: string)
    requires AllWhite(before) && AllWhite(behind) && (host == "" || host[0] !in WHITE)
    ensures Scan(entries, before + (host + ":" + Decimal(n)) + behind)
         == if First(entries, IsExact(host)).Some? then First(entries, IsExact(host))
            else if First(entries, IsWild(host)).Some? then First(entries, IsWild(host))
            else First(entries, HasPort(Decimal(n)))
  {
    var name := host + ":" + Decimal(n);
    DecimalDenotes(n);
    DigitsHaveNoColon(Decimal(n));
    assert name[|name| - 1] == Decimal(n)[|Decimal(n)| - 1];
    assert name[0] == if host == "" then ':' else host[0];
    WhiteIs(':');
    StripIsUnique(before, name, behind);
    SplitAtTheLastColon(host, Decimal(n));
  }

  /** A host without a colon, and white space around it: no port is looked for. */
  lemma LookupWithoutPort(entries: seq<RouteEntry>, before: string, host: string, behind: string)
    requires AllWhite(before) && AllWhite(behind) && IsTrimmed(host) && ':' !in host
    ensures Scan(entries, before + host + behind)
         == if First(entries, IsExact(host)).Some? then First(entries, IsExact(host)) else First(entries, IsWild(host))
  {
    StripIsUnique(before, host, behind);
    NoColonNoPort(host);
  }

  // ----- The default routes -----

  predicate IsPlainCharacter(c: char) {
    'a' <= c <= 'z' || '0' <= c <= '9' || c == '.'
  }

  /** Small letters, digits and dots only. */
  predicate IsPlain(host: string) {
    forall i :: 0 <= i < |host| ==> IsPlainCharacter(host[i])
  }

  lemma PlainIsTrimmed(host: string)
    requires IsPlain(host)
    ensures IsTrimmed(host) && ':' !in host && FoldAll(host) == host
  {
    if host != "" {
      assert IsPlainCharacter(host[0]) && IsPlainCharacter(host[|host| - 1]);
      WhiteIs(host[0]);
      WhiteIs(host[|host| - 1]);
    }
  }

  lemma CloudHostsArePlain()
    ensures IsPlain("api.openai.com") && IsPlain("api.anthropic.com") && IsPlain("api.deepseek.com")
    ensures IsPlain("api.mistral.ai") && IsPlain("api.cohere.ai") && IsPlain("api.together.xyz")
  {
  }

  lemma OtherHostsArePlain()
    ensures IsPlain("generativelanguage.googleapis.com") && IsPlain("api.perplexity.ai")
    ensures IsPlain("localhost") && IsPlain("127.0.0.1")
  {
  }

  /** Every default entry but the second is for a plain host. */
  lemma DefaultsArePlain(i: nat)
    requires i < |DefaultRoutes()| && i != 1
    ensures IsPlain(DefaultRoutes()[i].hostname)
  {
    CloudHostsArePlain();
    OtherHostsArePlain();
  }

  /** A plain host that is listed once is answered by its own entry. */
  lemma PlainHostAnswers(es: seq<RouteEntry>, i: nat)
    requires i < |es| && IsPlain(es[i].hostname) && UniqueHosts(es)
    requires forall j :: 0 <= j < |es| ==> IsWildcard(es[j]) || IsPlain(es[j].hostname)
    ensures Scan(es, es[i].hostname) == Some(es[i])
  {
    var e := es[i];
    PlainIsTrimmed(e.hostname);
    PlainIsNoWildcard(e);
    FirstMissesIff(es, IsExact(e.hostname));
    var found := First(es, IsExact(e.hostname));
    assert e in es && IsExact(e.hostname)(e);
    var j :| 0 <= j < |es| && es[j] == found.value;
    PlainIsTrimmed(es[j].hostname);
    assert i == j;
    LookupWithoutPort(es, "", e.hostname, "");
    assert "" + e.hostname + "" == e.hostname;
  }

  /** Every default host without a wildcard is answered by its own entry. */
  lemma DefaultsAnswerForThemselves(i: nat)
    requires i < |DefaultRoutes()| && i != 1
    ensures Scan(DefaultRoutes(), DefaultRoutes()[i].hostname) == Some(DefaultRoutes()[i])
  {
    DefaultsAreUnique();
    SecondIsAWildcard();
    DefaultsArePlain(i);
    forall j | 0 <= j < |DefaultRoutes()|
      ensures IsWildcard(DefaultRoutes()[j]) || IsPlain(DefaultRoutes()[j].hostname)
    {
      if j != 1 {
        DefaultsArePlain(j);
      }
    }
    PlainHostAnswers(DefaultRoutes(), i);
  }

  lemma PlainIsNoWildcard(e: RouteEntry)
    requires IsPlain(e.hostname)
    ensures !IsWildcard(e)
  {
    if e.hostname != "" {
      assert IsPlainCharacter(e.hostname[0]);
    }
  }

  lemma SecondIsAWildcard()
    ensures IsWildcard(DefaultRoutes()[1])
  {
  }

  /** A lookup of the host finds an entry of this provider, with the address to forward to. */
  predicate IsServedBy(host: string, provider: string, url: string) {
    var found := Scan(DefaultRoutes(), host);
    found.Some? && found.value.provider == provider && found.value.targetUrl == url
  }

  /** Who serves the hosts known from the start. */
  lemma DefaultProviders()
    ensures IsServedBy("api.openai.com", "openai", "https://api.openai.com")
    ensures IsServedBy("api.anthropic.com", "anthropic", "https://api.anthropic.com")
    ensures IsServedBy("generativelanguage.googleapis.com", "gemini", "https://generativelanguage.googleapis.com")
    ensures IsServedBy("localhost", "ollama", "http://localhost:11434")
    ensures IsServedBy("127.0.0.1", "ollama", "http://127.0.0.1:11434")
  {
    DefaultsAnswerForThemselves(0);
    DefaultsAnswerForThemselves(2);
    DefaultsAnswerForThemselves(3);
    DefaultsAnswerForThemselves(4);
    DefaultsAnswerForThemselves(5);
  }

  /** The other hosts known from the start. */
  lemma MoreDefaultProviders()
    ensures IsServedBy("api.deepseek.com", "deepseek", "https://api.deepseek.com")
    ensures IsServedBy("api.mistral.ai", "mistral", "https://api.mistral.ai")
    ensures IsServedBy("api.cohere.ai", "cohere", "https://api.cohere.ai")
    ensures IsServedBy("api.together.xyz", "together", "https://api.together.xyz")
    ensures IsServedBy("api.perplexity.ai", "perplexity", "https://api.perplexity.ai")
  {
    DefaultsAnswerForThemselves(6);
    DefaultsAnswerForThemselves(7);
    DefaultsAnswerForThemselves(8);
    DefaultsAnswerForThemselves(9);
    DefaultsAnswerForThemselves(10);
  }

  lemma OnlyOneWildcard(i: nat)
    requires i < |DefaultRoutes()| && i != 1
    ensures !IsWildcard(DefaultRoutes()[i])
  {
    DefaultsArePlain(i);
    PlainIsNoWildcard(DefaultRoutes()[i]);
  }

  lemma NoDefaultHasThisLength(host: string)
    requires |host| == 15
    ensures forall e :: e in DefaultRoutes() ==> !IsExact(host)(e)
  {
    var es := DefaultRoutes();
    forall i | 0 <= i < |es| ensures |es[i].hostname| != 15 {
    }
  }

  /** A host that no plain entry equals goes to the only wildcard, if that covers it. */
  lemma WildcardServes(es: seq<RouteEntry>, k: nat, host: string)
    requires k < |es| && IsPlain(host) && IsWildcard(es[k]) && MatchesWildcard(es[k], host)
    requires forall e :: e in es ==> !IsExact(host)(e)
    requires forall i :: 0 <= i < |es| && i != k ==> !IsWildcard(es[i])
    ensures Scan(es, host) == Some(es[k])
  {
    FirstMissesIff(es, IsExact(host));
    FirstMissesIff(es, IsWild(host));
    assert es[k] in es && IsWild(host)(es[k]);
    PlainIsTrimmed(host);
    LookupWithoutPort(es, "", host, "");
    assert "" + host + "" == host;
  }

  /** Other hosts of the domain go to the same provider. */
  lemma OtherOpenAiHostsAreServed(host: string)
    requires host == "chat.openai.com"
    ensures IsServedBy(host, "openai", "https://api.openai.com")
  {
    MatchesTheWildcard(host);
    ChatHostIsPlain(host);
    NoDefaultHasThisLength(host);
    forall i | 0 <= i < |DefaultRoutes()| && i != 1 ensures !IsWildcard(DefaultRoutes()[i]) {
      OnlyOneWildcard(i);
    }
    WildcardServes(DefaultRoutes(), 1, host);
  }

  lemma ChatHostIsPlain(host: string)
    requires host == "chat.openai.com"
    ensures IsPlain(host)
  {
  }

  lemma MatchesTheWildcard(host: string)
    requires host == "chat.openai.com"
    ensures IsWildcard(DefaultRoutes()[1]) && MatchesWildcard(DefaultRoutes()[1], host)
  {
    SecondIsAWildcard();
    var suffix := DefaultRoutes()[1].hostname[2..];
    assert suffix == "openai.com" && host[|host| - |suffix|..] == "openai.com";
  }
}
