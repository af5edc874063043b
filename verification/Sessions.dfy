/**
 What a tokenizer session keeps, whatever types and values it is given: every token has an origin of its own, the
 mapping holds exactly the reversible tokens, and tokens stay what they are.  Two tokens can be equal up to case, and
 `TokensDifferIff` says exactly when.
 */
module Sessions {
  import opened Intervals
  import opened Options
  import opened Splicing
  import opened Text
  import opened Tokenization

  // ----- Token texts -----

  lemma {:induction false} DecimalIsDigits(n: nat)
    ensures |Decimal(n)| > 0
    ensures forall i :: 0 <= i < |Decimal(n)| ==> IsDigit(Decimal(n)[i])
  {
    if n >= 10 {
      DecimalIsDigits(n / 10);
    }
  }

  lemma DigitIsInjective(a: nat, b: nat)
    requires a < 10 && b < 10
    requires ['0', '1', '2', '3', '4', '5', '6', '7', '8', '9'][a] == ['0', '1', '2', '3', '4', '5', '6', '7', '8', '9'][b]
    ensures a == b
  {
  }

  lemma DecimalLast(n: nat)
    ensures Decimal(n) != "" && Last(Decimal(n)) == ['0', '1', '2', '3', '4', '5', '6', '7', '8', '9'][n % 10]
    ensures Front(Decimal(n)) == if n < 10 then "" else Decimal(n / 10)
  {
  }

  lemma {:induction false} DecimalIsInjective(a: nat, b: nat)
    requires Decimal(a) == Decimal(b)
    ensures a == b
  {
    DecimalLast(a);
    DecimalLast(b);
    DigitIsInjective(a % 10, b % 10);
    if a >= 10 && b >= 10 {
      DecimalIsInjective(a / 10, b / 10);
    } else if a >= 10 {
      DecimalLast(a / 10);
    } else if b >= 10 {
      DecimalLast(b / 10);
    }
  }

  /** The last underscore separates type and index. */
  lemma LastUnderscoreSplits(a: string, b: string, c: string, d: string)
    requires a + "_" + b == c + "_" + d
    requires forall i :: 0 <= i < |b| ==> IsDigit(b[i])
    requires forall i :: 0 <= i < |d| ==> IsDigit(d[i])
    ensures a == c && b == d
  {
    var s := a + "_" + b;
    assert s[|a|] == '_' && s[|c|] == '_';
    assert forall i :: |a| < i < |s| ==> s[i] == b[i - |a| - 1];
    assert forall i :: |c| < i < |s| ==> s[i] == d[i - |c| - 1];
    assert |a| == |c|;
    assert s[..|a|] == a && s[..|c|] == c && s[|a| + 1..] == b && s[|c| + 1..] == d;
  }

  lemma FoldAppend(a: string, b: string)
    ensures FoldAll(a + b) == FoldAll(a) + FoldAll(b)
  {
  }

  lemma FoldKeepsDigits(n: nat)
    ensures FoldAll(Decimal(n)) == Decimal(n)
  {
    DecimalIsDigits(n);
  }

  /** A token text without its brackets. */
  lemma InnerText(t: string, n: nat)
    ensures |TokenText(t, n)| >= 2 && TokenText(t, n)[0] == '['
    ensures TokenText(t, n)[1..|TokenText(t, n)| - 1] == t + "_" + Decimal(n)
  {
  }

  lemma FoldedInner(t: string, n: nat)
    ensures |FoldAll(TokenText(t, n))| >= 2
    ensures FoldAll(TokenText(t, n))[1..|FoldAll(TokenText(t, n))| - 1] == FoldAll(t) + "_" + Decimal(n)
  {
    var token := TokenText(t, n);
    InnerText(t, n);
    FoldAppend(t + "_", Decimal(n));
    FoldAppend(t, "_");
    FoldKeepsDigits(n);
    assert FoldAll("_") == "_";
    assert FoldAll(token)[1..|token| - 1] == FoldAll(token[1..|token| - 1]);
  }

  /** For arbitrary types: two token texts are equal up to case exactly if the types are and the indexes are equal. */
  lemma TokenTextsAlikeIff(t: string, n: nat, u: string, m: nat)
    ensures FoldAll(TokenText(t, n)) == FoldAll(TokenText(u, m)) <==> FoldAll(t) == FoldAll(u) && n == m
  {
    FoldedInner(t, n);
    FoldedInner(u, m);
    if FoldAll(TokenText(t, n)) == FoldAll(TokenText(u, m)) {
      DecimalIsDigits(n);
      DecimalIsDigits(m);
      LastUnderscoreSplits(FoldAll(t), Decimal(n), FoldAll(u), Decimal(m));
      DecimalIsInjective(n, m);
    }
    if FoldAll(t) == FoldAll(u) && n == m {
      SameFoldedText(t, u, n);
    }
  }

  lemma SameFoldedText(t: string, u: string, n: nat)
    requires FoldAll(t) == FoldAll(u)
    ensures FoldAll(TokenText(t, n)) == FoldAll(TokenText(u, n))
  {
    FoldAppend("[" + t + "_" + Decimal(n), "]");
    FoldAppend("[" + t + "_", Decimal(n));
    FoldAppend("[" + t, "_");
    FoldAppend("[", t);
    FoldAppend("[" + u + "_" + Decimal(n), "]");
    FoldAppend("[" + u + "_", Decimal(n));
    FoldAppend("[" + u, "_");
    FoldAppend("[", u);
  }

  lemma TokenTextIsInjective(t: string, n: nat, u: string, m: nat)
    requires TokenText(t, n) == TokenText(u, m)
    ensures t == u && n == m
  {
    InnerText(t, n);
    InnerText(u, m);
    DecimalIsDigits(n);
    DecimalIsDigits(m);
    LastUnderscoreSplits(t, Decimal(n), u, Decimal(m));
    DecimalIsInjective(n, m);
  }

  // ----- Where the tokens of a session come from -----

  datatype Origin = Origin(shortType: string, index: nat)

  ghost predicate Explained(s: Session, k: Key, o: Origin) {
    && k in s.issued && o.shortType in s.counters
    && s.seed <= o.index < s.seed + s.counters[o.shortType]
    && s.issued[k] == TokenText(o.shortType, o.index)
  }

  ghost predicate Explains(s: Session, origin: map<Key, Origin>) {
    && (forall k :: k in s.issued ==> k in origin && Explained(s, k, origin[k]))
    && (forall j, k :: j in s.issued && k in s.issued && j in origin && k in origin && j != k ==> origin[j] != origin[k])
  }

  /** The first token of type `t`. */
  ghost predicate Opened(s: Session, t: string) {
    exists k :: k in s.issued && s.issued[k] == TokenText(t, s.seed)
  }

  /** Every token was made from its own type and counter value. */
  ghost predicate HasOrigins(s: Session) {
    exists origin :: Explains(s, origin)
  }

  ghost predicate AllOpened(s: Session) {
    forall t :: t in s.counters ==> s.counters[t] > 0 && Opened(s, t)
  }

  ghost predicate Traced(s: Session) {
    HasOrigins(s) && AllOpened(s)
  }

  lemma FreshSessionIsTraced(seed: nat)
    ensures Traced(Session(seed, map[], map[])) && MappingOk(Session(seed, map[], map[]), map[])
  {
    assert Explains(Session(seed, map[], map[]), map[]);
  }

  lemma ExplainedStays(s: Session, key: Key, t: string, c: nat, token: string, k: Key, o: Origin)
    requires Explained(s, k, o) && k != key && (t in s.counters ==> s.counters[t] <= c)
    ensures Explained(Session(s.seed, s.counters[t := c + 1], s.issued[key := token]), k, o)
    ensures o != Origin(t, s.seed + c)
  {
  }

  lemma NewTokenIsExplained(s: Session, origin: map<Key, Origin>, key: Key, t: string, c: nat)
    requires Explains(s, origin) && key !in s.issued && c == Get(s.counters, t).GetOr(0)
    ensures Explains(
              Session(s.seed, s.counters[t := c + 1], s.issued[key := TokenText(t, s.seed + c)]),
              origin[key := Origin(t, s.seed + c)])
  {
    var s' := Session(s.seed, s.counters[t := c + 1], s.issued[key := TokenText(t, s.seed + c)]);
    var o := Origin(t, s.seed + c);
    var origin' := origin[key := o];
    forall k | k in s'.issued ensures k in origin' && Explained(s', k, origin'[k]) && (k != key ==> origin'[k] != o) {
      if k != key {
        assert Explained(s, k, origin[k]);
        ExplainedStays(s, key, t, c, TokenText(t, s.seed + c), k, origin[k]);
      }
    }
  }

  /** The token made next differs from every token made before. */
  lemma NewTokenIsNew(s: Session, t: string, k: Key)
    requires HasOrigins(s) && k in s.issued
    ensures s.issued[k] != TokenText(t, s.seed + Get(s.counters, t).GetOr(0))
  {
    var origin: map<Key, Origin> :| Explains(s, origin);
    var o := OriginOf(s, origin, k);
    var n := s.seed + Get(s.counters, t).GetOr(0);
    if s.issued[k] == TokenText(t, n) {
      TokenTextIsInjective(o.shortType, o.index, t, n);
    }
  }

  lemma OriginOf(s: Session, origin: map<Key, Origin>, k: Key) returns (o: Origin)
    requires Explains(s, origin) && k in s.issued
    ensures k in origin && o == origin[k] && Explained(s, k, o)
  {
    o := origin[k];
  }

  lemma StaysOpened(s: Session, counters: map<string, nat>, key: Key, token: string, u: string)
    requires Opened(s, u) && key !in s.issued
    ensures Opened(Session(s.seed, counters, s.issued[key := token]), u)
  {
    var k :| k in s.issued && s.issued[k] == TokenText(u, s.seed);
    var issued' := s.issued[key := token];
    assert k in issued' && issued'[k] == TokenText(u, s.seed);
  }

  lemma OpensItself(s: Session, counters: map<string, nat>, key: Key, t: string)
    ensures Opened(Session(s.seed, counters, s.issued[key := TokenText(t, s.seed)]), t)
  {
    var issued' := s.issued[key := TokenText(t, s.seed)];
    assert key in issued' && issued'[key] == TokenText(t, s.seed);
  }

  lemma NewTokenKeepsOrigins(s: Session, key: Key, t: string, c: nat)
    requires HasOrigins(s) && key !in s.issued && c == Get(s.counters, t).GetOr(0)
    ensures HasOrigins(Session(s.seed, s.counters[t := c + 1], s.issued[key := TokenText(t, s.seed + c)]))
  {
    var origin: map<Key, Origin> :| Explains(s, origin);
    NewTokenIsExplained(s, origin, key, t, c);
  }

  lemma IssueKeepsOrigins(s: Session, value: string, p: Piece, mapping: map<string, string>)
    requires HasOrigins(s)
    ensures HasOrigins(TokenFor(s, value, p, mapping).session)
  {
    if (value, p.reversible) !in s.issued {
      var t := Short(p.entityType);
      NewTokenKeepsOrigins(s, (value, p.reversible), t, Get(s.counters, t).GetOr(0));
    }
  }

  lemma IssueKeepsOpened(s: Session, value: string, p: Piece, mapping: map<string, string>)
    requires AllOpened(s)
    ensures AllOpened(TokenFor(s, value, p, mapping).session)
  {
    var key, t, s' := (value, p.reversible), Short(p.entityType), TokenFor(s, value, p, mapping).session;
    if key !in s.issued {
      var c := Get(s.counters, t).GetOr(0);
      forall u | u in s'.counters ensures s'.counters[u] > 0 && Opened(s', u) {
        if u in s.counters {
          StaysOpened(s, s'.counters, key, TokenText(t, s.seed + c), u);
        } else {
          OpensItself(s, s'.counters, key, t);
        }
      }
    }
  }

  /** Whatever the type, issuing a token keeps the session traced. */
  lemma IssueKeepsTraced(s: Session, value: string, p: Piece, mapping: map<string, string>)
    requires Traced(s)
    ensures Traced(TokenFor(s, value, p, mapping).session)
  {
    IssueKeepsOrigins(s, value, p, mapping);
    IssueKeepsOpened(s, value, p, mapping);
  }

  // ----- Tokens are numbered without gaps -----

  ghost predicate HasNumber(s: Session, t: string, c: nat) {
    exists k :: k in s.issued && s.issued[k] == TokenText(t, s.seed + c)
  }

  /** Types are cut to 20 characters, and each has the numbers from the seed on, one for each token made of it. */
  ghost predicate Numbered(s: Session) {
    && (forall t :: t in s.counters ==> |t| <= 20)
    && forall t, c :: t in s.counters && 0 <= c < s.counters[t] ==> HasNumber(s, t, c)
  }

  lemma NumberStays(s: Session, counters: map<string, nat>, key: Key, token: string, t: string, c: nat)
    requires HasNumber(s, t, c) && key !in s.issued
    ensures HasNumber(Session(s.seed, counters, s.issued[key := token]), t, c)
  {
    var k :| k in s.issued && s.issued[k] == TokenText(t, s.seed + c);
    var issued' := s.issued[key := token];
    assert k in issued' && issued'[k] == TokenText(t, s.seed + c);
  }

  lemma NextNumber(s: Session, counters: map<string, nat>, key: Key, t: string, c: nat)
    ensures HasNumber(Session(s.seed, counters, s.issued[key := TokenText(t, s.seed + c)]), t, c)
  {
    var issued' := s.issued[key := TokenText(t, s.seed + c)];
    assert key in issued' && issued'[key] == TokenText(t, s.seed + c);
  }

  lemma {:induction false} NewTokenKeepsNumbered(s: Session, key: Key, t: string, n: nat)
    requires Numbered(s) && key !in s.issued && |t| <= 20 && n == Get(s.counters, t).GetOr(0)
    ensures Numbered(Session(s.seed, s.counters[t := n + 1], s.issued[key := TokenText(t, s.seed + n)]))
  {
    var s' := Session(s.seed, s.counters[t := n + 1], s.issued[key := TokenText(t, s.seed + n)]);
    forall u, c | u in s'.counters && 0 <= c < s'.counters[u] ensures HasNumber(s', u, c) {
      if u in s.counters && c < s.counters[u] {
        assert HasNumber(s, u, c);
        NumberStays(s, s'.counters, key, TokenText(t, s.seed + n), u, c);
      } else {
        NextNumber(s, s'.counters, key, t, n);
      }
    }
  }

  lemma {:induction false} IssueKeepsNumbered(s: Session, value: string, p: Piece, mapping: map<string, string>)
    requires Numbered(s)
    ensures Numbered(TokenFor(s, value, p, mapping).session)
  {
    if (value, p.reversible) !in s.issued {
      var t := Short(p.entityType);
      NewTokenKeepsNumbered(s, (value, p.reversible), t, Get(s.counters, t).GetOr(0));
    }
  }

  lemma {:induction false} TokenizeKeepsNumbered(s: Session, text: string, ps: seq<Piece>, mapping: map<string, string>)
    requires InText(text, ps) && Numbered(s)
    ensures Numbered(TokenizeAll(s, text, ps, mapping).session)
    decreases |ps|
  {
    if ps == [] {
    } else {
      var value := text[ps[0].start..ps[0].end];
      var first := TokenFor(s, value, ps[0], mapping);
      IssueKeepsNumbered(s, value, ps[0], mapping);
      TokenizeKeepsNumbered(first.session, text, ps[1..], first.mapping);
    }
  }

  /** The index of a token text of type `t`, if it is one of the session. */
  ghost predicate IsTokenOf(s: Session, token: string, t: string, c: nat) {
    t in s.counters && c < s.counters[t] && token == TokenText(t, s.seed + c)
  }

  /** The tokens of a session are exactly those of its types numbered from the seed on. */
  lemma TokensAreNumbered(s: Session, token: string)
    requires HasOrigins(s) && Numbered(s)
    ensures token in s.issued.Values <==> exists t: string, c: nat :: IsTokenOf(s, token, t, c)
  {
    if token in s.issued.Values {
      var k :| k in s.issued && s.issued[k] == token;
      var origin: map<Key, Origin> :| Explains(s, origin);
      var o := OriginOf(s, origin, k);
      assert IsTokenOf(s, token, o.shortType, o.index - s.seed);
    }
    if t: string, c: nat :| IsTokenOf(s, token, t, c) {
      assert HasNumber(s, t, c);
    }
  }

  /** A new token spells the first 20 characters of the type and the next number, in decimal. */
  lemma {:induction false} NewTokenSpells(
    s: Session, value: string, p: Piece, mapping: map<string, string>, t: string, n: nat)
    requires (value, p.reversible) !in s.issued
    requires t == (if |p.entityType| > 20 then p.entityType[..20] else p.entityType)
    requires n == s.seed + (if t in s.counters then s.counters[t] else 0)
    ensures TokenFor(s, value, p, mapping).token == "[" + t + "_" + Decimal(n) + "]" && NumberOf(Decimal(n)) == n
  {
    DecimalDenotes(n);
    assert Short(p.entityType) == t && Get(s.counters, t).GetOr(0) == n - s.seed;
  }

  // ----- When tokens differ -----

  /** No two types of the session are equal up to case. */
  ghost predicate CaseDistinct(s: Session) {
    forall t, u :: t in s.counters && u in s.counters && FoldAll(t) == FoldAll(u) ==> t == u
  }

  /** Different keys have tokens that differ, even ignoring case. */
  ghost predicate TokensDiffer(s: Session) {
    forall j, k :: j in s.issued && k in s.issued && FoldAll(s.issued[j]) == FoldAll(s.issued[k]) ==> j == k
  }

  lemma AlikeTokensAlikeOrigins(s: Session, origin: map<Key, Origin>, j: Key, k: Key)
    requires Explains(s, origin) && j in s.issued && k in s.issued && FoldAll(s.issued[j]) == FoldAll(s.issued[k])
    requires CaseDistinct(s)
    ensures j in origin && k in origin && origin[j] == origin[k]
  {
    var a := OriginOf(s, origin, j);
    var b := OriginOf(s, origin, k);
    TokenTextsAlikeIff(a.shortType, a.index, b.shortType, b.index);
  }

  /** Two keys of a session without such types never share a token, not even up to case. */
  lemma AlikeTokensAreOne(s: Session, j: Key, k: Key)
    requires HasOrigins(s) && CaseDistinct(s)
    requires j in s.issued && k in s.issued && FoldAll(s.issued[j]) == FoldAll(s.issued[k])
    ensures j == k
  {
    var origin: map<Key, Origin> :| Explains(s, origin);
    AlikeTokensAlikeOrigins(s, origin, j, k);
  }

  lemma AlikeTypesShareATwin(s: Session, t: string, u: string)
    requires TokensDiffer(s) && Opened(s, t) && Opened(s, u) && FoldAll(t) == FoldAll(u)
    ensures t == u
  {
    var j :| j in s.issued && s.issued[j] == TokenText(t, s.seed);
    var k :| k in s.issued && s.issued[k] == TokenText(u, s.seed);
    TokenTextsAlikeIff(t, s.seed, u, s.seed);
    assert j == k;
    TokenTextIsInjective(t, s.seed, u, s.seed);
  }

  lemma DistinctTypesTellTokensApart(s: Session)
    requires HasOrigins(s) && CaseDistinct(s)
    ensures TokensDiffer(s)
  {
    forall j, k | j in s.issued && k in s.issued && FoldAll(s.issued[j]) == FoldAll(s.issued[k]) ensures j == k {
      AlikeTokensAreOne(s, j, k);
    }
  }

  lemma DistinctTokensTellTypesApart(s: Session)
    requires AllOpened(s) && TokensDiffer(s)
    ensures CaseDistinct(s)
  {
    forall t, u | t in s.counters && u in s.counters && FoldAll(t) == FoldAll(u) ensures t == u {
      AlikeTypesShareATwin(s, t, u);
    }
  }

  /** Exactly when no two types are equal up to case, no two tokens are. */
  lemma TokensDifferIff(s: Session)
    requires Traced(s)
    ensures TokensDiffer(s) <==> CaseDistinct(s)
  {
    if CaseDistinct(s) {
      DistinctTypesTellTokensApart(s);
    }
    if TokensDiffer(s) {
      DistinctTokensTellTypesApart(s);
    }
  }

  /** A session whose tokens can be told apart by the case-insensitive restorer. */
  ghost predicate Sound(s: Session) {
    Traced(s) && CaseDistinct(s)
  }

  /** Two keys of a sound session never share a token, not even up to case. */
  lemma TokensAreDistinct(s: Session, j: Key, k: Key)
    requires Sound(s) && j in s.issued && k in s.issued && FoldAll(s.issued[j]) == FoldAll(s.issued[k])
    ensures j == k
  {
    AlikeTokensAreOne(s, j, k);
  }

  lemma TokensOpenWithABracket(s: Session, k: Key)
    requires HasOrigins(s) && k in s.issued
    ensures s.issued[k] != "" && s.issued[k][0] == '['
  {
    var origin: map<Key, Origin> :| Explains(s, origin);
    var o := OriginOf(s, origin, k);
    InnerText(o.shortType, o.index);
  }

  // ----- The mapping holds exactly the reversible values -----

  ghost predicate MappingOk(s: Session, mapping: map<string, string>) {
    && (forall v :: (v, true) in s.issued ==> ValueIsMapped(s, mapping, v))
    && (forall t :: t in mapping ==> TokenIsIssued(s, mapping, t))
  }

  ghost predicate ValueIsMapped(s: Session, mapping: map<string, string>, v: string)
    requires (v, true) in s.issued
  {
    s.issued[(v, true)] in mapping && mapping[s.issued[(v, true)]] == v
  }

  ghost predicate TokenIsIssued(s: Session, mapping: map<string, string>, t: string)
    requires t in mapping
  {
    (mapping[t], true) in s.issued && s.issued[(mapping[t], true)] == t
  }

  lemma IssueKeepsMapping(s: Session, value: string, p: Piece, mapping: map<string, string>)
    requires HasOrigins(s) && MappingOk(s, mapping)
    ensures MappingOk(TokenFor(s, value, p, mapping).session, TokenFor(s, value, p, mapping).mapping)
  {
    var key, t, r := (value, p.reversible), Short(p.entityType), TokenFor(s, value, p, mapping);
    if key !in s.issued {
      forall k | k in s.issued ensures s.issued[k] != r.token {
        NewTokenIsNew(s, t, k);
      }
      NewEntryKeepsMapping(s, mapping, key, r.token, r.session.counters);
    }
  }

  lemma NewEntryKeepsMapping(s: Session, mapping: map<string, string>, key: Key, token: string, counters: map<string, nat>)
    requires MappingOk(s, mapping) && key !in s.issued
    requires forall k :: k in s.issued ==> s.issued[k] != token
    ensures MappingOk(
              Session(s.seed, counters, s.issued[key := token]),
              if key.1 then mapping[token := key.0] else mapping)
  {
    var s', mapping' := Session(s.seed, counters, s.issued[key := token]), if key.1 then mapping[token := key.0] else mapping;
    forall v | (v, true) in s'.issued ensures ValueIsMapped(s', mapping', v) {
      if (v, true) != key {
        assert ValueIsMapped(s, mapping, v);
      }
    }
    forall t | t in mapping' ensures TokenIsIssued(s', mapping', t) {
      if t in mapping {
        assert TokenIsIssued(s, mapping, t);
      }
    }
  }

  // ----- Tokenizing a text -----

  ghost predicate Extends(s: Session, later: Session) {
    forall k :: k in s.issued ==> k in later.issued && later.issued[k] == s.issued[k]
  }

  /** Each edit carries the token the session holds for that piece. */
  ghost predicate CarriesTokens(s: Session, text: string, ps: seq<Piece>, edits: seq<Edit>)
    requires InText(text, ps) && |edits| == |ps|
  {
    forall i :: 0 <= i < |ps| ==> CarriesToken(s, text, ps[i], edits[i])
  }

  ghost predicate CarriesToken(s: Session, text: string, p: Piece, e: Edit)
    requires 0 <= p.start <= p.end <= |text|
  {
    var key := (text[p.start..p.end], p.reversible);
    key in s.issued && e == Edit(p.start, p.end, s.issued[key])
  }

  lemma IssueExtends(s: Session, value: string, p: Piece, mapping: map<string, string>)
    ensures var first := TokenFor(s, value, p, mapping);
            Extends(s, first.session) && Get(first.session.issued, (value, p.reversible)) == Some(first.token)
  {
  }

  lemma ExtendsIsTransitive(a: Session, b: Session, c: Session)
    requires Extends(a, b) && Extends(b, c)
    ensures Extends(a, c)
  {
  }

  lemma CarriesCons(s: Session, text: string, ps: seq<Piece>, edits: seq<Edit>)
    requires InText(text, ps) && |edits| == |ps| > 0
    requires CarriesToken(s, text, ps[0], edits[0]) && CarriesTokens(s, text, ps[1..], edits[1..])
    ensures CarriesTokens(s, text, ps, edits)
  {
    forall i | 0 <= i < |ps| ensures CarriesToken(s, text, ps[i], edits[i]) {
      if i > 0 {
        assert CarriesToken(s, text, ps[1..][i - 1], edits[1..][i - 1]);
      }
    }
  }

  lemma {:induction false} TokenizeCarries(s: Session, text: string, ps: seq<Piece>, mapping: map<string, string>)
    requires InText(text, ps)
    ensures var r := TokenizeAll(s, text, ps, mapping);
            Extends(s, r.session) && CarriesTokens(r.session, text, ps, r.edits)
    decreases |ps|
  {
    if ps == [] {
    } else {
      var p := ps[0];
      var value := text[p.start..p.end];
      var first := TokenFor(s, value, p, mapping);
      IssueExtends(s, value, p, mapping);
      TokenizeCarries(first.session, text, ps[1..], first.mapping);
      var r := TokenizeAll(s, text, ps, mapping);
      ExtendsIsTransitive(s, first.session, r.session);
      CarriesCons(r.session, text, ps, r.edits);
    }
  }

  /** The shortened types of the pieces. */
  function TypesOf(ps: seq<Piece>): set<string> {
    set p | p in ps :: Short(p.entityType)
  }

  /** Tokenizing any pieces keeps a session traced. */
  lemma {:induction false} TokenizeKeepsTraced(s: Session, text: string, ps: seq<Piece>, mapping: map<string, string>)
    requires InText(text, ps) && Traced(s)
    ensures Traced(TokenizeAll(s, text, ps, mapping).session)
    decreases |ps|
  {
    if ps == [] {
    } else {
      var first := TokenFor(s, text[ps[0].start..ps[0].end], ps[0], mapping);
      IssueKeepsTraced(s, text[ps[0].start..ps[0].end], ps[0], mapping);
      TokenizeKeepsTraced(first.session, text, ps[1..], first.mapping);
    }
  }

  /** It keeps the mapping complete. */
  lemma {:induction false} TokenizeKeepsMapping(s: Session, text: string, ps: seq<Piece>, mapping: map<string, string>)
    requires InText(text, ps) && HasOrigins(s) && MappingOk(s, mapping)
    ensures var r := TokenizeAll(s, text, ps, mapping); MappingOk(r.session, r.mapping)
    decreases |ps|
  {
    if ps == [] {
    } else {
      var first := TokenFor(s, text[ps[0].start..ps[0].end], ps[0], mapping);
      IssueKeepsOrigins(s, text[ps[0].start..ps[0].end], ps[0], mapping);
      IssueKeepsMapping(s, text[ps[0].start..ps[0].end], ps[0], mapping);
      TokenizeKeepsMapping(first.session, text, ps[1..], first.mapping);
    }
  }

  /** Tokenizing counts no other types than those of the pieces. */
  lemma {:induction false} TokenizeCounts(s: Session, text: string, ps: seq<Piece>, mapping: map<string, string>)
    requires InText(text, ps)
    ensures TokenizeAll(s, text, ps, mapping).session.counters.Keys <= s.counters.Keys + TypesOf(ps)
    decreases |ps|
  {
    if ps == [] {
    } else {
      var p := ps[0];
      var first := TokenFor(s, text[p.start..p.end], p, mapping);
      assert first.session.counters.Keys <= s.counters.Keys + {Short(p.entityType)};
      TokenizeCounts(first.session, text, ps[1..], first.mapping);
      MoreTypes(ps);
    }
  }

  lemma MoreTypes(ps: seq<Piece>)
    requires ps != []
    ensures Short(ps[0].entityType) in TypesOf(ps) && TypesOf(ps[1..]) <= TypesOf(ps)
  {
    assert ps[0] in ps && forall q :: q in ps[1..] ==> q in ps;
  }

  /** A call's own mapping holds just the new tokens; added to what came before it gives the whole mapping. */
  lemma {:induction false} MappingsAddUp(
    s: Session, text: string, ps: seq<Piece>, before: map<string, string>, mapping: map<string, string>)
    requires InText(text, ps)
    ensures var a, b := TokenizeAll(s, text, ps, before + mapping), TokenizeAll(s, text, ps, mapping);
            a == Issues(b.session, before + b.mapping, b.edits)
    decreases |ps|
  {
    if ps == [] {
    } else {
      var p := ps[0];
      var a := TokenFor(s, text[p.start..p.end], p, before + mapping);
      var b := TokenFor(s, text[p.start..p.end], p, mapping);
      assert a.session == b.session && a.token == b.token && a.mapping == before + b.mapping;
      MappingsAddUp(a.session, text, ps[1..], before, b.mapping);
    }
  }

  lemma OwnMapping(s: Session, text: string, ps: seq<Piece>, mapping: map<string, string>)
    requires InText(text, ps)
    ensures var r := TokenizeAll(s, text, ps, map[]);
            TokenizeAll(s, text, ps, mapping) == Issues(r.session, mapping + r.mapping, r.edits)
  {
    MappingsAddUp(s, text, ps, mapping, map[]);
    assert mapping + map[] == mapping;
  }

  ghost predicate DistinctUpToCase(types: set<string>) {
    forall t, u :: t in types && u in types && FoldAll(t) == FoldAll(u) ==> t == u
  }

  lemma DistinctTypesAreSound(s: Session, types: set<string>)
    requires Traced(s) && s.counters.Keys <= types && DistinctUpToCase(types)
    ensures Sound(s)
  {
    forall t, u | t in s.counters && u in s.counters && FoldAll(t) == FoldAll(u) ensures t == u {
      assert t in s.counters.Keys && u in s.counters.Keys;
    }
  }

  /**
   Each call, with any types, keeps the session traced; its own mapping, added to the earlier ones, stays complete; and
   the session stays sound if the types in it and those of the pieces are distinct up to case.
   */
  lemma SessionStaysSound(s: Session, text: string, ps: seq<Piece>, mapping: map<string, string>)
    requires InText(text, ps) && Traced(s) && MappingOk(s, mapping)
    ensures var r := TokenizeAll(s, text, ps, map[]);
            && Traced(r.session) && MappingOk(r.session, mapping + r.mapping) && Extends(s, r.session)
            && (DistinctUpToCase(s.counters.Keys + TypesOf(ps)) ==> Sound(r.session))
  {
    OwnMapping(s, text, ps, mapping);
    TokenizeKeepsTraced(s, text, ps, mapping);
    TokenizeKeepsMapping(s, text, ps, mapping);
    TokenizeCounts(s, text, ps, mapping);
    TokenizeCarries(s, text, ps, mapping);
    if DistinctUpToCase(s.counters.Keys + TypesOf(ps)) {
      DistinctTypesAreSound(TokenizeAll(s, text, ps, map[]).session, s.counters.Keys + TypesOf(ps));
    }
  }

  lemma LaterSessionCarries(s: Session, later: Session, text: string, ps: seq<Piece>, edits: seq<Edit>)
    requires InText(text, ps) && |edits| == |ps| && CarriesTokens(s, text, ps, edits) && Extends(s, later)
    ensures CarriesTokens(later, text, ps, edits)
  {
    forall i | 0 <= i < |ps| ensures CarriesToken(later, text, ps[i], edits[i]) {
      assert CarriesToken(s, text, ps[i], edits[i]);
    }
  }

  lemma StillCarries(s: Session, text: string, ps: seq<Piece>, r: Issues, later: Session)
    requires InText(text, ps) && r == TokenizeAll(s, text, ps, map[]) && Extends(r.session, later)
    ensures |r.edits| == |ps| && CarriesTokens(later, text, ps, r.edits)
  {
    TokenizeCarries(s, text, ps, map[]);
    LaterSessionCarries(r.session, later, text, ps, r.edits);
  }
}
