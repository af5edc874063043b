/**
 What both log aggregators compute about a set of observations, as a commutative monoid: how many there were,
 by whom, from when to when, and an estimate of the tokens sent.
 */
module Aggregates {

  datatype Sighting = Sighting(host: string, time: int, ip: string, tokens: int, source: string)

  datatype Aggregate =
    | Nothing
    | Seen(requests: nat, users: set<string>, first: int, last: int, tokens: int)

  function Earlier(a: int, b: int): int { if a <= b then a else b }

  function Later(a: int, b: int): int { if a >= b then a else b }

  function One(s: Sighting): Aggregate {
    Seen(1, {s.ip}, s.time, s.time, s.tokens)
  }

  function Join(a: Aggregate, b: Aggregate): Aggregate {
    if a.Nothing? then b
    else if b.Nothing? then a
    else
      Seen(a.requests + b.requests, a.users + b.users, Earlier(a.first, b.first), Later(a.last, b.last), a.tokens + b.tokens)
  }

  lemma JoinLaws(a: Aggregate, b: Aggregate, c: Aggregate)
    ensures Join(a, Nothing) == a && Join(Nothing, a) == a
    ensures Join(a, b) == Join(b, a)
    ensures Join(Join(a, b), c) == Join(a, Join(b, c))
  {
  }

  /** Everything observed about the sightings that `which` selects. */
  function Total(sightings: seq<Sighting>, which: Sighting -> bool): Aggregate {
    if sightings == [] then Nothing
    else
      var front, s := Total(sightings[..|sightings| - 1], which), sightings[|sightings| - 1];
      if which(s) then Join(front, One(s)) else front
  }

  lemma {:induction false} TotalConcat(a: seq<Sighting>, b: seq<Sighting>, which: Sighting -> bool)
    ensures Total(a + b, which) == Join(Total(a, which), Total(b, which))
  {
    if b == [] {
      assert a + b == a;
    } else {
      var n := |b| - 1;
      assert (a + b)[..|a + b| - 1] == a + b[..n];
      TotalConcat(a, b[..n], which);
      JoinLaws(Total(a, which), Total(b[..n], which), One(b[n]));
    }
  }

  lemma {:induction false} TotalAgrees(s: seq<Sighting>, f: Sighting -> bool, g: Sighting -> bool)
    requires forall x :: x in s ==> f(x) == g(x)
    ensures Total(s, f) == Total(s, g)
  {
    if s == [] {
    } else {
      TotalAgrees(s[..|s| - 1], f, g);
    }
  }

  /** A selection that splits in two. */
  lemma {:induction false} TotalSplits(s: seq<Sighting>, f: Sighting -> bool, g: Sighting -> bool, h: Sighting -> bool)
    requires forall x :: x in s ==> f(x) == (g(x) || h(x)) && !(g(x) && h(x))
    ensures Total(s, f) == Join(Total(s, g), Total(s, h))
  {
    if s == [] {
    } else {
      var n := |s| - 1;
      TotalSplits(s[..n], f, g, h);
      JoinLaws(Total(s[..n], g), Total(s[..n], h), One(s[n]));
      JoinLaws(Total(s[..n], g), One(s[n]), Total(s[..n], h));
      JoinLaws(Total(s[..n], h), One(s[n]), Nothing);
    }
  }
}
