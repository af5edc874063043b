/**
 The per-administrator limit on preview calls (debug/preview.py): at most `limit` checks per minute, with old
 stamps thrown away as it goes.
 */
module RateLimiter {
  import opened Options
  import opened Sorting

  type Stamps = seq<real>

  const WINDOW := 60.0

  function Since(now: real): real -> bool {
    (stamp: real) => now - stamp < WINDOW
  }

  function Recent(stamps: Stamps, now: real): Stamps {
    Filter(stamps, Since(now))
  }

  function HitsOf(hits: map<string, Stamps>, principal: string): Stamps {
    Get(hits, principal).GetOr([])
  }

  predicate Accepts(hits: map<string, Stamps>, limit: int, principal: string, now: real) {
    limit <= 0 || |Recent(HitsOf(hits, principal), now)| < limit
  }

  /** A refused or unlimited check leaves the table alone. */
  function AfterCheck(hits: map<string, Stamps>, limit: int, principal: string, now: real): map<string, Stamps> {
    if limit <= 0 || !Accepts(hits, limit, principal, now) then hits
    else hits[principal := Recent(HitsOf(hits, principal), now) + [now]]
  }

  class PreviewRateLimiter {
    var hits: map<string, Stamps>

    constructor ()
      ensures hits == map[]
    {
      hits := map[];
    }

    method Reset()
      modifies this
      ensures hits == map[]
    {
      hits := map[];
    }

    /** `accepted` is false when the program answers 429. */
    method Check(limit: int, principal: string, now: real) returns (accepted: bool)
      modifies this
      ensures accepted == Accepts(old(hits), limit, principal, now)
      ensures hits == AfterCheck(old(hits), limit, principal, now)
    {
      if limit <= 0 {
        return true;
      }
      var stamps := HitsOf(hits, principal);
      var recent: Stamps := [];
      for i := 0 to |stamps|
        invariant hits == old(hits) && recent == Recent(stamps[..i], now)
      {
        assert stamps[..i + 1] == stamps[..i] + [stamps[i]];
        FilterAppend(stamps[..i], [stamps[i]], Since(now));
        if now - stamps[i] < WINDOW {
          recent := recent + [stamps[i]];
        }
      }
      assert stamps[..|stamps|] == stamps;
      if |recent| >= limit {
        return false;
      }
      recent := recent + [now];
      hits := hits[principal := recent];
      accepted := true;
    }
  }

  // ----- Runs, and a limiter that forgets nothing -----

  datatype Call = Call(principal: string, now: real)

  ghost predicate Monotone(run: seq<Call>) {
    forall i, j :: 0 <= i < j < |run| ==> run[i].now <= run[j].now
  }

  /** The table after a run of the program's limiter. */
  function Table(limit: int, run: seq<Call>): map<string, Stamps> {
    if run == [] then map[]
    else
      var c := run[|run| - 1];
      AfterCheck(Table(limit, run[..|run| - 1]), limit, c.principal, c.now)
  }

  /** Whether the program accepts the `i`-th check of a run. */
  predicate IsAccepted(limit: int, run: seq<Call>, i: nat)
    requires i < |run|
  {
    Accepts(Table(limit, run[..i]), limit, run[i].principal, run[i].now)
  }

  /** The times of all accepted checks of one principal, from the start of the run. */
  function Accepted(limit: int, run: seq<Call>, principal: string): Stamps {
    if run == [] then []
    else
      var n := |run| - 1;
      Accepted(limit, run[..n], principal)
      + (if run[n].principal == principal && IsAccepted(limit, run, n) then [run[n].now] else [])
  }

  lemma AcceptedStep(limit: int, run: seq<Call>, principal: string)
    requires run != []
    ensures var n, before := |run| - 1, Accepted(limit, run[..|run| - 1], principal);
            Accepted(limit, run, principal)
            == if run[n].principal == principal && IsAccepted(limit, run, n) then before + [run[n].now] else before
  {
  }

  lemma {:induction false} RecentOfRecent(stamps: Stamps, earlier: real, now: real)
    requires earlier <= now
    ensures Recent(Recent(stamps, earlier), now) == Recent(stamps, now)
  {
    if stamps == [] {
    } else {
      RecentOfRecent(stamps[1..], earlier, now);
      var head := if earlier - stamps[0] < WINDOW then [stamps[0]] else [];
      FilterAppend(head, Recent(stamps[1..], earlier), Since(now));
      assert Recent(head, now) == if now - stamps[0] < WINDOW then [stamps[0]] else [] by {
        assert [stamps[0]][1..] == [];
      }
    }
  }

  lemma HitsAfterCheck(hits: map<string, Stamps>, limit: int, c: Call, principal: string)
    requires limit > 0
    ensures HitsOf(AfterCheck(hits, limit, c.principal, c.now), principal)
         == if c.principal == principal && Accepts(hits, limit, principal, c.now)
            then Recent(HitsOf(hits, principal), c.now) + [c.now] else HitsOf(hits, principal)
  {
  }

  /** The stamps thrown away never matter again: the table looks like the full record from now on. */
  lemma {:induction false} TableMatchesRecord(limit: int, run: seq<Call>, principal: string, now: real)
    requires limit > 0 && Monotone(run)
    requires run != [] ==> run[|run| - 1].now <= now
    ensures Recent(HitsOf(Table(limit, run), principal), now) == Recent(Accepted(limit, run, principal), now)
  {
    if run == [] {
    } else {
      var front, c := run[..|run| - 1], run[|run| - 1];
      TableMatchesRecord(limit, front, principal, now);
      HitsAfterCheck(Table(limit, front), limit, c, principal);
      AcceptedStep(limit, run, principal);
      assert IsAccepted(limit, run, |run| - 1) == Accepts(Table(limit, front), limit, c.principal, c.now);
      if c.principal == principal && IsAccepted(limit, run, |run| - 1) {
        var stamps := HitsOf(Table(limit, front), principal);
        RecentOfRecent(stamps, c.now, now);
        FilterAppend(Recent(stamps, c.now), [c.now], Since(now));
        FilterAppend(Accepted(limit, front, principal), [c.now], Since(now));
      }
    }
  }

  /** A check is refused exactly when `limit` accepted checks lie in the 60 seconds before it. */
  lemma RefusedIff(limit: int, run: seq<Call>, i: nat)
    requires limit > 0 && Monotone(run) && i < |run|
    ensures !IsAccepted(limit, run, i)
       <==> |Filter(Accepted(limit, run[..i], run[i].principal), MinuteBefore(run[i].now))| >= limit
  {
    TableMatchesRecord(limit, run[..i], run[i].principal, run[i].now);
    FilterAgree(Accepted(limit, run[..i], run[i].principal), Since(run[i].now), MinuteBefore(run[i].now));
  }

  /** A limit of zero or less refuses nothing and records nothing. */
  lemma {:induction false} NoLimitRefusesNothing(limit: int, run: seq<Call>)
    requires limit <= 0
    ensures Table(limit, run) == map[] && forall i :: 0 <= i < |run| ==> IsAccepted(limit, run, i)
  {
    if run != [] {
      NoLimitRefusesNothing(limit, run[..|run| - 1]);
    }
  }

  /** The 60 seconds before `now`; a stamp of exactly 60 seconds ago no longer counts. */
  function MinuteBefore(now: real): real -> bool {
    (stamp: real) => stamp > now - 60.0
  }

  function From(t: real): real -> bool {
    (stamp: real) => t <= stamp < t + 60.0
  }

  /** How many stamps fall into the half-open window that starts at `t`. */
  function CountFrom(stamps: Stamps, t: real): nat {
    |Filter(stamps, From(t))|
  }

  lemma {:induction false} WindowIsRecent(stamps: Stamps, t: real, now: real)
    requires t <= now < t + 60.0
    ensures CountFrom(stamps, t) <= |Recent(stamps, now)|
  {
    if stamps == [] {
    } else {
      WindowIsRecent(stamps[1..], t, now);
    }
  }

  /** No 60-second window of any run holds more than `limit` accepted checks of one principal. */
  lemma {:induction false} NoWindowExceedsTheLimit(limit: int, run: seq<Call>, principal: string, t: real)
    requires limit > 0 && Monotone(run)
    ensures CountFrom(Accepted(limit, run, principal), t) <= limit
  {
    if run == [] {
    } else {
      var front, c := run[..|run| - 1], run[|run| - 1];
      NoWindowExceedsTheLimit(limit, front, principal, t);
      var before := Accepted(limit, front, principal);
      AcceptedStep(limit, run, principal);
      if c.principal == principal && IsAccepted(limit, run, |run| - 1) {
        FilterAppend(before, [c.now], From(t));
        assert [c.now][1..] == [];
        if t <= c.now < t + 60.0 {
          RefusedIff(limit, run, |run| - 1);
          FilterAgree(before, Since(c.now), MinuteBefore(c.now));
          WindowIsRecent(before, t, c.now);
        }
      }
    }
  }
}
