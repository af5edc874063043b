/**
 The CASB enforcement engine (casb/engine.py): group overrides, the default block, counters, and an activity
 log that is cut back when it grows too long.
 */
module CasbEngine {
  import opened Options

  datatype Classification = Sanctioned | Tolerated | Unsanctioned

  datatype ActionKind = Allow | Alert | Block

  datatype AppPolicy = AppPolicy(classification: Classification, action: ActionKind)

  datatype Event = Event(application: string, userId: string, tenantId: string, groups: seq<string>, action: ActionKind)

  datatype Request = Request(appId: string, userId: string, userGroups: seq<string>, tenantId: string)

  datatype Result = Result(action: ActionKind, blocked: bool, auditEvent: Option<Event>)

  datatype Policies = Policies(apps: map<string, AppPolicy>, overrides: map<string, map<string, AppPolicy>>)

  const LOG_LIMIT := 10_000

  const LOG_KEPT := 5_000

  /** The first of the user's groups with an override for the application decides. */
  function OverrideFor(p: Policies, appId: string, groups: seq<string>): Option<AppPolicy> {
    if groups == [] then None
    else if groups[0] in p.overrides && appId in p.overrides[groups[0]] then Some(p.overrides[groups[0]][appId])
    else OverrideFor(p, appId, groups[1..])
  }

  /** An unknown application is unsanctioned and blocked. */
  function PolicyFor(p: Policies, appId: string): AppPolicy {
    Get(p.apps, appId).GetOr(AppPolicy(Unsanctioned, Block))
  }

  function EventFor(p: Policies, r: Request): Event {
    Event(r.appId, r.userId, r.tenantId, r.userGroups, PolicyFor(p, r.appId).action)
  }

  function Increment<K>(m: map<K, nat>, k: K): map<K, nat> {
    m[k := Get(m, k).GetOr(0) + 1]
  }

  function Appended(log: seq<Event>, e: Event): seq<Event> {
    var longer := log + [e];
    if |longer| > LOG_LIMIT then longer[|longer| - LOG_KEPT..] else longer
  }

  datatype Telemetry = Telemetry(
    totalEvents: nat, apps: map<string, nat>, byClassification: map<Classification, nat>, log: seq<Event>)

  const EMPTY := Telemetry(0, map[], map[], [])

  function Recorded(p: Policies, t: Telemetry, r: Request): Telemetry {
    if OverrideFor(p, r.appId, r.userGroups).Some? then t
    else
      Telemetry(
        t.totalEvents + 1,
        Increment(t.apps, r.appId),
        Increment(t.byClassification, PolicyFor(p, r.appId).classification),
        Appended(t.log, EventFor(p, r)))
  }

  function Verdict(p: Policies, r: Request): Result {
    var o := OverrideFor(p, r.appId, r.userGroups);
    if o.Some? then Result(o.value.action, o.value.action == Block, None)
    else
      var a := PolicyFor(p, r.appId).action;
      Result(a, a == Block, if a != Allow then Some(EventFor(p, r)) else None)
  }

  class Engine {
    const policies: Policies
    var totalEvents: nat
    var apps: map<string, nat>
    var byClassification: map<Classification, nat>
    var activityLog: seq<Event>

    function Contents(): Telemetry
      reads this
    {
      Telemetry(totalEvents, apps, byClassification, activityLog)
    }

    constructor (policies: Policies)
      ensures this.policies == policies && Contents() == EMPTY
    {
      this.policies := policies;
      totalEvents, apps, byClassification, activityLog := 0, map[], map[], [];
    }

    method Enforce(r: Request) returns (result: Result)
      modifies this
      ensures result == Verdict(policies, r)
      ensures Contents() == Recorded(policies, old(Contents()), r)
    {
      for i := 0 to |r.userGroups|
        invariant Contents() == old(Contents())
        invariant OverrideFor(policies, r.appId, r.userGroups) == OverrideFor(policies, r.appId, r.userGroups[i..])
      {
        var group := r.userGroups[i];
        assert r.userGroups[i..][1..] == r.userGroups[i + 1..];
        if group in policies.overrides && r.appId in policies.overrides[group] {
          var action := policies.overrides[group][r.appId].action;
          return Result(action, action == Block, None);
        }
      }
      var policy := PolicyFor(policies, r.appId);
      var event := Event(r.appId, r.userId, r.tenantId, r.userGroups, policy.action);
      activityLog := activityLog + [event];
      if |activityLog| > LOG_LIMIT {
        activityLog := activityLog[|activityLog| - LOG_KEPT..];
      }
      totalEvents := totalEvents + 1;
      apps := Increment(apps, r.appId);
      byClassification := Increment(byClassification, policy.classification);
      result := Result(policy.action, policy.action == Block, if policy.action != Allow then Some(event) else None);
    }
  }

  // ----- Runs -----

  function After(p: Policies, run: seq<Request>): Telemetry {
    if run == [] then EMPTY else Recorded(p, After(p, run[..|run| - 1]), run[|run| - 1])
  }

  /** Every event ever recorded; requests decided by an override record none. */
  function History(p: Policies, run: seq<Request>): seq<Event> {
    if run == [] then []
    else
      var front, r := History(p, run[..|run| - 1]), run[|run| - 1];
      if OverrideFor(p, r.appId, r.userGroups).Some? then front else front + [EventFor(p, r)]
  }

  /** The length of the log after `n` events: it saws between 5000 and 10000. */
  function LogLength(n: nat): nat {
    if n <= LOG_LIMIT then n else LOG_KEPT + (n - LOG_LIMIT - 1) % 5001
  }

  lemma LogLengthStep(n: nat)
    ensures LogLength(n + 1) == if LogLength(n) + 1 > LOG_LIMIT then LOG_KEPT else LogLength(n) + 1
  {
    if n > LOG_LIMIT {
      ModStep(n - LOG_LIMIT - 1);
    }
  }

  lemma ModStep(x: nat)
    ensures (x + 1) % 5001 == if x % 5001 == 5000 then 0 else x % 5001 + 1
  {
  }

  ghost predicate IsSuffix(a: seq<Event>, b: seq<Event>) {
    |a| <= |b| && b[|b| - |a|..] == a
  }

  /** After every run the log is the end of the full history, of the length given by the closed form. */
  lemma {:induction false} LogIsRecentHistory(p: Policies, run: seq<Request>)
    ensures var t, h := After(p, run), History(p, run);
            t.totalEvents == |h| && |t.log| == LogLength(|h|) && IsSuffix(t.log, h)
  {
    if run == [] {
    } else {
      var front, r := run[..|run| - 1], run[|run| - 1];
      LogIsRecentHistory(p, front);
      if OverrideFor(p, r.appId, r.userGroups).None? {
        var h, log, e := History(p, front), After(p, front).log, EventFor(p, r);
        LogLengthStep(|h|);
        assert (h + [e])[|h| - |log|..] == log + [e];
        if |log| + 1 > LOG_LIMIT {
          assert (h + [e])[|h| + 1 - LOG_KEPT..] == (log + [e])[|log| + 1 - LOG_KEPT..];
        }
      }
    }
  }

  // ----- The counters add up -----

  ghost function Sum<K>(m: map<K, nat>): nat {
    if m == map[] then 0
    else
      var k :| k in m;
      m[k] + Sum(m - {k})
  }

  /** Any key may be taken out first. */
  lemma {:induction false} SumWithout<K>(m: map<K, nat>, k: K)
    requires k in m
    ensures Sum(m) == m[k] + Sum(m - {k})
    decreases |m|
  {
    var j :| j in m && Sum(m) == m[j] + Sum(m - {j});
    if j != k {
      SumWithout(m - {j}, k);
      SumWithout(m - {k}, j);
      assert m - {j} - {k} == m - {k} - {j};
    }
  }

  lemma SumIncrement<K>(m: map<K, nat>, k: K)
    ensures Sum(Increment(m, k)) == Sum(m) + 1
  {
    var m' := Increment(m, k);
    SumWithout(m', k);
    if k in m {
      SumWithout(m, k);
      assert m' - {k} == m - {k};
    } else {
      assert m' - {k} == m;
    }
  }

  /** Total, per-application and per-classification counters always agree with the number of events. */
  lemma {:induction false} CountersAddUp(p: Policies, run: seq<Request>)
    ensures var t, n := After(p, run), |History(p, run)|;
            t.totalEvents == n && Sum(t.apps) == n && Sum(t.byClassification) == n
  {
    if run == [] {
    } else {
      var front, r := run[..|run| - 1], run[|run| - 1];
      CountersAddUp(p, front);
      SumIncrement(After(p, front).apps, r.appId);
      SumIncrement(After(p, front).byClassification, PolicyFor(p, r.appId).classification);
    }
  }

  // ----- Which policy decides -----

  /** The group at `i` has an override for the application. */
  ghost predicate Overrides(p: Policies, r: Request, i: nat)
    requires i < |r.userGroups|
  {
    r.userGroups[i] in p.overrides && r.appId in p.overrides[r.userGroups[i]]
  }

  ghost predicate IsFirstOverride(p: Policies, r: Request, i: nat)
    requires i < |r.userGroups|
  {
    Overrides(p, r, i) && forall j :: 0 <= j < i ==> !Overrides(p, r, j)
  }

  lemma {:induction false} OverrideIsTheFirst(p: Policies, appId: string, groups: seq<string>)
    ensures OverrideFor(p, appId, groups).None? <==>
            forall i :: 0 <= i < |groups| ==> !(groups[i] in p.overrides && appId in p.overrides[groups[i]])
    ensures OverrideFor(p, appId, groups).Some? ==>
              exists i :: 0 <= i < |groups| && groups[i] in p.overrides && appId in p.overrides[groups[i]]
                          && OverrideFor(p, appId, groups) == Some(p.overrides[groups[i]][appId])
                          && forall j :: 0 <= j < i ==> !(groups[j] in p.overrides && appId in p.overrides[groups[j]])
  {
    if groups != [] && !(groups[0] in p.overrides && appId in p.overrides[groups[0]]) {
      var rest := groups[1..];
      OverrideIsTheFirst(p, appId, rest);
      assert forall i :: 0 < i < |groups| ==> groups[i] == rest[i - 1];
      if OverrideFor(p, appId, rest).Some? {
        var i :| 0 <= i < |rest| && rest[i] in p.overrides && appId in p.overrides[rest[i]]
                 && OverrideFor(p, appId, rest) == Some(p.overrides[rest[i]][appId])
                 && forall j :: 0 <= j < i ==> !(rest[j] in p.overrides && appId in p.overrides[rest[j]]);
        assert groups[i + 1] == rest[i];
      }
    }
  }

  /** The policy `decided` is the one that applies to the request. */
  ghost predicate Applies(p: Policies, r: Request, decided: AppPolicy, overridden: bool) {
    if overridden then
      exists i :: 0 <= i < |r.userGroups| && IsFirstOverride(p, r, i) && decided == p.overrides[r.userGroups[i]][r.appId]
    else
      && (forall i :: 0 <= i < |r.userGroups| ==> !Overrides(p, r, i))
      && (if r.appId in p.apps then decided == p.apps[r.appId] else decided == AppPolicy(Unsanctioned, Block))
  }

  /**
   The verdict from the policies alone: the override of the first group that has one, else the application's policy,
   else a block; blocked exactly if the action is to block; and an audit event exactly if no override decided and the
   action is not to allow.
   */
  lemma VerdictFollowsThePolicies(p: Policies, r: Request)
    ensures exists decided, overridden :: Applies(p, r, decided, overridden)
    ensures forall decided, overridden :: Applies(p, r, decided, overridden) ==>
              var v := Verdict(p, r);
              && v.action == decided.action && (v.blocked <==> decided.action == Block)
              && (v.auditEvent.None? <==> overridden || decided.action == Allow)
              && (v.auditEvent.Some? ==>
                    v.auditEvent.value == Event(r.appId, r.userId, r.tenantId, r.userGroups, decided.action))
              && (overridden <==> OverrideFor(p, r.appId, r.userGroups).Some?)
  {
    OverrideIsTheFirst(p, r.appId, r.userGroups);
    var o := OverrideFor(p, r.appId, r.userGroups);
    if o.Some? {
      var i :| 0 <= i < |r.userGroups| && IsFirstOverride(p, r, i) && o.value == p.overrides[r.userGroups[i]][r.appId];
      assert Applies(p, r, o.value, true);
    } else {
      assert forall i :: 0 <= i < |r.userGroups| ==> !Overrides(p, r, i);
      assert Applies(p, r, PolicyFor(p, r.appId), false);
    }
  }

  // ----- Each counter counts its own -----

  /** Requests for an application that no override decided. */
  function CountApp(p: Policies, run: seq<Request>, appId: string): nat {
    if run == [] then 0
    else
      var r := run[|run| - 1];
      CountApp(p, run[..|run| - 1], appId)
      + (if r.appId == appId && OverrideFor(p, r.appId, r.userGroups).None? then 1 else 0)
  }

  /** Requests that no override decided, for applications of a class; unknown applications are unsanctioned. */
  function CountClass(p: Policies, run: seq<Request>, c: Classification): nat {
    if run == [] then 0
    else
      var r := run[|run| - 1];
      var its := if r.appId in p.apps then p.apps[r.appId].classification else Unsanctioned;
      CountClass(p, run[..|run| - 1], c) + (if its == c && OverrideFor(p, r.appId, r.userGroups).None? then 1 else 0)
  }

  /** After every run each counter is the number of requests it stands for. */
  lemma {:induction false} CountersCountTheirOwn(p: Policies, run: seq<Request>, appId: string, c: Classification)
    ensures Get(After(p, run).apps, appId).GetOr(0) == CountApp(p, run, appId)
    ensures Get(After(p, run).byClassification, c).GetOr(0) == CountClass(p, run, c)
  {
    if run != [] {
      CountersCountTheirOwn(p, run[..|run| - 1], appId, c);
    }
  }

  /** The history holds, in order, one event with the fields of each request that no override decided. */
  lemma HistoryStep(p: Policies, run: seq<Request>, r: Request)
    ensures History(p, run + [r])
         == if OverrideFor(p, r.appId, r.userGroups).Some? then History(p, run)
            else History(p, run) + [Event(
                   r.appId, r.userId, r.tenantId, r.userGroups,
                   if r.appId in p.apps then p.apps[r.appId].action else Block)]
  {
    assert (run + [r])[..|run|] == run;
  }
}
