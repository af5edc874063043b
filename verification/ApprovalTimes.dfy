/**
 When an approval token is pending, expired or gone, in plain microseconds since its creation, for every run of the
 program (governance/approval.py).
 */
module ApprovalTimes {
  import opened Approvals
  import opened Options

  predicate Decides(a: Action, t: Token) {
    (a.Approve? || a.Deny?) && a.token == t
  }

  predicate Creates(a: Action, t: Token) {
    a.Create? && a.token == t
  }

  /** Nobody decides the token or creates it anew. */
  ghost predicate LeftAlone(run: seq<Action>, t: Token) {
    forall i :: 0 <= i < |run| ==> !Creates(run[i], t) && !Decides(run[i], t)
  }

  /** The deadline that is reported: whole seconds. */
  function Deadline(created: int, ttl: int): int {
    created - created % 1_000_000 + ttl * 1_000_000
  }

  lemma DeadlineIs(created: int, ttl: int)
    ensures ExpiresAt(created, ttl) == Deadline(created, ttl)
    ensures created + ttl * 1_000_000 - 1_000_000 < Deadline(created, ttl) <= created + ttl * 1_000_000
  {
  }

  /** Every cleanup of the run comes before the deadline of a token created at `created`. */
  ghost predicate CleanedEarly(ttl: int, created: int, now: int, run: seq<Action>) {
    forall i :: 0 <= i < |run| && run[i].Cleanup? ==> TimeAfter(now, run[..i]) <= Deadline(created, ttl)
  }

  lemma {:induction false} TimePasses(now: int, run: seq<Action>, i: nat)
    requires i <= |run|
    ensures now <= TimeAfter(now, run[..i]) <= TimeAfter(now, run)
    decreases |run|
  {
    if run == [] {
    } else if i == 0 {
      TimePasses(After(now, run[0]), run[1..], 0);
    } else {
      TimePasses(After(now, run[0]), run[1..], i - 1);
      assert run[..i][1..] == run[1..][..i - 1];
    }
  }

  lemma CleanedEarlyTail(ttl: int, created: int, now: int, run: seq<Action>)
    requires run != [] && CleanedEarly(ttl, created, now, run)
    ensures CleanedEarly(ttl, created, After(now, run[0]), run[1..])
    ensures run[0].Cleanup? ==> now <= Deadline(created, ttl)
  {
    var later, rest := After(now, run[0]), run[1..];
    assert run[..0] == [];
    forall i | 0 <= i < |rest| && rest[i].Cleanup?
      ensures TimeAfter(later, rest[..i]) <= Deadline(created, ttl)
    {
      assert run[i + 1] == rest[i] && run[..i + 1][1..] == rest[..i];
    }
  }

  /** A token that is left alone stays undecided until it lapses or is swept. */
  lemma {:induction false} StaysOpen(ttl: int, ledger: Ledger, now: int, run: seq<Action>, t: Token)
    requires t in ledger && !ledger[t].fate.Decision? && LeftAlone(run, t)
    ensures var later := LedgerAfter(ttl, ledger, now, run);
            t in later && !later[t].fate.Decision? && Continues(ledger[t], later[t])
    ensures !ledger[t].fate.Swept? && CleanedEarly(ttl, ledger[t].createdAt, now, run) ==>
              !LedgerAfter(ttl, ledger, now, run)[t].fate.Swept?
    decreases |run|
  {
    if run == [] {
    } else {
      var next := LedgerStep(ttl, ledger, now, run[0]).0;
      assert !Creates(run[0], t) && !Decides(run[0], t);
      StepContinues(ttl, ledger, now, run[0], t);
      assert LeftAlone(run[1..], t) by {
        forall i | 0 <= i < |run| - 1 ensures !Creates(run[1..][i], t) && !Decides(run[1..][i], t) {
          assert run[1..][i] == run[i + 1];
        }
      }
      if CleanedEarly(ttl, ledger[t].createdAt, now, run) {
        CleanedEarlyTail(ttl, ledger[t].createdAt, now, run);
        EarlyCleanupSpares(ttl, ledger, now, run[0], t);
      }
      StaysOpen(ttl, next, After(now, run[0]), run[1..], t);
    }
  }

  lemma EarlyCleanupSpares(ttl: int, ledger: Ledger, now: int, a: Action, t: Token)
    requires t in ledger && !Creates(a, t)
    requires a.Cleanup? ==> now <= Deadline(ledger[t].createdAt, ttl)
    ensures !ledger[t].fate.Swept? ==> !LedgerStep(ttl, ledger, now, a).0[t].fate.Swept?
  {
    DeadlineIs(ledger[t].createdAt, ttl);
  }

  /** No step of a run that is over early settles the token. */
  lemma EarlyStaysUndecided(ttl: int, ledger: Ledger, now: int, run: seq<Action>, t: Token)
    requires t in ledger && ledger[t].fate.Undecided? && ledger[t].createdAt <= now && LeftAlone(run, t)
    requires TimeAfter(now, run) <= Deadline(ledger[t].createdAt, ttl)
    ensures t in LedgerAfter(ttl, ledger, now, run) && LedgerAfter(ttl, ledger, now, run)[t].fate.Undecided?
  {
    var created := ledger[t].createdAt;
    forall i | 0 <= i < |run| && run[i].Create? ensures run[i].token != t {
      assert !Creates(run[i], t);
    }
    forall i | 0 <= i < |run| ensures !SettledAt(ttl, created, t, now, run, i) {
      TimePasses(now, run, i);
      DeadlineIs(created, ttl);
      assert !Decides(run[i], t);
    }
    StaysUndecidedIff(ttl, ledger, now, run, t);
  }

  /** How long the store keeps an undecided record: an hour more than it is valid, two hours at least. */
  function Kept(ttl: int): int {
    if ttl + 3600 >= 7200 then (ttl + 3600) * 1_000_000 else 7200 * 1_000_000
  }

  /** A poll of an undecided token, on the ledger. */
  lemma OpenPoll(ttl: int, ledger: Ledger, created: int, t: Token, call: ToolCall, ctx: Context, run: seq<Action>)
    requires LeftAlone(run, t)
    ensures var start := LedgerStep(ttl, ledger, created, Create(t, call, ctx)).0;
            var then' := TimeAfter(created, run);
            var reply := LedgerStep(ttl, LedgerAfter(ttl, start, created, run), then', Poll(t)).1;
            && (then' <= Deadline(created, ttl) ==> reply == Found(Pending, created, Deadline(created, ttl), "", None))
            && (Deadline(created, ttl) < then' < created + Kept(ttl) && CleanedEarly(ttl, created, created, run) ==>
                  reply == Found(Expired, created, Deadline(created, ttl), "", None))
            && (then' >= created + Kept(ttl) ==> reply == NotFound)
  {
    var start := LedgerStep(ttl, ledger, created, Create(t, call, ctx)).0;
    DeadlineIs(created, ttl);
    TimePasses(created, run, 0);
    StaysOpen(ttl, start, created, run, t);
    if TimeAfter(created, run) <= Deadline(created, ttl) {
      EarlyStaysUndecided(ttl, start, created, run, t);
    }
  }

  /** A poll of a decided token, on the ledger. */
  lemma DecidedPoll(
    ttl: int, ledger: Ledger, at: int, t: Token, approved: bool, who: string, note: string, run: seq<Action>)
    requires t in ledger && Visible(ttl, ledger[t], at) && ledger[t].fate.Undecided?
    requires forall i :: 0 <= i < |run| ==> !Creates(run[i], t)
    ensures var decision := if approved then Approve(t, who, note) else Deny(t, who, note);
            var next, then' := LedgerStep(ttl, ledger, at, decision).0, TimeAfter(at, run);
            LedgerStep(ttl, LedgerAfter(ttl, next, at, run), then', Poll(t)).1
            == if then' - at < 60_000_000
               then Found(
                 if approved then Approved else Denied, ledger[t].createdAt, Deadline(ledger[t].createdAt, ttl), who, Some(at))
               else NotFound
  {
    var decision := if approved then Approve(t, who, note) else Deny(t, who, note);
    var next := LedgerStep(ttl, ledger, at, decision).0;
    DeadlineIs(ledger[t].createdAt, ttl);
    forall i | 0 <= i < |run| && run[i].Create? ensures run[i].token != t {
      assert !Creates(run[i], t);
    }
    FateIsFinal(ttl, next, at, run, t);
  }

  // ----- In every run of the program -----

  /** The ledger and the time at step `j`, told from step `i` on. */
  lemma FromStep(ttl: int, now: int, run: seq<Action>, i: nat, j: nat)
    requires i < j < |run|
    ensures var before, at := LedgerAfter(ttl, map[], now, run[..i]), TimeAfter(now, run[..i]);
            var next, between := LedgerStep(ttl, before, at, run[i]).0, run[i + 1..j];
            && LedgerAfter(ttl, map[], now, run[..j]) == LedgerAfter(ttl, next, After(at, run[i]), between)
            && TimeAfter(now, run[..j]) == TimeAfter(After(at, run[i]), between)
  {
    SplitRun(run, i, j);
    AfterSplit(ttl, map[], now, run[..i], [run[i]] + run[i + 1..j]);
  }

  lemma ReplyOf(ttl: int, now: int, run: seq<Action>, j: nat)
    requires j < |run|
    ensures |RunStore(ttl, map[], now, run)| == |run|
    ensures RunStore(ttl, map[], now, run)[j]
         == LedgerStep(ttl, LedgerAfter(ttl, map[], now, run[..j]), TimeAfter(now, run[..j]), run[j]).1
  {
    StoreRefinesLedger(ttl, now, run);
    ReplyAt(ttl, map[], now, run, j);
  }

  /**
   In every run, a poll of a token that nobody decided since its creation: pending up to the deadline, and so for `ttl`
   seconds less one, whatever is polled or cleaned up meanwhile; expired after it, and so after `ttl` seconds, unless
   it was cleaned up late; and gone, at the latest, when the store's own time is up.
   */
  lemma PollOfAnOpenToken(ttl: int, now: int, run: seq<Action>, i: nat, j: nat, t: Token)
    requires i < j < |run| && Creates(run[i], t) && run[j] == Poll(t) && LeftAlone(run[i + 1..j], t)
    ensures |RunStore(ttl, map[], now, run)| == |run|
    ensures var created, then' := TimeAfter(now, run[..i]), TimeAfter(now, run[..j]);
            var reply, elapsed := RunStore(ttl, map[], now, run)[j], then' - created;
            && (elapsed <= ttl * 1_000_000 - 1_000_000 ==> then' <= Deadline(created, ttl))
            && (then' <= Deadline(created, ttl) ==> reply == Found(Pending, created, Deadline(created, ttl), "", None))
            && (elapsed > ttl * 1_000_000 ==> then' > Deadline(created, ttl))
            && (then' > Deadline(created, ttl) && elapsed < Kept(ttl) && CleanedEarly(ttl, created, created, run[i + 1..j]) ==>
                  reply == Found(Expired, created, Deadline(created, ttl), "", None))
            && (elapsed >= Kept(ttl) ==> reply == NotFound)
  {
    ReplyOf(ttl, now, run, j);
    FromStep(ttl, now, run, i, j);
    DeadlineIs(TimeAfter(now, run[..i]), ttl);
    OpenPoll(
      ttl, LedgerAfter(ttl, map[], now, run[..i]), TimeAfter(now, run[..i]), t, run[i].toolCall, run[i].context, run[i + 1..j]);
  }

  predicate Looks(a: Action, t: Token) {
    a.Cleanup? || a == Poll(t)
  }

  /** On the ledger: the first look after the deadline decides what is seen from then on. */
  lemma FirstLook(
    ttl: int, ledger: Ledger, created: int, t: Token, call: ToolCall, ctx: Context,
    before: seq<Action>, look: Action, after: seq<Action>)
    requires LeftAlone(before, t) && Looks(look, t) && forall i :: 0 <= i < |after| ==> !Creates(after[i], t)
    requires forall i :: 0 <= i < |before| && Looks(before[i], t) ==> TimeAfter(created, before[..i]) <= Deadline(created, ttl)
    requires Deadline(created, ttl) < TimeAfter(created, before) < created + Kept(ttl)
    ensures var start, at := LedgerStep(ttl, ledger, created, Create(t, call, ctx)).0, TimeAfter(created, before);
            var seen := LedgerStep(ttl, LedgerAfter(ttl, start, created, before), at, look).0;
            LedgerStep(ttl, LedgerAfter(ttl, seen, at, after), TimeAfter(at, after), Poll(t)).1
            == if look.Cleanup? || TimeAfter(at, after) >= created + Kept(ttl) then NotFound
               else Found(Expired, created, Deadline(created, ttl), "", None)
  {
    var start, at := LedgerStep(ttl, ledger, created, Create(t, call, ctx)).0, TimeAfter(created, before);
    DeadlineIs(created, ttl);
    forall i | 0 <= i < |before| && before[i].Create? ensures before[i].token != t {
      assert !Creates(before[i], t);
    }
    forall i | 0 <= i < |before| ensures !SettledAt(ttl, created, t, created, before, i) {
      assert !Decides(before[i], t);
      assert Looks(before[i], t) ==> TimeAfter(created, before[..i]) <= Deadline(created, ttl);
    }
    StaysUndecidedIff(ttl, start, created, before, t);
    FateIsFinal(ttl, start, created, before, t);
    forall i | 0 <= i < |after| && after[i].Create? ensures after[i].token != t {
      assert !Creates(after[i], t);
    }
    FateIsFinal(ttl, LedgerStep(ttl, LedgerAfter(ttl, start, created, before), at, look).0, at, after, t);
  }

  /** In every run, a successful decision can be read for 60 seconds, with who made it and when, and then is gone. */
  lemma PollOfADecidedToken(ttl: int, now: int, run: seq<Action>, k: nat, j: nat, t: Token)
    requires k < j < |run| && Decides(run[k], t) && run[j] == Poll(t)
    requires forall i :: k < i < j ==> !Creates(run[i], t)
    requires |RunStore(ttl, map[], now, run)| == |run|
    requires var decided := RunStore(ttl, map[], now, run)[k]; decided.ApprovedCall? || decided.DeniedCall?
    ensures var at, elapsed := TimeAfter(now, run[..k]), TimeAfter(now, run[..j]) - TimeAfter(now, run[..k]);
            var reply := RunStore(ttl, map[], now, run)[j];
            if elapsed < 60_000_000
            then && reply.Found? && reply.status == (if run[k].Approve? then Approved else Denied)
                 && reply.decidedBy == run[k].who && reply.decidedAt == Some(at)
                 && reply.expiresAt == Deadline(reply.createdAt, ttl)
            else reply == NotFound
  {
    ReplyOf(ttl, now, run, k);
    ReplyOf(ttl, now, run, j);
    FromStep(ttl, now, run, k, j);
    var between := run[k + 1..j];
    forall i | 0 <= i < |between| ensures !Creates(between[i], t) {
      assert between[i] == run[k + 1 + i];
    }
    DecidedPoll(
      ttl, LedgerAfter(ttl, map[], now, run[..k]), TimeAfter(now, run[..k]), t, run[k].Approve?, run[k].who, run[k].note,
      run[k + 1..j]);
  }
}
