/**
 Human approval of tool calls (governance/approval.py): tokens in a key-value store whose keys expire.

 `ApprovalManager` is the program, one atomic step per method, over a store with expiry times.  `Ledger` is an
 independent account of what may be observed: it has no store, only what was created and the one thing that
 happened to it.  The main theorem is that both give the same replies in every run.
 */
module Approvals {
  import opened Options

  type Token = string

  datatype ToolCall = ToolCall(
    id: string, name: string, arguments: string, format: string, domain: string, provider: Option<string>)

  datatype Context = Context(contextId: string, tenantId: string)

  datatype Status = Pending | Approved | Denied | Expired

  /** Times are microseconds. */
  datatype Record = Record(
    toolCall: ToolCall,
    context: Context,
    status: Status,
    createdAt: int,
    expiresAt: int,
    decidedBy: string,
    decidedAt: Option<int>,
    note: string)

  /** A stored hash and the time at which the store drops it. */
  datatype Entry = Entry(record: Record, deadline: int)

  type Store = map<Token, Entry>

  const SECOND := 1_000_000

  /** How long a decided record stays readable. */
  const DECIDED_TTL := 60 * SECOND

  function StoreTtl(ttl: int): int {
    (if ttl + 3600 >= 7200 then ttl + 3600 else 7200) * SECOND
  }

  /** The whole second of `now`, plus the time to live. */
  function ExpiresAt(now: int, ttl: int): int {
    now / SECOND * SECOND + ttl * SECOND
  }

  datatype Reply =
    | Accepted(token: Token)
    | NotFound
    | Found(status: Status, createdAt: int, expiresAt: int, decidedBy: string, decidedAt: Option<int>)
    | Conflict(current: Status)
    | ApprovedCall(decidedBy: string, at: int, note: string, toolCall: ToolCall)
    | DeniedCall(decidedBy: string, at: int, note: string)
    | Deleted(count: nat)
    | Silent

  datatype Action =
    | Create(token: Token, toolCall: ToolCall, context: Context)
    | Poll(token: Token)
    | Approve(token: Token, who: string, note: string)
    | Deny(token: Token, who: string, note: string)
    | Cleanup
    | Wait(delay: nat)

  // ----- The store -----

  /** Reading a key that has passed its deadline finds nothing. */
  function Read(store: Store, token: Token, now: int): Option<Record> {
    if token in store && now < store[token].deadline then Some(store[token].record) else None
  }

  predicate Overdue(store: Store, token: Token, now: int) {
    var r := Read(store, token, now);
    r.Some? && r.value.status == Pending && now > r.value.expiresAt
  }

  function Describe(r: Record): Reply {
    Found(r.status, r.createdAt, r.expiresAt, r.decidedBy, r.decidedAt)
  }

  function Decide(store: Store, token: Token, now: int, status: Status, who: string, note: string): Store
    requires token in store
  {
    var r := store[token].record.(status := status, decidedBy := who, decidedAt := Some(now), note := note);
    store[token := Entry(r, now + DECIDED_TTL)]
  }

  /** One atomic method call of the program. */
  function StoreStep(ttl: int, store: Store, now: int, a: Action): (Store, Reply) {
    match a
    case Create(token, call, ctx) =>
      var r := Record(call, ctx, Pending, now, ExpiresAt(now, ttl), "", None, "");
      (store[token := Entry(r, now + StoreTtl(ttl))], Accepted(token))
    case Poll(token) =>
      var r := Read(store, token, now);
      if r.None? then (store, NotFound)
      else if Overdue(store, token, now) then
        var r' := r.value.(status := Expired);
        (store[token := store[token].(record := r')], Describe(r'))
      else (store, Describe(r.value))
    case Approve(token, who, note) =>
      var r := Read(store, token, now);
      if r.None? then (store, NotFound)
      else if r.value.status != Pending then (store, Conflict(r.value.status))
      else (Decide(store, token, now, Approved, who, note), ApprovedCall(who, now, note, r.value.toolCall))
    case Deny(token, who, note) =>
      var r := Read(store, token, now);
      if r.None? then (store, NotFound)
      else if r.value.status != Pending then (store, Conflict(r.value.status))
      else (Decide(store, token, now, Denied, who, note), DeniedCall(who, now, note))
    case Cleanup =>
      var gone := set t | t in store && Overdue(store, t, now);
      (store - gone, Deleted(|gone|))
    case Wait(_) => (store, Silent)
  }

  class ApprovalManager {
    const ttl: int
    var store: Store

    constructor (ttl: int)
      ensures this.ttl == ttl && store == map[]
    {
      this.ttl := ttl;
      store := map[];
    }

    method CreateApproval(token: Token, call: ToolCall, ctx: Context, now: int) returns (reply: Reply)
      modifies this
      ensures (store, reply) == StoreStep(ttl, old(store), now, Create(token, call, ctx))
    {
      var expiresAt := now - now % SECOND + ttl * SECOND;
      var record := Record(call, ctx, Pending, now, expiresAt, "", None, "");
      store := store[token := Entry(record, now + StoreTtl(ttl))];
      reply := Accepted(token);
    }

    method GetApprovalStatus(token: Token, now: int) returns (reply: Reply)
      modifies this
      ensures (store, reply) == StoreStep(ttl, old(store), now, Poll(token))
    {
      var raw := Read(store, token, now);
      if raw.None? {
        return NotFound;
      }
      var record := raw.value;
      if now > record.expiresAt && record.status == Pending {
        record := record.(status := Expired);
        store := store[token := store[token].(record := record)];
      }
      reply := Describe(record);
    }

    method ApproveApproval(token: Token, who: string, note: string, now: int) returns (reply: Reply)
      modifies this
      ensures (store, reply) == StoreStep(ttl, old(store), now, Approve(token, who, note))
    {
      var raw := Read(store, token, now);
      if raw.None? {
        return NotFound;
      }
      if raw.value.status != Pending {
        return Conflict(raw.value.status);
      }
      var record := raw.value.(status := Approved, decidedBy := who, decidedAt := Some(now), note := note);
      store := store[token := Entry(record, now + DECIDED_TTL)];
      reply := ApprovedCall(who, now, note, raw.value.toolCall);
    }

    method DenyApproval(token: Token, who: string, note: string, now: int) returns (reply: Reply)
      modifies this
      ensures (store, reply) == StoreStep(ttl, old(store), now, Deny(token, who, note))
    {
      var raw := Read(store, token, now);
      if raw.None? {
        return NotFound;
      }
      if raw.value.status != Pending {
        return Conflict(raw.value.status);
      }
      var record := raw.value.(status := Denied, decidedBy := who, decidedAt := Some(now), note := note);
      store := store[token := Entry(record, now + DECIDED_TTL)];
      reply := DeniedCall(who, now, note);
    }

    /** One page of keys from the store's cursor. */
    method CleanupPage(page: seq<Token>, now: int) returns (deleted: nat)
      modifies this
      ensures store == old(store) - OverdueAmong(old(store), page, now)
      ensures deleted == |OverdueAmong(old(store), page, now)|
    {
      ghost var start := store;
      deleted := 0;
      for k := 0 to |page|
        invariant store == start - OverdueAmong(start, page[..k], now)
        invariant deleted == |OverdueAmong(start, page[..k], now)|
      {
        var key := page[k];
        CleanupStep(start, store, page, k, now);
        var raw := Read(store, key, now);
        if raw.Some? && now > raw.value.expiresAt && raw.value.status == Pending {
          store := store - {key};
          deleted := deleted + 1;
        }
      }
      assert page[..|page|] == page;
    }

    /** `pages` are the keys the store's cursor hands out: every live key at least once, possibly more often. */
    method CleanupExpired(pages: seq<seq<Token>>, now: int) returns (deleted: nat)
      requires forall t :: t in store && now < store[t].deadline ==> t in Concat(pages)
      modifies this
      ensures (store, Deleted(deleted)) == StoreStep(ttl, old(store), now, Cleanup)
    {
      ghost var start := store;
      deleted := 0;
      for i := 0 to |pages|
        invariant store == start - OverdueAmong(start, Concat(pages[..i]), now)
        invariant deleted == |OverdueAmong(start, Concat(pages[..i]), now)|
      {
        assert pages[..i + 1][..i] == pages[..i];
        NextPage(start, Concat(pages[..i]), pages[i], now);
        var n := CleanupPage(pages[i], now);
        deleted := deleted + n;
      }
      assert pages[..|pages|] == pages;
      AllPages(start, Concat(pages), now);
    }
  }

  lemma NextPage(start: Store, keys: seq<Token>, page: seq<Token>, now: int)
    ensures var gone := OverdueAmong(start, keys, now);
            var more := OverdueAmong(start - gone, page, now);
            && start - gone - more == start - OverdueAmong(start, keys + page, now)
            && |OverdueAmong(start, keys + page, now)| == |gone| + |more|
  {
    var gone := OverdueAmong(start, keys, now);
    var more := OverdueAmong(start - gone, page, now);
    forall t ensures t in OverdueAmong(start, keys + page, now) <==> t in gone + more {
      LeftOverdue(start, gone, t, now);
    }
    assert OverdueAmong(start, keys + page, now) == gone + more;
    forall t | t in more ensures t !in gone {
      LeftOverdue(start, gone, t, now);
    }
    assert gone !! more;
    MinusTwice(start, gone, more);
  }

  lemma LeftOverdue(start: Store, gone: set<Token>, t: Token, now: int)
    ensures Overdue(start - gone, t, now) <==> t !in gone && Overdue(start, t, now)
  {
  }

  lemma MinusTwice(start: Store, a: set<Token>, b: set<Token>)
    ensures start - a - b == start - (a + b)
  {
  }

  function Concat(pages: seq<seq<Token>>): seq<Token> {
    if pages == [] then [] else Concat(pages[..|pages| - 1]) + pages[|pages| - 1]
  }

  lemma AllPages(start: Store, keys: seq<Token>, now: int)
    requires forall t :: t in start && now < start[t].deadline ==> t in keys
    ensures OverdueAmong(start, keys, now) == set t | t in start && Overdue(start, t, now)
  {
  }

  function OverdueAmong(store: Store, keys: seq<Token>, now: int): set<Token> {
    set t | t in keys && Overdue(store, t, now)
  }

  lemma OverdueStep(store: Store, keys: seq<Token>, k: nat, now: int)
    requires k < |keys|
    ensures var gone := OverdueAmong(store, keys[..k], now);
            OverdueAmong(store, keys[..k + 1], now) == if Overdue(store, keys[k], now) then gone + {keys[k]} else gone
  {
    assert keys[..k + 1] == keys[..k] + [keys[k]];
  }

  lemma CleanupStep(start: Store, store: Store, page: seq<Token>, k: nat, now: int)
    requires k < |page| && store == start - OverdueAmong(start, page[..k], now)
    ensures var gone, key, gone' := OverdueAmong(start, page[..k], now), page[k], OverdueAmong(start, page[..k + 1], now);
            && start - gone' == (if Overdue(store, key, now) then store - {key} else store)
            && |gone'| == |gone| + (if Overdue(store, key, now) then 1 else 0)
  {
    var gone, key := OverdueAmong(start, page[..k], now), page[k];
    OverdueStep(start, page, k, now);
    assert Overdue(store, key, now) <==> Overdue(start, key, now) && key !in gone;
    assert OverdueAmong(start, page[..k + 1], now) == if Overdue(store, key, now) then gone + {key} else gone;
    assert start - (gone + {key}) == (start - gone) - {key};
  }

  // ----- The ledger: what was created and the one thing that happened to it -----

  datatype Fate =
    | Undecided
    | Decision(status: Status, who: string, at: int, note: string)
    | Lapsed(noticedAt: int)
    | Swept(sweptAt: int)

  datatype Life = Life(toolCall: ToolCall, context: Context, createdAt: int, fate: Fate)

  type Ledger = map<Token, Life>

  /** Until when a life can be observed at all. */
  predicate Visible(ttl: int, life: Life, now: int) {
    match life.fate
    case Undecided => now < life.createdAt + StoreTtl(ttl)
    case Lapsed(_) => now < life.createdAt + StoreTtl(ttl)
    case Decision(_, _, at, _) => now < at + DECIDED_TTL
    case Swept(_) => false
  }

  function StatusOf(fate: Fate): Status
    requires !fate.Swept?
  {
    match fate
    case Undecided => Pending
    case Lapsed(_) => Expired
    case Decision(s, _, _, _) => s
  }

  function ReportOf(ttl: int, life: Life): Reply
    requires !life.fate.Swept?
  {
    var decided := life.fate.Decision?;
    Found(
      StatusOf(life.fate), life.createdAt, ExpiresAt(life.createdAt, ttl),
      if decided then life.fate.who else "", if decided then Some(life.fate.at) else None)
  }

  predicate Late(ttl: int, life: Life, now: int) {
    life.fate.Undecided? && Visible(ttl, life, now) && now > ExpiresAt(life.createdAt, ttl)
  }

  function LedgerStep(ttl: int, ledger: Ledger, now: int, a: Action): (Ledger, Reply) {
    match a
    case Create(token, call, ctx) => (ledger[token := Life(call, ctx, now, Undecided)], Accepted(token))
    case Poll(token) =>
      if token !in ledger || !Visible(ttl, ledger[token], now) then (ledger, NotFound)
      else if Late(ttl, ledger[token], now) then
        var life := ledger[token].(fate := Lapsed(now));
        (ledger[token := life], ReportOf(ttl, life))
      else (ledger, ReportOf(ttl, ledger[token]))
    case Approve(token, who, note) =>
      if token !in ledger || !Visible(ttl, ledger[token], now) then (ledger, NotFound)
      else if !ledger[token].fate.Undecided? then (ledger, Conflict(StatusOf(ledger[token].fate)))
      else
        (ledger[token := ledger[token].(fate := Decision(Approved, who, now, note))],
         ApprovedCall(who, now, note, ledger[token].toolCall))
    case Deny(token, who, note) =>
      if token !in ledger || !Visible(ttl, ledger[token], now) then (ledger, NotFound)
      else if !ledger[token].fate.Undecided? then (ledger, Conflict(StatusOf(ledger[token].fate)))
      else
        (ledger[token := ledger[token].(fate := Decision(Denied, who, now, note))], DeniedCall(who, now, note))
    case Cleanup =>
      var gone := set t | t in ledger && Late(ttl, ledger[t], now);
      (map t | t in ledger :: if t in gone then ledger[t].(fate := Swept(now)) else ledger[t], Deleted(|gone|))
    case Wait(_) => (ledger, Silent)
  }

  // ----- The store refines the ledger -----

  function EntryOf(ttl: int, life: Life): Entry
    requires !life.fate.Swept?
  {
    var decided := life.fate.Decision?;
    Entry(
      Record(
        life.toolCall, life.context, StatusOf(life.fate), life.createdAt, ExpiresAt(life.createdAt, ttl),
        if decided then life.fate.who else "", if decided then Some(life.fate.at) else None,
        if decided then life.fate.note else ""),
      if decided then life.fate.at + DECIDED_TTL else life.createdAt + StoreTtl(ttl))
  }

  function Expected(ttl: int, ledger: Ledger, t: Token): Option<Entry> {
    if t in ledger && !ledger[t].fate.Swept? then Some(EntryOf(ttl, ledger[t])) else None
  }

  ghost predicate WellFormed(ledger: Ledger) {
    forall t :: t in ledger && ledger[t].fate.Decision? ==> ledger[t].fate.status in {Approved, Denied}
  }

  ghost predicate Agrees(ttl: int, store: Store, ledger: Ledger) {
    && WellFormed(ledger)
    && forall t :: Get(store, t) == Expected(ttl, ledger, t)
  }

  function After(now: int, a: Action): int {
    if a.Wait? then now + a.delay else now
  }

  lemma ReadAgrees(ttl: int, store: Store, ledger: Ledger, now: int, t: Token)
    requires Agrees(ttl, store, ledger)
    ensures Read(store, t, now).Some? <==> t in ledger && Visible(ttl, ledger[t], now)
    ensures Read(store, t, now).Some? ==>
              Get(store, t) == Some(EntryOf(ttl, ledger[t])) && Read(store, t, now) == Some(EntryOf(ttl, ledger[t]).record)
    ensures Overdue(store, t, now) <==> t in ledger && Late(ttl, ledger[t], now)
  {
    assert Get(store, t) == Expected(ttl, ledger, t);
  }

  lemma UpdateAgrees(ttl: int, store: Store, ledger: Ledger, t: Token, life: Life)
    requires Agrees(ttl, store, ledger)
    requires !life.fate.Swept? && (life.fate.Decision? ==> life.fate.status in {Approved, Denied})
    ensures Agrees(ttl, store[t := EntryOf(ttl, life)], ledger[t := life])
  {
    var store', ledger' := store[t := EntryOf(ttl, life)], ledger[t := life];
    forall u ensures Get(store', u) == Expected(ttl, ledger', u) {
      assert Get(store, u) == Expected(ttl, ledger, u);
    }
  }

  lemma CleanupAgrees(ttl: int, store: Store, ledger: Ledger, now: int)
    requires Agrees(ttl, store, ledger)
    ensures StoreStep(ttl, store, now, Cleanup).1 == LedgerStep(ttl, ledger, now, Cleanup).1
    ensures Agrees(ttl, StoreStep(ttl, store, now, Cleanup).0, LedgerStep(ttl, ledger, now, Cleanup).0)
  {
    var gone := set t | t in store && Overdue(store, t, now);
    forall t ensures t in gone <==> t in ledger && Late(ttl, ledger[t], now) {
      ReadAgrees(ttl, store, ledger, now, t);
    }
    assert gone == set t | t in ledger && Late(ttl, ledger[t], now);
    var ledger' := LedgerStep(ttl, ledger, now, Cleanup).0;
    forall t ensures Get(store - gone, t) == Expected(ttl, ledger', t) {
      assert Get(store, t) == Expected(ttl, ledger, t);
    }
  }

  /** Every step gives the same reply on both sides and keeps them in agreement. */
  lemma StepAgrees(ttl: int, store: Store, ledger: Ledger, now: int, a: Action)
    requires Agrees(ttl, store, ledger)
    ensures StoreStep(ttl, store, now, a).1 == LedgerStep(ttl, ledger, now, a).1
    ensures Agrees(ttl, StoreStep(ttl, store, now, a).0, LedgerStep(ttl, ledger, now, a).0)
  {
    match a
    case Create(token, call, ctx) =>
      UpdateAgrees(ttl, store, ledger, token, Life(call, ctx, now, Undecided));
    case Poll(token) =>
      ReadAgrees(ttl, store, ledger, now, token);
      if Overdue(store, token, now) {
        UpdateAgrees(ttl, store, ledger, token, ledger[token].(fate := Lapsed(now)));
      }
    case Approve(token, who, note) =>
      ReadAgrees(ttl, store, ledger, now, token);
      if token in ledger {
        UpdateAgrees(ttl, store, ledger, token, ledger[token].(fate := Decision(Approved, who, now, note)));
      }
    case Deny(token, who, note) =>
      ReadAgrees(ttl, store, ledger, now, token);
      if token in ledger {
        UpdateAgrees(ttl, store, ledger, token, ledger[token].(fate := Decision(Denied, who, now, note)));
      }
    case Cleanup => CleanupAgrees(ttl, store, ledger, now);
    case Wait(_) =>
  }

  function RunStore(ttl: int, store: Store, now: int, run: seq<Action>): seq<Reply>
    decreases |run|
  {
    if run == [] then []
    else
      var (store', reply) := StoreStep(ttl, store, now, run[0]);
      [reply] + RunStore(ttl, store', After(now, run[0]), run[1..])
  }

  function RunLedger(ttl: int, ledger: Ledger, now: int, run: seq<Action>): seq<Reply>
    decreases |run|
  {
    if run == [] then []
    else
      var (ledger', reply) := LedgerStep(ttl, ledger, now, run[0]);
      [reply] + RunLedger(ttl, ledger', After(now, run[0]), run[1..])
  }

  lemma {:induction false} RunsAgree(ttl: int, store: Store, ledger: Ledger, now: int, run: seq<Action>)
    requires Agrees(ttl, store, ledger)
    ensures RunStore(ttl, store, now, run) == RunLedger(ttl, ledger, now, run)
    decreases |run|
  {
    if run == [] {
    } else {
      StepAgrees(ttl, store, ledger, now, run[0]);
      RunsAgree(
        ttl, StoreStep(ttl, store, now, run[0]).0, LedgerStep(ttl, ledger, now, run[0]).0,
        After(now, run[0]), run[1..]);
    }
  }

  /** In every run from the empty store, clients see exactly what the ledger says. */
  lemma StoreRefinesLedger(ttl: int, now: int, run: seq<Action>)
    ensures RunStore(ttl, map[], now, run) == RunLedger(ttl, map[], now, run)
  {
    forall t: Token ensures Get(map[], t) == Expected(ttl, map[], t) {
    }
    RunsAgree(ttl, map[], map[], now, run);
  }

  // ----- What the ledger guarantees over runs -----

  function LedgerAfter(ttl: int, ledger: Ledger, now: int, run: seq<Action>): Ledger
    decreases |run|
  {
    if run == [] then ledger
    else LedgerAfter(ttl, LedgerStep(ttl, ledger, now, run[0]).0, After(now, run[0]), run[1..])
  }

  function TimeAfter(now: int, run: seq<Action>): int
    decreases |run|
  {
    if run == [] then now else TimeAfter(After(now, run[0]), run[1..])
  }

  /** `b` continues `a`: same call and creation time, and a settled fate is final. */
  ghost predicate Continues(a: Life, b: Life) {
    && a.toolCall == b.toolCall && a.context == b.context && a.createdAt == b.createdAt
    && (!a.fate.Undecided? ==> a.fate == b.fate)
  }

  lemma StepContinues(ttl: int, ledger: Ledger, now: int, a: Action, t: Token)
    requires t in ledger && (a.Create? ==> a.token != t)
    ensures var ledger' := LedgerStep(ttl, ledger, now, a).0; t in ledger' && Continues(ledger[t], ledger'[t])
  {
  }

  /** A token leaves the undecided state at most once, and its tool call never changes. */
  lemma {:induction false} FateIsFinal(ttl: int, ledger: Ledger, now: int, run: seq<Action>, t: Token)
    requires t in ledger && forall i :: 0 <= i < |run| && run[i].Create? ==> run[i].token != t
    ensures var ledger' := LedgerAfter(ttl, ledger, now, run); t in ledger' && Continues(ledger[t], ledger'[t])
    decreases |run|
  {
    if run == [] {
    } else {
      var next := LedgerStep(ttl, ledger, now, run[0]).0;
      StepContinues(ttl, ledger, now, run[0], t);
      FateIsFinal(ttl, next, After(now, run[0]), run[1..], t);
    }
  }

  /** Whatever happened, happened no later than now; expiry is only noticed after `expires_at`. */
  ghost predicate Timely(ttl: int, ledger: Ledger, now: int) {
    forall t :: t in ledger ==>
      && ledger[t].createdAt <= now
      && (ledger[t].fate.Lapsed? ==> ExpiresAt(ledger[t].createdAt, ttl) < ledger[t].fate.noticedAt <= now)
      && (ledger[t].fate.Swept? ==> ExpiresAt(ledger[t].createdAt, ttl) < ledger[t].fate.sweptAt <= now)
  }

  lemma {:induction false} ExpiryIsNeverEarly(ttl: int, ledger: Ledger, now: int, run: seq<Action>)
    requires Timely(ttl, ledger, now)
    ensures Timely(ttl, LedgerAfter(ttl, ledger, now, run), TimeAfter(now, run))
    decreases |run|
  {
    if run == [] {
    } else {
      var next := LedgerStep(ttl, ledger, now, run[0]).0;
      assert Timely(ttl, next, After(now, run[0]));
      ExpiryIsNeverEarly(ttl, next, After(now, run[0]), run[1..]);
    }
  }

  /** The whole history of one token: its creation, then any run, then one more request. */
  lemma ReplyAfterCreation(
    ttl: int, ledger: Ledger, now: int, t: Token, call: ToolCall, ctx: Context, run: seq<Action>, who: string, note: string)
    requires forall i :: 0 <= i < |run| && run[i].Create? ==> run[i].token != t
    ensures var start := LedgerStep(ttl, ledger, now, Create(t, call, ctx)).0;
            var later, then' := LedgerAfter(ttl, start, now, run), TimeAfter(now, run);
            && t in later
            && later[t].toolCall == call && later[t].createdAt == now
            // Approval hands back the call given at creation, exactly while the token is undecided and stored.
            && (LedgerStep(ttl, later, then', Approve(t, who, note)).1.ApprovedCall?
                <==> later[t].fate.Undecided? && then' < now + StoreTtl(ttl))
            && (LedgerStep(ttl, later, then', Approve(t, who, note)).1.ApprovedCall?
                ==> LedgerStep(ttl, later, then', Approve(t, who, note)).1.toolCall == call)
            // An undecided token that nobody swept is reported expired, not missing, until the store drops it.
            && (later[t].fate.Undecided? && ExpiresAt(now, ttl) < then' < now + StoreTtl(ttl)
                ==> LedgerStep(ttl, later, then', Poll(t)).1 == Found(Expired, now, ExpiresAt(now, ttl), "", None))
  {
    var start := LedgerStep(ttl, ledger, now, Create(t, call, ctx)).0;
    FateIsFinal(ttl, start, now, run, t);
  }

  /** What settles the fate of a token created at `created`: a stored decision, or anybody looking after `expires_at`. */
  predicate Settles(ttl: int, created: int, t: Token, a: Action, now: int) {
    && now < created + StoreTtl(ttl)
    && match a
       case Approve(u, _, _) => u == t
       case Deny(u, _, _) => u == t
       case Poll(u) => u == t && ExpiresAt(created, ttl) < now
       case Cleanup => ExpiresAt(created, ttl) < now
       case _ => false
  }

  lemma StepSettlesIff(ttl: int, ledger: Ledger, now: int, a: Action, t: Token)
    requires t in ledger && ledger[t].fate.Undecided? && (a.Create? ==> a.token != t)
    ensures var ledger' := LedgerStep(ttl, ledger, now, a).0;
            && t in ledger' && ledger'[t].createdAt == ledger[t].createdAt
            && (ledger'[t].fate.Undecided? <==> !Settles(ttl, ledger[t].createdAt, t, a, now))
  {
  }

  ghost predicate SettledAt(ttl: int, created: int, t: Token, now: int, run: seq<Action>, i: nat)
    requires i < |run|
  {
    Settles(ttl, created, t, run[i], TimeAfter(now, run[..i]))
  }

  lemma SettledLater(ttl: int, created: int, t: Token, now: int, run: seq<Action>, i: nat)
    requires i + 1 < |run|
    ensures SettledAt(ttl, created, t, now, run, i + 1) == SettledAt(ttl, created, t, After(now, run[0]), run[1..], i)
  {
    assert run[..i + 1][0] == run[0] && run[..i + 1][1..] == run[1..][..i];
  }

  /** From the run alone: a token is still undecided exactly when no step of the run has settled it. */
  lemma {:induction false} StaysUndecidedIff(ttl: int, ledger: Ledger, now: int, run: seq<Action>, t: Token)
    requires t in ledger && ledger[t].fate.Undecided?
    requires forall i :: 0 <= i < |run| && run[i].Create? ==> run[i].token != t
    ensures t in LedgerAfter(ttl, ledger, now, run)
    ensures LedgerAfter(ttl, ledger, now, run)[t].fate.Undecided?
       <==> forall i :: 0 <= i < |run| ==> !SettledAt(ttl, ledger[t].createdAt, t, now, run, i)
    decreases |run|
  {
    FateIsFinal(ttl, ledger, now, run, t);
    if run == [] {
    } else {
      var created, next, later := ledger[t].createdAt, LedgerStep(ttl, ledger, now, run[0]).0, After(now, run[0]);
      StepSettlesIff(ttl, ledger, now, run[0], t);
      assert run[..0] == [] && SettledAt(ttl, created, t, now, run, 0) == Settles(ttl, created, t, run[0], now);
      assert forall i :: 0 <= i < |run| - 1 ==> run[1..][i] == run[i + 1];
      if next[t].fate.Undecided? {
        StaysUndecidedIff(ttl, next, later, run[1..], t);
        NotSettledIff(ttl, created, t, now, run);
      } else {
        FateIsFinal(ttl, next, later, run[1..], t);
      }
    }
  }

  lemma NotSettledIff(ttl: int, created: int, t: Token, now: int, run: seq<Action>)
    requires run != [] && !SettledAt(ttl, created, t, now, run, 0)
    ensures (forall i :: 0 <= i < |run| ==> !SettledAt(ttl, created, t, now, run, i))
       <==> forall i :: 0 <= i < |run| - 1 ==> !SettledAt(ttl, created, t, After(now, run[0]), run[1..], i)
  {
    forall i | 0 <= i < |run| - 1
      ensures SettledAt(ttl, created, t, now, run, i + 1) == SettledAt(ttl, created, t, After(now, run[0]), run[1..], i)
    {
      SettledLater(ttl, created, t, now, run, i);
    }
    if forall i :: 0 <= i < |run| - 1 ==> !SettledAt(ttl, created, t, After(now, run[0]), run[1..], i) {
      forall i | 0 <= i < |run| ensures !SettledAt(ttl, created, t, now, run, i) {
        if i > 0 {
          SettledLater(ttl, created, t, now, run, i - 1);
        }
      }
    }
  }

  /**
   The exact condition for an approval, on the run since creation: nothing settled the token, and the store has not
   dropped it.  That `expires_at` has passed does not matter by itself.
   */
  lemma ApprovalSucceedsIff(
    ttl: int, ledger: Ledger, now: int, t: Token, call: ToolCall, ctx: Context, run: seq<Action>, who: string, note: string)
    requires forall i :: 0 <= i < |run| && run[i].Create? ==> run[i].token != t
    ensures var start := LedgerStep(ttl, ledger, now, Create(t, call, ctx)).0;
            var reply := LedgerStep(
              ttl, LedgerAfter(ttl, start, now, run), TimeAfter(now, run), Approve(t, who, note)).1;
            reply == ApprovedCall(who, TimeAfter(now, run), note, call)
            <==> && TimeAfter(now, run) < now + StoreTtl(ttl)
                 && forall i :: 0 <= i < |run| ==> !SettledAt(ttl, now, t, now, run, i)
  {
    var start := LedgerStep(ttl, ledger, now, Create(t, call, ctx)).0;
    ReplyAfterCreation(ttl, ledger, now, t, call, ctx, run, who, note);
    StaysUndecidedIff(ttl, start, now, run, t);
  }

  // ----- What clients can observe -----

  predicate About(a: Action, t: Token) {
    (a.Poll? || a.Approve? || a.Deny?) && a.token == t
  }

  /** The status that a reply discloses. */
  function Reveals(r: Reply): Option<Status> {
    match r
    case Found(s, _, _, _, _) => Some(s)
    case Conflict(s) => Some(s)
    case ApprovedCall(_, _, _, _) => Some(Approved)
    case DeniedCall(_, _, _) => Some(Denied)
    case _ => None
  }

  predicate IsDecision(r: Reply) {
    r.ApprovedCall? || r.DeniedCall?
  }

  lemma {:induction false} ReplyAt(ttl: int, ledger: Ledger, now: int, run: seq<Action>, i: nat)
    requires i < |run|
    ensures |RunLedger(ttl, ledger, now, run)| == |run|
    ensures RunLedger(ttl, ledger, now, run)[i]
         == LedgerStep(ttl, LedgerAfter(ttl, ledger, now, run[..i]), TimeAfter(now, run[..i]), run[i]).1
    decreases |run|
  {
    var next, later := LedgerStep(ttl, ledger, now, run[0]).0, After(now, run[0]);
    if |run| > 1 {
      ReplyAt(ttl, next, later, run[1..], if i == 0 then 0 else i - 1);
    }
    if i > 0 {
      assert run[..i][1..] == run[1..][..i - 1];
    }
  }

  lemma {:induction false} AfterSplit(ttl: int, ledger: Ledger, now: int, a: seq<Action>, b: seq<Action>)
    ensures LedgerAfter(ttl, ledger, now, a + b)
         == LedgerAfter(ttl, LedgerAfter(ttl, ledger, now, a), TimeAfter(now, a), b)
    ensures TimeAfter(now, a + b) == TimeAfter(TimeAfter(now, a), b)
    decreases |a|
  {
    if a == [] {
      assert a + b == b;
    } else {
      assert (a + b)[1..] == a[1..] + b && (a + b)[0] == a[0];
      AfterSplit(ttl, LedgerStep(ttl, ledger, now, a[0]).0, After(now, a[0]), a[1..], b);
    }
  }

  lemma RevealedIsSettled(ttl: int, ledger: Ledger, now: int, a: Action, t: Token)
    requires About(a, t)
    ensures var (ledger', r) := LedgerStep(ttl, ledger, now, a);
            Reveals(r).Some? && Reveals(r).value != Pending ==>
              t in ledger' && !ledger'[t].fate.Undecided? && !ledger'[t].fate.Swept?
              && StatusOf(ledger'[t].fate) == Reveals(r).value
  {
  }

  lemma SettledIsRevealed(ttl: int, ledger: Ledger, now: int, a: Action, t: Token)
    requires About(a, t) && t in ledger && !ledger[t].fate.Undecided? && !ledger[t].fate.Swept?
    ensures var r := LedgerStep(ttl, ledger, now, a).1;
            !IsDecision(r) && (Reveals(r).Some? ==> Reveals(r).value == StatusOf(ledger[t].fate))
  {
  }

  /**
   In every run of the program: once a reply has disclosed that a token is approved, denied or expired, no
   later reply decides it again and every later reply that discloses a status discloses the same one.
   */
  lemma ObservedStatusIsFinal(ttl: int, now: int, run: seq<Action>, i: nat, j: nat, t: Token)
    requires i < j < |run| && About(run[i], t) && About(run[j], t)
    requires forall k :: i < k < j && run[k].Create? ==> run[k].token != t
    ensures |RunStore(ttl, map[], now, run)| == |run|
    ensures var first, second := RunStore(ttl, map[], now, run)[i], RunStore(ttl, map[], now, run)[j];
            Reveals(first).Some? && Reveals(first) != Some(Pending) ==>
              !IsDecision(second) && (Reveals(second).Some? ==> Reveals(second) == Reveals(first))
  {
    StoreRefinesLedger(ttl, now, run);
    ReplyAt(ttl, map[], now, run, i);
    ReplyAt(ttl, map[], now, run, j);
    var before, at := LedgerAfter(ttl, map[], now, run[..i]), TimeAfter(now, run[..i]);
    RevealedIsSettled(ttl, before, at, run[i], t);
    var next, between := LedgerStep(ttl, before, at, run[i]).0, run[i + 1..j];
    var first := LedgerStep(ttl, before, at, run[i]).1;
    if Reveals(first).Some? && Reveals(first) != Some(Pending) {
      FateIsFinal(ttl, next, After(at, run[i]), between, t);
      SplitRun(run, i, j);
      AfterSplit(ttl, map[], now, run[..i], [run[i]] + between);
      SettledIsRevealed(ttl, LedgerAfter(ttl, map[], now, run[..j]), TimeAfter(now, run[..j]), run[j], t);
    }
  }

  lemma SplitRun(run: seq<Action>, i: nat, j: nat)
    requires i < j < |run|
    ensures run[..j] == run[..i] + ([run[i]] + run[i + 1..j]) && ([run[i]] + run[i + 1..j])[1..] == run[i + 1..j]
  {
  }

  /** The store outlives the business deadline by at least an hour, so that the report above can be seen. */
  lemma StoreOutlivesExpiry(ttl: int, now: int)
    ensures ExpiresAt(now, ttl) + 3600 * SECOND <= now + StoreTtl(ttl)
  {
  }

  /**
   `expires_at` does not stop an approval: a token that nobody polled can be approved after it.  With the
   default of 300 seconds, one created at time 0 is still approved 301 seconds later.
   */
  lemma OverdueTokenCanBeApproved(t: Token, call: ToolCall, ctx: Context)
    ensures var run := [Create(t, call, ctx), Wait(301 * SECOND), Approve(t, "ops", "")];
            && ExpiresAt(0, 300) < 301 * SECOND
            && RunStore(300, map[], 0, run) == [Accepted(t), Silent, ApprovedCall("ops", 301 * SECOND, "", call)]
  {
    var run := [Create(t, call, ctx), Wait(301 * SECOND), Approve(t, "ops", "")];
    var s1 := StoreStep(300, map[], 0, run[0]).0;
    assert run[1..] == [run[1], run[2]] && run[1..][1..] == [run[2]] && [run[2]][1..] == [];
    assert RunStore(300, s1, 301 * SECOND, [run[2]]) == [StoreStep(300, s1, 301 * SECOND, run[2]).1];
  }
}
