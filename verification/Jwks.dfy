/**
 The JWKS cache behind bearer-token verification (auth/oidc.py).

 `JwksCache` holds the fields and the code between two awaits.  The state machine below interleaves any
 number of `get_key` calls at the awaits: waiting for the lock and waiting for the fetch.
 */
module Jwks {
  import opened Options

  datatype Key = Key(modulus: string, exponent: string)

  /** One member of a JWK Set; `key` is `None` when building the RSA key raises. */
  datatype RawKey = NotAnObject | Jwk(kid: Option<string>, key: Option<Key>)

  type Document = seq<RawKey>

  type Keys = map<string, Key>

  /** Members that are not objects or carry no usable key id are skipped. */
  predicate Usable(raw: RawKey) {
    raw.Jwk? && raw.kid.Some? && raw.kid.value != ""
  }

  /** The whole document, or `None` when some usable member is not a valid RSA key. */
  function Parse(doc: Document): Option<Keys> {
    if doc == [] then Some(map[])
    else
      var front, raw := Parse(doc[..|doc| - 1]), doc[|doc| - 1];
      if front.None? || !Usable(raw) then front
      else if raw.key.None? then None
      else Some(front.value[raw.kid.value := raw.key.value])
  }

  class JwksCache {
    const ttl: int
    var keys: Keys
    var expiresAt: int

    constructor (ttl: int)
      ensures this.ttl == ttl && keys == map[] && expiresAt == 0
    {
      this.ttl := ttl;
      keys, expiresAt := map[], 0;
    }

    /** The test made before and after taking the lock. */
    method Lookup(kid: string, now: int) returns (key: Option<Key>)
      ensures key == (if Fresh(keys, expiresAt, now) then Get(keys, kid) else None)
    {
      if |keys| > 0 && now < expiresAt && kid in keys {
        return Some(keys[kid]);
      }
      key := None;
    }

    /** The rest of `refresh` once the document has arrived; nothing changes when it raises. */
    method Load(doc: Document, now: int) returns (ok: bool)
      modifies this
      ensures ok <==> Parse(doc).Some?
      ensures ok ==> keys == Parse(doc).value && expiresAt == now + ttl
      ensures !ok ==> keys == old(keys) && expiresAt == old(expiresAt)
    {
      var fetched: Keys := map[];
      for i := 0 to |doc|
        invariant Parse(doc[..i]) == Some(fetched)
      {
        assert doc[..i + 1][..i] == doc[..i];
        var raw := doc[i];
        if !Usable(raw) {
          continue;
        }
        if raw.key.None? {
          FailureStays(doc, i + 1);
          return false;
        }
        fetched := fetched[raw.kid.value := raw.key.value];
      }
      assert doc[..|doc|] == doc;
      keys := fetched;
      expiresAt := now + ttl;
      ok := true;
    }
  }

  lemma {:induction false} FailureStays(doc: Document, i: nat)
    requires i <= |doc| && Parse(doc[..i]).None?
    ensures Parse(doc).None?
  {
    if i == |doc| {
      assert doc[..i] == doc;
    } else {
      assert doc[..|doc| - 1][..i] == doc[..i];
      FailureStays(doc[..|doc| - 1], i);
    }
  }

  /** A loaded document holds exactly its usable key ids, each with the last key listed under it. */
  lemma {:induction false} ParseMeans(doc: Document, kid: string)
    ensures Parse(doc).None? <==> exists i :: 0 <= i < |doc| && Usable(doc[i]) && doc[i].key.None?
    ensures Parse(doc).Some? ==>
              (kid in Parse(doc).value <==> exists i :: 0 <= i < |doc| && LastNamed(doc, kid, i))
    ensures Parse(doc).Some? ==>
              forall i :: 0 <= i < |doc| && LastNamed(doc, kid, i) && doc[i].key.Some? ==>
                Get(Parse(doc).value, kid) == doc[i].key
  {
    if doc == [] {
    } else {
      var front, n := doc[..|doc| - 1], |doc| - 1;
      ParseMeans(front, kid);
      forall i | 0 <= i < n
        ensures LastNamed(doc, kid, i) <==> LastNamed(front, kid, i) && !Names(doc[n], kid)
        ensures front[i] == doc[i]
      {
        assert forall j :: i < j < n ==> front[j] == doc[j];
      }
      assert LastNamed(doc, kid, n) <==> Names(doc[n], kid);
    }
  }

  predicate Names(raw: RawKey, kid: string) {
    Usable(raw) && raw.kid == Some(kid)
  }

  ghost predicate LastNamed(doc: Document, kid: string, i: nat)
    requires i < |doc|
  {
    Names(doc[i], kid) && forall j :: i < j < |doc| ==> !Names(doc[j], kid)
  }

  /** A member of the document that is an object with that key id. */
  predicate HasId(raw: RawKey, kid: string) {
    match raw
    case NotAnObject => false
    case Jwk(id, _) => id == Some(kid)
  }

  /** The last member listed under a key id. */
  ghost predicate ListedLast(doc: Document, kid: string, i: nat)
    requires i < |doc|
  {
    HasId(doc[i], kid) && forall j :: i < j < |doc| ==> !HasId(doc[j], kid)
  }

  lemma UsableIff(raw: RawKey)
    ensures Usable(raw) <==> exists kid :: kid != "" && HasId(raw, kid)
    ensures forall kid :: Names(raw, kid) <==> kid != "" && HasId(raw, kid)
  {
    if Usable(raw) {
      assert HasId(raw, raw.kid.value);
    }
  }

  /**
   What parsing makes of a document, member by member: it fails exactly if some object with a non-empty key id has no
   valid key, and otherwise finds for a key id, which must not be empty, the key of the last object listed under it.
   */
  lemma DocumentMeans(doc: Document, kid: string)
    ensures Parse(doc).None? <==>
            exists i, id :: 0 <= i < |doc| && id != "" && HasId(doc[i], id) && doc[i].key == None
    ensures Parse(doc).Some? ==>
              (kid in Parse(doc).value <==> kid != "" && exists i :: 0 <= i < |doc| && ListedLast(doc, kid, i))
    ensures Parse(doc).Some? ==>
              forall i :: 0 <= i < |doc| && kid != "" && ListedLast(doc, kid, i) ==> Get(Parse(doc).value, kid) == doc[i].key
  {
    ParseMeans(doc, kid);
    forall i | 0 <= i < |doc|
      ensures Usable(doc[i]) <==> exists id :: id != "" && HasId(doc[i], id)
      ensures kid != "" ==> (LastNamed(doc, kid, i) <==> ListedLast(doc, kid, i))
      ensures kid == "" ==> !LastNamed(doc, kid, i)
    {
      UsableIff(doc[i]);
      forall j | i < j < |doc| ensures Names(doc[j], kid) <==> kid != "" && HasId(doc[j], kid) {
        UsableIff(doc[j]);
      }
    }
    if i :| 0 <= i < |doc| && Usable(doc[i]) && doc[i].key.None? {
      assert HasId(doc[i], doc[i].kid.value);
    }
  }

  predicate Fresh(keys: Keys, expiresAt: int, now: int) {
    |keys| > 0 && now < expiresAt
  }

  // ----- Interleaved callers -----

  type Task = nat

  datatype Pc =
    | Waiting(kid: string)
    | Fetching(kid: string)
    | Returned(kid: string, key: Key)
    | Failed

  /** The refresh that filled the cache. */
  datatype Refresh = Refresh(doc: Document, at: int, owner: Task)

  /** A key handed to a caller, with the refresh it came from. */
  datatype Handout = Handout(task: Task, kid: string, key: Key, at: int, from: Refresh)

  datatype State = State(
    keys: Keys,
    expiresAt: int,
    lock: Option<Task>,
    tasks: map<Task, Pc>,
    now: int,
    last: Option<Refresh>,
    handouts: seq<Handout>)

  datatype Event =
    | Call(task: Task, kid: string)
    | Acquire(task: Task)
    | Arrive(task: Task, doc: Document)
    | FetchFails(task: Task)
    | Cancel(task: Task)
    | Tick(delay: nat)

  const START := State(map[], 0, None, map[], 0, None, [])

  predicate Enabled(s: State, e: Event) {
    match e
    case Call(t, _) => t !in s.tasks
    case Acquire(t) => t in s.tasks && s.tasks[t].Waiting? && s.lock.None?
    case Arrive(t, _) => t in s.tasks && s.tasks[t].Fetching?
    case FetchFails(t) => t in s.tasks && s.tasks[t].Fetching?
    case Cancel(t) => t in s.tasks && s.tasks[t].Waiting?
    case Tick(_) => true
  }

  predicate Hit(s: State, kid: string) {
    Fresh(s.keys, s.expiresAt, s.now) && kid in s.keys
  }

  function Return(s: State, t: Task, kid: string): State
    requires kid in s.keys && s.last.Some?
  {
    s.(tasks := s.tasks[t := Returned(kid, s.keys[kid])],
       handouts := s.handouts + [Handout(t, kid, s.keys[kid], s.now, s.last.value)])
  }

  function Step(ttl: int, s: State, e: Event): State
    requires Consistent(ttl, s) && Enabled(s, e)
  {
    match e
    case Call(t, kid) =>
      if kid == "" then s.(tasks := s.tasks[t := Failed])
      else if Hit(s, kid) then Return(s, t, kid)
      else s.(tasks := s.tasks[t := Waiting(kid)])
    case Acquire(t) =>
      var kid := s.tasks[t].kid;
      if Hit(s, kid) then Return(s, t, kid)
      else s.(tasks := s.tasks[t := Fetching(kid)], lock := Some(t))
    case Arrive(t, doc) =>
      var kid, parsed := s.tasks[t].kid, Parse(doc);
      if parsed.None? then s.(tasks := s.tasks[t := Failed], lock := None)
      else
        var s' := s.(keys := parsed.value, expiresAt := s.now + ttl, lock := None, last := Some(Refresh(doc, s.now, t)));
        if kid in s'.keys then Return(s', t, kid) else s'.(tasks := s.tasks[t := Failed])
    case FetchFails(t) => s.(tasks := s.tasks[t := Failed], lock := None)
    case Cancel(t) => s.(tasks := s.tasks[t := Failed])
    case Tick(d) => s.(now := s.now + d)
  }

  // ----- The invariant -----

  /** The cache is empty or holds exactly one whole document. */
  ghost predicate Consistent(ttl: int, s: State) {
    match s.last
    case None => s.keys == map[] && s.expiresAt == 0
    case Some(r) => Parse(r.doc) == Some(s.keys) && s.expiresAt == r.at + ttl && r.at <= s.now
  }

  /** A caller is fetching exactly when it holds the lock, so at most one fetch is in flight. */
  ghost predicate OneFetch(s: State) {
    forall t :: t in s.tasks && s.tasks[t].Fetching? <==> s.lock == Some(t)
  }

  /** Each key came from an unexpired document or from the caller's own refresh, finished at that moment. */
  ghost predicate Justified(ttl: int, h: Handout) {
    && Parse(h.from.doc).Some? && Get(Parse(h.from.doc).value, h.kid) == Some(h.key)
    && h.from.at <= h.at
    && (h.at < h.from.at + ttl || (h.from.owner == h.task && h.from.at == h.at))
  }

  ghost predicate Inv(ttl: int, s: State) {
    Consistent(ttl, s) && OneFetch(s) && forall i :: 0 <= i < |s.handouts| ==> Justified(ttl, s.handouts[i])
  }

  lemma StepKeepsInv(ttl: int, s: State, e: Event)
    requires Inv(ttl, s) && Enabled(s, e)
    ensures Inv(ttl, Step(ttl, s, e))
  {
  }

  /** A run is a list of events each of which is possible where it happens. */
  ghost predicate Possible(ttl: int, s: State, run: seq<Event>)
    requires Inv(ttl, s)
    decreases |run|
  {
    run == [] || (Enabled(s, run[0]) && (StepKeepsInv(ttl, s, run[0]); Possible(ttl, Step(ttl, s, run[0]), run[1..])))
  }

  ghost function After(ttl: int, s: State, run: seq<Event>): (s': State)
    requires Inv(ttl, s) && Possible(ttl, s, run)
    ensures Inv(ttl, s')
    decreases |run|
  {
    if run == [] then s
    else
      StepKeepsInv(ttl, s, run[0]);
      After(ttl, Step(ttl, s, run[0]), run[1..])
  }

  /** In every reachable state: one fetch at most, one whole document at most, every handed-out key justified. */
  lemma EveryRunIsSafe(ttl: int, run: seq<Event>, a: Task, b: Task)
    requires Possible(ttl, START, run)
    ensures var s := After(ttl, START, run);
            && (a in s.tasks && s.tasks[a].Fetching? && b in s.tasks && s.tasks[b].Fetching? ==> a == b)
            && (s.keys == map[] || (s.last.Some? && Parse(s.last.value.doc) == Some(s.keys)))
            && forall i :: 0 <= i < |s.handouts| ==> Justified(ttl, s.handouts[i])
  {
    var s := After(ttl, START, run);
    assert OneFetch(s);
  }

  /** A fetch begins only for a key id that no fresh document in the cache answers. */
  lemma FetchNeedsAMiss(ttl: int, s: State, e: Event, t: Task)
    requires Inv(ttl, s) && Enabled(s, e)
    requires var s' := Step(ttl, s, e); t in s'.tasks && s'.tasks[t].Fetching?
    requires !(t in s.tasks && s.tasks[t].Fetching?)
    ensures e == Acquire(t) && s.lock.None?
    ensures !(Fresh(s.keys, s.expiresAt, s.now) && Step(ttl, s, e).tasks[t].kid in s.keys)
  {
  }

  // ----- Waiting callers share one fetch -----

  predicate AsksFor(s: State, t: Task, kid: string) {
    t in s.tasks && s.tasks[t] == Fetching(kid)
  }

  /** Every document that arrives during the run and can be parsed lists `kid`. */
  ghost predicate KeepsListing(kid: string, run: seq<Event>) {
    forall i :: 0 <= i < |run| && run[i].Arrive? && Parse(run[i].doc).Some? ==> kid in Parse(run[i].doc).value
  }

  function Elapsed(run: seq<Event>): nat {
    if run == [] then 0 else (if run[0].Tick? then run[0].delay else 0) + Elapsed(run[1..])
  }

  /**
   Once a fresh document lists `kid`, callers that were waiting for `kid` return without a fetch of their own
   for as long as no document without `kid` arrives and the remaining lifetime has not elapsed.
   */
  lemma {:induction false} WaitersShareTheFetch(ttl: int, s: State, run: seq<Event>, kid: string, t: Task)
    requires ttl > 0 && Inv(ttl, s) && Possible(ttl, s, run)
    requires Hit(s, kid) && !AsksFor(s, t, kid)
    requires KeepsListing(kid, run) && s.now + Elapsed(run) < s.expiresAt
    ensures !AsksFor(After(ttl, s, run), t, kid)
    ensures Hit(After(ttl, s, run), kid) && After(ttl, s, run).now == s.now + Elapsed(run)
    decreases |run|
  {
    if run == [] {
    } else {
      StepKeepsInv(ttl, s, run[0]);
      var s' := Step(ttl, s, run[0]);
      assert Hit(s', kid);
      assert forall i :: 0 <= i < |run[1..]| ==> run[1..][i] == run[i + 1];
      WaitersShareTheFetch(ttl, s', run[1..], kid, t);
    }
  }

  // ----- What each caller gets -----

  /** The document that was loaded last has not expired. */
  predicate Unexpired(ttl: int, s: State) {
    s.last.Some? && s.now < s.last.value.at + ttl
  }

  /** `key` is what `doc` lists for `kid`; an empty key id is never listed. */
  ghost predicate Lists(doc: Document, kid: string, key: Key) {
    kid != "" && exists i :: 0 <= i < |doc| && ListedLast(doc, kid, i) && doc[i].key == Some(key)
  }

  lemma ListsIff(doc: Document, kid: string, key: Key)
    requires Parse(doc).Some?
    ensures Get(Parse(doc).value, kid) == Some(key) <==> Lists(doc, kid, key)
  {
    DocumentMeans(doc, kid);
    ParseMeans(doc, kid);
    if Get(Parse(doc).value, kid) == Some(key) {
      var i :| 0 <= i < |doc| && ListedLast(doc, kid, i);
      assert doc[i].key == Some(key);
    }
  }

  lemma HitIff(ttl: int, s: State, kid: string)
    requires Consistent(ttl, s)
    ensures Hit(s, kid) <==> Unexpired(ttl, s) && exists key :: Lists(s.last.value.doc, kid, key)
    ensures Hit(s, kid) ==> Lists(s.last.value.doc, kid, s.keys[kid])
    ensures Unexpired(ttl, s) ==> forall key :: Lists(s.last.value.doc, kid, key) ==> Get(s.keys, kid) == Some(key)
  {
    if s.last.Some? {
      forall key ensures Get(s.keys, kid) == Some(key) <==> Lists(s.last.value.doc, kid, key) {
        ListsIff(s.last.value.doc, kid, key);
      }
      if Hit(s, kid) {
        assert Get(s.keys, kid) == Some(s.keys[kid]);
      }
      if key :| Lists(s.last.value.doc, kid, key) {
        assert Get(s.keys, kid) == Some(key);
      }
    }
  }

  /**
   A call, and a caller that gets the lock, is answered at once exactly if the last document has not expired and lists
   the key id, and then with the key listed last; an empty key id is refused.
   */
  lemma AnsweredFromTheCacheIff(ttl: int, s: State, e: Event, t: Task, kid: string, key: Key)
    requires Inv(ttl, s) && Enabled(s, e)
    requires e == Call(t, kid) || (e == Acquire(t) && s.tasks[t] == Waiting(kid))
    ensures Step(ttl, s, e).tasks[t] == Returned(kid, key) <==> Unexpired(ttl, s) && Lists(s.last.value.doc, kid, key)
    ensures e.Call? ==> (Step(ttl, s, e).tasks[t].Failed? <==> kid == "")
    ensures e.Acquire? ==> !Step(ttl, s, e).tasks[t].Failed?
  {
    HitIff(ttl, s, kid);
  }

  /**
   When the caller's document arrives, it gets the key that this document lists for its key id, however short the time
   to live is; it fails exactly if the document is invalid or does not list the key id.
   */
  lemma AnsweredByItsFetchIff(ttl: int, s: State, t: Task, kid: string, doc: Document, key: Key)
    requires Inv(ttl, s) && t in s.tasks && s.tasks[t] == Fetching(kid)
    ensures var s' := Step(ttl, s, Arrive(t, doc));
            && (s'.tasks[t] == Returned(kid, key) <==> Parse(doc).Some? && Lists(doc, kid, key))
            && (s'.tasks[t].Failed? <==> Parse(doc).None? || forall k :: !Lists(doc, kid, k))
            && (Parse(doc).Some? ==> s'.last == Some(Refresh(doc, s.now, t))) && (Parse(doc).None? ==> s'.last == s.last)
            && s'.lock == None
  {
    if Parse(doc).Some? {
      forall k ensures Get(Parse(doc).value, kid) == Some(k) <==> Lists(doc, kid, k) {
        ListsIff(doc, kid, k);
      }
    }
  }

  /** Every key that a caller got is on record. */
  ghost predicate Recorded(s: State) {
    forall t :: t in s.tasks && s.tasks[t].Returned? ==> HasHandout(s, t)
  }

  ghost predicate HasHandout(s: State, t: Task)
    requires t in s.tasks && s.tasks[t].Returned?
  {
    exists h :: h in s.handouts && h.task == t && h.kid == s.tasks[t].kid && h.key == s.tasks[t].key
  }

  lemma StepKeepsRecords(ttl: int, s: State, e: Event)
    requires Inv(ttl, s) && Enabled(s, e) && Recorded(s)
    ensures Recorded(Step(ttl, s, e))
  {
    var s' := Step(ttl, s, e);
    forall t | t in s'.tasks && s'.tasks[t].Returned? ensures HasHandout(s', t) {
      if t in s.tasks && s.tasks[t] == s'.tasks[t] {
        var h :| h in s.handouts && h.task == t && h.kid == s.tasks[t].kid && h.key == s.tasks[t].key;
        assert h in s'.handouts;
      } else {
        assert s'.handouts[|s'.handouts| - 1] in s'.handouts;
      }
    }
  }

  lemma {:induction false} RunKeepsRecords(ttl: int, s: State, run: seq<Event>)
    requires Inv(ttl, s) && Possible(ttl, s, run) && Recorded(s)
    ensures Recorded(After(ttl, s, run))
    decreases |run|
  {
    if run != [] {
      StepKeepsInv(ttl, s, run[0]);
      StepKeepsRecords(ttl, s, run[0]);
      RunKeepsRecords(ttl, Step(ttl, s, run[0]), run[1..]);
    }
  }

  /** In every run: whatever key a caller has got, an unexpired document or its own fetch listed it for its key id. */
  lemma EveryAnswerIsJustified(ttl: int, run: seq<Event>, t: Task)
    requires Possible(ttl, START, run)
    requires var s := After(ttl, START, run); t in s.tasks && s.tasks[t].Returned?
    ensures var s := After(ttl, START, run);
            exists h :: h in s.handouts && h.task == t && h.kid == s.tasks[t].kid && h.key == s.tasks[t].key
                        && Justified(ttl, h) && Lists(h.from.doc, h.kid, h.key)
  {
    var s := After(ttl, START, run);
    RunKeepsRecords(ttl, START, run);
    assert HasHandout(s, t);
    var h :| h in s.handouts && h.task == t && h.kid == s.tasks[t].kid && h.key == s.tasks[t].key;
    assert Justified(ttl, h);
    ListsIff(h.from.doc, h.kid, h.key);
  }
}
