/** `Cache`: per-key memoisation of computed values with at most one
    computation in flight per key. The asynchronous protocol of `getAsync` is
    an explicit state machine: `BeginGet` is the call up to the `await`,
    `Settle` is what happens once the awaited computation has settled: with
    a value, with nothing when it was cancelled, or with an error it threw. */
module Caches {
  import opened Wrappers

  /** An in-flight computation: `id` tells computations apart (the promise's
      identity), `cancelled` is the state of its cancellation token. */
  datatype Pending = Pending(id: nat, cancelled: bool)

  /** `data` holds the defined values (a key set to `undefined` is absent).
      `pending` keeps every key ever given a computation: once released the
      slot is set to `undefined` (None) but the key stays enumerable. */
  datatype Cache<K, V> = Cache(data: map<K, V>, pending: map<K, Option<Pending>>, nextId: nat)

  function NewCache<K, V>(): Cache<K, V> {
    Cache(map[], map[], 0)
  }

  /** `getCached`. */
  function GetCached<K, V>(c: Cache<K, V>, k: K): Option<V> {
    if k in c.data then Some(c.data[k]) else None
  }

  /** The outcome of the synchronous `get`: the new state, the value returned
      and whether `getFunc` was called. */
  datatype GetOutcome<K, V> = GetOutcome(cache: Cache<K, V>, value: V, computed: bool)

  /** `get`: a cached value is returned without calling `getFunc`; otherwise
      `getFunc` is called (its result is `made`) and stored. Either way the
      key then holds the value returned, and nothing else changes. */
  function Get<K, V>(c: Cache<K, V>, k: K, made: V): (r: GetOutcome<K, V>)
    ensures r.computed <==> GetCached(c, k).None?
    ensures GetCached(c, k).Some? ==> r.value == GetCached(c, k).value
    ensures r.computed ==> r.value == made
    ensures GetCached(r.cache, k) == Some(r.value)
    ensures r.cache.data - {k} == c.data - {k}
    ensures r.cache.pending == c.pending && r.cache.nextId == c.nextId
  {
    match GetCached(c, k)
    case Some(v) => GetOutcome(c, v, false)
    case None => GetOutcome(c.(data := c.data[k := made]), made, true)
  }

  /** How a `getAsync` call proceeds past its first half: with the cached
      value, or awaiting a computation it either created or joined. */
  datatype Begin<V> = Hit(value: V) | Await(pending: Pending, created: bool)

  /** `getAsync` up to the `await`: a cached value is returned at once; an
      existing computation is joined; otherwise a new one is started with a
      fresh token and recorded for the key. */
  function BeginGet<K, V>(c: Cache<K, V>, k: K): (r: (Cache<K, V>, Begin<V>))
  {
    match GetCached(c, k)
    case Some(v) => (c, Hit(v))
    case None =>
      if k in c.pending && c.pending[k].Some? then (c, Await(c.pending[k].value, false))
      else
        var p := Pending(c.nextId, false);
        (c.(pending := c.pending[k := Some(p)], nextId := c.nextId + 1), Await(p, true))
  }

  /** How a `getAsync` call ends: with the stored value, by calling itself
      again because the computation produced nothing, or by rethrowing the
      computation's error. */
  datatype Settled<V> = Stored(value: V) | Retry | Thrown(error: string)

  /** `getAsync` after the `await`: the creator releases the key's slot
      whatever the result (the `finally` block); a defined result is stored
      and returned, an undefined one is not stored and the call starts over,
      and a rejected computation stores nothing and its error reaches the
      creator and every joiner. */
  function Settle<K, V>(c: Cache<K, V>, k: K, created: bool, result: Result<Option<V>>): (r: (Cache<K, V>, Settled<V>))
  {
    var released := if created then c.(pending := c.pending[k := None]) else c;
    match result
    case Failure(e) => (released, Thrown(e))
    case Success(None) => (released, Retry)
    case Success(Some(v)) => (released.(data := released.data[k := v]), Stored(v))
  }

  /** `delete`: the value is unset and the key's computation, if any, has its
      token cancelled. */
  function Delete<K, V>(c: Cache<K, V>, k: K): (r: Cache<K, V>)
  {
    var pending :=
      if k in c.pending && c.pending[k].Some? then c.pending[k := Some(c.pending[k].value.(cancelled := true))]
      else c.pending;
    Cache(c.data - {k}, pending, c.nextId)
  }

  /** A slot after `delete`: a computation has its token cancelled. */
  function Cancelled(slot: Option<Pending>): Option<Pending> {
    match slot
    case None => None
    case Some(p) => Some(p.(cancelled := true))
  }

  /** What `clear` leaves: no value for any key of `pending`, every
      computation cancelled, the keys of `pending` kept. */
  function Cleared<K, V>(c: Cache<K, V>): Cache<K, V> {
    Cache(c.data - c.pending.Keys, map k | k in c.pending :: Cancelled(c.pending[k]), c.nextId)
  }

  /** `clear`: `delete` for every key of `pending`, released slots included,
      one key at a time. */
  method Clear<K, V>(c: Cache<K, V>) returns (r: Cache<K, V>)
    ensures r.data == c.data - c.pending.Keys
    ensures r.pending.Keys == c.pending.Keys
    ensures forall k :: k in c.pending ==> r.pending[k] == Cancelled(c.pending[k])
    ensures r == Cleared(c)
  {
    r := c;
    var todo := c.pending.Keys;
    while todo != {}
      invariant todo <= c.pending.Keys
      invariant r.data == c.data - (c.pending.Keys - todo)
      invariant r.pending.Keys == c.pending.Keys
      invariant forall k :: k in todo ==> r.pending[k] == c.pending[k]
      invariant forall k :: k in c.pending && k !in todo ==> r.pending[k] == Cancelled(c.pending[k])
      invariant r.nextId == c.nextId
      decreases todo
    {
      var k :| k in todo;
      r := Delete(r, k);
      todo := todo - {k};
    }
  }

  // ---------------------------------------------------------------------------
  // Properties

  /** Once a computation has stored its value, the next `getAsync` for the
      key returns that value at once, starting and joining nothing. */
  lemma {:induction false} CachedHit<K, V>(c: Cache<K, V>, k: K, created: bool, v: V)
    ensures var (c1, s) := Settle(c, k, created, Success(Some(v)));
            && s == Stored(v)
            && BeginGet(c1, k) == (c1, Hit(v))
  {
  }

  /** A second `get` for a key returns the value of the first without
      calling `getFunc` again and changes nothing. */
  lemma {:induction false} GetTwice<K, V>(c: Cache<K, V>, k: K, made: V, made': V)
    ensures var r := Get(c, k, made);
            var r' := Get(r.cache, k, made');
            && !r'.computed && r'.value == r.value && r'.cache == r.cache
  {
  }

  /** Coalescing: a second call for a key that is neither cached nor
      released joins the computation the first call started, so one
      computation serves both and the id counter moves once. */
  lemma {:induction false} SecondCallJoins<K, V>(c: Cache<K, V>, k: K)
    requires GetCached(c, k).None?
    ensures var (c1, b1) := BeginGet(c, k);
            var (c2, b2) := BeginGet(c1, k);
            && b1.Await? && b2.Await?
            && b2.pending == b1.pending
            && (b1.created <==> !(k in c.pending && c.pending[k].Some?))
            && !b2.created && c2 == c1
            && c1.nextId <= c.nextId + 1
  {
  }

  /** At most one computation per key: starting one happens only when the
      key has none, and afterwards the key holds exactly the new one, with an
      id not used before. */
  lemma {:induction false} StartOnlyWhenIdle<K, V>(c: Cache<K, V>, k: K)
    ensures var (c1, b) := BeginGet(c, k);
            b.Await? && b.created ==>
              && !(k in c.pending && c.pending[k].Some?)
              && c1.pending == c.pending[k := Some(b.pending)]
              && b.pending == Pending(c.nextId, false)
              && c1.data == c.data
  {
  }

  /** The creator releases the slot once the computation has settled, with a
      value, without one or with an error; a joiner leaves the slot alone. */
  lemma {:induction false} CreatorReleases<K, V>(c: Cache<K, V>, k: K, created: bool, result: Result<Option<V>>)
    ensures var (c1, _) := Settle(c, k, created, result);
            && (created ==> k in c1.pending && c1.pending[k].None?)
            && (!created ==> c1.pending == c.pending)
            && c1.pending.Keys == c.pending.Keys + (if created then {k} else {})
  {
  }

  /** An undefined (cancelled) result is never stored: the value map does not
      change and the call retries; a rejected computation stores nothing and
      its error is rethrown; a defined result is stored for that key only. */
  lemma {:induction false} UndefinedNeverStored<K, V>(c: Cache<K, V>, k: K, created: bool, result: Result<Option<V>>)
    ensures var (c1, s) := Settle(c, k, created, result);
            && (result == Success(None) ==> s == Retry && c1.data == c.data)
            && (result.Failure? ==> s == Thrown(result.error) && c1.data == c.data)
            && (result.Success? && result.value.Some? ==>
                  && s == Stored(result.value.value) && GetCached(c1, k) == result.value
                  && forall j :: j != k ==> GetCached(c1, j) == GetCached(c, j))
  {
  }

  /** `delete` unsets the key and cancels its computation; every other key's
      value and computation are left as they were. */
  lemma {:induction false} DeleteOnlyThatKey<K, V>(c: Cache<K, V>, k: K)
    ensures var c1 := Delete(c, k);
            && GetCached(c1, k).None?
            && (k in c.pending ==> k in c1.pending && c1.pending[k] == Cancelled(c.pending[k]))
            && c1.pending.Keys == c.pending.Keys
            && (forall j :: j != k ==> GetCached(c1, j) == GetCached(c, j))
            && (forall j :: j != k && j in c.pending ==> c1.pending[j] == c.pending[j])
  {
  }

  /** Every key with a value has had a computation: its key is in
      `pending`. `getAsync` keeps this, so `clear` then evicts every value. */
  predicate Tracked<K, V>(c: Cache<K, V>) {
    c.data.Keys <= c.pending.Keys
  }

  lemma {:induction false} BeginKeepsTracked<K, V>(c: Cache<K, V>, k: K)
    requires Tracked(c)
    ensures Tracked(BeginGet(c, k).0)
    ensures BeginGet(c, k).1.Await? ==> k in BeginGet(c, k).0.pending
  {
  }

  /** A call settles only for a key that its first half left in `pending`. */
  lemma {:induction false} SettleKeepsTracked<K, V>(c: Cache<K, V>, k: K, created: bool, result: Result<Option<V>>)
    requires Tracked(c) && k in c.pending
    ensures Tracked(Settle(c, k, created, result).0)
  {
  }

  lemma {:induction false} DeleteKeepsTracked<K, V>(c: Cache<K, V>, k: K)
    requires Tracked(c)
    ensures Tracked(Delete(c, k))
  {
  }

  /** One step of the cache's life: a `getAsync` reaching its `await`, one
      settling with the computation's result, a `delete` or a `clear`. */
  datatype Event<K, V> = BeginCall(key: K) | SettleCall(key: K, created: bool, result: Result<Option<V>>) | DeleteKey(key: K) | ClearAll

  function Step<K, V>(c: Cache<K, V>, e: Event<K, V>): Cache<K, V> {
    match e
    case BeginCall(k) => BeginGet(c, k).0
    case SettleCall(k, created, result) => Settle(c, k, created, result).0
    case DeleteKey(k) => Delete(c, k)
    case ClearAll => Cleared(c)
  }

  function Run<K, V>(c: Cache<K, V>, es: seq<Event<K, V>>): Cache<K, V>
    decreases |es|
  {
    if |es| == 0 then c else Run(Step(c, es[0]), es[1..])
  }

  /** Every call settles for a key its first half registered in `pending`
      (keys never leave `pending`, so it is still there). */
  predicate SettlesRegistered<K, V>(c: Cache<K, V>, es: seq<Event<K, V>>)
    decreases |es|
  {
    |es| == 0 ||
    ((es[0].SettleCall? ==> es[0].key in c.pending) && SettlesRegistered(Step(c, es[0]), es[1..]))
  }

  /** Keys are never removed from `pending`. */
  lemma {:induction false} StepKeepsKeys<K, V>(c: Cache<K, V>, e: Event<K, V>)
    ensures c.pending.Keys <= Step(c, e).pending.Keys
  {
  }

  /** A run of `getAsync`, `delete` and `clear` calls keeps every stored key
      in `pending`. */
  lemma {:induction false} RunKeepsTracked<K, V>(c: Cache<K, V>, es: seq<Event<K, V>>)
    requires Tracked(c) && SettlesRegistered(c, es)
    ensures Tracked(Run(c, es))
    decreases |es|
  {
    if |es| > 0 {
      match es[0] {
        case BeginCall(k) => BeginKeepsTracked(c, k);
        case SettleCall(k, created, result) => SettleKeepsTracked(c, k, created, result);
        case DeleteKey(k) => DeleteKeepsTracked(c, k);
        case ClearAll =>
      }
      RunKeepsTracked(Step(c, es[0]), es[1..]);
    }
  }

  /** With values stored only by `getAsync`, `clear` evicts all of them. */
  lemma {:induction false} ClearEvictsAll<K, V>(es: seq<Event<K, V>>)
    requires SettlesRegistered(NewCache(), es)
    ensures var r := Cleared(Run(NewCache(), es));
            r.data == map[] && forall k :: k in r.pending ==> r.pending[k].None? || r.pending[k].value.cancelled
  {
    RunKeepsTracked(NewCache(), es);
    var r := Cleared(Run(NewCache(), es));
    assert r.data.Keys == {};
  }

  /** Clearing a second time changes nothing more. */
  lemma {:induction false} ClearIdempotent<K, V>(c: Cache<K, V>)
    ensures Cleared(Cleared(c)) == Cleared(c)
  {
    var once := Cleared(c);
    var twice := Cleared(once);
    assert twice.data == once.data;
    assert twice.pending.Keys == once.pending.Keys;
  }

  /** While every value is tracked by a slot, clearing leaves nothing
      cached. */
  lemma {:induction false} ClearedForgets<K, V>(c: Cache<K, V>, k: K)
    requires Tracked(c)
    ensures GetCached(Cleared(c), k).None?
  {
  }

  /** The synchronous `get` stores a value without touching `pending`, so a
      key that never had a computation keeps the value `get` returned
      through `clear`. */
  method GetThenClear<K, V>(c: Cache<K, V>, k: K, made: V) returns (r: Cache<K, V>, value: V)
    requires k !in c.pending
    ensures value == Get(c, k, made).value
    ensures GetCached(r, k) == Some(value)
  {
    var g := Get(c, k, made);
    value := g.value;
    r := Clear(g.cache);
  }
}
