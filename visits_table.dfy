/**
 * `ensureVisitsTable`: the one-shot initialiser of the `visits` table. The
 * server keeps two module-level variables, `visitsReady` and
 * `visitsInitError`; the first successful schema query latches the table as
 * ready and the first failed one latches its error, after which no query is
 * issued again. The schema query itself is I/O: its outcome is an input.
 */
module VisitsTable {
  import opened Wrappers

  /** What the schema query does: succeed, or throw an error whose string
      form is `error`. */
  datatype QueryOutcome = Succeeded | Failed(error: string)

  /** `{ ok: true }` or `{ ok: false, reason }`. */
  datatype InitResult = Ok | NotOk(reason: string)

  const NoDatabaseUrl: string := "no DATABASE_URL"

  /** JavaScript truthiness of `visitsInitError`: `null` and "" are falsy. */
  predicate Truthy(error: Option<string>) {
    error.Some? && error.value != ""
  }

  /** The latch's state: `visitsReady`, `visitsInitError` and how many
      schema queries have been issued. */
  datatype LatchState = LatchState(ready: bool, initError: Option<string>, queries: nat)

  /** The server never holds the table ready together with a cached
      error. (An error whose string form is empty is not a cached error,
      because the latch tests it for truthiness.) */
  predicate ValidState(s: LatchState) {
    !(s.ready && Truthy(s.initError))
  }

  /** One call of `ensureVisitsTable()` on the state `before`, with
      `outcome` saying what the schema query does if it is issued: the new
      state and the answer. A query is issued exactly when there is a pool,
      the table is not ready and no error is cached; readiness and a cached
      error are both sticky; an ok answer means the table is ready, and a
      failing answer with a pool is the cached error. */
  function AfterEnsure(poolConfigured: bool, before: LatchState, outcome: QueryOutcome): (after: (LatchState, InitResult))
    ensures !poolConfigured ==> after == (before, NotOk(NoDatabaseUrl))
    ensures after.0.queries == before.queries + 1 <==>
              poolConfigured && !before.ready && !Truthy(before.initError)
    ensures after.0.queries == before.queries || after.0.queries == before.queries + 1
    ensures before.ready || Truthy(before.initError) ==> after.0 == before
    ensures poolConfigured && after.1 == Ok ==> after.0.ready
    ensures poolConfigured && after.1.NotOk? ==> after.0.initError == Some(after.1.reason)
    ensures ValidState(before) ==> ValidState(after.0)
  {
    if !poolConfigured then (before, NotOk(NoDatabaseUrl))
    else if before.ready then (before, Ok)
    else if Truthy(before.initError) then (before, NotOk(before.initError.value))
    else
      var queried := before.(queries := before.queries + 1);
      match outcome
      case Succeeded => (queried.(ready := true), Ok)
      case Failed(e) => (queried.(initError := Some(e)), NotOk(e))
  }

  class SchemaLatch {
    /** Whether a pool exists, that is whether `DATABASE_URL` was set. */
    const poolConfigured: bool
    /** `visitsReady`. */
    var ready: bool
    /** `visitsInitError`; `None` is `null`. */
    var initError: Option<string>
    /** How many schema queries have been issued. */
    var queries: nat

    /** The fields as one value. */
    function State(): LatchState
      reads this
    {
      LatchState(ready, initError, queries)
    }

    predicate Valid()
      reads this
    {
      ValidState(State())
    }

    constructor(poolConfigured: bool)
      ensures this.poolConfigured == poolConfigured
      ensures !ready && initError == None && queries == 0
      ensures Valid()
    {
      this.poolConfigured := poolConfigured;
      ready := false;
      initError := None;
      queries := 0;
    }

    /** `ensureVisitsTable()`, with `outcome` saying what the schema query
        does if it is issued. */
    method Ensure(outcome: QueryOutcome) returns (r: InitResult)
      requires Valid()
      modifies this
      ensures Valid()
      ensures (State(), r) == AfterEnsure(poolConfigured, old(State()), outcome)
      ensures !poolConfigured ==> r == NotOk(NoDatabaseUrl) && unchanged(this)
      ensures poolConfigured && old(ready) ==> r == Ok && unchanged(this)
      ensures poolConfigured && !old(ready) && old(Truthy(initError)) ==>
                r == NotOk(old(initError.value)) && unchanged(this)
      ensures poolConfigured && !old(ready) && !old(Truthy(initError)) ==>
                queries == old(queries) + 1 &&
                match outcome
                case Succeeded => r == Ok && ready && initError == old(initError)
                case Failed(e) => r == NotOk(e) && !ready && initError == Some(e)
    {
      if !poolConfigured { return NotOk(NoDatabaseUrl); }
      if ready { return Ok; }
      if Truthy(initError) { return NotOk(initError.value); }
      queries := queries + 1;
      match outcome {
        case Succeeded =>
          ready := true;
          r := Ok;
        case Failed(e) =>
          initError := Some(e);
          r := NotOk(e);
      }
    }
  }

  /** Without a pool every call reports "no DATABASE_URL" and nothing is
      ever queried. */
  method WithoutPool(outcomes: seq<QueryOutcome>) returns (results: seq<InitResult>, queries: nat)
    ensures |results| == |outcomes|
    ensures forall i :: 0 <= i < |results| ==> results[i] == NotOk(NoDatabaseUrl)
    ensures queries == 0
  {
    var latch := new SchemaLatch(false);
    results := [];
    var i := 0;
    while i < |outcomes|
      invariant 0 <= i <= |outcomes|
      invariant latch.Valid() && !latch.poolConfigured && latch.queries == 0
      invariant |results| == i
      invariant forall j :: 0 <= j < i ==> results[j] == NotOk(NoDatabaseUrl)
    {
      var r := latch.Ensure(outcomes[i]);
      results := results + [r];
      i := i + 1;
    }
    queries := latch.queries;
  }

  /** Once the schema query has succeeded, every later call reports ok
      without querying again, whatever a query would have done. */
  method SuccessIsSticky(later: seq<QueryOutcome>) returns (first: InitResult, results: seq<InitResult>, queries: nat)
    ensures first == Ok
    ensures |results| == |later|
    ensures forall i :: 0 <= i < |results| ==> results[i] == Ok
    ensures queries == 1
  {
    var latch := new SchemaLatch(true);
    first := latch.Ensure(Succeeded);
    results := [];
    var i := 0;
    while i < |later|
      invariant 0 <= i <= |later|
      invariant latch.Valid() && latch.poolConfigured && latch.ready && latch.queries == 1
      invariant |results| == i
      invariant forall j :: 0 <= j < i ==> results[j] == Ok
    {
      var r := latch.Ensure(later[i]);
      results := results + [r];
      i := i + 1;
    }
    queries := latch.queries;
  }

  /** Once the schema query has failed with a (non-empty) error, every later
      call reports that same error without querying again. */
  method FailureIsSticky(error: string, later: seq<QueryOutcome>)
    returns (first: InitResult, results: seq<InitResult>, queries: nat)
    requires error != ""
    ensures first == NotOk(error)
    ensures |results| == |later|
    ensures forall i :: 0 <= i < |results| ==> results[i] == NotOk(error)
    ensures queries == 1
  {
    var latch := new SchemaLatch(true);
    first := latch.Ensure(Failed(error));
    results := [];
    var i := 0;
    while i < |later|
      invariant 0 <= i <= |later|
      invariant latch.Valid() && latch.poolConfigured && !latch.ready
      invariant latch.initError == Some(error) && latch.queries == 1
      invariant |results| == i
      invariant forall j :: 0 <= j < i ==> results[j] == NotOk(error)
    {
      var r := latch.Ensure(later[i]);
      results := results + [r];
      i := i + 1;
    }
    queries := latch.queries;
  }

  /** An error whose string form is empty is not cached: the next call
      queries again, and may then succeed. */
  method EmptyErrorRetries() returns (first: InitResult, second: InitResult, queries: nat)
    ensures first == NotOk("") && second == Ok
    ensures queries == 2
  {
    var latch := new SchemaLatch(true);
    first := latch.Ensure(Failed(""));
    second := latch.Ensure(Succeeded);
    queries := latch.queries;
  }
}
