/**
 * The abstract value of a per-thread `Usage` cell of `ServiceUsage.java`,
 * the calls that change it, and the registry-wide invalidation, as values.
 * The classes of module Dependency are specified by these functions.
 */
module UsageModel {
  import opened Wrappers

  /**
   * One cell: the service-get nesting depth, the component-method nesting
   * depth, the cached object (None for Java's null) and the up-to-date flag.
   */
  datatype Cell<T> = Cell(stack: int, componentStack: int, obj: Option<T>, upToDate: bool)
  {
    function Inc(): Cell<T> {
      this.(stack := stack + 1)
    }

    /** The new cell, and whether the service-get depth is 0 after the decrement. */
    function Dec(): (Cell<T>, bool) {
      (this.(stack := stack - 1), stack - 1 == 0)
    }

    function IncComponentStack(): Cell<T> {
      this.(componentStack := componentStack + 1)
    }

    /** The new cell, and whether the component depth is 0 after the decrement. */
    function DecComponentStack(): (Cell<T>, bool) {
      (this.(componentStack := componentStack - 1), componentStack - 1 == 0)
    }

    function SetObject(item: Option<T>): Cell<T> {
      this.(obj := item, upToDate := true)
    }

    function Outdate(): Cell<T> {
      this.(upToDate := false)
    }
  }

  /** A freshly constructed cell. */
  function NewCell<T>(): Cell<T> {
    Cell(0, 0, None, false)
  }

  /**
   * One state-changing call on a cell: the owning thread's calls, and the
   * invalidation the registry applies to every cell.
   */
  datatype Call<T> =
    | Inc
    | Dec
    | IncComponentStack
    | DecComponentStack
    | SetObject(item: Option<T>)
    | MarkOutdated
  {
    predicate IsServiceCall() {
      Inc? || Dec?
    }

    predicate IsComponentCall() {
      IncComponentStack? || DecComponentStack?
    }

    predicate TouchesCache() {
      SetObject? || MarkOutdated?
    }
  }

  function Step<T>(c: Cell<T>, call: Call<T>): Cell<T> {
    match call
    case Inc => c.Inc()
    case Dec => c.Dec().0
    case IncComponentStack => c.IncComponentStack()
    case DecComponentStack => c.DecComponentStack().0
    case SetObject(item) => c.SetObject(item)
    case MarkOutdated => c.Outdate()
  }

  /** The cell after making `calls` on `c`, in order. */
  function Run<T>(c: Cell<T>, calls: seq<Call<T>>): Cell<T>
    decreases |calls|
  {
    if calls == [] then c else Run(Step(c, calls[0]), calls[1..])
  }

  /** What the `Dec` calls among `calls` return, in order. */
  function Signals<T>(c: Cell<T>, calls: seq<Call<T>>): seq<bool>
    decreases |calls|
  {
    if calls == [] then []
    else (if calls[0].Dec? then [c.Dec().1] else []) + Signals(Step(c, calls[0]), calls[1..])
  }

  /** What the `DecComponentStack` calls among `calls` return, in order. */
  function ComponentSignals<T>(c: Cell<T>, calls: seq<Call<T>>): seq<bool>
    decreases |calls|
  {
    if calls == [] then []
    else (if calls[0].DecComponentStack? then [c.DecComponentStack().1] else [])
         + ComponentSignals(Step(c, calls[0]), calls[1..])
  }

  /** The service-get calls of `calls`, in order. */
  function ServiceCalls<T>(calls: seq<Call<T>>): seq<Call<T>>
    decreases |calls|
  {
    if calls == [] then []
    else (if calls[0].IsServiceCall() then [calls[0]] else []) + ServiceCalls(calls[1..])
  }

  /** The component-method calls of `calls`, in order. */
  function ComponentCalls<T>(calls: seq<Call<T>>): seq<Call<T>>
    decreases |calls|
  {
    if calls == [] then []
    else (if calls[0].IsComponentCall() then [calls[0]] else []) + ComponentCalls(calls[1..])
  }

  function Repeat<X>(x: X, n: nat): (r: seq<X>)
    ensures |r| == n && forall i :: 0 <= i < n ==> r[i] == x
  {
    seq(n, _ => x)
  }

  // ---------------------------------------------------------------------
  // Nesting: n gets followed by n releases signal "outermost" exactly once.
  // ---------------------------------------------------------------------

  /** Gets return nothing and raise the depth by one each. */
  lemma {:induction false} GetsSignalNothing<T>(c: Cell<T>, n: nat, rest: seq<Call<T>>)
    ensures Signals(c, Repeat(Inc, n) + rest) == Signals(c.(stack := c.stack + n), rest)
    ensures Run(c, Repeat(Inc, n) + rest) == Run(c.(stack := c.stack + n), rest)
    decreases n
  {
    if n > 0 {
      var calls := Repeat(Inc, n) + rest;
      assert calls[0] == Inc;
      assert calls[1..] == Repeat(Inc, n - 1) + rest;
      GetsSignalNothing(c.Inc(), n - 1, rest);
    } else {
      assert Repeat(Inc, n) + rest == rest;
    }
  }

  /** The i-th of m releases reports true iff it brings the depth from i + 1 down to 0. */
  lemma {:induction false} ReleaseSignals<T>(c: Cell<T>, m: nat)
    ensures |Signals(c, Repeat(Dec, m))| == m
    ensures forall i :: 0 <= i < m ==> Signals(c, Repeat(Dec, m))[i] == (c.stack == i + 1)
    ensures Run(c, Repeat(Dec, m)).stack == c.stack - m
    decreases m
  {
    if m > 0 {
      var calls: seq<Call<T>> := Repeat(Dec, m);
      assert calls[0] == Dec;
      assert calls[1..] == Repeat(Dec, m - 1);
      ReleaseSignals(c.Dec().0, m - 1);
    }
  }

  /**
   * From a fresh cell, n service gets followed by n releases: every release
   * but the last reports false, the last reports true, and the depth is back to 0.
   */
  lemma NestedGetsSignalOutermostRelease<T>(n: nat)
    ensures var signals := Signals(NewCell<T>(), Repeat(Inc, n) + Repeat(Dec, n));
            |signals| == n && forall i :: 0 <= i < n ==> signals[i] == (i == n - 1)
    ensures Run(NewCell<T>(), Repeat(Inc, n) + Repeat(Dec, n)).stack == 0
  {
    var c: Cell<T> := NewCell();
    GetsSignalNothing(c, n, Repeat(Dec, n));
    ReleaseSignals(c.(stack := n), n);
  }

  // ---------------------------------------------------------------------
  // The two counters are independent.
  // ---------------------------------------------------------------------

  /**
   * What the service releases return, and the final service depth, depend
   * only on the service calls: component-method calls, stores and
   * invalidations interleaved with them change neither.
   */
  lemma {:induction false} ServiceSignalsIgnoreOtherCalls<T>(c: Cell<T>, d: Cell<T>, calls: seq<Call<T>>)
    requires c.stack == d.stack
    ensures Signals(c, calls) == Signals(d, ServiceCalls(calls))
    ensures Run(c, calls).stack == Run(d, ServiceCalls(calls)).stack
    decreases |calls|
  {
    if calls != [] {
      var rest := ServiceCalls(calls[1..]);
      if calls[0].IsServiceCall() {
        var s := [calls[0]] + rest;
        assert s[0] == calls[0] && s[1..] == rest;
        ServiceSignalsIgnoreOtherCalls(Step(c, calls[0]), Step(d, calls[0]), calls[1..]);
      } else {
        assert ServiceCalls(calls) == rest;
        ServiceSignalsIgnoreOtherCalls(Step(c, calls[0]), d, calls[1..]);
      }
    }
  }

  /**
   * What the component releases return, and the final component depth,
   * depend only on the component-method calls.
   */
  lemma {:induction false} ComponentSignalsIgnoreOtherCalls<T>(c: Cell<T>, d: Cell<T>, calls: seq<Call<T>>)
    requires c.componentStack == d.componentStack
    ensures ComponentSignals(c, calls) == ComponentSignals(d, ComponentCalls(calls))
    ensures Run(c, calls).componentStack == Run(d, ComponentCalls(calls)).componentStack
    decreases |calls|
  {
    if calls != [] {
      var rest := ComponentCalls(calls[1..]);
      if calls[0].IsComponentCall() {
        var s := [calls[0]] + rest;
        assert s[0] == calls[0] && s[1..] == rest;
        ComponentSignalsIgnoreOtherCalls(Step(c, calls[0]), Step(d, calls[0]), calls[1..]);
      } else {
        assert ComponentCalls(calls) == rest;
        ComponentSignalsIgnoreOtherCalls(Step(c, calls[0]), d, calls[1..]);
      }
    }
  }

  // ---------------------------------------------------------------------
  // The cached object and its freshness.
  // ---------------------------------------------------------------------

  /** Counter calls leave the cached object and the up-to-date flag alone. */
  lemma {:induction false} CountersLeaveCacheAlone<T>(c: Cell<T>, calls: seq<Call<T>>)
    requires forall i :: 0 <= i < |calls| ==> !calls[i].TouchesCache()
    ensures Run(c, calls).obj == c.obj && Run(c, calls).upToDate == c.upToDate
    decreases |calls|
  {
    if calls != [] {
      assert !calls[0].TouchesCache();
      CountersLeaveCacheAlone(Step(c, calls[0]), calls[1..]);
    }
  }

  /**
   * After storing an object, the cell returns that item and is up to date
   * until the next store or invalidation.
   */
  lemma StoredObjectStaysFresh<T>(c: Cell<T>, item: Option<T>, calls: seq<Call<T>>)
    requires forall i :: 0 <= i < |calls| ==> !calls[i].TouchesCache()
    ensures Run(c, [SetObject(item)] + calls).obj == item
    ensures Run(c, [SetObject(item)] + calls).upToDate
  {
    assert ([SetObject(item)] + calls)[1..] == calls;
    CountersLeaveCacheAlone(c.SetObject(item), calls);
  }

  /**
   * After an invalidation, the cell stays out of date until the next store,
   * and keeps returning the item it held before.
   */
  lemma InvalidatedCellStaysStale<T>(c: Cell<T>, calls: seq<Call<T>>)
    requires forall i :: 0 <= i < |calls| ==> !calls[i].TouchesCache()
    ensures Run(c, [MarkOutdated] + calls).obj == c.obj
    ensures !Run(c, [MarkOutdated] + calls).upToDate
  {
    assert ([MarkOutdated] + calls)[1..] == calls;
    CountersLeaveCacheAlone(c.Outdate(), calls);
  }

  // ---------------------------------------------------------------------
  // The registry: every registered cell, by identity.
  // ---------------------------------------------------------------------

  /** Every cell of the registry marked out of date, and nothing else changed. */
  function OutdateAll<K, T>(cells: map<K, Cell<T>>): (r: map<K, Cell<T>>)
    ensures r.Keys == cells.Keys
    ensures forall k :: k in r ==> !r[k].upToDate
    ensures forall k :: k in r ==>
      r[k].stack == cells[k].stack && r[k].componentStack == cells[k].componentStack && r[k].obj == cells[k].obj
  {
    map k | k in cells :: cells[k].Outdate()
  }

  /** Invalidating twice is the same as invalidating once. */
  lemma OutdateAllIdempotent<K, T>(cells: map<K, Cell<T>>)
    ensures OutdateAll(OutdateAll(cells)) == OutdateAll(cells)
  {
  }

  /**
   * Registering a new cell and invalidating the registry commute: a cell
   * created just before an invalidation ends up as one created just after.
   */
  lemma RegisterCommutesWithOutdateAll<K, T>(cells: map<K, Cell<T>>, k: K)
    requires k !in cells
    ensures OutdateAll(cells[k := NewCell()]) == OutdateAll(cells)[k := NewCell()]
  {
  }
}
