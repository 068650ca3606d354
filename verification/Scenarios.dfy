/**
 * Callers of the tracker, written against the contracts of module
 * Dependency alone: what a dependency handler can rely on.
 */
module Scenarios {
  import opened Wrappers
  import opened Dependency

  /**
   * A thread stores "svc1", the binding changes and every cell is
   * invalidated, then the thread stores "svc2".
   */
  method RebindAfterInvalidation()
    returns (freshBefore: bool, cachedBefore: Option<string>, freshAfterInvalidation: bool,
             cachedAfterInvalidation: Option<string>, cachedAtEnd: Option<string>)
    ensures !freshBefore
    ensures cachedBefore == Some("svc1")
    ensures !freshAfterInvalidation && cachedAfterInvalidation == Some("svc1")
    ensures cachedAtEnd == Some("svc2")
  {
    var store := new ServiceUsage<string>();
    var cell := store.InitialValue();
    freshBefore := cell.IsUpToDate();
    cell.SetObject(Some("svc1"));
    cachedBefore := cell.GetObject();
    store.MarkOutdated();
    freshAfterInvalidation := cell.IsUpToDate();
    cachedAfterInvalidation := cell.GetObject();
    cell.SetObject(Some("svc2"));
    cachedAtEnd := cell.GetObject();
  }

  /** Three nested service gets, then three releases: false, false, true. */
  method ThreeNestedGets() returns (first: bool, second: bool, third: bool)
    ensures !first && !second && third
  {
    var store := new ServiceUsage<string>();
    var cell := store.InitialValue();
    cell.Inc();
    cell.Inc();
    cell.Inc();
    first := cell.Dec();
    second := cell.Dec();
    third := cell.Dec();
  }

  /**
   * Two threads' cells are distinct, and what one thread does to its cell
   * leaves the other's unchanged, invalidation aside.
   */
  method CellsAreIsolated() returns (depthA: int, depthB: int, freshA: bool, freshB: bool)
    ensures depthA == 1 && depthB == 0
    ensures freshA && !freshB
  {
    var store := new ServiceUsage<string>();
    var a := store.InitialValue();
    var b := store.InitialValue();
    assert a != b;
    a.Inc();
    a.IncComponentStack();
    a.SetObject(Some("svc"));
    depthA, depthB := a.stack, b.stack;
    freshA, freshB := a.IsUpToDate(), b.IsUpToDate();
  }
}
