# ServiceUsage: the per-thread usage tracker of a dynamic service dependency

iPOJO's dependency handler keeps, for each thread that calls into a
component, a `Usage` cell holding the service object injected on that
thread, an up-to-date flag, and two nesting depths: one for service gets
(`m_stack`) and one for component-method calls (`m_componentStack`).
`ServiceUsage` is the thread-local store that creates these cells
(`initialValue`) and keeps a registry of them, so that `markOutdated` can
invalidate every thread's cached object when the binding changes.

The project has four modules:

- `Wrappers` (Wrappers.dfy): `Option`, with `None` standing for Java's `null`.
- `UsageModel` (UsageModel.dfy): the abstract value of a cell (`Cell`), the
  calls that change it (`Call`), what a sequence of calls does (`Run`) and
  what its releases return (`Signals`, `ComponentSignals`), the registry-wide
  invalidation (`OutdateAll`), and the lemmas about them.
- `Dependency` (Dependency.dfy): the classes `Usage` and `ServiceUsage` with
  fields updated in place. Each method states its new fields directly and
  ties them to `UsageModel` (`State() == old(State()).Inc()`,
  `Snapshot() == OutdateAll(old(Snapshot()))`), so the lemmas there apply to
  the objects. Membership in `usages` is by object identity, as in the
  source, where `Usage` does not override `equals`/`hashCode`.
- `Scenarios` (Scenarios.dfy): callers that use only the contracts of
  `Dependency`: re-binding after an invalidation, three nested gets, and two
  isolated cells.

The cached object is generic (`Option<T>`), since the source stores an
opaque `Object` that may be `null`. The depths are unbounded integers.
`Dec` and `DecComponentStack` have no precondition: the source does not
guard against a release without a matching get, so the model lets the
depths go negative, as the code does. A "depths are never negative"
invariant is a rule for callers. The code does not enforce it, so the model
does not either.

## Model

| member | source | states |
|---|---|---|
| `Dependency.Usage.constructor` | core/src/main/java/org/apache/felix/ipojo/handlers/dependency/ServiceUsage.java:44-56 | a new cell has both depths 0, no object (null) and is not up to date |
| `Dependency.Usage.Inc` | core/src/main/java/org/apache/felix/ipojo/handlers/dependency/ServiceUsage.java:62-64 | the service-get depth rises by exactly one; the other depth, the object and the flag are unchanged |
| `Dependency.Usage.IncComponentStack` | core/src/main/java/org/apache/felix/ipojo/handlers/dependency/ServiceUsage.java:69-71 | the component depth rises by exactly one; the service-get depth, the object and the flag are unchanged |
| `Dependency.Usage.Dec` | core/src/main/java/org/apache/felix/ipojo/handlers/dependency/ServiceUsage.java:77-80 | the service-get depth falls by exactly one, with no lower bound; the result is true iff the new depth is 0; nothing else changes |
| `Dependency.Usage.DecComponentStack` | core/src/main/java/org/apache/felix/ipojo/handlers/dependency/ServiceUsage.java:86-89 | the component depth falls by exactly one; the result is true iff the new depth is 0; nothing else changes |
| `Dependency.Usage.GetObject` | core/src/main/java/org/apache/felix/ipojo/handlers/dependency/ServiceUsage.java:91-94 | a read-only function that returns the stored object, stale or not |
| `Dependency.Usage.SetObject` | core/src/main/java/org/apache/felix/ipojo/handlers/dependency/ServiceUsage.java:96-100 | afterwards `GetObject()` returns the given object and `IsUpToDate()` is true; both depths are unchanged |
| `Dependency.Usage.IsUpToDate` | core/src/main/java/org/apache/felix/ipojo/handlers/dependency/ServiceUsage.java:102-105 | a read-only function that returns the up-to-date flag |
| `Dependency.ServiceUsage.constructor` | core/src/main/java/org/apache/felix/ipojo/handlers/dependency/ServiceUsage.java:112 | the registry starts empty |
| `Dependency.ServiceUsage.MarkOutdated` | core/src/main/java/org/apache/felix/ipojo/handlers/dependency/ServiceUsage.java:118-123 | every registered cell is out of date afterwards; every cell keeps its depths and its object; the registry is unchanged; the registry's new value is `OutdateAll` of its old value |
| `Dependency.ServiceUsage.InitialValue` | core/src/main/java/org/apache/felix/ipojo/handlers/dependency/ServiceUsage.java:130-134 | returns a newly allocated cell in the initial state; the registry becomes the old one plus exactly that cell; no registered cell changes |
| `UsageModel.GetsSignalNothing` | core/src/main/java/org/apache/felix/ipojo/handlers/dependency/ServiceUsage.java:62-64 | n gets raise the service-get depth by n and add no release results before what follows |
| `UsageModel.ReleaseSignals` | core/src/main/java/org/apache/felix/ipojo/handlers/dependency/ServiceUsage.java:77-80 | m releases from depth d return m results; the i-th is true iff d == i + 1, and the depth ends at d - m |
| `UsageModel.NestedGetsSignalOutermostRelease` | core/src/main/java/org/apache/felix/ipojo/handlers/dependency/ServiceUsage.java:44-80 | from a new cell, n gets then n releases: the first n - 1 releases return false, the n-th returns true, and the depth is back to 0 |
| `UsageModel.ServiceSignalsIgnoreOtherCalls` | core/src/main/java/org/apache/felix/ipojo/handlers/dependency/ServiceUsage.java:62-89 | for any sequence of calls, what the service releases return and the final service-get depth are the same as for its service calls alone: component calls, stores and invalidations do not affect them |
| `UsageModel.ComponentSignalsIgnoreOtherCalls` | core/src/main/java/org/apache/felix/ipojo/handlers/dependency/ServiceUsage.java:62-89 | for any sequence of calls, what the component releases return and the final component depth are the same as for its component calls alone |
| `UsageModel.CountersLeaveCacheAlone` | core/src/main/java/org/apache/felix/ipojo/handlers/dependency/ServiceUsage.java:62-89 | any sequence of counter calls leaves the cached object and the up-to-date flag unchanged |
| `UsageModel.StoredObjectStaysFresh` | core/src/main/java/org/apache/felix/ipojo/handlers/dependency/ServiceUsage.java:96-100 | after a store, the cell returns that object and stays up to date through any counter calls, until the next store or invalidation |
| `UsageModel.InvalidatedCellStaysStale` | core/src/main/java/org/apache/felix/ipojo/handlers/dependency/ServiceUsage.java:118-123 | after an invalidation, the cell stays out of date and keeps its old object through any counter calls, until the next store |
| `UsageModel.OutdateAll` | core/src/main/java/org/apache/felix/ipojo/handlers/dependency/ServiceUsage.java:118-123 | the same cells are registered; each is out of date and keeps its depths and object |
| `UsageModel.OutdateAllIdempotent` | core/src/main/java/org/apache/felix/ipojo/handlers/dependency/ServiceUsage.java:118-123 | invalidating twice gives the same registry as invalidating once |
| `UsageModel.RegisterCommutesWithOutdateAll` | core/src/main/java/org/apache/felix/ipojo/handlers/dependency/ServiceUsage.java:118-134 | registering a new cell then invalidating gives the same registry as invalidating then registering it |
| `Scenarios.RebindAfterInvalidation` | core/src/main/java/org/apache/felix/ipojo/handlers/dependency/ServiceUsage.java:96-134 | a new cell is not up to date; after storing "svc1" and an invalidation, the cell is stale but still holds "svc1"; storing "svc2" replaces it |
| `Scenarios.ThreeNestedGets` | core/src/main/java/org/apache/felix/ipojo/handlers/dependency/ServiceUsage.java:62-80 | three gets then three releases return false, false, true |
| `Scenarios.CellsAreIsolated` | core/src/main/java/org/apache/felix/ipojo/handlers/dependency/ServiceUsage.java:130-134 | two cells from `InitialValue` are distinct, and calls on one leave the other's depth and flag unchanged |

## Left out

- The `ThreadLocal` dispatch (`extends ThreadLocal`, line 34): one cell per thread, and the lazy call of `initialValue` on a thread's first `get()`, are JDK behaviour. Threads are not modelled. `InitialValue` is modelled as a plain method, and "one cell per thread" becomes "each call returns a distinct new cell".
- The weak references of the registry (`Collections.newSetFromMap(new WeakHashMap…)`, line 112): dropping the cells of dead threads is done by the garbage collector. `usages` is a plain set that only grows, through `InitialValue`. The property that a dead thread's cell eventually leaves the registry is not modelled.
- Concurrency and memory visibility: the `volatile` flag (line 56), races between `markOutdated` and `initialValue`, and the fact that the `WeakHashMap`-backed set is not thread-safe. Every operation is modelled as one sequential step. `RegisterCommutesWithOutdateAll` states the sequential counterpart of that race.
- `Dependency.Usage.Inc`: Java `int` overflow of `m_stack` is not modelled. `IncComponentStack`, `Dec` and `DecComponentStack` are unbounded in the same way, because the depths are unbounded integers.
- The unused imports (lines 21-27) have no behaviour.
