/**
 * The per-thread usage tracker of a dynamic service dependency
 * (`ServiceUsage.java`): the `Usage` cell each thread owns, and the
 * `ServiceUsage` registry that creates cells and invalidates them all.
 */
module Dependency {
  import opened Wrappers
  import opened UsageModel

  /** The cell held in a thread's slot: a cached object and two nesting depths. */
  class Usage<T> {
    /** Nesting depth of service gets. */
    var stack: int
    /** The object to inject; None stands for null. */
    var obj: Option<T>
    /** Nesting depth of component-method calls on this thread. */
    var componentStack: int
    var upToDate: bool

    /** The abstract value of this cell. */
    function State(): Cell<T>
      reads this
    {
      Cell(stack, componentStack, obj, upToDate)
    }

    constructor ()
      ensures stack == 0 && componentStack == 0 && obj == None && !upToDate
      ensures State() == NewCell()
    {
      stack := 0;
      obj := None;
      componentStack := 0;
      upToDate := false;
    }

    /** Enter one more level of service get. */
    method Inc()
      modifies this
      ensures stack == old(stack) + 1
      ensures componentStack == old(componentStack) && obj == old(obj) && upToDate == old(upToDate)
      ensures State() == old(State()).Inc()
    {
      stack := stack + 1;
    }

    /** Enter one more level of component method. */
    method IncComponentStack()
      modifies this
      ensures componentStack == old(componentStack) + 1
      ensures stack == old(stack) && obj == old(obj) && upToDate == old(upToDate)
      ensures State() == old(State()).IncComponentStack()
    {
      componentStack := componentStack + 1;
    }

    /** Leave one level of service get; true iff the depth is now 0. */
    method Dec() returns (outermost: bool)
      modifies this
      ensures stack == old(stack) - 1
      ensures outermost <==> stack == 0
      ensures componentStack == old(componentStack) && obj == old(obj) && upToDate == old(upToDate)
      ensures (State(), outermost) == old(State()).Dec()
    {
      stack := stack - 1;
      outermost := stack == 0;
    }

    /** Leave one level of component method; true iff the depth is now 0. */
    method DecComponentStack() returns (outermost: bool)
      modifies this
      ensures componentStack == old(componentStack) - 1
      ensures outermost <==> componentStack == 0
      ensures stack == old(stack) && obj == old(obj) && upToDate == old(upToDate)
      ensures (State(), outermost) == old(State()).DecComponentStack()
    {
      componentStack := componentStack - 1;
      outermost := componentStack == 0;
    }

    /** The cached object, fresh or stale. */
    function GetObject(): (o: Option<T>)
      reads this
      ensures o == State().obj
    {
      obj
    }

    /** Store a freshly resolved object; the cell becomes up to date. */
    method SetObject(item: Option<T>)
      modifies this
      ensures GetObject() == item && IsUpToDate()
      ensures stack == old(stack) && componentStack == old(componentStack)
      ensures State() == old(State()).SetObject(item)
    {
      obj := item;
      upToDate := true;
    }

    /** Whether the cached object may be reused without resolving it again. */
    function IsUpToDate(): (b: bool)
      reads this
      ensures b == State().upToDate
    {
      upToDate
    }
  }

  /** The thread-local store of cells, with the registry of every cell it handed out. */
  class ServiceUsage<T> {
    /** Every cell created by InitialValue, by identity. */
    var usages: set<Usage<T>>

    /** The registered cells and their abstract values. */
    ghost function Snapshot(): map<Usage<T>, Cell<T>>
      reads this, usages
    {
      map u | u in usages :: u.State()
    }

    constructor ()
      ensures usages == {}
    {
      usages := {};
    }

    /**
     * Mark every registered cell out of date; counters, cached objects and
     * the registry itself are left as they are.
     */
    method MarkOutdated()
      modifies usages
      ensures usages == old(usages)
      ensures forall u :: u in usages ==> !u.IsUpToDate()
      ensures forall u :: u in usages ==>
        u.stack == old(u.stack) && u.componentStack == old(u.componentStack) && u.obj == old(u.obj)
      ensures Snapshot() == OutdateAll(old(Snapshot()))
    {
      var pending := usages;
      while pending != {}
        invariant pending <= usages
        invariant forall u :: u in usages && u !in pending ==> !u.upToDate
        invariant forall u :: u in pending ==> u.upToDate == old(u.upToDate)
        invariant forall u :: u in usages ==>
          u.stack == old(u.stack) && u.componentStack == old(u.componentStack) && u.obj == old(u.obj)
        decreases pending
      {
        var u :| u in pending;
        u.upToDate := false;
        pending := pending - {u};
      }
      assert forall u :: u in usages ==> u.State() == old(u.State()).Outdate();
    }

    /**
     * Create the cell for a thread that has none yet, and register it.
     * Cells already registered are left as they are.
     */
    method InitialValue() returns (usage: Usage<T>)
      modifies this
      ensures fresh(usage)
      ensures usage.State() == NewCell()
      ensures usages == old(usages) + {usage}
      ensures Snapshot() == old(Snapshot())[usage := NewCell()]
    {
      usage := new Usage();
      usages := usages + {usage};
    }
  }
}
