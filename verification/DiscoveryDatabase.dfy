/** The four bounded tables a discovery image is parsed into, their searches and the steps
    that fill them (src/discovery/discovery_database.c and the add functions of
    src/discovery/discovery_parser.c). */
module DiscoveryDatabase {
  import opened Bytes
  import opened DiscoveryFormat

  /** The tables' contents and their capacities; a missing table has capacity zero. */
  datatype Tables = Tables(
    resources: seq<Resource>, resourceCapacity: nat,
    services: seq<Service>, serviceCapacity: nat,
    dependencies: seq<Dependency>, dependencyCapacity: nat,
    instruments: seq<Instrument>, instrumentCapacity: nat)

  predicate WithinCapacity(t: Tables) {
    && |t.resources| <= t.resourceCapacity
    && |t.services| <= t.serviceCapacity
    && |t.dependencies| <= t.dependencyCapacity
    && |t.instruments| <= t.instrumentCapacity
  }

  /** Every handle that names something, table after table. */
  function Handles(t: Tables): (handles: seq<u64>)
    ensures |handles| == |t.resources| + |t.services| + |t.instruments|
  {
    seq(|t.resources|, i requires 0 <= i < |t.resources| => t.resources[i].handle)
    + seq(|t.services|, i requires 0 <= i < |t.services| => t.services[i].handle)
    + seq(|t.instruments|, i requires 0 <= i < |t.instruments| => t.instruments[i].handle)
  }

  predicate Distinct(handles: seq<u64>) {
    forall i, j | 0 <= i < j < |handles| :: handles[i] != handles[j]
  }

  predicate ContainsHandle(t: Tables, handle: u64) {
    || (exists i | 0 <= i < |t.resources| :: t.resources[i].handle == handle)
    || (exists i | 0 <= i < |t.services| :: t.services[i].handle == handle)
    || (exists i | 0 <= i < |t.instruments| :: t.instruments[i].handle == handle)
  }

  // ---- The add steps

  function AddResourceStatus(t: Tables, entry: Resource): Result {
    if ContainsHandle(t, entry.handle) then DuplicateHandle
    else if |t.resources| >= t.resourceCapacity then CapacityExceeded
    else Ok
  }

  function AddServiceStatus(t: Tables, entry: Service): Result {
    if ContainsHandle(t, entry.handle) then DuplicateHandle
    else if |t.services| >= t.serviceCapacity then CapacityExceeded
    else Ok
  }

  function AddDependencyStatus(t: Tables, entry: Dependency): Result {
    if |t.dependencies| >= t.dependencyCapacity then CapacityExceeded else Ok
  }

  function AddInstrumentStatus(t: Tables, entry: Instrument): Result {
    if ContainsHandle(t, entry.handle) then DuplicateHandle
    else if |t.instruments| >= t.instrumentCapacity then CapacityExceeded
    else Ok
  }

  /** One parsed record; `Other` stands for the types the parser skips. */
  datatype Entry =
    | OfResource(resource: Resource)
    | OfService(service: Service)
    | OfDependency(dependency: Dependency)
    | OfInstrument(instrument: Instrument)
    | Other

  function AddStatus(t: Tables, entry: Entry): Result {
    match entry
    case OfResource(r) => AddResourceStatus(t, r)
    case OfService(s) => AddServiceStatus(t, s)
    case OfDependency(d) => AddDependencyStatus(t, d)
    case OfInstrument(i) => AddInstrumentStatus(t, i)
    case Other => Ok
  }

  /** The tables after a record; a refused one changes nothing. */
  function Add(t: Tables, entry: Entry): Tables {
    if AddStatus(t, entry) != Ok then t
    else
      match entry
      case OfResource(r) => t.(resources := t.resources + [r])
      case OfService(s) => t.(services := t.services + [s])
      case OfDependency(d) => t.(dependencies := t.dependencies + [d])
      case OfInstrument(i) => t.(instruments := t.instruments + [i])
      case Other => t
  }

  // ---- The abstract map

  /** The things the tables name. */
  predicate Names(t: Tables, entry: Entry, handle: u64) {
    match entry
    case OfResource(r) => r.handle == handle && r in t.resources
    case OfService(s) => s.handle == handle && s in t.services
    case OfInstrument(i) => i.handle == handle && i in t.instruments
    case _ => false
  }

  /** What the tables mean: a finite map from handles to the things they name. */
  ghost function Index(t: Tables): (m: map<u64, Entry>)
    ensures m.Keys == (set h | h in Handles(t))
    ensures forall h | h in m :: Names(t, m[h], h)
  {
    map h | h in Handles(t) :: Meaning(t, h)
  }

  ghost function Meaning(t: Tables, handle: u64): (entry: Entry)
    requires handle in Handles(t)
    ensures Names(t, entry, handle)
  {
    EveryHandleNames(t, handle);
    var entry :| Names(t, entry, handle);
    entry
  }

  lemma EveryHandleNames(t: Tables, handle: u64)
    requires handle in Handles(t)
    ensures exists entry :: Names(t, entry, handle)
  {
    var k :| 0 <= k < |Handles(t)| && Handles(t)[k] == handle;
    HandlesByTable(t, k);
    var m, n := |t.resources|, |t.services|;
    if k < m {
      assert Names(t, OfResource(t.resources[k]), handle);
    } else if k < m + n {
      assert Names(t, OfService(t.services[k - m]), handle);
    } else {
      assert Names(t, OfInstrument(t.instruments[k - m - n]), handle);
    }
  }

  /** Where an entry's handle stands in the list of handles. */
  lemma PlaceOf(t: Tables, entry: Entry, handle: u64) returns (k: nat)
    requires Names(t, entry, handle)
    ensures k < |Handles(t)| && Handles(t)[k] == handle
    ensures match entry
      case OfResource(r) => k < |t.resources| && t.resources[k] == r
      case OfService(s) => |t.resources| <= k < |t.resources| + |t.services| && t.services[k - |t.resources|] == s
      case OfInstrument(i) => |t.resources| + |t.services| <= k && t.instruments[k - |t.resources| - |t.services|] == i
      case _ => false
  {
    match entry
    case OfResource(r) =>
      k :| 0 <= k < |t.resources| && t.resources[k] == r;
      HandlesByTable(t, k);
    case OfService(s) =>
      var j :| 0 <= j < |t.services| && t.services[j] == s;
      k := |t.resources| + j;
      HandlesByTable(t, k);
    case OfInstrument(i) =>
      var j :| 0 <= j < |t.instruments| && t.instruments[j] == i;
      k := |t.resources| + |t.services| + j;
      HandlesByTable(t, k);
  }

  /** With distinct handles a handle names exactly one thing, and the map says which. */
  lemma IndexIsExact(t: Tables, entry: Entry, handle: u64)
    requires Distinct(Handles(t))
    ensures Names(t, entry, handle) <==> handle in Index(t) && Index(t)[handle] == entry
  {
    if Names(t, entry, handle) {
      var k := PlaceOf(t, entry, handle);
      assert handle in Index(t);
      var k' := PlaceOf(t, Index(t)[handle], handle);
      assert k == k';
    }
  }

  lemma HandlesByTable(t: Tables, k: nat)
    requires k < |Handles(t)|
    ensures Handles(t)[k] ==
            if k < |t.resources| then t.resources[k].handle
            else if k < |t.resources| + |t.services| then t.services[k - |t.resources|].handle
            else t.instruments[k - |t.resources| - |t.services|].handle
  {
  }

  lemma ContainsIsMembership(t: Tables, handle: u64)
    ensures ContainsHandle(t, handle) <==> handle in Handles(t)
  {
    var handles, m, n := Handles(t), |t.resources|, |t.services|;
    if handle in handles {
      var k :| 0 <= k < |handles| && handles[k] == handle;
      HandlesByTable(t, k);
    }
    if i :| 0 <= i < |t.resources| && t.resources[i].handle == handle {
      HandlesByTable(t, i);
      assert handles[i] == handle;
    } else if i :| 0 <= i < |t.services| && t.services[i].handle == handle {
      HandlesByTable(t, m + i);
      assert handles[m + i] == handle;
    } else if i :| 0 <= i < |t.instruments| && t.instruments[i].handle == handle {
      HandlesByTable(t, m + n + i);
      assert handles[m + n + i] == handle;
    }
  }

  /** Handles stay pairwise distinct over all three tables, and every table stays within its
      capacity, whatever record is added. */
  lemma AddKeepsHandlesDistinct(t: Tables, entry: Entry)
    requires Distinct(Handles(t)) && WithinCapacity(t)
    ensures Distinct(Handles(Add(t, entry))) && WithinCapacity(Add(t, entry))
  {
    var t' := Add(t, entry);
    if t' != t && !entry.OfDependency? {
      var handle := match entry
        case OfResource(r) => r.handle
        case OfService(s) => s.handle
        case OfInstrument(i) => i.handle;
      ContainsIsMembership(t, handle);
      var place := match entry
        case OfResource(_) => |t.resources|
        case OfService(_) => |t.resources| + |t.services|
        case OfInstrument(_) => |Handles(t)|;
      assert Handles(t') == Handles(t)[..place] + [handle] + Handles(t)[place..];
      InsertKeepsDistinct(Handles(t), place, handle);
    } else {
      assert Handles(t') == Handles(t);
    }
  }

  lemma InsertKeepsDistinct(handles: seq<u64>, place: nat, handle: u64)
    requires Distinct(handles) && handle !in handles && place <= |handles|
    ensures Distinct(handles[..place] + [handle] + handles[place..])
  {
    var all := handles[..place] + [handle] + handles[place..];
    forall i, j | 0 <= i < j < |all|
      ensures all[i] != all[j]
    {
      var i' := if i < place then i else i - 1;
      var j' := if j < place then j else j - 1;
      assert i != place ==> all[i] == handles[i'];
      assert j != place ==> all[j] == handles[j'];
    }
  }

  // ---- The tables in memory

  class Database {
    var resources: array?<Resource>
    var resourceCapacity: nat
    var resourceCount: nat
    var services: array?<Service>
    var serviceCapacity: nat
    var serviceCount: nat
    var dependencies: array?<Dependency>
    var dependencyCapacity: nat
    var dependencyCount: nat
    var instruments: array?<Instrument>
    var instrumentCapacity: nat
    var instrumentCount: nat

    ghost predicate Valid()
      reads this
    {
      && (resources != null ==> resourceCount <= resourceCapacity <= resources.Length)
      && (services != null ==> serviceCount <= serviceCapacity <= services.Length)
      && (dependencies != null ==> dependencyCount <= dependencyCapacity <= dependencies.Length)
      && (instruments != null ==> instrumentCount <= instrumentCapacity <= instruments.Length)
    }

    ghost function Value(): Tables
      requires Valid()
      reads this, resources, services, dependencies, instruments
    {
      Tables(
        if resources == null then [] else resources[..resourceCount], if resources == null then 0 else resourceCapacity,
        if services == null then [] else services[..serviceCount], if services == null then 0 else serviceCapacity,
        if dependencies == null then [] else dependencies[..dependencyCount],
        if dependencies == null then 0 else dependencyCapacity,
        if instruments == null then [] else instruments[..instrumentCount],
        if instruments == null then 0 else instrumentCapacity)
    }

    /** No tables at all. */
    constructor ()
      ensures Valid() && Value() == Tables([], 0, [], 0, [], 0, [], 0)
    {
      resources, resourceCapacity, resourceCount := null, 0, 0;
      services, serviceCapacity, serviceCount := null, 0, 0;
      dependencies, dependencyCapacity, dependencyCount := null, 0, 0;
      instruments, instrumentCapacity, instrumentCount := null, 0, 0;
    }

    method FindResource(handle: u64) returns (found: bool, index: nat)
      requires Valid()
      ensures found ==> index < |Value().resources| && Value().resources[index].handle == handle
      ensures found ==> forall k | 0 <= k < index :: Value().resources[k].handle != handle
      ensures !found ==> forall k | 0 <= k < |Value().resources| :: Value().resources[k].handle != handle
      ensures Distinct(Handles(Value())) ==>
                (found <==> handle in Index(Value()) && Index(Value())[handle].OfResource?)
                && (found ==> Index(Value())[handle] == OfResource(Value().resources[index]))
    {
      found, index := SearchResources(handle);
      if Distinct(Handles(Value())) {
        if found {
          IndexIsExact(Value(), OfResource(Value().resources[index]), handle);
        } else if handle in Index(Value()) {
          IndexIsExact(Value(), Index(Value())[handle], handle);
        }
      }
    }

    method SearchResources(handle: u64) returns (found: bool, index: nat)
      requires Valid()
      ensures found ==> index < |Value().resources| && Value().resources[index].handle == handle
      ensures found ==> forall k | 0 <= k < index :: Value().resources[k].handle != handle
      ensures !found ==> forall k | 0 <= k < |Value().resources| :: Value().resources[k].handle != handle
    {
      if resources == null {
        return false, 0;
      }
      index := 0;
      while index < resourceCount
        invariant 0 <= index <= resourceCount
        invariant forall k | 0 <= k < index :: resources[k].handle != handle
      {
        if resources[index].handle == handle {
          return true, index;
        }
        index := index + 1;
      }
      found := false;
    }

    method FindService(handle: u64) returns (found: bool, index: nat)
      requires Valid()
      ensures found ==> index < |Value().services| && Value().services[index].handle == handle
      ensures found ==> forall k | 0 <= k < index :: Value().services[k].handle != handle
      ensures !found ==> forall k | 0 <= k < |Value().services| :: Value().services[k].handle != handle
      ensures Distinct(Handles(Value())) ==>
                (found <==> handle in Index(Value()) && Index(Value())[handle].OfService?)
                && (found ==> Index(Value())[handle] == OfService(Value().services[index]))
    {
      found, index := SearchServices(handle);
      if Distinct(Handles(Value())) {
        if found {
          IndexIsExact(Value(), OfService(Value().services[index]), handle);
        } else if handle in Index(Value()) {
          IndexIsExact(Value(), Index(Value())[handle], handle);
        }
      }
    }

    method SearchServices(handle: u64) returns (found: bool, index: nat)
      requires Valid()
      ensures found ==> index < |Value().services| && Value().services[index].handle == handle
      ensures found ==> forall k | 0 <= k < index :: Value().services[k].handle != handle
      ensures !found ==> forall k | 0 <= k < |Value().services| :: Value().services[k].handle != handle
    {
      if services == null {
        return false, 0;
      }
      index := 0;
      while index < serviceCount
        invariant 0 <= index <= serviceCount
        invariant forall k | 0 <= k < index :: services[k].handle != handle
      {
        if services[index].handle == handle {
          return true, index;
        }
        index := index + 1;
      }
      found := false;
    }

    method Contains(handle: u64) returns (found: bool)
      requires Valid()
      ensures found == ContainsHandle(Value(), handle)
      ensures found <==> handle in Index(Value())
    {
      found := SearchAll(handle);
      ContainsIsMembership(Value(), handle);
    }

    method SearchAll(handle: u64) returns (found: bool)
      requires Valid()
      ensures found == ContainsHandle(Value(), handle)
    {
      var i := 0;
      if resources != null {
        while i < resourceCount
          invariant 0 <= i <= resourceCount
          invariant forall k | 0 <= k < i :: resources[k].handle != handle
        {
          if resources[i].handle == handle {
            assert Value().resources[i].handle == handle;
            return true;
          }
          i := i + 1;
        }
      }
      if services != null {
        i := 0;
        while i < serviceCount
          invariant 0 <= i <= serviceCount
          invariant forall k | 0 <= k < i :: services[k].handle != handle
        {
          if services[i].handle == handle {
            assert Value().services[i].handle == handle;
            return true;
          }
          i := i + 1;
        }
      }
      if instruments != null {
        i := 0;
        while i < instrumentCount
          invariant 0 <= i <= instrumentCount
          invariant forall k | 0 <= k < i :: instruments[k].handle != handle
        {
          if instruments[i].handle == handle {
            assert Value().instruments[i].handle == handle;
            return true;
          }
          i := i + 1;
        }
      }
      found := false;
    }

    /** The end of an add: the entry goes behind the last one. */
    method PutResource(entry: Resource)
      requires Valid() && resources != null && resourceCount < resourceCapacity
      modifies this`resourceCount, resources
      ensures Valid() && Value() == old(Value()).(resources := old(Value()).resources + [entry])
    {
      resources[resourceCount] := entry;
      resourceCount := resourceCount + 1;
      assert resources[..resourceCount] == old(resources[..resourceCount]) + [entry];
    }

    /** The end of an add: the entry goes behind the last one. */
    method PutService(entry: Service)
      requires Valid() && services != null && serviceCount < serviceCapacity
      modifies this`serviceCount, services
      ensures Valid() && Value() == old(Value()).(services := old(Value()).services + [entry])
    {
      services[serviceCount] := entry;
      serviceCount := serviceCount + 1;
      assert services[..serviceCount] == old(services[..serviceCount]) + [entry];
    }

    /** The end of an add: the entry goes behind the last one. */
    method PutDependency(entry: Dependency)
      requires Valid() && dependencies != null && dependencyCount < dependencyCapacity
      modifies this`dependencyCount, dependencies
      ensures Valid() && Value() == old(Value()).(dependencies := old(Value()).dependencies + [entry])
    {
      dependencies[dependencyCount] := entry;
      dependencyCount := dependencyCount + 1;
      assert dependencies[..dependencyCount] == old(dependencies[..dependencyCount]) + [entry];
    }

    /** The end of an add: the entry goes behind the last one. */
    method PutInstrument(entry: Instrument)
      requires Valid() && instruments != null && instrumentCount < instrumentCapacity
      modifies this`instrumentCount, instruments
      ensures Valid() && Value() == old(Value()).(instruments := old(Value()).instruments + [entry])
    {
      instruments[instrumentCount] := entry;
      instrumentCount := instrumentCount + 1;
      assert instruments[..instrumentCount] == old(instruments[..instrumentCount]) + [entry];
    }
  }
}
