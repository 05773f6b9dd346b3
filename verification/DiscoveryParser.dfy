/** Parsing a discovery image into the tables (src/discovery/discovery_parser.c): the walk by
    the iterator, and why it is a fold over exactly the records the validator saw. */
module DiscoveryParser {
  import opened Bytes
  import opened DiscoveryFormat
  import opened DiscoveryValidate
  import opened DiscoveryDatabase

  // ---- The add steps, as far as they look at the record

  /** What a step, or a whole parse, comes to: the tables and the result, or the tables at the
      moment a record is read past the end of the image. */
  datatype Outcome =
    | Done(tables: Tables, result: Result)
    | OutOfBounds(tables: Tables)

  /** The handle is read first, and the rest only once there is a place for it. */
  function AddResourceAt(t: Tables, image: seq<u8>, at: nat): Outcome {
    if at + 24 > |image| then OutOfBounds(t)
    else if ContainsHandle(t, Get64(image, at + 16)) then Done(t, DuplicateHandle)
    else if |t.resources| >= t.resourceCapacity then Done(t, CapacityExceeded)
    else if at + TYPED_RECORD_SIZE > |image| then OutOfBounds(t)
    else Done(t.(resources := t.resources + [ResourceAt(image, at)]), Ok)
  }

  function AddServiceAt(t: Tables, image: seq<u8>, at: nat): Outcome {
    if at + 24 > |image| then OutOfBounds(t)
    else if ContainsHandle(t, Get64(image, at + 16)) then Done(t, DuplicateHandle)
    else if |t.services| >= t.serviceCapacity then Done(t, CapacityExceeded)
    else if at + TYPED_RECORD_SIZE > |image| then OutOfBounds(t)
    else Done(t.(services := t.services + [ServiceAt(image, at)]), Ok)
  }

  /** A full table refuses a dependency before any of it is read. */
  function AddDependencyAt(t: Tables, image: seq<u8>, at: nat): Outcome {
    if |t.dependencies| >= t.dependencyCapacity then Done(t, CapacityExceeded)
    else if at + TYPED_RECORD_SIZE > |image| then OutOfBounds(t)
    else Done(t.(dependencies := t.dependencies + [DependencyAt(image, at)]), Ok)
  }

  function AddInstrumentAt(t: Tables, image: seq<u8>, at: nat): Outcome {
    if at + 24 > |image| then OutOfBounds(t)
    else if ContainsHandle(t, Get64(image, at + 16)) then Done(t, DuplicateHandle)
    else if |t.instruments| >= t.instrumentCapacity then Done(t, CapacityExceeded)
    else if at + TYPED_RECORD_SIZE > |image| then OutOfBounds(t)
    else Done(t.(instruments := t.instruments + [InstrumentAt(image, at)]), Ok)
  }

  /** The parser's switch over the record type. */
  function StepAt(t: Tables, image: seq<u8>, at: nat): Outcome {
    if at + RECORD_HEADER_SIZE > |image| then OutOfBounds(t)
    else
      var recordType := Get16(image, at);
      if recordType == RESOURCE then AddResourceAt(t, image, at)
      else if recordType == SERVICE then AddServiceAt(t, image, at)
      else if recordType == DEPENDENCY then AddDependencyAt(t, image, at)
      else if recordType == INSTRUMENTATION then AddInstrumentAt(t, image, at)
      else Done(t, Ok)
  }

  /** A left fold of the steps, up to the first that does not return Ok. */
  function Fold(t: Tables, image: seq<u8>, offsets: seq<nat>): Outcome
    decreases |offsets|
  {
    if offsets == [] then Done(t, Ok)
    else
      var step := StepAt(t, image, offsets[0]);
      if step.OutOfBounds? || step.result != Ok then step else Fold(step.tables, image, offsets[1..])
  }

  /** Validation, then the fold over the records the validator walked. */
  function Parse(t: Tables, image: seq<u8>): Outcome {
    if Validate(image) != Ok then Done(t, Validate(image)) else Fold(t, image, RecordOffsets(image))
  }

  // ---- When all records are complete

  /** All 32 bytes of a typed record are there. */
  predicate Castable(image: seq<u8>, at: nat) {
    at + RECORD_HEADER_SIZE <= |image| && (IsTyped(Get16(image, at)) ==> at + TYPED_RECORD_SIZE <= |image|)
  }

  function EntryAt(image: seq<u8>, at: nat): Entry
    requires Castable(image, at)
  {
    var recordType := Get16(image, at);
    if recordType == RESOURCE then OfResource(ResourceAt(image, at))
    else if recordType == SERVICE then OfService(ServiceAt(image, at))
    else if recordType == DEPENDENCY then OfDependency(DependencyAt(image, at))
    else if recordType == INSTRUMENTATION then OfInstrument(InstrumentAt(image, at))
    else Other
  }

  predicate CastsFit(image: seq<u8>) {
    forall k | 0 <= k < |RecordOffsets(image)| :: Castable(image, RecordOffsets(image)[k])
  }

  predicate AllCastable(image: seq<u8>, offsets: seq<nat>) {
    forall k | 0 <= k < |offsets| :: Castable(image, offsets[k])
  }

  /** The entries of complete records. */
  function EntriesAt(image: seq<u8>, offsets: seq<nat>): (entries: seq<Entry>)
    requires AllCastable(image, offsets)
    ensures |entries| == |offsets|
    ensures forall k | 0 <= k < |entries| :: entries[k] == EntryAt(image, offsets[k])
  {
    seq(|offsets|, k requires 0 <= k < |offsets| => EntryAt(image, offsets[k]))
  }

  /** The entries of the records before END. */
  function EntriesOf(image: seq<u8>): (entries: seq<Entry>)
    requires CastsFit(image)
    ensures |entries| == |RecordOffsets(image)|
    ensures forall k | 0 <= k < |entries| :: entries[k] == EntryAt(image, RecordOffsets(image)[k])
  {
    EntriesAt(image, RecordOffsets(image))
  }

  /** The tables and the result after adding entries until one is refused. */
  function AddAll(t: Tables, entries: seq<Entry>): (Tables, Result)
    decreases |entries|
  {
    if entries == [] then (t, Ok)
    else if AddStatus(t, entries[0]) != Ok then (t, AddStatus(t, entries[0]))
    else AddAll(Add(t, entries[0]), entries[1..])
  }

  /** On a complete record a step adds its entry or refuses it. */
  lemma StepIsAdd(t: Tables, image: seq<u8>, at: nat)
    requires Castable(image, at)
    ensures StepAt(t, image, at) == Done(Add(t, EntryAt(image, at)), AddStatus(t, EntryAt(image, at)))
  {
    hide ContainsHandle, Get16, Get32, Get64;
  }

  /** On complete records the fold adds entries until one is refused. */
  lemma {:induction false} FoldIsAddAll(t: Tables, image: seq<u8>, offsets: seq<nat>)
    requires AllCastable(image, offsets)
    ensures Fold(t, image, offsets) == Done(AddAll(t, EntriesAt(image, offsets)).0, AddAll(t, EntriesAt(image, offsets)).1)
    decreases |offsets|
  {
    hide Castable, EntryAt, StepAt, AddStatus, Add;
    if offsets == [] {
    } else {
      var entry := EntryAt(image, offsets[0]);
      StepIsAdd(t, image, offsets[0]);
      RefusedAddKeeps(t, entry);
      assert EntriesAt(image, offsets)[1..] == EntriesAt(image, offsets[1..]);
      FoldIsAddAll(Add(t, entry), image, offsets[1..]);
    }
  }

  // ---- When a record is read past the end of the image

  /** Refused on the strength of what comes before the last eight bytes of the record. */
  predicate RefusedUnread(t: Tables, image: seq<u8>, at: nat)
    requires at + RECORD_HEADER_SIZE <= |image|
  {
    var recordType := Get16(image, at);
    if recordType == DEPENDENCY then |t.dependencies| >= t.dependencyCapacity
    else
      && at + 24 <= |image|
      && (|| ContainsHandle(t, Get64(image, at + 16))
          || (recordType == RESOURCE && |t.resources| >= t.resourceCapacity)
          || (recordType == SERVICE && |t.services| >= t.serviceCapacity)
          || (recordType == INSTRUMENTATION && |t.instruments| >= t.instrumentCapacity))
  }

  lemma StepOverrunsIff(t: Tables, image: seq<u8>, at: nat)
    requires at + RECORD_HEADER_SIZE <= |image|
    ensures StepAt(t, image, at).OutOfBounds? <==>
            IsTyped(Get16(image, at)) && at + TYPED_RECORD_SIZE > |image| && !RefusedUnread(t, image, at)
  {
    hide ContainsHandle, Get16, Get32, Get64;
  }

  lemma {:induction false} FoldAppends(t: Tables, image: seq<u8>, a: seq<nat>, b: seq<nat>)
    ensures var front := Fold(t, image, a);
            Fold(t, image, a + b) ==
            if front == Done(front.tables, Ok) then Fold(front.tables, image, b) else front
    decreases |a|
  {
    hide StepAt;
    if a == [] {
      assert a + b == b;
    } else {
      assert (a + b)[1..] == a[1..] + b;
      FoldAppends(StepAt(t, image, a[0]).tables, image, a[1..], b);
    }
  }

  /** The fold gets as far as record k, with these tables. */
  predicate Reaches(t: Tables, image: seq<u8>, offsets: seq<nat>, k: nat, reached: Tables) {
    k < |offsets| && Fold(t, image, offsets[..k]) == Done(reached, Ok)
  }

  /** A record the fold reaches decides it, unless its step returns Ok. */
  lemma ReachedStepDecides(t: Tables, image: seq<u8>, offsets: seq<nat>, k: nat, reached: Tables)
    requires Reaches(t, image, offsets, k, reached)
    ensures var step := StepAt(reached, image, offsets[k]);
            step.OutOfBounds? || step.result != Ok ==> Fold(t, image, offsets) == step
  {
    hide StepAt;
    assert offsets == offsets[..k] + offsets[k..];
    FoldAppends(t, image, offsets[..k], offsets[k..]);
  }

  /** The fold ends on the first step that does not return Ok, if there is one. */
  lemma {:induction false} FoldStops(t: Tables, image: seq<u8>, offsets: seq<nat>) returns (k: nat)
    ensures k <= |offsets|
    ensures Fold(t, image, offsets[..k]) == Done(Fold(t, image, offsets).tables, Ok)
    ensures k == |offsets| ==> Fold(t, image, offsets) == Done(Fold(t, image, offsets).tables, Ok)
    ensures k < |offsets| ==>
              && Fold(t, image, offsets) == StepAt(Fold(t, image, offsets).tables, image, offsets[k])
              && Fold(t, image, offsets) != Done(Fold(t, image, offsets).tables, Ok)
    decreases |offsets|
  {
    if offsets == [] {
      k := 0;
    } else {
      var step, rest := StepAt(t, image, offsets[0]), offsets[1..];
      StepTables(t, image, offsets[0]);
      hide StepAt;
      if step.OutOfBounds? || step.result != Ok {
        k := 0;
      } else {
        var k' := FoldStops(step.tables, image, rest);
        k := k' + 1;
        assert offsets[..k][1..] == rest[..k'] && offsets[..k][0] == offsets[0];
      }
    }
  }

  /** A step that does not return Ok changes nothing. */
  lemma StepTables(t: Tables, image: seq<u8>, at: nat)
    ensures var step := StepAt(t, image, at);
            step.OutOfBounds? || step.result != Ok ==> step.tables == t
  {
    hide ContainsHandle, Get16, Get32, Get64;
  }

  // ---- The two walks agree

  /** Offsets of records inside an image, each leading to the next one through the iterator,
      with END at the last of them and nowhere else. */
  predicate Linked(image: seq<u8>, offsets: seq<nat>) {
    && offsets != []
    && (forall k | 0 <= k < |offsets| :: offsets[k] + RECORD_HEADER_SIZE <= |image|)
    && (forall k | 0 <= k < |offsets| :: Get16(image, offsets[k]) == END <==> k == |offsets| - 1)
    && (forall k, n | 0 <= k < |offsets| && n == k + 1 < |offsets| :: NextRecord(image, offsets[k]) == At(offsets[n]))
  }

  lemma {:induction false} ScanIsLinked(image: seq<u8>, total: nat, offset: nat)
    requires total <= |image| && ScanFrom(image, total, offset).Ended?
    ensures Linked(image, ScanFrom(image, total, offset).offsets)
    ensures ScanFrom(image, total, offset).offsets[0] == offset
    decreases total - offset
  {
    hide Get16, Get32;
    if Get16(image, offset) != END {
      var length := Get32(image, offset + 4);
      ScanIsLinked(image, total, offset + length);
      var rest := ScanFrom(image, total, offset + length).offsets;
      assert NextRecord(image, offset) == At(rest[0]);
      LinkedPrepends(image, offset, rest);
    }
  }

  lemma LinkedPrepends(image: seq<u8>, offset: nat, rest: seq<nat>)
    requires Linked(image, rest) && offset + RECORD_HEADER_SIZE <= |image|
    requires Get16(image, offset) != END && NextRecord(image, offset) == At(rest[0])
    ensures Linked(image, [offset] + rest)
  {
    hide Get16, NextRecord;
    var all := [offset] + rest;
    forall k, n | 0 <= k < |all| && n == k + 1 < |all|
      ensures NextRecord(image, all[k]) == At(all[n])
    {
      assert all[n] == rest[n - 1];
    }
  }

  /** The iterator steps through exactly the validator's records, and ends at END. */
  lemma IteratorFollowsValidator(image: seq<u8>) returns (offsets: seq<nat>)
    requires Validate(image) == Ok
    ensures Linked(image, offsets) && FirstRecord(|image|) == At(offsets[0])
    ensures RecordOffsets(image) == offsets[..|offsets| - 1]
  {
    hide Get16, Get32, CrcValid, Linked;
    if CheckHeader(image) == Ok {
      HeaderBounds(image);
      FailureIsAnError(image, Get32(image, 8), HEADER_SIZE);
    }
    offsets := ScanImage(image).offsets;
    HeaderBounds(image);
    ScanIsLinked(image, Get32(image, 8), HEADER_SIZE);
    LinkedIsNonempty(image, offsets);
  }

  lemma LinkedIsNonempty(image: seq<u8>, offsets: seq<nat>)
    requires Linked(image, offsets)
    ensures offsets != []
  {
  }

  lemma HeaderBounds(image: seq<u8>)
    requires CheckHeader(image) == Ok
    ensures HEADER_SIZE <= |image| && HEADER_SIZE <= Get32(image, 8) <= |image| && Get32(image, 8) % 8 == 0
  {
    hide CrcValid, Get16;
  }

  lemma RefusedAddKeeps(t: Tables, entry: Entry)
    ensures AddStatus(t, entry) != Ok ==> Add(t, entry) == t
  {
  }

  /** A validated image makes the parser read past its end exactly when the fold reaches a
      typed record that starts less than 32 bytes before the end and is not refused on what
      precedes its last bytes. */
  lemma OverrunsIff(t: Tables, image: seq<u8>)
    requires Validate(image) == Ok
    ensures Parse(t, image).OutOfBounds? <==>
            exists k: nat, reached ::
              && Reaches(t, image, RecordOffsets(image), k, reached)
              && Overruns(reached, image, RecordOffsets(image)[k])
  {
    hide Validate, RecordOffsets, StepAt, RefusedUnread, Get16, Fold;
    var offsets := RecordOffsets(image);
    var linked := IteratorFollowsValidator(image);
    forall k | 0 <= k < |offsets|
      ensures offsets[k] + RECORD_HEADER_SIZE <= |image|
    {
      assert offsets[k] == linked[k];
    }
    if Parse(t, image).OutOfBounds? {
      var k := FoldStops(t, image, offsets);
      var reached := Fold(t, image, offsets).tables;
      StepOverrunsIff(reached, image, offsets[k]);
      assert Reaches(t, image, offsets, k, reached) && Overruns(reached, image, offsets[k]);
    }
    if k: nat, reached :| Reaches(t, image, offsets, k, reached) && Overruns(reached, image, offsets[k]) {
      StepOverrunsIff(reached, image, offsets[k]);
      ReachedStepDecides(t, image, offsets, k, reached);
    }
  }

  predicate Overruns(t: Tables, image: seq<u8>, at: nat) {
    && at + RECORD_HEADER_SIZE <= |image| && IsTyped(Get16(image, at))
    && at + TYPED_RECORD_SIZE > |image| && !RefusedUnread(t, image, at)
  }

  /** What a caller can check before the parse: END takes eight bytes of its own, so typed
      records of at least 24 bytes are enough. */
  predicate TypedRecordsAreLong(image: seq<u8>) {
    forall k | 0 <= k < |RecordOffsets(image)| ::
      var at := RecordOffsets(image)[k];
      at + RECORD_HEADER_SIZE <= |image| && IsTyped(Get16(image, at)) ==> Get32(image, at + 4) >= 24
  }

  lemma LongRecordsFit(t: Tables, image: seq<u8>)
    requires TypedRecordsAreLong(image)
    ensures Validate(image) == Ok ==> CastsFit(image)
    ensures Parse(t, image).Done?
  {
    hide Validate, RecordOffsets, Get16, Get32, Fold;
    if Validate(image) == Ok {
      var linked := IteratorFollowsValidator(image);
      var offsets := RecordOffsets(image);
      forall k | 0 <= k < |offsets|
        ensures Castable(image, offsets[k])
      {
        assert offsets[k] == linked[k] && NextRecord(image, linked[k]) == At(linked[k + 1]);
      }
      FoldIsAddAll(t, image, offsets);
    }
  }

  // ---- The procedures

  /** add_resource; a handle is looked at before the table's capacity. */
  method AddResource(db: Database, image: array<u8>, at: nat) returns (result: Result)
    requires db.Valid() && AddResourceAt(db.Value(), image[..], at).Done?
    modifies db`resourceCount, db.resources
    ensures db.Valid()
    ensures Done(db.Value(), result) == AddResourceAt(old(db.Value()), image[..], at)
  {
    hide ContainsHandle, Handles, Index, Get64, ResourceAt;
    var handle := ReadLe64(image, at + 16);
    var duplicate := db.Contains(handle);
    if duplicate {
      return DuplicateHandle;
    }
    if db.resources == null || db.resourceCount >= db.resourceCapacity {
      return CapacityExceeded;
    }
    db.PutResource(ResourceAt(image[..], at));
    result := Ok;
  }

  method AddService(db: Database, image: array<u8>, at: nat) returns (result: Result)
    requires db.Valid() && AddServiceAt(db.Value(), image[..], at).Done?
    modifies db`serviceCount, db.services
    ensures db.Valid()
    ensures Done(db.Value(), result) == AddServiceAt(old(db.Value()), image[..], at)
  {
    hide ContainsHandle, Handles, Index, Get64, ServiceAt;
    var handle := ReadLe64(image, at + 16);
    var duplicate := db.Contains(handle);
    if duplicate {
      return DuplicateHandle;
    }
    if db.services == null || db.serviceCount >= db.serviceCapacity {
      return CapacityExceeded;
    }
    db.PutService(ServiceAt(image[..], at));
    result := Ok;
  }

  method AddDependency(db: Database, image: array<u8>, at: nat) returns (result: Result)
    requires db.Valid() && AddDependencyAt(db.Value(), image[..], at).Done?
    modifies db`dependencyCount, db.dependencies
    ensures db.Valid()
    ensures Done(db.Value(), result) == AddDependencyAt(old(db.Value()), image[..], at)
  {
    hide DependencyAt;
    if db.dependencies == null || db.dependencyCount >= db.dependencyCapacity {
      return CapacityExceeded;
    }
    db.PutDependency(DependencyAt(image[..], at));
    result := Ok;
  }

  method AddInstrument(db: Database, image: array<u8>, at: nat) returns (result: Result)
    requires db.Valid() && AddInstrumentAt(db.Value(), image[..], at).Done?
    modifies db`instrumentCount, db.instruments
    ensures db.Valid()
    ensures Done(db.Value(), result) == AddInstrumentAt(old(db.Value()), image[..], at)
  {
    hide ContainsHandle, Handles, Index, Get64, InstrumentAt;
    var handle := ReadLe64(image, at + 16);
    var duplicate := db.Contains(handle);
    if duplicate {
      return DuplicateHandle;
    }
    if db.instruments == null || db.instrumentCount >= db.instrumentCapacity {
      return CapacityExceeded;
    }
    db.PutInstrument(InstrumentAt(image[..], at));
    result := Ok;
  }

  /** Asks of its caller that no record is read past the end of the image, and no more. */
  method ParseImage(db: Database, image: array<u8>) returns (result: Result)
    requires db.Valid() && Parse(db.Value(), image[..]).Done?
    modifies db, db.resources, db.services, db.dependencies, db.instruments
    ensures db.Valid() && image[..] == old(image[..])
    ensures Done(db.Value(), result) == Parse(old(db.Value()), old(image[..]))
  {
    hide Validate, RecordOffsets, Fold;
    result := ValidateImage(image);
    if result != Ok {
      return;
    }
    result := ParseRecords(db, image);
  }

  /** What is left of the fold when the iterator stands on record k. */
  ghost predicate Standing(image: seq<u8>, offsets: seq<nat>, k: nat, position: Position) {
    && Linked(image, offsets) && RecordOffsets(image) == offsets[..|offsets| - 1]
    && k < |offsets| && position == At(offsets[k])
  }

  lemma StandingFacts(image: seq<u8>, offsets: seq<nat>, k: nat, position: Position)
    requires Standing(image, offsets, k, position)
    ensures position.At? && position.offset + RECORD_HEADER_SIZE <= |image|
    ensures Get16(image, position.offset) == END <==> k == |RecordOffsets(image)|
    ensures k < |RecordOffsets(image)| ==>
              && RecordOffsets(image)[k] == position.offset
              && Standing(image, offsets, k + 1, NextRecord(image, position.offset))
    ensures k <= |RecordOffsets(image)|
  {
    hide Get16, NextRecord, RecordOffsets;
    if k < |RecordOffsets(image)| {
      assert RecordOffsets(image)[k] == offsets[k];
    }
  }

  lemma FoldStep(t: Tables, image: seq<u8>, offsets: seq<nat>, k: nat)
    requires k < |offsets|
    ensures var step := StepAt(t, image, offsets[k]);
      Fold(t, image, offsets[k..]) ==
      if step.OutOfBounds? || step.result != Ok then step else Fold(step.tables, image, offsets[k + 1..])
  {
    hide StepAt;
    assert offsets[k..][1..] == offsets[k + 1..];
  }

  lemma NothingLeft(t: Tables, image: seq<u8>, offsets: seq<nat>)
    requires offsets == []
    ensures Fold(t, image, offsets) == Done(t, Ok)
  {
  }

  /** The loop over the records of an image that validated. */
  method ParseRecords(db: Database, image: array<u8>) returns (result: Result)
    requires db.Valid() && Validate(image[..]) == Ok
    requires Fold(db.Value(), image[..], RecordOffsets(image[..])).Done?
    modifies db, db.resources, db.services, db.dependencies, db.instruments
    ensures db.Valid() && image[..] == old(image[..])
    ensures Done(db.Value(), result) == Fold(old(db.Value()), old(image[..]), RecordOffsets(old(image[..])))
  {
    hide Validate, RecordOffsets, Get16, NextRecord, FirstRecord, StepAt;
    ghost var t0, bytes := db.Value(), image[..];
    ghost var linked := IteratorFollowsValidator(bytes);
    ghost var offsets, k := RecordOffsets(bytes), 0;
    var position := FirstRecord(image.Length);
    assert offsets[0..] == offsets;
    hide Standing, Fold;
    while position.At?
      invariant db.Valid() && image[..] == bytes && Standing(bytes, linked, k, position)
      invariant db.resources == old(db.resources) && db.services == old(db.services)
      invariant db.dependencies == old(db.dependencies) && db.instruments == old(db.instruments)
      invariant k <= |offsets| && Fold(db.Value(), bytes, offsets[k..]) == Fold(t0, bytes, offsets)
      decreases |offsets| - k
    {
      StandingFacts(bytes, linked, k, position);
      var at := position.offset;
      var recordType := ReadLe16(image, at);
      if recordType == END {
        NothingLeft(db.Value(), bytes, offsets[k..]);
        return Ok;
      }
      FoldStep(db.Value(), bytes, offsets, k);
      result := AddRecord(db, image, at);
      if result != Ok {
        return;
      }
      position := NextRecord(image[..], at);
      k := k + 1;
    }
    StandingFacts(bytes, linked, k, position);
    result := MissingEnd;
  }

  /** The parser's switch over the record type. */
  method AddRecord(db: Database, image: array<u8>, at: nat) returns (result: Result)
    requires db.Valid() && StepAt(db.Value(), image[..], at).Done?
    modifies db, db.resources, db.services, db.dependencies, db.instruments
    ensures db.Valid() && image[..] == old(image[..])
    ensures Done(db.Value(), result) == StepAt(old(db.Value()), image[..], at)
    ensures db.resources == old(db.resources) && db.services == old(db.services)
    ensures db.dependencies == old(db.dependencies) && db.instruments == old(db.instruments)
  {
    hide AddResourceAt, AddServiceAt, AddDependencyAt, AddInstrumentAt;
    var recordType := ReadLe16(image, at);
    if recordType == RESOURCE {
      result := AddResource(db, image, at);
    } else if recordType == SERVICE {
      result := AddService(db, image, at);
    } else if recordType == DEPENDENCY {
      result := AddDependency(db, image, at);
    } else if recordType == INSTRUMENTATION {
      result := AddInstrument(db, image, at);
    } else {
      result := Ok;
    }
  }
}
