/** Properties of whole parses, and of any sequence of them into one database. */
module DiscoveryRuns {
  import opened Bytes
  import opened DiscoveryFormat
  import opened DiscoveryValidate
  import opened DiscoveryDatabase
  import opened DiscoveryParser

  /** Every table of `t'` starts with that table of `t`, and the capacities are the same. */
  predicate Extends(t: Tables, t': Tables) {
    && t.resources <= t'.resources && t.resourceCapacity == t'.resourceCapacity
    && t.services <= t'.services && t.serviceCapacity == t'.serviceCapacity
    && t.dependencies <= t'.dependencies && t.dependencyCapacity == t'.dependencyCapacity
    && t.instruments <= t'.instruments && t.instrumentCapacity == t'.instrumentCapacity
  }

  /** A step adds one entry or none, and can only fail in these ways. */
  lemma StepAddsOne(t: Tables, image: seq<u8>, at: nat)
    ensures var step := StepAt(t, image, at);
      && (step.tables == t || exists entry :: AddStatus(t, entry) == Ok && step.tables == Add(t, entry))
      && (step.Done? ==> step.result == Ok || step.result == DuplicateHandle || step.result == CapacityExceeded)
  {
    var step := StepAt(t, image, at);
    if Castable(image, at) {
      StepIsAdd(t, image, at);
      var entry := EntryAt(image, at);
      hide StepAt, EntryAt, ContainsHandle, Get16;
      if AddStatus(t, entry) != Ok {
        RefusedAddKeeps(t, entry);
      }
    } else {
      ShortStepRefuses(t, image, at);
    }
  }

  /** A record that is not complete is never added. */
  lemma ShortStepRefuses(t: Tables, image: seq<u8>, at: nat)
    requires !Castable(image, at)
    ensures var step := StepAt(t, image, at);
      step.tables == t && (step.Done? ==> step.result == DuplicateHandle || step.result == CapacityExceeded)
  {
    hide ContainsHandle, Get16, Get32, Get64;
  }

  lemma StepExtends(t: Tables, image: seq<u8>, at: nat)
    ensures Extends(t, StepAt(t, image, at).tables)
  {
    hide StepAt;
    StepAddsOne(t, image, at);
  }

  lemma {:induction false} FoldExtends(t: Tables, image: seq<u8>, offsets: seq<nat>)
    ensures Extends(t, Fold(t, image, offsets).tables)
    decreases |offsets|
  {
    hide StepAt;
    if offsets == [] {
    } else {
      StepExtends(t, image, offsets[0]);
      FoldExtends(StepAt(t, image, offsets[0]).tables, image, offsets[1..]);
    }
  }

  /** What a parse leaves behind, whatever the image: nothing changes when validation fails;
      otherwise the tables are extended by the records up to the first whose step does not
      return Ok, and that step is the outcome. The only results are then a duplicate handle or
      a full table. In particular the parser itself never misses END. */
  lemma ParseOutcome(t: Tables, image: seq<u8>) returns (k: nat)
    ensures var parsed := Parse(t, image);
      && Extends(t, parsed.tables)
      && (Validate(image) != Ok ==> parsed == Done(t, Validate(image)))
      && (Validate(image) == Ok ==>
            && k <= |RecordOffsets(image)|
            && Fold(t, image, RecordOffsets(image)[..k]) == Done(parsed.tables, Ok)
            && (parsed == Done(parsed.tables, Ok) <==> k == |RecordOffsets(image)|)
            && (k < |RecordOffsets(image)| ==> parsed == StepAt(parsed.tables, image, RecordOffsets(image)[k]))
            && (parsed.Done? ==>
                  parsed.result == Ok || parsed.result == DuplicateHandle || parsed.result == CapacityExceeded))
  {
    hide Validate, RecordOffsets, StepAt;
    var offsets := RecordOffsets(image);
    k := 0;
    if Validate(image) == Ok {
      FoldExtends(t, image, offsets);
      k := FoldStops(t, image, offsets);
      if k < |offsets| {
        StepAddsOne(Fold(t, image, offsets).tables, image, offsets[k]);
      }
    }
  }

  /** Handles pairwise distinct over resources, services and instruments together, and no
      table over its capacity. */
  predicate Sound(t: Tables) {
    Distinct(Handles(t)) && WithinCapacity(t)
  }

  lemma StepKeepsSound(t: Tables, image: seq<u8>, at: nat)
    requires Sound(t)
    ensures Sound(StepAt(t, image, at).tables)
  {
    hide StepAt, Add, AddStatus, Distinct, Handles, WithinCapacity;
    StepAddsOne(t, image, at);
    var t' := StepAt(t, image, at).tables;
    if t' != t {
      var entry :| AddStatus(t, entry) == Ok && t' == Add(t, entry);
      AddKeepsHandlesDistinct(t, entry);
    }
  }

  lemma {:induction false} FoldKeepsSound(t: Tables, image: seq<u8>, offsets: seq<nat>)
    requires Sound(t)
    ensures Sound(Fold(t, image, offsets).tables)
    decreases |offsets|
  {
    hide Sound, StepAt;
    if offsets == [] {
    } else {
      StepKeepsSound(t, image, offsets[0]);
      FoldKeepsSound(StepAt(t, image, offsets[0]).tables, image, offsets[1..]);
    }
  }

  /** One image after another into the same tables, whatever each parse returned. A parse that
      reads out of bounds is the last. */
  function ParseEach(t: Tables, images: seq<seq<u8>>): Tables
    decreases |images|
  {
    if images == [] then t
    else
      match Parse(t, images[0])
      case Done(t', _) => ParseEach(t', images[1..])
      case OutOfBounds(t') => t'
  }

  /** Across any sequence of parses, handles stay pairwise distinct over resources, services
      and instruments together, and no table overflows. */
  lemma {:induction false} ParsesKeepHandlesDistinct(t: Tables, images: seq<seq<u8>>)
    requires Distinct(Handles(t)) && WithinCapacity(t)
    ensures Distinct(Handles(ParseEach(t, images))) && WithinCapacity(ParseEach(t, images))
    decreases |images|
  {
    hide Distinct, Handles, WithinCapacity, Fold, Validate, RecordOffsets;
    if images == [] {
    } else {
      FoldKeepsSound(t, images[0], RecordOffsets(images[0]));
      ParsesKeepHandlesDistinct(Parse(t, images[0]).tables, images[1..]);
    }
  }

  /** Hence every handle means one thing, and it keeps meaning it through later parses. */
  lemma MeaningsPersist(t: Tables, images: seq<seq<u8>>, handle: u64)
    requires Distinct(Handles(t)) && WithinCapacity(t) && handle in Index(t)
    ensures handle in Index(ParseEach(t, images)) && Index(ParseEach(t, images))[handle] == Index(t)[handle]
  {
    hide Index, Handles, Distinct, ParseEach;
    var t' := ParseEach(t, images);
    ParsesKeepHandlesDistinct(t, images);
    ParsesExtend(t, images);
    var entry := Index(t)[handle];
    IndexIsExact(t, entry, handle);
    NamesExtend(t, t', entry, handle);
    IndexIsExact(t', entry, handle);
  }

  lemma NamesExtend(t: Tables, t': Tables, entry: Entry, handle: u64)
    requires Extends(t, t') && Names(t, entry, handle)
    ensures Names(t', entry, handle)
  {
  }

  lemma {:induction false} ParsesExtend(t: Tables, images: seq<seq<u8>>)
    ensures Extends(t, ParseEach(t, images))
    decreases |images|
  {
    hide Parse;
    if images == [] {
    } else {
      var k := ParseOutcome(t, images[0]);
      ParsesExtend(Parse(t, images[0]).tables, images[1..]);
    }
  }
}
