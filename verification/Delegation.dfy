/** What delegation does to authority: exactly when it only reduces it, and why chains of
    delegations of any length behave like a single one. */
module Delegation {
  import opened Bytes
  import opened Rings
  import opened Words
  import opened CapabilityPolicy
  import opened Authority
  import E = CapabilityEvaluator

  // ---- When a delegation is accepted

  predicate UsesSupervisor(c: Capability) {
    c.minimumRing == 0xFFFE || c.maximumRing == 0xFFFE
  }

  /** Ordinary bounds narrow to some of the parent's rings. A fabric child of an ordinary parent
      needs an ordinary maximum among the parent's bounds; under a fabric parent everything is
      fabric. */
  predicate Narrows(parent: Capability, child: Capability) {
    if child.minimumRing != 0xFFFF then parent.minimumRing != 0xFFFF && RingsOf(child) <= RingsOf(parent)
    else if parent.minimumRing != 0xFFFF then parent.minimumRing <= child.maximumRing <= parent.maximumRing
    else child.maximumRing == parent.maximumRing == 0xFFFF
  }

  /** Two complete records without supervisor bounds, of which the parent may be delegated (bit
      3), for one target and operation; the child has no flag its parent lacks, and narrower
      bounds. */
  predicate Delegable(parent: Capability, child: Capability) {
    && Complete(parent) && Complete(child) && !UsesSupervisor(parent) && !UsesSupervisor(child)
    && Digit(parent.flags, 3)
    && parent.targetHandle == child.targetHandle && parent.operationId == child.operationId
    && (forall i | 0 <= i < 32 :: Digit(child.flags, i) ==> Digit(parent.flags, i))
    && Narrows(parent, child)
  }

  lemma NarrowsIff(parent: Capability, child: Capability)
    requires Complete(parent) && Complete(child) && !UsesSupervisor(parent) && !UsesSupervisor(child)
    ensures Narrows(parent, child) <==>
            parent.minimumRing <= child.minimumRing && parent.minimumRing <= child.maximumRing <= parent.maximumRing
  {
    OrdinaryBounds(parent);
    OrdinaryBounds(child);
    if parent.minimumRing < 0xFFFE && child.minimumRing < 0xFFFE {
      SubsetOfRings(parent, child);
    }
  }

  lemma OrdinaryBounds(c: Capability)
    requires ValidBounds(c)
    ensures c.minimumRing < 0xFFFE ==> c.minimumRing <= c.maximumRing <= 3
    ensures c.minimumRing == 0xFFFF ==> c.maximumRing == 0xFFFF || c.maximumRing <= 3
  {
    hide ValidBounds;
    RangeValidIff(c);
  }

  lemma SubsetOfRings(parent: Capability, child: Capability)
    requires parent.minimumRing <= parent.maximumRing <= 3 && child.minimumRing <= child.maximumRing <= 3
    ensures RingsOf(child) <= RingsOf(parent) <==>
            parent.minimumRing <= child.minimumRing && child.maximumRing <= parent.maximumRing
  {
    var rings := [Kernel, Driver, Service, Application];
    forall i | 0 <= i < 4
      ensures rings[i] in RingsOf(child) <==> child.minimumRing <= i <= child.maximumRing
      ensures rings[i] in RingsOf(parent) <==> parent.minimumRing <= i <= parent.maximumRing
    {
    }
    if RingsOf(child) <= RingsOf(parent) {
      assert rings[child.minimumRing] in RingsOf(child) && rings[child.maximumRing] in RingsOf(child);
    }
  }

  lemma FlagChecksMean(parent: Capability, child: Capability)
    ensures Has(parent.flags, DELEGATION_ALLOWED) <==> Digit(parent.flags, 3)
    ensures !Has(child.flags, BitNot(parent.flags)) <==>
            forall i | 0 <= i < 32 :: Digit(child.flags, i) ==> Digit(parent.flags, i)
  {
    hide Has, BitNot;
    assert Pow2(3) == 8;
    HasIsDigit(parent.flags, 3, DELEGATION_ALLOWED);
    FlagsAreSubset(child.flags, parent.flags);
    assert forall i | 0 <= i < 32 :: Register(child.flags)[i] == Digit(child.flags, i);
    assert forall i | 0 <= i < 32 :: Register(parent.flags)[i] == Digit(parent.flags, i);
  }

  /** A delegation is accepted exactly when it is one of these. */
  lemma DelegationOkIff(parent: Capability, child: Capability)
    ensures DelegationStatus(parent, child) == Ok <==> Delegable(parent, child)
  {
    hide Has, BitNot, Digit, RecordStatus, Complete, Narrows;
    RecordStatusIff(parent);
    RecordStatusIff(child);
    FlagChecksMean(parent, child);
    if Complete(parent) && Complete(child) && !UsesSupervisor(parent) && !UsesSupervisor(child) {
      NarrowsIff(parent, child);
    }
  }

  /** Why one is refused: an incomplete record first; then, of records that may be delegated at
      all, another target, another operation; everything else is denied as a delegation. */
  lemma DelegationRefusals(parent: Capability, child: Capability)
    ensures var status := DelegationStatus(parent, child);
      var eligible := Digit(parent.flags, 3) && !UsesSupervisor(parent) && !UsesSupervisor(child);
      status == if !Complete(parent) || !Complete(child) then InvalidCapability
                else if !eligible then DelegationDenied
                else if parent.targetHandle != child.targetHandle then ResourceDenied
                else if parent.operationId != child.operationId then OperationDenied
                else if !Delegable(parent, child) then DelegationDenied
                else Ok
  {
    hide Has, BitNot, Digit, RecordStatus, Complete, Narrows;
    RecordStatusIff(parent);
    RecordStatusIff(child);
    FlagChecksMean(parent, child);
    DelegationOkIff(parent, child);
  }

  /** Ordinary rings: exactly the nonempty subsets of the parent's rings can be delegated, and so
      every single ring it admits. */
  lemma DelegatesToEveryRing(parent: Capability, child: Capability, ring: Ring)
    requires Complete(parent) && parent.minimumRing < 0xFFFE && Digit(parent.flags, 3) && ring in RingsOf(parent)
    requires child.capabilityId != 0 && child.issuerHandle != 0 && child.minimumRing == child.maximumRing == ToWire(ring)
    requires child.targetHandle == parent.targetHandle && child.operationId == parent.operationId
    requires forall i | 0 <= i < 32 :: Digit(child.flags, i) ==> Digit(parent.flags, i)
    ensures DelegationStatus(parent, child) == Ok
  {
    hide Digit, DelegationStatus;
    OrdinaryBounds(parent);
    DelegationOkIff(parent, child);
  }

  // ---- One delegation

  /** What a successful delegation establishes. */
  lemma DelegationFacts(parent: Capability, child: Capability)
    requires DelegationStatus(parent, child) == Ok
    ensures RecordStatus(parent) == Ok && RecordStatus(child) == Ok
    ensures !UsesSupervisorAuthority(parent) && !UsesSupervisorAuthority(child)
    ensures parent.targetHandle == child.targetHandle && parent.operationId == child.operationId
    ensures Has(parent.flags, DELEGATION_ALLOWED) && !Has(child.flags, BitNot(parent.flags))
    ensures parent.minimumRing <= child.minimumRing && parent.minimumRing <= child.maximumRing <= parent.maximumRing
  {
    hide Has, BitNot;
  }

  /** The one case in which a child may be used from a ring its parent may not. */
  predicate EscapesToFabric(parent: Capability, child: Capability) {
    child.minimumRing == WIRE_FABRIC && parent.minimumRing != WIRE_FABRIC
  }

  lemma RingsShrink(parent: Capability, child: Capability, ring: Ring)
    requires DelegationStatus(parent, child) == Ok && InRange(ring, child)
    ensures InRange(ring, parent) <==> !EscapesToFabric(parent, child)
  {
    hide Has, BitNot;
    DelegationFacts(parent, child);
  }

  lemma OperationsShrink(parent: Capability, child: Capability, operationId: u32)
    requires DelegationStatus(parent, child) == Ok && AllowsOperation(child, operationId)
    ensures AllowsOperation(parent, operationId)
  {
    hide Has, BitNot;
    DelegationFacts(parent, child);
    if operationId == READ {
      SubsetKeepsFlag(child.flags, parent.flags, READ_ALLOWED);
    } else if operationId == WRITE {
      SubsetKeepsFlag(child.flags, parent.flags, WRITE_ALLOWED);
    } else if operationId == CONTROL {
      SubsetKeepsFlag(child.flags, parent.flags, CONTROL_ALLOWED);
    }
  }

  /** A request allowed under a delegated capability is allowed under its parent exactly when
      the parent has not expired and the child did not escape to the fabric ring. */
  lemma AllowedUnderParentIff(parent: Capability, child: Capability, request: Request)
    requires DelegationStatus(parent, child) == Ok && Allowed(request, child)
    ensures Allowed(request, parent) <==> !IsExpired(parent, request.currentTime) && !EscapesToFabric(parent, child)
  {
    hide Has, BitNot, InRange, AllowsOperation, DelegationStatus, RecordStatus, IsExpired, EscapesToFabric;
    DelegationFacts(parent, child);
    RingsShrink(parent, child, request.callerRing);
    OperationsShrink(parent, child, request.operationId);
  }

  // ---- When delegation only reduces authority

  /** Some request is allowed under it. */
  predicate Usable(c: Capability) {
    LastLive(c) >= 0 && AllowsOperation(c, c.operationId)
  }

  /** A ring from which a record without supervisor authority can be used. */
  function SomeRing(c: Capability): (ring: Ring)
    requires RecordStatus(c) == Ok && !UsesSupervisorAuthority(c)
    ensures InRange(ring, c)
  {
    if c.minimumRing == WIRE_FABRIC then Fabric
    else if c.minimumRing == 0 then Kernel
    else if c.minimumRing == 1 then Driver
    else if c.minimumRing == 2 then Service
    else Application
  }

  function RequestAt(c: Capability, ring: Ring, time: u64): Request {
    Request(0, 0, 0, ring, 1, 1, c.targetHandle, c.operationId, time, 0)
  }

  lemma RequestAtIsAllowed(c: Capability, ring: Ring, time: u64)
    requires RecordStatus(c) == Ok && InRange(ring, c) && AllowsOperation(c, c.operationId) && time <= LastLive(c)
    ensures Allowed(RequestAt(c, ring, time), c)
  {
    hide RecordStatus, InRange, AllowsOperation, IsExpired, LastLive, Has;
    AliveUntilLastLive(c, time);
    NoFlags(CAPABILITY_REVOKED);
  }

  lemma AllowedIsUsable(c: Capability, request: Request)
    requires Allowed(request, c)
    ensures Usable(c) && request.currentTime <= LastLive(c)
  {
    hide Has, InRange, IsExpired, LastLive, RecordStatus;
    AliveUntilLastLive(c, request.currentTime);
  }

  /** Everything the child may do, the parent may do. */
  ghost predicate Attenuates(parent: Capability, child: Capability) {
    forall request :: Allowed(request, child) ==> Allowed(request, parent)
  }

  /** Exactly when an accepted delegation only reduces authority: the child is of no use at
      all, or it stays out of the fabric ring unless its parent is there, and does not outlive
      its parent. The code checks neither of the last two. */
  lemma AttenuatesIff(parent: Capability, child: Capability)
    requires DelegationStatus(parent, child) == Ok
    ensures Attenuates(parent, child) <==>
            !Usable(child) || (!EscapesToFabric(parent, child) && LastLive(child) <= LastLive(parent))
  {
    hide Has, InRange, IsExpired, RecordStatus, DelegationStatus, Allowed, LastLive;
    hide EscapesToFabric, RequestAt, AllowsOperation;
    DelegationFacts(parent, child);
    if Usable(child) {
      var request := RequestAt(child, SomeRing(child), LastLiveTime(child));
      RequestAtIsAllowed(child, SomeRing(child), LastLiveTime(child));
      AllowedUnderParentIff(parent, child, request);
      AliveUntilLastLive(parent, LastLiveTime(child));
      RequestTime(child, SomeRing(child), LastLiveTime(child));
    }
    forall request | Allowed(request, child)
      ensures Usable(child)
      ensures !EscapesToFabric(parent, child) && LastLive(child) <= LastLive(parent) ==> Allowed(request, parent)
    {
      AllowedIsUsable(child, request);
      AllowedUnderParentIff(parent, child, request);
      AliveUntilLastLive(parent, request.currentTime);
    }
  }

  function LastLiveTime(c: Capability): (time: u64)
    requires Usable(c)
    ensures time == LastLive(c)
  {
    LastLive(c)
  }

  lemma RequestTime(c: Capability, ring: Ring, time: u64)
    ensures RequestAt(c, ring, time).currentTime == time
  {
  }

  // ---- The same question for the evaluator

  /** A decision that is no more permissive than another. */
  predicate NoMore(a: E.Decision, b: E.Decision) {
    match a
    case Allow => b == E.Allow
    case RecoveryOnly => b == E.Allow || b == E.RecoveryOnly
    case _ => true
  }

  ghost predicate EvaluatorAttenuates(parent: Capability, child: Capability) {
    forall request: E.Request :: NoMore(E.Verdict(child, request).0, E.Verdict(parent, request).0)
  }

  lemma EvaluatorRingsShrink(parent: Capability, child: Capability, ring: Ring)
    requires DelegationStatus(parent, child) == Ok && E.RingAllows(child.minimumRing, child.maximumRing, ring)
    ensures E.RingAllows(parent.minimumRing, parent.maximumRing, ring) <==> !EscapesToFabric(parent, child)
  {
    hide Has, BitNot;
    DelegationFacts(parent, child);
  }

  /** The evaluator never looks at lifetimes, but it does look at the trust requirement and at
      the recovery flag. Delegation checks neither, and a flag that restricts may be dropped:
      so under the evaluator a delegated capability gives no more than its parent exactly when
      it asks for at least as much trust, keeps the recovery flag and does not escape. */
  lemma EvaluatorAttenuatesIff(parent: Capability, child: Capability)
    requires DelegationStatus(parent, child) == Ok
    ensures EvaluatorAttenuates(parent, child) <==>
            && !EscapesToFabric(parent, child)
            && parent.trustRequirement <= child.trustRequirement
            && (Has(parent.flags, RECOVERY_ONLY) ==> Has(child.flags, RECOVERY_ONLY))
  {
    hide Has, BitNot, InRange, E.RingAllows, EscapesToFabric, DelegationStatus;
    DelegationFacts(parent, child);
    var ring := SomeRing(child);
    E.RingTestsDiffer(child, ring);
    var request := E.Request(child.targetHandle, child.operationId, ring, child.trustRequirement, 0);
    EvaluatorRingsShrink(parent, child, ring);
    assert E.Verdict(child, request).0 == if Has(child.flags, RECOVERY_ONLY) then E.RecoveryOnly else E.Allow;
    if EvaluatorAttenuates(parent, child) {
      assert NoMore(E.Verdict(child, request).0, E.Verdict(parent, request).0);
    }
    forall other: E.Request | E.RingAllows(child.minimumRing, child.maximumRing, other.requesterRing)
      ensures !EscapesToFabric(parent, child) ==> E.RingAllows(parent.minimumRing, parent.maximumRing, other.requesterRing)
    {
      EvaluatorRingsShrink(parent, child, other.requesterRing);
    }
    if Has(child.flags, RECOVERY_ONLY) {
      SubsetKeepsFlag(child.flags, parent.flags, RECOVERY_ONLY);
    }
  }

  function Sample(id: u32, minimumRing: u16, flags: u32, expiration: u64): Capability {
    Capability(id, 4, 1, minimumRing, WIRE_APPLICATION, flags, 0, expiration, 1, 0, 0)
  }

  /** Every condition is needed. Under the policy, a child without the time limit of its parent
      outlives it, and a child of a kernel capability may be for the fabric ring. Under the
      evaluator, the first pair also drops the recovery flag; a child that keeps every flag may
      still ask for less trust. */
  lemma DelegationCanWiden()
    ensures var parent, child := Sample(1, 0, UINT32_MAX, 10), Sample(2, 0, 0, 0);
      DelegationStatus(parent, child) == Ok && !EscapesToFabric(parent, child) && !Attenuates(parent, child)
    ensures var parent, child := Sample(1, 0, UINT32_MAX, UINT64_MAX), Sample(2, WIRE_FABRIC, 0, 0);
      DelegationStatus(parent, child) == Ok && LastLive(child) <= LastLive(parent) && !Attenuates(parent, child)
    ensures var parent, child := Sample(1, 0, UINT32_MAX, 10), Sample(2, 0, 0, 0);
      && !EvaluatorAttenuates(parent, child) && !EscapesToFabric(parent, child)
      && parent.trustRequirement == child.trustRequirement
    ensures var parent, child := Sample(1, 0, UINT32_MAX, 10).(trustRequirement := 1), Sample(2, 0, UINT32_MAX, 10);
      DelegationStatus(parent, child) == Ok && !EscapesToFabric(parent, child) && !EvaluatorAttenuates(parent, child)
  {
    hide Has, BitNot, Attenuates, EvaluatorAttenuates;
    AllFlags(RECOVERY_ONLY);
    NoFlags(RECOVERY_ONLY);
    AllHasNoComplement();
    AllFlags(TIME_LIMITED);
    AllFlags(DELEGATION_ALLOWED);
    NoFlags(BitNot(UINT32_MAX));
    NoFlags(TIME_LIMITED);
    AttenuatesIff(Sample(1, 0, UINT32_MAX, 10), Sample(2, 0, 0, 0));
    AttenuatesIff(Sample(1, 0, UINT32_MAX, UINT64_MAX), Sample(2, WIRE_FABRIC, 0, 0));
    EvaluatorAttenuatesIff(Sample(1, 0, UINT32_MAX, 10), Sample(2, 0, 0, 0));
    EvaluatorAttenuatesIff(Sample(1, 0, UINT32_MAX, 10).(trustRequirement := 1), Sample(2, 0, UINT32_MAX, 10));
  }

  lemma AllHasNoComplement()
    ensures !Has(UINT32_MAX, BitNot(UINT32_MAX))
  {
    FlagsAreSubset(UINT32_MAX, UINT32_MAX);
  }

  // ---- Chains

  /** Every capability is delegated from the one before it. */
  predicate Chain(chain: seq<Capability>) {
    chain != [] && forall i, j | 0 <= i < |chain| && j == i + 1 < |chain| :: DelegationStatus(chain[i], chain[j]) == Ok
  }

  lemma DelegationIsTransitive(a: Capability, b: Capability, c: Capability)
    requires DelegationStatus(a, b) == Ok && DelegationStatus(b, c) == Ok
    ensures DelegationStatus(a, c) == Ok
  {
    hide Has, BitNot, RecordStatus, UsesSupervisorAuthority;
    DelegationFacts(a, b);
    DelegationFacts(b, c);
    SubsetIsTransitive(a.flags, b.flags, c.flags);
  }

  /** Any two members of a chain could have been delegated directly: in particular the root to
      the leaf, however long the chain. */
  lemma {:induction false} ChainCollapses(chain: seq<Capability>, i: nat, j: nat)
    requires Chain(chain) && i < j < |chain|
    ensures DelegationStatus(chain[i], chain[j]) == Ok
    decreases j - i
  {
    hide DelegationStatus;
    if i + 1 < j {
      ChainCollapses(chain, i, j - 1);
      DelegationIsTransitive(chain[i], chain[j - 1], chain[j]);
    }
  }

  /** Along a chain nothing is gained: the target and the operation stay, and every flag was
      there from the start. */
  lemma ChainKeepsScope(chain: seq<Capability>, i: nat, j: nat, mask: u32)
    requires Chain(chain) && i <= j < |chain|
    ensures chain[j].targetHandle == chain[i].targetHandle && chain[j].operationId == chain[i].operationId
    ensures Has(chain[j].flags, mask) ==> Has(chain[i].flags, mask)
  {
    hide DelegationStatus, Has, BitNot;
    if i < j {
      ChainCollapses(chain, i, j);
      DelegationFacts(chain[i], chain[j]);
      if Has(chain[j].flags, mask) {
        SubsetKeepsFlag(chain[j].flags, chain[i].flags, mask);
      }
    }
  }

  /** A capability that escaped to the fabric ring cannot be delegated any further. */
  lemma EscapedIsFinal(parent: Capability, child: Capability, next: Capability)
    requires DelegationStatus(parent, child) == Ok && EscapesToFabric(parent, child)
    ensures DelegationStatus(child, next) != Ok
  {
    hide Has, BitNot;
    DelegationFacts(parent, child);
    if DelegationStatus(child, next) == Ok {
      DelegationFacts(child, next);
    }
  }

  /** So only the last link of a chain can escape. */
  lemma OnlyTheLastEscapes(chain: seq<Capability>, i: nat)
    requires Chain(chain) && i + 1 < |chain| && EscapesToFabric(chain[i], chain[i + 1])
    ensures i + 2 == |chain|
  {
    hide DelegationStatus, EscapesToFabric;
    if i + 2 < |chain| {
      EscapedIsFinal(chain[i], chain[i + 1], chain[i + 2]);
    }
  }

  /** A request allowed at the end of a chain is allowed under any capability of the chain
      that is alive, but for the escape of the last link. */
  lemma ChainAllows(chain: seq<Capability>, i: nat, request: Request)
    requires Chain(chain) && i < |chain| - 1 && Allowed(request, chain[|chain| - 1])
    ensures Allowed(request, chain[i]) <==>
            !IsExpired(chain[i], request.currentTime) && !EscapesToFabric(chain[|chain| - 2], chain[|chain| - 1])
  {
    hide DelegationStatus, Allowed, IsExpired;
    var n := |chain| - 1;
    ChainCollapses(chain, i, n);
    AllowedUnderParentIff(chain[i], chain[n], request);
    if i < n - 1 {
      ChainCollapses(chain, i, n - 1);
      SameEscape(chain[i], chain[n - 1], chain[n]);
    }
  }

  lemma SameEscape(a: Capability, b: Capability, c: Capability)
    requires DelegationStatus(a, b) == Ok && DelegationStatus(b, c) == Ok
    ensures EscapesToFabric(a, c) <==> EscapesToFabric(b, c)
  {
    hide DelegationStatus, Has, BitNot, RecordStatus, UsesSupervisorAuthority;
    DelegationFacts(a, b);
    if EscapesToFabric(a, b) {
      EscapedIsFinal(a, b, c);
    }
  }
}
