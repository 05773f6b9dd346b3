/** What a capability authorises, said without the order of the checks: flag words as sets of
    bits, lifetimes as intervals and ring bounds as sets of rings. */
module Authority {
  import opened Bytes
  import opened ShiftRegister
  import opened Words
  import opened Rings
  import opened CapabilityPolicy
  import Crc

  // ---- Flag words as sets of bits

  lemma AndIsZero(a: u32, b: u32)
    ensures BitAnd(a, b) == 0 <==> forall i | 0 <= i < 32 :: !(Register(a)[i] && Register(b)[i])
  {
    var r := BitAnd(a, b);
    forall i | 0 <= i < 32
      ensures !Register(0)[i]
    {
      ZeroHasNoDigits(i);
    }
    if forall i | 0 <= i < 32 :: !(Register(a)[i] && Register(b)[i]) {
      assert Register(r) == Register(0);
      RegisterIsInjective(r, 0);
    }
  }

  /** The test (child & ~parent) != 0 finds a flag of the child that the parent lacks. */
  lemma FlagsAreSubset(child: u32, parent: u32)
    ensures !Has(child, BitNot(parent)) <==> forall i | 0 <= i < 32 :: Register(child)[i] ==> Register(parent)[i]
  {
    AndIsZero(child, BitNot(parent));
    Crc.AllOnes();
    assert forall i | 0 <= i < 32 :: Register(BitNot(parent))[i] == !Register(parent)[i];
  }

  lemma SubsetKeepsFlag(child: u32, parent: u32, mask: u32)
    requires !Has(child, BitNot(parent)) && Has(child, mask)
    ensures Has(parent, mask)
  {
    FlagsAreSubset(child, parent);
    AndIsZero(child, mask);
    AndIsZero(parent, mask);
  }

  lemma SubsetIsTransitive(a: u32, b: u32, c: u32)
    requires !Has(c, BitNot(b)) && !Has(b, BitNot(a))
    ensures !Has(c, BitNot(a))
  {
    FlagsAreSubset(c, b);
    FlagsAreSubset(b, a);
    FlagsAreSubset(c, a);
  }

  lemma NoFlags(mask: u32)
    ensures !Has(0, mask)
  {
    AndIsZero(0, mask);
    forall i | 0 <= i < 32
      ensures !Register(0)[i]
    {
      ZeroHasNoDigits(i);
    }
  }

  lemma AllFlags(mask: u32)
    requires mask != 0
    ensures Has(UINT32_MAX, mask)
  {
    Crc.AllOnes();
    AndIsZero(UINT32_MAX, mask);
    AndIsZero(mask, mask);
    var r := BitAnd(mask, mask);
    assert Register(r) == Register(mask);
    RegisterIsInjective(r, mask);
    assert forall i | 0 <= i < 32 :: Register(UINT32_MAX)[i] == Trues(32)[i];
  }

  lemma {:induction false} DigitOfPow2(k: nat, i: nat)
    ensures Digit(Pow2(k), i) <==> i == k
    decreases i
  {
    if k == 0 {
      if i > 0 {
        ZeroHasNoDigits(i - 1);
      }
    } else if i > 0 {
      DigitOfPow2(k - 1, i - 1);
    }
  }

  /** Testing against 1 << k reads bit k. */
  lemma HasIsDigit(flags: u32, k: nat, mask: u32)
    requires k < 32 && mask == Pow2(k)
    ensures Has(flags, mask) <==> Digit(flags, k)
  {
    AndIsZero(flags, mask);
    forall i | 0 <= i < 32
      ensures Register(mask)[i] <==> i == k
    {
      DigitOfPow2(k, i);
    }
    assert Register(mask)[k] && Register(flags)[k] == Digit(flags, k);
  }

  // ---- Lifetimes

  /** The last time at which a capability is alive; -1 when it never is. Bit 5 limits the time. */
  function LastLive(c: Capability): int {
    if !Digit(c.flags, 5) then 0xFFFF_FFFF_FFFF_FFFF else if c.expiration == 0 then -1 else c.expiration
  }

  lemma AliveUntilLastLive(c: Capability, time: u64)
    ensures !IsExpired(c, time) <==> time <= LastLive(c)
  {
    hide Has, Digit;
    assert Pow2(5) == 0x20;
    HasIsDigit(c.flags, 5, TIME_LIMITED);
  }

  // ---- Rings

  /** The rings a pair of bounds admits. A supervisor or fabric minimum stands for that ring
      alone; otherwise the bounds span the wire values between them. */
  function RingsOf(c: Capability): set<Ring> {
    if c.minimumRing == 0xFFFE then {Supervisor}
    else if c.minimumRing == 0xFFFF then {Fabric}
    else
      (if c.minimumRing <= 0 then {Kernel} else {})
      + (if c.minimumRing <= 1 <= c.maximumRing then {Driver} else {})
      + (if c.minimumRing <= 2 <= c.maximumRing then {Service} else {})
      + (if c.minimumRing <= 3 <= c.maximumRing then {Application, Unlisted} else {})
      + (if c.minimumRing <= 4 <= c.maximumRing then {Quarantine} else {})
      + (if c.minimumRing <= 0xFFFE <= c.maximumRing then {Supervisor} else {})
      + (if c.maximumRing == 0xFFFF then {Fabric} else {})
  }

  lemma InRangeIsMembership(ring: Ring, c: Capability)
    ensures InRange(ring, c) <==> ring in RingsOf(c)
  {
  }

  /** The bounds a record may have: supervisor alone; fabric, up to fabric or up to an ordinary
      ring; or ordinary rings, at least one and none beyond application. */
  predicate ValidBounds(c: Capability) {
    || (c.minimumRing == 0xFFFE && c.maximumRing == 0xFFFE)
    || (c.minimumRing == 0xFFFF && (c.maximumRing == 0xFFFF || c.maximumRing <= 3))
    || (c.minimumRing < 0xFFFE && RingsOf(c) != {} && RingsOf(c) <= {Kernel, Driver, Service, Application, Unlisted})
  }

  lemma RangeValidIff(c: Capability)
    ensures RangeValid(c) <==> ValidBounds(c)
  {
    var rings := RingsOf(c);
    if c.minimumRing < 0xFFFE {
      assert Quarantine in rings <==> c.minimumRing <= 4 <= c.maximumRing;
      assert Supervisor in rings <==> c.maximumRing >= 0xFFFE;
      assert Fabric in rings <==> c.maximumRing == 0xFFFF;
      assert Application in rings <==> c.minimumRing <= 3 <= c.maximumRing;
      assert Service in rings <==> c.minimumRing <= 2 <= c.maximumRing;
      assert Driver in rings <==> c.minimumRing <= 1 <= c.maximumRing;
      assert Kernel in rings <==> c.minimumRing <= 0;
    }
  }

  // ---- The decision

  /** A record that is filled in and has valid bounds. */
  predicate Complete(c: Capability) {
    c.capabilityId != 0 && c.operationId != 0 && c.targetHandle != 0 && c.issuerHandle != 0 && ValidBounds(c)
  }

  lemma RecordStatusIff(c: Capability)
    ensures RecordStatus(c) == if Complete(c) then Ok else InvalidCapability
  {
    hide RangeValid, ValidBounds;
    RangeValidIff(c);
  }

  /** Reading, writing and controlling need flag bits 0, 1 and 2; other operations need none. */
  predicate HasOperationBit(c: Capability) {
    1 <= c.operationId <= 3 ==> Digit(c.flags, c.operationId - 1)
  }

  lemma OperationBit(c: Capability, operationId: u32)
    ensures AllowsOperation(c, operationId) <==> operationId == c.operationId && HasOperationBit(c)
  {
    hide Has, Digit;
    assert Pow2(0) == 1 && Pow2(1) == 2 && Pow2(2) == 4;
    HasIsDigit(c.flags, 0, READ_ALLOWED);
    HasIsDigit(c.flags, 1, WRITE_ALLOWED);
    HasIsDigit(c.flags, 2, CONTROL_ALLOWED);
  }

  /** Everything a request has to meet except the ring: not revoked, in time, between trusted
      principals, by the owner, for the record's own target and operation. */
  predicate Suits(request: Request, c: Capability) {
    && !Digit(request.requestFlags, 0)
    && request.currentTime <= LastLive(c)
    && request.issuerTrust !in {0, 7} && request.ownerTrust !in {0, 7}
    && request.callerPrincipal == request.ownerPrincipal
    && request.targetHandle == c.targetHandle && request.operationId == c.operationId && HasOperationBit(c)
  }

  predicate Authorised(request: Request, c: Capability) {
    Complete(c) && Suits(request, c) && request.callerRing in RingsOf(c)
  }

  /** The checks of an evaluation, each in terms of what it stands for. */
  lemma ChecksMean(request: Request, c: Capability)
    ensures RecordStatus(c) == if Complete(c) then Ok else InvalidCapability
    ensures Has(request.requestFlags, CAPABILITY_REVOKED) <==> Digit(request.requestFlags, 0)
    ensures IsExpired(c, request.currentTime) <==> request.currentTime > LastLive(c)
    ensures InRange(request.callerRing, c) <==> request.callerRing in RingsOf(c)
    ensures AllowsOperation(c, request.operationId) <==> request.operationId == c.operationId && HasOperationBit(c)
  {
    hide Has, Digit, LastLive, IsExpired, InRange, RingsOf, RecordStatus, Complete, AllowsOperation, HasOperationBit;
    RecordStatusIff(c);
    assert Pow2(0) == 1;
    HasIsDigit(request.requestFlags, 0, CAPABILITY_REVOKED);
    AliveUntilLastLive(c, request.currentTime);
    OperationBit(c, request.operationId);
    InRangeIsMembership(request.callerRing, c);
  }

  /** The policy allows exactly what is authorised. */
  lemma AllowedIff(request: Request, c: Capability)
    ensures Allowed(request, c) <==> Authorised(request, c)
  {
    hide Has, Digit, LastLive, IsExpired, InRange, RingsOf, RecordStatus, Complete, AllowsOperation, HasOperationBit;
    ChecksMean(request, c);
  }

  /** The first thing that is wrong with a request: the record, a revocation, its lifetime, the
      issuer's trust, the owner's trust, the owner, the ring, the target, the operation. */
  function FirstFault(request: Request, c: Capability): Status {
    if !Complete(c) then InvalidCapability
    else if Digit(request.requestFlags, 0) then Revoked
    else if request.currentTime > LastLive(c) then Expired
    else if request.issuerTrust in {0, 7} then UntrustedIssuer
    else if request.ownerTrust in {0, 7} then UntrustedOwner
    else if request.callerPrincipal != request.ownerPrincipal then OwnerMismatch
    else if request.callerRing !in RingsOf(c) then RingDenied
    else if request.targetHandle != c.targetHandle then ResourceDenied
    else if request.operationId != c.operationId || !HasOperationBit(c) then OperationDenied
    else Ok
  }

  /** A refusal names the first fault, and an incomplete record is never pointed at. */
  lemma RefusalNamesFirstFault(request: Request, c: Capability)
    ensures Evaluated(request, c) ==
            Result(if FirstFault(request, c) == Ok then Allow else Deny, FirstFault(request, c), Complete(c))
  {
    hide Has, Digit, LastLive, IsExpired, InRange, RingsOf, RecordStatus, Complete, AllowsOperation, HasOperationBit;
    ChecksMean(request, c);
  }

  /** A capability for one ring is usable from exactly the rings with that wire value. */
  lemma OneRingCapability(request: Request, c: Capability, ring: Ring)
    requires c.minimumRing == c.maximumRing == ToWire(ring) && ring != Quarantine
    requires c.capabilityId != 0 && c.operationId != 0 && c.targetHandle != 0 && c.issuerHandle != 0
    requires Suits(request, c)
    ensures Allowed(request, c) <==> ToWire(request.callerRing) == ToWire(ring)
  {
    hide Has, Digit, Suits, Allowed;
    AllowedIff(request, c);
  }

  /** No capability whatsoever lets the quarantine ring do anything. */
  lemma QuarantineIsNeverAllowed(request: Request, c: Capability)
    requires request.callerRing == Quarantine
    ensures !Allowed(request, c)
  {
    hide Allowed, Suits, Digit;
    AllowedIff(request, c);
  }
}
