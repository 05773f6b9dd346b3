/** Capability records, their delegation and the policy decision on a request
    (include/atarix/capability.h, src/capability/capability_policy.c). */
module CapabilityPolicy {
  import opened Bytes
  import opened Rings
  import opened Words

  datatype Capability = Capability(
    capabilityId: u32, operationId: u32, targetHandle: u64, minimumRing: u16, maximumRing: u16, flags: u32,
    delegationMask: u64, expiration: u64, issuerHandle: u64, trustRequirement: u32, reserved: u32)

  const READ_ALLOWED: u32 := 1
  const WRITE_ALLOWED: u32 := 2
  const CONTROL_ALLOWED: u32 := 4
  const DELEGATION_ALLOWED: u32 := 8
  const TIME_LIMITED: u32 := 0x20
  const RECOVERY_ONLY: u32 := 0x80

  const INVALID: u32 := 0
  const READ: u32 := 1
  const WRITE: u32 := 2
  const CONTROL: u32 := 3

  const UNTRUSTED: u32 := 0
  const REVOKED_TRUST: u32 := 7

  /** The request flag that marks the capability as revoked. */
  const CAPABILITY_REVOKED: u32 := 1

  datatype Status =
    | Ok
    | InvalidRequest
    | InvalidCapability
    | UntrustedIssuer
    | UntrustedOwner
    | Revoked
    | Expired
    | RingDenied
    | OwnerMismatch
    | DelegationDenied
    | ResourceDenied
    | OperationDenied

  datatype Decision = Deny | Allow

  datatype Request = Request(
    callerPrincipal: u32, ownerPrincipal: u32, issuerPrincipal: u32, callerRing: Ring, issuerTrust: u32, ownerTrust: u32,
    targetHandle: u64, operationId: u32, currentTime: u64, requestFlags: u32)

  /** What an evaluation leaves in the result; `matched` says whether it points at the record. */
  datatype Result = Result(decision: Decision, status: Status, matched: bool)

  // ---- Flag words

  /** (flags & mask) != 0 */
  predicate Has(flags: u32, mask: u32) {
    BitAnd(flags, mask) != 0
  }

  /** ~a */
  function BitNot(a: u32): u32 {
    BitXor(a, UINT32_MAX)
  }

  // ---- The checks

  predicate TrustIsUsable(trust: u32) {
    trust != UNTRUSTED && trust != REVOKED_TRUST
  }

  predicate RangeValid(c: Capability) {
    if c.minimumRing == WIRE_SUPERVISOR then c.maximumRing == WIRE_SUPERVISOR
    else if c.minimumRing == WIRE_FABRIC then c.maximumRing == WIRE_FABRIC || c.maximumRing <= WIRE_APPLICATION
    else c.minimumRing <= c.maximumRing <= WIRE_APPLICATION
  }

  predicate InRange(ring: Ring, c: Capability) {
    if c.minimumRing == WIRE_SUPERVISOR then ToWire(ring) == WIRE_SUPERVISOR
    else if c.minimumRing == WIRE_FABRIC then ToWire(ring) == WIRE_FABRIC
    else c.minimumRing <= ToWire(ring) <= c.maximumRing
  }

  predicate UsesSupervisorAuthority(c: Capability) {
    c.minimumRing == WIRE_SUPERVISOR || c.maximumRing == WIRE_SUPERVISOR
  }

  predicate IsExpired(c: Capability, time: u64) {
    Has(c.flags, TIME_LIMITED) && (c.expiration == 0 || time > c.expiration)
  }

  function RecordStatus(c: Capability): Status {
    if c.capabilityId == 0 || c.operationId == INVALID || !RangeValid(c) || c.targetHandle == 0 || c.issuerHandle == 0
    then InvalidCapability else Ok
  }

  predicate AllowsOperation(c: Capability, operationId: u32) {
    if c.operationId != operationId then false
    else if operationId == READ then Has(c.flags, READ_ALLOWED)
    else if operationId == WRITE then Has(c.flags, WRITE_ALLOWED)
    else if operationId == CONTROL then Has(c.flags, CONTROL_ALLOWED)
    else true
  }

  function DelegationStatus(parent: Capability, child: Capability): Status {
    if RecordStatus(parent) != Ok then RecordStatus(parent)
    else if RecordStatus(child) != Ok then RecordStatus(child)
    else if !Has(parent.flags, DELEGATION_ALLOWED) then DelegationDenied
    else if UsesSupervisorAuthority(parent) || UsesSupervisorAuthority(child) then DelegationDenied
    else if parent.targetHandle != child.targetHandle then ResourceDenied
    else if parent.operationId != child.operationId then OperationDenied
    else if Has(child.flags, BitNot(parent.flags)) then DelegationDenied
    else if child.minimumRing < parent.minimumRing || child.maximumRing < parent.minimumRing then DelegationDenied
    else if child.maximumRing > parent.maximumRing then DelegationDenied
    else Ok
  }

  function Evaluated(request: Request, c: Capability): Result {
    if RecordStatus(c) != Ok then Result(Deny, RecordStatus(c), false)
    else if Has(request.requestFlags, CAPABILITY_REVOKED) then Result(Deny, Revoked, true)
    else if IsExpired(c, request.currentTime) then Result(Deny, Expired, true)
    else if !TrustIsUsable(request.issuerTrust) then Result(Deny, UntrustedIssuer, true)
    else if !TrustIsUsable(request.ownerTrust) then Result(Deny, UntrustedOwner, true)
    else if request.callerPrincipal != request.ownerPrincipal then Result(Deny, OwnerMismatch, true)
    else if !InRange(request.callerRing, c) then Result(Deny, RingDenied, true)
    else if request.targetHandle != c.targetHandle then Result(Deny, ResourceDenied, true)
    else if !AllowsOperation(c, request.operationId) then Result(Deny, OperationDenied, true)
    else Result(Allow, Status.Ok, true)
  }

  /** A decision to allow. */
  predicate Allowed(request: Request, c: Capability) {
    Evaluated(request, c).decision == Allow
  }

  // ---- The procedure

  class ResultCell {
    var decision: Decision
    var status: Status
    var matchedCapability: bool

    constructor ()
      ensures Value() == Result(Deny, InvalidRequest, false)
    {
      decision, status, matchedCapability := Deny, InvalidRequest, false;
    }

    function Value(): Result
      reads this
    {
      Result(decision, status, matchedCapability)
    }
  }

  /** The result is reset first and then overwritten step by step. */
  method PolicyEvaluate(request: Request, c: Capability, result: ResultCell) returns (status: Status)
    modifies result
    ensures result.Value() == Evaluated(request, c)
    ensures status == result.status
    ensures result.decision == Allow <==> status == Ok
  {
    result.decision := Deny;
    result.status := InvalidRequest;
    result.matchedCapability := false;
    status := RecordStatus(c);
    if status != Ok {
      result.status := status;
      return;
    }
    result.matchedCapability := true;
    if Has(request.requestFlags, CAPABILITY_REVOKED) {
      result.status := Revoked;
      return result.status;
    }
    if IsExpired(c, request.currentTime) {
      result.status := Expired;
      return result.status;
    }
    if !TrustIsUsable(request.issuerTrust) {
      result.status := UntrustedIssuer;
      return result.status;
    }
    if !TrustIsUsable(request.ownerTrust) {
      result.status := UntrustedOwner;
      return result.status;
    }
    if request.callerPrincipal != request.ownerPrincipal {
      result.status := OwnerMismatch;
      return result.status;
    }
    if !InRange(request.callerRing, c) {
      result.status := RingDenied;
      return result.status;
    }
    if request.targetHandle != c.targetHandle {
      result.status := ResourceDenied;
      return result.status;
    }
    if !AllowsOperation(c, request.operationId) {
      result.status := OperationDenied;
      return result.status;
    }
    result.decision := Allow;
    result.status := Ok;
    return result.status;
  }
}
