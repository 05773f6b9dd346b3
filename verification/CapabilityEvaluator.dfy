/** The first-match capability evaluator (src/capability/capability_evaluator.c) and how it
    relates to the policy decision. */
module CapabilityEvaluator {
  import opened Bytes
  import opened Rings
  import opened Words
  import Authority
  import Policy = CapabilityPolicy

  datatype Decision = Allow | Deny | Restrict | RecoveryOnly

  datatype Request = Request(targetHandle: u64, operationId: u32, requesterRing: Ring, trustLevel: u32, requestFlags: u32)

  /** The capability an evaluation points at, by its place in the list. */
  datatype Match = Matched(index: nat) | NoMatch

  datatype Evaluation = Evaluation(decision: Decision, matched: Match, reason: nat)

  /** The evaluator's own ring test. */
  predicate RingAllows(minimumRing: u16, maximumRing: u16, ring: Ring) {
    var requester := ToWire(ring);
    if minimumRing == WIRE_SUPERVISOR then requester == WIRE_SUPERVISOR
    else if minimumRing == WIRE_FABRIC then requester == WIRE_SUPERVISOR || requester == WIRE_FABRIC
    else minimumRing <= requester <= maximumRing
  }

  predicate Matches(c: Policy.Capability, request: Request) {
    c.targetHandle == request.targetHandle && c.operationId == request.operationId
  }

  /** The verdict on a matching capability, and its reason code. */
  function Verdict(c: Policy.Capability, request: Request): (Decision, nat) {
    if request.trustLevel < c.trustRequirement then (Restrict, 1)
    else if !RingAllows(c.minimumRing, c.maximumRing, request.requesterRing) then (Deny, 2)
    else if Policy.Has(c.flags, Policy.RECOVERY_ONLY) then (RecoveryOnly, 0)
    else (Allow, 0)
  }

  predicate NoneMatch(capabilities: seq<Policy.Capability>, request: Request) {
    forall i | 0 <= i < |capabilities| ::
      capabilities[i].targetHandle != request.targetHandle || capabilities[i].operationId != request.operationId
  }

  /** The place of the first capability for the target and operation. */
  function FirstMatch(capabilities: seq<Policy.Capability>, request: Request): (m: Match)
    ensures m.Matched? ==> m.index < |capabilities|
    decreases |capabilities|
  {
    if capabilities == [] then NoMatch
    else if Matches(capabilities[0], request) then Matched(0)
    else
      match FirstMatch(capabilities[1..], request)
      case NoMatch => NoMatch
      case Matched(i) => Matched(i + 1)
  }

  function Evaluated(capabilities: seq<Policy.Capability>, request: Request): Evaluation {
    match FirstMatch(capabilities, request)
    case NoMatch => Evaluation(Deny, NoMatch, 3)
    case Matched(i) =>
      var (decision, reason) := Verdict(capabilities[i], request);
      Evaluation(decision, Matched(i), reason)
  }

  /** In a list of any length the first match decides, whatever comes before and after it. */
  lemma {:induction false} FirstMatchDecides(before: seq<Policy.Capability>, c: Policy.Capability,
                                             after: seq<Policy.Capability>, request: Request)
    requires NoneMatch(before, request)
    requires c.targetHandle == request.targetHandle && c.operationId == request.operationId
    ensures FirstMatch(before + [c] + after, request) == Matched(|before|)
    ensures Evaluated(before + [c] + after, request) ==
            Evaluation(Verdict(c, request).0, Matched(|before|), Verdict(c, request).1)
    decreases |before|
  {
    hide Verdict;
    var all := before + [c] + after;
    if before == [] {
    } else {
      assert all[1..] == before[1..] + [c] + after;
      FirstMatchDecides(before[1..], c, after, request);
    }
  }

  lemma {:induction false} NoMatchDenies(capabilities: seq<Policy.Capability>, request: Request)
    requires NoneMatch(capabilities, request)
    ensures Evaluated(capabilities, request) == Evaluation(Deny, NoMatch, 3)
    decreases |capabilities|
  {
    hide Verdict;
    if capabilities == [] {
    } else {
      NoMatchDenies(capabilities[1..], request);
    }
  }

  /** The evaluator's ring test differs from the policy's in exactly one case: it lets the
      supervisor use a capability for the fabric ring. */
  lemma RingTestsDiffer(c: Policy.Capability, ring: Ring)
    ensures Policy.InRange(ring, c) ==> RingAllows(c.minimumRing, c.maximumRing, ring)
    ensures RingAllows(c.minimumRing, c.maximumRing, ring) && !Policy.InRange(ring, c) <==>
            c.minimumRing == WIRE_FABRIC && ring == Supervisor
  {
  }

  lemma RecoveryBit(c: Policy.Capability)
    ensures Policy.Has(c.flags, Policy.RECOVERY_ONLY) <==> Digit(c.flags, 7)
  {
    hide Policy.Has, Digit;
    assert Pow2(7) == 0x80;
    Authority.HasIsDigit(c.flags, 7, Policy.RECOVERY_ONLY);
  }

  /** The rings the evaluator admits: the policy's, and the supervisor on a fabric minimum. */
  function EvaluatorRings(c: Policy.Capability): set<Ring> {
    Authority.RingsOf(c) + if c.minimumRing == 0xFFFF then {Supervisor} else {}
  }

  /** What each verdict means, for any record, valid or not: too little trust restricts with
      reason 1 before the ring is looked at; a ring that is not admitted denies with reason 2;
      and flag bit 7 limits the rest to recovery. */
  lemma VerdictMeans(c: Policy.Capability, request: Request)
    ensures Verdict(c, request) ==
            if request.trustLevel < c.trustRequirement then (Restrict, 1)
            else if request.requesterRing !in EvaluatorRings(c) then (Deny, 2)
            else if Digit(c.flags, 7) then (RecoveryOnly, 0)
            else (Allow, 0)
  {
    hide Policy.Has, Digit, RingAllows, Policy.InRange, Authority.RingsOf;
    RecoveryBit(c);
    RingTestsDiffer(c, request.requesterRing);
    Authority.InRangeIsMembership(request.requesterRing, c);
  }

  /** The two requests ask for the same thing from the same ring. */
  predicate SameRequest(p: Policy.Request, request: Request) {
    p.targetHandle == request.targetHandle && p.operationId == request.operationId && p.callerRing == request.requesterRing
  }

  /** What the policy allows under the first match, the evaluator allows too, if only in
      recovery, exactly when the requester is trusted enough for it. */
  lemma PolicyAllowIsHonoured(before: seq<Policy.Capability>, c: Policy.Capability, after: seq<Policy.Capability>,
                              p: Policy.Request, request: Request)
    requires Policy.Allowed(p, c) && SameRequest(p, request) && NoneMatch(before, request)
    ensures Evaluated(before + [c] + after, request).matched == Matched(|before|)
    ensures Evaluated(before + [c] + after, request).decision ==
            if request.trustLevel < c.trustRequirement then Restrict
            else if Digit(c.flags, 7) then RecoveryOnly
            else Allow
  {
    RecoveryBit(c);
    hide Digit, Policy.Has, Evaluated, Policy.InRange, RingAllows, Policy.RecordStatus, Policy.IsExpired;
    AllowedMatches(p, c);
    FirstMatchDecides(before, c, after, request);
    RingTestsDiffer(c, request.requesterRing);
  }

  lemma AllowedMatches(p: Policy.Request, c: Policy.Capability)
    requires Policy.Allowed(p, c)
    ensures c.targetHandle == p.targetHandle && c.operationId == p.operationId && Policy.InRange(p.callerRing, c)
  {
    hide Policy.Has, Policy.RecordStatus, Policy.IsExpired, Policy.InRange;
  }

  class EvaluationCell {
    var decision: Decision
    var matchedCapability: Match
    var reasonCode: nat

    constructor ()
      ensures Value() == Evaluation(Deny, NoMatch, 0)
    {
      decision, matchedCapability, reasonCode := Deny, NoMatch, 0;
    }

    function Value(): Evaluation
      reads this
    {
      Evaluation(decision, matchedCapability, reasonCode)
    }
  }

  /** The first capability for the target and operation decides, whatever follows it. */
  method Evaluate(capabilities: seq<Policy.Capability>, request: Request, evaluation: EvaluationCell)
    modifies evaluation
    ensures evaluation.Value() == Evaluated(capabilities, request)
  {
    evaluation.decision := Deny;
    evaluation.matchedCapability := NoMatch;
    evaluation.reasonCode := 0;
    var i := 0;
    while i < |capabilities|
      invariant 0 <= i <= |capabilities|
      invariant NoneMatch(capabilities[..i], request)
      invariant evaluation.matchedCapability == NoMatch
    {
      var c := capabilities[i];
      assert capabilities == capabilities[..i] + [c] + capabilities[i + 1..];
      if c.targetHandle != request.targetHandle {
        i := i + 1;
        continue;
      }
      if c.operationId != request.operationId {
        i := i + 1;
        continue;
      }
      FirstMatchDecides(capabilities[..i], c, capabilities[i + 1..], request);
      if request.trustLevel < c.trustRequirement {
        evaluation.decision := Restrict;
        evaluation.matchedCapability := Matched(i);
        evaluation.reasonCode := 1;
        return;
      }
      if !RingAllows(c.minimumRing, c.maximumRing, request.requesterRing) {
        evaluation.decision := Deny;
        evaluation.matchedCapability := Matched(i);
        evaluation.reasonCode := 2;
        return;
      }
      if Policy.Has(c.flags, Policy.RECOVERY_ONLY) {
        evaluation.decision := RecoveryOnly;
      } else {
        evaluation.decision := Allow;
      }
      evaluation.matchedCapability := Matched(i);
      evaluation.reasonCode := 0;
      return;
    }
    assert capabilities[..i] == capabilities;
    NoMatchDenies(capabilities, request);
    evaluation.decision := Deny;
    evaluation.reasonCode := 3;
  }
}
