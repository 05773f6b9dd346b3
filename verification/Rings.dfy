/** Security rings and their 16-bit wire encoding (include/atarix/rings.h). */
module Rings {
  import opened Bytes

  /** `Unlisted` stands for every value outside the enumeration. */
  datatype Ring = Supervisor | Fabric | Kernel | Driver | Service | Application | Quarantine | Unlisted

  const WIRE_SUPERVISOR: u16 := 0xFFFE
  const WIRE_FABRIC: u16 := 0xFFFF
  const WIRE_APPLICATION: u16 := 3

  function ToWire(ring: Ring): u16 {
    match ring
    case Supervisor => WIRE_SUPERVISOR
    case Fabric => WIRE_FABRIC
    case Kernel => 0
    case Driver => 1
    case Service => 2
    case Application => WIRE_APPLICATION
    case Quarantine => 4
    case Unlisted => WIRE_APPLICATION
  }

  /** The encoding is injective but for the default case, which reads as an application. */
  lemma WireIsInjective(a: Ring, b: Ring)
    ensures ToWire(a) == ToWire(b) <==> a == b || {a, b} == {Application, Unlisted}
  {
    if {a, b} == {Application, Unlisted} {
      assert a in {a, b} && b in {a, b};
    }
    if a != b && ToWire(a) == ToWire(b) {
      assert a in {Application, Unlisted} && b in {Application, Unlisted};
    }
  }

  /** The value of a ring in the enumeration. */
  function Value(ring: Ring): int
    requires ring != Unlisted
  {
    match ring
    case Supervisor => -2
    case Fabric => -1
    case Kernel => 0
    case Driver => 1
    case Service => 2
    case Application => 3
    case Quarantine => 4
  }

  /** A ring travels as its value modulo 2^16, which turns the two most privileged rings into
      the two largest numbers. */
  lemma WireIsValueModulo(ring: Ring)
    ensures ToWire(ring) == (if ring == Unlisted then Value(Application) else Value(ring)) % 0x1_0000
  {
  }
}
