/** The mailbox transport: packet headers, their validation and the receiver's sequence
    window (src/mailbox/mailbox.c). */
module Mailbox {
  import opened Bytes
  import opened Words
  import Crc

  const MAGIC: u32 := 0x5842_4D41
  const MAX_PAYLOAD: u16 := 4096

  datatype Status =
    | Ok
    | InvalidHeader
    | InvalidLength
    | CrcMismatch
    | SequenceError
    | Duplicate
    | OutOfOrder
    | UnknownType

  /** The 16-byte packet header. */
  datatype Header = Header(magic: u32, messageType: u16, length: u16, sequence: u32, crc32: u32)

  /** A receiver's sequence window. */
  datatype Window = Window(lastSequence: u32, initialized: bool)

  /** PING (1) to CAPABILITY_EVALUATE (12); the index messages are declared but not known. */
  predicate MessageTypeKnown(messageType: u16) {
    1 <= messageType <= 12
  }

  function Crc32(payload: seq<u8>): u32 {
    Crc.Checksum(payload, Crc.CRC32)
  }

  function BuildStatus(messageType: u16, payload: seq<u8>): Status {
    if !MessageTypeKnown(messageType) then UnknownType
    else if |payload| > MAX_PAYLOAD then InvalidLength
    else Ok
  }

  /** The header a successful build leaves behind. */
  function BuiltHeader(messageType: u16, sequence: u32, payload: seq<u8>): Header
    requires BuildStatus(messageType, payload) == Ok
  {
    Header(MAGIC, messageType, |payload|, sequence, Crc32(payload))
  }

  function Validate(header: Header, payload: seq<u8>): Status {
    if header.magic != MAGIC then InvalidHeader
    else if !MessageTypeKnown(header.messageType) then UnknownType
    else if header.length > MAX_PAYLOAD || header.length != |payload| then InvalidLength
    else if Crc32(payload) != header.crc32 then CrcMismatch
    else Ok
  }

  function AcceptStatus(window: Window, sequence: u32): Status {
    if !window.initialized then Ok
    else if sequence == window.lastSequence then Duplicate
    else if sequence < window.lastSequence then OutOfOrder
    else if sequence != (window.lastSequence + 1) % 0x1_0000_0000 then SequenceError
    else Ok
  }

  function Accept(window: Window, sequence: u32): Window {
    if AcceptStatus(window, sequence) == Ok then Window(sequence, true) else window
  }

  // ---- The procedures

  /** The branch form of the CRC loop. */
  method Crc32Update(crc: u32, data: seq<u8>) returns (r: u32)
    ensures r == Crc.Update(crc, data, Crc.CRC32)
  {
    r := crc;
    var i := 0;
    while i < |data|
      invariant 0 <= i <= |data|
      invariant Crc.Update(r, data[i..], Crc.CRC32) == Crc.Update(crc, data, Crc.CRC32)
    {
      ghost var before := r;
      r := BitXor(r, data[i]);
      var bit := 0;
      while bit < 8
        invariant 0 <= bit <= 8
        invariant Crc.BitSteps(r, 8 - bit, Crc.CRC32) == Crc.BitSteps(BitXor(before, data[i]), 8, Crc.CRC32)
      {
        if r % 2 != 0 {
          r := BitXor(r / 2, 0xEDB8_8320);
        } else {
          r := r / 2;
        }
        bit := bit + 1;
      }
      assert data[i..][1..] == data[i + 1..];
      i := i + 1;
    }
  }

  method ComputeCrc32(data: seq<u8>) returns (r: u32)
    ensures r == Crc32(data)
  {
    r := Crc32Update(0xFFFF_FFFF, data);
    r := BitXor(r, 0xFFFF_FFFF);
  }

  /** A header in a packet buffer, filled in field by field. */
  class HeaderCell {
    var magic: u32
    var messageType: u16
    var length: u16
    var sequence: u32
    var crc32: u32

    function Value(): Header
      reads this
    {
      Header(magic, messageType, length, sequence, crc32)
    }

    constructor (header: Header)
      ensures Value() == header
    {
      magic := header.magic;
      messageType := header.messageType;
      length := header.length;
      sequence := header.sequence;
      crc32 := header.crc32;
    }

    /** A rejected build leaves the header as it was. */
    method Build(messageType: u16, sequence: u32, payload: seq<u8>) returns (status: Status)
      requires |payload| < 0x1_0000
      modifies this
      ensures status == BuildStatus(messageType, payload)
      ensures Value() == if status == Ok then BuiltHeader(messageType, sequence, payload) else old(Value())
    {
      if !MessageTypeKnown(messageType) {
        return UnknownType;
      }
      if |payload| > MAX_PAYLOAD {
        return InvalidLength;
      }
      magic := MAGIC;
      this.messageType := messageType;
      length := |payload|;
      this.sequence := sequence;
      crc32 := ComputeCrc32(payload);
      status := Ok;
    }

    method ValidateHeader(payload: seq<u8>) returns (status: Status)
      ensures status == Validate(Value(), payload)
    {
      if magic != MAGIC {
        return InvalidHeader;
      }
      if !MessageTypeKnown(messageType) {
        return UnknownType;
      }
      if length > MAX_PAYLOAD || length != |payload| {
        return InvalidLength;
      }
      var crc := ComputeCrc32(payload);
      if crc != crc32 {
        return CrcMismatch;
      }
      status := Ok;
    }
  }

  class SequenceWindow {
    var lastSequence: u32
    var initialized: bool

    function Value(): Window
      reads this
    {
      Window(lastSequence, initialized)
    }

    /** All bytes zero, as endpoint initialisation leaves it. */
    constructor ()
      ensures Value() == Window(0, false)
    {
      lastSequence := 0;
      initialized := false;
    }

    method SequenceAccept(sequence: u32) returns (status: Status)
      modifies this
      ensures status == AcceptStatus(old(Value()), sequence)
      ensures Value() == Accept(old(Value()), sequence)
    {
      if !initialized {
        lastSequence := sequence;
        initialized := true;
        return Ok;
      }
      if sequence == lastSequence {
        return Duplicate;
      }
      if sequence < lastSequence {
        return OutOfOrder;
      }
      if sequence != (lastSequence + 1) % 0x1_0000_0000 {
        return SequenceError;
      }
      lastSequence := sequence;
      status := Ok;
    }
  }

  // ---- What the header protects

  /** The magic number travels as "AMBX". */
  lemma MagicSpells()
    ensures Le32(MAGIC) == [0x41, 0x4D, 0x42, 0x58]
  {
  }

  /** The known messages: ping, pong, version query and reply, status query and reply, register
      read and write, reset request, fault report, discovery record push, capability evaluate. */
  lemma KnownMessages(messageType: u16)
    ensures MessageTypeKnown(messageType) <==> messageType in {1, 2, 3, 4, 5, 6, 7, 8, 9, 10, 11, 12}
  {
  }

  /** A build succeeds exactly for a known message and a payload of at most 4096 bytes, and is
      accepted by its own receiver under its type and number. */
  lemma BuiltPacketValidates(messageType: u16, sequence: u32, payload: seq<u8>)
    ensures BuildStatus(messageType, payload) ==
            if messageType !in {1, 2, 3, 4, 5, 6, 7, 8, 9, 10, 11, 12} then UnknownType
            else if |payload| > 4096 then InvalidLength
            else Ok
    ensures BuildStatus(messageType, payload) == Ok ==>
      var header := BuiltHeader(messageType, sequence, payload);
      && Validate(header, payload) == Ok
      && header.messageType == messageType && header.sequence == sequence && header.length == |payload|
  {
    hide Crc32;
    KnownMessages(messageType);
  }

  /** A packet is accepted exactly when it is what a build makes of its type, its number and its
      payload; any other is refused for the first of four reasons. */
  lemma AcceptedIffBuilt(header: Header, payload: seq<u8>)
    ensures Validate(header, payload) == Ok <==>
            && BuildStatus(header.messageType, payload) == Ok
            && header == BuiltHeader(header.messageType, header.sequence, payload)
    ensures Validate(header, payload) ==
            if header.magic != 0x5842_4D41 then InvalidHeader
            else if header.messageType !in {1, 2, 3, 4, 5, 6, 7, 8, 9, 10, 11, 12} then UnknownType
            else if |payload| > 4096 || header.length != |payload| then InvalidLength
            else if header.crc32 != Crc32(payload) then CrcMismatch
            else Ok
  {
    hide Crc32;
    KnownMessages(header.messageType);
  }

  /** Every accepted packet becomes a CRC mismatch when its payload suffers a burst of up to
      32 bits, in particular any change within four consecutive bytes. */
  lemma BurstIsCrcMismatch(header: Header, payload: seq<u8>, damaged: seq<u8>, p: nat)
    requires Validate(header, payload) == Ok
    requires Crc.BurstApart(payload, damaged, p)
    ensures Validate(header, damaged) == CrcMismatch
  {
    Crc.BurstChangesChecksum(payload, damaged, p, Crc.CRC32);
  }

  /** In particular: a header built for one payload rejects every payload of the same length
      that differs from it within four consecutive bytes. */
  lemma FourBytesAreCrcMismatch(messageType: u16, sequence: u32, payload: seq<u8>, damaged: seq<u8>, k: nat)
    requires BuildStatus(messageType, payload) == Ok
    requires |damaged| == |payload| && damaged != payload
    requires forall i | 0 <= i < |payload| && !(k <= i < k + 4) :: damaged[i] == payload[i]
    ensures Validate(BuiltHeader(messageType, sequence, payload), damaged) == CrcMismatch
  {
    Crc.FourBytesAreABurst(payload, damaged, k);
    BurstIsCrcMismatch(BuiltHeader(messageType, sequence, payload), payload, damaged, 8 * k);
  }

  /** Five bytes are too many: every longer payload has a damaged twin that passes. */
  lemma FiveBytesCanPass(header: Header, payload: seq<u8>, k: nat) returns (damaged: seq<u8>)
    requires Validate(header, payload) == Ok && k + 5 <= |payload|
    ensures damaged != payload && Validate(header, damaged) == Ok
    ensures |damaged| == |payload| && forall i | 0 <= i < |payload| && !(k <= i < k + 5) :: damaged[i] == payload[i]
  {
    damaged := Crc.FiveBytesCanHide(payload, k, Crc.CRC32);
  }

  /** The checksum does not cover the header: of an accepted packet, a changed header still
      passes exactly when magic, length and checksum stay and the type is a known one. The
      sequence number may be anything. */
  lemma ChangedHeaderPassesIff(header: Header, changed: Header, payload: seq<u8>)
    requires Validate(header, payload) == Ok
    ensures Validate(changed, payload) == Ok <==>
            && changed.magic == header.magic && changed.length == header.length && changed.crc32 == header.crc32
            && MessageTypeKnown(changed.messageType)
  {
    hide Crc32;
  }

  /** And exactly how a changed header is refused, for any packet that was accepted. */
  lemma ChangedHeaderStatus(header: Header, changed: Header, payload: seq<u8>)
    requires Validate(header, payload) == Ok
    ensures Validate(changed, payload) ==
            if changed.magic != header.magic then InvalidHeader
            else if changed.messageType !in {1, 2, 3, 4, 5, 6, 7, 8, 9, 10, 11, 12} then UnknownType
            else if changed.length != header.length then InvalidLength
            else if changed.crc32 != header.crc32 then CrcMismatch
            else Ok
  {
    hide Crc32;
    KnownMessages(changed.messageType);
  }

  /** The first number is always taken. After that the window moves exactly to the successor of
      the last accepted number and never past the largest one: every other number is a
      duplicate, out of order when it is smaller, or a gap. */
  lemma AcceptsOnlyTheSuccessor(window: Window, sequence: u32)
    ensures AcceptStatus(window, sequence) ==
            if !window.initialized || sequence == window.lastSequence + 1 then Ok
            else if sequence == window.lastSequence then Duplicate
            else if sequence < window.lastSequence then OutOfOrder
            else SequenceError
  {
  }
}
