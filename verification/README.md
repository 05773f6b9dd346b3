# Verification of the ATARIX serialized formats, mailbox and capabilities

ATARIX is a C library for a multi-card machine. Its boot firmware hands the kernel a Boot
Information Block, its cards describe themselves in discovery images, its nodes talk through
mailboxes, and its resources are guarded by capabilities that can be delegated. This project
models those four parts and the CRC arithmetic under three of them, and proves what they
promise: that bytes which were written are the bytes that are read, that damage is noticed,
that a receiver only moves forward, that names stay unique, and when delegation keeps
authority within bounds.

`dafny verify dfyconfig.toml` checks everything.

## How the model is laid out

Procedures that change state in C are methods here: the builder, the reader's view, the
database, the endpoint and the result structures are classes whose methods update fields, and
byte buffers are arrays written in place. Each method is proved against a function on values,
and the theorems are about those functions. Decisions without state are functions.

- `Gf2Polynomial`, `ShiftRegister`, `Words`, `Crc`: polynomials over GF(2), the reflected
  32-bit register on lists of bits, the C operators on 32-bit words, and the loops. The
  polynomial side shares no definition with the register it specifies. Section 8.1.1.6.2 of
  ITU-T V.42 and section 12.1 of RFC 3720 give the two generators.
- `Bytes`: machine integers and little-endian fields, with both round trips.
- `Mailbox`, `SimMailbox`, `MailboxRuns`: packets, endpoints, and runs over a channel that
  loses, repeats, reorders and damages.
- `BibFormat`, `BibBuilder`, `BibReader`: the block and its two sides. `BibDecoding` gives the
  single linear decode behind every access, `BibLayout` the reader's verdicts in terms of bytes,
  `BibRoundTrip` and `BibRebuild` the two round trips, `BibIntegrity` what the checksum protects,
  `SimBib` the simulator's client, `BibTolerance` what the reader does not insist on.
- `DiscoveryFormat`, `DiscoveryValidate`, `DiscoveryDatabase`, `DiscoveryParser`: the image
  pipeline. `DiscoveryAcceptance` says which images it takes and which records it skips,
  `DiscoveryLayout` what it makes of each kind of record, `DiscoveryRuns` is about sequences of
  parses, `DiscoveryIntegrity` about the two checksums, `MkDiscovery` and `DiscoveryRoundTrip`
  about generated images.
- `Rings`, `CapabilityPolicy`, `CapabilityEvaluator`: the decisions. `Authority` says what they
  authorise without the order of the checks, `Delegation` what delegation does to it.

32-bit wrap-around is written out where the code can reach it (counters, sequence numbers,
the aligned record length); where a bound rules it out, the bound is proved.

## Where the code does not do what is expected of it

Each of these is proved for all inputs by the members named with it.

- Delegation can widen authority. `docs/capability-model.md:285-287` says a delegated capability
  cannot exceed its parent. The flag test lets a child drop the restricting flags, and the ring
  test compares the fabric encoding as a large number. `Delegation.AttenuatesIff` and
  `Delegation.EvaluatorAttenuatesIff` give the exact conditions, `Delegation.DelegationCanWiden`
  concrete pairs for each. An escape to the fabric ring can only be the last link of a chain
  (`Delegation.OnlyTheLastEscapes`).
- The two ring tests disagree about the supervisor (`CapabilityEvaluator.RingTestsDiffer`).
- Two built-in discovery profiles validate but cannot be parsed
  (`DiscoveryRoundTrip.ProfileParses`).
- The parser reads past the end of some images that validate: the validator asks for eight
  bytes of a record that is then taken for 32. `DiscoveryRoundTrip.ShortRecordOverruns` is such
  an image, `DiscoveryParser.OverrunsIff` says for which images and tables it happens, and
  `DiscoveryParser.LongRecordsFit` what a caller can check to be safe.
- The checksum of a discovery image is not looked at above 512 bytes
  (`DiscoveryIntegrity.ImageChecksumIsProtectedIff`, `DiscoveryIntegrity.LargeRecordsAreOnlyWalked`),
  although `docs/discovery-rom-format-v1.md:202` says it covers the whole image. The header
  checksum is computed with both checksum fields zero, not only its own
  (`docs/discovery-rom-format-v1.md:198`); the two readings agree exactly when the image checksum
  is zero (`DiscoveryIntegrity.DocumentedHeaderCrcIff`).
- The builder writes blocks its reader refuses: above 64 KiB, or without exactly one of each
  required reference (`BibRoundTrip.BuilderRoundTrip`); a builder sealed at once makes one
  (`BibRoundTrip.EmptyBlockIsRefused`).
- The reader is laxer than `docs/boot-information-block-v1.md`. Padding may hold anything where
  line 64 asks for zero (`BibTolerance.PaddingIsIgnored`, `BibTolerance.NonzeroPaddingOpens`),
  addresses and lengths may be zero against line 202 (`BibTolerance.ZeroReferencesOpen`), and
  records may come in any order where line 232 asks for ascending types
  (`BibTolerance.OrderDoesNotMatter`, `BibTolerance.DescendingCaptureOpens`). It is stricter
  about the header length, which line 101 only bounds from below
  (`BibTolerance.OnlyOneHeaderLength`).
- The sequence window stops for good at the largest number
  (`MailboxRuns.ExhaustedWindowIsFinal`), and five damaged bytes can go unnoticed where four
  cannot (`Mailbox.FiveBytesCanPass`). Nothing protects the number of a packet
  (`Mailbox.ChangedHeaderPassesIff`, `MailboxRuns.RenumberingBreaksTheSlice`).

## Model

| member | source | states |
|---|---|---|
| `Words.BitXor` | src/mailbox/mailbox.c:8-11 | exclusive or acts on each binary digit alone: the digits of the result differ from those of one operand exactly where the other has a one |
| `Words.BitAnd` | src/discovery/discovery_validate.c:17-18 | a digit of the result is one exactly where both operands have a one |
| `Bytes.Get64OfLe64` | src/bib/bib_reader.c:17-19 | a 64-bit field reads back from wherever the writer's bytes were placed |
| `Bytes.Le64OfGet64` | src/bib/bib_builder.c:18-21 | writing what a 64-bit field holds reproduces its bytes, so value and bytes determine each other |
| `Bytes.WriteLe64` | src/bib/bib_builder.c:18-21 | exactly eight bytes change, to the little-endian encoding |
| `ShiftRegister.TurnsAbsorb` | src/mailbox/mailbox.c:8-15 | XORing up to 32 message bits into the register at once and shifting once per bit equals absorbing the bits one at a time |
| `ShiftRegister.FeedIsLinear` | src/mailbox/mailbox.c:7-16 | the register is linear in start value and message together |
| `ShiftRegister.FeedIsInjective` | src/mailbox/mailbox.c:7-16 | with a constant term in the generator, absorbing any message loses nothing of the start value |
| `ShiftRegister.QuietRun` | src/mailbox/mailbox.c:7-16 | running backwards: at most 32 absorbed bits can lead from zero to zero only if all are zero |
| `ShiftRegister.BurstChangesRegister` | src/mailbox/mailbox.c:3-19 | two messages that differ only within 32 consecutive bits leave different registers, wherever the difference lies |
| `ShiftRegister.GeneratorPatternIsInvisible` | src/mailbox/mailbox.c:3-19 | the bound of 32 is exact: flipping the generator's own 33-bit pattern anywhere is invisible |
| `ShiftRegister.SameRegisterIff` | src/mailbox/mailbox.c:3-19 | two messages of one length leave the same register if and only if the polynomial of their difference, times x^32, is a multiple of the generator |
| `ShiftRegister.OnlyThePatternHides` | src/mailbox/mailbox.c:3-19 | of all changes within 33 consecutive bits exactly one is invisible: the generator's own pattern |
| `ShiftRegister.FeedKeepsParity` | src/bib/bib_builder.c:27-33 | when the generator has an even number of terms, the register's parity is the start's parity changed by every one in the message |
| `ShiftRegister.RegisterIsTheRemainder` | src/mailbox/mailbox.c:3-19 | a polynomial is a remainder of the message modulo the generator if and only if it is the one the register holds |
| `Crc.TernaryForm` | src/bib/bib_builder.c:30-32 | the conditional-expression form of the step equals the branch form |
| `Crc.MaskForm` | src/discovery/discovery_validate.c:16-19 | the form that masks the generator with 0 - (crc & 1) equals the branch form |
| `Crc.UpdateFeeds` | src/mailbox/mailbox.c:3-19 | the word loop computes the bit register fed with the message, first byte and low bit first |
| `Crc.UpdateAppends` | src/mailbox/mailbox.c:3-19 | the loop composes over concatenation |
| `Crc.GeneratorOfCrc32` | src/mailbox/mailbox.c:11 | 0xEDB88320 stands for the published CRC-32 polynomial, coefficient by coefficient |
| `Crc.GeneratorOfCrc32c` | src/bib/bib_builder.c:31 | 0x82F63B78 stands for the published CRC-32C polynomial, coefficient by coefficient |
| `Crc.ChecksumIsTheRemainder` | src/mailbox/mailbox.c:21-32 | the inverted checksum is the remainder of the message polynomial modulo the generator, and nothing else is |
| `Crc.BurstChangesChecksum` | src/mailbox/mailbox.c:21-32 | no burst of up to 32 bits leaves either checksum unchanged, for messages of any length |
| `Crc.FourBytesAreABurst` | src/mailbox/mailbox.c:7-16 | any change within four consecutive bytes is such a burst |
| `Crc.FiveBytesCanHide` | src/mailbox/mailbox.c:21-32 | in any message, at any place, some change within five consecutive bytes leaves the checksum as it was |
| `Crc.SameChecksumIff` | src/mailbox/mailbox.c:21-32 | exactly which changes go unnoticed: two messages of one length have the same checksum if and only if their difference, times x^32, is a multiple of the generator |
| `Crc.OnlyThePatternKeepsChecksum` | src/mailbox/mailbox.c:21-32 | a change within 33 consecutive bits keeps either published checksum if and only if it flips the generator's own pattern |
| `Crc.ChecksumEvensParity` | src/bib/bib_builder.c:23-35 | with CRC-32C, a message and its checksum together hold an even number of ones |
| `Mailbox.Crc32Update` | src/mailbox/mailbox.c:3-19 | the branch-form loop computes the specified register update |
| `Mailbox.ComputeCrc32` | src/mailbox/mailbox.c:21-32 | the published CRC-32 of the payload |
| `BibBuilder.ComputeCrc32c` | src/bib/bib_builder.c:23-35 | the conditional-form loop computes the published CRC-32C |
| `BibReader.Crc32cWithZeroedField` | src/bib/bib_reader.c:21-34 | skipping the field equals the plain CRC-32C of the block with bytes 20 to 23 set to zero |
| `DiscoveryFormat.ComputeCrc32` | src/discovery/discovery_validate.c:9-23 | the mask-form loop computes the published CRC-32 |
| `Mailbox.HeaderCell.Build` | src/mailbox/mailbox.c:54-79 | a known type and a payload of at most 4096 bytes give the complete header; anything else leaves every field alone |
| `Mailbox.HeaderCell.ValidateHeader` | src/mailbox/mailbox.c:81-109 | the verdict on header and payload, error by error |
| `Mailbox.SequenceWindow.SequenceAccept` | src/mailbox/mailbox.c:111-138 | the status and the new window; a refused number leaves the window alone |
| `Mailbox.BuiltPacketValidates` | src/mailbox/mailbox.c:54-109 | a build succeeds exactly for message types 1 to 12 and payloads of at most 4096 bytes, names what is wrong otherwise, and is accepted under its own type and number |
| `Mailbox.AcceptedIffBuilt` | src/mailbox/mailbox.c:81-109 | a packet is accepted if and only if it is what a build makes of its type, number and payload; every other is refused as a bad header, an unknown type, a bad length or a checksum mismatch, in this order |
| `Mailbox.BurstIsCrcMismatch` | src/mailbox/mailbox.c:81-109 | every accepted packet whose payload suffers a burst of up to 32 bits is exactly a CRC mismatch |
| `Mailbox.FourBytesAreCrcMismatch` | src/mailbox/mailbox.c:54-109 | a header built for one payload rejects every other of its length that differs within four consecutive bytes |
| `Mailbox.FiveBytesCanPass` | src/mailbox/mailbox.c:81-109 | for every accepted packet and place, some payload changed within five bytes is accepted too |
| `Mailbox.ChangedHeaderPassesIff` | src/mailbox/mailbox.c:91-108 | a changed header of an accepted packet still passes if and only if magic, length and checksum stay and the type is known; the number may be anything |
| `Mailbox.ChangedHeaderStatus` | src/mailbox/mailbox.c:91-108 | and with which status any other change of the header of an accepted packet is refused |
| `Mailbox.KnownMessages` | src/mailbox/mailbox.c:34-52 | the known message types are 1 to 12, and none of the index messages |
| `Mailbox.MagicSpells` | include/atarix/mailbox.h:13 | in bytes the magic number is "AMBX" |
| `Mailbox.AcceptsOnlyTheSuccessor` | src/mailbox/mailbox.c:111-138 | the status of every number: the first and the successor as an integer, which never wraps, are accepted; the same number is a duplicate, a smaller one out of order, a larger one a gap |
| `SimMailbox.Node.RecordTx` | src/sim/sim_node.c:17-24 | the transmit counter advances by one modulo 2^32 |
| `SimMailbox.Node.RecordRx` | src/sim/sim_node.c:26-33 | the receive counter advances by one modulo 2^32 |
| `SimMailbox.Endpoint.constructor` | src/sim/sim_mailbox.c:5-14 | a fresh endpoint has an uninitialised window and its node's counter |
| `SimMailbox.Send` | src/sim/sim_mailbox.c:16-43 | a successful send fills packet and counter; a failed one changes neither |
| `SimMailbox.Endpoint.Receive` | src/sim/sim_mailbox.c:45-69 | window and counter move together on acceptance and not at all otherwise; the packet is never touched |
| `MailboxRuns.AcceptedAreConsecutive` | src/sim/sim_mailbox.c:45-69 | whatever packets arrive, the accepted ones are valid and numbered consecutively from right after the window, which ends on the last of them |
| `MailboxRuns.AcceptedAreCounted` | src/sim/sim_mailbox.c:61-68 | the counter advances by the number accepted, modulo 2^32 |
| `MailboxRuns.ExhaustedWindowIsFinal` | src/mailbox/mailbox.c:124-134 | once the window holds the largest number, nothing is accepted and nothing changes |
| `MailboxRuns.GenuineIsAcceptedInOrder` | src/sim/sim_mailbox.c:45-69 | an undamaged packet of the sender is accepted if and only if it is next in order, or the first to arrive |
| `MailboxRuns.GenuineStatus` | src/mailbox/mailbox.c:118-137 | the status of every sent packet at a receiver that took packets i to j - 1: packet j is accepted, packet j - 1 a duplicate, earlier ones out of order, later ones a sequence error |
| `MailboxRuns.DamageIsNoticed` | src/mailbox/mailbox.c:81-109 | a damaged packet that still validates has the payload and the number it was sent with, whichever of its parts the modelled damage struck |
| `MailboxRuns.AcceptedIsGenuine` | src/sim/sim_mailbox.c:45-69 | whatever is accepted carries a sent payload under its own number, at its place in the order, and moves the receiver as the undamaged packet would |
| `MailboxRuns.EventKeepsSound` | src/sim/sim_mailbox.c:16-69 | sending, loss, repetition, arrival in any order and repeated damage each keep the invariant that the receiver holds a gapless stretch of what was sent; damage is any change of the header but the number, a truncation or extension that spares the length field, or a payload burst of up to 32 bits that spares the checksum field |
| `MailboxRuns.RunKeepsSound` | src/sim/sim_mailbox.c:16-69 | so does every run |
| `MailboxRuns.DeliveredIsASlice` | src/sim/sim_mailbox.c:16-69 | in every reachable state the delivered payloads are a contiguous, in-order slice of the sent ones, and the counter is their number modulo 2^32 |
| `MailboxRuns.RedeliveryCatchesUp` | src/sim/sim_mailbox.c:45-69 | redelivering the packets after the last accepted one in order gets every one of them accepted |
| `MailboxRuns.RenumberedIsAccepted` | src/mailbox/mailbox.c:81-137 | any genuine packet renumbered to the one that is next is accepted out of its place |
| `MailboxRuns.RenumberingBreaksTheSlice` | src/sim/sim_mailbox.c:45-69 | a run in which one altered number makes the delivered payloads no slice of the sent ones |
| `BibFormat.HeaderReads` | src/bib/bib_reader.c:87-118 | a block starts with a given header as written if and only if the reader's fields read as that header |
| `BibFormat.HeaderIsUnique` | src/bib/bib_builder.c:63-72 | the header layout leaves no byte open |
| `BibFormat.RecordIsUnique` | src/bib/bib_builder.c:115-123 | nor does the record layout, padding included |
| `BibFormat.KnownHeaderFlags` | include/atarix/bib.h:189-191 | header flags are known if and only if no bit above bit 3 is set |
| `BibFormat.KnownRecordFlags` | include/atarix/bib.h:193-195 | record flags are known if and only if no bit above bit 1 is set; bit 0 is the mandatory one |
| `BibFormat.HeaderFlagsAreUnions` | include/atarix/bib.h:36-41 | these are exactly the unions of recovery, degraded, secure policy and diagnostic boot |
| `BibFormat.KnownTypes` | src/bib/bib_reader.c:36-39 | the known record types are 1 to 10, of which 1 and 2 are required |
| `BibBuilder.Builder.Init` | src/bib/bib_builder.c:45-80 | succeeds if and only if the capacity is between 64 bytes and 2^32 - 1 and no flag bit above bit 3 is set; the buffer then is the empty block followed by zeros; a refused init changes no byte and no field |
| `BibBuilder.Builder.AddTlv` | src/bib/bib_builder.c:82-128 | a successful add appends exactly the aligned record; a failed one leaves builder and bytes alone; the bytes always are the image of the adds so far |
| `BibBuilder.Builder.AddReference` | src/bib/bib_builder.c:130-149 | the same for the 40-byte reference payload |
| `BibBuilder.Builder.Seal` | src/bib/bib_builder.c:151-173 | the buffer becomes the sealed block of all adds, changing only bytes 16 to 23 and 52 to 55; a second seal changes nothing |
| `BibReader.View.RecordAtOffset` | src/bib/bib_reader.c:41-71 | the record at any offset of the block, or the first check it fails |
| `BibReader.View.Open` | src/bib/bib_reader.c:73-168 | the verdict and the view depend on the window alone; every failure past the window check leaves an all-zero view; the number of record steps is exact |
| `BibReader.View.Record` | src/bib/bib_reader.c:170-188 | record i is the one reached by skipping i records |
| `BibReader.View.FindReference` | src/bib/bib_reader.c:190-225 | walking again for every index finds what one linear pass finds |
| `BibDecoding.WalkIsJudgement` | src/bib/bib_reader.c:127-167 | the walk accepts if and only if the block decodes to its very end into records the judgement accepts |
| `BibDecoding.WalkVerdict` | src/bib/bib_reader.c:127-167 | the verdict of the walk on every block: it passes over admissible records, and the first one that is not there or not admissible, or else the end and the two counts, decide |
| `BibDecoding.CheckIsAdmissible` | src/bib/bib_reader.c:134-156 | which records are admissible: known or optional, and a required reference complete and inside the address space; and what is reported of the others |
| `BibDecoding.WalkIsBounded` | src/bib/bib_reader.c:128-158 | whatever count the header claims, at most (total - offset) / 16 + 1 records are looked at |
| `BibDecoding.DecodeTiles` | src/bib/bib_reader.c:41-71 | decoded records tile the block without gap or overlap, each readable at its place and by its index |
| `BibDecoding.AcceptedIff` | src/bib/bib_reader.c:73-168 | a window opens if and only if its header passes and its block decodes exactly into admissible records with one of each required type |
| `BibDecoding.OpenedRecordsReadBack` | src/bib/bib_reader.c:170-188 | after a successful open every record below the count reads, they tile the block, and none reads past the count |
| `BibDecoding.ClearedViewReadsNothing` | src/bib/bib_reader.c:170-225 | through the view a failed open leaves nothing can be read |
| `BibDecoding.LookupIsFirst` | src/bib/bib_reader.c:190-225 | a lookup returns the first record of its type in the linear decode, or reports it missing |
| `BibDecoding.RequiredLookupFindsRecord` | src/bib/bib_reader.c:190-225 | after a successful open a required reference is never missing, and its lookup fails if and only if its integrity length exceeds its payload |
| `BibLayout.RecordAtIff` | src/bib/bib_reader.c:41-71 | the reader finds a record at an offset if and only if its bytes stand there, with aligned length, clear reserved bytes and no flag bit above bit 1 |
| `BibLayout.RecordErrors` | src/bib/bib_reader.c:49-62 | exactly when there is a bounds error instead, and when a reserved one |
| `BibLayout.ParseReferenceIff` | src/bib/bib_reader.c:204-221 | a payload parses to a reference if and only if it starts with that reference written out, integrity kind, length and data included; otherwise it is too short or its integrity length too large |
| `BibLayout.HeaderVerdict` | src/bib/bib_reader.c:82-118 | the verdict on a header byte by byte, in the order of the checks |
| `BibLayout.ViewFields` | src/bib/bib_reader.c:107-126 | an opened view holds the block and the seven header fields at their places; a refused block leaves all of it zero |
| `BibLayout.OpenVerdict` | src/bib/bib_reader.c:73-168 | the verdict on every window whose header passes, from the bytes of its records alone |
| `BibRoundTrip.EncodedRecordReads` | src/bib/bib_reader.c:41-71 | a record as the builder wrote it reads back field for field, wherever it stands |
| `BibRoundTrip.HistoryKeepsAdds` | src/bib/bib_builder.c:82-173 | after any sequence of calls the builder holds exactly the successful adds in order; calls after a seal change nothing, and a second seal is a state error |
| `BibRoundTrip.InitialisedIff` | src/bib/bib_builder.c:55-61 | when init succeeds, and which argument is to blame otherwise |
| `BibRoundTrip.AddSucceedsIff` | src/bib/bib_builder.c:82-113 | when an add succeeds, and which condition is to blame otherwise: state, flags, payload length, room |
| `BibRoundTrip.SealedBlockOpens` | src/bib/bib_reader.c:73-168 | the exact verdict on any sealed block, with anything after it |
| `BibRoundTrip.BuilderRoundTrip` | src/bib/bib_builder.c:45-173 | for any history of calls the sealed block opens if and only if it is at most 64 KiB and its records are acceptable; header fields and the i-th successful add then read back exactly |
| `BibRoundTrip.EmptyBlockIsRefused` | src/bib/bib_builder.c:151-173 | a builder sealed right after init succeeds, and the reader refuses its block exactly for want of the required records |
| `BibRoundTrip.ReferenceParses` | src/bib/bib_reader.c:204-221 | a reference payload as written parses to its five fields and no integrity data |
| `BibRoundTrip.FirstReferenceReturned` | src/bib/bib_builder.c:130-149 | the first reference added of a type is what its lookup returns, field for field |
| `BibRebuild.RecordReencodes` | src/bib/bib_reader.c:53-70 | a decoded record re-encodes to its own bytes if and only if its length is minimal and its padding zero |
| `BibRebuild.RebuiltIff` | src/bib/bib_reader.c:111-118 | sealing the decoded header and records reproduces an accepted block if and only if it has minor version 0, records from byte 64 on, minimal lengths and zero padding |
| `BibRebuild.DecodeThenRebuild` | src/bib/bib_builder.c:45-173 | so do init, one add per decoded record and seal, in any buffer with room for the block |
| `BibIntegrity.BurstIsRejected` | src/bib/bib_reader.c:87-105 | a burst of up to 32 bits outside the length and checksum fields is always rejected, and as a CRC error if and only if magic, major version and header length still pass |
| `BibIntegrity.FourBytesAreCrcError` | src/bib/bib_reader.c:103-105 | any change within four consecutive bytes from byte 24 on is exactly a CRC error |
| `BibIntegrity.FourBytesAreRejected` | src/bib/bib_reader.c:87-105 | any change within four consecutive bytes outside bytes 16 to 23 is rejected |
| `BibIntegrity.ChecksumFieldIsProtected` | src/bib/bib_reader.c:103-105 | any change of the checksum field alone is exactly a CRC error |
| `BibIntegrity.AcceptedBlockIsEven` | src/bib/bib_reader.c:103-105 | every accepted block holds an even number of ones |
| `BibIntegrity.OddChangeIsRejected` | src/bib/bib_reader.c:103-105 | no change of an odd number of bits anywhere but in the length field, checksum included, is ever accepted |
| `SimBib.Capture` | src/sim/sim_bib.c:3-54 | succeeds if and only if the builder takes the buffer and 176 bytes fit, and then leaves the sealed block of the two references |
| `SimBib.CaptureOpens` | src/sim/sim_bib.c:3-54 | every capture opens unless a reference runs past the address space, which is then the reported error; its records are the two mandatory references, and both come back as configured |
| `BibLayout.NamedFlagsGoThrough` | include/atarix/bib.h:36-41 | every union of the four named flags is taken by init at every capacity, by the capture in every buffer of 176 bytes, and handed back by the reader |
| `BibTolerance.PaddingIsIgnored` | src/bib/bib_reader.c:41-71 | blocks that agree outside padding, the gap before the first record and the checksum field, each rightly checksummed, get the same verdict, header fields and records |
| `BibTolerance.UnreadMayHoldAnything` | src/bib/bib_reader.c:41-71 | in every accepted block any such byte may be set to any value, with the checksum adjusted, without changing what is read |
| `BibTolerance.NonzeroPaddingOpens` | src/bib/bib_reader.c:41-71 | an accepted block with any chosen value in any padding byte of its last record |
| `BibTolerance.ZeroReferencesOpen` | src/bib/bib_reader.c:140-156 | required references of zero address and zero length are accepted and handed back |
| `BibTolerance.OrderDoesNotMatter` | src/bib/bib_reader.c:127-166 | a sealed block opens if and only if the block of its records in any other order does |
| `BibTolerance.DescendingCaptureOpens` | src/bib/bib_reader.c:127-166 | a block with its required references in descending order opens |
| `BibTolerance.OnlyOneHeaderLength` | src/bib/bib_reader.c:93-95 | once magic and major version pass, the verdict is a header-length error if and only if the header length is not 64 |
| `DiscoveryFormat.HandleRoundTrip` | include/atarix/discovery.h:134-152 | packing and the three projections are inverse to each other, both ways |
| `DiscoveryFormat.HandleBytes` | include/atarix/discovery.h:146-152 | in bytes a handle is the instance, the type and the provider |
| `DiscoveryValidate.CheckCrc` | src/discovery/discovery_validate.c:25-61 | both checksums are computed with the fields zeroed in copies, the image itself untouched; above 512 bytes only the header's counts |
| `DiscoveryValidate.ValidateImage` | src/discovery/discovery_validate.c:63-143 | the verdict of the header checks followed by that of the record walk |
| `DiscoveryAcceptance.HeaderVerdict` | src/discovery/discovery_validate.c:76-102 | the verdict on a header byte by byte: size, magic, version, length, checksums |
| `DiscoveryAcceptance.ValidateIff` | src/discovery/discovery_validate.c:63-143 | an image is accepted if and only if its header passes and there are records from byte 32 on, each as long as its length field says, which is at least 8, a multiple of 8 and inside the image, with END at the last of them only, and as many as the header counts unless that is zero |
| `DiscoveryAcceptance.RecordsVerdict` | src/discovery/discovery_validate.c:104-142 | why any other image with such a header is refused: END is missing, or a length is wrong, or a record is cut off, or the count is wrong; alignment never fails |
| `DiscoveryAcceptance.TypesDoNotMatter` | src/discovery/discovery_validate.c:104-130 | records that agree in length and in being END get the same verdict, whatever else their types are |
| `DiscoveryDatabase.Database.constructor` | src/discovery/discovery_database.c:3-23 | no tables at all |
| `DiscoveryDatabase.Database.FindResource` | src/discovery/discovery_database.c:25-41 | the first resource with the handle, or proof that there is none; with distinct handles it agrees with the abstract map |
| `DiscoveryDatabase.Database.FindService` | src/discovery/discovery_database.c:43-59 | the same for services |
| `DiscoveryDatabase.Database.Contains` | src/discovery/discovery_database.c:61-95 | true if and only if the abstract map over all three tables has the handle |
| `DiscoveryParser.AddResource` | src/discovery/discovery_parser.c:3-23 | reads the handle, then looks for a duplicate, then for room, and only then reads and appends the entry; a refused record changes nothing |
| `DiscoveryParser.AddService` | src/discovery/discovery_parser.c:25-45 | the same for services |
| `DiscoveryParser.AddDependency` | src/discovery/discovery_parser.c:47-62 | a full table refuses before anything is read; otherwise one entry is appended without any handle check |
| `DiscoveryParser.AddInstrument` | src/discovery/discovery_parser.c:64-83 | the same as for resources |
| `DiscoveryLayout.EntryReads` | include/atarix/discovery.h:75-112 | a resource, service, dependency or instrument written field by field as the header file lays it out is read as exactly that entry, whatever the version and length of its record |
| `DiscoveryLayout.RecordIsAdded` | src/discovery/discovery_parser.c:3-83 | and added behind the last entry of its own table, unless its handle is taken or, after that, its table is full |
| `DiscoveryAcceptance.ParseSkipsOthers` | src/discovery/discovery_parser.c:109-126 | a parse comes to the same as if records of all other types were not there |
| `DiscoveryDatabase.IndexIsExact` | src/discovery/discovery_database.c:25-95 | with distinct handles the tables are a map: an entry is named by a handle if and only if the map says so |
| `DiscoveryDatabase.ContainsIsMembership` | src/discovery/discovery_database.c:61-95 | the three searches together decide membership in the handles of all three tables |
| `DiscoveryDatabase.AddKeepsHandlesDistinct` | src/discovery/discovery_parser.c:3-83 | every add keeps handles distinct across resources, services and instruments and every table within its capacity |
| `DiscoveryParser.ScanIsLinked` | src/discovery/discovery_iterator.c:21-51 | the offsets of a successful walk are chained by the iterator and end at the only END |
| `DiscoveryAcceptance.NextRecordIff` | src/discovery/discovery_iterator.c:8-51 | on any image, validated or not, the iterator goes on exactly to an aligned place inside the image that a record of at least eight bytes leads to |
| `DiscoveryParser.IteratorFollowsValidator` | src/discovery/discovery_iterator.c:8-51 | after a successful validation the iterator visits exactly the validator's records |
| `DiscoveryParser.ParseImage` | src/discovery/discovery_parser.c:85-136 | whenever no record is read past the end of the image, a parse is the validation followed by a left fold of the add steps over exactly the records the validator walked |
| `DiscoveryParser.FoldIsAddAll` | src/discovery/discovery_parser.c:103-133 | on complete records the fold adds their entries in order until one is refused |
| `DiscoveryParser.OverrunsIff` | src/discovery/discovery_parser.c:109-121 | a validated image is read past its end if and only if the fold reaches a typed record that starts less than 32 bytes before the end and is not refused on what precedes its last bytes |
| `DiscoveryParser.LongRecordsFit` | src/discovery/discovery_validate.c:115-122 | if every typed record is at least 24 bytes long, no tables make the parse read past the end |
| `DiscoveryParser.FoldStops` | src/discovery/discovery_parser.c:103-133 | the tables end with everything before the first step that does not return Ok, and that step is the outcome |
| `DiscoveryRuns.ParseOutcome` | src/discovery/discovery_parser.c:85-136 | for any image and tables: a failed validation changes nothing; after it only a duplicate, a full table or a read past the end can stop the parse, never a missing END, and the tables hold the entries before that record |
| `DiscoveryRuns.ParsesKeepHandlesDistinct` | src/discovery/discovery_parser.c:85-136 | across any sequence of parses of any images, failed or not, up to one that reads past the end, handles stay distinct over all three tables and counts within capacity |
| `DiscoveryRuns.MeaningsPersist` | src/discovery/discovery_parser.c:85-136 | a handle keeps naming the same thing through all later parses |
| `DiscoveryIntegrity.HeaderBurstIsRejected` | src/discovery/discovery_validate.c:44-48 | a burst of up to 32 bits in the first 24 bytes is always rejected, whatever else follows the header checksum |
| `DiscoveryIntegrity.DocumentedHeaderCrcIff` | src/discovery/discovery_validate.c:39-44 | the checksum the code computes is the documented one if and only if the image checksum field is zero |
| `DiscoveryIntegrity.HeaderChecksumIsProtected` | src/discovery/discovery_validate.c:44-48 | any change of the header checksum alone is exactly a CRC error |
| `DiscoveryIntegrity.ImageChecksumIsProtectedIff` | src/discovery/discovery_validate.c:50-60 | a change of the image checksum alone is a CRC error up to 512 bytes and goes unnoticed above |
| `DiscoveryIntegrity.RecordBurstIsBadCrc` | src/discovery/discovery_validate.c:54-60 | up to 512 bytes any burst in the records is exactly a CRC error |
| `DiscoveryIntegrity.LargeRecordsAreOnlyWalked` | src/discovery/discovery_validate.c:50-52 | above 512 bytes changed records pass if and only if the record walk and the count still do |
| `MkDiscovery.AppendBytes` | tools/mkdiscovery/mkdiscovery.c:38-45 | copies what fits and moves the offset; what does not fit leaves both alone |
| `MkDiscovery.AppendEnd` | tools/mkdiscovery/mkdiscovery.c:47-54 | the same for the END record |
| `MkDiscovery.AppendResource` | tools/mkdiscovery/mkdiscovery.c:56-68 | the same for a resource record of version 1, without flags, under the handle of its provider, type and instance |
| `MkDiscovery.AppendService` | tools/mkdiscovery/mkdiscovery.c:70-82 | the same for a service record |
| `MkDiscovery.PatchCrc32` | tools/mkdiscovery/mkdiscovery.c:29-36 | the header checksum over zeroed fields first, then the image checksum with the header's in place |
| `MkDiscovery.BuildProfile` | tools/mkdiscovery/mkdiscovery.c:84-129 | a known profile gives exactly the image of its entries if and only if that fits; every other call fails |
| `DiscoveryRoundTrip.RecordReads` | tools/mkdiscovery/mkdiscovery.c:56-82 | an appended record holds its type, its length and its fields, wherever it stands |
| `DiscoveryRoundTrip.ScanVisitsEntries` | src/discovery/discovery_validate.c:104-130 | the validator's walk over an image of any such entries visits each record and then END |
| `DiscoveryRoundTrip.GeneratedValidates` | tools/mkdiscovery/mkdiscovery.c:119-128 | every image of entries of the four kinds validates, alone or with anything after it |
| `DiscoveryRoundTrip.HandlesAreTriples` | include/atarix/discovery.h:146-152 | two generated records share a handle if and only if provider low half, type and instance agree |
| `DiscoveryRoundTrip.AddsUpToFirstDuplicate` | src/discovery/discovery_parser.c:3-83 | with room in the tables, exactly the entries before the first repeated handle are added |
| `DiscoveryRoundTrip.GeneratedParses` | src/discovery/discovery_parser.c:85-136 | an image of resources, services, dependencies and instruments parses to exactly these, each in its own table and field for field, if and only if their handles are new and distinct; otherwise to the entries before the first repeat and a duplicate |
| `DiscoveryRoundTrip.ProfileEntries` | tools/mkdiscovery/mkdiscovery.c:97-117 | the four profile names, their providers and their entries in numbers |
| `DiscoveryRoundTrip.ProfileParses` | tools/mkdiscovery/mkdiscovery.c:97-117 | the tables each built-in profile parses to, entry by entry: minimal and supervisor completely; cpu-card stops at its third record and instrumentation at its second, both as duplicates |
| `DiscoveryRoundTrip.ShortRecordOverruns` | src/discovery/discovery_validate.c:115-122 | a 48-byte image that validates and is read past its end whatever the tables hold |
| `DiscoveryRoundTrip.UnknownRecordIsSkipped` | src/discovery/discovery_parser.c:122-124 | for every type but the four with a table and END, a 48-byte image with one such record validates and leaves any tables as they were |
| `Rings.WireIsInjective` | include/atarix/rings.h:30-49 | two rings share a wire value if and only if they are equal or one is an application and the other not in the enumeration |
| `Rings.WireIsValueModulo` | include/atarix/rings.h:10-49 | a ring travels as its enumeration value modulo 2^16, one outside the enumeration as an application |
| `CapabilityPolicy.PolicyEvaluate` | src/capability/capability_policy.c:167-236 | the whole result after the step-by-step overwriting, error by error |
| `Authority.FlagsAreSubset` | src/capability/capability_policy.c:152-154 | the test on child and inverted parent flags passes if and only if every flag bit of the child is one of the parent's |
| `Authority.AllowedIff` | src/capability/capability_policy.c:167-236 | the policy allows exactly what is authorised: a complete record, no revocation, time within its lifetime, trusted principals, the owner, a ring among those of the bounds, own target and operation with its flag bit |
| `Authority.RangeValidIff` | src/capability/capability_policy.c:11-23 | valid bounds are supervisor alone, fabric up to fabric or an ordinary ring, or a nonempty range of ordinary rings |
| `Authority.RefusalNamesFirstFault` | src/capability/capability_policy.c:167-236 | every refusal names the first fault of nine, and points at the record if and only if that is complete |
| `Authority.OneRingCapability` | src/capability/capability_policy.c:11-37 | a capability whose bounds are one ring is usable from exactly the rings with that wire value |
| `Authority.QuarantineIsNeverAllowed` | src/capability/capability_policy.c:11-37 | no capability whatsoever lets the quarantine ring do anything |
| `Delegation.DelegationOkIff` | src/capability/capability_policy.c:117-165 | a delegation is accepted if and only if both records are complete and without supervisor bounds, the parent has the delegation bit, target and operation agree, the flags are a subset, and the rings narrow: a nonempty subset of the parent's for ordinary bounds, the three fabric cases beside it |
| `Delegation.DelegationRefusals` | src/capability/capability_policy.c:117-165 | and otherwise for which reason, in which order, it is refused |
| `Delegation.DelegatesToEveryRing` | src/capability/capability_policy.c:156-162 | in particular a parent with ordinary bounds may delegate to every single ring it admits |
| `Delegation.AllowedUnderParentIff` | src/capability/capability_policy.c:117-165 | a request allowed under a delegated capability is allowed under its parent if and only if the parent is alive then and the child did not escape to the fabric ring |
| `Delegation.AttenuatesIff` | src/capability/capability_policy.c:117-165 | an accepted delegation only reduces what the policy allows if and only if the child is unusable, or does not escape and does not outlive its parent |
| `Delegation.EvaluatorAttenuatesIff` | src/capability/capability_evaluator.c:43-63 | and what the evaluator decides if and only if it does not escape, asks for no less trust and keeps the recovery flag |
| `Delegation.DelegationCanWiden` | src/capability/capability_policy.c:152-162 | concrete accepted delegations under which a child allows more than its parent, one for each condition: lifetime, fabric ring, recovery flag, trust |
| `Delegation.DelegationIsTransitive` | src/capability/capability_policy.c:117-165 | two delegations in a row are one |
| `Delegation.ChainCollapses` | src/capability/capability_policy.c:126-164 | in a chain of any length every earlier member could have delegated to every later one directly |
| `Delegation.ChainKeepsScope` | src/capability/capability_policy.c:144-154 | along a chain target and operation stay and no flag is gained |
| `Delegation.EscapedIsFinal` | src/capability/capability_policy.c:156-162 | a capability that escaped to the fabric ring cannot be delegated further |
| `Delegation.OnlyTheLastEscapes` | src/capability/capability_policy.c:156-162 | so in a chain only the last link can escape |
| `Delegation.ChainAllows` | src/capability/capability_policy.c:117-236 | a request allowed at the end of a chain is allowed anywhere in it if and only if that member is alive and the last link did not escape |
| `CapabilityEvaluator.Evaluate` | src/capability/capability_evaluator.c:17-71 | the loop with its early returns gives the verdict on the first match, its place and its reason code |
| `CapabilityEvaluator.FirstMatchDecides` | src/capability/capability_evaluator.c:31-64 | in a list of any length the outcome depends on the first matching record alone |
| `CapabilityEvaluator.NoMatchDenies` | src/capability/capability_evaluator.c:67-70 | without a match the answer is a denial with reason 3 |
| `CapabilityEvaluator.VerdictMeans` | src/capability/capability_evaluator.c:43-64 | on a match, too little trust restricts with reason 1, then a ring that is not admitted denies with reason 2, then flag bit 7 limits to recovery, and everything else is allowed |
| `CapabilityEvaluator.RingTestsDiffer` | src/capability/capability_evaluator.c:3-15 | the evaluator's ring test admits what the policy's does, and more in exactly one case: the supervisor on a fabric capability |
| `CapabilityEvaluator.PolicyAllowIsHonoured` | src/capability/capability_evaluator.c:43-64 | what the policy allows under the first match the evaluator allows, in recovery only if so flagged, if and only if the requester's trust suffices |

## Left out

- DiscoveryParser.ParseImage: says nothing about a parse that reads past the end of the image, after which the behaviour of the C code is undefined; `DiscoveryParser.OverrunsIff` says exactly when that is.
- MailboxRuns.EventKeepsSound: damage that alters the number of a packet whose payload is intact, alters payload and checksum together, or strikes more of the payload than one burst is not among the events, because nothing makes the receiver notice it; `MailboxRuns.RenumberingBreaksTheSlice` is what it does.
- BibIntegrity.BurstIsRejected: needs the length field (bytes 16 to 19) unchanged, because a damaged length makes the reader checksum a different range, about which a CRC says nothing.
- DiscoveryIntegrity.RecordBurstIsBadCrc: is about images of at most 512 bytes, the only ones whose records are checksummed.
- MkDiscovery.FinishImage: asks that the image length fits 32 bits, which it does in the generator's 4096-byte buffer.
- NULL arguments and the statuses they return, except an uninitialised builder, view or table, which is modelled as a missing buffer.
- Aliasing: C packets and record views keep the address of a payload; here the payload is a byte sequence, copied when a packet is sent or a record is found.
- Packed-structure casts and host byte order: discovery images and mailbox headers are read and written as little-endian fields, as on a little-endian host.
- The type of an enumeration: trust levels are 32-bit unsigned, and a ring outside the enumeration is one value.
- The address of a matched capability in a result: the policy result says whether there is one, the evaluator's gives its place in the list.
- `src/ring/ring.c` and `atarix_mailbox_ring_authorize`: a finite table of ring pairs.
- `src/memory.c` and `src/sim/sim_fabric.c`: one chain of checks and one linear search.
- `tools/bibdump/bibdump.c`, `main` and the file writing of `tools/mkdiscovery/mkdiscovery.c`: input and output.
- The Python tools and scripts: file walking, Git and report text.
- Headers that only declare constants (directory, identity EEPROM, index) and the documents on audit, lifecycle, DMA and namespaces: no code implements them.
- The delegation mask, the issuer handle's authenticity and a store of revocations: the code carries the fields but never looks at them.
- Whether dependency records name existing handles: the code does not check it.
