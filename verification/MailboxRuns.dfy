/** Whole runs of the mailbox transport: any packets at one receiver, and one sender over a
    channel that loses, duplicates, reorders and damages packets. */
module MailboxRuns {
  import opened Bytes
  import opened Mailbox
  import opened SimMailbox
  import Crc

  // ---- Arbitrary packets at one receiver

  function ReceiveAll(r: Receiver, packets: seq<Packet>): Receiver
    decreases |packets|
  {
    if packets == [] then r else ReceiveAll(Received(r, packets[0]), packets[1..])
  }

  /** The packets of a run that were accepted, in order. */
  function Accepted(r: Receiver, packets: seq<Packet>): seq<Packet>
    decreases |packets|
  {
    if packets == [] then []
    else (if ReceiveStatus(r, packets[0]) == Ok then [packets[0]] else [])
         + Accepted(Received(r, packets[0]), packets[1..])
  }

  /** Valid packets whose numbers are consecutive as integers, so that they never wrap. */
  predicate Consecutive(packets: seq<Packet>) {
    && (forall i | 0 <= i < |packets| :: Validate(packets[i].header, packets[i].payload) == Ok)
    && (forall i, j | 0 <= i < |packets| && j == i + 1 < |packets| ::
          packets[j].header.sequence == packets[i].header.sequence + 1)
  }

  /** The window after accepting these packets. */
  function WindowAfter(window: Window, accepted: seq<Packet>): Window {
    if accepted == [] then window else Window(accepted[|accepted| - 1].header.sequence, true)
  }

  /** Whatever arrives, the accepted packets are valid and consecutive, starting right after
      the window; the window then holds the last of them. */
  lemma {:induction false} AcceptedAreConsecutive(r: Receiver, packets: seq<Packet>)
    ensures Consecutive(Accepted(r, packets))
    ensures Accepted(r, packets) != [] && r.window.initialized ==>
              Accepted(r, packets)[0].header.sequence == r.window.lastSequence + 1
    ensures ReceiveAll(r, packets).window == WindowAfter(r.window, Accepted(r, packets))
    decreases |packets|
  {
    hide Validate, AcceptStatus, Received, ReceiveStatus;
    if packets == [] {
    } else {
      var packet, r' := packets[0], Received(r, packets[0]);
      var rest := Accepted(r', packets[1..]);
      AcceptedAreConsecutive(r', packets[1..]);
      if ReceiveStatus(r, packet) == Ok {
        AcceptedStep(r, packet);
        ConsecutivePrepends(packet, rest);
        WindowPrepends(r.window, packet, rest);
      }
      AcceptedHead(r, packets);
    }
  }

  /** The counter advances by the number accepted, modulo 2^32. */
  lemma {:induction false} AcceptedAreCounted(r: Receiver, packets: seq<Packet>)
    ensures ReceiveAll(r, packets).rxCount == Wrap(r.rxCount + |Accepted(r, packets)|)
    decreases |packets|
  {
    hide Wrap, Received, ReceiveStatus;
    if packets == [] {
      WrapOfWord(r.rxCount);
    } else {
      var r' := Received(r, packets[0]);
      AcceptedAreCounted(r', packets[1..]);
      AcceptedHead(r, packets);
      if ReceiveStatus(r, packets[0]) == Ok {
        AcceptedStep(r, packets[0]);
        WrapAdds(r.rxCount + 1, |Accepted(r', packets[1..])|);
      }
    }
  }

  lemma AcceptedHead(r: Receiver, packets: seq<Packet>)
    requires packets != []
    ensures var rest := Accepted(Received(r, packets[0]), packets[1..]);
            Accepted(r, packets) == if ReceiveStatus(r, packets[0]) == Ok then [packets[0]] + rest else rest
    ensures ReceiveStatus(r, packets[0]) != Ok ==> Received(r, packets[0]) == r
  {
  }

  lemma WindowPrepends(window: Window, packet: Packet, rest: seq<Packet>)
    ensures WindowAfter(window, [packet] + rest) == WindowAfter(Window(packet.header.sequence, true), rest)
  {
  }

  lemma ConsecutivePrepends(packet: Packet, rest: seq<Packet>)
    requires Consecutive(rest) && Validate(packet.header, packet.payload) == Ok
    requires rest != [] ==> rest[0].header.sequence == packet.header.sequence + 1
    ensures Consecutive([packet] + rest)
  {
    var all := [packet] + rest;
    forall i, j | 0 <= i < |all| && j == i + 1 < |all|
      ensures all[j].header.sequence == all[i].header.sequence + 1
    {
      assert all[j] == rest[j - 1];
    }
  }

  lemma WrapAdds(n: nat, k: nat)
    ensures Wrap(Wrap(n) + k) == Wrap(n + k)
  {
  }

  lemma WrapOfWord(n: u32)
    ensures Wrap(n) == n
  {
  }

  lemma RejectedStep(r: Receiver, packet: Packet)
    requires ReceiveStatus(r, packet) != Ok
    ensures Received(r, packet) == r
  {
  }

  lemma AcceptedStep(r: Receiver, packet: Packet)
    requires ReceiveStatus(r, packet) == Ok
    ensures Validate(packet.header, packet.payload) == Ok
    ensures Received(r, packet) == Receiver(Window(packet.header.sequence, true), Wrap(r.rxCount + 1))
    ensures r.window.initialized ==> packet.header.sequence == r.window.lastSequence + 1
  {
    if r.window.initialized {
      AcceptsOnlyTheSuccessor(r.window, packet.header.sequence);
    }
  }

  /** Once the window holds the largest number, nothing is ever accepted again. */
  lemma ExhaustedWindowIsFinal(r: Receiver, packets: seq<Packet>)
    requires r.window == Window(UINT32_MAX, true)
    ensures Accepted(r, packets) == [] && ReceiveAll(r, packets) == r
  {
    AcceptedAreConsecutive(r, packets);
    AcceptedAreCounted(r, packets);
  }

  // ---- One sender, one receiver, a faulty channel

  /** What can become of a packet: its header damaged in any way that spares the number; its
      payload truncated or extended, if the length field is spared; or a burst of up to 32 bits
      in its payload, if the checksum field is spared. In the last two the rest of the header
      may be anything. */
  ghost predicate DamagedFrom(original: Packet, packet: Packet) {
    || (packet.payload == original.payload && packet.header.sequence == original.header.sequence)
    || (|packet.payload| != |original.payload| && packet.header.length == original.header.length)
    || (packet.header.crc32 == original.header.crc32
        && exists p :: Crc.BurstApart(original.payload, packet.payload, p))
  }

  /** What can happen in the network. `Damage` may strike a packet again and again, as long as
      what is left of packet k of the sender is one of the above. */
  datatype Event =
    | SendNext(messageType: u16, payload: seq<u8>)
    | Lose(packet: Packet)
    | Duplicated(packet: Packet)
    | Damage(packet: Packet, garbled: Packet, k: nat)
    | Arrive(packet: Packet)

  /** `transit` is a multiset, so packets may arrive in any order. */
  datatype Network = Network(sent: seq<Packet>, transit: multiset<Packet>, receiver: Receiver, delivered: seq<seq<u8>>)

  const IDLE: Network := Network([], multiset{}, Receiver(Window(0, false), 0), [])

  /** The sender numbers its packets first, first + 1, ... and stops before wrapping. */
  ghost function Next(net: Network, first: u32, event: Event): Network {
    match event
    case SendNext(messageType, payload) =>
      if first + |net.sent| <= UINT32_MAX && BuildStatus(messageType, payload) == Ok then
        var packet := Packet(BuiltHeader(messageType, first + |net.sent|, payload), payload);
        net.(sent := net.sent + [packet], transit := net.transit + multiset{packet})
      else net
    case Lose(packet) =>
      net.(transit := net.transit - multiset{packet})
    case Duplicated(packet) =>
      if packet in net.transit then net.(transit := net.transit + multiset{packet}) else net
    case Damage(packet, garbled, k) =>
      if packet in net.transit && k < |net.sent| && DamagedFrom(net.sent[k], packet) && DamagedFrom(net.sent[k], garbled) then
        net.(transit := net.transit - multiset{packet} + multiset{garbled})
      else net
    case Arrive(packet) =>
      if packet in net.transit then
        net.(transit := net.transit - multiset{packet},
             receiver := Received(net.receiver, packet),
             delivered := if ReceiveStatus(net.receiver, packet) == Ok then net.delivered + [packet.payload] else net.delivered)
      else net
  }

  ghost function Run(net: Network, first: u32, events: seq<Event>): Network
    decreases |events|
  {
    if events == [] then net else Run(Next(net, first, events[0]), first, events[1..])
  }

  /** Packet k of the sender is a build numbered first + k. */
  ghost predicate Genuine(sent: seq<Packet>, first: u32) {
    && first + |sent| <= UINT32_MAX + 1
    && forall k | 0 <= k < |sent| ::
         && BuildStatus(sent[k].header.messageType, sent[k].payload) == Ok
         && sent[k].header == BuiltHeader(sent[k].header.messageType, first + k, sent[k].payload)
  }

  /** A packet in transit is one that was sent, or what damage left of it. */
  ghost predicate FromSender(packet: Packet, sent: seq<Packet>) {
    exists k :: 0 <= k < |sent| && DamagedFrom(sent[k], packet)
  }

  function Payloads(packets: seq<Packet>): seq<seq<u8>> {
    seq(|packets|, i requires 0 <= i < |packets| => packets[i].payload)
  }

  /** The receiver has taken packets i to j - 1 of the sender, in order and without gaps. */
  ghost predicate Took(net: Network, first: u32, i: nat, j: nat) {
    && i <= j <= |net.sent|
    && net.delivered == Payloads(net.sent[i..j])
    && (i < j ==> first + j <= UINT32_MAX + 1)
    && net.receiver == Receiver(if i == j then Window(0, false) else Window(first + j - 1, true), Wrap(j - i))
  }

  ghost predicate Sound(net: Network, first: u32) {
    && Genuine(net.sent, first)
    && (forall packet | packet in net.transit :: FromSender(packet, net.sent))
    && exists i: nat, j: nat :: Took(net, first, i, j)
  }

  lemma GenuineValidates(sent: seq<Packet>, first: u32, k: nat)
    requires Genuine(sent, first) && k < |sent|
    ensures Validate(sent[k].header, sent[k].payload) == Ok && sent[k].header.sequence == first + k
  {
    BuiltPacketValidates(sent[k].header.messageType, first + k, sent[k].payload);
  }

  /** An undamaged packet is accepted exactly when it is next in order. */
  lemma GenuineIsAcceptedInOrder(net: Network, first: u32, i: nat, j: nat, k: nat)
    requires Genuine(net.sent, first) && Took(net, first, i, j) && k < |net.sent|
    ensures ReceiveStatus(net.receiver, net.sent[k]) == Ok <==> i == j || k == j
  {
    GenuineValidates(net.sent, first, k);
    if i < j {
      AcceptsOnlyTheSuccessor(net.receiver.window, first + k);
    }
  }

  /** What the receiver says to each undamaged packet, once it has taken packets i to j - 1: the
      next one is accepted, the last one is a duplicate, earlier ones are out of order, and
      later ones are sequence errors. */
  lemma GenuineStatus(net: Network, first: u32, i: nat, j: nat, k: nat)
    requires Genuine(net.sent, first) && Took(net, first, i, j) && i < j && k < |net.sent|
    ensures ReceiveStatus(net.receiver, net.sent[k]) ==
            if k == j then Ok
            else if k == j - 1 then Duplicate
            else if k < j - 1 then OutOfOrder
            else SequenceError
  {
    hide Validate;
    GenuineValidates(net.sent, first, k);
    if k == j {
      AcceptsOnlyTheSuccessor(net.receiver.window, first + k);
    }
  }

  /** Damage is harmless or noticed: what still validates has the payload and the number of the
      packet it was. */
  lemma DamageIsNoticed(original: Packet, packet: Packet)
    requires Validate(original.header, original.payload) == Ok && DamagedFrom(original, packet)
    requires Validate(packet.header, packet.payload) == Ok
    ensures packet.payload == original.payload && packet.header.sequence == original.header.sequence
  {
    hide Crc32;
    if packet.header.crc32 == original.header.crc32 && exists p :: Crc.BurstApart(original.payload, packet.payload, p) {
      var p :| Crc.BurstApart(original.payload, packet.payload, p);
      BurstIsCrcMismatch(original.header, original.payload, packet.payload, p);
      assert false;
    }
  }

  /** The receiver only looks at the number of a valid packet. */
  lemma ReceivedAlike(r: Receiver, packet: Packet, other: Packet)
    requires Validate(other.header, other.payload) == Ok && other.header.sequence == packet.header.sequence
    requires ReceiveStatus(r, packet) == Ok
    ensures ReceiveStatus(r, other) == Ok && Received(r, other) == Received(r, packet)
  {
    hide Validate, AcceptStatus;
  }

  /** Whatever this sender's packets have been through, one that is accepted carries the payload
      of packet k under the number of packet k, and is next in order. */
  lemma AcceptedIsGenuine(net: Network, first: u32, packet: Packet, i: nat, j: nat) returns (k: nat)
    requires Genuine(net.sent, first) && Took(net, first, i, j) && FromSender(packet, net.sent)
    requires ReceiveStatus(net.receiver, packet) == Ok
    ensures k < |net.sent| && (i == j || k == j)
    ensures packet.payload == net.sent[k].payload && packet.header.sequence == net.sent[k].header.sequence
    ensures Received(net.receiver, packet) == Received(net.receiver, net.sent[k])
  {
    hide Validate, AcceptStatus, Received, DamagedFrom;
    k :| 0 <= k < |net.sent| && DamagedFrom(net.sent[k], packet);
    GenuineValidates(net.sent, first, k);
    DamageIsNoticed(net.sent[k], packet);
    ReceivedAlike(net.receiver, packet, net.sent[k]);
    GenuineIsAcceptedInOrder(net, first, i, j, k);
  }

  lemma FromSenderGrows(packet: Packet, sent: seq<Packet>, more: Packet)
    requires FromSender(packet, sent)
    ensures FromSender(packet, sent + [more])
  {
    hide DamagedFrom;
    var k :| 0 <= k < |sent| && DamagedFrom(sent[k], packet);
    assert (sent + [more])[k] == sent[k];
  }

  lemma SentIsFromSender(sent: seq<Packet>, packet: Packet)
    ensures FromSender(packet, sent + [packet])
  {
    assert (sent + [packet])[|sent|] == packet;
    assert DamagedFrom((sent + [packet])[|sent|], packet);
  }

  /** Sending adds a genuine packet and does not touch the receiving side. */
  lemma SendKeepsSound(net: Network, net': Network, first: u32, packet: Packet)
    requires Sound(net, first)
    requires first + |net.sent| <= UINT32_MAX && BuildStatus(packet.header.messageType, packet.payload) == Ok
    requires packet.header == BuiltHeader(packet.header.messageType, first + |net.sent|, packet.payload)
    requires net' == net.(sent := net.sent + [packet], transit := net.transit + multiset{packet})
    ensures Sound(net', first)
  {
    forall m | m in net'.transit
      ensures FromSender(m, net'.sent)
    {
      if m == packet {
        SentIsFromSender(net.sent, packet);
      } else {
        FromSenderGrows(m, net.sent, packet);
      }
    }
    var i: nat, j: nat :| Took(net, first, i, j);
    TookGrows(net, net', first, i, j, packet);
  }

  lemma TookGrows(net: Network, net': Network, first: u32, i: nat, j: nat, packet: Packet)
    requires Took(net, first, i, j)
    requires net'.sent == net.sent + [packet] && net'.receiver == net.receiver && net'.delivered == net.delivered
    ensures Took(net', first, i, j)
  {
    assert net'.sent[i..j] == net.sent[i..j];
  }

  /** Accepting packet k extends what the receiver took. */
  lemma TakesOneMore(net: Network, net': Network, first: u32, i: nat, j: nat, k: nat) returns (i': nat)
    requires Genuine(net.sent, first) && Took(net, first, i, j) && k < |net.sent| && (i == j || k == j)
    requires net'.sent == net.sent && net'.receiver == Received(net.receiver, net.sent[k])
    requires net'.delivered == net.delivered + [net.sent[k].payload]
    ensures Took(net', first, i', k + 1) && i' <= k && (i < j ==> i' == i)
  {
    hide ReceiveStatus, Received, Validate, BuildStatus, Wrap;
    GenuineIsAcceptedInOrder(net, first, i, j, k);
    GenuineValidates(net.sent, first, k);
    AcceptedStep(net.receiver, net.sent[k]);
    i' := if i == j then k else i;
    CountGrows(i, j, i', k);
    SliceGrows(net.sent, i', k);
  }

  lemma CountGrows(i: nat, j: nat, i': nat, k: nat)
    requires i <= j && (if i == j then i' == k else i' == i && k == j)
    ensures Wrap(Wrap(j - i) + 1) == Wrap(k + 1 - i')
  {
    WrapAdds(j - i, 1);
  }

  lemma SliceGrows(sent: seq<Packet>, i: nat, k: nat)
    requires i <= k < |sent|
    ensures Payloads(sent[i..k + 1]) == Payloads(sent[i..k]) + [sent[k].payload]
  {
    assert sent[i..k + 1] == sent[i..k] + [sent[k]];
  }

  lemma ArrivalKeepsSound(net: Network, first: u32, packet: Packet)
    requires Sound(net, first) && packet in net.transit
    ensures Sound(Next(net, first, Arrive(packet)), first)
  {
    hide ReceiveStatus, Received, BuildStatus;
    var net' := Next(net, first, Arrive(packet));
    var i: nat, j: nat :| Took(net, first, i, j);
    if ReceiveStatus(net.receiver, packet) == Ok {
      var k := AcceptedIsGenuine(net, first, packet, i, j);
      var i' := TakesOneMore(net, net', first, i, j, k);
    } else {
      RejectedStep(net.receiver, packet);
      assert Took(net', first, i, j);
    }
  }

  lemma EventKeepsSound(net: Network, first: u32, event: Event)
    requires Sound(net, first)
    ensures Sound(Next(net, first, event), first)
  {
    hide Sound, Received, ReceiveStatus, BuildStatus;
    var net' := Next(net, first, event);
    match event
    case SendNext(messageType, payload) =>
      if net' != net {
        SendKeepsSound(net, net', first, Packet(BuiltHeader(messageType, first + |net.sent|, payload), payload));
      }
    case Arrive(packet) =>
      if packet in net.transit {
        ArrivalKeepsSound(net, first, packet);
      }
    case Damage(packet, garbled, k) =>
      if packet in net.transit && k < |net.sent| && DamagedFrom(net.sent[k], garbled) {
        DamageKeepsSound(net, first, packet, garbled, k);
      }
    case Lose(packet) => LossKeepsSound(net, first, packet);
    case Duplicated(packet) =>
      if packet in net.transit {
        DuplicateKeepsSound(net, first, packet);
      }
  }

  lemma SameTook(net: Network, net': Network, first: u32)
    requires Sound(net, first) && net' == net.(transit := net'.transit)
    requires forall packet | packet in net'.transit :: FromSender(packet, net.sent)
    ensures Sound(net', first)
  {
    var i: nat, j: nat :| Took(net, first, i, j);
    assert Took(net', first, i, j);
  }

  lemma LossKeepsSound(net: Network, first: u32, packet: Packet)
    requires Sound(net, first)
    ensures Sound(net.(transit := net.transit - multiset{packet}), first)
  {
    SameTook(net, net.(transit := net.transit - multiset{packet}), first);
  }

  lemma DuplicateKeepsSound(net: Network, first: u32, packet: Packet)
    requires Sound(net, first) && packet in net.transit
    ensures Sound(net.(transit := net.transit + multiset{packet}), first)
  {
    SameTook(net, net.(transit := net.transit + multiset{packet}), first);
  }

  lemma DamageKeepsSound(net: Network, first: u32, packet: Packet, garbled: Packet, k: nat)
    requires Sound(net, first) && k < |net.sent| && DamagedFrom(net.sent[k], garbled)
    ensures Sound(net.(transit := net.transit - multiset{packet} + multiset{garbled}), first)
  {
    hide DamagedFrom;
    assert FromSender(garbled, net.sent);
    SameTook(net, net.(transit := net.transit - multiset{packet} + multiset{garbled}), first);
  }

  lemma {:induction false} RunKeepsSound(net: Network, first: u32, events: seq<Event>)
    requires Sound(net, first)
    ensures Sound(Run(net, first, events), first)
    decreases |events|
  {
    if events == [] {
    } else {
      EventKeepsSound(net, first, events[0]);
      RunKeepsSound(Next(net, first, events[0]), first, events[1..]);
    }
  }

  /** In every reachable state the delivered payloads are a contiguous, in-order slice of the
      sent ones, whatever was lost, repeated, overtaken or damaged on the way. */
  lemma DeliveredIsASlice(first: u32, events: seq<Event>) returns (i: nat, j: nat)
    ensures var net := Run(IDLE, first, events);
      && i <= j <= |net.sent|
      && net.delivered == Payloads(net.sent)[i..j]
      && net.receiver.rxCount == Wrap(|net.delivered|)
  {
    assert Took(IDLE, first, 0, 0);
    RunKeepsSound(IDLE, first, events);
    var net := Run(IDLE, first, events);
    i, j :| Took(net, first, i, j);
    assert Payloads(net.sent[i..j]) == Payloads(net.sent)[i..j];
  }

  /** Redelivering, in order, the packets after the last accepted one always gets them all
      accepted, up to the largest sequence number. */
  lemma {:induction false} RedeliveryCatchesUp(net: Network, first: u32, i: nat, j: nat, k: nat)
    requires Genuine(net.sent, first) && Took(net, first, i, j) && i < j <= k <= |net.sent|
    ensures Accepted(net.receiver, net.sent[j..k]) == net.sent[j..k]
    ensures ReceiveAll(net.receiver, net.sent[j..k]).window == Window(first + k - 1, true)
    decreases k - j
  {
    if j < k {
      var packet := net.sent[j];
      GenuineIsAcceptedInOrder(net, first, i, j, j);
      var net' := net.(receiver := Received(net.receiver, packet), delivered := net.delivered + [packet.payload]);
      var i' := TakesOneMore(net, net', first, i, j, j);
      RedeliveryCatchesUp(net', first, i, j + 1, k);
      assert net.sent[j..k] == [packet] + net.sent[j + 1..k];
      assert net.sent[j..k][1..] == net.sent[j + 1..k];
    }
  }

  /** A genuine packet that only had its number altered. */
  function Renumbered(packet: Packet, sequence: u32): Packet {
    packet.(header := packet.header.(sequence := sequence))
  }

  /** Sparing the number is needed: nothing protects it. Renumbered to the one that is next, any
      packet at all is accepted out of its place. */
  lemma RenumberedIsAccepted(net: Network, first: u32, i: nat, j: nat, k: nat)
    requires Genuine(net.sent, first) && Took(net, first, i, j) && i < j && k < |net.sent| && first + j <= UINT32_MAX
    ensures ReceiveStatus(net.receiver, Renumbered(net.sent[k], first + j)) == Ok
  {
    hide Validate;
    GenuineValidates(net.sent, first, k);
    var header := net.sent[k].header;
    ValidKnowsType(header, net.sent[k].payload);
    ChangedHeaderPassesIff(header, header.(sequence := first + j), net.sent[k].payload);
    AcceptsOnlyTheSuccessor(net.receiver.window, first + j);
  }

  lemma ValidKnowsType(header: Header, payload: seq<u8>)
    requires Validate(header, payload) == Ok
    ensures MessageTypeKnown(header.messageType)
  {
  }

  /** A run that breaks the slice: of three packets the first arrives, and then the third under
      the number of the second. */
  lemma RenumberingBreaksTheSlice(sent: seq<Packet>, first: u32)
    requires Genuine(sent, first) && |sent| == 3
    requires sent[0].payload != sent[1].payload && sent[1].payload != sent[2].payload
    ensures var arrivals := [sent[0], Renumbered(sent[2], first + 1)];
      && Accepted(IDLE.receiver, arrivals) == arrivals
      && Payloads(arrivals) == [sent[0].payload, sent[2].payload]
      && forall i, j | 0 <= i <= j <= 3 :: Payloads(sent)[i..j] != Payloads(arrivals)
  {
    hide Validate, BuildStatus;
    var arrivals := [sent[0], Renumbered(sent[2], first + 1)];
    var net := IDLE.(sent := sent);
    assert Took(net, first, 0, 0);
    GenuineIsAcceptedInOrder(net, first, 0, 0, 0);
    var net' := net.(receiver := Received(net.receiver, sent[0]), delivered := [sent[0].payload]);
    var i' := TakesOneMore(net, net', first, 0, 0, 0);
    RenumberedIsAccepted(net', first, i', 1, 2);
    assert arrivals[1..] == [arrivals[1]] && arrivals[1..][1..] == [];
    assert Accepted(net'.receiver, arrivals[1..]) ==
           [arrivals[1]] + Accepted(Received(net'.receiver, arrivals[1]), arrivals[1..][1..]);
    forall i, j | 0 <= i <= j <= 3
      ensures Payloads(sent)[i..j] != Payloads(arrivals)
    {
      NotASlice(Payloads(sent), Payloads(arrivals), i, j);
    }
  }

  lemma NotASlice(three: seq<seq<u8>>, two: seq<seq<u8>>, i: nat, j: nat)
    requires |three| == 3 && |two| == 2 && two[0] == three[0] && two[1] == three[2]
    requires three[0] != three[1] && three[1] != three[2] && i <= j <= 3
    ensures three[i..j] != two
  {
    if j == i + 2 {
      assert three[i..j][0] == three[i] && three[i..j][1] == three[i + 1];
    }
  }
}
