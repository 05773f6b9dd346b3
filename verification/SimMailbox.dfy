/** Simulated nodes and mailbox endpoints: the send and receive steps of the transport
    (src/sim/sim_mailbox.c, src/sim/sim_node.c). */
module SimMailbox {
  import opened Bytes
  import opened Mailbox

  /** A packet as the receiver sees it. */
  datatype Packet = Packet(header: Header, payload: seq<u8>)

  /** The receiving side of an endpoint. */
  datatype Receiver = Receiver(window: Window, rxCount: u32)

  /** n as an unsigned 32-bit counter holds it. */
  function Wrap(n: nat): u32 {
    n % 0x1_0000_0000
  }

  function Increment(count: u32): u32 {
    Wrap(count + 1)
  }

  function ReceiveStatus(r: Receiver, packet: Packet): Status {
    var status := Validate(packet.header, packet.payload);
    if status != Ok then status else AcceptStatus(r.window, packet.header.sequence)
  }

  /** One receive step. */
  function Received(r: Receiver, packet: Packet): Receiver {
    if ReceiveStatus(r, packet) != Ok then r
    else Receiver(Accept(r.window, packet.header.sequence), Increment(r.rxCount))
  }

  class Node {
    const nodeId: u32
    const name: string
    var txCount: u32
    var rxCount: u32

    constructor (nodeId: u32, name: string)
      ensures this.nodeId == nodeId && this.name == name && txCount == 0 && rxCount == 0
    {
      this.nodeId := nodeId;
      this.name := name;
      txCount := 0;
      rxCount := 0;
    }

    method RecordTx()
      modifies this`txCount
      ensures txCount == Increment(old(txCount))
    {
      txCount := (txCount + 1) % 0x1_0000_0000;
    }

    method RecordRx()
      modifies this`rxCount
      ensures rxCount == Increment(old(rxCount))
    {
      rxCount := (rxCount + 1) % 0x1_0000_0000;
    }
  }

  class PacketCell {
    const header: HeaderCell
    var payload: seq<u8>

    constructor (initial: Header)
      ensures fresh(header) && header.Value() == initial && payload == []
    {
      header := new HeaderCell(initial);
      payload := [];
    }

    function Value(): Packet
      reads this, header
    {
      Packet(header.Value(), payload)
    }
  }

  /** A failed send leaves the packet and the counter as they were. */
  method Send(source: Node, packet: PacketCell, messageType: u16, sequence: u32, payload: seq<u8>)
    returns (status: Status)
    requires |payload| < 0x1_0000
    modifies source`txCount, packet`payload, packet.header
    ensures status == BuildStatus(messageType, payload)
    ensures packet.Value() == if status == Ok then Packet(BuiltHeader(messageType, sequence, payload), payload)
                              else old(packet.Value())
    ensures source.txCount == if status == Ok then Increment(old(source.txCount)) else old(source.txCount)
  {
    status := packet.header.Build(messageType, sequence, payload);
    if status != Ok {
      return;
    }
    packet.payload := payload;
    source.RecordTx();
  }

  class Endpoint {
    const node: Node
    const rxWindow: SequenceWindow

    constructor (node: Node)
      ensures this.node == node && fresh(rxWindow)
      ensures Value() == Receiver(Window(0, false), node.rxCount)
    {
      this.node := node;
      rxWindow := new SequenceWindow();
    }

    function Value(): Receiver
      reads this, node, rxWindow
    {
      Receiver(rxWindow.Value(), node.rxCount)
    }

    method Receive(packet: PacketCell) returns (status: Status)
      modifies rxWindow, node`rxCount
      ensures status == ReceiveStatus(old(Value()), packet.Value())
      ensures Value() == Received(old(Value()), packet.Value())
      ensures packet.Value() == old(packet.Value())
    {
      status := packet.header.ValidateHeader(packet.payload);
      if status != Ok {
        return;
      }
      status := rxWindow.SequenceAccept(packet.header.sequence);
      if status != Ok {
        return;
      }
      node.RecordRx();
    }
  }
}
