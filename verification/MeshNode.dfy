/** The entry points of mesh_radio.c over its tables and buffers; Node says what each of them does. */
module MeshNode {
  import opened Bytes
  import opened MeshConfig
  import opened Node
  import opened Snapshot
  import RouteTable
  import Reassembly
  import NeighborTable
  import SenderTable
  import SnapshotBuffer
  import RxRing

  class MeshNode {
    const address: byte
    const key: seq<byte>
    const table: NeighborTable.NeighborTable
    const senders: SenderTable.SenderTable
    const snapshot: SnapshotBuffer.SnapshotBuffer
    const ring: RxRing.RxBuffer
    const received: array<byte>   // static in doRead: it keeps its bytes from one call to the next
    var isNewData: bool

    /** Everything this node's entry points may write. */
    ghost function Repr(): set<object> {
      {this, table.packages, senders.senders, snapshot, snapshot.messages, ring, ring.buffer, received}
    }

    ghost predicate Valid()
      reads Repr()
    {
      && key != []
      && table.Valid() && senders.Valid() && snapshot.Valid() && ring.Valid()
      && received.Length == PACKET_SIZE && received != ring.buffer
    }

    ghost function State(): Node
      requires Valid()
      reads Repr()
    {
      Node(address, key, table.packages[..], senders.senders[..], snapshot.State(), ring.State(), received[..],
           isNewData)
    }

    constructor (setAddress: byte, secretKey: seq<byte>)
      requires secretKey != []
      ensures Valid() && fresh(Repr())
      ensures State() == Boot(setAddress, secretKey)
    {
      address, key, isNewData := setAddress, secretKey, false;
      table := new NeighborTable.NeighborTable();
      senders := new SenderTable.SenderTable();
      snapshot := new SnapshotBuffer.SnapshotBuffer();
      ring := new RxRing.RxBuffer();
      received := new byte[PACKET_SIZE](_ => 0);
      new;
      assert received[..] == Zeros(PACKET_SIZE) && ring.buffer[..] == Zeros(RX_BUFFER_DEPTH);
      assert table.packages[..] == RouteTable.Empty(MAX_SENDERS);
      assert senders.senders[..] == Reassembly.Vacant(MAX_SENDERS);
    }

    method InterruptHandler()
      requires Valid()
      modifies `isNewData
      ensures Valid() && State() == old(State()).(newData := true)
    {
      isNewData := true;
    }

    /** One pass over the table at a timer tick. */
    method LowerWeights()
      requires Valid()
      modifies table.packages, senders.senders
      ensures Valid()
      ensures table.packages[..] == RouteTable.Tick(old(table.packages[..]))
      ensures senders.senders[..] == TickSendersFrom(old(table.packages[..]), old(senders.senders[..]), 0)
    {
      var packages := table.packages;
      ghost var t, ss := packages[..], senders.senders[..];
      var i := 0;
      while i < MAX_SENDERS
        invariant 0 <= i <= MAX_SENDERS && Valid()
        invariant RouteTable.TickFrom(packages[..], i) == RouteTable.TickFrom(t, 0)
        invariant TickSendersFrom(packages[..], senders.senders[..], i) == TickSendersFrom(t, ss, 0)
      {
        ghost var u := packages[..];
        if packages[i].weight > 0 {
          packages[i] := packages[i].(weight := packages[i].weight - 1);
        }
        assert packages[..] == u[i := RouteTable.Decay(u[i])];
        if packages[i].inUse && packages[i].owner == 0 {
          if packages[i].weight == 0 {
            packages[i] := packages[i].(inUse := false);
            senders.DropSender(packages[i].id);
          } else if packages[i].weight > WEIGHT_THRESHOLD {
            packages[i] := packages[i].(trusted := true);
          } else {
            packages[i] := packages[i].(trusted := false);
            table.DropChildren(packages[i].id);
          }
        }
        assert packages[..] == RouteTable.TickSlot(u, i);
        i := i + 1;
      }
    }

    method TimerHandler() returns (ping: Packet)
      requires Valid()
      modifies table.packages, senders.senders, snapshot, snapshot.messages
      ensures Valid()
      ensures (State(), ping) == OnTimer(old(State()))
    {
      LowerWeights();
      ping := snapshot.SendNextPing(table, address);
    }

    /** The third byte of a data packet: who is to take it next, 0 for no route. */
    method FindHop(target: byte) returns (hop: byte)
      requires Valid()
      ensures hop == NextHop(table.packages[..], target)
    {
      hop := 0;
      var slot := table.FindRoute(target);
      if slot < MAX_SENDERS {
        hop := if table.packages[slot].owner == 0 then target else table.packages[slot].owner;
      }
    }

    /** Lays out a data packet in a packet buffer of zeros. */
    static method BuildData(self: byte, hop: byte, target: byte, data: array<byte>, offset: nat, dataSize: nat)
      returns (packet: Packet)
      requires offset + dataSize <= data.Length && dataSize <= MAX_DATA_LENGTH
      ensures packet == DataPacket(self, hop, target, data[offset..offset + dataSize])
    {
      var sendData := new byte[PACKET_SIZE](_ => 0);
      sendData[0], sendData[1], sendData[2], sendData[3] := self, COMMAND_DATA, hop, target;
      var i := 0;
      while i < dataSize
        invariant 0 <= i <= dataSize
        invariant sendData[..i + 4] == [self, COMMAND_DATA, hop, target] + data[offset..offset + i]
      {
        sendData[i + 4] := data[offset + i];
        i := i + 1;
      }
      packet := sendData[..dataSize + 4];
    }

    /** Hands data[offset..offset + dataSize] to the next hop; with encrypt the caller's bytes are encrypted in
        place. */
    method SendRadioData(target: byte, data: array<byte>, offset: nat, dataSize: nat, encrypt: bool)
      returns (packet: Option<Packet>)
      requires Valid() && offset + dataSize <= data.Length
      requires encrypt ==> data !in Repr()
      modifies if encrypt then {data} else {}
      ensures Valid() && State() == old(State())
      ensures packet == SendData(old(State()), target, old(data[offset..offset + dataSize]), encrypt)
      ensures data[..] == if packet.None? then old(data[..])
        else old(data[..offset]) + packet.value[4..] + old(data[offset + dataSize..])
    {
      if dataSize > MAX_DATA_LENGTH {
        return None;
      }
      var hop := FindHop(target);
      if hop == 0 {
        return None;
      }
      if encrypt {
        Encryption(key, data, offset, dataSize);
        assert data[offset..offset + dataSize] == Encrypt(key, old(data[offset..offset + dataSize]));
      }
      var p := BuildData(address, hop, target, data, offset, dataSize);
      assert data[..] == data[..offset] + data[offset..offset + dataSize] + data[offset + dataSize..];
      packet := Some(p);
    }

    /** Acts on a packet from a trusted sender that has just been read into the receive buffer. */
    method DispatchPacket(packetLength: nat) returns (sent: seq<Packet>)
      requires Valid() && 4 <= packetLength <= PACKET_SIZE
      modifies table.packages, senders.senders, ring, ring.buffer
      ensures Valid()
      ensures (State(), sent) == Dispatch(old(State()), packetLength)
    {
      sent := [];
      var command := received[1];
      if command == COMMAND_PING || command == COMMAND_PING_END {
        senders.SaveRemoteNeighborTable(table, address, received[0], received, 3, packetLength - 2, received[2]);
      } else if command == COMMAND_DATA {
        if received[2] == address {
          if received[3] != address {
            var forwarded := SendRadioData(received[3], received, 4, packetLength - 4, false);
            sent := Emitted(forwarded);
          } else {
            ring.SaveReceivedData(received, 4, packetLength - 4);
          }
        }
      }
    }

    method ClearReceived()
      requires Valid()
      modifies received
      ensures Valid() && State() == old(State()).(received := Zeros(PACKET_SIZE))
    {
      forall i | 0 <= i < received.Length {
        received[i] := 0;
      }
      assert received[..] == Zeros(PACKET_SIZE);
    }

    /** Copies a packet over the start of the receive buffer. */
    method NrfRead(packet: Packet)
      requires Valid() && |packet| <= PACKET_SIZE
      modifies received
      ensures Valid() && State() == old(State()).(received := packet + old(received[..])[|packet|..])
    {
      forall i | 0 <= i < |packet| {
        received[i] := packet[i];
      }
      assert received[..] == packet + old(received[..])[|packet|..];
    }

    method DoRead(fifo: Option<Packet>) returns (sent: seq<Packet>)
      requires Valid()
      requires fifo.Some? ==> 4 <= |fifo.value| <= PACKET_SIZE
      modifies Repr()
      ensures Valid()
      ensures (State(), sent) == OnRead(old(State()), fifo)
    {
      sent := [];
      if !isNewData {
        return;
      }
      if fifo.Some? {
        var packet := fifo.value;
        NrfRead(packet);
        table.UpdateWeight(received[0]);
        var trusted := table.CheckTrusted(received[0]);
        if !trusted {
          return;
        }
        sent := DispatchPacket(|packet|);
      }
      ClearReceived();
      isNewData := false;
    }

    method ReadRadioMessage(dataLocation: array<byte>) returns (numberOfBytes: nat)
      requires Valid() && dataLocation.Length >= MAX_DATA_LENGTH && dataLocation !in Repr()
      modifies ring, dataLocation
      ensures Valid()
      ensures State() == old(State()).(ring := old(State()).ring.Read(key).0)
      ensures numberOfBytes <= MAX_DATA_LENGTH
      ensures dataLocation[..numberOfBytes] == old(State()).ring.Read(key).1
    {
      numberOfBytes := ring.ReadRadioMessage(key, dataLocation);
    }
  }
}
