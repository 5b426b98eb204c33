/** The snapshot of mesh_radio.c, filled in place; Snapshot says what it holds and sends. */
module SnapshotBuffer {
  import opened Bytes
  import opened MeshConfig
  import opened Snapshot
  import RouteTable
  import NeighborTable

  /** Stored messages, the begun one and the pairs to come make up the whole snapshot. */
  ghost predicate Progress(stored: seq<seq<byte>>, begun: seq<byte>, rest: seq<byte>, all: seq<byte>) {
    stored + Chunks(begun + rest) == Chunks(all)
  }

  lemma ProgressPair(stored: seq<seq<byte>>, begun: seq<byte>, id: byte, hops: byte, rest: seq<byte>, all: seq<byte>)
    requires Progress(stored, begun, [id, hops] + rest, all)
    ensures Progress(stored, begun + [id, hops], rest, all)
  {
    assert begun + ([id, hops] + rest) == begun + [id, hops] + rest;
  }

  lemma ProgressStore(stored: seq<seq<byte>>, full: seq<byte>, rest: seq<byte>, all: seq<byte>)
    requires Progress(stored, full, rest, all)
    requires |full| == MAX_DATA_LENGTH || (0 < |full| < MAX_DATA_LENGTH && rest == [])
    ensures Progress(stored + [full], [], rest, all)
  {
    assert [] + rest == rest;
    if rest == [] {
      assert full + rest == full;
    } else {
      assert (full + rest)[..MAX_DATA_LENGTH] == full && (full + rest)[MAX_DATA_LENGTH..] == rest;
    }
    assert stored + [full] + Chunks(rest) == stored + ([full] + Chunks(rest));
  }

  class SnapshotBuffer {
    const messages: array<seq<byte>>
    var totalMessages: nat
    var currentMessage: nat

    ghost predicate Valid()
      reads this, messages
    {
      && messages.Length == MAX_SENDERS && totalMessages <= MAX_SENDERS
      && forall k :: 0 <= k < totalMessages ==> |messages[k]| <= MAX_DATA_LENGTH
    }

    ghost function State(): Snapshot
      requires Valid()
      reads this, messages
    {
      Snapshot(messages[..totalMessages], currentMessage)
    }

    constructor ()
      ensures Valid() && fresh(messages)
      ensures State() == Snapshot([], 0)
    {
      messages := new seq<byte>[MAX_SENDERS](_ => []);
      totalMessages, currentMessage := 0, 0;
    }

    method Store(message: seq<byte>)
      requires Valid() && totalMessages < MAX_SENDERS && |message| <= MAX_DATA_LENGTH
      modifies messages, `totalMessages
      ensures Valid() && totalMessages == old(totalMessages) + 1
      ensures messages[..totalMessages] == old(messages[..totalMessages]) + [message]
    {
      messages[totalMessages] := message;
      totalMessages := totalMessages + 1;
    }

    /** Adds one pair to the begun message and stores the message once it is full. */
    method AddPair(buffer: array<byte>, bufferIndex: nat, id: byte, hops: byte, ghost rest: seq<byte>,
        ghost all: seq<byte>)
      returns (newIndex: nat)
      requires Valid() && totalMessages < MAX_SENDERS
      requires buffer.Length == MAX_DATA_LENGTH && bufferIndex < MAX_DATA_LENGTH && bufferIndex % 2 == 0
      requires Progress(messages[..totalMessages], buffer[..bufferIndex], [id, hops] + rest, all)
      modifies buffer, messages, `totalMessages
      ensures Valid() && newIndex < MAX_DATA_LENGTH && newIndex % 2 == 0
      ensures 28 * totalMessages + newIndex == 28 * old(totalMessages) + bufferIndex + 2
      ensures Progress(messages[..totalMessages], buffer[..newIndex], rest, all)
    {
      ghost var begun := buffer[..bufferIndex];
      ProgressPair(messages[..totalMessages], begun, id, hops, rest, all);
      buffer[bufferIndex] := id;
      buffer[bufferIndex + 1] := hops;
      newIndex := bufferIndex + 2;
      assert buffer[..newIndex] == begun + [id, hops];
      if newIndex >= MAX_DATA_LENGTH {
        ProgressStore(messages[..totalMessages], buffer[..newIndex], rest, all);
        Store(buffer[..newIndex]);
        newIndex := 0;
      }
    }

    method CreateSnapshot(table: NeighborTable.NeighborTable)
      requires Valid() && table.Valid()
      modifies this, messages
      ensures Valid()
      ensures State() == Snapshot(Chunks(Pairs(table.packages[..])), 0)
    {
      ghost var t := table.packages[..];
      totalMessages, currentMessage := 0, 0;
      var buffer := new byte[MAX_DATA_LENGTH](_ => 0);
      var bufferIndex: nat := 0;
      var i := 0;
      assert t[0..] == t && buffer[..0] + Pairs(t) == Pairs(t) && messages[..0] + Chunks(Pairs(t)) == Chunks(Pairs(t));
      while i < MAX_SENDERS
        invariant 0 <= i <= MAX_SENDERS && Valid() && currentMessage == 0
        invariant bufferIndex < MAX_DATA_LENGTH && bufferIndex % 2 == 0 && 28 * totalMessages + bufferIndex <= 2 * i
        invariant table.packages[..] == t
        invariant Progress(messages[..totalMessages], buffer[..bufferIndex], Pairs(t[i..]), Pairs(t))
      {
        PairsStep(t, i);
        if table.packages[i].inUse && table.packages[i].trusted {
          bufferIndex := AddPair(buffer, bufferIndex, table.packages[i].id, table.packages[i].hops,
                                 Pairs(t[i + 1..]), Pairs(t));
        } else {
          assert [] + Pairs(t[i + 1..]) == Pairs(t[i + 1..]);
        }
        i := i + 1;
      }
      assert t[i..] == [] && buffer[..0] == [];
      if bufferIndex > 0 {
        ProgressStore(messages[..totalMessages], buffer[..bufferIndex], [], Pairs(t));
        Store(buffer[..bufferIndex]);
      }
      assert Progress(messages[..totalMessages], [], [], Pairs(t));
      assert messages[..totalMessages] + [] == messages[..totalMessages];
    }

    /** Lays out a ping in a packet buffer of zeros. */
    static method BuildPing(self: byte, command: byte, indexByte: byte, message: seq<byte>) returns (packet: Packet)
      requires |message| <= MAX_DATA_LENGTH
      ensures packet == PingPacket(self, command, indexByte, message)
    {
      var sendData := new byte[PACKET_SIZE](_ => 0);
      sendData[0] := self;
      sendData[1] := command;
      sendData[2] := indexByte;
      var i := 0;
      while i < |message|
        invariant 0 <= i <= |message|
        invariant sendData[..i + 3] == [self, command, indexByte] + message[..i]
        invariant forall j :: i + 3 <= j < PACKET_SIZE ==> sendData[j] == 0
      {
        sendData[i + 3] := message[i];
        i := i + 1;
      }
      packet := sendData[..|message| + 4];
      assert message[..|message|] == message;
    }

    /** Builds the packet that sendNextPing hands to the radio. */
    method SendNextPing(table: NeighborTable.NeighborTable, self: byte) returns (packet: Packet)
      requires Valid() && table.Valid()
      modifies this, messages
      ensures Valid()
      ensures (State(), packet) == NextPing(old(State()), table.packages[..], self)
    {
      if currentMessage >= totalMessages {
        CreateSnapshot(table);
      }
      assert State() == Renewed(old(State()), table.packages[..]);
      ghost var r := State();
      if totalMessages > 0 {
        assert r.messages[r.current] == messages[currentMessage];
        var indexByte := currentMessage * 16 % 256 + totalMessages % 16;
        var command := if currentMessage + 1 == totalMessages then COMMAND_PING_END else COMMAND_PING;
        packet := BuildPing(self, command, indexByte, messages[currentMessage]);
        currentMessage := currentMessage + 1;
      } else {
        packet := BuildPing(self, COMMAND_PING_END, 0x01, []);
      }
    }
  }
}
