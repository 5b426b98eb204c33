/** The reassembly slots of mesh_radio.c, updated in place; Reassembly says what each routine does to them. */
module SenderTable {
  import opened Bytes
  import opened MeshConfig
  import opened Reassembly
  import NeighborTable

  class SenderTable {
    const senders: array<Sender>

    ghost predicate Valid()
      reads senders
    {
      senders.Length == MAX_SENDERS && Open(senders[..])
    }

    constructor ()
      ensures Valid() && fresh(senders)
      ensures senders[..] == Vacant(MAX_SENDERS)
    {
      senders := new Sender[MAX_SENDERS](_ => Sender(false, 0, 0, 0, []));
    }

    method DropSender(dropAddress: byte)
      requires Valid()
      modifies senders
      ensures Valid()
      ensures senders[..] == Reassembly.DropSender(old(senders[..]), dropAddress)
    {
      ghost var ss := senders[..];
      var i := 0;
      while i < MAX_SENDERS
        invariant 0 <= i <= MAX_SENDERS
        invariant senders[..] == ss
        invariant forall j :: 0 <= j < i ==> !ss[j].Holds(dropAddress)
      {
        if senders[i].occupied && senders[i].address == dropAddress {
          senders[i] := senders[i].Reset();
          senders[i] := senders[i].(occupied := false);
          assert i == FindSender(ss, dropAddress);
          return;
        }
        i := i + 1;
      }
    }

    /** Finds the slot of address a, or claims a vacant one; -1 when there is none. */
    method FindSlot(a: byte) returns (senderIndex: int)
      requires Valid()
      modifies senders
      ensures Valid()
      ensures senders[..] == Claim(old(senders[..]), a).0
      ensures -1 <= senderIndex < MAX_SENDERS
      ensures Claim(old(senders[..]), a).1 == if senderIndex == -1 then MAX_SENDERS else senderIndex
    {
      ghost var ss := senders[..];
      var i := 0;
      while i < MAX_SENDERS
        invariant 0 <= i <= MAX_SENDERS
        invariant senders[..] == ss
        invariant forall j :: 0 <= j < i ==> !ss[j].Holds(a)
      {
        if senders[i].occupied && senders[i].address == a {
          assert i == FindSender(ss, a);
          return i;
        }
        i := i + 1;
      }
      assert FindSender(ss, a) == |ss|;
      i := 0;
      while i < MAX_SENDERS
        invariant 0 <= i <= MAX_SENDERS
        invariant senders[..] == ss
        invariant forall j :: 0 <= j < i ==> ss[j].occupied
      {
        if !senders[i].occupied {
          senders[i] := senders[i].(address := a, occupied := true);
          senders[i] := senders[i].Reset();
          assert i == FirstVacant(ss);
          return i;
        }
        i := i + 1;
      }
      return -1;
    }

    /** Appends the fragment's bytes to slot k while it has room. */
    method AppendFragment(k: nat, packet: array<byte>, offset: nat, dataLength: nat)
      requires Valid() && k < MAX_SENDERS && offset + MAX_DATA_LENGTH <= packet.Length
      modifies senders
      ensures senders[..] == old(senders[..])[k := Append(old(senders[k]), packet[offset..], dataLength)]
    {
      ghost var ss, s, nd := senders[..], senders[k], packet[offset..];
      assert Append(s, nd, 0) == s;
      var i := 0;
      while i < dataLength
        invariant 0 <= i <= dataLength
        invariant |s.data| + Min(i, MAX_DATA_LENGTH - |s.data|) <= MAX_DATA_LENGTH
        invariant senders[..] == ss[k := Append(s, nd, i)]
      {
        if |senders[k].data| < MAX_DATA_LENGTH {
          assert i < MAX_DATA_LENGTH;   // so the last byte ever read is packet[offset + 27]
          senders[k] := senders[k].(data := senders[k].data + [packet[offset + i]]);
          assert s.data + nd[..i] + [nd[i]] == s.data + nd[..i + 1];
        }
        i := i + 1;
      }
    }

    /** Takes over a fragment of dataLength bytes that starts at packet[offset]. */
    method SaveRemoteNeighborTable(table: NeighborTable.NeighborTable, self: byte, a: byte,
                                   packet: array<byte>, offset: nat, dataLength: nat, packageIndex: byte)
      requires Valid() && table.Valid() && offset + MAX_DATA_LENGTH <= packet.Length
      modifies senders, table.packages
      ensures Valid()
      ensures (table.packages[..], senders[..]) ==
        Save(old(table.packages[..]), old(senders[..]), self, a, packet[offset..], dataLength, packageIndex)
    {
      var k := FindSlot(a);
      if k == -1 {
        return;
      }
      ghost var claimed := senders[..];
      var currentMessageNumber, totalMessageCount := packageIndex / 16, packageIndex % 16;
      if senders[k].number == 0 {
        senders[k] := senders[k].(number := currentMessageNumber, total := totalMessageCount);
      }
      ghost var s := senders[k];
      assert senders[..] == claimed[k := Headed(claimed[k], packageIndex)];
      if currentMessageNumber != senders[k].number || totalMessageCount != senders[k].total {
        return;
      }
      AppendFragment(k, packet, offset, dataLength);
      if |senders[k].data| >= MAX_DATA_LENGTH {
        ghost var full := senders[k];
        table.ProcessData(senders[k].data, a, self);
        senders[k] := senders[k].Reset();
        assert senders[..] == claimed[k := full.Reset()];
      } else {
        assert senders[..] == claimed[k := senders[k]];
      }
    }
  }
}
