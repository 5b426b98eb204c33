/** Reassembly of neighbour tables, one slot a sender, as a value. */
module Reassembly {
  import opened Bytes
  import opened MeshConfig
  import opened RouteTable
  import opened Snapshot

  /** One slot: occupancy, the mapped address, the header of the messages accepted, and the bytes so far. */
  datatype Sender = Sender(occupied: bool, address: byte, number: byte, total: byte, data: seq<byte>) {
    predicate Holds(a: byte) {
      occupied && address == a
    }

    function Reset(): Sender {
      this.(number := 0, total := 0, data := [])
    }
  }

  type Senders = seq<Sender>

  function Vacant(n: nat): (r: Senders)
    ensures |r| == n && forall k :: 0 <= k < n ==> r[k] == Sender(false, 0, 0, 0, [])
  {
    seq(n, _ => Sender(false, 0, 0, 0, []))
  }

  function FindSender(ss: Senders, a: byte): (r: nat)
    ensures r <= |ss|
    ensures forall i :: 0 <= i < r ==> !ss[i].Holds(a)
    ensures r < |ss| ==> ss[r].Holds(a)
  {
    if ss == [] || ss[0].Holds(a) then 0 else 1 + FindSender(ss[1..], a)
  }

  function FirstVacant(ss: Senders): (r: nat)
    ensures r <= |ss|
    ensures forall i :: 0 <= i < r ==> ss[i].occupied
    ensures r < |ss| ==> !ss[r].occupied
  {
    if ss == [] || !ss[0].occupied then 0 else 1 + FirstVacant(ss[1..])
  }

  function DropSender(ss: Senders, a: byte): (r: Senders)
    ensures |r| == |ss|
  {
    var k := FindSender(ss, a);
    if k < |ss| then ss[k := ss[k].Reset().(occupied := false)] else ss
  }

  /** The slot of address a, claiming a vacant one when a has none; |ss| when all are taken. */
  function Claim(ss: Senders, a: byte): (r: (Senders, nat))
    ensures |r.0| == |ss| && r.1 <= |ss|
    ensures r.1 < |ss| ==> r.0[r.1].Holds(a)
  {
    var k := FindSender(ss, a);
    if k < |ss| then (ss, k)
    else
      var v := FirstVacant(ss);
      if v < |ss| then (ss[v := Sender(true, a, 0, 0, [])], v) else (ss, |ss|)
  }

  /** The header of a message is taken over while none has been accepted yet. */
  function Headed(s: Sender, index: byte): Sender {
    if s.number == 0 then s.(number := index / 16, total := index % 16) else s
  }

  predicate Matches(s: Sender, index: byte) {
    s.number == index / 16 && s.total == index % 16
  }

  /** Appends len bytes of neighbour data until the slot is full. */
  function Append(s: Sender, neighborData: seq<byte>, len: nat): Sender
    requires |s.data| <= MAX_DATA_LENGTH && Min(len, MAX_DATA_LENGTH - |s.data|) <= |neighborData|
  {
    s.(data := s.data + neighborData[..Min(len, MAX_DATA_LENGTH - |s.data|)])
  }

  /** Between calls no slot is full. */
  predicate Open(ss: Senders) {
    forall k :: 0 <= k < |ss| ==> |ss[k].data| < MAX_DATA_LENGTH
  }

  /** A fragment from a arrives; a full slot is merged into the table and reset. */
  function Save(t: Table, ss: Senders, self: byte, a: byte, neighborData: seq<byte>, len: nat,
      index: byte): (r: (Table, Senders))
    requires Open(ss) && |neighborData| >= MAX_DATA_LENGTH
    ensures |r.0| == |t| && |r.1| == |ss|
  {
    var (claimed, k) := Claim(ss, a);
    if k == |ss| then (t, ss)
    else
      var s := Headed(claimed[k], index);
      if !Matches(s, index) then (t, claimed[k := s])
      else
        var full := Append(s, neighborData, len);
        if |full.data| >= MAX_DATA_LENGTH then (ProcessData(t, self, full.data, a), claimed[k := full.Reset()])
        else (t, claimed[k := full])
  }

  // ----- What a fragment does, field by field -----

  /** Slot k is the first that a holds, or when a holds none the first that is vacant. */
  predicate SlotOf(ss: Senders, a: byte, k: nat) {
    && k < |ss|
    && (forall i :: 0 <= i < k ==> !(ss[i].occupied && ss[i].address == a))
    && ((ss[k].occupied && ss[k].address == a)
        || (!ss[k].occupied && (forall i :: 0 <= i < |ss| ==> !(ss[i].occupied && ss[i].address == a))
            && forall i :: 0 <= i < k ==> ss[i].occupied))
  }

  /** A slot that is just being claimed starts empty. */
  function Opened(s: Sender, a: byte): Sender {
    if s.occupied then s else Sender(true, a, 0, 0, [])
  }

  lemma ClaimIs(ss: Senders, a: byte, k: nat)
    requires SlotOf(ss, a, k)
    ensures Claim(ss, a) == (ss[k := Opened(ss[k], a)], k)
  {
    var f, v := FindSender(ss, a), FirstVacant(ss);
    assert f < |ss| ==> ss[f].Holds(a);
    if ss[k].occupied {
      assert f == k && ss[k := ss[k]] == ss;
    } else {
      assert f == |ss| && v == k;
    }
  }

  /** A fragment whose number or total is not that of the messages accepted so far is ignored. */
  lemma SaveIgnores(t: Table, ss: Senders, self: byte, a: byte, nd: seq<byte>, len: nat, index: byte, k: nat)
    requires Open(ss) && |nd| >= 28 && SlotOf(ss, a, k) && ss[k].occupied && ss[k].number != 0
    requires index / 16 != ss[k].number || index % 16 != ss[k].total
    ensures Save(t, ss, self, a, nd, len, index) == (t, ss)
  {
    ClaimIs(ss, a, k);
    assert ss[k := ss[k]] == ss;
  }

  /** Any other fragment is taken: a slot without a number gets the fragment's, the bytes that still fit go behind
      those there are, and a slot that is full then is merged and starts anew. No other slot changes. */
  lemma SaveTakes(t: Table, ss: Senders, self: byte, a: byte, nd: seq<byte>, len: nat, index: byte, k: nat)
    requires Open(ss) && |nd| >= 28 && SlotOf(ss, a, k)
    requires ss[k].occupied && ss[k].number != 0 ==> index / 16 == ss[k].number && index % 16 == ss[k].total
    ensures var had := if ss[k].occupied then ss[k].data else [];
      var data := had + nd[..if len < 28 - |had| then len else 28 - |had|];
      Save(t, ss, self, a, nd, len, index) ==
        if |data| < 28 then (t, ss[k := Sender(true, a, index / 16, index % 16, data)])
        else (ProcessData(t, self, data, a), ss[k := Sender(true, a, 0, 0, [])])
  {
    ClaimIs(ss, a, k);
    var s := Opened(ss[k], a);
    var headed := Headed(s, index);
    assert headed == Sender(true, a, index / 16, index % 16, s.data) && Matches(headed, index);
    var full := Append(headed, nd, len);
    assert ss[k := s][k := full] == ss[k := full] && ss[k := s][k := full.Reset()] == ss[k := full.Reset()];
  }

  /** When nobody can be thrown out, a sender without a slot is ignored. */
  lemma SaveNoSlot(t: Table, ss: Senders, self: byte, a: byte, nd: seq<byte>, len: nat, index: byte)
    requires Open(ss) && |nd| >= 28
    requires forall i :: 0 <= i < |ss| ==> ss[i].occupied && ss[i].address != a
    ensures Save(t, ss, self, a, nd, len, index) == (t, ss)
  {
    assert FindSender(ss, a) == |ss| == FirstVacant(ss);
  }

  /** No address holds two slots. */
  predicate OneEach(ss: Senders) {
    forall i, j :: 0 <= i < j < |ss| && ss[i].occupied && ss[j].occupied ==> ss[i].address != ss[j].address
  }

  lemma SaveOneEach(t: Table, ss: Senders, self: byte, a: byte, nd: seq<byte>, len: nat, index: byte)
    requires Open(ss) && |nd| >= 28 && OneEach(ss)
    ensures OneEach(Save(t, ss, self, a, nd, len, index).1)
  {
    var (claimed, k) := Claim(ss, a);
    assert OneEach(claimed);
  }

  /** Dropping a sender frees and resets its slot, and no other. */
  lemma DropSenderExact(ss: Senders, a: byte, k: nat)
    requires OneEach(ss) && k < |ss|
    ensures DropSender(ss, a)[k] ==
      if ss[k].occupied && ss[k].address == a then Sender(false, a, 0, 0, []) else ss[k]
  {
    var f := FindSender(ss, a);
    assert f < |ss| ==> ss[f].Holds(a);
  }

  // ----- What a slot carries -----

  /** The bytes start with the whole message m, closed by a zero id unless m fills the slot. */
  predicate Starts(data: seq<byte>, m: seq<byte>) {
    && |m| <= |data|
    && data[..|m|] == m
    && (|m| < |data| ==> data[|m|] == 0)
    && (|m| < MAX_DATA_LENGTH ==> |m| < |data|)
  }

  /** Merging a full slot has the effect of merging the message it starts with, whatever follows. */
  lemma {:induction false} MergeStarts(t: Table, self: byte, data: seq<byte>, m: seq<byte>, owner: byte, i: nat)
    requires Starts(data, m) && |data| % 2 == 0 && |m| % 2 == 0 && i % 2 == 0 && i <= |m|
    ensures Merge(t, self, data, owner, i) == Merge(t, self, m, owner, i)
    decreases |m| - i
  {
    if i < |m| {
      assert data[i] == m[i] && data[i + 1] == m[i + 1];
      MergeStarts(t, self, data, m, owner, i + 2);
    }
  }

  /** The bytes that follow a ping's header, as the receiver reads them, one past the packet included. */
  predicate Reads(neighborData: seq<byte>, m: seq<byte>) {
    && IsMessage(m)
    && MAX_DATA_LENGTH < |neighborData|
    && neighborData[..|m|] == m
    && neighborData[|m|] == 0
  }

  /** The state of a slot between calls: nothing yet, or a partly filled slot that starts with message m. */
  predicate Carries(s: Sender, m: seq<byte>) {
    IsMessage(m) && Starts(s.data, m) && |s.data| % 2 == 0 && |s.data| < MAX_DATA_LENGTH
  }

  /** A ping's fragment is appended with its closing zero and one stray byte: the slot starts with the first
      one accepted. */
  lemma AppendStarts(s: Sender, neighborData: seq<byte>, m: seq<byte>, first: seq<byte>)
    requires Reads(neighborData, m) && |s.data| < MAX_DATA_LENGTH && |s.data| % 2 == 0
    requires if s.data == [] then first == m else Carries(s, first)
    ensures var full := Append(s, neighborData, |m| + 2);
      Starts(full.data, first) && |full.data| % 2 == 0 && |full.data| <= MAX_DATA_LENGTH
  {
    var n := Min(|m| + 2, MAX_DATA_LENGTH - |s.data|);
    assert n % 2 == 0;
    if s.data == [] {
      StartsFresh(neighborData, m, n);
      assert Append(s, neighborData, |m| + 2).data == neighborData[..n];
    } else {
      StartsLonger(s.data, first, neighborData[..n]);
    }
  }

  lemma StartsFresh(neighborData: seq<byte>, m: seq<byte>, n: nat)
    requires Reads(neighborData, m) && n == Min(|m| + 2, MAX_DATA_LENGTH)
    ensures Starts(neighborData[..n], m)
  {
    assert neighborData[..n][..|m|] == neighborData[..|m|];
  }

  lemma StartsLonger(data: seq<byte>, m: seq<byte>, more: seq<byte>)
    requires Starts(data, m) && |data| < MAX_DATA_LENGTH
    ensures Starts(data + more, m)
  {
    assert (data + more)[..|m|] == data[..|m|];
  }

  /**
   * The ping round trip, slot by slot. When a ping with message m arrives from a, the slot of a either keeps
   * what it has, or afterwards carries the first message accepted since its last reset; and when it completes,
   * the table changes exactly as if that first message alone had been merged.
   */
  lemma SavePing(t: Table, ss: Senders, self: byte, a: byte, neighborData: seq<byte>, index: byte, m: seq<byte>,
      first: seq<byte>)
    requires Open(ss) && Reads(neighborData, m)
    requires var (claimed, k) := Claim(ss, a);
      k < |ss| ==> if claimed[k].data == [] then first == m else Carries(claimed[k], first)
    ensures var (claimed, k) := Claim(ss, a);
      var (t', ss') := Save(t, ss, self, a, neighborData, |m| + 2, index);
      if k == |ss| then t' == t && ss' == ss
      else
        && (forall j :: 0 <= j < |ss| && j != k ==> ss'[j] == claimed[j])
        && ss'[k].Holds(a)
        && ((t' == t && (Carries(ss'[k], first) || ss'[k].data == claimed[k].data == []))
            || (t' == ProcessData(t, self, first, a) && ss'[k].data == []))
  {
    var (claimed, k) := Claim(ss, a);
    if k < |ss| {
      var s := Headed(claimed[k], index);
      if Matches(s, index) {
        AppendStarts(s, neighborData, m, first);
        var full := Append(s, neighborData, |m| + 2);
        if |full.data| >= MAX_DATA_LENGTH {
          MergeStarts(DropChildren(t, a), self, full.data, first, a, 0);
        }
      }
    }
  }

  /** A slot that has been reset accepts the next fragment, whatever its header says. */
  lemma ResetAccepts(t: Table, ss: Senders, self: byte, a: byte, neighborData: seq<byte>, index: byte, m: seq<byte>)
    requires Open(ss) && Reads(neighborData, m)
    requires var (claimed, k) := Claim(ss, a); k < |ss| && claimed[k].number == 0 && claimed[k].data == []
    ensures var k := Claim(ss, a).1;
      var (t', ss') := Save(t, ss, self, a, neighborData, |m| + 2, index);
      if |m| + 2 < MAX_DATA_LENGTH then t' == t && Carries(ss'[k], m)
      else t' == ProcessData(t, self, m, a) && ss'[k].data == []
  {
    var (claimed, k) := Claim(ss, a);
    var s := Headed(claimed[k], index);
    AppendStarts(s, neighborData, m, m);
    var full := Append(s, neighborData, |m| + 2);
    if |full.data| >= MAX_DATA_LENGTH {
      MergeStarts(DropChildren(t, a), self, full.data, m, a, 0);
    }
  }

  lemma SaveOpen(t: Table, ss: Senders, self: byte, a: byte, neighborData: seq<byte>, len: nat, index: byte)
    requires Open(ss) && |neighborData| >= MAX_DATA_LENGTH
    ensures Open(Save(t, ss, self, a, neighborData, len, index).1)
  {
  }

  lemma SaveInv(t: Table, ss: Senders, self: byte, a: byte, neighborData: seq<byte>, len: nat, index: byte)
    requires Open(ss) && |neighborData| >= MAX_DATA_LENGTH
    requires Inv(t, self) && TrustedNeighbour(t, a) && a != 0
    ensures Inv(Save(t, ss, self, a, neighborData, len, index).0, self)
  {
    var (claimed, k) := Claim(ss, a);
    if k < |ss| {
      var s := Headed(claimed[k], index);
      if Matches(s, index) && |Append(s, neighborData, len).data| >= MAX_DATA_LENGTH {
        ProcessDataInv(t, self, Append(s, neighborData, len).data, a);
      }
    }
  }
}
