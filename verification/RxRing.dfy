/** The circular receive buffer, and the bounded queue of bytes it stands for. */
module RxRing {
  import opened Bytes
  import opened MeshConfig

  const CR: byte := 0x0D

  datatype Ring = Ring(buffer: seq<byte>, write: nat, read: nat) {
    ghost predicate Valid() {
      |buffer| > 0 && write < |buffer| && read < |buffer|
    }

    /** The unread bytes, oldest first. */
    function Queue(): (r: seq<byte>)
      requires Valid()
    {
      if write >= read then buffer[read..write] else buffer[read..] + buffer[..write]
    }

    /** One slot always stays empty. */
    function Free(): (n: nat)
      requires Valid()
      ensures n == |buffer| - 1 - |Queue()|
    {
      |buffer| - 1 - |Queue()|
    }

    function Next(slot: nat): (r: nat)
      requires slot < |buffer|
      ensures r < |buffer|
    {
      if slot + 1 >= |buffer| then 0 else slot + 1
    }

    /** Stores one byte; the write position moves only while that leaves the ring short of full. */
    function Put(b: byte): (r: Ring)
      requires Valid()
      ensures r.Valid() && |r.buffer| == |buffer| && r.read == read
    {
      Ring(buffer[write := b], if Next(write) != read then Next(write) else write, read)
    }

    function PutAll(bytes: seq<byte>): (r: Ring)
      requires Valid()
      ensures r.Valid() && |r.buffer| == |buffer| && r.read == read
      decreases |bytes|
    {
      if bytes == [] then this else Put(bytes[0]).PutAll(bytes[1..])
    }

    /** A message goes in followed by a carriage return. */
    function Save(data: seq<byte>): (r: Ring)
      requires Valid()
      ensures r.Valid() && |r.buffer| == |buffer| && r.read == read
    {
      PutAll(data + [CR])
    }

    function CanRead(): nat
      requires Valid()
    {
      if write >= read then write - read else write - read + |buffer|
    }

    /** Takes at most limit more bytes after those taken already, up to and including the first carriage return. */
    function Take(limit: nat, taken: seq<byte>): (r: (Ring, seq<byte>))
      requires Valid()
      ensures r.0.Valid() && r.0.buffer == buffer && r.0.write == write && |r.1| <= |taken| + limit
      decreases limit
    {
      if limit == 0 || CanRead() == 0 then (this, taken)
      else if buffer[read] == CR then (this.(read := Next(read)), taken)
      else this.(read := Next(read)).Take(limit - 1, taken + [buffer[read]])
    }

    function Read(key: seq<byte>): (r: (Ring, seq<byte>))
      requires Valid() && key != []
      ensures r.0.Valid() && |r.0.buffer| == |buffer|
    {
      var message := Take(MAX_DATA_LENGTH, []);
      (message.0, Encrypt(key, message.1))
    }

    // ----- Refinement of a bounded queue -----

    /** canReadRadio is the exact occupancy, which never reaches the depth. */
    lemma CanReadIsOccupancy()
      requires Valid()
      ensures CanRead() == |Queue()| < |buffer|
    {
    }

    lemma PutQueue(b: byte)
      requires Valid()
      ensures Put(b).Queue() == if Free() > 0 then Queue() + [b] else Queue()
    {
      var r := Put(b);
      if Free() == 0 {
        assert Next(write) == read;
        assert r.Queue() == Queue();
      } else {
        assert Next(write) != read;
        assert r.Queue() == Queue() + [b];
      }
    }

    /** Bytes are appended up to the free space; what no longer fits is lost and no unread byte changes. */
    lemma {:induction false} PutAllQueue(bytes: seq<byte>)
      requires Valid()
      ensures PutAll(bytes).Queue() == Queue() + bytes[..Min(|bytes|, Free())]
      decreases |bytes|
    {
      if bytes != [] {
        PutQueue(bytes[0]);
        Put(bytes[0]).PutAllQueue(bytes[1..]);
        if Free() > 0 {
          assert bytes[..Min(|bytes|, Free())] == [bytes[0]] + bytes[1..][..Min(|bytes| - 1, Free() - 1)];
        }
      }
    }

    lemma SaveQueue(data: seq<byte>)
      requires Valid()
      ensures Save(data).Queue() == Queue() + (data + [CR])[..Min(|data| + 1, Free())]
    {
      PutAllQueue(data + [CR]);
    }

    /** A message goes in whole exactly if there is room for it and its terminator. */
    lemma SaveIsWholeIff(data: seq<byte>)
      requires Valid()
      ensures Save(data).Queue() == Queue() + data + [CR] <==> |data| + 1 <= Free()
    {
      SaveQueue(data);
      assert Queue() + data + [CR] == Queue() + (data + [CR]);
      assert |data| + 1 <= Free() ==> (data + [CR])[..|data| + 1] == data + [CR];
    }

    /** Moving the read position takes the oldest byte. */
    lemma PopQueue()
      requires Valid() && Queue() != []
      ensures CanRead() > 0 && buffer[read] == Queue()[0] && this.(read := Next(read)).Queue() == Queue()[1..]
    {
    }

    /** Without a carriage return among the first limit bytes just these are taken. */
    lemma {:induction false} TakeLimit(limit: nat, taken: seq<byte>, message: seq<byte>, rest: seq<byte>)
      requires Valid() && CR !in message && |message| == limit && Queue() == message + rest
      ensures Take(limit, taken).1 == taken + message && Take(limit, taken).0.Queue() == rest
      decreases limit
    {
      if limit == 0 {
        assert message == [] && Queue() == rest && taken + message == taken;
      } else {
        PopQueue();
        var r := this.(read := Next(read));
        assert Queue()[0] == message[0];
        assert r.Queue() == message[1..] + rest;
        r.TakeLimit(limit - 1, taken + [message[0]], message[1..], rest);
        assert taken + [message[0]] + message[1..] == taken + message;
      }
    }

    /** An unfinished message, no longer than the limit, is taken as it is. */
    lemma {:induction false} TakeUnfinished(limit: nat, taken: seq<byte>, message: seq<byte>)
      requires Valid() && message == Queue() && CR !in message && |message| <= limit
      ensures Take(limit, taken).1 == taken + message && Take(limit, taken).0.Queue() == []
      decreases limit
    {
      CanReadIsOccupancy();
      if message == [] {
        assert taken + message == taken;
      } else {
        PopQueue();
        this.(read := Next(read)).TakeUnfinished(limit - 1, taken + [message[0]], message[1..]);
        assert taken + [message[0]] + message[1..] == taken + message;
      }
    }

    /** A frame that is short enough is taken whole, and the queue behind it stays. */
    lemma {:induction false} TakeQueue(limit: nat, taken: seq<byte>, message: seq<byte>, rest: seq<byte>)
      requires Valid() && CR !in message && |message| < limit
      requires Queue() == message + [CR] + rest
      ensures Take(limit, taken).1 == taken + message
      ensures Take(limit, taken).0.Queue() == rest
      decreases limit
    {
      CanReadIsOccupancy();
      var r := this.(read := Next(read));
      assert buffer[read] == Queue()[0];
      assert r.Queue() == Queue()[1..];
      if message == [] {
        assert r.Queue() == rest;
        assert taken + message == taken;
      } else {
        assert Queue()[0] == message[0];
        assert r.Queue() == message[1..] + [CR] + rest;
        r.TakeQueue(limit - 1, taken + [message[0]], message[1..], rest);
        assert taken + [message[0]] + message[1..] == taken + message;
      }
    }
  }

  // ----- Whole messages -----

  datatype Op = OpSave(data: seq<byte>) | OpRead

  /** The queue holds these messages, oldest first, each closed by a carriage return. */
  function Frames(messages: seq<seq<byte>>): seq<byte> {
    if messages == [] then [] else messages[0] + [CR] + Frames(messages[1..])
  }

  lemma {:induction false} FramesAppend(messages: seq<seq<byte>>, m: seq<byte>)
    ensures Frames(messages + [m]) == Frames(messages) + (m + [CR])
  {
    if messages == [] {
      assert Frames([m]) == m + [CR];
    } else {
      assert (messages + [m])[1..] == messages[1..] + [m];
      FramesAppend(messages[1..], m);
    }
  }

  predicate Readable(m: seq<byte>) {
    |m| < MAX_DATA_LENGTH && CR !in m
  }

  /** Every save of the run stores a message that reading can return whole, and finds room for it. */
  predicate Fits(depth: nat, pending: seq<seq<byte>>, ops: seq<Op>)
    decreases |ops|
  {
    ops == [] ||
    match ops[0]
    case OpSave(m) => Readable(m) && |Frames(pending + [m])| < depth && Fits(depth, pending + [m], ops[1..])
    case OpRead => Fits(depth, if pending == [] then [] else pending[1..], ops[1..])
  }

  /** What the reads return when the buffer is a plain queue of messages. */
  function QueueOutputs(key: seq<byte>, pending: seq<seq<byte>>, ops: seq<Op>): seq<seq<byte>>
    requires key != []
    decreases |ops|
  {
    if ops == [] then []
    else
      match ops[0]
      case OpSave(m) => QueueOutputs(key, pending + [m], ops[1..])
      case OpRead =>
        if pending == [] then [[]] + QueueOutputs(key, [], ops[1..])
        else [Encrypt(key, pending[0])] + QueueOutputs(key, pending[1..], ops[1..])
  }

  /** What the reads return from the ring. */
  function RingOutputs(key: seq<byte>, ring: Ring, ops: seq<Op>): seq<seq<byte>>
    requires key != [] && ring.Valid()
    decreases |ops|
  {
    if ops == [] then []
    else
      match ops[0]
      case OpSave(m) => RingOutputs(key, ring.Save(m), ops[1..])
      case OpRead => [ring.Read(key).1] + RingOutputs(key, ring.Read(key).0, ops[1..])
  }

  lemma ReadHead(key: seq<byte>, ring: Ring, pending: seq<seq<byte>>)
    requires key != [] && ring.Valid() && ring.Queue() == Frames(pending)
    requires pending != [] ==> Readable(pending[0])
    ensures ring.Read(key).1 == if pending == [] then [] else Encrypt(key, pending[0])
    ensures ring.Read(key).0.Queue() == if pending == [] then [] else Frames(pending[1..])
  {
    ring.CanReadIsOccupancy();
    if pending != [] {
      ring.TakeQueue(MAX_DATA_LENGTH, [], pending[0], Frames(pending[1..]));
    }
  }

  /** What is saved into an empty ring comes back whole, with nothing left behind, exactly if it is readable. */
  lemma ReadsBackIff(key: seq<byte>, ring: Ring, payload: seq<byte>)
    requires key != [] && ring.Valid() && ring.Queue() == [] && |payload| < ring.Free() && |payload| <= MAX_DATA_LENGTH
    ensures var (after, read) := ring.Save(payload).Read(key);
      read == Encrypt(key, payload) && after.Queue() == [] <==> Readable(payload)
  {
    var full := ring.Save(payload);
    ring.SaveIsWholeIff(payload);
    assert full.Queue() == payload + [CR];
    if CR in payload {
      var p := FirstCR(payload);
      var rest := payload[p + 1..] + [CR];
      assert full.Queue() == payload[..p] + [CR] + rest;
      full.TakeQueue(MAX_DATA_LENGTH, [], payload[..p], rest);
    } else if |payload| == MAX_DATA_LENGTH {
      full.TakeLimit(MAX_DATA_LENGTH, [], payload, [CR]);
    } else {
      assert payload + [CR] + [] == payload + [CR];
      full.TakeQueue(MAX_DATA_LENGTH, [], payload, []);
    }
  }

  /** Twenty-eight bytes leave their terminator behind, and a carriage return cuts a message short. */
  lemma UnreadableMessages()
    ensures var ring, key: seq<byte>, long: seq<byte>, cut: seq<byte> :=
        Ring(seq(RX_BUFFER_DEPTH, _ => 0), 0, 0), [1], seq(MAX_DATA_LENGTH, _ => 0), [0, CR, 0];
      && ring.Save(long).Read(key).1 == Encrypt(key, long) && ring.Save(long).Read(key).0.Queue() == [CR]
      && ring.Save(cut).Read(key).1 == Encrypt(key, [0]) != Encrypt(key, cut)
  {
    var ring, key: seq<byte>, long: seq<byte>, cut: seq<byte> :=
      Ring(seq(RX_BUFFER_DEPTH, _ => 0), 0, 0), [1], seq(MAX_DATA_LENGTH, _ => 0), [0, CR, 0];
    ring.SaveIsWholeIff(long);
    ring.Save(long).TakeLimit(MAX_DATA_LENGTH, [], long, [CR]);
    ring.SaveIsWholeIff(cut);
    assert ring.Save(cut).Queue() == [0] + [CR] + [0, CR];
    ring.Save(cut).TakeQueue(MAX_DATA_LENGTH, [], [0], [0, CR]);
  }

  function FirstCR(s: seq<byte>): (p: nat)
    requires CR in s
    ensures p < |s| && s[p] == CR && CR !in s[..p]
  {
    if s[0] == CR then 0 else 1 + FirstCR(s[1..])
  }

  /** Over any interleaving of saves that fit and reads, the ring returns whole messages in order, decrypted. */
  lemma {:induction false} RingRefinesQueue(key: seq<byte>, ring: Ring, pending: seq<seq<byte>>, ops: seq<Op>)
    requires key != [] && ring.Valid() && ring.Queue() == Frames(pending)
    requires forall i :: 0 <= i < |pending| ==> Readable(pending[i])
    requires Fits(|ring.buffer|, pending, ops)
    ensures RingOutputs(key, ring, ops) == QueueOutputs(key, pending, ops)
    decreases |ops|
  {
    if ops != [] {
      match ops[0]
      case OpSave(m) =>
        FramesAppend(pending, m);
        ring.SaveQueue(m);
        assert (m + [CR])[..|m| + 1] == m + [CR];
        RingRefinesQueue(key, ring.Save(m), pending + [m], ops[1..]);
      case OpRead =>
        ReadHead(key, ring, pending);
        RingRefinesQueue(key, ring.Read(key).0, if pending == [] then [] else pending[1..], ops[1..]);
    }
  }

  // ----- The ring in place -----

  /** One more byte lies behind the first n. */
  lemma TakenMore(before: seq<byte>, after: seq<byte>, n: nat, b: byte)
    requires n < |before| && after == before[n := b]
    ensures after[..n + 1] == before[..n] + [b]
  {
  }

  class RxBuffer {
    const buffer: array<byte>
    var rxWritePointer: nat
    var rxReadPointer: nat

    ghost predicate Valid()
      reads this
    {
      buffer.Length == RX_BUFFER_DEPTH && rxWritePointer < RX_BUFFER_DEPTH && rxReadPointer < RX_BUFFER_DEPTH
    }

    ghost function State(): (r: Ring)
      requires Valid()
      reads this, buffer
      ensures r.Valid()
    {
      Ring(buffer[..], rxWritePointer, rxReadPointer)
    }

    constructor ()
      ensures Valid() && fresh(buffer)
      ensures State() == Ring(seq(RX_BUFFER_DEPTH, _ => 0), 0, 0)
    {
      buffer := new byte[RX_BUFFER_DEPTH](_ => 0);
      rxWritePointer, rxReadPointer := 0, 0;
    }

    method CanReadRadio() returns (n: nat)
      requires Valid()
      ensures n == |State().Queue()|
    {
      State().CanReadIsOccupancy();
      if rxWritePointer >= rxReadPointer {
        return rxWritePointer - rxReadPointer;
      } else {
        return rxWritePointer - rxReadPointer + RX_BUFFER_DEPTH;
      }
    }

    /** Saves data[offset..offset + dataLength] and a carriage return. */
    method SaveReceivedData(data: array<byte>, offset: nat, dataLength: nat)
      requires Valid() && offset + dataLength <= data.Length && data != buffer
      modifies this, buffer
      ensures Valid()
      ensures State() == old(State()).Save(old(data[offset..offset + dataLength]))
    {
      ghost var frame := data[offset..offset + dataLength] + [CR];
      var i := 0;
      while i < dataLength + 1
        invariant 0 <= i <= dataLength + 1 && Valid()
        invariant frame == data[offset..offset + dataLength] + [CR]
        invariant State().PutAll(frame[i..]) == old(State()).PutAll(frame)
      {
        ghost var before := State();
        var curSlot := rxWritePointer;
        if i == dataLength {
          buffer[curSlot] := CR;
        } else {
          buffer[curSlot] := data[offset + i];
        }
        var nextSlot := curSlot + 1;
        if nextSlot >= RX_BUFFER_DEPTH {
          nextSlot := 0;
        }
        if nextSlot != rxReadPointer {
          rxWritePointer := nextSlot;
        }
        assert frame[i..][0] == frame[i] && frame[i..][1..] == frame[i + 1..];
        assert State() == before.Put(frame[i]);
        i := i + 1;
      }
    }

    /** Moves the read position over one byte. */
    method PopByte() returns (res: byte)
      requires Valid()
      modifies `rxReadPointer
      ensures Valid()
      ensures res == buffer[old(rxReadPointer)]
      ensures State() == old(State()).(read := old(State()).Next(old(rxReadPointer)))
    {
      var curSlot := rxReadPointer;
      res := buffer[curSlot];
      var nextSlot := curSlot + 1;
      if nextSlot >= RX_BUFFER_DEPTH {
        nextSlot := 0;
      }
      rxReadPointer := nextSlot;
    }

    /** Moves the first message, still encrypted, into dataLocation. */
    method TakeMessage(dataLocation: array<byte>) returns (numberOfBytes: nat)
      requires Valid() && dataLocation.Length >= MAX_DATA_LENGTH && dataLocation != buffer
      modifies `rxReadPointer, dataLocation
      ensures Valid()
      ensures numberOfBytes <= MAX_DATA_LENGTH
      ensures (State(), dataLocation[..numberOfBytes]) == old(State()).Take(MAX_DATA_LENGTH, [])
      ensures dataLocation[numberOfBytes..] == old(dataLocation[..])[numberOfBytes..]
    {
      ghost var s, taken := State(), [];
      ghost var goal := s.Take(MAX_DATA_LENGTH, taken);
      numberOfBytes := 0;
      while numberOfBytes < MAX_DATA_LENGTH
        invariant numberOfBytes <= MAX_DATA_LENGTH && Valid()
        invariant s == State() && taken == dataLocation[..numberOfBytes]
        invariant s.Take(MAX_DATA_LENGTH - numberOfBytes, taken) == goal
        invariant forall k :: numberOfBytes <= k < dataLocation.Length ==> dataLocation[k] == old(dataLocation[k])
      {
        s.CanReadIsOccupancy();
        var available := CanReadRadio();
        if available == 0 {
          break;
        }
        var res := PopByte();
        s := s.(read := s.Next(s.read));
        if res == CR {
          break;
        }
        taken := taken + [res];
        ghost var before := dataLocation[..];
        dataLocation[numberOfBytes] := res;
        TakenMore(before, dataLocation[..], numberOfBytes, res);
        numberOfBytes := numberOfBytes + 1;
      }
    }

    /** Reads the first message into dataLocation and decrypts it there. */
    method ReadRadioMessage(key: seq<byte>, dataLocation: array<byte>) returns (numberOfBytes: nat)
      requires Valid() && key != [] && dataLocation.Length >= MAX_DATA_LENGTH && dataLocation != buffer
      modifies this, dataLocation
      ensures Valid()
      ensures State() == old(State()).Read(key).0
      ensures numberOfBytes == |old(State()).Read(key).1| <= MAX_DATA_LENGTH
      ensures dataLocation[..] == old(State()).Read(key).1 + old(dataLocation[..])[numberOfBytes..]
    {
      numberOfBytes := TakeMessage(dataLocation);
      ghost var taken := dataLocation[..];
      assert taken[0..numberOfBytes] == taken[..numberOfBytes] && taken[..0] == [];
      Encryption(key, dataLocation, 0, numberOfBytes);
    }
  }
}
