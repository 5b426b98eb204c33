/** Full-duplex SPI transfers over a pair of FIFOs that are polled. */
module Spi {

  type octet = bv8

  datatype BitOrder = LsbFirst | MsbFirst

  /** The bits of an octet from the other end. */
  function Reversed(b: octet): octet {
    var pairs := ((b & 0x55) << 1) | ((b >> 1) & 0x55);
    var nibbles := ((pairs & 0x33) << 2) | ((pairs >> 2) & 0x33);
    ((nibbles & 0x0f) << 4) | ((nibbles >> 4) & 0x0f)
  }

  function CorrectOrder(order: BitOrder, b: octet): octet {
    if order == LsbFirst then Reversed(b) else b
  }

  /** Putting an octet into the other order twice gives it back. */
  lemma CorrectOrderTwice(order: BitOrder, b: octet)
    ensures CorrectOrder(order, CorrectOrder(order, b)) == b
  {
  }

  /** Reversing takes bit i to bit 7 - i. */
  lemma ReversedBits(b: octet, i: nat)
    requires i < 8
    ensures (Reversed(b) >> i as bv4) & 1 == (b >> (7 - i) as bv4) & 1
  {
  }

  /** Each bit of a is the bit of b at the other end. */
  predicate Mirrored(a: octet, b: octet) {
    && (a & 0x01 == 0 <==> b & 0x80 == 0) && (a & 0x02 == 0 <==> b & 0x40 == 0)
    && (a & 0x04 == 0 <==> b & 0x20 == 0) && (a & 0x08 == 0 <==> b & 0x10 == 0)
    && (a & 0x10 == 0 <==> b & 0x08 == 0) && (a & 0x20 == 0 <==> b & 0x04 == 0)
    && (a & 0x40 == 0 <==> b & 0x02 == 0) && (a & 0x80 == 0 <==> b & 0x01 == 0)
  }

  /** With the most significant bit first, as by default, an octet is what it is; with the least significant bit
      first it is mirrored. */
  lemma CorrectOrderExact(b: octet)
    ensures CorrectOrder(MsbFirst, b) == b && Mirrored(CorrectOrder(LsbFirst, b), b)
  {
  }

  /** What goes onto the wire for a buffer. */
  function Ordered(order: BitOrder, s: seq<octet>): (r: seq<octet>)
    ensures |r| == |s| && forall k :: 0 <= k < |s| ==> r[k] == CorrectOrder(order, s[k])
  {
    seq(|s|, k requires 0 <= k < |s| => CorrectOrder(order, s[k]))
  }

  /** What a device returns that answers each octet as soon as it has it, knowing all that it got before. */
  function Replies(reply: seq<octet> -> octet, wire: seq<octet>): (r: seq<octet>)
    ensures |r| == |wire| && forall k :: 0 <= k < |wire| ==> r[k] == reply(wire[..k + 1])
  {
    seq(|wire|, k requires 0 <= k < |wire| => reply(wire[..k + 1]))
  }

  /** What a transfer of s leaves in the receive buffer. */
  function Answer(reply: seq<octet> -> octet, order: BitOrder, s: seq<octet>): (r: seq<octet>)
    ensures |r| == |s|
  {
    Ordered(order, Replies(reply, Ordered(order, s)))
  }

  /** The answer to the beginning of a buffer is the beginning of the answer: no octet depends on later ones. */
  lemma AnswerIsCausal(reply: seq<octet> -> octet, order: BitOrder, s: seq<octet>, n: nat)
    requires n <= |s|
    ensures Answer(reply, order, s[..n]) == Answer(reply, order, s)[..n]
  {
    var w := Ordered(order, s);
    assert Ordered(order, s[..n]) == w[..n];
    forall k | 0 <= k < n
      ensures Answer(reply, order, s[..n])[k] == Answer(reply, order, s)[k]
    {
      assert w[..n][..k + 1] == w[..k + 1];
    }
  }

  /** A device that sends back what it gets: the buffer comes back as it was, in either bit order. */
  lemma LoopBack(reply: seq<octet> -> octet, order: BitOrder, s: seq<octet>)
    requires forall w: seq<octet> :: w != [] ==> reply(w) == w[|w| - 1]
    ensures Answer(reply, order, s) == s
  {
    var w := Ordered(order, s);
    forall k | 0 <= k < |s|
      ensures Answer(reply, order, s)[k] == s[k]
    {
      assert reply(w[..k + 1]) == w[k];
      CorrectOrderTwice(order, s[k]);
    }
  }

  // ----- Which schedules complete a transfer -----

  /** Octets pass as long as looks find what they look for, from number n up to the limit: how many have passed then,
      the states still to come, and whether there was a state for every look. */
  function Moves(polls: seq<bool>, n: nat, limit: nat): (r: (nat, seq<bool>, bool))
    ensures n <= r.0 && (n <= limit ==> r.0 <= limit) && |r.1| <= |polls| && (r.2 ==> |r.1| < |polls|)
    decreases |polls|
  {
    if polls == [] then (n, [], false)
    else if polls[0] && n < limit then Moves(polls[1..], n + 1, limit)
    else (n, polls[1..], true)
  }

  /** A transfer that has sent tx octets and received rx is done before the states run out. */
  predicate Completes(polls: seq<bool>, tx: nat, rx: nat, len: nat)
    decreases |polls|
  {
    if tx >= len && rx >= len then true in polls
    else
      var (sent, rest, live) := Moves(polls, tx, len);
      live && var (got, rest', live') := Moves(rest, rx, sent); live' && Completes(rest', sent, got, len)
  }

  /** How many looks find what they look for. */
  function Yes(polls: seq<bool>): nat {
    if polls == [] then 0 else (if polls[0] then 1 else 0) + Yes(polls[1..])
  }

  /** How often two looks in a row do, none of them counted twice; prev says that the look before did and counts. */
  function InARow(polls: seq<bool>, prev: bool): nat {
    if polls == [] then 0
    else if prev && polls[0] then 1 + InARow(polls[1..], false)
    else InARow(polls[1..], polls[0])
  }

  lemma {:induction false} PrevHelps(polls: seq<bool>)
    ensures InARow(polls, false) <= InARow(polls, true) <= InARow(polls, false) + 1
    ensures InARow(polls, true) > 0 ==> true in polls
  {
    if polls != [] {
      PrevHelps(polls[1..]);
    }
  }

  lemma {:induction false} MovesUse(polls: seq<bool>, n: nat, limit: nat)
    ensures var (m, rest, live) := Moves(polls, n, limit); Yes(rest) + m - n <= Yes(polls)
    decreases |polls|
  {
    if polls != [] && polls[0] && n < limit {
      MovesUse(polls[1..], n + 1, limit);
    }
  }

  /** Two looks in a row that succeed move an octet: a look that finds nothing to move is followed by one that does. */
  lemma {:induction false} MovesEarn(polls: seq<bool>, n: nat, limit: nat, prev: bool, need: nat)
    requires n <= limit < need && (prev ==> n < limit) && InARow(polls, prev) + n >= need
    ensures var (m, rest, live) := Moves(polls, n, limit);
      live && (InARow(rest, false) + m >= need || (m == limit && InARow(rest, true) + m >= need))
    decreases |polls|
  {
    if polls != [] && polls[0] && n < limit {
      PrevHelps(polls[1..]);
      MovesEarn(polls[1..], n + 1, limit, false, need);
    }
  }

  lemma {:induction false} EarnsCompletion(polls: seq<bool>, tx: nat, rx: nat, len: nat, prev: bool)
    requires rx <= tx <= len && (prev ==> rx == tx) && InARow(polls, prev) + tx + rx > 2 * len
    ensures Completes(polls, tx, rx, len)
    decreases |polls|
  {
    PrevHelps(polls);
    if rx < len {
      var (sent, rest, _) := Moves(polls, tx, len);
      MovesEarn(polls, tx, len, prev && tx < len, 2 * len + 1 - rx);
      var held := InARow(rest, false) + sent + rx <= 2 * len;
      MovesEarn(rest, rx, sent, held, 2 * len + 1 - sent);
      var (got, rest', _) := Moves(rest, rx, sent);
      EarnsCompletion(rest', sent, got, len, InARow(rest', false) + sent + got <= 2 * len);
    }
  }

  lemma {:induction false} CompletionCosts(polls: seq<bool>, tx: nat, rx: nat, len: nat)
    requires Completes(polls, tx, rx, len) && rx <= tx <= len
    ensures Yes(polls) + tx + rx > 2 * len
    decreases |polls|
  {
    if rx < len {
      var (sent, rest, _) := Moves(polls, tx, len);
      var (got, rest', _) := Moves(rest, rx, sent);
      MovesUse(polls, tx, len);
      MovesUse(rest, rx, sent);
      CompletionCosts(rest', sent, got, len);
    } else {
      YesIfAny(polls);
    }
  }

  lemma {:induction false} YesIfAny(polls: seq<bool>)
    requires true in polls
    ensures Yes(polls) > 0
  {
    if !polls[0] {
      YesIfAny(polls[1..]);
    }
  }

  /**
   * A transfer of len octets completes if more than 2 * len times two looks in a row find what they look for, and
   * only if more than 2 * len looks do: room for each octet, its answer, and the end.
   */
  lemma SteadyStatesComplete(polls: seq<bool>, len: nat)
    ensures InARow(polls, false) > 2 * len ==> Completes(polls, 0, 0, len)
    ensures Completes(polls, 0, 0, len) ==> Yes(polls) > 2 * len
  {
    if InARow(polls, false) > 2 * len {
      EarnsCompletion(polls, 0, 0, len, false);
    }
    if Completes(polls, 0, 0, len) {
      CompletionCosts(polls, 0, 0, len);
    }
  }

  // ----- The transfer -----

  /** The registers. Each look at the status register meets the next of the states that the FIFOs will be in; the
      receive FIFO never holds more than has been sent and not been read. */
  class Spi0 {
    const reply: seq<octet> -> octet
    var order: BitOrder
    var polls: seq<bool>
    var wire: seq<octet>
    var taken: nat

    ghost predicate Valid()
      reads this
    {
      taken <= |wire|
    }

    constructor (reply: seq<octet> -> octet, order: BitOrder, polls: seq<bool>)
      ensures Valid() && this.reply == reply && this.order == order && this.polls == polls && wire == [] && taken == 0
    {
      this.reply, this.order, this.polls, wire, taken := reply, order, polls, [], 0;
    }

    /** A look at the status register; no answer once the states have run out. */
    method Poll() returns (flag: bool, live: bool)
      modifies this`polls
      ensures live == (old(polls) != []) && flag == (live && old(polls)[0])
      ensures polls == if live then old(polls)[1..] else []
    {
      live := polls != [];
      flag := live && polls[0];
      polls := if live then polls[1..] else polls;
    }

    method WriteFifo(b: octet)
      modifies this`wire
      ensures wire == old(wire) + [b]
    {
      wire := wire + [b];
    }

    method ReadFifo() returns (b: octet)
      requires taken < |wire|
      modifies this`taken
      ensures taken == old(taken) + 1 && b == Replies(reply, wire)[old(taken)]
    {
      b := reply(wire[..taken + 1]);
      taken := taken + 1;
    }
  }

  /** How far a transfer of input into rbuf has come: tx octets are on the wire, rx answers are in. */
  ghost predicate Progress(s: Spi0, input: seq<octet>, len: nat, before: seq<octet>, after: seq<octet>, tx: nat,
      rx: nat)
    reads s
  {
    && rx <= tx <= len <= |input| && rx <= |before| == |after| && s.taken == rx
    && s.wire == Ordered(s.order, input[..tx])
    && after[..rx] == Answer(s.reply, s.order, input[..tx])[..rx] && after[rx..] == before[rx..]
  }

  /** Fills the transmit FIFO as long as there is room. What is still to be sent has not been overwritten, even if
      both buffers are the same, because no more has been received than sent. */
  method Fill(s: Spi0, tbuf: array<octet>, rbuf: array<octet>, len: nat, tx0: nat, rx: nat,
              ghost input: seq<octet>, ghost before: seq<octet>) returns (tx: nat, live: bool)
    requires len <= tbuf.Length && len <= rbuf.Length && |input| == tbuf.Length
    requires Progress(s, input, len, before, rbuf[..], tx0, rx)
    requires forall k :: rx <= k < len ==> tbuf[k] == input[k]
    modifies s`polls, s`wire
    ensures Progress(s, input, len, before, rbuf[..], tx, rx) && (tx, s.polls, live) == Moves(old(s.polls), tx0, len)
  {
    tx := tx0;
    var room: bool;
    room, live := s.Poll();
    while room && tx < len
      invariant tx0 <= tx && Progress(s, input, len, before, rbuf[..], tx, rx)
      invariant Moves(old(s.polls), tx0, len) ==
        if room && tx < len then Moves(s.polls, tx + 1, len) else (tx, s.polls, live)
      decreases len - tx
    {
      s.WriteFifo(CorrectOrder(s.order, tbuf[tx]));
      AnswerIsCausal(s.reply, s.order, input[..tx + 1], tx);
      assert input[..tx + 1][..tx] == input[..tx];
      tx := tx + 1;
      room, live := s.Poll();
    }
  }

  lemma PutNext(s: seq<octet>, k: nat, b: octet)
    requires k < |s|
    ensures s[k := b][..k + 1] == s[..k] + [b] && s[k := b][k + 1..] == s[k..][1..]
  {
  }

  /** Empties the receive FIFO as long as there is something in it. */
  method Drain(s: Spi0, rbuf: array<octet>, len: nat, tx: nat, rx0: nat,
               ghost input: seq<octet>, ghost before: seq<octet>) returns (rx: nat, live: bool)
    requires len <= rbuf.Length && Progress(s, input, len, before, rbuf[..], tx, rx0)
    modifies s`polls, s`taken, rbuf
    ensures Progress(s, input, len, before, rbuf[..], tx, rx) && (rx, s.polls, live) == Moves(old(s.polls), rx0, tx)
  {
    rx := rx0;
    var some: bool;
    some, live := s.Poll();
    while some && s.taken < |s.wire| && rx < len
      invariant rx0 <= rx && Progress(s, input, len, before, rbuf[..], tx, rx)
      invariant Moves(old(s.polls), rx0, tx) ==
        if some && rx < tx then Moves(s.polls, rx + 1, tx) else (rx, s.polls, live)
      decreases len - rx
    {
      var b := s.ReadFifo();
      ghost var was := rbuf[..];
      rbuf[rx] := CorrectOrder(s.order, b);
      assert rbuf[..] == was[rx := rbuf[rx]];
      PutNext(was, rx, rbuf[rx]);
      assert before[rx..][1..] == before[rx + 1..];
      rx := rx + 1;
      some, live := s.Poll();
    }
  }

  /** What a transfer of s puts on the wire and into the receive buffer, octet by octet: with the most significant bit
      first, s itself and what the device returns for it; otherwise everything is mirrored on its way. */
  lemma TransferExact(reply: seq<octet> -> octet, s: seq<octet>)
    ensures Ordered(MsbFirst, s) == s && Answer(reply, MsbFirst, s) == Replies(reply, s)
    ensures forall k :: 0 <= k < |s| ==> Mirrored(Ordered(LsbFirst, s)[k], s[k])
    ensures forall k :: 0 <= k < |s| ==>
      Mirrored(Answer(reply, LsbFirst, s)[k], Replies(reply, Ordered(LsbFirst, s))[k])
  {
    forall b: octet {
      CorrectOrderExact(b);
    }
    assert Ordered(MsbFirst, s) == s;
    assert Ordered(MsbFirst, Replies(reply, s)) == Replies(reply, s);
  }

  /** Waits until the status register says that the transfer is done. */
  method AwaitDone(s: Spi0) returns (done: bool)
    modifies s`polls
    ensures done <==> true in old(s.polls)
  {
    var live := true;
    done := false;
    while !done && live
      invariant true in old(s.polls) <==> done || true in s.polls
      invariant !live ==> s.polls == []
      decreases |s.polls| + if live then 1 else 0
    {
      done, live := s.Poll();
    }
  }

  /** Sends len octets of tbuf and puts the answers into rbuf, which may be the same array; done unless the states
      of the FIFOs run out first. */
  method TransferNb(s: Spi0, tbuf: array<octet>, rbuf: array<octet>, len: nat) returns (done: bool)
    requires len <= tbuf.Length && len <= rbuf.Length
    modifies s, rbuf
    ensures s.order == old(s.order) && exists tx, rx :: Progress(s, old(tbuf[..]), len, old(rbuf[..]), rbuf[..], tx, rx)
    ensures done <==> Completes(old(s.polls), 0, 0, len)
    ensures done ==> s.wire == Ordered(s.order, old(tbuf[..len]))
    ensures done ==> rbuf[..] == Answer(s.reply, s.order, old(tbuf[..len])) + old(rbuf[len..])
    ensures done && s.order == MsbFirst ==>
      s.wire == old(tbuf[..len]) && rbuf[..] == Replies(s.reply, old(tbuf[..len])) + old(rbuf[len..])
    ensures done && s.order == LsbFirst ==> forall k :: 0 <= k < len ==>
      Mirrored(s.wire[k], old(tbuf[k])) && Mirrored(rbuf[k], Replies(s.reply, s.wire)[k])
  {
    ghost var input, before := tbuf[..], rbuf[..];
    s.wire, s.taken := [], 0;
    var tx: nat, rx: nat := 0, 0;
    var live := true;
    while tx < len || rx < len
      invariant live && Progress(s, input, len, before, rbuf[..], tx, rx)
      invariant s.order == old(s.order) && forall k :: rx <= k < len ==> tbuf[k] == input[k]
      invariant Completes(old(s.polls), 0, 0, len) == Completes(s.polls, tx, rx, len)
      decreases |s.polls|
    {
      tx, live := Fill(s, tbuf, rbuf, len, tx, rx, input, before);
      if !live {
        return false;
      }
      rx, live := Drain(s, rbuf, len, tx, rx, input, before);
      if !live {
        return false;
      }
    }
    assert input[..len] == old(tbuf[..len]);
    TransferExact(s.reply, input[..len]);
    done := AwaitDone(s);
    assert Progress(s, input, len, before, rbuf[..], tx, rx);
  }

  /** The same with one buffer: it ends up with what a separate receive buffer would have got. */
  method TransferN(s: Spi0, buf: array<octet>, len: nat) returns (done: bool)
    requires len <= buf.Length
    modifies s, buf
    ensures done <==> Completes(old(s.polls), 0, 0, len)
    ensures done ==> s.wire == Ordered(s.order, old(buf[..len]))
    ensures done ==> buf[..] == Answer(s.reply, s.order, old(buf[..len])) + old(buf[len..])
    ensures done && s.order == MsbFirst ==> s.wire == old(buf[..len]) && buf[..len] == Replies(s.reply, s.wire)
  {
    done := TransferNb(s, buf, buf, len);
  }
}
