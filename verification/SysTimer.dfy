/** The 64-bit system timer, which is read through two 32-bit registers while it runs. */
module SysTimer {

  const WORD := 0x1_0000_0000
  const RANGE := 0x1_0000_0000_0000_0000

  function Hi(c: nat): nat {
    c / WORD
  }

  function Lo(c: nat): nat {
    c % WORD
  }

  /** A counter that never goes back, nor past 64 bits. */
  ghost predicate Runs(c: seq<nat>) {
    && (forall i, j :: 0 <= i < j < |c| ==> c[i] <= c[j])
    && (forall i :: 0 <= i < |c| ==> c[i] < RANGE)
  }

  /** What is read when the counter stands at c[0], c[1], ... at the successive register accesses. */
  function Reading(c: seq<nat>): nat
    requires |c| >= 4
  {
    Hi(c[2]) * WORD + if Hi(c[2]) == Hi(c[0]) then Lo(c[1]) else Lo(c[3])
  }

  /** How many register accesses that takes. */
  function Accesses(c: seq<nat>): (n: nat)
    requires |c| >= 4
    ensures 3 <= n <= 4
  {
    if Hi(c[2]) == Hi(c[0]) then 3 else 4
  }

  /** A reading is never torn: it lies between the counter's values at the first and the last access, however far the
      counter gets in between. */
  lemma ReadingLiesInCall(c: seq<nat>)
    requires |c| >= 4 && Runs(c)
    ensures c[0] <= Reading(c) <= c[Accesses(c) - 1] < RANGE
  {
    assert c[0] <= c[1] <= c[2] <= c[3];
  }

  /** It is the value at the access to the low word that is used, if and only if the high word read is still current
      then; and it is if the counter advances by less than 2^32 during the call. */
  lemma ReadingIsExact(c: seq<nat>)
    requires |c| >= 4 && Runs(c)
    ensures Hi(c[2]) == Hi(c[0]) ==> Reading(c) == c[1]
    ensures Hi(c[2]) != Hi(c[0]) ==> (Reading(c) == c[3] <==> Hi(c[3]) == Hi(c[2]))
    ensures c[3] - c[0] < WORD ==> Reading(c) == c[1] || Reading(c) == c[3]
  {
    assert c[0] <= c[1] <= c[2] <= c[3];
  }

  /** The second look at the high word is needed: here a carry comes between the first two accesses, the words read
      by them make up a value that is off by 2^32, and the branch taken gives the right one. */
  lemma SecondLookMatters()
    ensures exists c ::
      && |c| == 4 && Runs(c) && Hi(c[2]) != Hi(c[0]) && Reading(c) == c[3] && c[3] - c[0] < WORD
      && Hi(c[0]) * WORD + Lo(c[1]) + WORD == c[1]
  {
    var c: seq<nat> := [WORD - 1, WORD, WORD, WORD];
    assert Runs(c) && Hi(c[2]) != Hi(c[0]) && Reading(c) == c[3] && Hi(c[0]) * WORD + Lo(c[1]) + WORD == c[1];
  }

  /** Of two readings, one after the other, the later is not smaller. */
  lemma ReadingsNeverGoBack(c: seq<nat>, d: seq<nat>)
    requires |c| >= 4 && |d| >= 4 && Runs(c[..Accesses(c)] + d)
    ensures Reading(c) <= Reading(d)
  {
    var n := Accesses(c);
    var all := c[..n] + d;
    assert all[0] == c[0] && all[1] == c[1] && all[2] == c[2] && all[n - 1] == c[n - 1];
    assert all[0] <= all[1] <= all[2] <= all[n - 1] <= all[n] <= all[n + 1] <= all[n + 2] <= all[n + 3];
    assert all[n] == d[0] && all[n + 1] == d[1] && all[n + 2] == d[2] && all[n + 3] == d[3];
  }

  /** The first reading that is not below compare ends the wait: whether there is one, and what lies ahead then. */
  function Wait(c: seq<nat>, compare: nat): (r: (bool, seq<nat>))
    ensures !r.0 ==> |r.1| < 4
    decreases |c|
  {
    if |c| < 4 then (false, c)
    else if Reading(c) >= compare then (true, c[Accesses(c)..])
    else Wait(c[Accesses(c)..], compare)
  }

  /** All that successive readings give, as long as there are accesses ahead. */
  function Readings(c: seq<nat>): (r: seq<nat>)
    decreases |c|
  {
    if |c| < 4 then [] else [Reading(c)] + Readings(c[Accesses(c)..])
  }

  /** The wait ends if some reading is not below compare, with the first such reading; what lies ahead then gives the
      readings after that. */
  lemma {:induction false} WaitEndsFirst(c: seq<nat>, compare: nat) returns (k: nat)
    ensures k <= |Readings(c)| && forall i :: 0 <= i < k ==> Readings(c)[i] < compare
    ensures Wait(c, compare).0 <==> k < |Readings(c)|
    ensures k < |Readings(c)| ==>
      Readings(c)[k] >= compare && Readings(Wait(c, compare).1) == Readings(c)[k + 1..]
    decreases |c|
  {
    k := 0;
    if |c| >= 4 && Reading(c) < compare {
      var rest := WaitEndsFirst(c[Accesses(c)..], compare);
      k := rest + 1;
    }
  }

  /** A wait whose end is one past 64 bits is over at the first reading, before its time, whatever the counter does. */
  lemma WaitEndsAtOnce(c: seq<nat>)
    requires |c| >= 4 && Runs(c)
    ensures var offset, micros := RANGE - 1, 1;
      Wait(c, (offset + micros) % RANGE) == (true, c[Accesses(c)..]) && c[Accesses(c) - 1] < offset + micros
  {
    ReadingLiesInCall(c);
  }

  /** The timer, once its registers are mapped; each register access finds the counter at the next of the
      values that lie ahead. */
  class Timer {
    const mapped: bool
    var now: nat
    var ahead: seq<nat>

    ghost predicate Valid()
      reads this
    {
      Runs([now] + ahead)
    }

    constructor (mapped: bool, now: nat, ahead: seq<nat>)
      requires Runs([now] + ahead)
      ensures Valid() && this.mapped == mapped && this.now == now && this.ahead == ahead
    {
      this.mapped, this.now, this.ahead := mapped, now, ahead;
    }

    method Tick()
      requires Valid() && ahead != []
      modifies this
      ensures Valid() && now == old(ahead[0]) && ahead == old(ahead[1..])
    {
      assert ([now] + ahead)[1..] == [ahead[0]] + ahead[1..];
      now, ahead := ahead[0], ahead[1..];
    }

    method ReadCHI() returns (hi: nat)
      requires Valid() && ahead != []
      modifies this
      ensures Valid() && now == old(ahead[0]) && ahead == old(ahead[1..]) && hi == Hi(now)
    {
      Tick();
      hi := now / WORD;
    }

    method ReadCLO() returns (lo: nat)
      requires Valid() && ahead != []
      modifies this
      ensures Valid() && now == old(ahead[0]) && ahead == old(ahead[1..]) && lo == Lo(now)
    {
      Tick();
      lo := now % WORD;
    }

    method StRead() returns (st: nat)
      requires Valid() && |ahead| >= 4
      modifies this
      ensures Valid() && (!mapped ==> st == 0 && now == old(now) && ahead == old(ahead))
      ensures mapped ==> st == Reading(old(ahead)) && st < RANGE && old(ahead)[0] <= st <= now
      ensures mapped ==> now == old(ahead[Accesses(ahead) - 1]) && ahead == old(ahead[Accesses(ahead)..])
    {
      if !mapped {
        return 0;
      }
      ghost var c := ahead;
      assert Runs(c) by {
        assert forall i :: 0 <= i < |c| ==> c[i] == ([now] + c)[i + 1];
      }
      var hi := ReadCHI();
      var lo := ReadCLO();
      st := ReadCHI();
      if st == hi {
        st := st * WORD;
        st := st + lo;
      } else {
        st := st * WORD;
        lo := ReadCLO();
        st := st + lo;
      }
      ReadingLiesInCall(c);
    }

    /** Waits for as long as there are accesses ahead; done if the wait has ended by then. It never ends early, except
        when the end of the wait does not fit in 64 bits: then it never ends on time. On a timer that is not mapped
        only a wait for 0 ends. */
    method StDelay(offset: nat, micros: nat) returns (done: bool)
      requires Valid() && offset < RANGE && micros < RANGE
      modifies this
      ensures Valid()
      ensures mapped ==> (done, ahead) == Wait(old(ahead), (offset + micros) % RANGE)
      ensures mapped && done ==> (now >= offset + micros <==> offset + micros < RANGE)
      ensures !mapped ==> now == old(now) && done == ((offset + micros) % RANGE == 0 && |ahead| >= 4)
    {
      var compare := (offset + micros) % RANGE;
      done := false;
      while |ahead| >= 4
        invariant Valid() && (mapped ==> Wait(ahead, compare) == Wait(old(ahead), compare))
        invariant !mapped ==> now == old(now) && ahead == old(ahead)
        decreases |ahead|
      {
        var st := StRead();
        if !(st < compare) {
          assert now < RANGE by {
            assert ([now] + ahead)[0] == now;
          }
          return true;
        }
        if !mapped {
          return false;   // every further reading is the same
        }
      }
    }
  }
}
