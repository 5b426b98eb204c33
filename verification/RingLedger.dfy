/** Which fields share which buffer, and the link pointers that should lead around them. */
module RingLedger {
  import opened FormTypes
  import opened PageOrder
  import opened Rings

  function Index(s: seq<Field>, f: Field): (i: nat)
    requires f in s
    ensures i < |s| && s[i] == f
  {
    if s[0] == f then 0 else 1 + Index(s[1..], f)
  }

  function Removed(s: seq<Field>, p: nat): (r: seq<Field>)
    requires p < |s|
    ensures |r| == |s| - 1
  {
    s[..p] + s[p + 1..]
  }

  lemma RemovedIsInverse(s: seq<Field>, p: nat)
    requires p < |s|
    ensures Inserted(Removed(s, p), p, s[p], s)
  {
  }

  lemma InsertedMembers(s: seq<Field>, p: nat, x: Field, r: seq<Field>)
    requires Inserted(s, p, x, r)
    ensures forall f :: f in r <==> f in s || f == x
  {
    forall f | f in s
      ensures f in r
    {
      var i :| 0 <= i < |s| && s[i] == f;
      ShiftedMember(s, p, x, r, i);
    }
  }

  lemma DistinctRest(s: seq<Field>, p: nat, x: Field, r: seq<Field>)
    requires Inserted(s, p, x, r) && Distinct(r)
    ensures Distinct(s) && x !in s
  {
    forall i, j | 0 <= i < j < |s|
      ensures s[i] != s[j]
    {
      ShiftedMember(s, p, x, r, i);
      ShiftedMember(s, p, x, r, j);
    }
    forall i | 0 <= i < |s|
      ensures s[i] != x
    {
      ShiftedMember(s, p, x, r, i);
    }
  }

  /** The fields of each live buffer in link order, the members of each live field, and the buffers released. */
  datatype Ledger = Ledger(
    rings: map<Buffer, seq<Field>>, link: map<Field, Field?>, buf: map<Field, Buffer?>, released: set<Buffer>)
  {
    /** Member i of the ring of b leads to the next one and shares b. */
    ghost predicate LinkOk(b: Buffer, i: nat)
      requires b in rings && i < |rings[b]|
    {
      var s := rings[b];
      s[i] in link && s[i] in buf && link[s[i]] == s[Next(i, |s|)] && buf[s[i]] == b
    }

    ghost predicate RingOk(b: Buffer) {
      && b in rings && b !in released && rings[b] != [] && Distinct(rings[b])
      && forall i {:trigger LinkOk(b, i)} :: 0 <= i < |rings[b]| ==> LinkOk(b, i)
    }

    ghost predicate MemberOk(f: Field) {
      f in buf && buf[f] != null && buf[f] in rings && f in rings[buf[f]]
    }

    predicate SameKeys(f: Field) {
      f in link <==> f in buf
    }

    /** The link pointers split the live fields into rings, one for each live buffer; released buffers have none. */
    ghost predicate Sound() {
      && (forall f {:trigger SameKeys(f)} :: f in link.Keys + buf.Keys ==> SameKeys(f))
      && (forall b {:trigger RingOk(b)} :: b in rings ==> RingOk(b))
      && (forall f {:trigger MemberOk(f)} :: f in link ==> MemberOk(f))
    }

    /** The field that f leads to, and where f stands. */
    lemma Stands(f: Field)
      requires Sound() && f in link
      ensures MemberOk(f) && RingOk(buf[f]) && LinkOk(buf[f], Index(rings[buf[f]], f))
    {
      assert MemberOk(f) && RingOk(buf[f]);
    }

    /** A field with a buffer of its own comes in. */
    function Create(f: Field, b: Buffer): Ledger {
      Ledger(rings[b := [f]], link[f := f], buf[f := b], released)
    }

    /** g comes in right behind f and shares its buffer. */
    ghost function Join(f: Field, g: Field): Ledger
      requires f in link && MemberOk(f)
    {
      var b: Buffer := buf[f];
      var joined := InsertAt(rings[b], Index(rings[b], f) + 1, g);
      Ledger(rings[b := joined], link[g := link[f]][f := g], buf[g := b], released)
    }

    /** f goes; before leads to it. The buffer of a field that is alone in its ring is released. */
    ghost function Leave(f: Field, before: Field): Ledger
      requires f in link && before in link && MemberOk(f)
    {
      var b: Buffer := buf[f];
      if link[f] == f then Ledger(rings - {b}, link - {f}, buf - {f}, released + {b})
      else Ledger(rings[b := Removed(rings[b], Index(rings[b], f))], link[before := link[f]] - {f}, buf - {f}, released)
    }

    lemma CreateSound(f: Field, b: Buffer)
      requires Sound() && f !in link && b !in rings && b !in released
      ensures Create(f, b).Sound()
    {
      var r := Create(f, b);
      assert r.LinkOk(b, 0);
      forall k | k in r.link.Keys + r.buf.Keys
        ensures r.SameKeys(k)
      {
        assert k != f ==> SameKeys(k);
      }
      forall c | c in r.rings
        ensures r.RingOk(c)
      {
        if c != b {
          assert RingOk(c);
          forall i | 0 <= i < |rings[c]|
            ensures r.LinkOk(c, i)
          {
            assert LinkOk(c, i);
          }
        }
      }
      forall g | g in r.link
        ensures r.MemberOk(g)
      {
        assert g != f ==> MemberOk(g);
      }
    }

    /** Rings of other buffers are not touched by what happens around f. */
    lemma OtherRing(r: Ledger, c: Buffer, f: Field, g: Field)
      requires Sound() && c in rings && c in r.rings && r.rings[c] == rings[c]
      requires f in link && MemberOk(f) && buf[f] != c
      requires forall x :: x in r.released ==> x in released || x == buf[f]
      requires (g !in link || (MemberOk(g) && buf[g] != c))
      requires forall h :: h in link && h in buf && h != f && h != g ==>
        h in r.link && r.link[h] == link[h] && h in r.buf && r.buf[h] == buf[h]
      ensures r.RingOk(c)
    {
      assert RingOk(c);
      forall i | 0 <= i < |rings[c]|
        ensures r.LinkOk(c, i)
      {
        assert LinkOk(c, i);
      }
    }

    lemma JoinSound(f: Field, g: Field)
      requires Sound() && f in link && g !in link
      ensures MemberOk(f) && Join(f, g).Sound()
    {
      Stands(f);
      var r, b := Join(f, g), buf[f];
      var s := rings[b];
      var i := Index(s, f);
      InsertAtIsInserted(s, i + 1, g);
      InsertedMembers(s, i + 1, g, r.rings[b]);
      assert g !in s by {
        forall j | 0 <= j < |s|
          ensures s[j] != g
        {
          assert LinkOk(b, j);
        }
      }
      InsertDistinct(s, i + 1, g, r.rings[b]);
      forall j | 0 <= j < |s| + 1
        ensures r.LinkOk(b, j)
      {
        JoinLink(f, g, j);
      }
      forall k | k in r.link.Keys + r.buf.Keys
        ensures r.SameKeys(k)
      {
        assert k != g ==> SameKeys(k);
      }
      forall c | c in r.rings
        ensures r.RingOk(c)
      {
        if c != b {
          OtherRing(r, c, f, g);
        }
      }
      forall h | h in r.link
        ensures r.MemberOk(h)
      {
        assert h != g ==> MemberOk(h);
      }
    }

    lemma JoinLink(f: Field, g: Field, j: nat)
      requires Sound() && f in link && g !in link && MemberOk(f) && j <= |rings[buf[f]]| && RingOk(buf[f])
      requires Inserted(rings[buf[f]], Index(rings[buf[f]], f) + 1, g, Join(f, g).rings[buf[f]])
      ensures Join(f, g).LinkOk(buf[f], j)
    {
      var s := rings[buf[f]];
      var n, i, t := |s|, Index(s, f), Join(f, g).rings[buf[f]];
      var p := i + 1;
      assert LinkOk(buf[f], i);
      if j == p {
        NextShift(n, p, 0);
        ShiftedMember(s, p, g, t, Wrap(p, n));
      } else {
        NextShift(n, p, j);
        assert LinkOk(buf[f], Unshift(j, p));
        ShiftedMember(s, p, g, t, Next(Unshift(j, p), n));
      }
    }

    /** A field leads to itself exactly when nobody shares its buffer. */
    lemma AloneIffSelfLinked(f: Field)
      requires Sound() && f in link
      ensures MemberOk(f) && (link[f] == f <==> rings[buf[f]] == [f])
    {
      Stands(f);
    }

    lemma LeaveAlone(f: Field)
      requires Sound() && f in link && link[f] == f
      ensures MemberOk(f) && Leave(f, f).Sound()
    {
      AloneIffSelfLinked(f);
      var r, b := Leave(f, f), buf[f];
      forall k | k in r.link.Keys + r.buf.Keys
        ensures r.SameKeys(k)
      {
        assert SameKeys(k);
      }
      forall c | c in r.rings
        ensures r.RingOk(c)
      {
        OtherRing(r, c, f, f);
      }
      forall h | h in r.link
        ensures r.MemberOk(h)
      {
        assert MemberOk(h);
        assert buf[h] != b;
      }
    }

    lemma LeaveShared(f: Field, before: Field)
      requires Sound() && f in link && before in link && link[before] == f && link[f] != f
      ensures MemberOk(f) && Leave(f, before).Sound()
    {
      Stands(f);
      StandsBefore(f, before);
      var r, b := Leave(f, before), buf[f];
      var s := rings[b];
      var i, t := Index(s, f), r.rings[b];
      RemovedIsInverse(s, i);
      DistinctRest(t, i, f, s);
      InsertedMembers(t, i, f, s);
      AloneIffSelfLinked(f);
      assert t != [];
      forall j | 0 <= j < |t|
        ensures r.LinkOk(b, j)
      {
        LeaveLink(f, before, t, j);
      }
      forall k | k in r.link.Keys + r.buf.Keys
        ensures r.SameKeys(k)
      {
        assert SameKeys(k);
      }
      forall c | c in r.rings
        ensures r.RingOk(c)
      {
        if c != b {
          OtherRing(r, c, f, before);
        }
      }
      forall h | h in r.link
        ensures r.MemberOk(h)
      {
        assert MemberOk(h);
      }
    }

    /** Whoever leaves, the rest stays sound. */
    lemma LeaveSound(f: Field, before: Field)
      requires Sound() && f in link && before in link && link[before] == f
      ensures MemberOk(f) && Leave(f, before).Sound()
    {
      if link[f] == f {
        Stands(f);
        StandsBefore(f, before);
        AloneIffSelfLinked(f);
        assert before in rings[buf[f]];
        LeaveAlone(f);
      } else {
        LeaveShared(f, before);
      }
    }

    /** The field that leads to f stands right before it. */
    lemma StandsBefore(f: Field, before: Field)
      requires Sound() && f in link && before in link && link[before] == f
      ensures MemberOk(f) && MemberOk(before) && buf[before] == buf[f]
      ensures var s := rings[buf[f]]; Next(Index(s, before), |s|) == Index(s, f)
    {
      Stands(f);
      Stands(before);
      var s := rings[buf[before]];
      var q := Index(s, before);
      assert LinkOk(buf[before], Next(q, |s|));
    }

    /** Where member j of the smaller ring t leads once the field before f skips f. */
    lemma LeaveLink(f: Field, before: Field, t: seq<Field>, j: nat)
      requires Sound() && f in link && before in link && link[before] == f && link[f] != f
      requires MemberOk(f) && Inserted(t, Index(rings[buf[f]], f), f, rings[buf[f]]) && j < |t|
      ensures t[j] in link && t[j] in buf && buf[t[j]] == buf[f]
      ensures (if t[j] == before then link[f] else link[t[j]]) == t[Next(j, |t|)]
    {
      var b, s := buf[f], rings[buf[f]];
      var i, k := Index(s, f), Shift(j, Index(s, f));
      Stands(f);
      StandsBefore(f, before);
      assert LinkOk(b, k) && LinkOk(b, i);
      ShiftedMember(t, i, f, s, j);
      ShiftedMember(t, i, f, s, Next(j, |t|));
      ShiftedMember(t, i, f, s, Wrap(i, |t|));
      NextShift(|t|, i, k);
      assert s[k] == before ==> k == Index(s, before);
    }
 
    /** The member that leads to f. */
    ghost function Before(f: Field): (b: Field)
      requires Sound() && f in link
      ensures b in link && link[b] == f
    {
      Stands(f);
      var s := rings[buf[f]];
      var p := Previous(Index(s, f), |s|);
      assert LinkOk(buf[f], p) && Next(p, |s|) == Index(s, f);
      s[p]
    }

    /** The field that has just come in behind f is led to by f alone. */
    lemma JoinBefore(f: Field, g: Field)
      requires Sound() && f in link && g !in link
      ensures MemberOk(f) && Join(f, g).Sound() && Join(f, g).MemberOk(g)
      ensures Join(f, g).link[g] != g && Join(f, g).Before(g) == f
    {
      Stands(f);
      JoinSound(f, g);
      var r, p := Join(f, g), Index(rings[buf[f]], f) + 1;
      assert r.MemberOk(g) && LinkOk(buf[f], p - 1) && LinkOk(buf[f], Next(p - 1, |rings[buf[f]]|));
      r.StandsBefore(g, r.Before(g));
      r.StandsBefore(g, f);
    }

    /** Taking it out again undoes its coming. */
    lemma JoinLeave(f: Field, g: Field)
      requires Sound() && f in link && g !in link
      ensures MemberOk(f) && Join(f, g).MemberOk(g) && Join(f, g).Leave(g, f) == this
    {
      JoinBefore(f, g);
      var r, b := Join(f, g), buf[f];
      assert g !in rings[b] by {
        assert RingOk(b);
        forall j | 0 <= j < |rings[b]|
          ensures rings[b][j] != g
        {
          assert LinkOk(b, j);
        }
      }
      PutInTakeOut(rings[b], Index(rings[b], f) + 1, g, Index(r.rings[b], g));
      var q := r.Leave(g, f);
      assert q.rings == rings;
      assert g !in buf by {
        assert g in link.Keys + buf.Keys ==> SameKeys(g);
      }
      assert q.link == link && q.buf == buf;
    }
  }

  lemma PutInTakeOut(s: seq<Field>, p: nat, g: Field, i: nat)
    requires p <= |s| && i <= |s| && InsertAt(s, p, g)[i] == g && g !in s
    ensures Removed(InsertAt(s, p, g), i) == s
  {
    InsertedAt(s, p, g, i);
  }
}
