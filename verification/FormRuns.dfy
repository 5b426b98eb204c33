/** Any run of the routines that make, link, duplicate, retype and free fields and field types. */
module FormRuns {
  import opened FormTypes
  import TypeLedger
  import RingLedger

  /** What a successful call does; a call that fails leaves the books alone, or sets no type. */
  datatype Op =
    | NewField(f: Field, b: Buffer)
    | DupField(src: Field, f: Field, b: Buffer)
    | LinkField(src: Field, f: Field)
    | FreeField(f: Field)
    | SetType(f: Field, to: FieldType?)
    | NewType(t: FieldType, count: nat)
    | LinkType(t: FieldType, left: FieldType, right: FieldType)
    | FreeType(t: FieldType)

  datatype Books = Books(types: TypeLedger.Ledger, links: RingLedger.Ledger, default: Field) {

    predicate Paired(f: Field) {
      f in types.typeOf <==> f == default || f in links.link
    }

    /** Both ledgers add up, and the fields that have a type, or none, are the default field and those on rings. */
    ghost predicate Sound() {
      && types.Balanced() && links.Sound()
      && (forall f {:trigger Paired(f)} :: f in types.typeOf.Keys + links.link.Keys ==> Paired(f))
      && default in types.typeOf && default !in links.link
    }

    /** Whether b has ever been allocated for a field. */
    predicate Seen(b: Buffer) {
      b in links.rings || b in links.released
    }

    /** What the routines ask of their callers, and what allocation promises. */
    ghost predicate Can(op: Op)
      requires Sound()
    {
      match op
      case NewField(f, b) => f !in types.typeOf && !Seen(b)
      case DupField(src, f, b) => src in links.link && f !in types.typeOf && !Seen(b)
      case LinkField(src, f) => src in links.link && f !in types.typeOf
      case FreeField(f) => f in links.link
      case SetType(f, t) => f in types.typeOf && types.Known(t)
      case NewType(t, _) => t !in types.ref
      case LinkType(t, a, b) => t !in types.ref && a in types.ref && b in types.ref
      case FreeType(t) => t in types.ref && types.ref[t] == 0
    }

    ghost function Do(op: Op): Books
      requires Sound() && Can(op)
    {
      match op
      case NewField(f, b) =>
        assert types.TypeOk(default);
        this.(types := types.Attach(f, types.typeOf[default]), links := links.Create(f, b))
      case DupField(src, f, b) =>
        assert Paired(src) && types.TypeOk(src);
        this.(types := types.Attach(f, types.typeOf[src]), links := links.Create(f, b))
      case LinkField(src, f) =>
        assert Paired(src) && types.TypeOk(src) && links.MemberOk(src);
        this.(types := types.Attach(f, types.typeOf[src]), links := links.Join(src, f))
      case FreeField(f) =>
        assert Paired(f) && types.TypeOk(f) && links.MemberOk(f);
        this.(types := types.Detach(f), links := links.Leave(f, links.Before(f)))
      case SetType(f, t) =>
        assert types.TypeOk(f);
        this.(types := types.Detach(f).Attach(f, t))
      case NewType(t, count) =>
        this.(types := types.AddType(t, null, null, count))
      case LinkType(t, a, b) =>
        this.(types := types.AddType(t, a, b, 0))
      case FreeType(t) =>
        assert types.OperandsOk(t);
        this.(types := types.DropType(t))
    }

    /** Books over the same default field are paired if they differ from these in f alone, which they pair. */
    lemma PairedBut(r: Books, f: Field)
      requires Sound() && r.default == default && f != default && r.Paired(f)
      requires forall g :: g != f ==>
        && (g in r.types.typeOf <==> g in types.typeOf)
        && (g in r.links.link <==> g in links.link)
      ensures forall g :: g in r.types.typeOf.Keys + r.links.link.Keys ==> r.Paired(g)
      ensures default in r.types.typeOf && default !in r.links.link
    {
      forall g | g in r.types.typeOf.Keys + r.links.link.Keys
        ensures r.Paired(g)
      {
        assert g != f ==> Paired(g);
      }
    }

    /** A field that is not counted is not on a ring either. */
    lemma Unknown(f: Field)
      requires Sound() && f !in types.typeOf
      ensures f !in links.link && f != default
    {
      assert f in links.link ==> Paired(f);
    }

    lemma NewFieldStep(f: Field, b: Buffer)
      requires Sound() && f !in types.typeOf && !Seen(b)
      ensures types.TypeOk(default) && Can(NewField(f, b)) && Do(NewField(f, b)).Sound()
      ensures Do(NewField(f, b)) == Books(types.Attach(f, types.typeOf[default]), links.Create(f, b), default)
    {
      Unknown(f);
      assert types.TypeOk(default);
      types.AttachBalanced(f, types.typeOf[default]);
      links.CreateSound(f, b);
      PairedBut(Do(NewField(f, b)), f);
    }

    lemma DupFieldStep(src: Field, f: Field, b: Buffer)
      requires Sound() && src in links.link && f !in types.typeOf && !Seen(b)
      ensures types.TypeOk(src) && Can(DupField(src, f, b)) && Do(DupField(src, f, b)).Sound()
      ensures Do(DupField(src, f, b)) == Books(types.Attach(f, types.typeOf[src]), links.Create(f, b), default)
    {
      Unknown(f);
      assert Paired(src) && types.TypeOk(src);
      types.AttachBalanced(f, types.typeOf[src]);
      links.CreateSound(f, b);
      PairedBut(Do(DupField(src, f, b)), f);
    }

    lemma LinkFieldStep(src: Field, f: Field)
      requires Sound() && src in links.link && f !in types.typeOf
      ensures types.TypeOk(src) && links.MemberOk(src) && Can(LinkField(src, f)) && Do(LinkField(src, f)).Sound()
      ensures Do(LinkField(src, f)) == Books(types.Attach(f, types.typeOf[src]), links.Join(src, f), default)
    {
      Unknown(f);
      assert Paired(src) && types.TypeOk(src);
      types.AttachBalanced(f, types.typeOf[src]);
      links.JoinSound(src, f);
      PairedBut(Do(LinkField(src, f)), f);
    }

    lemma FreeFieldStep(f: Field)
      requires Sound() && f in links.link
      ensures types.TypeOk(f) && links.MemberOk(f) && Can(FreeField(f)) && Do(FreeField(f)).Sound()
      ensures Do(FreeField(f)) == Books(types.Detach(f), links.Leave(f, links.Before(f)), default)
    {
      assert Paired(f);
      types.DetachBalanced(f);
      links.LeaveSound(f, links.Before(f));
      PairedBut(Do(FreeField(f)), f);
    }

    lemma SetTypeStep(f: Field, t: FieldType?)
      requires Sound() && f in types.typeOf && types.Known(t)
      ensures types.TypeOk(f) && Can(SetType(f, t)) && Do(SetType(f, t)).Sound()
      ensures Do(SetType(f, t)) == Books(types.Detach(f).Attach(f, t), links, default)
    {
      types.DetachBalanced(f);
      types.Detach(f).AttachBalanced(f, t);
      SamePairs(Do(SetType(f, t)));
    }

    lemma NewTypeStep(t: FieldType, count: nat)
      requires Sound() && t !in types.ref
      ensures Can(NewType(t, count)) && Do(NewType(t, count)).Sound()
      ensures Do(NewType(t, count)) == Books(types.AddType(t, null, null, count), links, default)
    {
      types.AddTypeBalanced(t, null, null, count);
      SamePairs(Do(NewType(t, count)));
    }

    lemma LinkTypeStep(t: FieldType, a: FieldType, b: FieldType)
      requires Sound() && t !in types.ref && a in types.ref && b in types.ref
      ensures Can(LinkType(t, a, b)) && Do(LinkType(t, a, b)).Sound()
      ensures Do(LinkType(t, a, b)) == Books(types.AddType(t, a, b, 0), links, default)
    {
      types.AddTypeBalanced(t, a, b, 0);
      SamePairs(Do(LinkType(t, a, b)));
    }

    lemma FreeTypeStep(t: FieldType)
      requires Sound() && t in types.ref && types.ref[t] == 0
      ensures types.OperandsOk(t) && Can(FreeType(t)) && Do(FreeType(t)).Sound()
      ensures Do(FreeType(t)) == Books(types.DropType(t), links, default)
    {
      types.DropTypeBalanced(t);
      SamePairs(Do(FreeType(t)));
    }

    /** Nothing is paired anew when the same fields are counted and on rings. */
    lemma SamePairs(r: Books)
      requires Sound() && r.default == default && r.links == links
      requires forall g :: g in r.types.typeOf <==> g in types.typeOf
      ensures forall g :: g in r.types.typeOf.Keys + r.links.link.Keys ==> r.Paired(g)
    {
      forall g | g in r.types.typeOf.Keys + r.links.link.Keys
        ensures r.Paired(g)
      {
        assert Paired(g);
      }
    }

    /** Every routine keeps the counts balanced and the rings whole. */
    lemma StepSound(op: Op)
      requires Sound() && Can(op)
      ensures Do(op).Sound()
    {
      match op {
        case NewField(f, b) => NewFieldStep(f, b);
        case DupField(src, f, b) => DupFieldStep(src, f, b);
        case LinkField(src, f) => LinkFieldStep(src, f);
        case FreeField(f) => FreeFieldStep(f);
        case SetType(f, t) => SetTypeStep(f, t);
        case NewType(t, count) => NewTypeStep(t, count);
        case LinkType(t, a, b) => LinkTypeStep(t, a, b);
        case FreeType(t) => FreeTypeStep(t);
      }
    }

    /** What a step does to the fields: who has which type, which field leads to which, and who has which buffer. */
    lemma FieldsExact(op: Op)
      requires Sound() && Can(op)
      ensures var t, l, b := types.typeOf, links.link, links.buf;
        var r := Do(op);
        match op
        case NewField(f, m) =>
          && default in t && r.types.typeOf == t[f := t[default]]
          && r.links.link == l[f := f] && r.links.buf == b[f := m]
        case DupField(src, f, m) =>
          && src in t && r.types.typeOf == t[f := t[src]]
          && r.links.link == l[f := f] && r.links.buf == b[f := m]
        case LinkField(src, f) =>
          && src in t && src in b && r.types.typeOf == t[f := t[src]]
          && r.links.link == l[f := l[src]][src := f] && r.links.buf == b[f := b[src]]
        case FreeField(f) =>
          && r.types.typeOf == t - {f} && r.links.buf == b - {f}
          && exists before :: before in l && l[before] == f && r.links.link == l[before := l[f]] - {f}
        case SetType(f, to) =>
          r.types.typeOf == t[f := to] && r.links == links
        case _ =>
          r.types.typeOf == t && r.links == links
    {
      match op {
        case NewField(f, m) => NewFieldStep(f, m);
        case DupField(src, f, m) => DupFieldStep(src, f, m);
        case LinkField(src, f) => LinkFieldStep(src, f);
        case FreeField(f) =>
          FreeFieldStep(f);
          var before := links.Before(f);
          assert links.link[f] == f ==> links.link[before := links.link[f]] - {f} == links.link - {f} by {
            links.AloneIffSelfLinked(f);
          }
        case SetType(f, to) =>
          SetTypeStep(f, to);
          assert (types.typeOf - {f})[f := to] == types.typeOf[f := to];
        case _ =>
      }
    }

    /** What it does to the types: which there are, what they are made of, and where their counts started. */
    lemma TypesExact(op: Op)
      requires Sound() && Can(op)
      ensures var l, r := types, Do(op).types;
        match op
        case NewType(t, count) =>
          r.left == l.left[t := null] && r.right == l.right[t := null] && r.initial == l.initial[t := count]
        case LinkType(t, a, b) =>
          r.left == l.left[t := a] && r.right == l.right[t := b] && r.initial == l.initial[t := 0]
        case FreeType(t) =>
          r.left == l.left - {t} && r.right == l.right - {t} && r.initial == l.initial - {t}
        case _ =>
          r.left == l.left && r.right == l.right && r.initial == l.initial
    {
    }

    ghost predicate CanRun(ops: seq<Op>)
      requires Sound()
      decreases |ops|
    {
      ops == [] || (Can(ops[0]) && (StepSound(ops[0]); Do(ops[0]).CanRun(ops[1..])))
    }

    ghost function Run(ops: seq<Op>): (r: Books)
      requires Sound() && CanRun(ops)
      ensures r.Sound()
      decreases |ops|
    {
      if ops == [] then this else (StepSound(ops[0]); Do(ops[0]).Run(ops[1..]))
    }

    /** Whether op releases the memory b. */
    ghost predicate Releases(op: Op, b: Buffer)
      requires Sound() && Can(op)
    {
      b in links.rings && b !in Do(op).links.rings
    }

    /** How often a run releases the memory b. */
    ghost function Releasings(ops: seq<Op>, b: Buffer): nat
      requires Sound() && CanRun(ops)
      decreases |ops|
    {
      if ops == [] then 0
      else (StepSound(ops[0]); (if Releases(ops[0], b) then 1 else 0) + Do(ops[0]).Releasings(ops[1..], b))
    }
  }

  /** The books of a store that has just been made. */
  function Start(d: Field): Books {
    Books(TypeLedger.Ledger(map[d := null], map[], map[], map[], map[]), RingLedger.Ledger(map[], map[], map[], {}), d)
  }

  lemma StartSound(d: Field)
    ensures Start(d).Sound()
  {
  }

  /** Only freeing the last field of a ring releases memory; released memory is never in use again. */
  lemma ReleaseStep(s: Books, op: Op, b: Buffer)
    requires s.Sound() && s.Can(op)
    ensures s.Releases(op, b) <==> op.FreeField? && b in s.links.rings && s.links.rings[b] == [op.f]
    ensures b in s.Do(op).links.released <==> b in s.links.released || s.Releases(op, b)
    ensures s.Seen(b) ==> s.Do(op).Seen(b)
  {
    match op {
      case FreeField(f) =>
        s.links.AloneIffSelfLinked(f);
        if b in s.links.rings {
          assert s.links.RingOk(b);
          if s.links.rings[b] == [f] {
            assert s.links.LinkOk(b, 0);
          }
        }
      case LinkField(src, f) =>
        assert s.links.MemberOk(src);
      case _ =>
    }
  }

  /** Over any run, a memory is released at most once, and it is released exactly if it ends up so. */
  lemma {:induction false} ReleasedOnce(s: Books, ops: seq<Op>, b: Buffer)
    requires s.Sound() && s.CanRun(ops)
    ensures s.Releasings(ops, b) <= 1
    ensures b in s.links.released ==> s.Releasings(ops, b) == 0
    ensures b in s.Run(ops).links.released <==> b in s.links.released || s.Releasings(ops, b) == 1
    decreases |ops|
  {
    if ops != [] {
      s.StepSound(ops[0]);
      ReleaseStep(s, ops[0], b);
      if b in s.links.released {
        assert b !in s.links.rings by {
          assert b in s.links.rings ==> s.links.RingOk(b);
        }
      }
      ReleasedOnce(s.Do(ops[0]), ops[1..], b);
    }
  }

  /** After any run, two fields share memory exactly when they are in the same ring. */
  lemma RingsAreBuffers(s: Books, ops: seq<Op>, f: Field, g: Field)
    requires s.Sound() && s.CanRun(ops)
    requires var l := s.Run(ops).links; f in l.link && g in l.link
    ensures var l := s.Run(ops).links;
      && f in l.buf && g in l.buf && l.buf[f] != null && l.buf[f] in l.rings && l.buf[f] !in l.released
      && f in l.rings[l.buf[f]] && (g in l.rings[l.buf[f]] <==> l.buf[g] == l.buf[f])
  {
    var l := s.Run(ops).links;
    l.Stands(f);
    l.Stands(g);
    if g in l.rings[l.buf[f]] {
      assert l.LinkOk(l.buf[f], RingLedger.Index(l.rings[l.buf[f]], g));
    }
  }

  /** After any run, a type's count is its initial value plus the fields and linked types that use it. */
  lemma CountsUses(s: Books, ops: seq<Op>, t: FieldType)
    requires s.Sound() && s.CanRun(ops) && t in s.Run(ops).types.ref
    ensures var l := s.Run(ops).types; t in l.initial && l.ref[t] == l.initial[t] + l.Uses(t)
    ensures var l := s.Run(ops).types; l.ref[t] == 0 ==>
      (forall f :: f in l.typeOf ==> l.typeOf[f] != t) && (forall u :: u in l.left ==> l.left[u] != t)
      && forall u :: u in l.right ==> l.right[u] != t
  {
    var l := s.Run(ops).types;
    assert l.CountOk(t);
    if l.ref[t] == 0 {
      l.ZeroIsUnused(t);
    }
  }
}
