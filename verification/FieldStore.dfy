/**
 * Allocating, linking and releasing fields and field types. The store carries two ghost ledgers, of who references
 * which type and of who shares which buffer; its objects always agree with them, and each routine is one of the steps
 * that FormRuns strings together.
 */
module FieldStore {
  import opened FormTypes
  import opened Rings
  import opened FieldBuffer
  import TypeLedger
  import RingLedger
  import FormRuns

  class Store {
    const defaultField: Field
    ghost var types: TypeLedger.Ledger
    ghost var links: RingLedger.Ledger

    constructor (look: Look)
      ensures Valid() && Books() == FormRuns.Start(defaultField)
    {
      var f := new Field(look);
      defaultField := f;
      types, links := FormRuns.Start(f).types, FormRuns.Start(f).links;
      new;
      FormRuns.StartSound(defaultField);
    }

    ghost function Books(): FormRuns.Books
      reads this`types, this`links
    {
      FormRuns.Books(types, links, defaultField)
    }

    // ----- What ties the objects to the ledgers -----

    static predicate OperandTied(l: TypeLedger.Ledger, t: FieldType) {
      && t in l.left && t in l.right && t.left == l.left[t] && t.right == l.right[t]
      && (!t.linked ==> t.left == null && t.right == null)
    }

    static ghost predicate OperandsTied(l: TypeLedger.Ledger) {
      forall t {:trigger OperandTied(l, t)} :: t in l.left.Keys ==> OperandTied(l, t)
    }

    ghost predicate TypesTied()
      reads this`types, types.typeOf.Keys`ftype, types.ref.Keys`ref
    {
      && types.Balanced() && OperandsTied(types)
      && (forall f {:trigger f.ftype} :: f in types.typeOf ==> f.ftype == types.typeOf[f])
      && (forall t {:trigger t.ref} :: t in types.ref ==> t.ref == types.ref[t])
    }

    ghost predicate LinksTied()
      reads this`links, links.link.Keys`link, links.link.Keys`buf
    {
      && links.Sound()
      && (forall f {:trigger f.link} {:trigger f.buf} ::
           f in links.link ==> f in links.buf && f.link == links.link[f] && f.buf == links.buf[f])
    }

    ghost predicate Valid()
      reads this`types, types.typeOf.Keys`ftype, types.ref.Keys`ref
      reads this`links, links.link.Keys`link, links.link.Keys`buf
    {
      TypesTied() && LinksTied() && Books().Sound()
    }

    /** A field that has been made and not been freed since. */
    ghost predicate Live(f: Field)
      reads this`links
    {
      f in links.link
    }

    // ----- References to types -----

    /** The type whose count changes when a field takes t or gives it up. */
    static function Counted(t: FieldType?): set<FieldType> {
      if t == null then {} else {t}
    }

    /** Changes the count of t, if it is a type at all. */
    static method Adjust(ghost ref: map<FieldType, int>, t: FieldType?, n: int)
      requires (forall u {:trigger u.ref} :: u in ref ==> u.ref == ref[u]) && (t == null || t in ref)
      modifies Counted(t)`ref
      ensures forall u {:trigger u.ref} :: u in ref ==> u.ref == TypeLedger.Counted(ref, t, n)[u]
    {
      if t != null {
        t.ref := t.ref + n;
      }
    }

    /** Other types keep their operands when fields or counts change. */
    static lemma SameOperands(l: TypeLedger.Ledger, r: TypeLedger.Ledger)
      requires OperandsTied(l) && r.left == l.left && r.right == l.right
      ensures OperandsTied(r)
    {
      forall t | t in r.left
        ensures OperandTied(r, t)
      {
        assert OperandTied(l, t);
      }
    }

    /** Gives a field that is not counted type t; no type when the type's argument cannot be had. */
    method TakeType(f: Field, t: FieldType?, argOk: bool) returns (ok: bool)
      requires TypesTied() && f !in types.typeOf && types.Known(t)
      modifies this`types, f`ftype, Counted(t)`ref
      ensures ok == Copyable(t, argOk) && f.ftype == if ok then t else null
      ensures TypesTied() && types == old(types).Attach(f, f.ftype)
    {
      var err := t != null && t.hasArgs && !argOk;
      f.ftype := t;
      if err {
        f.ftype := null;
      } else if f.ftype != null {
        Adjust(types.ref, f.ftype, 1);
      }
      ok := !err;
      types.AttachBalanced(f, f.ftype);
      SameOperands(types, types.Attach(f, f.ftype));
      types := types.Attach(f, f.ftype);
    }

    /** Gives dst, not counted so far, the type of src. */
    method CopyType(dst: Field, src: Field, argOk: bool) returns (ok: bool)
      requires TypesTied() && dst !in types.typeOf && src in types.typeOf
      modifies this`types, dst`ftype, Counted(src.ftype)`ref
      ensures ok <==> old(src.ftype) == null || !old(src.ftype).hasArgs || argOk
      ensures ok == Copyable(old(types).typeOf[src], argOk) && dst.ftype == if ok then old(types).typeOf[src] else null
      ensures TypesTied() && old(types).Known(dst.ftype) && types == old(types).Attach(dst, dst.ftype)
    {
      assert types.TypeOk(src);
      ok := TakeType(dst, src.ftype, argOk);
    }

    /** Gives up a field's reference to its type; the field is no longer counted. */
    method FreeType(field: Field)
      requires TypesTied() && field in types.typeOf
      modifies this`types, Counted(field.ftype)`ref
      ensures TypesTied() && old(types).TypeOk(field) && types == old(types).Detach(field)
    {
      assert types.TypeOk(field);
      if field.ftype != null {
        Adjust(types.ref, field.ftype, -1);
      }
      types.DetachBalanced(field);
      SameOperands(types, types.Detach(field));
      types := types.Detach(field);
    }

    /** Whether a copy of a type's argument can be made. */
    static predicate Copyable(t: FieldType?, argOk: bool) {
      t == null || !t.hasArgs || argOk
    }

    // ----- Rings -----

    /** Gives a field that leads to itself a buffer of its own. */
    method Allocate(f: Field, size: nat)
      requires LinksTied() && f !in links.link && f.link == f
      modifies f`buf, this`links
      ensures LinksTied() && f.buf != null && fresh(f.buf) && f.buf.Length == size
      ensures links == old(links).Create(f, f.buf)
    {
      var b := new char[size];
      f.buf := b;
      links.CreateSound(f, b);
      links := links.Create(f, b);
    }

    /** Puts g into the ring of f, right behind it. */
    method LinkBehind(f: Field, g: Field)
      requires LinksTied() && f in links.link && g !in links.link
      modifies f`link, g`link, g`buf, this`links
      ensures LinksTied() && old(links).MemberOk(f) && links == old(links).Join(f, g) && g.buf == old(f.buf)
    {
      links.JoinSound(f, g);
      g.link := f.link;
      f.link := g;
      g.buf := f.buf;
      links := links.Join(f, g);
      forall h | h in links.link
        ensures h in links.buf && h.link == links.link[h] && h.buf == links.buf[h]
      {
        assert h != g ==> old(h.link == links.link[h] && h.buf == links.buf[h]);
      }
    }

    /** The walk around the ring to the field that leads to f. */
    method FindBefore(field: Field) returns (f: Field)
      requires LinksTied() && field in links.link
      ensures f in links.link && f.link == field && links.link[f] == field
    {
      links.Stands(field);
      ghost var b := links.buf[field];
      ghost var s := links.rings[b];
      ghost var i := RingLedger.Index(s, field);
      f := field;
      ghost var q: nat := i;
      while f.link != field
        invariant q < |s| && f == s[q] && f in links.link
        decreases if q >= i then |s| - q + i else i - q
      {
        assert links.LinkOk(b, q) && links.LinkOk(b, Next(q, |s|));
        f := f.link;
        q := Next(q, |s|);
      }
    }

    /** Takes a field out of its ring; the buffer of a field that is alone is released. */
    method Leave(field: Field)
      requires LinksTied() && field in links.link
      modifies this`links, {links.Before(field)}`link
      ensures LinksTied() && old(links).MemberOk(field) && links == old(links).Leave(field, old(links).Before(field))
    {
      ghost var b := links.Before(field);
      links.LeaveSound(field, b);
      links.Stands(field);
      if field == field.link {
        assert field.buf in links.rings && field.buf !in links.released;   // no buffer is freed twice
      } else {
        var f := FindBefore(field);
        links.StandsBefore(field, f);
        links.StandsBefore(field, b);
        assert f == b;
        f.link := field.link;
      }
      links := links.Leave(field, b);
      forall h | h in links.link
        ensures h in links.buf && h.link == links.link[h] && h.buf == links.buf[h]
      {
        assert old(h.link == links.link[h] && h.buf == links.buf[h]);
      }
    }

    // ----- Freeing a field -----

    /** A live field, or one whose creation has just failed. */
    ghost predicate Freeable(f: Field)
      reads this`types, this`links, f`link, f`buf
    {
      f in types.typeOf && (f in links.link || (f.link == f && f.buf == null))
    }

    /** What the ring ledger becomes when f is freed. */
    static ghost function Without(l: RingLedger.Ledger, f: Field): RingLedger.Ledger
      requires l.Sound()
    {
      if f in l.link then (l.Stands(f); l.Leave(f, l.Before(f))) else l
    }

    /** The field whose link changes when f leaves its ring. */
    static ghost function Leads(l: RingLedger.Ledger, f: Field): set<Field>
      requires l.Sound()
    {
      if f in l.link then {l.Before(f)} else {}
    }

    /** The part of free_field that deals with the ring and the buffer. */
    method FreeRing(field: Field)
      requires LinksTied() && (field in links.link || (field.link == field && field.buf == null))
      modifies this`links, Leads(links, field)`link
      ensures LinksTied() && links == Without(old(links), field)
    {
      if field in links.link {
        assert links.MemberOk(field);
      }
      if field == field.link {
        if field.buf != null {
          Leave(field);
        }
      } else {
        Leave(field);
      }
    }

    /** The part of free_field that follows the checks. */
    method Free(field: Field)
      requires TypesTied() && LinksTied() && Freeable(field)
      modifies this`types, this`links, Counted(field.ftype)`ref, Leads(links, field)`link
      ensures TypesTied() && old(types).TypeOk(field) && types == old(types).Detach(field)
      ensures LinksTied() && links == Without(old(links), field)
    {
      FreeRing(field);
      FreeType(field);
    }

    /** Frees a field that is on no form; otherwise nothing changes. */
    method FreeField(field: Field?) returns (res: Code)
      requires Valid() && (field != null ==> Live(field))
      modifies this`types, this`links, (if field == null then {} else Counted(field.ftype))`ref
      modifies (if field == null then {} else Leads(links, field))`link
      ensures Valid()
      ensures res == if field == null then E_BAD_ARGUMENT else if field.form != null then E_CONNECTED else E_OK
      ensures res != E_OK ==> Books() == old(Books())
      ensures res == E_OK ==>
        old(Books()).Can(FormRuns.FreeField(field)) && Books() == old(Books()).Do(FormRuns.FreeField(field))
    {
      if field == null {
        return E_BAD_ARGUMENT;
      } else if field.form != null {
        return E_CONNECTED;
      }
      Books().FreeFieldStep(field);
      assert Books().Paired(field);
      Free(field);
      res := E_OK;
    }

    // ----- Linked fields -----

    /** What errno says after a call that should have made r. */
    static function ErrorCode(argsOk: bool, r: Field?): Code {
      if !argsOk then E_BAD_ARGUMENT else if r == null then E_SYSTEM_ERROR else E_OK
    }

    /** Links a new field in and gives it its type, if the argument can be copied. */
    method Behind(field: Field, f: Field, argOk: bool) returns (ok: bool)
      requires TypesTied() && LinksTied() && field in types.typeOf && field in links.link
      requires f !in types.typeOf && f !in links.link
      modifies this`types, this`links, Counted(field.ftype)`ref, field`link, f`link, f`buf, f`ftype
      ensures ok == Copyable(old(types).typeOf[field], argOk) && old(types).TypeOk(field)
      ensures TypesTied() && types == old(types).Attach(f, if ok then old(types).typeOf[field] else null)
      ensures LinksTied() && old(links).MemberOk(field) && links == old(links).Join(field, f) && f.buf == old(field.buf)
    {
      assert types.TypeOk(field);
      LinkBehind(field, f);
      ok := CopyType(f, field, argOk);
    }

    /** Frees a field that has just been linked behind another one and got no type. */
    method GiveUp(f: Field, field: Field, ghost types0: TypeLedger.Ledger, ghost links0: RingLedger.Ledger)
      requires TypesTied() && f !in types0.typeOf && types == types0.Attach(f, null)
      requires LinksTied() && links0.Sound() && field in links0.link && f !in links0.link
      requires links0.MemberOk(field) && links == links0.Join(field, f)
      modifies this`types, this`links, Counted(f.ftype)`ref, field`link
      ensures TypesTied() && LinksTied() && types == types0 && links == links0
    {
      types0.AttachDetach(f, null);
      JoinWithout(links0, field, f);
      assert f in types.typeOf && f in links.link;
      Free(f);
    }

    static lemma JoinWithout(l: RingLedger.Ledger, f: Field, g: Field)
      requires l.Sound() && f in l.link && g !in l.link
      ensures l.MemberOk(f) && l.Join(f, g).Sound() && Without(l.Join(f, g), g) == l
    {
      l.JoinBefore(f, g);
      l.JoinLeave(f, g);
    }

    /** Links a new field in; or, when it gets no type, frees it again. */
    method BehindOrNot(field: Field, f: Field, argOk: bool) returns (ok: bool)
      requires TypesTied() && LinksTied() && field in types.typeOf && field in links.link
      requires f !in types.typeOf && f !in links.link
      modifies this`types, this`links, Counted(field.ftype)`ref, field`link, f`link, f`buf, f`ftype
      ensures ok == Copyable(old(types).typeOf[field], argOk) && old(types).TypeOk(field) && old(links).MemberOk(field)
      ensures TypesTied() && types == if ok then old(types).Attach(f, old(types).typeOf[field]) else old(types)
      ensures LinksTied() && links == if ok then old(links).Join(field, f) else old(links)
      ensures ok ==> f.buf == old(field.buf)
    {
      ghost var types0, links0 := types, links;
      ok := Behind(field, f, argOk);
      if !ok {
        GiveUp(f, field, types0, links0);
      }
    }

    /** A further field that shares the buffer of field, right behind it in its ring; or nothing changes. */
    method LinkField(field: Field?, frow: int, fcol: int, fieldOk: bool, argOk: bool) returns (r: Field?, err: Code)
      requires Valid() && (field != null ==> Live(field))
      modifies this`types, this`links, (if field == null then {} else Counted(field.ftype))`ref
      modifies (if field == null then {} else {field})`link
      ensures Valid()
      ensures r != null <==> field != null && frow >= 0 && fcol >= 0 && fieldOk && Copyable(old(field.ftype), argOk)
      ensures err ==
        if field == null || frow < 0 || fcol < 0 then E_BAD_ARGUMENT else if r == null then E_SYSTEM_ERROR else E_OK
      ensures r == null ==> Books() == old(Books())
      ensures r != null ==> fresh(r) && Unplaced(r, frow, fcol) && r.traits == field.traits && r.buf == field.buf
      ensures r != null ==> r.newPage == defaultField.newPage
      ensures r != null ==>
        old(Books()).Can(FormRuns.LinkField(field, r)) && Books() == old(Books()).Do(FormRuns.LinkField(field, r))
    {
      r, err := null, E_BAD_ARGUMENT;
      if field != null && frow >= 0 && fcol >= 0 {
        err := E_SYSTEM_ERROR;
        if fieldOk {
          r := Linked(field, frow, fcol, argOk);
          err := ErrorCode(true, r);
        }
      }
    }

    /** The part of link_field that follows a successful allocation. */
    method Linked(field: Field, frow: int, fcol: int, argOk: bool) returns (r: Field?)
      requires Valid() && Live(field)
      modifies this`types, this`links, Counted(field.ftype)`ref, field`link
      ensures Valid() && (r != null <==> Copyable(old(field.ftype), argOk))
      ensures r == null ==> Books() == old(Books())
      ensures r != null ==> fresh(r) && Unplaced(r, frow, fcol) && r.traits == field.traits && r.buf == field.buf
      ensures r != null ==> r.newPage == defaultField.newPage
      ensures r != null ==>
        old(Books()).Can(FormRuns.LinkField(field, r)) && Books() == old(Books()).Do(FormRuns.LinkField(field, r))
    {
      var f := new Field.Copy(defaultField, field.traits, frow, fcol);
      var ok := LinkIn(field, f, argOk);
      r := if ok then f else null;
    }

    /** BehindOrNot as a step of the books. */
    method LinkIn(field: Field, f: Field, argOk: bool) returns (ok: bool)
      requires Valid() && Live(field) && f !in types.typeOf
      modifies this`types, this`links, Counted(field.ftype)`ref, field`link, f`link, f`buf, f`ftype
      ensures Valid() && ok == Copyable(old(field.ftype), argOk)
      ensures !ok ==> Books() == old(Books())
      ensures ok ==> f.buf == old(field.buf)
      ensures ok ==>
        old(Books()).Can(FormRuns.LinkField(field, f)) && Books() == old(Books()).Do(FormRuns.LinkField(field, f))
    {
      Books().LinkFieldStep(field, f);
      Books().Unknown(f);
      assert Books().Paired(field);
      ok := BehindOrNot(field, f, argOk);
    }

    // ----- Fields with a buffer of their own -----

    /** Frees a new field that got no memory. */
    method Discard(f: Field, ghost types0: TypeLedger.Ledger)
      requires TypesTied() && LinksTied() && f.link == f && f.buf == null && f !in links.link
      requires f !in types0.typeOf && types0.Known(f.ftype) && types == types0.Attach(f, f.ftype)
      modifies this`types, this`links, Counted(f.ftype)`ref
      ensures TypesTied() && LinksTied() && types == types0 && links == old(links)
    {
      types0.AttachDetach(f, f.ftype);
      assert f in types.typeOf;
      Free(f);
    }

    /** Gives a new field the type of src and a memory of its own; or, after a failure, frees it. */
    method Equip(f: Field, src: Field, size: nat, argOk: bool, bufOk: bool) returns (ok: bool)
      requires TypesTied() && LinksTied() && src in types.typeOf && f !in types.typeOf && f !in links.link
      requires f.link == f && f.buf == null
      modifies this`types, this`links, Counted(src.ftype)`ref, f`ftype, f`buf
      ensures ok == (Copyable(old(types).typeOf[src], argOk) && bufOk) && old(types).TypeOk(src)
      ensures TypesTied() && types == if ok then old(types).Attach(f, old(types).typeOf[src]) else old(types)
      ensures ok ==> f.buf != null && fresh(f.buf) && f.buf.Length == size && links == old(links).Create(f, f.buf)
      ensures LinksTied() && (!ok ==> links == old(links))
    {
      ghost var types0 := types;
      assert types.TypeOk(src);
      ok := CopyType(f, src, argOk);
      if ok && bufOk {
        Allocate(f, size);
      } else {
        Discard(f, types0);
        ok := false;
      }
    }

    /** A field alone in its ring, with the default field's type and blank buffers; or nothing changes. */
    method NewField(rows: int, cols: int, frow: int, fcol: int, nrow: int, nbuf: int,
                    fieldOk: bool, argOk: bool, bufOk: bool) returns (r: Field?, err: Code)
      requires Valid()
      modifies this`types, this`links, Counted(defaultField.ftype)`ref
      ensures Valid()
      ensures r != null <==>
        && rows > 0 && cols > 0 && frow >= 0 && fcol >= 0 && nrow >= 0 && nbuf >= 0
        && fieldOk && Copyable(old(defaultField.ftype), argOk) && bufOk && ToShort(nbuf) >= -1
      ensures err ==
        if rows <= 0 || cols <= 0 || frow < 0 || fcol < 0 || nrow < 0 || nbuf < 0 then E_BAD_ARGUMENT
        else if r == null then E_SYSTEM_ERROR else E_OK
      ensures r == null ==> Books() == old(Books())
      ensures r != null ==> fresh(r) && r.buf != null && fresh(r.buf) && Unplaced(r, frow, fcol) && Sized(r)
      ensures r != null ==>
        r.traits == Traits(ToShort(rows), ToShort(cols), nrow, ToShort(nbuf), rows + nrow, cols, r.traits.look)
      ensures r != null ==> r.traits.look == defaultField.traits.look
      ensures r != null ==> r.newPage == defaultField.newPage
      ensures r != null ==> BlankRows(r.buf[..], (rows + nrow) * cols, ToShort(nbuf))
      ensures r != null ==>
        old(Books()).Can(FormRuns.NewField(r, r.buf)) && Books() == old(Books()).Do(FormRuns.NewField(r, r.buf))
    {
      r, err := null, E_BAD_ARGUMENT;
      if SizesOk(rows, cols, frow, fcol, nrow, nbuf) {
        err := E_SYSTEM_ERROR;
        if fieldOk {
          var traits := NewTraits(rows, cols, nrow, nbuf, defaultField.traits.look);
          var f := new Field.Copy(defaultField, traits, frow, fcol);
          // a count below -1 asks for more memory than there can be
          var ok := EquipWithBlanks(f, (rows + nrow) * cols, traits.nbuf, argOk, bufOk && traits.nbuf >= -1);
          if ok {
            r, err := f, E_OK;
          }
        }
      }
    }

    /** The members that new_field sets, some of which are shorts. */
    static function NewTraits(rows: int, cols: int, nrow: int, nbuf: int, look: Look): Traits {
      Traits(ToShort(rows), ToShort(cols), nrow, ToShort(nbuf), rows + nrow, cols, look)
    }

    static predicate SizesOk(rows: int, cols: int, frow: int, fcol: int, nrow: int, nbuf: int) {
      rows > 0 && cols > 0 && frow >= 0 && fcol >= 0 && nrow >= 0 && nbuf >= 0
    }

    /** Equips a new field with blank buffers, as a step of the books. */
    method EquipWithBlanks(f: Field, cells: nat, nbuf: int, argOk: bool, bufOk: bool) returns (ok: bool)
      requires Valid() && f !in types.typeOf && f.link == f && f.buf == null && (bufOk ==> nbuf >= -1)
      modifies this`types, this`links, Counted(defaultField.ftype)`ref, f`ftype, f`buf
      ensures Valid() && ok == (Copyable(old(defaultField.ftype), argOk) && bufOk)
      ensures !ok ==> Books() == old(Books())
      ensures ok ==> f.buf != null && fresh(f.buf) && f.buf.Length == RowStart(cells, nbuf + 1)
      ensures ok ==> BlankRows(f.buf[..], cells, nbuf)
      ensures ok ==>
        var op := FormRuns.NewField(f, f.buf); old(Books()).Can(op) && Books() == old(Books()).Do(op)
    {
      Books().Unknown(f);
      ghost var before := Books();
      ok := Equip(f, defaultField, if bufOk then RowStart(cells, nbuf + 1) else 0, argOk, bufOk);
      if ok {
        before.NewFieldStep(f, f.buf);
        Prefill(f.buf, cells, nbuf);
      }
    }

    /** A field alone in its ring, with the type of field and a copy of its buffers; or nothing changes. */
    method DupField(field: Field?, frow: int, fcol: int, fieldOk: bool, argOk: bool, bufOk: bool)
      returns (r: Field?, err: Code)
      requires Valid() && (field != null ==> Live(field) && Sized(field))
      modifies this`types, this`links, (if field == null then {} else Counted(field.ftype))`ref
      ensures Valid()
      ensures r != null <==>
        field != null && frow >= 0 && fcol >= 0 && fieldOk && Copyable(old(field.ftype), argOk) && bufOk
      ensures err ==
        if field == null || frow < 0 || fcol < 0 then E_BAD_ARGUMENT else if r == null then E_SYSTEM_ERROR else E_OK
      ensures r == null ==> Books() == old(Books())
      ensures r != null ==> fresh(r) && r.buf != null && fresh(r.buf)
      ensures r != null ==> Unplaced(r, frow, fcol) && r.traits == field.traits
      ensures r != null ==> r.newPage == defaultField.newPage && r.buf[..] == old(field.buf[..])
      ensures r != null ==>
        var op := FormRuns.DupField(field, r, r.buf); old(Books()).Can(op) && Books() == old(Books()).Do(op)
    {
      r, err := null, E_BAD_ARGUMENT;
      if field != null && frow >= 0 && fcol >= 0 {
        err := E_SYSTEM_ERROR;
        if fieldOk {
          r := Duplicate(field, frow, fcol, argOk, bufOk);
          err := ErrorCode(true, r);
        }
      }
    }

    /** The part of dup_field that follows a successful allocation. */
    method Duplicate(field: Field, frow: int, fcol: int, argOk: bool, bufOk: bool) returns (r: Field?)
      requires Valid() && Live(field) && Sized(field)
      modifies this`types, this`links, Counted(field.ftype)`ref
      ensures Valid() && (r != null <==> Copyable(old(field.ftype), argOk) && bufOk)
      ensures r == null ==> Books() == old(Books())
      ensures r != null ==> fresh(r) && r.buf != null && fresh(r.buf)
      ensures r != null ==> Unplaced(r, frow, fcol) && r.traits == field.traits
      ensures r != null ==> r.newPage == defaultField.newPage && r.buf[..] == old(field.buf[..])
      ensures r != null ==>
        var op := FormRuns.DupField(field, r, r.buf); old(Books()).Can(op) && Books() == old(Books()).Do(op)
    {
      var f := new Field.Copy(defaultField, field.traits, frow, fcol);
      var ok := EquipWithCopy(f, field, argOk, bufOk);
      r := if ok then f else null;
    }

    /** Equips a new field as a copy of field, as a step of the books. */
    method EquipLike(f: Field, field: Field, size: nat, argOk: bool, bufOk: bool) returns (ok: bool)
      requires Valid() && Live(field) && f !in types.typeOf && f.link == f && f.buf == null
      modifies this`types, this`links, Counted(field.ftype)`ref, f`ftype, f`buf
      ensures Valid() && ok == (Copyable(old(field.ftype), argOk) && bufOk)
      ensures !ok ==> Books() == old(Books())
      ensures ok ==> f.buf != null && fresh(f.buf) && f.buf.Length == size
      ensures ok ==>
        var op := FormRuns.DupField(field, f, f.buf); old(Books()).Can(op) && Books() == old(Books()).Do(op)
    {
      Books().Unknown(f);
      assert Books().Paired(field);
      ghost var before := Books();
      ok := Equip(f, field, size, argOk, bufOk);
      if ok {
        before.DupFieldStep(field, f, f.buf);
      }
    }

    /** The same with the contents of field's buffers. */
    method EquipWithCopy(f: Field, field: Field, argOk: bool, bufOk: bool) returns (ok: bool)
      requires Valid() && Live(field) && field.buf != null && f !in types.typeOf && f.link == f && f.buf == null
      modifies this`types, this`links, Counted(field.ftype)`ref, f`ftype, f`buf
      ensures Valid() && ok == (Copyable(old(field.ftype), argOk) && bufOk)
      ensures !ok ==> Books() == old(Books())
      ensures ok ==> f.buf != null && fresh(f.buf) && f.buf[..] == old(field.buf[..])
      ensures ok ==>
        var op := FormRuns.DupField(field, f, f.buf); old(Books()).Can(op) && Books() == old(Books()).Do(op)
    {
      ok := EquipLike(f, field, field.buf.Length, argOk, bufOk);
      if ok {
        CopyBuffer(f.buf, field.buf);
      }
    }

    /** What is in a buffer is no matter of the books. */
    method CopyBuffer(to: Buffer, from: Buffer)
      requires Valid() && to.Length == from.Length && to != from
      modifies to
      ensures Valid() && to[..] == from[..]
    {
      CopyCells(to, from);
    }

    // ----- Field types -----

    /** Gives a field, or the default field, another type; without one when the argument cannot be made. */
    method SetFieldType(field: Field?, t: FieldType?, argOk: bool) returns (res: Code)
      requires Valid() && (field != null ==> Live(field)) && types.Known(t)
      modifies this`types, Normalize(field)`ftype, (Counted(Normalize(field).ftype) + Counted(t))`ref
      ensures Valid() && res == if t != null && t.hasArgs && !argOk then E_SYSTEM_ERROR else E_OK
      ensures var f := Normalize(field); f.ftype == if res == E_OK then t else null
      ensures var op := FormRuns.SetType(Normalize(field), if res == E_OK then t else null);
        old(Books()).Can(op) && Books() == old(Books()).Do(op)
    {
      var f := Normalize(field);
      assert Books().Paired(f);
      Books().SetTypeStep(f, if Copyable(t, argOk) then t else null);
      var ok := Retype(f, t, argOk);
      res := if ok then E_OK else E_SYSTEM_ERROR;
    }

    /** Gives up a field's type for t. */
    method Retype(f: Field, t: FieldType?, argOk: bool) returns (ok: bool)
      requires TypesTied() && f in types.typeOf && types.Known(t)
      modifies this`types, f`ftype, (Counted(f.ftype) + Counted(t))`ref
      ensures ok == Copyable(t, argOk) && f.ftype == (if ok then t else null) && old(types).TypeOk(f)
      ensures TypesTied() && types == old(types).Detach(f).Attach(f, f.ftype)
    {
      FreeType(f);
      ok := TakeType(f, t, argOk);
    }

    function Normalize(field: Field?): Field {
      if field != null then field else defaultField
    }

    /** The ledger learns of a type whose operands have been counted. */
    ghost method Enter(t: FieldType)
      requires types.Balanced() && OperandsTied(types) && t !in types.ref && t.ref >= 0
      requires types.Known(t.left) && types.Known(t.right) && (!t.linked ==> t.left == null && t.right == null)
      requires forall f :: f in types.typeOf ==> f.ftype == types.typeOf[f]
      requires forall u :: u in types.ref ==>
        u.ref == TypeLedger.Counted(TypeLedger.Counted(types.ref, t.left, 1), t.right, 1)[u]
      modifies this`types
      ensures TypesTied() && types == old(types).AddType(t, t.left, t.right, t.ref)
    {
      ghost var before := types;
      types.AddTypeBalanced(t, t.left, t.right, t.ref);
      types := types.AddType(t, t.left, t.right, t.ref);
      forall u | u in types.left
        ensures OperandTied(types, u)
      {
        assert u != t ==> OperandTied(before, u);
      }
    }

    /** Lets in a type without operands, with the count that it has. */
    ghost method Register(t: FieldType)
      requires Valid() && t !in types.ref && t.ref >= 0 && t.left == null && t.right == null
      modifies this`types
      ensures Valid()
      ensures old(Books()).Can(FormRuns.NewType(t, t.ref)) && Books() == old(Books()).Do(FormRuns.NewType(t, t.ref))
    {
      Books().NewTypeStep(t, t.ref);
      Enter(t);
    }

    /** A type that the library comes with: nobody uses it yet, but it is counted once, so that it stays. */
    method Predefine(hasArgs: bool, hasChoice: bool) returns (t: FieldType)
      requires Valid()
      modifies this`types
      ensures Valid() && fresh(t) && t.resident && !t.linked && t.hasArgs == hasArgs && t.hasChoice == hasChoice
      ensures old(Books()).Can(FormRuns.NewType(t, 1)) && Books() == old(Books()).Do(FormRuns.NewType(t, 1))
    {
      t := new FieldType.Predefined(hasArgs, hasChoice);
      Register(t);
    }

    /** A new type without references; check tells whether the caller gave any checking function. */
    method NewFieldType(check: bool, typeOk: bool) returns (t: FieldType?, err: Code)
      requires Valid()
      modifies this`types
      ensures Valid() && (t != null <==> check && typeOk)
      ensures err == if !check then E_BAD_ARGUMENT else if typeOk then E_OK else E_SYSTEM_ERROR
      ensures t == null ==> Books() == old(Books())
      ensures t != null ==> fresh(t) && !t.linked && !t.resident
      ensures t != null ==>
        old(Books()).Can(FormRuns.NewType(t, 0)) && Books() == old(Books()).Do(FormRuns.NewType(t, 0))
    {
      t, err := null, E_BAD_ARGUMENT;
      if check {
        err := E_SYSTEM_ERROR;
        if typeOk {
          t := new FieldType();
          err := E_OK;
          Register(t);
        }
      }
    }

    /** A new type that accepts what either operand accepts, and refers to both. */
    method LinkFieldType(a: FieldType?, b: FieldType?, typeOk: bool) returns (t: FieldType?, err: Code)
      requires Valid() && types.Known(a) && types.Known(b)
      modifies this`types, (Counted(a) + Counted(b))`ref
      ensures Valid() && (t != null <==> a != null && b != null && typeOk)
      ensures err == if a == null || b == null then E_BAD_ARGUMENT else if typeOk then E_OK else E_SYSTEM_ERROR
      ensures t == null ==> Books() == old(Books())
      ensures t != null ==> fresh(t) && t.linked && !t.resident && t.left == a && t.right == b
      ensures t != null ==> t.hasArgs == (a.hasArgs || b.hasArgs) && t.hasChoice == (a.hasChoice || b.hasChoice)
      ensures t != null ==>
        old(Books()).Can(FormRuns.LinkType(t, a, b)) && Books() == old(Books()).Do(FormRuns.LinkType(t, a, b))
    {
      t, err := null, E_BAD_ARGUMENT;
      if a != null && b != null {
        err := E_SYSTEM_ERROR;
        if typeOk {
          t := new FieldType.Linked(a, b);
          err := E_OK;
          Books().LinkTypeStep(t, a, b);
          CountOperands(t, a, b);
        }
      }
    }

    /** Counts the operands of a new type, and lets it in. */
    method CountOperands(t: FieldType, a: FieldType, b: FieldType)
      requires TypesTied() && t !in types.ref && a in types.ref && b in types.ref
      requires t.linked && t.left == a && t.right == b && t.ref == 0
      modifies this`types, (Counted(a) + Counted(b))`ref
      ensures TypesTied() && types == old(types).AddType(t, a, b, 0)
    {
      Adjust(types.ref, a, 1);
      Adjust(TypeLedger.Counted(types.ref, a, 1), b, 1);
      Enter(t);
    }

    /** Releases a type without references that is not a predefined one; nothing refers to a released type. */
    method FreeFieldType(t: FieldType?) returns (res: Code)
      requires Valid() && types.Known(t)
      modifies this`types, (if t == null then {} else Counted(t.left) + Counted(t.right))`ref
      ensures Valid()
      ensures res == if t == null then E_BAD_ARGUMENT else if old(t.ref) != 0 || t.resident then E_CONNECTED else E_OK
      ensures res != E_OK ==> Books() == old(Books())
      ensures res == E_OK ==>
        old(Books()).Can(FormRuns.FreeType(t)) && Books() == old(Books()).Do(FormRuns.FreeType(t))
      ensures res == E_OK ==> forall f :: f in types.typeOf ==> f.ftype != t
      ensures res == E_OK ==> forall u :: u in types.left ==> u.left != t && u.right != t
    {
      if t == null {
        return E_BAD_ARGUMENT;
      }
      if t.ref != 0 || t.resident {
        return E_CONNECTED;
      }
      Books().FreeTypeStep(t);
      Release(t);
      res := E_OK;
    }

    /** The part of free_fieldtype that gives up the operands. */
    method Release(t: FieldType)
      requires TypesTied() && t in types.ref && t.ref == 0
      modifies this`types, (Counted(t.left) + Counted(t.right))`ref
      ensures TypesTied() && old(types).OperandsOk(t) && types == old(types).DropType(t)
      ensures forall f :: f in types.typeOf ==> f.ftype != t
      ensures forall u :: u in types.left ==> u.left != t && u.right != t
    {
      assert types.OperandsOk(t) && OperandTied(types, t);
      if t.linked {
        if t.left != null {
          Adjust(types.ref, t.left, -1);
        }
        if t.right != null {
          Adjust(TypeLedger.Counted(types.ref, t.left, -1), t.right, -1);
        }
      }
      ghost var before := types;
      types.ZeroIsUnused(t);
      types.DropTypeBalanced(t);
      types := types.DropType(t);
      forall u | u in types.left
        ensures OperandTied(types, u) && u.left != t && u.right != t
      {
        assert OperandTied(before, u);
      }
    }
  }
}
