/** Who references which field type, and the reference counts that should say so. */
module TypeLedger {
  import opened FormTypes
  import opened Counting

  /** The counts, that of t (if it is a type at all) changed by n. */
  function Counted(ref: map<FieldType, int>, t: FieldType?, n: int): map<FieldType, int>
    requires t == null || t in ref
  {
    if t == null then ref else ref[t := ref[t] + n]
  }

  /** The type of each live field, the operands, count and initial count of each live type. */
  datatype Ledger = Ledger(
    typeOf: map<Field, FieldType?>,
    left: map<FieldType, FieldType?>, right: map<FieldType, FieldType?>,
    ref: map<FieldType, int>, initial: map<FieldType, int>)
  {
    /** How many fields have type t, plus how often it is an operand of a live type. */
    ghost function Uses(t: FieldType?): nat {
      Count(typeOf, t) + Count(left, t) + Count(right, t)
    }

    predicate Known(t: FieldType?) {
      t == null || t in ref
    }

    ghost predicate CountOk(t: FieldType) {
      t in initial && t in ref && initial[t] >= 0 && ref[t] == initial[t] + Uses(t)
    }

    predicate OperandsOk(t: FieldType) {
      t in left && t in right && Known(left[t]) && Known(right[t])
    }

    predicate SameKeys(t: FieldType) {
      (t in left <==> t in ref) && (t in right <==> t in ref) && (t in initial <==> t in ref)
    }

    predicate TypeOk(f: Field) {
      f in typeOf && Known(typeOf[f])
    }

    /** Every count is its initial value plus the uses there are, and nothing refers to a released type. */
    ghost predicate Balanced() {
      && (forall t {:trigger SameKeys(t)} :: t in left.Keys + right.Keys + initial.Keys + ref.Keys ==> SameKeys(t))
      && (forall t {:trigger CountOk(t)} :: t in ref ==> CountOk(t))
      && (forall t {:trigger OperandsOk(t)} :: t in ref ==> OperandsOk(t))
      && (forall f {:trigger TypeOk(f)} :: f in typeOf ==> TypeOk(f))
    }

    function Bump(t: FieldType?, n: int): Ledger
      requires Known(t)
    {
      this.(ref := Counted(ref, t, n))
    }

    /** A field comes in with type t. */
    function Attach(f: Field, t: FieldType?): Ledger
      requires Known(t)
    {
      Bump(t, 1).(typeOf := typeOf[f := t])
    }

    /** A field goes, or gives up its type before it gets another. */
    function Detach(f: Field): Ledger
      requires f in typeOf && Known(typeOf[f])
    {
      Bump(typeOf[f], -1).(typeOf := typeOf - {f})
    }

    /** A type comes in with operands a and b. */
    function AddType(t: FieldType, a: FieldType?, b: FieldType?, count: int): Ledger
      requires t !in ref && Known(a) && Known(b)
    {
      var r := Bump(a, 1).Bump(b, 1);
      r.(left := left[t := a], right := right[t := b], ref := r.ref[t := count], initial := initial[t := count])
    }

    /** A type is released. */
    function DropType(t: FieldType): Ledger
      requires t in ref && t in left && t in right && Known(left[t]) && Known(right[t])
    {
      var r := Bump(left[t], -1).Bump(right[t], -1);
      r.(left := left - {t}, right := right - {t}, ref := r.ref - {t}, initial := initial - {t})
    }

    lemma AttachBalanced(f: Field, t: FieldType?)
      requires Balanced() && Known(t) && f !in typeOf
      ensures Attach(f, t).Balanced()
    {
      var r := Attach(f, t);
      forall u | u in r.left.Keys + r.right.Keys + r.initial.Keys + r.ref.Keys
        ensures r.SameKeys(u)
      {
        assert SameKeys(u);
      }
      forall u | u in ref
        ensures r.CountOk(u) && r.OperandsOk(u)
      {
        assert CountOk(u) && OperandsOk(u);
        CountAdd<Field, FieldType?>(typeOf, f, t, u);
      }
      forall g | g in r.typeOf
        ensures r.TypeOk(g)
      {
        assert g != f ==> TypeOk(g);
      }
    }

    /** A field that comes and goes leaves no trace. */
    lemma AttachDetach(f: Field, t: FieldType?)
      requires Known(t) && f !in typeOf
      ensures Attach(f, t).TypeOk(f) && Attach(f, t).Detach(f) == this
    {
      assert Attach(f, t).Detach(f).typeOf == typeOf;
      assert Attach(f, t).Detach(f).ref == ref;
    }

    lemma DetachBalanced(f: Field)
      requires Balanced() && f in typeOf
      ensures TypeOk(f) && Detach(f).Balanced()
    {
      assert TypeOk(f);
      var r := Detach(f);
      forall u | u in r.left.Keys + r.right.Keys + r.initial.Keys + r.ref.Keys
        ensures r.SameKeys(u)
      {
        assert SameKeys(u);
      }
      forall u | u in ref
        ensures r.CountOk(u) && r.OperandsOk(u)
      {
        assert CountOk(u) && OperandsOk(u);
        CountRemove<Field, FieldType?>(typeOf, f, u);
      }
      forall g | g in r.typeOf
        ensures r.TypeOk(g)
      {
        assert TypeOk(g);
      }
    }

    /** Nothing refers to a type that is not there yet. */
    lemma UnknownIsUnused(t: FieldType)
      requires Balanced() && t !in ref
      ensures Uses(t) == 0
    {
      forall f | f in typeOf
        ensures typeOf[f] != t
      {
        assert TypeOk(f);
      }
      forall u | u in left.Keys + right.Keys
        ensures (u in left ==> left[u] != t) && (u in right ==> right[u] != t)
      {
        assert SameKeys(u) && OperandsOk(u);
      }
      assert Keyed<Field, FieldType?>(typeOf, t) == {};
      assert Keyed<FieldType, FieldType?>(left, t) == {};
      assert Keyed<FieldType, FieldType?>(right, t) == {};
    }

    lemma AddTypeBalanced(t: FieldType, a: FieldType?, b: FieldType?, count: int)
      requires Balanced() && t !in ref && Known(a) && Known(b) && count >= 0
      ensures AddType(t, a, b, count).Balanced()
    {
      var r := AddType(t, a, b, count);
      UnknownIsUnused(t);
      assert t !in left && t !in right by {
        assert t in left.Keys + right.Keys ==> SameKeys(t);
      }
      forall u | u in r.left.Keys + r.right.Keys + r.initial.Keys + r.ref.Keys
        ensures r.SameKeys(u)
      {
        assert u != t ==> SameKeys(u);
      }
      forall u | u in r.ref
        ensures r.CountOk(u) && r.OperandsOk(u)
      {
        CountAdd<FieldType, FieldType?>(left, t, a, u);
        CountAdd<FieldType, FieldType?>(right, t, b, u);
        assert u != t ==> CountOk(u) && OperandsOk(u);
      }
      forall g | g in r.typeOf
        ensures r.TypeOk(g)
      {
        assert TypeOk(g);
      }
    }

    /** A type whose count is zero is nobody's type and nobody's operand. */
    lemma ZeroIsUnused(t: FieldType)
      requires Balanced() && t in ref && ref[t] == 0
      ensures t in initial && initial[t] == 0
      ensures forall f :: f in typeOf ==> typeOf[f] != t
      ensures forall u :: u in left ==> left[u] != t
      ensures forall u :: u in right ==> right[u] != t
    {
      assert CountOk(t);
      forall f | f in typeOf
        ensures typeOf[f] != t
      {
        CountZero<Field, FieldType?>(typeOf, t, f);
      }
      forall u | u in left
        ensures left[u] != t
      {
        CountZero<FieldType, FieldType?>(left, t, u);
      }
      forall u | u in right
        ensures right[u] != t
      {
        CountZero<FieldType, FieldType?>(right, t, u);
      }
    }

    lemma DropTypeBalanced(t: FieldType)
      requires Balanced() && t in ref && ref[t] == 0
      ensures OperandsOk(t) && DropType(t).Balanced()
    {
      ZeroIsUnused(t);
      assert OperandsOk(t);
      var r := DropType(t);
      forall u | u in r.left.Keys + r.right.Keys + r.initial.Keys + r.ref.Keys
        ensures r.SameKeys(u)
      {
        assert SameKeys(u);
      }
      forall u | u in r.ref
        ensures r.CountOk(u) && r.OperandsOk(u)
      {
        assert CountOk(u) && OperandsOk(u);
        CountRemove<FieldType, FieldType?>(left, t, u);
        CountRemove<FieldType, FieldType?>(right, t, u);
      }
      forall g | g in r.typeOf
        ensures r.TypeOk(g)
      {
        assert TypeOk(g);
      }
    }
  }
}
