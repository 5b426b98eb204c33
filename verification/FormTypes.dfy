/** The records of form.h, with the members that the modelled routines read or write. */
module FormTypes {

  datatype Code = E_OK | E_SYSTEM_ERROR | E_BAD_ARGUMENT | E_CONNECTED

  /** A C int stored in a short. */
  function ToShort(x: int): (r: int)
    ensures -0x8000 <= r < 0x8000
    ensures -0x8000 <= x < 0x8000 ==> r == x
    ensures (r - x) % 0x1_0000 == 0
  {
    (x + 0x8000) % 0x1_0000 - 0x8000
  }

  datatype Page = Page(pmin: int, pmax: int, smin: int, smax: int)

  /** A form's array of fields, which the library only reads, or the null pointer. */
  datatype FieldList = NoList | List(fields: seq<Field>)

  /** The memory that holds the contents of a field. */
  type Buffer = array<char>
  type Buffer? = array?<char>

  class FieldType {
    var ref: int
    const resident: bool
    const linked: bool
    const hasArgs: bool
    const hasChoice: bool
    const left: FieldType?
    const right: FieldType?

    /** A copy of the default field type. */
    constructor ()
      ensures ref == 0 && !resident && !linked && !hasArgs && !hasChoice && left == null && right == null
    {
      ref, resident, linked, hasArgs, hasChoice, left, right := 0, false, false, false, false, null, null;
    }

    /** A type that the library comes with; it is counted once from the start. */
    constructor Predefined(hasArgs: bool, hasChoice: bool)
      ensures ref == 1 && resident && !linked && left == null && right == null
      ensures this.hasArgs == hasArgs && this.hasChoice == hasChoice
    {
      ref, resident, linked, left, right := 1, true, false, null, null;
      this.hasArgs, this.hasChoice := hasArgs, hasChoice;
    }

    /** A type over two operands. */
    constructor Linked(a: FieldType, b: FieldType)
      ensures ref == 0 && !resident && linked && left == a && right == b
      ensures hasArgs == (a.hasArgs || b.hasArgs) && hasChoice == (a.hasChoice || b.hasChoice)
    {
      ref, resident, linked, left, right := 0, false, true, a, b;
      hasArgs, hasChoice := a.hasArgs || b.hasArgs, a.hasChoice || b.hasChoice;
    }
  }

  /** Members of a field that no modelled routine does more with than copy. */
  datatype Look = Look(maxgrow: int, just: int, fore: int, back: int, pad: int, opts: int, usrptr: int)

  /** What a linked or duplicated field takes over. */
  datatype Traits = Traits(rows: int, cols: int, nrow: int, nbuf: int, drows: int, dcols: int, look: Look)

  class Field {
    var traits: Traits
    var newPage: bool   // the _NEWPAGE bit of status
    var frow: int
    var fcol: int
    var page: int
    var index: int
    var snext: Field?
    var sprev: Field?
    var link: Field?
    var form: Form?
    var ftype: FieldType?
    var buf: Buffer?

    /** The default field as the library starts. */
    constructor (look: Look)
      ensures traits == Traits(0, 0, 0, 0, 0, 0, look) && Unplaced(this, 0, 0)
      ensures !newPage && link == null && ftype == null && buf == null
    {
      traits, newPage, frow, fcol, page, index := Traits(0, 0, 0, 0, 0, 0, look), false, 0, 0, 0, 0;
      snext, sprev, link, form, ftype, buf := null, null, null, null, null, null;
    }

    /** A copy of the default field base with traits and a place of its own, alone in its ring. */
    constructor Copy(base: Field, traits: Traits, frow: int, fcol: int)
      ensures this.traits == traits && Unplaced(this, frow, fcol)
      ensures newPage == base.newPage && link == this && ftype == null && buf == null
    {
      this.traits, newPage, this.frow, this.fcol := traits, base.newPage, ToShort(frow), ToShort(fcol);
      page, index, link, snext, sprev, form, ftype, buf := 0, 0, this, null, null, null, null, null;
    }
  }

  /** A field that is on no form, at the given place. */
  ghost predicate Unplaced(f: Field, frow: int, fcol: int)
    reads f`form, f`snext, f`sprev, f`page, f`index, f`frow, f`fcol
  {
    && f.form == null && f.snext == null && f.sprev == null && f.page == 0 && f.index == 0
    && f.frow == ToShort(frow) && f.fcol == ToShort(fcol)
  }

  class Form {
    var rows: int
    var cols: int
    var maxfield: int
    var maxpage: int
    var field: FieldList
    var page: seq<Page>   // empty for the null pointer

    constructor ()
      ensures rows == 0 && cols == 0 && maxfield == -1 && maxpage == -1 && field == NoList && page == []
    {
      rows, cols, maxfield, maxpage, field, page := 0, 0, -1, -1, NoList, [];
    }
  }
}
