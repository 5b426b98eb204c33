/** Forms: connecting and disconnecting their fields. */
module Forms {
  import opened FormTypes
  import opened PageOrder
  import opened Rings
  import opened FormDef
  import opened ConnectFields

  ghost function PageFields(fs: seq<Field>, p: Page): set<Field>
    requires 0 <= p.pmin <= p.pmax < |fs|
  {
    set j | p.pmin <= j <= p.pmax :: fs[j]
  }

  predicate InRange(p: Page, n: nat) {
    0 <= p.pmin <= p.pmax < n
  }

  /**
   * Page p, number nr: its fields carry their index and page, form one ring in visiting order, and smin and smax
   * are the first and the last of that order.
   */
  ghost predicate PageSorted(fs: seq<Field>, keys: seq<Key>, p: Page, nr: int)
    requires |keys| == |fs| && InRange(p, |fs|)
    reads PageFields(fs, p)
  {
    && (forall j :: p.pmin <= j <= p.pmax ==> fs[j] in PageFields(fs, p) && fs[j].index == j && fs[j].page == nr)
    && (SortedMembers(fs, keys, p.pmin, p.pmax + 1, PageFields(fs, p));
        Ring(Sorted(fs, keys, p.pmin, p.pmax + 1)))
    && p.smin == Order(keys, p.pmin, p.pmax + 1)[0]
    && p.smax == Order(keys, p.pmin, p.pmax + 1)[p.pmax - p.pmin]
  }

  /** A ring, walked from its first member: its last is where the walk ends, and the two are neighbours. */
  lemma RingWalk(s: seq<Field>, i: nat, region: set<Field>)
    requires Ring(s) && i < |s| && forall f :: f in s ==> f in region
    ensures Follow(s[0], i, region) == s[i] && Follow(s[0], |s| - 1, region) == s[|s| - 1]
    ensures s[|s| - 1].snext == s[0] && s[0].sprev == s[|s| - 1]
  {
    FollowRing(s, 0, i, region);
    FollowRing(s, 0, |s| - 1, region);
    assert LinkedAt(s, |s| - 1) && LinkedAt(s, 0);
  }

  lemma PageEnds(fs: seq<Field>, keys: seq<Key>, p: Page, nr: int)
    requires |keys| == |fs| && InRange(p, |fs|) && PageSorted(fs, keys, p, nr)
    ensures p.pmin <= p.smin <= p.pmax && p.pmin <= p.smax <= p.pmax
    ensures var s := Sorted(fs, keys, p.pmin, p.pmax + 1);
      s[0] == fs[p.smin] && s[p.pmax - p.pmin] == fs[p.smax] && forall f :: f in s ==> f in PageFields(fs, p)
  {
    var s := Sorted(fs, keys, p.pmin, p.pmax + 1);
    SortedMembers(fs, keys, p.pmin, p.pmax + 1, PageFields(fs, p));
    assert forall f :: f in s ==> f in Members(s);
  }

  /**
   * From smin, snext leads through the page's fields in visiting order to smax, and from there back to smin; by
   * OrderSorted and OrderExact that order is sorted and has each field of the page once.
   */
  lemma PageWalk(fs: seq<Field>, keys: seq<Key>, p: Page, nr: int, i: nat)
    requires |keys| == |fs| && InRange(p, |fs|) && PageSorted(fs, keys, p, nr) && i <= p.pmax - p.pmin
    ensures p.pmin <= p.smin <= p.pmax && p.pmin <= p.smax <= p.pmax
    ensures Follow(fs[p.smin], i, PageFields(fs, p)) == fs[Order(keys, p.pmin, p.pmax + 1)[i]]
    ensures Follow(fs[p.smin], p.pmax - p.pmin, PageFields(fs, p)) == fs[p.smax]
    ensures fs[p.smax].snext == fs[p.smin] && fs[p.smin].sprev == fs[p.smax]
  {
    PageEnds(fs, keys, p, nr);
    RingWalk(Sorted(fs, keys, p.pmin, p.pmax + 1), i, PageFields(fs, p));
  }

  /** The field that the walk meets at step i, with its index, page and place. */
  lemma WalkMeets(fs: seq<Field>, keys: seq<Key>, p: Page, nr: int, i: nat)
    requires |keys| == |fs| && InRange(p, |fs|) && PageSorted(fs, keys, p, nr) && i <= p.pmax - p.pmin
    requires forall k :: p.pmin <= k <= p.pmax ==> keys[k] == KeyOf(fs[k])
    ensures p.pmin <= p.smin <= p.pmax
    ensures var f, k := Follow(fs[p.smin], i, PageFields(fs, p)), Order(keys, p.pmin, p.pmax + 1)[i];
      f != null && f.index == k && f.page == nr && keys[k] == (f.frow, f.fcol)
  {
    PageWalk(fs, keys, p, nr, i);
  }

  /** That order is the order of reading: of two fields on a page the walk meets the one in the higher row first, in a
      row the one further to the left, and of two in the same place the one that stands later in the array. */
  lemma ReadingOrder(fs: seq<Field>, keys: seq<Key>, p: Page, nr: int, i: nat, j: nat)
    requires |keys| == |fs| && InRange(p, |fs|) && PageSorted(fs, keys, p, nr) && i < j <= p.pmax - p.pmin
    requires forall k :: p.pmin <= k <= p.pmax ==> keys[k] == KeyOf(fs[k])
    ensures p.pmin <= p.smin <= p.pmax
    ensures var f, g := Follow(fs[p.smin], i, PageFields(fs, p)), Follow(fs[p.smin], j, PageFields(fs, p));
      && f != null && g != null && f.page == g.page == nr
      && (f.frow < g.frow || (f.frow == g.frow && f.fcol < g.fcol)
          || (f.frow == g.frow && f.fcol == g.fcol && f.index > g.index))
  {
    WalkMeets(fs, keys, p, nr, i);
    WalkMeets(fs, keys, p, nr, j);
    OrderReads(keys, p.pmin, p.pmax + 1, i, j);
  }

  lemma {:induction false} PagesOrdered(flags: seq<bool>, pages: seq<Page>, i: nat, k: nat)
    requires PagesCut(flags, pages) && i < k < |pages|
    ensures pages[i].pmax < pages[k].pmin
    decreases k
  {
    assert PageCut(flags, pages[k - 1]) && FollowsOn(pages, k);
    if i < k - 1 {
      PagesOrdered(flags, pages, i, k - 1);
    }
  }

  /** Sorting one page touches no field of another. */
  lemma PagesApart(fs: seq<Field>, flags: seq<bool>, pages: seq<Page>, i: nat, k: nat)
    requires PagesCut(flags, pages) && i < k < |pages| && |flags| == |fs| && Distinct(fs)
    ensures PageCut(flags, pages[i]) && PageCut(flags, pages[k])
    ensures PageFields(fs, pages[i]) !! PageFields(fs, pages[k])
  {
    PagesOrdered(flags, pages, i, k);
    assert PageCut(flags, pages[i]) && PageCut(flags, pages[k]);
  }

  lemma FirstAndLast(fs: seq<Field>, keys: seq<Key>, p: Page, pageNr: int, fld: Field?)
    requires |keys| == |fs| && InRange(p, |fs|) && Begun(fs, keys, p.pmin, p.pmax + 1, pageNr, fld)
    ensures fld != null && fld.sprev != null
    ensures fld.index == Order(keys, p.pmin, p.pmax + 1)[0]
    ensures fld.sprev.index == Order(keys, p.pmin, p.pmax + 1)[p.pmax - p.pmin]
  {
    assert LinkedAt(Sorted(fs, keys, p.pmin, p.pmax + 1), 0);
  }

  /** Sorts page pageNr and records where its visiting order starts and ends. */
  method SortOnePage(fs: seq<Field>, ghost keys: seq<Key>, p: Page, pageNr: int) returns (r: Page)
    requires |keys| == |fs| && InRange(p, |fs|) && Distinct(fs)
    requires forall i :: p.pmin <= i <= p.pmax ==> keys[i] == KeyOf(fs[i])
    modifies PageFields(fs, p)`snext, PageFields(fs, p)`sprev, PageFields(fs, p)`index, PageFields(fs, p)`page
    ensures r.pmin == p.pmin && r.pmax == p.pmax && PageSorted(fs, keys, r, pageNr)
  {
    var fld := SortPage(fs, keys, PageFields(fs, p), p.pmin, p.pmax, pageNr);
    FirstAndLast(fs, keys, p, pageNr, fld);   // a page always has a field
    r := p.(smin := fld.index, smax := fld.sprev.index);
    assert PageFields(fs, r) == PageFields(fs, p);
  }

  ghost predicate PageDone(fs: seq<Field>, keys: seq<Key>, pages: seq<Page>, k: nat)
    requires |keys| == |fs| && k < |pages|
    reads Members(fs)
  {
    InRange(pages[k], |fs|) && PageSorted(fs, keys, pages[k], k)
  }

  /** The first n pages are sorted. */
  ghost predicate Done(fs: seq<Field>, keys: seq<Key>, pages: seq<Page>, n: nat)
    requires |keys| == |fs| && n <= |pages|
    reads Members(fs)
  {
    forall k :: 0 <= k < n ==> PageDone(fs, keys, pages, k)
  }

  /** Sorting page n leaves the sorted pages before it as they are. */
  method SortNextPage(fs: seq<Field>, ghost region: set<Field>, ghost keys: seq<Key>, ghost flags: seq<bool>,
      ghost pages: seq<Page>, p: Page, pageNr: nat)
    returns (r: Page)
    requires |keys| == |fs| == |flags| && Distinct(fs) && PagesCut(flags, pages) && pageNr < |pages|
    requires p == pages[pageNr]
    requires forall i :: 0 <= i < |fs| ==> keys[i] == KeyOf(fs[i])
    requires Done(fs, keys, pages, pageNr)
    requires forall i :: 0 <= i < |fs| ==> fs[i] in region
    modifies region`snext, region`sprev, region`index, region`page
    ensures r.pmin == p.pmin && r.pmax == p.pmax
    ensures Done(fs, keys, pages[pageNr := r], pageNr + 1)
  {
    assert PageCut(flags, p);
    forall k | 0 <= k < pageNr
      ensures PageFields(fs, pages[k]) !! PageFields(fs, p)
    {
      PagesApart(fs, flags, pages, k, pageNr);
    }
    assert PageFields(fs, p) <= region;
    forall k | 0 <= k < pageNr
      ensures InRange(pages[k], |fs|) && PageSorted(fs, keys, pages[k], k)
    {
      assert PageDone(fs, keys, pages, k);
    }
    r := SortOnePage(fs, keys, p, pageNr);
  }

  lemma SameCuts(flags: seq<bool>, pages: seq<Page>, k: nat, r: Page)
    requires PagesCut(flags, pages) && k < |pages| && r.pmin == pages[k].pmin && r.pmax == pages[k].pmax
    ensures PagesCut(flags, pages[k := r])
  {
    var q := pages[k := r];
    assert PageCut(flags, pages[k]);
    forall j | 0 < j < |q|
      ensures FollowsOn(q, j)
    {
      assert FollowsOn(pages, j);
    }
  }

  method StorePages(form: Form, pages: seq<Page>, ghost fs: seq<Field>, ghost keys: seq<Key>, ghost n: nat)
    requires |keys| == |fs| && n <= |pages| && Done(fs, keys, pages, n)
    modifies form`page
    ensures form.page == pages && Done(fs, keys, pages, n)
  {
    form.page := pages;
    forall k | 0 <= k < n
      ensures PageDone(fs, keys, pages, k)
    {
      assert old(PageDone(fs, keys, pages, k));
    }
  }

  method SortPages(form: Form, fs: seq<Field>, ghost region: set<Field>, ghost keys: seq<Key>, ghost flags: seq<bool>)
    requires |keys| == |fs| == |flags| && Distinct(fs) && PagesCut(flags, form.page)
    requires forall i :: 0 <= i < |fs| ==> keys[i] == KeyOf(fs[i]) && fs[i] in region
    modifies form`page, region`snext, region`sprev, region`index, region`page
    ensures |form.page| == old(|form.page|) && PagesCut(flags, form.page) && Done(fs, keys, form.page, |form.page|)
  {
    var pageNr := 0;
    while pageNr < |form.page|
      invariant 0 <= pageNr <= |form.page| == old(|form.page|)
      invariant forall i :: 0 <= i < |fs| ==> keys[i] == KeyOf(fs[i])
      invariant PagesCut(flags, form.page) && Done(fs, keys, form.page, pageNr)
    {
      var pages := form.page;
      var r := SortNextPage(fs, region, keys, flags, pages, pages[pageNr], pageNr);
      SameCuts(flags, pages, pageNr, r);
      StorePages(form, pages[pageNr := r], fs, keys, pageNr + 1);
      pageNr := pageNr + 1;
    }
  }

  // ----- Connecting and disconnecting -----

  /** The number of fields is within what its cast to a short can tell apart. */
  predicate Countable(s: Shape) {
    |s.keys| < 0x1_0000
  }

  ghost function Region(fields: FieldList): set<Field> {
    match fields
    case NoList => {}
    case List(fs) => Members(fs)
  }

  /** What connecting fs comes to, as the caller can tell beforehand. */
  ghost function Outcome(fs: seq<Field>, mallocOk: bool): Code
    reads Members(fs)
  {
    if !Available(fs) then E_CONNECTED
    else if fs == [] || ToShort(|fs|) < 0 then E_BAD_ARGUMENT
    else if !mallocOk then E_SYSTEM_ERROR
    else E_OK
  }

  /** In numbers, for arrays whose length a short can tell from smaller ones: the order of the checks, and what passes
      them. */
  lemma OutcomeExact(fs: seq<Field>, mallocOk: bool)
    requires |fs| < 65536
    ensures Outcome(fs, mallocOk) == E_CONNECTED <==>
      !(forall i :: 0 <= i < |fs| ==> fs[i].form == null && forall j :: 0 <= j < i ==> fs[j] != fs[i])
    ensures Outcome(fs, mallocOk) != E_CONNECTED ==>
      Outcome(fs, mallocOk) == if |fs| == 0 || |fs| >= 32768 then E_BAD_ARGUMENT
                               else if !mallocOk then E_SYSTEM_ERROR else E_OK
  {
  }

  /** The form's pages cut the array at the page starts and each is sorted; rows and cols are those of the form
      before. */
  ghost predicate Connected(form: Form, fs: seq<Field>, shape: Shape, rows: int, cols: int)
    requires |shape.keys| == |shape.flags| == |shape.rowEnds| == |shape.colEnds| == |fs|
    reads form, Members(fs)
  {
    && form.maxfield == |fs| && form.maxpage == |form.page|
    && PagesCut(shape.flags, form.page) && Done(fs, shape.keys, form.page, |form.page|)
    && form.rows == Largest(rows, shape.rowEnds, |fs|) && form.cols == Largest(cols, shape.colEnds, |fs|)
  }

  /** A connected form is large enough for all its fields, if their extents fit in a short. */
  lemma FormCovers(form: Form, fs: seq<Field>, shape: Shape, rows: int, cols: int, i: nat)
    requires HasShape(fs, shape) && Connected(form, fs, shape, rows, cols) && i < |fs|
    requires -32768 <= rows < 32768 && -32768 <= cols < 32768
    requires forall f :: f in fs ==> f.frow + f.traits.rows < 32768 && f.fcol + f.traits.cols < 32768
    ensures fs[i].frow + fs[i].traits.rows <= form.rows && fs[i].fcol + fs[i].traits.cols <= form.cols
  {
    forall j | 0 <= j < |fs|
      ensures shape.rowEnds[j] == fs[j].frow + fs[j].traits.rows && shape.colEnds[j] == fs[j].fcol + fs[j].traits.cols
    {
      assert ShapeAt(fs[j], shape, j);
    }
    LargestBounds(rows, shape.rowEnds, |fs|);
    LargestBounds(cols, shape.colEnds, |fs|);
  }

  /** Pages and order for fields that have all been claimed. */
  method LayOut(form: Form, fs: seq<Field>, ghost region: set<Field>, pageNr: nat, ghost shape: Shape)
    requires fs != [] && ToShort(|fs|) >= 0 && HasShape(fs, shape) && Countable(shape) && Distinct(fs)
    requires pageNr == PageCount(shape.flags, |fs|)
    requires forall i :: 0 <= i < |fs| ==> fs[i] in region
    modifies form, region`snext, region`sprev, region`index, region`page
    ensures Connected(form, fs, shape, old(form.rows), old(form.cols))
    ensures form.field == old(form.field)
  {
    var pages := CutPages(form, fs, pageNr, shape);
    form.page := pages;
    form.maxfield := ToShort(|fs|);
    form.maxpage := ToShort(pageNr);
    forall i | 0 <= i < |fs|
      ensures shape.keys[i] == KeyOf(fs[i])
    {
      assert ShapeAt(fs[i], shape, i);
    }
    SortPages(form, fs, region, shape.keys, shape.flags);
  }

  method Connect(form: Form, fields: FieldList, mallocOk: bool, ghost shape: Shape) returns (res: Code)
    requires fields.List? ==> HasShape(fields.fields, shape) && Countable(shape)
    modifies form, Region(fields)`form
    modifies Region(fields)`snext, Region(fields)`sprev, Region(fields)`index, Region(fields)`page
    ensures form.field == fields
    ensures fields.NoList? ==> res == E_OK && form.maxfield == form.maxpage == 0
    ensures fields.List? ==> res == old(Outcome(fields.fields, mallocOk))
    ensures fields.List? && res == E_OK ==>
      && Connected(form, fields.fields, shape, old(form.rows), old(form.cols))
      && forall f :: f in fields.fields ==> f.form == form
    ensures res != E_OK ==>
      && form.maxfield == form.maxpage == 0
      && form.rows == old(form.rows) && form.cols == old(form.cols)
    ensures res != E_OK ==> form.page == old(form.page) && forall f :: f in Region(fields) ==> ClaimedOnly(f, form)
  {
    form.field := fields;
    form.maxfield := 0;
    form.maxpage := 0;
    if fields.NoList? {
      return E_OK;
    }
    var fs := fields.fields;
    var ok, pageNr := ClaimFields(form, fs, shape);
    if !ok {
      return E_CONNECTED;
    }
    if |fs| == 0 || ToShort(|fs|) < 0 {
      return E_BAD_ARGUMENT;
    }
    if !mallocOk {
      return E_SYSTEM_ERROR;
    }
    LayOut(form, fs, Members(fs), pageNr, shape);
    res := E_OK;
  }

  /** All that has happened to f is that form may have claimed it. */
  twostate predicate ClaimedOnly(f: Field, form: Form)
    reads f
  {
    && (f.form == old(f.form) || (old(f.form) == null && f.form == form))
    && f.snext == old(f.snext) && f.sprev == old(f.sprev) && f.index == old(f.index) && f.page == old(f.page)
  }

  /** Breaks the association between the form and its fields; fields of other forms stay theirs. */
  method Disconnect(form: Form)
    modifies form, Region(form.field)`form
    ensures form.field == NoList
    ensures forall f :: f in Region(old(form.field)) ==> f.form == if old(f.form) == form then null else old(f.form)
    ensures old(form.field).List? ==>
      form.page == [] && form.rows == form.cols == 0 && form.maxfield == form.maxpage == -1
  {
    if form.field.List? {
      var fs := form.field.fields;
      var i := 0;
      while i < |fs|
        invariant 0 <= i <= |fs|
        invariant form.field == old(form.field)
        invariant forall f :: f in fs ==> f.form == old(f.form) || (old(f.form) == form && f.form == null)
        invariant forall j :: 0 <= j < i ==> fs[j].form != form
      {
        if fs[i].form == form {
          fs[i].form := null;
        }
        i := i + 1;
      }
      form.rows, form.cols := 0, 0;
      form.maxfield, form.maxpage := -1, -1;
      form.field := NoList;
      form.page := [];
    }
  }

  /** A new form takes over its fields, or fails and leaves every one of them exactly as it was. */
  method NewForm(fields: FieldList, formOk: bool, pagesOk: bool, ghost shape: Shape) returns (form: Form?, err: Code)
    requires fields.List? ==> HasShape(fields.fields, shape) && Countable(shape)
    modifies Region(fields)`form
    modifies Region(fields)`snext, Region(fields)`sprev, Region(fields)`index, Region(fields)`page
    ensures err ==
      if !formOk then E_SYSTEM_ERROR else if fields.List? then old(Outcome(fields.fields, pagesOk)) else E_OK
    ensures form != null <==> err == E_OK
    ensures form == null ==> forall f :: f in Region(fields) ==> unchanged(f)
    ensures form != null && fields.List? ==>
      Connected(form, fields.fields, shape, 0, 0) && forall f :: f in fields.fields ==> f.form == form
  {
    form, err := null, E_SYSTEM_ERROR;
    if formOk {
      var f := new Form();
      err := Connect(f, fields, pagesOk, shape);
      if err != E_OK {
        Disconnect(f);
      } else {
        form := f;
      }
    }
  }
}
