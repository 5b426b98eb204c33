/** Connect_Fields and Disconnect_Fields: a form takes an array of fields, cuts it into pages and sorts each page. */
module ConnectFields {
  import opened FormTypes
  import opened PageOrder
  import opened Rings
  import opened FormDef

  // ----- Sorted pages -----

  ghost function Fetch(fs: seq<Field>, order: seq<nat>): (r: seq<Field>)
    requires forall i :: 0 <= i < |order| ==> order[i] < |fs|
    ensures |r| == |order| && forall i :: 0 <= i < |r| ==> r[i] == fs[order[i]]
  {
    seq(|order|, i requires 0 <= i < |order| => fs[order[i]])
  }

  /** The fields lo..hi in visiting order, given the position of every field. */
  ghost function Sorted(fs: seq<Field>, keys: seq<Key>, lo: nat, hi: nat): (r: seq<Field>)
    requires lo <= hi <= |fs| == |keys|
    ensures |r| == hi - lo
  {
    Fetch(fs, Order(keys, lo, hi))
  }

  /** Inserting into the ring of fields is inserting into the order of their indices. */
  lemma PlaceInRing(fs: seq<Field>, keys: seq<Key>, order: seq<nat>, k: Key)
    requires |keys| == |fs| && forall i :: 0 <= i < |order| ==> order[i] < |fs| && keys[order[i]] == KeyOf(fs[order[i]])
    ensures RingPlace(Fetch(fs, order), k) == Place(keys, order, k)
  {
    assert forall i :: 0 <= i < |order| ==> KeyOf(Fetch(fs, order)[i]) == keys[order[i]];
  }

  lemma FetchInsert(fs: seq<Field>, order: seq<nat>, p: nat, k: nat)
    requires forall i :: 0 <= i < |order| ==> order[i] < |fs|
    requires p <= |order| && k < |fs|
    ensures forall i :: 0 <= i < |order| + 1 ==> InsertAt(order, p, k)[i] < |fs|
    ensures Fetch(fs, InsertAt(order, p, k)) == InsertAt(Fetch(fs, order), p, fs[k])
  {
  }

  /** The next field of the page goes where the list says. */
  lemma SortedStep(fs: seq<Field>, keys: seq<Key>, lo: nat, j: nat)
    requires lo <= j < |fs| == |keys| && forall i :: lo <= i <= j ==> keys[i] == KeyOf(fs[i])
    ensures RingPlace(Sorted(fs, keys, lo, j), KeyOf(fs[j])) <= j - lo
    ensures var ring := Sorted(fs, keys, lo, j);
      InsertAt(ring, RingPlace(ring, KeyOf(fs[j])), fs[j]) == Sorted(fs, keys, lo, j + 1)
  {
    var order := Order(keys, lo, j);
    PlaceInRing(fs, keys, order, keys[j]);
    FetchInsert(fs, order, Place(keys, order, keys[j]), j);
  }

  /** The fields on lo..hi, all of them in region, are what a page's ring consists of. */
  lemma SortedMembers(fs: seq<Field>, keys: seq<Key>, lo: nat, hi: nat, region: set<Field>)
    requires lo <= hi <= |fs| == |keys|
    requires forall i :: lo <= i < hi ==> fs[i] in region
    ensures Members(Sorted(fs, keys, lo, hi)) <= region
    ensures Distinct(fs) && hi < |fs| ==> fs[hi] !in Sorted(fs, keys, lo, hi)
  {
    var s := Sorted(fs, keys, lo, hi);
    forall f | f in s
      ensures f in region && (Distinct(fs) && hi < |fs| ==> f != fs[hi])
    {
      var i :| 0 <= i < |s| && s[i] == f;
      assert f == fs[Order(keys, lo, hi)[i]];
    }
  }

  /** The fields pmin..j of a page are linked in visiting order, starting at fld. */
  ghost predicate Begun(fs: seq<Field>, keys: seq<Key>, pmin: nat, j: nat, pageNr: int, fld: Field?)
    requires pmin <= j <= |fs| == |keys|
    reads Members(fs)
  {
    && Ring(Sorted(fs, keys, pmin, j))
    && (if j == pmin then fld == null else fld == Sorted(fs, keys, pmin, j)[0])
    && forall i :: pmin <= i < j ==> fs[i].index == i && fs[i].page == pageNr
  }

  /** Links field j of the page in among its predecessors. */
  method AddToPage(fs: seq<Field>, ghost keys: seq<Key>, ghost region: set<Field>, ghost pmin: nat, j: nat,
      pageNr: int, head: Field?)
    returns (fld: Field)
    requires pmin <= j < |fs| == |keys| && Distinct(fs)
    requires forall i :: pmin <= i <= j ==> keys[i] == KeyOf(fs[i]) && fs[i] in region
    requires Ring(Sorted(fs, keys, pmin, j))
    requires if j == pmin then head == null else head == Sorted(fs, keys, pmin, j)[0]
    modifies region`snext, region`sprev, {fs[j]}`index, {fs[j]}`page
    ensures Ring(Sorted(fs, keys, pmin, j + 1)) && fld == Sorted(fs, keys, pmin, j + 1)[0]
    ensures fs[j].index == j && fs[j].page == pageNr
  {
    ghost var s := Sorted(fs, keys, pmin, j);
    SortedMembers(fs, keys, pmin, j, region);
    assert fs[j] !in s;
    fs[j].index := j;
    fs[j].page := pageNr;
    SortedStep(fs, keys, pmin, j);
    fld := InsertFieldByPosition(fs[j], head, s);
  }

  method GrowPage(fs: seq<Field>, ghost keys: seq<Key>, ghost region: set<Field>, ghost pmin: nat, j: nat,
      pageNr: int, head: Field?)
    returns (fld: Field)
    requires pmin <= j < |fs| == |keys| && Distinct(fs)
    requires forall i :: pmin <= i <= j ==> keys[i] == KeyOf(fs[i]) && fs[i] in region
    requires Begun(fs, keys, pmin, j, pageNr, head)
    modifies region`snext, region`sprev, {fs[j]}`index, {fs[j]}`page
    ensures Begun(fs, keys, pmin, j + 1, pageNr, fld)
  {
    fld := AddToPage(fs, keys, region, pmin, j, pageNr, head);
    forall i | pmin <= i < j
      ensures fs[i].index == i && fs[i].page == pageNr
    {
      assert fs[i] != fs[j];
    }
  }

  method SortPage(fs: seq<Field>, ghost keys: seq<Key>, ghost region: set<Field>, pmin: nat, pmax: nat, pageNr: int)
    returns (fld: Field?)
    requires pmin <= pmax < |fs| == |keys| && Distinct(fs)
    requires forall i :: pmin <= i <= pmax ==> keys[i] == KeyOf(fs[i]) && fs[i] in region
    modifies region`snext, region`sprev, region`index, region`page
    ensures Begun(fs, keys, pmin, pmax + 1, pageNr, fld)
  {
    fld := null;
    var j := pmin;
    while j <= pmax
      invariant pmin <= j <= pmax + 1
      invariant forall i :: pmin <= i <= pmax ==> keys[i] == KeyOf(fs[i])
      invariant Begun(fs, keys, pmin, j, pageNr, fld)
    {
      fld := GrowPage(fs, keys, region, pmin, j, pageNr, fld);
      j := j + 1;
    }
  }

  // ----- Cutting the array into pages -----

  predicate StartsPage(flags: seq<bool>, j: nat)
    requires j < |flags|
  {
    j == 0 || flags[j]
  }

  /** How many of the first n fields start a page. */
  function PageCount(flags: seq<bool>, n: nat): (r: nat)
    requires n <= |flags|
    ensures r <= n && (n > 0 ==> r > 0)
  {
    if n == 0 then 0 else PageCount(flags, n - 1) + if StartsPage(flags, n - 1) then 1 else 0
  }

  lemma {:induction false} PageCountGrows(flags: seq<bool>, m: nat, n: nat)
    requires m <= n <= |flags|
    ensures PageCount(flags, m) <= PageCount(flags, n)
    decreases n
  {
    if m < n {
      PageCountGrows(flags, m, n - 1);
    }
  }

  /** Page p takes fields pmin..pmax, starts where a page starts and holds no other start. */
  predicate PageCut(flags: seq<bool>, p: Page) {
    && 0 <= p.pmin <= p.pmax < |flags|
    && StartsPage(flags, p.pmin)
    && forall j :: p.pmin < j <= p.pmax ==> !flags[j]
  }

  /** Page k starts right after page k - 1. */
  predicate FollowsOn(pages: seq<Page>, k: nat)
    requires 0 < k < |pages|
  {
    pages[k].pmin == pages[k - 1].pmax + 1
  }

  /** The pages follow each other from the first field to the last. */
  predicate PagesCut(flags: seq<bool>, pages: seq<Page>) {
    && pages != [] && pages[0].pmin == 0 && pages[|pages| - 1].pmax == |flags| - 1
    && (forall k :: 0 <= k < |pages| ==> PageCut(flags, pages[k]))
    && forall k :: 0 < k < |pages| ==> FollowsOn(pages, k)
  }

  /** Every field up to the end of page n - 1 is on one of the first n pages. */
  lemma {:induction false} PageOf(flags: seq<bool>, pages: seq<Page>, j: nat, n: nat) returns (k: nat)
    requires PagesCut(flags, pages) && 0 < n <= |pages| && j <= pages[n - 1].pmax
    ensures k < n && pages[k].pmin <= j <= pages[k].pmax
    decreases n
  {
    k := n - 1;
    if j < pages[k].pmin {
      assert k > 0 ==> FollowsOn(pages, k);
      k := PageOf(flags, pages, j, n - 1);
    }
  }

  /** A page starts exactly at the first field and at the fields that ask for a new page. */
  lemma PageStarts(flags: seq<bool>, pages: seq<Page>, j: nat)
    requires PagesCut(flags, pages) && j < |flags|
    ensures (exists k :: 0 <= k < |pages| && pages[k].pmin == j) <==> j == 0 || flags[j]
  {
    var k := PageOf(flags, pages, j, |pages|);
    assert PageCut(flags, pages[k]);
    forall i | 0 <= i < |pages| && pages[i].pmin == j
      ensures j == 0 || flags[j]
    {
      assert PageCut(flags, pages[i]);
    }
  }

  /** What the routines below read of the fields and never write: positions, page starts and extents. */
  datatype Shape = Shape(keys: seq<Key>, flags: seq<bool>, rowEnds: seq<int>, colEnds: seq<int>)

  ghost predicate ShapeAt(f: Field, s: Shape, i: nat)
    requires i < |s.keys| && i < |s.flags| && i < |s.rowEnds| && i < |s.colEnds|
    reads f
  {
    && s.keys[i] == KeyOf(f) && s.flags[i] == f.newPage
    && s.rowEnds[i] == f.frow + f.traits.rows && s.colEnds[i] == f.fcol + f.traits.cols
  }

  ghost predicate HasShape(fs: seq<Field>, s: Shape)
    reads Members(fs)
  {
    && |s.keys| == |s.flags| == |s.rowEnds| == |s.colEnds| == |fs|
    && forall i :: 0 <= i < |fs| ==> ShapeAt(fs[i], s, i)
  }

  /** Whether the fields are distinct and none belongs to a form. */
  ghost predicate Available(fs: seq<Field>)
    reads Members(fs)
  {
    Distinct(fs) && forall i :: 0 <= i < |fs| ==> fs[i].form == null
  }

  /** Claims the fields for form one by one and counts pages, until one turns out to be taken. */
  method ClaimFields(form: Form, fs: seq<Field>, ghost shape: Shape) returns (ok: bool, pageNr: nat)
    requires HasShape(fs, shape)
    modifies Members(fs)`form
    ensures ok <==> old(Available(fs))
    ensures ok ==> (forall i :: 0 <= i < |fs| ==> fs[i].form == form) && pageNr == PageCount(shape.flags, |fs|)
    ensures HasShape(fs, shape)
    ensures forall f :: f in fs ==> f.form == old(f.form) || (old(f.form) == null && f.form == form)
  {
    ghost var place: map<Field, nat> := map[];   // the claimed fields, and where they stand
    pageNr := 0;
    var i := 0;
    while i < |fs|
      invariant 0 <= i <= |fs|
      invariant pageNr == PageCount(shape.flags, i)
      invariant forall j :: 0 <= j < i ==> fs[j] in place && place[fs[j]] == j
      invariant forall j :: 0 <= j < i ==> fs[j].form == form && old(fs[j].form) == null
      invariant forall f :: f in place ==> place[f] < i && fs[place[f]] == f
      invariant forall j :: i <= j < |fs| && fs[j] !in place ==> fs[j].form == old(fs[j].form)
    {
      if fs[i].form != null {
        assert fs[i] in place ==> place[fs[i]] < i && fs[place[fs[i]]] == fs[i];
        return false, pageNr;
      }
      assert ShapeAt(fs[i], shape, i);
      if i == 0 || fs[i].newPage {
        pageNr := pageNr + 1;
      }
      fs[i].form := form;
      place := place[fs[i] := i];
      i := i + 1;
    }
    ok := true;
  }

  /** The largest of init and the first n values, each value that is larger than those before stored in a short. */
  function Largest(init: int, values: seq<int>, n: nat): (r: int)
    requires n <= |values|
  {
    if n == 0 then init
    else
      var m := Largest(init, values, n - 1);
      if m < values[n - 1] then ToShort(values[n - 1]) else m
  }

  predicate IsShort(x: int) {
    -0x8000 <= x < 0x8000
  }

  /** It is one of the values or init, and none is larger, exactly if no value is too large for a short. */
  lemma {:induction false} LargestBounds(init: int, values: seq<int>, n: nat)
    requires n <= |values| && IsShort(init)
    ensures IsShort(Largest(init, values, n))
    ensures (forall j :: 0 <= j < n ==> values[j] <= Largest(init, values, n)) <==>
      (forall j :: 0 <= j < n ==> values[j] < 0x8000)
    ensures (forall j :: 0 <= j < n ==> values[j] < 0x8000) ==>
      && Largest(init, values, n) >= init
      && (Largest(init, values, n) == init || exists j :: 0 <= j < n && values[j] == Largest(init, values, n))
  {
    if n > 0 {
      LargestBounds(init, values, n - 1);
    }
  }

  /** One that is: a field of one row at row 32767 ends at 32768, and the form is left with -32768 rows. */
  lemma ExtentTooLarge()
    ensures Largest(0, [32767 + 1], 1) == -32768
  {
    assert Largest(0, [32767 + 1], 0) == 0;
  }

  /** The first n fields are cut into complete pages 0..pg and the begun page pg. */
  ghost predicate CutSoFar(flags: seq<bool>, pages: seq<Page>, pg: int, n: nat) {
    && 0 < n <= |flags| && 0 <= pg < |pages| && pages[0].pmin == 0
    && pg == PageCount(flags, n) - 1
    && (forall k :: 0 <= k < pg ==> PageCut(flags, pages[k]))
    && (forall k :: 0 < k <= pg ==> FollowsOn(pages, k))
    && 0 <= pages[pg].pmin < n && StartsPage(flags, pages[pg].pmin)
    && forall i :: pages[pg].pmin < i < n ==> !flags[i]
  }

  /** The page list and the current page once the loop has seen field j. */
  function CutAt(flags: seq<bool>, pages: seq<Page>, pg: nat, j: nat): (r: (seq<Page>, nat))
    requires j < |flags| && pg < |pages| && (j > 0 && flags[j] ==> pg + 1 < |pages|)
  {
    if j == 0 then (pages[0 := pages[0].(pmin := 0)], pg)
    else if flags[j] then
      var closed := pages[pg := pages[pg].(pmax := j - 1)];
      (closed[pg + 1 := closed[pg + 1].(pmin := j)], pg + 1)
    else (pages, pg)
  }

  lemma CutAtKeeps(flags: seq<bool>, pages: seq<Page>, pg: nat, j: nat)
    requires j < |flags| && |pages| == PageCount(flags, |flags|)
    requires if j == 0 then pg == 0 else CutSoFar(flags, pages, pg, j)
    ensures pg < |pages| && (j > 0 && flags[j] ==> pg + 1 < |pages|)
    ensures |CutAt(flags, pages, pg, j).0| == |pages|
    ensures CutSoFar(flags, CutAt(flags, pages, pg, j).0, CutAt(flags, pages, pg, j).1, j + 1)
  {
    PageCountGrows(flags, j + 1, |flags|);
    var (after, next) := CutAt(flags, pages, pg, j);
    forall k | 0 < k <= next
      ensures FollowsOn(after, k)
    {
      assert k <= pg ==> FollowsOn(pages, k);
    }
  }

  lemma CloseLast(flags: seq<bool>, pages: seq<Page>, pg: int)
    requires flags != [] && CutSoFar(flags, pages, pg, |flags|) && |pages| == PageCount(flags, |flags|)
    ensures PagesCut(flags, pages[pg := pages[pg].(pmax := |flags| - 1)])
  {
    var r := pages[pg := pages[pg].(pmax := |flags| - 1)];
    forall k | 0 < k < |r|
      ensures FollowsOn(r, k)
    {
      assert FollowsOn(pages, k);
    }
  }

  /** Makes the form large enough for f. */
  method CoverField(form: Form, f: Field)
    modifies form`rows, form`cols
    ensures var end := f.frow + f.traits.rows;
      form.rows == if old(form.rows) < end then ToShort(end) else old(form.rows)
    ensures var end := f.fcol + f.traits.cols;
      form.cols == if old(form.cols) < end then ToShort(end) else old(form.cols)
  {
    var maximumRowInField := f.frow + f.traits.rows;
    var maximumColInField := f.fcol + f.traits.cols;
    if form.rows < maximumRowInField {
      form.rows := ToShort(maximumRowInField);
    }
    if form.cols < maximumColInField {
      form.cols := ToShort(maximumColInField);
    }
  }

  /** Page bounds, and the size of the form. */
  method CutPages(form: Form, fs: seq<Field>, pageNr: nat, ghost shape: Shape) returns (pages: seq<Page>)
    requires fs != [] && HasShape(fs, shape) && pageNr == PageCount(shape.flags, |fs|)
    modifies form`rows, form`cols
    ensures |pages| == pageNr && PagesCut(shape.flags, pages)
    ensures form.rows == Largest(old(form.rows), shape.rowEnds, |fs|)
    ensures form.cols == Largest(old(form.cols), shape.colEnds, |fs|)
  {
    pages := seq(pageNr, _ => Page(0, 0, 0, 0));
    var pg: nat := 0;
    var j := 0;
    while j < |fs|
      invariant 0 <= j <= |fs| && |pages| == pageNr
      invariant if j == 0 then pg == 0 else CutSoFar(shape.flags, pages, pg, j)
      invariant form.rows == Largest(old(form.rows), shape.rowEnds, j)
      invariant form.cols == Largest(old(form.cols), shape.colEnds, j)
    {
      assert ShapeAt(fs[j], shape, j);
      CutAtKeeps(shape.flags, pages, pg, j);
      if j == 0 {
        pages := pages[0 := pages[0].(pmin := 0)];
      } else if fs[j].newPage {
        pages := pages[pg := pages[pg].(pmax := j - 1)];
        pg := pg + 1;
        pages := pages[pg := pages[pg].(pmin := j)];
      }
      CoverField(form, fs[j]);
      j := j + 1;
    }
    CloseLast(shape.flags, pages, pg);
    pages := pages[pg := pages[pg].(pmax := |fs| - 1)];
  }
}
