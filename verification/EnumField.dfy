/** Validating a field against the keywords of an enumeration, and stepping through them. */
module EnumField {
  import opened FormTypes
  import opened FieldBuffer
  import opened EnumMatch
  import opened Rings

  datatype EnumArg = EnumArg(kwds: seq<string>, checkcase: bool, checkunique: bool)

  predicate Keywords(kwds: seq<string>) {
    forall k :: 0 <= k < |kwds| ==> IsText(kwds[k])
  }

  // ----- Choosing a keyword -----

  /** How the text matches each keyword. */
  function Matches(arg: EnumArg, text: string): (m: seq<Match>)
    ensures |m| == |arg.kwds|
  {
    seq(|arg.kwds|, k requires 0 <= k < |arg.kwds| => Matching(arg.kwds[k], text, arg.checkcase))
  }

  /** A keyword is accepted if it is the first that matches at all; where matches must be unique, if it is the first
      exact one, or else the only partial one. */
  ghost predicate Accepts(m: seq<Match>, unique: bool, k: int) {
    && 0 <= k < |m| && m[k] != NOMATCH
    && if unique then
      if m[k] == EXACT then forall i :: 0 <= i < k ==> m[i] != EXACT
      else forall i :: 0 <= i < |m| && i != k ==> m[i] == NOMATCH
    else
      forall i :: 0 <= i < k ==> m[i] == NOMATCH
  }

  /** No more than one keyword is ever accepted. */
  lemma AcceptedOnce(m: seq<Match>, unique: bool, j: int, k: int)
    requires Accepts(m, unique, j) && Accepts(m, unique, k)
    ensures j == k
  {
  }

  /** No exact match among the first i keywords, and no match but that of first when lone. */
  ghost predicate Searched(m: seq<Match>, first: nat, i: nat, lone: bool) {
    && first < i <= |m| && m[first] == PARTIAL
    && (forall k :: 0 <= k < i ==> m[k] != EXACT)
    && if lone then forall k :: 0 <= k < i && k != first ==> m[k] == NOMATCH
    else exists k :: 0 <= k < i && k != first && m[k] != NOMATCH
  }

  lemma SearchGoesOn(m: seq<Match>, first: nat, i: nat, lone: bool)
    requires i < |m| && Searched(m, first, i, lone) && m[i] != EXACT
    ensures Searched(m, first, i + 1, lone && m[i] == NOMATCH)
  {
  }

  /** An exact match wins; without one, the first partial match is accepted exactly if it is the only one. */
  lemma SearchEnds(m: seq<Match>, first: nat, i: nat, lone: bool)
    requires Searched(m, first, i, lone)
    ensures i < |m| && m[i] == EXACT ==> Accepts(m, true, i)
    ensures i == |m| ==> if lone then Accepts(m, true, first) else forall k :: !Accepts(m, true, k)
  {
  }

  // ----- The first and the last keyword that a text is -----

  /** The first keyword from index i on that the text is. */
  function FirstFrom(kwds: seq<string>, text: string, ccase: bool, i: nat): (n: nat)
    requires i <= |kwds|
    ensures i <= n <= |kwds| && (forall k :: i <= k < n ==> !IsExact(kwds[k], text, ccase))
    ensures n < |kwds| ==> IsExact(kwds[n], text, ccase)
    decreases |kwds| - i
  {
    if i == |kwds| || IsExact(kwds[i], text, ccase) then i else FirstFrom(kwds, text, ccase, i + 1)
  }

  /** The last keyword below index i that the text is, or -1. */
  function LastBelow(kwds: seq<string>, text: string, ccase: bool, i: nat): (n: int)
    requires i <= |kwds|
    ensures -1 <= n < i && (forall k :: n < k < i ==> !IsExact(kwds[k], text, ccase))
    ensures n >= 0 ==> IsExact(kwds[n], text, ccase)
    decreases i
  {
    if i == 0 || IsExact(kwds[i - 1], text, ccase) then i - 1 else LastBelow(kwds, text, ccase, i - 1)
  }

  function FirstExact(arg: EnumArg, text: string): (n: nat)
    ensures n <= |arg.kwds|
  {
    FirstFrom(arg.kwds, text, arg.checkcase, 0)
  }

  function LastExact(arg: EnumArg, text: string): (n: int)
    ensures -1 <= n < |arg.kwds|
  {
    LastBelow(arg.kwds, text, arg.checkcase, |arg.kwds|)
  }

  /** The keyword after that of the text; the first one after the last one and after a blank text. */
  function Successor(arg: EnumArg, text: string): (k: int)
    ensures -1 <= k < |arg.kwds|
  {
    var n := FirstExact(arg, text);
    if n + 1 < |arg.kwds| then n + 1
    else if arg.kwds != [] && (n < |arg.kwds| || BlankFrom(text, 0)) then 0
    else -1
  }

  /** The keyword before that of the text; the last one before the first one and before a blank text. */
  function Predecessor(arg: EnumArg, text: string): (k: int)
    ensures -1 <= k < |arg.kwds|
  {
    var n := LastExact(arg, text);
    if n > 0 then n - 1
    else if arg.kwds != [] && (n == 0 || BlankFrom(text, 0)) then |arg.kwds| - 1
    else -1
  }

  // ----- Keywords that differ in more than blanks and case -----

  predicate SameText(a: string, b: string, ccase: bool) {
    |a| == |b| && Agree(a, b, |a|, ccase)
  }

  predicate Different(kwds: seq<string>, ccase: bool) {
    forall i, j :: 0 <= i < j < |kwds| ==> !SameText(Trim(kwds[i]), Trim(kwds[j]), ccase)
  }

  /** A text that is a keyword differs from it in blanks and case only. */
  lemma ExactIsSame(s: string, buf: string, ccase: bool)
    requires IsExact(s, buf, ccase)
    ensures SameText(Trim(s), Trim(buf), ccase)
  {
    var t, b := TrimLeft(s), TrimLeft(buf);
    assert Tail(b) == Tail(t) by {
      assert Tail(t) > 0 ==> Same(t[Tail(t) - 1], b[Tail(t) - 1], ccase);
      assert Tail(b) > 0 ==> Tail(b) <= |t|;
      assert Tail(b) > 0 ==> Same(t[Tail(b) - 1], b[Tail(b) - 1], ccase);
    }
    forall k | 0 <= k < Tail(t)
      ensures Same(Trim(s)[k], Trim(buf)[k], ccase)
    {
      assert Same(t[k], b[k], ccase);
    }
  }

  /** A keyword that fits the field is what the field then holds. */
  lemma PaddedIsExact(s: string, width: nat, ccase: bool)
    requires |s| <= width
    ensures IsExact(s, Padded(s, width), ccase)
  {
    var buf := Padded(s, width);
    if Lead(s) < |s| {
      assert buf[Lead(s)] == s[Lead(s)];
      LeadIs(buf, Lead(s));
    } else {
      LeadIs(buf, width);
    }
  }

  /** A text is at most one of keywords that differ. */
  lemma ExactOnce(kwds: seq<string>, text: string, ccase: bool, i: nat, j: nat)
    requires Different(kwds, ccase) && i < |kwds| && j < |kwds|
    requires IsExact(kwds[i], text, ccase) && IsExact(kwds[j], text, ccase)
    ensures i == j
  {
    ExactIsSame(kwds[i], text, ccase);
    ExactIsSame(kwds[j], text, ccase);
    var a, b := Trim(kwds[i]), Trim(kwds[j]);
    assert SameText(a, b, ccase) && SameText(b, a, ccase) by {
      forall k | 0 <= k < |a|
        ensures Same(a[k], b[k], ccase) && Same(b[k], a[k], ccase)
      {
        assert Same(a[k], Trim(text)[k], ccase) && Same(b[k], Trim(text)[k], ccase);
      }
    }
  }

  /** From a text that is keyword j, the steps lead to its neighbours around the list. */
  lemma StepsAreCyclic(arg: EnumArg, text: string, j: nat)
    requires Different(arg.kwds, arg.checkcase) && j < |arg.kwds| && IsExact(arg.kwds[j], text, arg.checkcase)
    ensures Successor(arg, text) == Next(j, |arg.kwds|)
    ensures Predecessor(arg, text) == Previous(j, |arg.kwds|)
  {
    ExactOnce(arg.kwds, text, arg.checkcase, j, FirstExact(arg, text));
    ExactOnce(arg.kwds, text, arg.checkcase, j, LastExact(arg, text));
  }

  /** Where the steps lead in general: from the first keyword that the text is one on, around the list; from the last
      one back; from a blank text to the first and to the last; and nowhere from any other text. */
  lemma StepsExact(arg: EnumArg, text: string, k: nat)
    requires k < |arg.kwds| && IsExact(arg.kwds[k], text, arg.checkcase)
    ensures (forall i :: 0 <= i < k ==> !IsExact(arg.kwds[i], text, arg.checkcase)) ==>
      Successor(arg, text) == if k == |arg.kwds| - 1 then 0 else k + 1
    ensures (forall i :: k < i < |arg.kwds| ==> !IsExact(arg.kwds[i], text, arg.checkcase)) ==>
      Predecessor(arg, text) == if k == 0 then |arg.kwds| - 1 else k - 1
  {
  }

  lemma StepsFromOther(arg: EnumArg, text: string)
    requires forall k :: 0 <= k < |arg.kwds| ==> !IsExact(arg.kwds[k], text, arg.checkcase)
    ensures Successor(arg, text) == if arg.kwds != [] && BlankFrom(text, 0) then 0 else -1
    ensures Predecessor(arg, text) == if arg.kwds != [] && BlankFrom(text, 0) then |arg.kwds| - 1 else -1
  {
    assert FirstExact(arg, text) == |arg.kwds| && LastExact(arg, text) == -1;
  }

  /** Each step undoes the other. */
  lemma StepsUndoEachOther(arg: EnumArg, text: string, width: nat, j: nat)
    requires Different(arg.kwds, arg.checkcase) && j < |arg.kwds| && IsExact(arg.kwds[j], text, arg.checkcase)
    requires forall k :: 0 <= k < |arg.kwds| ==> |arg.kwds[k]| <= width
    ensures var k := Successor(arg, text); k >= 0 && Predecessor(arg, Padded(arg.kwds[k], width)) == j
    ensures var k := Predecessor(arg, text); k >= 0 && Successor(arg, Padded(arg.kwds[k], width)) == j
  {
    StepsAreCyclic(arg, text, j);
    var next, prev := Successor(arg, text), Predecessor(arg, text);
    PaddedIsExact(arg.kwds[next], width, arg.checkcase);
    PaddedIsExact(arg.kwds[prev], width, arg.checkcase);
    StepsAreCyclic(arg, Padded(arg.kwds[next], width), next);
    StepsAreCyclic(arg, Padded(arg.kwds[prev], width), prev);
  }

  // ----- The routines -----

  /** What a field shows: the cells of its first buffer, up to the terminator. */
  function Text(field: Field): string
    requires Sized(field) && field.traits.nbuf >= 0
    reads field`buf, field`traits, field.buf
  {
    RowOrder(field.traits.drows * field.traits.dcols, 0, field.traits.nbuf + 1);
    field.buf[..field.traits.drows * field.traits.dcols]
  }

  ghost predicate Shown(field: Field)
    reads field`buf, field`traits, field.buf
  {
    Sized(field) && field.traits.nbuf >= 0 && IsText(Text(field))
  }

  /** Puts a keyword into a field. */
  method Show(field: Field, value: string)
    requires Shown(field) && IsText(value)
    modifies field.buf
    ensures Shown(field) && Text(field) == Padded(value, |old(Text(field))|)
  {
    RowOrder(field.traits.drows * field.traits.dcols, 0, field.traits.nbuf + 1);
    var _ := SetFieldBuffer(field, 0, value);
    ghost var size := field.traits.drows * field.traits.dcols;
    assert Text(field) == Row(field.buf[..], size, 0)[..size];
  }

  /** How the text matches keyword k. */
  method MatchKeyword(arg: EnumArg, text: string, k: nat) returns (res: Match)
    requires Keywords(arg.kwds) && IsText(text) && k < |arg.kwds|
    ensures res == Matches(arg, text)[k]
  {
    res := Compare(arg.kwds[k], text, arg.checkcase);
  }

  /** Looks for another keyword that matches, from i0 on: an exact one wins, a partial one spoils the first; p is
      the keyword at which the search ends, or -1. */
  method Rival(arg: EnumArg, text: string, first: nat, i0: nat) returns (i: nat, t: int, p: int)
    requires Keywords(arg.kwds) && IsText(text) && Searched(Matches(arg, text), first, i0, true)
    ensures i0 <= i <= |arg.kwds|
    ensures var m := Matches(arg, text);
      if t == -1 then p == -1 && (forall k :: !Accepts(m, true, k)) else Accepts(m, true, t)
  {
    ghost var m := Matches(arg, text);
    i, t, p := i0, first, -1;
    while i < |arg.kwds|
      invariant i0 <= i <= |arg.kwds| && p == -1 && (t == first || t == -1) && Searched(m, first, i, t == first)
    {
      var res := MatchKeyword(arg, text, i);
      if res == EXACT {
        SearchEnds(m, first, i, t == first);
        t, p := i, i;
        return;
      }
      SearchGoesOn(m, first, i, t == first);
      if res != NOMATCH {
        t := -1;
      }
      i := i + 1;
    }
    SearchEnds(m, first, i, t == first);
  }

  /** The keyword that the text is accepted for, or -1. */
  method ChooseKeyword(arg: EnumArg, text: string) returns (t: int)
    requires Keywords(arg.kwds) && IsText(text)
    ensures var m := Matches(arg, text);
      if t == -1 then forall k :: !Accepts(m, arg.checkunique, k) else Accepts(m, arg.checkunique, t)
  {
    ghost var m := Matches(arg, text);
    var i := 0;
    while i < |arg.kwds|
      invariant i <= |arg.kwds| && forall j :: 0 <= j < i ==> m[j] == NOMATCH
    {
      var s := i;
      var res := MatchKeyword(arg, text, s);
      i := i + 1;
      if res != NOMATCH {
        var p: int := s;
        t := s;
        if arg.checkunique && res != EXACT {
          i, t, p := Rival(arg, text, s, i);
        }
        if t != -1 {
          return t;
        }
        if p == -1 {
          return -1;
        }
      }
    }
    t := -1;
  }

  /** Accepts the text, and completes it to the keyword it stands for, if there is one. */
  method CheckEnumField(field: Field, arg: EnumArg) returns (ok: bool, ghost k: int)
    requires Shown(field) && Keywords(arg.kwds)
    modifies field.buf
    ensures Shown(field)
    ensures ok ==> Accepts(Matches(arg, old(Text(field))), arg.checkunique, k)
    ensures ok ==> Text(field) == Padded(arg.kwds[k], |old(Text(field))|)
    ensures !ok ==> Text(field) == old(Text(field))
    ensures !ok ==> forall j :: !Accepts(Matches(arg, old(Text(field))), arg.checkunique, j)
  {
    var t := ChooseKeyword(arg, Text(field));
    ok, k := t != -1, t;
    if ok {
      Show(field, arg.kwds[t]);
    }
  }

  /** The comparison with the dummy keyword, which reads as an empty string. */
  method IsBlankText(text: string, ccase: bool) returns (blank: bool)
    requires IsText(text)
    ensures blank == BlankFrom(text, 0)
  {
    var dummy: string := [];
    var res := Compare(dummy, text, ccase);
    assert TrimLeft(dummy) == [];
    assert Lead(text) == |text| <==> BlankFrom(text, 0);
    blank := res == EXACT;
  }

  /** The loop of Next_Enum: how many keywords are left after the first exact match, -1 if there was none, and the
      index after it. */
  method ScanForward(arg: EnumArg, text: string) returns (cnt: int, k: int)
    requires Keywords(arg.kwds) && IsText(text)
    ensures var n := FirstExact(arg, text);
      if n < |arg.kwds| then k == n + 1 && cnt == |arg.kwds| - k else cnt == -1
  {
    cnt, k := |arg.kwds|, 0;
    while cnt != 0
      invariant 0 <= cnt <= |arg.kwds| && k == |arg.kwds| - cnt
      invariant FirstExact(arg, text) == FirstFrom(arg.kwds, text, arg.checkcase, k)
    {
      cnt := cnt - 1;
      var res := Compare(arg.kwds[k], text, arg.checkcase);
      k := k + 1;
      if res == EXACT {
        return;
      }
    }
    cnt := -1;   // the test that ends the loop counts down once more
  }

  /** The loop of Previous_Enum: as above, from the other end. */
  method ScanBackward(arg: EnumArg, text: string) returns (cnt: int, k: int)
    requires Keywords(arg.kwds) && IsText(text)
    ensures var n := LastExact(arg, text); if n >= 0 then k == n - 1 && cnt == n else cnt == -1
  {
    cnt, k := |arg.kwds|, |arg.kwds| - 1;
    while cnt != 0
      invariant 0 <= cnt <= |arg.kwds| && k == cnt - 1
      invariant LastExact(arg, text) == LastBelow(arg.kwds, text, arg.checkcase, cnt)
    {
      cnt := cnt - 1;
      var res := Compare(arg.kwds[k], text, arg.checkcase);
      k := k - 1;
      if res == EXACT {
        return;
      }
    }
    cnt := -1;   // the test that ends the loop counts down once more
  }

  /** The keyword that Next_Enum loads, or -1; without keywords there is no list to step through. */
  method NextKeyword(arg: EnumArg, text: string) returns (k: int)
    requires Keywords(arg.kwds) && IsText(text)
    ensures k == Successor(arg, text)
  {
    if arg.kwds != [] {
      var cnt, at := ScanForward(arg, text);
      if cnt <= 0 {
        at := 0;
      }
      var blank := IsBlankText(text, arg.checkcase);
      if cnt >= 0 || blank {
        return at;
      }
    }
    k := -1;
  }

  /** Whether Previous_Enum loads a keyword, and which. Without keywords it still loads one after a blank text, from
      one place before the list. */
  method PreviousKeyword(arg: EnumArg, text: string) returns (load: bool, k: int)
    requires Keywords(arg.kwds) && IsText(text)
    ensures arg.kwds != [] ==> (if load then k else -1) == Predecessor(arg, text)
    ensures arg.kwds == [] ==> load == BlankFrom(text, 0) && k == -1
    ensures load && !(0 <= k < |arg.kwds|) <==> arg.kwds == [] && BlankFrom(text, 0)
  {
    var cnt;
    cnt, k := ScanBackward(arg, text);
    if cnt <= 0 {
      k := |arg.kwds| - 1;
    }
    var blank := IsBlankText(text, arg.checkcase);
    load := cnt >= 0 || blank;
  }

  /** Steps to the next keyword. */
  method NextEnum(field: Field, arg: EnumArg) returns (ok: bool)
    requires Shown(field) && Keywords(arg.kwds)
    modifies field.buf
    ensures Shown(field) && ok == (Successor(arg, old(Text(field))) != -1)
    ensures ok ==> Text(field) == Padded(arg.kwds[Successor(arg, old(Text(field)))], |old(Text(field))|)
    ensures !ok ==> Text(field) == old(Text(field))
  {
    var k := NextKeyword(arg, Text(field));
    ok := k != -1;
    if ok {
      Show(field, arg.kwds[k]);
    }
  }

  /** Steps to the previous keyword, unless that would be looked for before the list. */
  method PreviousEnum(field: Field, arg: EnumArg) returns (ok: bool)
    requires Shown(field) && Keywords(arg.kwds) && (arg.kwds != [] || !BlankFrom(Text(field), 0))
    modifies field.buf
    ensures Shown(field) && ok == (Predecessor(arg, old(Text(field))) != -1)
    ensures ok ==> Text(field) == Padded(arg.kwds[Predecessor(arg, old(Text(field)))], |old(Text(field))|)
    ensures !ok ==> Text(field) == old(Text(field))
  {
    var k;
    ok, k := PreviousKeyword(arg, Text(field));
    if ok {
      Show(field, arg.kwds[k]);
    }
  }
}
