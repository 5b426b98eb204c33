/** How the text of a field is compared with the keywords of an enumeration type. */
module EnumMatch {
  import opened FieldBuffer

  datatype Match = NOMATCH | PARTIAL | EXACT

  /** toupper of the C locale. */
  function ToUpper(c: char): (r: char) {
    if 'a' <= c <= 'z' then c - 32 as char else c
  }

  predicate Same(a: char, b: char, ccase: bool) {
    if ccase then a == b else ToUpper(a) == ToUpper(b)
  }

  /** Without checkcase a letter is like the same letter in the other case; apart from that, and with checkcase, a
      character is like itself alone. */
  lemma SameExact(a: char, b: char, ccase: bool)
    ensures Same(a, b, ccase) <==>
      || a == b
      || (!ccase && 'A' <= a <= 'Z' && b as int == a as int + 32)
      || (!ccase && 'A' <= b <= 'Z' && a as int == b as int + 32)
  {
  }

  /** A C string, read at or before its terminator. */
  function At(s: string, i: nat): char
    requires i <= |s|
  {
    if i < |s| then s[i] else NUL
  }

  predicate IsText(s: string) {
    NUL !in s
  }

  /** Where the blanks from position i on end. */
  function LeadFrom(s: string, i: nat): (n: nat)
    requires i <= |s|
    ensures i <= n <= |s| && (forall k :: i <= k < n ==> s[k] == ' ') && (n < |s| ==> s[n] != ' ')
    decreases |s| - i
  {
    if i == |s| || s[i] != ' ' then i else LeadFrom(s, i + 1)
  }

  /** Where the blanks before position i begin. */
  function TailFrom(s: string, i: nat): (n: nat)
    requires i <= |s|
    ensures n <= i && (forall k :: n <= k < i ==> s[k] == ' ') && (n > 0 ==> s[n - 1] != ' ')
  {
    if i == 0 || s[i - 1] != ' ' then i else TailFrom(s, i - 1)
  }

  /** How many blanks a text starts with. */
  function Lead(s: string): (n: nat)
    ensures n <= |s|
  {
    LeadFrom(s, 0)
  }

  /** Where the blanks that a text ends with begin. */
  function Tail(s: string): (n: nat)
    ensures n <= |s|
  {
    TailFrom(s, |s|)
  }

  function TrimLeft(s: string): (r: string)
    ensures r == [] || r[0] != ' '
  {
    s[Lead(s)..]
  }

  /** A text without the blanks around it. */
  function Trim(s: string): (r: string) {
    var t := TrimLeft(s);
    t[..Tail(t)]
  }

  /** The first n characters are the same. */
  predicate Agree(s: string, b: string, n: nat, ccase: bool) {
    n <= |s| && n <= |b| && forall k :: 0 <= k < n ==> Same(s[k], b[k], ccase)
  }

  predicate BlankFrom(s: string, n: nat) {
    forall k :: n <= k < |s| ==> s[k] == ' '
  }

  /** Leading blanks aside, the buffer is the keyword and then only blanks. */
  predicate IsExact(s: string, buf: string, ccase: bool) {
    var t, b := TrimLeft(s), TrimLeft(buf);
    Agree(t, b, |t|, ccase) && BlankFrom(b, |t|)
  }

  /** What there is in the buffer is the beginning of the keyword. */
  predicate IsPartial(s: string, buf: string, ccase: bool) {
    Trim(buf) != [] && Agree(TrimLeft(s), Trim(buf), |Trim(buf)|, ccase)
  }

  function Matching(s: string, buf: string, ccase: bool): Match {
    if IsExact(s, buf, ccase) then EXACT else if IsPartial(s, buf, ccase) then PARTIAL else NOMATCH
  }

  /** A blank text is a blank keyword, and matches no other, not even in part. */
  lemma BlankMatches(s: string, buf: string, ccase: bool)
    requires BlankFrom(buf, 0)
    ensures Matching(s, buf, ccase) == if BlankFrom(s, 0) then EXACT else NOMATCH
  {
    assert Lead(buf) == |buf| && (Lead(s) == |s| <==> BlankFrom(s, 0));
    assert Trim(buf) == [] && TrimLeft(buf) == [];
  }

  /** Skips blanks from position i on. */
  method SkipSpace(s: string, i: nat) returns (j: nat)
    requires i <= |s| && IsText(s)
    ensures i <= j <= |s| && (forall k :: i <= k < j ==> s[k] == ' ') && (j < |s| ==> s[j] != ' ')
  {
    j := i;
    while At(s, j) != NUL && At(s, j) == ' '
      invariant i <= j <= |s|
      invariant forall k :: i <= k < j ==> s[k] == ' '
      decreases |s| - j
    {
      j := j + 1;
    }
  }

  lemma LeadIs(s: string, n: nat)
    requires n <= |s| && (forall k :: 0 <= k < n ==> s[k] == ' ') && (n < |s| ==> s[n] != ' ')
    ensures Lead(s) == n
  {
  }

  /** Where b parts from a text that begins with what b has before its last blanks, only blanks follow. */
  lemma OnlyBlanksAfter(t: string, b: string, n: nat, ccase: bool)
    requires n <= |b| && Agree(t, b, Tail(b), ccase)
    requires n < |t| && n < |b| ==> !Same(t[n], b[n], ccase)
    requires n == |t| || n < |t|
    ensures BlankFrom(b, n)
  {
  }

  /** Where the texts part, or one of them ends, decides how they match. */
  lemma Parting(s: string, buf: string, n: nat, ccase: bool)
    requires var t, b := TrimLeft(s), TrimLeft(buf); b != [] && Agree(t, b, n, ccase)
    requires var t, b := TrimLeft(s), TrimLeft(buf); n < |t| && n < |b| ==> !Same(t[n], b[n], ccase)
    ensures var t, b := TrimLeft(s), TrimLeft(buf);
      Matching(s, buf, ccase) == if !BlankFrom(b, n) then NOMATCH else if n < |t| then PARTIAL else EXACT
  {
    var t, b := TrimLeft(s), TrimLeft(buf);
    assert Tail(b) > 0;
    if IsPartial(s, buf, ccase) {
      assert Agree(t, b, Tail(b), ccase) by {
        assert Trim(buf) == b[..Tail(b)];
      }
      OnlyBlanksAfter(t, b, n, ccase);
    }
  }

  /** One more character that both texts share. */
  lemma AgreeMore(s: string, i: nat, buf: string, j: nat, n: nat, ccase: bool)
    requires i + n < |s| && j + n < |buf| && Agree(s[i..], buf[j..], n, ccase) && Same(s[i + n], buf[j + n], ccase)
    ensures Agree(s[i..], buf[j..], n + 1, ccase)
  {
  }

  method Compare(s: string, buf: string, ccase: bool) returns (r: Match)
    requires IsText(s) && IsText(buf)
    ensures r == Matching(s, buf, ccase) && (r == EXACT <==> IsExact(s, buf, ccase))
  {
    var j := SkipSpace(buf, 0);
    var i := SkipSpace(s, 0);
    LeadIs(buf, j);
    LeadIs(s, i);
    ghost var t, b := TrimLeft(s), TrimLeft(buf);
    if At(buf, j) == NUL {
      return if At(s, i) != NUL then NOMATCH else EXACT;
    }
    ghost var n := 0;
    while Same(At(s, i), At(buf, j), ccase)
      invariant i == Lead(s) + n && j == Lead(buf) + n && n <= |t| && n <= |b| && Agree(t, b, n, ccase)
      decreases |b| - n
    {
      if At(buf, j) == NUL {
        Parting(s, buf, n, ccase);
        return EXACT;
      }
      AgreeMore(s, Lead(s), buf, Lead(buf), n, ccase);
      i, j, n := i + 1, j + 1, n + 1;
    }
    Parting(s, buf, n, ccase);
    j := SkipSpace(buf, j);
    if At(buf, j) != NUL {
      assert b[j - Lead(buf)] != ' ';
      return NOMATCH;
    }
    r := if At(s, i) != NUL then PARTIAL else EXACT;
  }
}
