/** The memory of a field's buffers: nbuf + 1 rows of equal length, each closed by a terminator. */
module FieldBuffer {
  import opened FormTypes

  const NUL := '\0'

  /** Where row i starts when rows hold that many cells. */
  function RowStart(cells: nat, i: nat): (start: nat) {
    (cells + 1) * i
  }

  lemma RowStep(cells: nat, i: nat)
    ensures RowStart(cells, i + 1) == RowStart(cells, i) + cells + 1
  {
  }

  lemma RowOrder(cells: nat, i: nat, j: nat)
    requires i < j
    ensures RowStart(cells, i) + cells < RowStart(cells, j)
    decreases j
  {
    RowStep(cells, j - 1);
    if i < j - 1 {
      RowOrder(cells, i, j - 1);
    }
  }

  /** Row i of a memory: cells of text and a terminator. */
  function Row(memory: seq<char>, cells: nat, i: nat): (row: seq<char>)
    requires RowStart(cells, i) + cells < |memory|
    ensures |row| == cells + 1
  {
    memory[RowStart(cells, i)..RowStart(cells, i) + cells + 1]
  }

  function Blanks(n: nat): (s: seq<char>)
    ensures |s| == n && forall k :: 0 <= k < n ==> s[k] == ' '
  {
    seq(n, _ => ' ')
  }

  /** Whether row i is blank and closed. */
  predicate IsBlankRow(memory: seq<char>, cells: nat, i: nat) {
    RowStart(cells, i) + cells < |memory| && Row(memory, cells, i) == Blanks(cells) + [NUL]
  }

  ghost predicate BlankRows(memory: seq<char>, cells: nat, nbuf: int) {
    forall i {:trigger IsBlankRow(memory, cells, i)} :: 0 <= i <= nbuf ==> IsBlankRow(memory, cells, i)
  }

  /** Fills every row with blanks and closes it. */
  method Prefill(buf: Buffer, cells: nat, nbuf: int)
    requires nbuf >= -1 && buf.Length == RowStart(cells, nbuf + 1)
    modifies buf
    ensures BlankRows(buf[..], cells, nbuf)
  {
    for i := 0 to nbuf + 1
      invariant forall k {:trigger IsBlankRow(buf[..], cells, k)} :: 0 <= k < i ==> IsBlankRow(buf[..], cells, k)
    {
      RowOrder(cells, i, nbuf + 1);
      PrefillRow(buf, cells, i);
    }
  }

  /** Fills one row and leaves the others alone. */
  method PrefillRow(buf: Buffer, cells: nat, i: nat)
    requires RowStart(cells, i) + cells < buf.Length
    modifies buf
    ensures IsBlankRow(buf[..], cells, i)
    ensures forall k :: 0 <= k < i && old(IsBlankRow(buf[..], cells, k)) ==> IsBlankRow(buf[..], cells, k)
  {
    var start := RowStart(cells, i);
    var j := 0;
    while j < cells
      invariant j <= cells
      invariant forall k :: start <= k < start + j ==> buf[k] == ' '
      invariant forall k :: 0 <= k < buf.Length && !(start <= k < start + j) ==> buf[k] == old(buf[k])
    {
      buf[start + j] := ' ';
      j := j + 1;
    }
    buf[start + j] := NUL;
    assert Row(buf[..], cells, i) == Blanks(cells) + [NUL];
    forall k | 0 <= k < i && old(IsBlankRow(buf[..], cells, k))
      ensures IsBlankRow(buf[..], cells, k)
    {
      RowOrder(cells, k, i);
      assert Row(buf[..], cells, k) == old(Row(buf[..], cells, k));
    }
  }

  /** Copies a memory cell by cell. */
  method CopyCells(to: Buffer, from: Buffer)
    requires to.Length == from.Length && to != from
    modifies to
    ensures to[..] == from[..]
  {
    for i := 0 to to.Length
      invariant forall k :: 0 <= k < i ==> to[k] == from[k]
    {
      to[i] := from[i];
    }
  }

  /** The field has a memory as large as its size and number of buffers call for. */
  ghost predicate Sized(f: Field)
    reads f`buf, f`traits
  {
    && f.buf != null && f.traits.drows >= 0 && f.traits.dcols >= 0 && f.traits.nbuf >= -1
    && f.buf.Length == RowStart(f.traits.drows * f.traits.dcols, f.traits.nbuf + 1)
  }

  /** A value as it lies in n cells: cut off, or filled up with blanks. */
  function Padded(value: string, n: nat): (r: string)
    ensures |r| == n
    ensures forall k :: 0 <= k < n ==> r[k] == if k < |value| then value[k] else ' '
  {
    if |value| >= n then value[..n] else value + Blanks(n - |value|)
  }

  /** Writes a value into n cells from start on. */
  method WriteCells(buf: Buffer, start: nat, n: nat, value: string)
    requires start + n <= buf.Length && NUL !in value
    modifies buf
    ensures buf[start..start + n] == Padded(value, n)
    ensures forall k :: 0 <= k < buf.Length && !(start <= k < start + n) ==> buf[k] == old(buf[k])
  {
    var i := 0;
    while i < n
      invariant i <= n
      invariant forall k :: start <= k < start + i ==> buf[k] == Padded(value, n)[k - start]
      invariant forall k :: 0 <= k < buf.Length && !(start <= k < start + i) ==> buf[k] == old(buf[k])
    {
      if i >= |value| {
        while i < n
          invariant |value| <= i <= n
          invariant forall k :: start <= k < start + i ==> buf[k] == Padded(value, n)[k - start]
          invariant forall k :: 0 <= k < buf.Length && !(start <= k < start + i) ==> buf[k] == old(buf[k])
        {
          buf[start + i] := ' ';
          i := i + 1;
        }
        break;
      }
      buf[start + i] := value[i];
      i := i + 1;
    }
  }

  /** Stores a value in one of the buffers of a field that cannot grow. */
  method SetFieldBuffer(field: Field?, buffer: int, value: string) returns (res: Code)
    requires (field != null ==> Sized(field)) && NUL !in value
    modifies if field == null || field.buf == null then {} else {field.buf}
    ensures res == if field == null || buffer < 0 || buffer > field.traits.nbuf then E_BAD_ARGUMENT else E_OK
    ensures res == E_BAD_ARGUMENT && field != null ==> field.buf[..] == old(field.buf[..])
    ensures res == E_OK ==> var cells, memory := field.traits.drows * field.traits.dcols, field.buf[..];
      && RowStart(cells, buffer) + cells < |memory|
      && Row(memory, cells, buffer)[..cells] == Padded(value, cells)
      && forall k :: 0 <= k < |memory| && !(RowStart(cells, buffer) <= k < RowStart(cells, buffer) + cells) ==>
           memory[k] == old(field.buf[..])[k]
  {
    if field == null || buffer < 0 || buffer > field.traits.nbuf {
      return E_BAD_ARGUMENT;
    }
    var cells := field.traits.drows * field.traits.dcols;
    RowOrder(cells, buffer, field.traits.nbuf + 1);
    var start := RowStart(cells, buffer);
    WriteCells(field.buf, start, cells, value);
    assert Row(field.buf[..], cells, buffer)[..cells] == field.buf[start..start + cells];
    res := E_OK;
  }
}
