/**
 The CSV writer and reader of the sqlite shell: `output_csv`, the MODE_Csv row case,
 `import_append_char`, `csv_read_one_field` and the row loop of `.import`.

 Section 2 of RFC 4180 is the format both sides follow.  The writer is a pair of methods on
 `ShellState`, the reader a method on `ImportCtx`; each is proved against a function on byte
 sequences, and the lemmas relate the two functions.
 */
module Csv {
  import opened Prelude

  const QUOTE: Byte := 34
  const CR: Byte := 13
  const LF: Byte := 10
  const EOF: int := -1

  /** A NUL-free C string. */
  type CString = s: seq<Byte> | 0 !in s

  /** A separator character: plain `char` may be signed, so only ASCII separators are modelled. */
  type Sep = b: int | 0 < b < 128 witness 44

  // ---------- what the writer prints ----------

  /** The table `needCsvQuote`. */
  predicate NeedCsvQuote(b: Byte) {
    b <= 32 || b == 34 || b == 39 || b >= 127
  }

  /** The test at one position of the scan in `output_csv`. */
  predicate ForcesQuote(z: CString, colSep: CString, i: nat)
    requires i < |z|
  {
    NeedCsvQuote(z[i]) || (colSep != [] && z[i] == colSep[0] && (|colSep| == 1 || colSep <= z))
  }

  predicate MustQuote(z: CString, colSep: CString) {
    z == [] || exists i :: 0 <= i < |z| && ForcesQuote(z, colSep, i)
  }

  function Doubled(z: seq<Byte>): seq<Byte> {
    if z == [] then [] else (if z[0] == QUOTE then [QUOTE, QUOTE] else [z[0]]) + Doubled(z[1..])
  }

  function TermText(z: CString, colSep: CString): seq<Byte> {
    if MustQuote(z, colSep) then [QUOTE] + Doubled(z) + [QUOTE] else z
  }

  function RowText(row: seq<CString>, colSep: CString, rowSep: CString): seq<Byte> {
    if row == [] then []
    else if |row| == 1 then TermText(row[0], colSep) + rowSep
    else TermText(row[0], colSep) + colSep + RowText(row[1..], colSep, rowSep)
  }

  /** One column: a null is printed as the null value, unquoted. */
  function CellText(z: Option<CString>, colSep: CString, nullValue: CString): seq<Byte> {
    match z case None => nullValue case Some(s) => TermText(s, colSep)
  }

  /** A row that may hold nulls. */
  function CellsText(row: seq<Option<CString>>, colSep: CString, rowSep: CString, nullValue: CString): seq<Byte> {
    if row == [] then []
    else if |row| == 1 then CellText(row[0], colSep, nullValue) + rowSep
    else CellText(row[0], colSep, nullValue) + colSep + CellsText(row[1..], colSep, rowSep, nullValue)
  }

  lemma CellsStep(row: seq<Option<CString>>, i: nat, colSep: CString, rowSep: CString, nullValue: CString)
    requires i < |row|
    ensures CellsText(row[i..], colSep, rowSep, nullValue)
         == CellText(row[i], colSep, nullValue)
            + if i == |row| - 1 then rowSep else colSep + CellsText(row[i + 1..], colSep, rowSep, nullValue)
  {
    assert row[i..][0] == row[i] && row[i..][1..] == row[i + 1..];
  }

  lemma NoCells(colSep: CString, rowSep: CString, nullValue: CString)
    ensures CellsText([], colSep, rowSep, nullValue) == []
  {
  }

  function Strings(row: seq<CString>): seq<Option<CString>> {
    seq(|row|, i requires 0 <= i < |row| => Some(row[i]))
  }

  /** Without nulls the two are one. */
  lemma {:induction false} StringsAreCells(row: seq<CString>, colSep: CString, rowSep: CString, nullValue: CString)
    ensures CellsText(Strings(row), colSep, rowSep, nullValue) == RowText(row, colSep, rowSep)
  {
    if |row| > 1 {
      StringsAreCells(row[1..], colSep, rowSep, nullValue);
      assert Strings(row)[1..] == Strings(row[1..]);
    }
  }

  lemma {:induction false} DoubledSnoc(z: seq<Byte>, c: Byte)
    ensures Doubled(z + [c]) == Doubled(z) + if c == QUOTE then [QUOTE, QUOTE] else [c]
  {
    if z == [] {
      assert z + [c] == [c] && [c][1..] == [];
      assert Doubled([]) == [];
    } else {
      var first := if z[0] == QUOTE then [QUOTE, QUOTE] else [z[0]];
      var last := if c == QUOTE then [QUOTE, QUOTE] else [c];
      DoubledSnoc(z[1..], c);
      assert (z + [c])[0] == z[0] && (z + [c])[1..] == z[1..] + [c];
      assert Doubled(z + [c]) == first + Doubled(z[1..] + [c]);
      Assoc(first, Doubled(z[1..]), last);
    }
  }

  class ShellState {
    var out: seq<Byte>
    const colSeparator: CString
    const rowSeparator: CString
    const nullValue: CString

    constructor (colSeparator: CString, rowSeparator: CString, nullValue: CString)
      ensures out == [] && this.colSeparator == colSeparator && this.rowSeparator == rowSeparator
      ensures this.nullValue == nullValue
    {
      out := [];
      this.colSeparator, this.rowSeparator, this.nullValue := colSeparator, rowSeparator, nullValue;
    }

    /** The scan of `output_csv`: it ends at 0 exactly when the term must be quoted. */
    method ScanTerm(s: CString) returns (i: nat)
      ensures i == 0 <==> MustQuote(s, colSeparator)
    {
      i := 0;
      while i < |s|
        invariant 0 <= i <= |s|
        invariant forall k :: 0 <= k < i ==> !ForcesQuote(s, colSeparator, k)
      {
        if ForcesQuote(s, colSeparator, i) {
          i := 0;
          break;
        }
        i := i + 1;
      }
    }

    /** The body of a quoted term, each quote twice. */
    method PutDoubled(s: CString)
      modifies this
      ensures out == old(out) + Doubled(s)
    {
      var i := 0;
      while i < |s|
        invariant 0 <= i <= |s| && out == old(out) + Doubled(s[..i])
      {
        assert s[..i + 1] == s[..i] + [s[i]];
        DoubledSnoc(s[..i], s[i]);
        if s[i] == QUOTE {
          out := out + [QUOTE];
        }
        out := out + [s[i]];
        i := i + 1;
      }
      assert s[..i] == s;
    }

    /** `output_csv`. */
    method OutputCsv(z: Option<CString>, bSep: bool)
      modifies this
      ensures out == old(out) + CellText(z, colSeparator, nullValue) + (if bSep then colSeparator else [])
    {
      if z.None? {
        out := out + nullValue;
      } else {
        var i := ScanTerm(z.value);
        if i == 0 {
          out := out + [QUOTE];
          PutDoubled(z.value);
          out := out + [QUOTE];
          assert out == old(out) + ([QUOTE] + Doubled(z.value) + [QUOTE]);
        } else {
          out := out + z.value;
        }
      }
      if bSep {
        out := out + colSeparator;
      }
    }

    /** The MODE_Csv row case. */
    method OutputRow(row: seq<Option<CString>>)
      modifies this
      ensures out == old(out) + CellsText(row, colSeparator, rowSeparator, nullValue)
    {
      hide CellsText, CellText;
      assert row[0..] == row;
      if |row| > 0 {
        var i := 0;
        while i < |row|
          invariant 0 <= i <= |row|
          invariant i < |row| ==> out + CellsText(row[i..], colSeparator, rowSeparator, nullValue)
                                  == old(out) + CellsText(row, colSeparator, rowSeparator, nullValue)
          invariant i == |row| ==> out + rowSeparator
                                   == old(out) + CellsText(row, colSeparator, rowSeparator, nullValue)
        {
          CellsStep(row, i, colSeparator, rowSeparator, nullValue);
          OutputCsv(row[i], i < |row| - 1);
          i := i + 1;
        }
        out := out + rowSeparator;
      } else {
        assert CellsText([], colSeparator, rowSeparator, nullValue) == [] by { NoCells(colSeparator, rowSeparator, nullValue); }
      }
    }
  }

  // ---------- what the reader returns ----------

  /** A field, the character (or EOF) that ended it, and the input left after it. */
  datatype Field = Field(text: seq<Byte>, term: int, rest: seq<Byte>)

  /** What `fgetc` returns: a byte or EOF. */
  type Char = c: int | -1 <= c < 256

  function Next(input: seq<Byte>): Char {
    if input == [] then EOF else input[0]
  }

  function Tail(input: seq<Byte>): seq<Byte> {
    if input == [] then [] else input[1..]
  }

  /** Where the two remembered characters promise an unmatched quote near the end of `z`. */
  predicate QuoteTrail(z: seq<Byte>, pc: int, ppc: int) {
    && (pc == QUOTE ==> |z| >= 1 && z[|z| - 1] == QUOTE)
    && (pc == CR && ppc == QUOTE ==> |z| >= 2 && z[|z| - 2] == QUOTE)
  }

  /** The four ways a quoted field ends. */
  predicate Ends(c: int, pc: int, ppc: int, cs: int, rs: int) {
    || (c == cs && pc == QUOTE)
    || (c == rs && pc == QUOTE)
    || (c == rs && pc == CR && ppc == QUOTE)
    || (c == EOF && pc == QUOTE)
  }

  /** The backward scan: everything before the last quote. */
  function BeforeLastQuote(z: seq<Byte>): seq<Byte>
    requires QUOTE in z
  {
    if z[|z| - 1] == QUOTE then z[..|z| - 1]
    else
      assert z == z[..|z| - 1] + [z[|z| - 1]];
      BeforeLastQuote(z[..|z| - 1])
  }

  lemma LastQuoteStep(z: seq<Byte>)
    requires QUOTE in z
    ensures z[|z| - 1] == QUOTE ==> BeforeLastQuote(z) == z[..|z| - 1]
    ensures z[|z| - 1] != QUOTE ==> QUOTE in z[..|z| - 1] && BeforeLastQuote(z) == BeforeLastQuote(z[..|z| - 1])
  {
    assert z == z[..|z| - 1] + [z[|z| - 1]];
  }

  /** The loop over the body of a quoted field. */
  function ScanQuoted(input: seq<Byte>, z: seq<Byte>, pc: int, ppc: int, cs: int, rs: int): Field
    requires QuoteTrail(z, pc, ppc)
    decreases |input|
  {
    var c := Next(input);
    if c == QUOTE && pc == QUOTE then ScanQuoted(input[1..], z, 0, ppc, cs, rs)
    else if Ends(c, pc, ppc, cs, rs) then Field(BeforeLastQuote(z), c, Tail(input))
    else if c == EOF then Field(z, EOF, [])
    else ScanQuoted(input[1..], z + [c], c, pc, cs, rs)
  }

  lemma QuotedStep(input: seq<Byte>, z: seq<Byte>, pc: int, ppc: int, cs: int, rs: int)
    requires QuoteTrail(z, pc, ppc)
    ensures var c := Next(input);
            ScanQuoted(input, z, pc, ppc, cs, rs) ==
              if c == QUOTE && pc == QUOTE then ScanQuoted(input[1..], z, 0, ppc, cs, rs)
              else if Ends(c, pc, ppc, cs, rs) then Field(BeforeLastQuote(z), c, Tail(input))
              else if c == EOF then Field(z, EOF, [])
              else ScanQuoted(input[1..], z + [c], c, pc, cs, rs)
  {
  }

  /** The loop over an unquoted field; `c` has been read already. */
  function ScanPlain(c: Char, input: seq<Byte>, z: seq<Byte>, cs: int, rs: int): Field
    decreases |input|, c != EOF
  {
    if c == EOF || c == cs || c == rs then
      Field(if c == rs && |z| > 0 && z[|z| - 1] == CR then z[..|z| - 1] else z, c, input)
    else ScanPlain(Next(input), Tail(input), z + [c], cs, rs)
  }

  function ReadField(input: seq<Byte>, cs: Sep, rs: Sep): Field
    requires input != []
  {
    if input[0] == QUOTE then ScanQuoted(input[1..], [], 0, 0, cs, rs)
    else ScanPlain(input[0], input[1..], [], cs, rs)
  }

  function Occurrences(c: int, s: seq<Byte>): nat {
    if s == [] then 0 else (if s[0] == c then 1 else 0) + Occurrences(c, s[1..])
  }

  class ImportCtx {
    var input: seq<Byte>  // what is left of the stream
    var z: array?<Byte>
    var n: nat
    var nAlloc: nat
    var nLine: nat
    var cTerm: int
    const cColSep: Sep
    const cRowSep: Sep

    constructor (input: seq<Byte>, cColSep: Sep, cRowSep: Sep)
      ensures Valid() && this.input == input && this.cColSep == cColSep && this.cRowSep == cRowSep
      ensures z == null && Text() == []
    {
      this.input, this.cColSep, this.cRowSep := input, cColSep, cRowSep;
      z, n, nAlloc, nLine, cTerm := null, 0, 0, 1, 0;
    }

    /** The buffer always has room for the NUL after the field. */
    ghost predicate Valid()
      reads `z, `n, `nAlloc
    {
      && (z == null ==> n == 0 && nAlloc == 0)
      && (z != null ==> z.Length == nAlloc && n < nAlloc)
    }

    ghost function Text(): seq<Byte>
      requires Valid()
      reads `z, `n, `nAlloc, z
    {
      if z == null then [] else z[..n]
    }

    /** `import_append_char`: grow when fewer than two cells are left, then store one byte. */
    method AppendChar(c: Byte)
      requires Valid()
      modifies this`z, this`n, this`nAlloc, z
      ensures Valid() && z != null && (z == old(z) || fresh(z))
      ensures Text() == old(Text()) + [c] && n == old(n) + 1
    {
      if n + 1 >= nAlloc {
        nAlloc := nAlloc + nAlloc + 100;
        var grown := new Byte[nAlloc](_ => 0);
        if z != null {
          forall i | 0 <= i < n { grown[i] := z[i]; }
        }
        z := grown;
      }
      assert old(n) == n && (if old(z) == null then [] else old(z[..n])) == z[..n];
      z[n] := c;
      n := n + 1;
    }

    /** Lines counted so far and row separators still in the stream: a constant of the reader. */
    ghost function LineTotal(): nat
      reads `nLine, `input
    {
      nLine + Occurrences(cRowSep, input)
    }

    method GetChar() returns (c: Char)
      modifies this`input
      ensures c == Next(old(input)) && input == Tail(old(input))
      ensures old(LineTotal()) == LineTotal() + if c == cRowSep then 1 else 0
    {
      if input == [] {
        c := EOF;
      } else {
        c, input := input[0], input[1..];
      }
    }

    /** The branch of `csv_read_one_field` taken after an opening quote. */
    method ReadQuoted()
      requires Valid() && n == 0
      modifies this, z
      ensures Valid() && (z == old(z) || fresh(z))
      ensures Field(Text(), cTerm, input) == ScanQuoted(old(input), [], 0, 0, cColSep, cRowSep)
      ensures LineTotal() == old(LineTotal())
    {
      hide ScanQuoted, BeforeLastQuote, Occurrences;
      ghost var goal := ScanQuoted(input, [], 0, 0, cColSep, cRowSep);
      var pc, ppc := 0, 0;
      while true
        invariant Valid() && (z == old(z) || fresh(z))
        invariant QuoteTrail(Text(), pc, ppc)
        invariant ScanQuoted(input, Text(), pc, ppc, cColSep, cRowSep) == goal
        invariant LineTotal() == old(LineTotal())
        decreases |input|
      {
        QuotedStep(input, Text(), pc, ppc, cColSep, cRowSep);
        var c := GetChar();
        if c == cRowSep { nLine := nLine + 1; }
        if c == QUOTE {
          if pc == QUOTE {
            pc := 0;
            continue;
          }
        }
        if Ends(c, pc, ppc, cColSep, cRowSep) {
          BackToQuote();
          cTerm := c;
          break;
        }
        if c == EOF {
          cTerm := c;
          break;
        }
        AppendChar(c);
        ppc := pc;
        pc := c;
      }
    }

    /** The backward scan over the buffer; the quote it looks for is always there. */
    method BackToQuote()
      requires Valid() && QUOTE in Text()
      modifies this`n
      ensures Valid() && Text() == BeforeLastQuote(old(Text()))
    {
      hide BeforeLastQuote;
      n := n - 1;
      LastQuoteStep(z[..n + 1]);
      while z[n] != QUOTE
        invariant n < nAlloc && QUOTE in z[..n + 1]
        invariant BeforeLastQuote(z[..n + 1]) == BeforeLastQuote(old(Text()))
        decreases n
      {
        LastQuoteStep(z[..n + 1]);
        assert z[..n + 1][..n] == z[..n];
        n := n - 1;
      }
      LastQuoteStep(z[..n + 1]);
      assert z[..n + 1][..n] == z[..n];
    }

    /** The branch for a field that does not start with a quote; `first` has been read. */
    method ReadPlain(first: Byte)
      requires Valid() && n == 0
      modifies this, z
      ensures Valid() && (z == old(z) || fresh(z))
      ensures Field(Text(), cTerm, input) == ScanPlain(first, old(input), [], cColSep, cRowSep)
      ensures LineTotal() == old(LineTotal()) + if first == cRowSep then 1 else 0
    {
      ghost var goal := ScanPlain(first, input, [], cColSep, cRowSep);
      var c: Char := first;
      while c != EOF && c != cColSep && c != cRowSep
        invariant Valid() && (z == old(z) || fresh(z))
        invariant ScanPlain(c, input, Text(), cColSep, cRowSep) == goal
        invariant LineTotal() + (if c == cRowSep then 1 else 0)
               == old(LineTotal()) + if first == cRowSep then 1 else 0
        decreases |input|, c != EOF
      {
        AppendChar(c);
        c := GetChar();
      }
      if c == cRowSep {
        nLine := nLine + 1;
        DropCr();
      }
      cTerm := c;
    }

    method DropCr()
      requires Valid()
      modifies this`n
      ensures Valid()
      ensures Text() == var t := old(Text()); if |t| > 0 && t[|t| - 1] == CR then t[..|t| - 1] else t
    {
      if n > 0 && z[n - 1] == CR {
        assert z[..n][..n - 1] == z[..n - 1];
        n := n - 1;
      }
    }

    /** `csv_read_one_field`.  False stands for the null return. */
    method ReadOneField() returns (present: bool)
      requires Valid()
      modifies this, z
      ensures Valid() && (z == old(z) || fresh(z))
      ensures old(input) == [] ==> !present && cTerm == EOF && input == []
      ensures old(input) != [] ==>
                && (present <==> z != null)
                && Field(Text(), cTerm, input) == ReadField(old(input), cColSep, cRowSep)
      ensures cRowSep != QUOTE ==> LineTotal() == old(LineTotal())
    {
      n := 0;
      var c := GetChar();
      if c == EOF {
        cTerm := EOF;
        return false;
      }
      if c == QUOTE {
        ReadQuoted();
      } else {
        ReadPlain(c);
      }
      if z != null {
        Terminate();
      }
      present := z != null;
    }

    /** The columns of one row of `.import`; false when the stream was over. */
    method ReadCells(nCol: nat) returns (found: bool, cells: seq<Option<seq<Byte>>>)
      requires Valid() && z != null && nCol > 0
      modifies this, z
      ensures Valid() && z != null && (z == old(z) || fresh(z))
      ensures found <==> old(input) != []
      ensures found ==> Imported(cells, cTerm, input) == ImportCells(old(input), nCol, cColSep, cRowSep)
      ensures !found ==> cTerm == EOF && input == []
    {
      hide UpToNul, ReadField, ImportCells, Nulls;
      cells := [];
      ghost var start := input;
      var i := 0;
      while i < nCol
        invariant 0 <= i <= nCol && Valid() && z != null && (z == old(z) || fresh(z))
        invariant i == 0 ==> input == start && cells == []
        invariant i > 0 ==> start != []
        invariant 0 < i < nCol ==> cTerm == cColSep
        invariant i < nCol ==>
                    var more := ImportCells(input, nCol - i, cColSep, cRowSep);
                    Imported(cells + more.cells, more.term, more.rest) == ImportCells(start, nCol, cColSep, cRowSep)
        invariant i == nCol ==> Imported(cells, cTerm, input) == ImportCells(start, nCol, cColSep, cRowSep)
      {
        ghost var had := cells;
        ImportStep(input, nCol - i, cColSep, cRowSep);
        var present := ReadOneField();
        if !present && i == 0 { return false, []; }
        var cell := if present then Some(UpToNul(z[..n])) else None;
        cells := cells + [cell];
        if i < nCol - 1 && cTerm != cColSep {
          cells := cells + Nulls(nCol - 1 - i);
          Assoc(had, [cell], Nulls(nCol - 1 - i));
          return true, cells;
        }
        if i < nCol - 1 {
          Assoc(had, [cell], ImportCells(input, nCol - 1 - i, cColSep, cRowSep).cells);
        }
        i := i + 1;
      }
      found := true;
    }

    /** Read and drop fields until one does not end at a column separator. */
    method SkipFields()
      requires Valid() && z != null
      modifies this, z
      ensures Valid() && z != null && (z == old(z) || fresh(z))
      ensures (cTerm, input) == SkipExtras(old(input), cColSep, cRowSep)
    {
      hide ReadField;
      ghost var start := input;
      var present := ReadOneField();
      while cTerm == cColSep
        invariant Valid() && z != null && (z == old(z) || fresh(z))
        invariant SkipExtras(start, cColSep, cRowSep)
               == if cTerm == cColSep then SkipExtras(input, cColSep, cRowSep) else (cTerm, input)
        decreases |input|, if cTerm == cColSep then 1 else 0
      {
        if input != [] { FieldShrinks(input, cColSep, cRowSep); }
        present := ReadOneField();
      }
    }

    /** One turn of the loop of `.import`. */
    method ReadRow(nCol: nat) returns (found: bool, cells: seq<Option<seq<Byte>>>)
      requires Valid() && z != null && nCol > 0
      modifies this, z
      ensures Valid() && z != null && (z == old(z) || fresh(z))
      ensures found <==> old(input) != []
      ensures found ==> Imported(cells, cTerm, input) == ImportRow(old(input), nCol, cColSep, cRowSep)
      ensures !found ==> cTerm == EOF && input == []
    {
      hide ImportCells, SkipExtras;
      found, cells := ReadCells(nCol);
      if found && cTerm == cColSep { SkipFields(); }
    }

    /** The loop of `.import` over the rows of the stream; its body runs before the first test. */
    method Import(nCol: nat) returns (rows: seq<seq<Option<seq<Byte>>>>)
      requires Valid() && nCol > 0
      modifies this, z
      ensures rows == ImportRows(old(input), nCol, cColSep, cRowSep)
    {
      hide ImportRow, ImportRows;
      ghost var start := input;
      AppendChar(0);
      rows := [];
      var again := true;
      while again
        invariant Valid() && z != null && (z == old(z) || fresh(z))
        invariant ImportRows(start, nCol, cColSep, cRowSep)
               == rows + if again then ImportRows(input, nCol, cColSep, cRowSep) else []
        decreases |input|, again
      {
        ghost var before := input;
        var found, cells := ReadRow(nCol);
        if found {
          RowShrinks(before, nCol, cColSep, cRowSep);
          Assoc(rows, [cells], if cTerm == EOF then [] else ImportRows(input, nCol, cColSep, cRowSep));
          rows := rows + [cells];
        }
        RowsStep(before, nCol, cColSep, cRowSep);
        again := cTerm != EOF;
      }
    }

    /** The NUL after the field is written inside the buffer. */
    method Terminate()
      requires Valid() && z != null
      modifies z
      ensures Valid() && Text() == old(Text()) && z[n] == 0
    {
      z[n] := 0;
      assert z[..n] == old(z[..n]);
    }
  }

  // ---------- reading back what was printed ----------

  /** `tail` ends a field by `term`: a separator, or CR and the row separator. */
  predicate EndsField(tail: seq<Byte>, term: int, rest: seq<Byte>, cs: Sep, rs: Sep) {
    || (term == cs && tail == [cs] + rest)
    || (term == rs && tail == [rs] + rest)
    || (term == rs && tail == [CR, rs] + rest && cs != CR && rs != CR)
  }

  lemma ClosingQuoteIsDropped(z: seq<Byte>)
    ensures BeforeLastQuote(z + [QUOTE]) == z
    ensures BeforeLastQuote(z + [QUOTE] + [CR]) == z
  {
    assert (z + [QUOTE])[..|z|] == z;
    assert (z + [QUOTE] + [CR])[..|z| + 1] == z + [QUOTE];
  }

  /** The state machine undoes the doubling of quotes, from any state with no quote pending. */
  lemma {:induction false} ScanUndoesDoubling(
    w: seq<Byte>, tail: seq<Byte>, term: int, rest: seq<Byte>, z: seq<Byte>, pc: int, ppc: int, cs: Sep, rs: Sep)
    requires cs != QUOTE && rs != QUOTE && EndsField(tail, term, rest, cs, rs)
    requires pc != QUOTE && ppc != QUOTE
    ensures ScanQuoted(Doubled(w) + [QUOTE] + tail, z, pc, ppc, cs, rs) == Field(z + w, term, rest)
  {
    var input := Doubled(w) + [QUOTE] + tail;
    if w == [] {
      assert input[1..] == tail;
      assert ScanQuoted(input, z, pc, ppc, cs, rs) == ScanQuoted(tail, z + [QUOTE], QUOTE, pc, cs, rs);
      ClosingQuoteIsDropped(z);
      if tail == [CR, rs] + rest && rs != CR && cs != CR {
        assert tail[1..] == [rs] + rest && ([rs] + rest)[1..] == rest;
        assert ScanQuoted(tail, z + [QUOTE], QUOTE, pc, cs, rs)
            == ScanQuoted([rs] + rest, z + [QUOTE] + [CR], CR, QUOTE, cs, rs);
      } else {
        assert tail[1..] == rest;
      }
      assert z + [] == z;
    } else if w[0] == QUOTE {
      var more := Doubled(w[1..]) + [QUOTE] + tail;
      assert input == [QUOTE, QUOTE] + more;
      assert input[1..] == [QUOTE] + more && input[1..][1..] == more;
      ScanUndoesDoubling(w[1..], tail, term, rest, z + [QUOTE], 0, pc, cs, rs);
      assert z + w == z + [QUOTE] + w[1..];
    } else {
      var more := Doubled(w[1..]) + [QUOTE] + tail;
      assert input == [w[0]] + more && input[1..] == more;
      ScanUndoesDoubling(w[1..], tail, term, rest, z + [w[0]], w[0], pc, cs, rs);
      assert z + w == z + [w[0]] + w[1..];
    }
  }

  /** No character of `w` ends an unquoted field or is dropped at its end. */
  ghost predicate Plain(w: seq<Byte>, cs: Sep, rs: Sep) {
    forall i :: 0 <= i < |w| ==> w[i] != CR && w[i] != cs && w[i] != rs
  }

  lemma {:induction false} ScanReadsPlain(
    w: seq<Byte>, tail: seq<Byte>, term: int, rest: seq<Byte>, z: seq<Byte>, cs: Sep, rs: Sep)
    requires EndsField(tail, term, rest, cs, rs)
    requires Plain(w, cs, rs) && (z != [] ==> z[|z| - 1] != CR)
    ensures ScanPlain(Next(w + tail), Tail(w + tail), z, cs, rs) == Field(z + w, term, rest)
  {
    if w == [] {
      assert w + tail == tail && z + w == z;
      PlainFieldEnds(tail, term, rest, z, cs, rs);
    } else {
      assert (w + tail)[1..] == w[1..] + tail;
      assert z + w == z + [w[0]] + w[1..];
      ScanReadsPlain(w[1..], tail, term, rest, z + [w[0]], cs, rs);
    }
  }

  lemma PlainFieldEnds(tail: seq<Byte>, term: int, rest: seq<Byte>, z: seq<Byte>, cs: Sep, rs: Sep)
    requires EndsField(tail, term, rest, cs, rs) && (z != [] ==> z[|z| - 1] != CR)
    ensures ScanPlain(Next(tail), Tail(tail), z, cs, rs) == Field(z, term, rest)
  {
    if tail == [CR, rs] + rest && rs != CR && cs != CR {
      assert tail[1..] == [rs] + rest;
      assert ScanPlain(CR, tail[1..], z, cs, rs) == ScanPlain(rs, rest, z + [CR], cs, rs);
      assert (z + [CR])[..|z|] == z;
    }
  }

  // ---------- any text, printed or not ----------

  ghost predicate Unseparated(w: seq<Byte>, cs: Sep, rs: Sep) {
    forall i :: 0 <= i < |w| ==> w[i] != cs && w[i] != rs
  }

  lemma {:induction false} ScanPlainRuns(w: seq<Byte>, tail: seq<Byte>, z: seq<Byte>, cs: Sep, rs: Sep)
    requires Unseparated(w, cs, rs)
    ensures ScanPlain(Next(w + tail), Tail(w + tail), z, cs, rs) == ScanPlain(Next(tail), Tail(tail), z + w, cs, rs)
  {
    if w == [] {
      assert w + tail == tail && z + w == z;
    } else {
      assert (w + tail)[1..] == w[1..] + tail;
      assert z + w == z + [w[0]] + w[1..];
      ScanPlainRuns(w[1..], tail, z + [w[0]], cs, rs);
    }
  }

  /** The three ways an unquoted field ends.  At a column separator or at the end of the input its text is all
      that stands before; only before a row separator a CR at its end is dropped. */
  lemma UnquotedExactly(w: seq<Byte>, rest: seq<Byte>, cs: Sep, rs: Sep)
    requires Unseparated(w, cs, rs) && (w != [] ==> w[0] != QUOTE)
    ensures w != [] ==> ReadField(w, cs, rs) == Field(w, EOF, [])
    ensures cs != rs && cs != QUOTE ==> ReadField(w + [cs] + rest, cs, rs) == Field(w, cs, rest)
    ensures rs != QUOTE ==>
              ReadField(w + [rs] + rest, cs, rs)
              == Field(if w != [] && w[|w| - 1] == 13 then w[..|w| - 1] else w, rs, rest)
  {
    assert w + [] == w && [] + w == w;
    ScanPlainRuns(w, [], [], cs, rs);
    Assoc(w, [cs], rest);
    Assoc(w, [rs], rest);
    ScanPlainRuns(w, [cs] + rest, [], cs, rs);
    ScanPlainRuns(w, [rs] + rest, [], cs, rs);
    assert ([cs] + rest)[1..] == rest && ([rs] + rest)[1..] == rest;
  }

  /** From a state with no quote pending, doubled text is read as itself and leaves no quote pending. */
  lemma {:induction false} DoubledIsConsumed(
    w: seq<Byte>, tail: seq<Byte>, z: seq<Byte>, pc: int, ppc: int, cs: Sep, rs: Sep) returns (pc': int, ppc': int)
    requires cs != QUOTE && rs != QUOTE && pc != QUOTE && ppc != QUOTE
    ensures pc' != QUOTE && ppc' != QUOTE
    ensures ScanQuoted(Doubled(w) + tail, z, pc, ppc, cs, rs) == ScanQuoted(tail, z + w, pc', ppc', cs, rs)
  {
    hide ScanQuoted;
    var input := Doubled(w) + tail;
    if w == [] {
      assert input == tail && z + w == z;
      pc', ppc' := pc, ppc;
    } else {
      var more := Doubled(w[1..]) + tail;
      QuotedStep(input, z, pc, ppc, cs, rs);
      assert z + w == (z + [w[0]]) + w[1..];
      if w[0] == QUOTE {
        assert input == [QUOTE, QUOTE] + more;
        assert input[1..] == [QUOTE] + more && input[1..][1..] == more;
        QuotedStep(input[1..], z + [QUOTE], QUOTE, pc, cs, rs);
        pc', ppc' := DoubledIsConsumed(w[1..], tail, z + [QUOTE], 0, pc, cs, rs);
      } else {
        assert input == [w[0]] + more && input[1..] == more;
        pc', ppc' := DoubledIsConsumed(w[1..], tail, z + [w[0]], w[0], pc, cs, rs);
      }
    }
  }

  /** A quoted field at the end of the input, closed or not. */
  lemma QuotedAtTheEnd(w: seq<Byte>, cs: Sep, rs: Sep)
    requires cs != QUOTE && rs != QUOTE
    ensures ReadField([QUOTE] + Doubled(w) + [QUOTE], cs, rs) == Field(w, EOF, [])
    ensures ReadField([QUOTE] + Doubled(w), cs, rs) == Field(w, EOF, [])
  {
    var closed, open := [QUOTE] + Doubled(w) + [QUOTE], [QUOTE] + Doubled(w);
    assert closed[1..] == Doubled(w) + [QUOTE] && open[1..] == Doubled(w) + [] && [] + w == w;
    var pc, ppc := DoubledIsConsumed(w, [QUOTE], [], 0, 0, cs, rs);
    var pc', ppc' := DoubledIsConsumed(w, [], [], 0, 0, cs, rs);
    hide ScanQuoted, Doubled;
    QuotedStep([QUOTE], w, pc, ppc, cs, rs);
    assert [QUOTE][1..] == [];
    QuotedStep([], w + [QUOTE], QUOTE, pc, cs, rs);
    QuotedStep([], w, pc', ppc', cs, rs);
    ClosingQuoteIsDropped(w);
  }

  /** A lone quote before any character but a quote or a separator is kept as it is. */
  lemma LoneQuoteStays(w: seq<Byte>, c: Byte, more: seq<Byte>, z: seq<Byte>, pc: int, ppc: int, cs: Sep, rs: Sep)
    requires cs != QUOTE && rs != QUOTE && pc != QUOTE && ppc != QUOTE
    requires c != QUOTE && c != cs && c != rs
    ensures ScanQuoted(Doubled(w) + [QUOTE, c] + more, z, pc, ppc, cs, rs)
         == ScanQuoted(more, z + w + [QUOTE] + [c], c, QUOTE, cs, rs)
  {
    var tail := [QUOTE, c] + more;
    Assoc(Doubled(w), [QUOTE, c], more);
    var pc', ppc' := DoubledIsConsumed(w, tail, z, pc, ppc, cs, rs);
    hide ScanQuoted, Doubled;
    assert tail[1..] == [c] + more && ([c] + more)[1..] == more;
    QuotedStep(tail, z + w, pc', ppc', cs, rs);
    QuotedStep([c] + more, z + w + [QUOTE], QUOTE, pc', cs, rs);
  }

  /** Which characters make a one-character term of the default mode a quoted one: control characters and the
      space, both quotes, the comma, and everything above the tilde. */
  lemma QuotedCharacters(b: Byte)
    requires b != 0
    ensures TermText([b], [44]) ==
              if b <= 32 || b == 34 || b == 39 || b == 44 || b >= 127
              then [34] + (if b == 34 then [34, 34] else [b]) + [34] else [b]
  {
    assert MustQuote([b], [44]) <==> ForcesQuote([b], [44], 0);
    assert [b][1..] == [] && Doubled([]) == [];
    assert Doubled([b]) == (if b == 34 then [34, 34] else [b]) + [];
  }

  /** The row separators `.import` accepts in csv mode: one character, or CR LF read as LF. */
  predicate RowSeparatorOk(rowSep: CString) {
    rowSep == [CR, LF] || (|rowSep| == 1 && rowSep[0] < 128)
  }

  function ReaderRowSep(rowSep: CString): Sep
    requires RowSeparatorOk(rowSep)
  {
    if rowSep == [CR, LF] then LF else assert rowSep[0] in rowSep; rowSep[0]
  }

  /** When reading undoes printing, stated on the separators alone. */
  predicate SeparatorsOk(cs: Sep, rowSep: CString)
    requires RowSeparatorOk(rowSep)
  {
    var rs := ReaderRowSep(rowSep);
    && cs != QUOTE && rs != QUOTE
    && (NeedCsvQuote(rs) || rs == cs)
    && (rowSep == [CR, LF] ==> cs != CR)
  }

  lemma UnquotedIsPlain(w: CString, cs: Sep, rowSep: CString)
    requires RowSeparatorOk(rowSep) && SeparatorsOk(cs, rowSep) && !MustQuote(w, [cs])
    ensures w != [] && w[0] != QUOTE && Plain(w, cs, ReaderRowSep(rowSep))
  {
    forall i | 0 <= i < |w| ensures !NeedCsvQuote(w[i]) && w[i] != cs {
      assert !ForcesQuote(w, [cs], i);
    }
  }

  lemma QuotedFieldRoundTrip(w: seq<Byte>, tail: seq<Byte>, term: int, rest: seq<Byte>, cs: Sep, rs: Sep)
    requires cs != QUOTE && rs != QUOTE && EndsField(tail, term, rest, cs, rs)
    ensures ReadField([QUOTE] + Doubled(w) + [QUOTE] + tail, cs, rs) == Field(w, term, rest)
  {
    hide ScanQuoted, ScanPlain, Doubled, EndsField;
    ScanUndoesDoubling(w, tail, term, rest, [], 0, 0, cs, rs);
    assert ([QUOTE] + Doubled(w) + [QUOTE] + tail)[1..] == Doubled(w) + [QUOTE] + tail;
    assert [] + w == w;
  }

  lemma PlainFieldRoundTrip(w: seq<Byte>, tail: seq<Byte>, term: int, rest: seq<Byte>, cs: Sep, rs: Sep)
    requires EndsField(tail, term, rest, cs, rs) && w != [] && w[0] != QUOTE && Plain(w, cs, rs)
    ensures ReadField(w + tail, cs, rs) == Field(w, term, rest)
  {
    ScanReadsPlain(w, tail, term, rest, [], cs, rs);
    assert [] + w == w;
  }

  lemma FieldRoundTrip(w: CString, tail: seq<Byte>, term: int, rest: seq<Byte>, cs: Sep, rowSep: CString)
    requires RowSeparatorOk(rowSep) && SeparatorsOk(cs, rowSep)
    requires EndsField(tail, term, rest, cs, ReaderRowSep(rowSep))
    ensures ReadField(TermText(w, [cs]) + tail, cs, ReaderRowSep(rowSep)) == Field(w, term, rest)
  {
    if MustQuote(w, [cs]) {
      QuotedFieldRoundTrip(w, tail, term, rest, cs, ReaderRowSep(rowSep));
    } else {
      UnquotedIsPlain(w, cs, rowSep);
      PlainFieldRoundTrip(w, tail, term, rest, cs, ReaderRowSep(rowSep));
    }
  }

  /** Read `k` fields in turn; `None` when the stream ends before one of them. */
  function ReadFields(input: seq<Byte>, k: nat, cs: Sep, rs: Sep): Option<(seq<(seq<Byte>, int)>, seq<Byte>)>
    decreases k
  {
    if k == 0 then Some(([], input))
    else if input == [] then None
    else
      var f := ReadField(input, cs, rs);
      match ReadFields(f.rest, k - 1, cs, rs)
      case None => None
      case Some((fields, rest)) => Some(([(f.text, f.term)] + fields, rest))
  }

  /** The fields of a row with the characters that should end them. */
  function Expected(row: seq<CString>, cs: Sep, rs: Sep): seq<(seq<Byte>, int)> {
    if row == [] then []
    else [(row[0], if |row| == 1 then rs else cs)] + Expected(row[1..], cs, rs)
  }

  /** Reading the printed row gives back its fields, whatever follows it in the stream. */
  ghost predicate RowReadsBack(row: seq<CString>, rest: seq<Byte>, cs: Sep, rowSep: CString)
    requires RowSeparatorOk(rowSep)
  {
    var rs := ReaderRowSep(rowSep);
    ReadFields(RowText(row, [cs], rowSep) + rest, |row|, cs, rs) == Some((Expected(row, cs, rs), rest))
  }

  lemma ReadFieldsStep(
    input: seq<Byte>, k: nat, after: seq<Byte>, text: seq<Byte>, term: int,
    more: seq<(seq<Byte>, int)>, rest: seq<Byte>, cs: Sep, rs: Sep)
    requires k > 0 && input != [] && ReadField(input, cs, rs) == Field(text, term, after)
    requires ReadFields(after, k - 1, cs, rs) == Some((more, rest))
    ensures ReadFields(input, k, cs, rs) == Some(([(text, term)] + more, rest))
  {
  }

  /** The first field of a printed row, and what is left. */
  lemma FirstField(row: seq<CString>, rest: seq<Byte>, cs: Sep, rowSep: CString)
    requires RowSeparatorOk(rowSep) && SeparatorsOk(cs, rowSep) && row != []
    ensures var rs, input := ReaderRowSep(rowSep), RowText(row, [cs], rowSep) + rest;
            && input != []
            && ReadField(input, cs, rs) == if |row| == 1 then Field(row[0], rs, rest)
                                           else Field(row[0], cs, RowText(row[1..], [cs], rowSep) + rest)
  {
    FirstCell(Strings(row), rest, cs, rowSep, []);
    StringsAreCells(row, [cs], rowSep, []);
    StringsAreCells(row[1..], [cs], rowSep, []);
    assert Strings(row)[1..] == Strings(row[1..]);
  }

  /** A null value that reads back as itself: unquoted, and without a separator or a CR. */
  ghost predicate NullOk(nullValue: CString, cs: Sep, rowSep: CString)
    requires RowSeparatorOk(rowSep)
  {
    (nullValue != [] ==> nullValue[0] != QUOTE) && Plain(nullValue, cs, ReaderRowSep(rowSep))
  }

  /** What is read where `z` was printed. */
  function Shown(z: Option<CString>, nullValue: CString): CString {
    match z case None => nullValue case Some(s) => s
  }

  lemma CellRoundTrip(
    z: Option<CString>, tail: seq<Byte>, term: int, rest: seq<Byte>, cs: Sep, rowSep: CString, nullValue: CString)
    requires RowSeparatorOk(rowSep) && SeparatorsOk(cs, rowSep) && (z.None? ==> NullOk(nullValue, cs, rowSep))
    requires EndsField(tail, term, rest, cs, ReaderRowSep(rowSep))
    ensures ReadField(CellText(z, [cs], nullValue) + tail, cs, ReaderRowSep(rowSep)) == Field(Shown(z, nullValue), term, rest)
  {
    var rs := ReaderRowSep(rowSep);
    match z {
      case Some(s) => FieldRoundTrip(s, tail, term, rest, cs, rowSep);
      case None =>
        if nullValue == [] {
          assert nullValue + tail == tail;
          PlainFieldEnds(tail, term, rest, [], cs, rs);
        } else {
          PlainFieldRoundTrip(nullValue, tail, term, rest, cs, rs);
        }
    }
  }

  lemma FirstCell(row: seq<Option<CString>>, rest: seq<Byte>, cs: Sep, rowSep: CString, nullValue: CString)
    requires RowSeparatorOk(rowSep) && SeparatorsOk(cs, rowSep) && row != []
    requires row[0].None? ==> NullOk(nullValue, cs, rowSep)
    ensures var rs, input := ReaderRowSep(rowSep), CellsText(row, [cs], rowSep, nullValue) + rest;
            && input != []
            && ReadField(input, cs, rs) == if |row| == 1 then Field(Shown(row[0], nullValue), rs, rest)
                                           else Field(Shown(row[0], nullValue), cs, CellsText(row[1..], [cs], rowSep, nullValue) + rest)
  {
    var rs := ReaderRowSep(rowSep);
    var text := CellText(row[0], [cs], nullValue);
    var after := CellsText(row[1..], [cs], rowSep, nullValue) + rest;
    CellsStep(row, 0, [cs], rowSep, nullValue);
    assert row[0..] == row;
    SeparatorsEnd(after, cs, rowSep);
    SeparatorsEnd(rest, cs, rowSep);
    hide *;
    if |row| == 1 {
      Assoc(text, rowSep, rest);
      CellRoundTrip(row[0], rowSep + rest, rs, rest, cs, rowSep, nullValue);
      assert |text + (rowSep + rest)| > 0;
    } else {
      Assoc(text, [cs] + CellsText(row[1..], [cs], rowSep, nullValue), rest);
      Assoc([cs], CellsText(row[1..], [cs], rowSep, nullValue), rest);
      assert text + ([cs] + after) != [] by { NotEmpty(text, cs, after); }
      CellRoundTrip(row[0], [cs] + after, cs, after, cs, rowSep, nullValue);
    }
  }

  lemma NotEmpty(a: seq<Byte>, x: Byte, b: seq<Byte>)
    ensures a + ([x] + b) != []
  {
    assert |a + ([x] + b)| > 0;
  }

  lemma SeparatorsEnd(rest: seq<Byte>, cs: Sep, rowSep: CString)
    requires RowSeparatorOk(rowSep) && SeparatorsOk(cs, rowSep)
    ensures var rs := ReaderRowSep(rowSep);
            EndsField([cs] + rest, cs, rest, cs, rs) && EndsField(rowSep + rest, rs, rest, cs, rs)
    ensures |rowSep| > 0
  {
    assert rowSep != [CR, LF] ==> rowSep == [ReaderRowSep(rowSep)];
  }

  function ShownRow(row: seq<Option<CString>>, nullValue: CString): seq<CString> {
    seq(|row|, i requires 0 <= i < |row| => Shown(row[i], nullValue))
  }

  /** A row with nulls reads back with the null value in their places. */
  lemma {:induction false} CellsRoundTrip(
    row: seq<Option<CString>>, rest: seq<Byte>, cs: Sep, rowSep: CString, nullValue: CString)
    requires RowSeparatorOk(rowSep) && SeparatorsOk(cs, rowSep) && (None in row ==> NullOk(nullValue, cs, rowSep))
    ensures var rs := ReaderRowSep(rowSep);
            ReadFields(CellsText(row, [cs], rowSep, nullValue) + rest, |row|, cs, rs)
              == Some((Expected(ShownRow(row, nullValue), cs, rs), rest))
  {
    hide Shown, NullOk, ReadField, EndsField, SeparatorsOk;
    var rs, input := ReaderRowSep(rowSep), CellsText(row, [cs], rowSep, nullValue) + rest;
    if row == [] {
      assert input == rest;
    } else {
      FirstCell(row, rest, cs, rowSep, nullValue);
      CellsRoundTrip(row[1..], rest, cs, rowSep, nullValue);
      assert ShownRow(row, nullValue)[1..] == ShownRow(row[1..], nullValue);
      var more := Expected(ShownRow(row[1..], nullValue), cs, rs);
      if |row| == 1 {
        assert row[1..] == [] && CellsText([], [cs], rowSep, nullValue) + rest == rest;
        ReadFieldsStep(input, 1, rest, Shown(row[0], nullValue), rs, more, rest, cs, rs);
      } else {
        var after := CellsText(row[1..], [cs], rowSep, nullValue) + rest;
        ReadFieldsStep(input, |row|, after, Shown(row[0], nullValue), cs, more, rest, cs, rs);
      }
    }
  }

  lemma RowRoundTrip(row: seq<CString>, rest: seq<Byte>, cs: Sep, rowSep: CString)
    requires RowSeparatorOk(rowSep) && SeparatorsOk(cs, rowSep)
    ensures RowReadsBack(row, rest, cs, rowSep)
  {
    hide SeparatorsOk;
    CellsRoundTrip(Strings(row), rest, cs, rowSep, []);
    StringsAreCells(row, [cs], rowSep, []);
    assert ShownRow(Strings(row), []) == row;
  }

  lemma WrongFirstField(row: seq<CString>, cs: Sep, rowSep: CString)
    requires RowSeparatorOk(rowSep) && row != []
    requires var input := RowText(row, [cs], rowSep);
             var f := ReadField(input, cs, ReaderRowSep(rowSep));
             f.text != row[0] || f.term != if |row| == 1 then ReaderRowSep(rowSep) else cs
    ensures !RowReadsBack(row, [], cs, rowSep)
  {
    var input := RowText(row, [cs], rowSep);
    assert input + [] == input;
    var f := ReadField(input, cs, ReaderRowSep(rowSep));
    if ReadFields(input, |row|, cs, ReaderRowSep(rowSep)).Some? {
      assert ReadFields(input, |row|, cs, ReaderRowSep(rowSep)).value.0[0] == (f.text, f.term);
    }
  }

  /** Inside a quoted field without a further quote the stream runs out. */
  lemma {:induction false} UnterminatedAtEof(input: seq<Byte>, z: seq<Byte>, pc: int, ppc: int, cs: int, rs: int)
    requires QUOTE !in input && pc != QUOTE && ppc != QUOTE && QuoteTrail(z, pc, ppc)
    ensures ScanQuoted(input, z, pc, ppc, cs, rs).term == EOF
  {
    if input != [] {
      assert input[0] in input;
      UnterminatedAtEof(input[1..], z + [input[0]], input[0], pc, cs, rs);
    }
  }

  lemma QuoteAsRowSeparatorLoses(cs: Sep)
    ensures !RowReadsBack([[]], [], cs, [QUOTE])
  {
    var input := RowText([[]], [cs], [QUOTE]);
    assert Doubled([]) == [] && TermText([], [cs]) == [QUOTE, QUOTE];
    assert input == [QUOTE, QUOTE, QUOTE];
    assert input[1..] == [QUOTE, QUOTE] && input[1..][1..] == [QUOTE] && input[1..][1..][1..] == [];
    var z: seq<Byte> := [] + [QUOTE];
    assert ScanQuoted(input[1..], [], 0, 0, cs, QUOTE) == ScanQuoted([QUOTE], z, QUOTE, 0, cs, QUOTE);
    assert ScanQuoted([QUOTE], z, QUOTE, 0, cs, QUOTE) == ScanQuoted([QUOTE][1..], z, 0, 0, cs, QUOTE);
    WrongFirstField([[]], cs, [QUOTE]);
  }

  lemma QuoteAsColumnSeparatorLoses(rowSep: CString)
    requires RowSeparatorOk(rowSep) && ReaderRowSep(rowSep) != QUOTE
    ensures !RowReadsBack([[], [97]], [], QUOTE, rowSep)
  {
    var rs := ReaderRowSep(rowSep);
    var row: seq<CString> := [[], [97]];
    var tail: seq<Byte> := [97] + rowSep;
    var input := RowText(row, [QUOTE], rowSep);
    TwoTermsText(rowSep);
    assert input[0] == QUOTE && input[1..] == [QUOTE, QUOTE] + tail;
    assert QUOTE !in tail;
    SeparatorIsSwallowed(tail, rs);
    UnterminatedAtEof(tail, [QUOTE], 0, 0, QUOTE, rs);
    assert ReadField(input, QUOTE, rs).term == EOF by { hide RowText, ScanQuoted, ReaderRowSep; }
    hide RowText, ReadField;
    WrongFirstField(row, QUOTE, rowSep);
  }

  lemma SeparatorIsSwallowed(tail: seq<Byte>, rs: Sep)
    requires rs != QUOTE
    ensures ScanQuoted([QUOTE, QUOTE] + tail, [], 0, 0, QUOTE, rs) == ScanQuoted(tail, [QUOTE], 0, 0, QUOTE, rs)
  {
    hide ScanQuoted;
    var input := [QUOTE, QUOTE] + tail;
    assert input[1..] == [QUOTE] + tail && ([QUOTE] + tail)[1..] == tail && [] + [QUOTE] == [QUOTE];
    QuotedStep(input, [], 0, 0, QUOTE, rs);
    QuotedStep([QUOTE] + tail, [QUOTE], QUOTE, 0, QUOTE, rs);
  }

  lemma TwoTermsText(rowSep: CString)
    requires RowSeparatorOk(rowSep)
    ensures RowText([[], [97]], [QUOTE], rowSep) == [QUOTE, QUOTE, QUOTE] + ([97] + rowSep)
  {
    var row: seq<CString> := [[], [97]];
    assert row[1..] == [[97]] && Doubled([]) == [];
    assert !ForcesQuote([97], [QUOTE], 0);
    assert TermText([97], [QUOTE]) == [97] && TermText([], [QUOTE]) == [QUOTE, QUOTE];
    assert RowText(row[1..], [QUOTE], rowSep) == [97] + rowSep;
  }

  lemma CrAsColumnSeparatorLoses()
    ensures !RowReadsBack([[97]], [], CR, [CR, LF])
  {
    assert !ForcesQuote([97], [CR], 0);
    var input := RowText([[97]], [CR], [CR, LF]);
    assert input == [97, CR, LF] && input[1..] == [CR, LF];
    assert ReadField(input, CR, LF) == ScanPlain(CR, Tail([CR, LF]), [] + [97], CR, LF);
    WrongFirstField([[97]], CR, [CR, LF]);
  }

  lemma UnquotedRowSeparatorLoses(cs: Sep, rs: Sep)
    requires cs != rs && !NeedCsvQuote(rs)
    ensures !RowReadsBack([[rs]], [], cs, [rs])
  {
    assert !ForcesQuote([rs], [cs], 0);
    assert RowText([[rs]], [cs], [rs]) == [rs, rs];
    WrongFirstField([[rs]], cs, [rs]);
  }

  /** With any other separators some row does not come back. */
  lemma SomeRowIsLost(cs: Sep, rowSep: CString) returns (row: seq<CString>)
    requires RowSeparatorOk(rowSep) && !SeparatorsOk(cs, rowSep)
    ensures !RowReadsBack(row, [], cs, rowSep)
  {
    var rs := ReaderRowSep(rowSep);
    assert rowSep != [CR, LF] ==> rowSep == [rs];
    if rs == QUOTE {
      QuoteAsRowSeparatorLoses(cs);
      row := [[]];
    } else if cs == QUOTE {
      QuoteAsColumnSeparatorLoses(rowSep);
      row := [[], [97]];
    } else if rowSep == [CR, LF] && cs == CR {
      CrAsColumnSeparatorLoses();
      row := [[97]];
    } else {
      UnquotedRowSeparatorLoses(cs, rs);
      row := [[rs]];
    }
  }

  /** Every row survives printing and reading exactly when the separators are acceptable. */
  lemma RoundTripExactly(cs: Sep, rowSep: CString)
    requires RowSeparatorOk(rowSep)
    ensures SeparatorsOk(cs, rowSep) <==> forall row, rest :: RowReadsBack(row, rest, cs, rowSep)
  {
    if SeparatorsOk(cs, rowSep) {
      forall row, rest ensures RowReadsBack(row, rest, cs, rowSep) {
        RowRoundTrip(row, rest, cs, rowSep);
      }
    } else {
      var row := SomeRowIsLost(cs, rowSep);
    }
  }

  // ---------- importing a table ----------

  /** What is bound to a column: text up to the first NUL. */
  function UpToNul(t: seq<Byte>): seq<Byte> {
    if t == [] || t[0] == 0 then [] else [t[0]] + UpToNul(t[1..])
  }

  /** A row to insert, the character that ended it and the input left. */
  datatype Imported = Imported(cells: seq<Option<seq<Byte>>>, term: int, rest: seq<Byte>)

  function Nulls(k: nat): seq<Option<seq<Byte>>> {
    if k == 0 then [] else [None] + Nulls(k - 1)
  }

  /** `k` columns: once a field does not end at a column separator the other columns are null. */
  function ImportCells(input: seq<Byte>, k: nat, cs: Sep, rs: Sep): Imported
    requires k > 0
    decreases k
  {
    var f := if input == [] then Field([], EOF, []) else ReadField(input, cs, rs);
    var cell := if input == [] then None else Some(UpToNul(f.text));
    if k == 1 then Imported([cell], f.term, f.rest)
    else if f.term != cs then Imported([cell] + Nulls(k - 1), f.term, f.rest)
    else
      var more := ImportCells(f.rest, k - 1, cs, rs);
      Imported([cell] + more.cells, more.term, more.rest)
  }

  lemma ImportStep(input: seq<Byte>, k: nat, cs: Sep, rs: Sep)
    requires k > 0
    ensures ImportCells(input, k, cs, rs) ==
              var f := if input == [] then Field([], EOF, []) else ReadField(input, cs, rs);
              var cell := if input == [] then None else Some(UpToNul(f.text));
              if k == 1 then Imported([cell], f.term, f.rest)
              else if f.term != cs then Imported([cell] + Nulls(k - 1), f.term, f.rest)
              else
                var more := ImportCells(f.rest, k - 1, cs, rs);
                Imported([cell] + more.cells, more.term, more.rest)
  {
    hide ReadField, UpToNul, Nulls;
  }

  /** The fields after the last column are read and dropped. */
  function SkipExtras(input: seq<Byte>, cs: Sep, rs: Sep): (int, seq<Byte>)
    decreases |input|
  {
    if input == [] then (EOF, [])
    else
      var f := ReadField(input, cs, rs);
      FieldShrinks(input, cs, rs);
      if f.term == cs then SkipExtras(f.rest, cs, rs) else (f.term, f.rest)
  }

  function ImportRow(input: seq<Byte>, nCol: nat, cs: Sep, rs: Sep): Imported
    requires nCol > 0
  {
    var r := ImportCells(input, nCol, cs, rs);
    if r.term != cs then r
    else
      var (term, rest) := SkipExtras(r.rest, cs, rs);
      Imported(r.cells, term, rest)
  }

  /** The loop of `.import`: rows until the end of the stream. */
  function ImportRows(input: seq<Byte>, nCol: nat, cs: Sep, rs: Sep): seq<seq<Option<seq<Byte>>>>
    requires nCol > 0
    decreases |input|
  {
    if input == [] then []
    else
      var r := ImportRow(input, nCol, cs, rs);
      RowShrinks(input, nCol, cs, rs);
      [r.cells] + if r.term == EOF then [] else ImportRows(r.rest, nCol, cs, rs)
  }

  lemma RowsStep(input: seq<Byte>, nCol: nat, cs: Sep, rs: Sep)
    requires nCol > 0
    ensures ImportRows(input, nCol, cs, rs) ==
              if input == [] then []
              else
                var r := ImportRow(input, nCol, cs, rs);
                [r.cells] + if r.term == EOF then [] else ImportRows(r.rest, nCol, cs, rs)
  {
    hide ImportRow;
  }

  lemma {:induction false} QuotedShrinks(input: seq<Byte>, z: seq<Byte>, pc: int, ppc: int, cs: int, rs: int)
    requires QuoteTrail(z, pc, ppc)
    ensures |ScanQuoted(input, z, pc, ppc, cs, rs).rest| <= |input|
    decreases |input|
  {
    var c := Next(input);
    if c == QUOTE && pc == QUOTE {
      QuotedShrinks(input[1..], z, 0, ppc, cs, rs);
    } else if !Ends(c, pc, ppc, cs, rs) && c != EOF {
      QuotedShrinks(input[1..], z + [c], c, pc, cs, rs);
    }
  }

  lemma {:induction false} PlainShrinks(c: Char, input: seq<Byte>, z: seq<Byte>, cs: int, rs: int)
    ensures |ScanPlain(c, input, z, cs, rs).rest| <= |input|
    decreases |input|, c != EOF
  {
    if c != EOF && c != cs && c != rs { PlainShrinks(Next(input), Tail(input), z + [c], cs, rs); }
  }

  lemma FieldShrinks(input: seq<Byte>, cs: Sep, rs: Sep)
    requires input != []
    ensures |ReadField(input, cs, rs).rest| < |input|
  {
    if input[0] == QUOTE { QuotedShrinks(input[1..], [], 0, 0, cs, rs); } else { PlainShrinks(input[0], input[1..], [], cs, rs); }
  }

  lemma {:induction false} CellsShrink(input: seq<Byte>, k: nat, cs: Sep, rs: Sep)
    requires k > 0
    ensures |ImportCells(input, k, cs, rs).rest| <= |input|
    ensures input != [] ==> |ImportCells(input, k, cs, rs).rest| < |input|
    decreases k
  {
    hide ReadField, UpToNul;
    if input != [] { FieldShrinks(input, cs, rs); }
    if k > 1 {
      CellsShrink(if input == [] then [] else ReadField(input, cs, rs).rest, k - 1, cs, rs);
    }
  }

  lemma {:induction false} ExtrasShrink(input: seq<Byte>, cs: Sep, rs: Sep)
    ensures |SkipExtras(input, cs, rs).1| <= |input|
    decreases |input|
  {
    hide ReadField;
    if input != [] {
      FieldShrinks(input, cs, rs);
      if ReadField(input, cs, rs).term == cs { ExtrasShrink(ReadField(input, cs, rs).rest, cs, rs); }
    }
  }

  lemma RowShrinks(input: seq<Byte>, nCol: nat, cs: Sep, rs: Sep)
    requires nCol > 0 && input != []
    ensures |ImportRow(input, nCol, cs, rs).rest| < |input|
  {
    hide ImportCells, SkipExtras;
    CellsShrink(input, nCol, cs, rs);
    ExtrasShrink(ImportCells(input, nCol, cs, rs).rest, cs, rs);
  }

  function TableText(rows: seq<seq<CString>>, colSep: CString, rowSep: CString): seq<Byte> {
    if rows == [] then [] else RowText(rows[0], colSep, rowSep) + TableText(rows[1..], colSep, rowSep)
  }

  /** A row cut, or filled with nulls, to the width of the table. */
  function Fitted(row: seq<CString>, nCol: nat): seq<Option<seq<Byte>>> {
    if nCol == 0 then []
    else if row == [] then Nulls(nCol)
    else [Some(row[0])] + Fitted(row[1..], nCol - 1)
  }

  function FittedRows(rows: seq<seq<CString>>, nCol: nat): seq<seq<Option<seq<Byte>>>> {
    seq(|rows|, i requires 0 <= i < |rows| => Fitted(rows[i], nCol))
  }

  lemma {:induction false} NoNul(t: CString)
    ensures UpToNul(t) == t
  {
    if t != [] {
      assert t[0] in t;
      NoNul(t[1..]);
    }
  }

  lemma {:induction false} CellsOfRow(row: seq<CString>, k: nat, rest: seq<Byte>, cs: Sep, rowSep: CString)
    requires RowSeparatorOk(rowSep) && SeparatorsOk(cs, rowSep) && cs != ReaderRowSep(rowSep) && row != [] && k > 0
    ensures ImportCells(RowText(row, [cs], rowSep) + rest, k, cs, ReaderRowSep(rowSep)) ==
              if |row| <= k then Imported(Fitted(row, k), ReaderRowSep(rowSep), rest)
              else Imported(Fitted(row, k), cs, RowText(row[k..], [cs], rowSep) + rest)
    decreases k
  {
    hide SeparatorsOk, ReadField, RowText, UpToNul, RowSeparatorOk, ReaderRowSep;
    FirstField(row, rest, cs, rowSep);
    NoNul(row[0]);
    var more := row[1..];
    assert Fitted(row, k) == [Some(row[0])] + Fitted(more, k - 1);
    if |row| == 1 {
      assert Fitted(more, k - 1) == Nulls(k - 1);
    } else if k > 1 {
      CellsOfRow(more, k - 1, rest, cs, rowSep);
      if |row| > k { assert more[k - 1..] == row[k..]; }
    }
  }

  lemma {:induction false} ExtrasOfRow(row: seq<CString>, rest: seq<Byte>, cs: Sep, rowSep: CString)
    requires RowSeparatorOk(rowSep) && SeparatorsOk(cs, rowSep) && cs != ReaderRowSep(rowSep) && row != []
    ensures SkipExtras(RowText(row, [cs], rowSep) + rest, cs, ReaderRowSep(rowSep)) == (ReaderRowSep(rowSep), rest)
  {
    hide SeparatorsOk, ReadField, RowText, RowSeparatorOk, ReaderRowSep;
    FirstField(row, rest, cs, rowSep);
    if |row| > 1 { ExtrasOfRow(row[1..], rest, cs, rowSep); }
  }

  /** A printed table imports as its rows, cut or filled with nulls to the width of the table. */
  ghost predicate ImportsBack(rows: seq<seq<CString>>, nCol: nat, cs: Sep, rowSep: CString)
    requires RowSeparatorOk(rowSep)
  {
    nCol > 0 ==> ImportRows(TableText(rows, [cs], rowSep), nCol, cs, ReaderRowSep(rowSep)) == FittedRows(rows, nCol)
  }

  /** Printed rows in front of any text import as themselves, and then the text. */
  lemma {:induction false} RowsThen(rows: seq<seq<CString>>, rest: seq<Byte>, nCol: nat, cs: Sep, rowSep: CString)
    requires RowSeparatorOk(rowSep) && SeparatorsOk(cs, rowSep) && cs != ReaderRowSep(rowSep) && nCol > 0
    requires forall row :: row in rows ==> row != []
    ensures ImportRows(TableText(rows, [cs], rowSep) + rest, nCol, cs, ReaderRowSep(rowSep))
         == FittedRows(rows, nCol) + ImportRows(rest, nCol, cs, ReaderRowSep(rowSep))
  {
    hide ImportRows;
    if rows == [] {
      assert TableText(rows, [cs], rowSep) + rest == rest;
      assert FittedRows(rows, nCol) == [];
    } else {
      var rs, row, after := ReaderRowSep(rowSep), rows[0], TableText(rows[1..], [cs], rowSep) + rest;
      assert row in rows && forall r :: r in rows[1..] ==> r in rows;
      var input := RowText(row, [cs], rowSep) + after;
      Assoc(RowText(row, [cs], rowSep), TableText(rows[1..], [cs], rowSep), rest);
      FirstField(row, after, cs, rowSep);
      hide SeparatorsOk, ReadField, RowText, RowSeparatorOk, ImportCells, SkipExtras, Fitted, ReaderRowSep;
      CellsOfRow(row, nCol, after, cs, rowSep);
      if |row| > nCol { ExtrasOfRow(row[nCol..], after, cs, rowSep); }
      RowsThen(rows[1..], rest, nCol, cs, rowSep);
      RowsStep(input, nCol, cs, rs);
      assert FittedRows(rows, nCol) == [Fitted(row, nCol)] + FittedRows(rows[1..], nCol);
      Assoc([Fitted(row, nCol)], FittedRows(rows[1..], nCol), ImportRows(rest, nCol, cs, rs));
    }
  }

  lemma TableRoundTrip(rows: seq<seq<CString>>, nCol: nat, cs: Sep, rowSep: CString)
    requires RowSeparatorOk(rowSep) && SeparatorsOk(cs, rowSep) && cs != ReaderRowSep(rowSep)
    requires forall row :: row in rows ==> row != []
    ensures ImportsBack(rows, nCol, cs, rowSep)
  {
    if nCol > 0 {
      RowsThen(rows, [], nCol, cs, rowSep);
      hide FittedRows, TableText, SeparatorsOk, ReaderRowSep;
      assert TableText(rows, [cs], rowSep) + [] == TableText(rows, [cs], rowSep);
      assert FittedRows(rows, nCol) + [] == FittedRows(rows, nCol);
    }
  }

  /** A row without its row separator. */
  function BareRow(row: seq<CString>, cs: Sep): seq<Byte>
    requires row != []
  {
    if |row| == 1 then TermText(row[0], [cs]) else TermText(row[0], [cs]) + [cs] + BareRow(row[1..], cs)
  }

  lemma {:induction false} BareRowIsRow(row: seq<CString>, cs: Sep, rowSep: CString)
    requires row != []
    ensures RowText(row, [cs], rowSep) == BareRow(row, cs) + rowSep
  {
    if |row| > 1 {
      BareRowIsRow(row[1..], cs, rowSep);
      Assoc(TermText(row[0], [cs]) + [cs], BareRow(row[1..], cs), rowSep);
    }
  }

  lemma LastTerm(w: CString, cs: Sep, rowSep: CString)
    requires RowSeparatorOk(rowSep) && SeparatorsOk(cs, rowSep)
    ensures TermText(w, [cs]) != [] && ReadField(TermText(w, [cs]), cs, ReaderRowSep(rowSep)) == Field(w, EOF, [])
  {
    var rs := ReaderRowSep(rowSep);
    if MustQuote(w, [cs]) {
      QuotedAtTheEnd(w, cs, rs);
    } else {
      UnquotedIsPlain(w, cs, rowSep);
      UnquotedExactly(w, [], cs, rs);
    }
    hide MustQuote, ReadField, Doubled;
  }

  lemma FirstOfBareRow(row: seq<CString>, cs: Sep, rowSep: CString)
    requires RowSeparatorOk(rowSep) && SeparatorsOk(cs, rowSep) && row != []
    ensures BareRow(row, cs) != []
    ensures ReadField(BareRow(row, cs), cs, ReaderRowSep(rowSep)) ==
              if |row| == 1 then Field(row[0], EOF, []) else Field(row[0], cs, BareRow(row[1..], cs))
  {
    if |row| == 1 {
      LastTerm(row[0], cs, rowSep);
    } else {
      var rest := BareRow(row[1..], cs);
      SeparatorsEnd(rest, cs, rowSep);
      FieldRoundTrip(row[0], [cs] + rest, cs, rest, cs, rowSep);
      Assoc(TermText(row[0], [cs]), [cs], rest);
      NotEmpty(TermText(row[0], [cs]), cs, rest);
      hide ReadField, TermText, SeparatorsOk, RowSeparatorOk;
    }
  }

  lemma {:induction false} CellsOfBareRow(row: seq<CString>, k: nat, cs: Sep, rowSep: CString)
    requires RowSeparatorOk(rowSep) && SeparatorsOk(cs, rowSep) && row != [] && k > 0
    ensures ImportCells(BareRow(row, cs), k, cs, ReaderRowSep(rowSep)) ==
              if |row| <= k then Imported(Fitted(row, k), EOF, [])
              else Imported(Fitted(row, k), cs, BareRow(row[k..], cs))
    decreases k
  {
    hide SeparatorsOk, ReadField, BareRow, UpToNul, RowSeparatorOk, ReaderRowSep;
    FirstOfBareRow(row, cs, rowSep);
    NoNul(row[0]);
    var more := row[1..];
    assert Fitted(row, k) == [Some(row[0])] + Fitted(more, k - 1);
    if |row| == 1 {
      assert Fitted(more, k - 1) == Nulls(k - 1);
    } else if k > 1 {
      CellsOfBareRow(more, k - 1, cs, rowSep);
      if |row| > k { assert more[k - 1..] == row[k..]; }
    }
  }

  lemma {:induction false} ExtrasOfBareRow(row: seq<CString>, cs: Sep, rowSep: CString)
    requires RowSeparatorOk(rowSep) && SeparatorsOk(cs, rowSep) && row != []
    ensures SkipExtras(BareRow(row, cs), cs, ReaderRowSep(rowSep)) == (EOF, [])
  {
    hide SeparatorsOk, ReadField, BareRow, RowSeparatorOk, ReaderRowSep;
    FirstOfBareRow(row, cs, rowSep);
    if |row| > 1 { ExtrasOfBareRow(row[1..], cs, rowSep); }
  }

  /** A file whose last row has no row separator imports like any other. */
  lemma TableWithoutEnd(rows: seq<seq<CString>>, last: seq<CString>, nCol: nat, cs: Sep, rowSep: CString)
    requires RowSeparatorOk(rowSep) && SeparatorsOk(cs, rowSep) && cs != ReaderRowSep(rowSep) && nCol > 0
    requires last != [] && forall row :: row in rows ==> row != []
    ensures ImportRows(TableText(rows, [cs], rowSep) + BareRow(last, cs), nCol, cs, ReaderRowSep(rowSep))
         == FittedRows(rows, nCol) + [Fitted(last, nCol)]
  {
    var rs, input := ReaderRowSep(rowSep), BareRow(last, cs);
    RowsThen(rows, input, nCol, cs, rowSep);
    FirstOfBareRow(last, cs, rowSep);
    CellsOfBareRow(last, nCol, cs, rowSep);
    if |last| > nCol { ExtrasOfBareRow(last[nCol..], cs, rowSep); }
    hide ImportRows, ImportCells, SkipExtras, Fitted, FittedRows, BareRow, TableText, SeparatorsOk, RowSeparatorOk, ReaderRowSep;
    RowsStep(input, nCol, cs, rs);
    assert [Fitted(last, nCol)] + [] == [Fitted(last, nCol)];
  }

  /** A column separator at the end of the input promises a column that is not there: it is null, not empty. */
  lemma TrailingSeparatorIsNull(w: CString, k: nat, cs: Sep, rowSep: CString)
    requires RowSeparatorOk(rowSep) && SeparatorsOk(cs, rowSep) && k > 1
    ensures ImportCells(TermText(w, [cs]) + [cs], k, cs, ReaderRowSep(rowSep)) == Imported([Some(w)] + Nulls(k - 1), EOF, [])
  {
    SeparatorsEnd([], cs, rowSep);
    assert [cs] + [] == [cs];
    FieldRoundTrip(w, [cs], cs, [], cs, rowSep);
    NoNul(w);
    NotEmpty(TermText(w, [cs]), cs, []);
    hide ReadField, TermText, UpToNul, SeparatorsOk, RowSeparatorOk, ReaderRowSep;
    if k > 2 { assert Nulls(k - 1) == [None] + Nulls(k - 2); }
    assert EOF != cs;
    assert Nulls(1) == [None] + Nulls(0);
  }

  /** What is bound stops at the first NUL. */
  lemma {:induction false} CutAtNul(a: CString, b: seq<Byte>)
    ensures UpToNul(a + [0] + b) == a
  {
    if a == [] {
      assert a + [0] + b == [0] + b;
    } else {
      assert a[0] in a;
      assert (a + [0] + b)[1..] == a[1..] + [0] + b;
      CutAtNul(a[1..], b);
    }
  }

  /** Where the row separator is the column separator, the second of two rows is dropped as extra
      columns of the first. */
  lemma EqualSeparatorsDropRows(cs: Sep, rowSep: CString)
    requires RowSeparatorOk(rowSep) && SeparatorsOk(cs, rowSep) && cs == ReaderRowSep(rowSep)
    ensures !ImportsBack([[[98]], [[98]]], 1, cs, rowSep)
  {
    var rows: seq<seq<CString>> := [[[98]], [[98]]];
    var input := TableText(rows, [cs], rowSep);
    assert rows[1..] == [[[98]]] && rows[1..][1..] == [];
    var second := RowText([[98]], [cs], rowSep);
    assert input == RowText([[98]], [cs], rowSep) + second by {
      assert TableText(rows[1..], [cs], rowSep) == second + TableText([], [cs], rowSep);
      assert second + [] == second;
    }
    FirstField([[98]], second, cs, rowSep);
    FirstField([[98]], [], cs, rowSep);
    assert second + [] == second;
    var r := ImportCells(input, 1, cs, cs);
    assert r.term == cs && r.rest == second;
    assert SkipExtras(second, cs, cs) == SkipExtras([], cs, cs);
    assert ImportRow(input, 1, cs, cs).term == EOF;
    assert |ImportRows(input, 1, cs, cs)| == 1;
  }

  /** With acceptable separators, every table of non-empty rows imports back if and only if the two
      separators differ. */
  lemma TableRoundTripExactly(cs: Sep, rowSep: CString)
    requires RowSeparatorOk(rowSep) && SeparatorsOk(cs, rowSep)
    ensures cs != ReaderRowSep(rowSep)
       <==> forall rows, nCol :: (forall row :: row in rows ==> row != []) ==> ImportsBack(rows, nCol, cs, rowSep)
  {
    if cs != ReaderRowSep(rowSep) {
      forall rows, nCol | forall row :: row in rows ==> row != [] ensures ImportsBack(rows, nCol, cs, rowSep) {
        TableRoundTrip(rows, nCol, cs, rowSep);
      }
    } else {
      EqualSeparatorsDropRows(cs, rowSep);
    }
  }

  /** The separators of `.mode csv`: a comma, and CR LF read as LF. */
  lemma DefaultSeparatorsOk()
    ensures RowSeparatorOk([CR, LF]) && SeparatorsOk(44, [CR, LF]) && ReaderRowSep([CR, LF]) != 44
  {
  }
}
