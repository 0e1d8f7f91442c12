/** The circular row-block mapping of the MPI variant and the integer-array
    printer used to show it.

    With `rows` logical rows split among `nprocs` processes, each process
    holds k = rows / nprocs interior rows plus one halo row on each side;
    slot j of process i holds logical row (i * k + j - 1 + rows) % rows. */
module RowMapping {

  import opened Arith

  /** Logical row held by slot j of process i, for the block layout with
      `padding` halo rows per process. The C code's `%` truncates, but the
      left operand is never negative for i, j >= 0, so it agrees with
      Dafny's. */
  function CircularRow(rows: int, nprocs: int, padding: int, i: nat, j: nat): (r: int)
    requires rows >= 1 && nprocs >= 1
    ensures 0 <= r < rows
  {
    var rowsPerProc := rows / nprocs + padding;
    (i * (rowsPerProc - padding) + j - 1 + rows) % rows
  }

  /** Number of slots each process gets. */
  function RowsPerProc(rows: int, nprocs: int, padding: int): int
    requires nprocs >= 1
  {
    rows / nprocs + padding
  }

  /** The whole mapping: entry i is the list of logical rows in the slots
      of process i. */
  function CircularTable(rows: int, nprocs: nat, padding: int): (t: seq<seq<int>>)
    requires rows >= 1 && nprocs >= 1 && RowsPerProc(rows, nprocs, padding) >= 0
    ensures |t| == nprocs
    ensures forall i :: 0 <= i < nprocs ==> |t[i]| == RowsPerProc(rows, nprocs, padding)
  {
    seq(nprocs, i requires 0 <= i < nprocs =>
      seq(RowsPerProc(rows, nprocs, padding), j requires 0 <= j < RowsPerProc(rows, nprocs, padding) =>
        CircularRow(rows, nprocs, padding, i, j)))
  }

  /** Entry (i, j) of the table is slot j of process i. */
  lemma TableEntry(rows: int, nprocs: nat, padding: int, i: nat, j: nat)
    requires rows >= 1 && nprocs >= 1 && RowsPerProc(rows, nprocs, padding) >= 0
    requires i < nprocs && j < RowsPerProc(rows, nprocs, padding)
    ensures CircularTable(rows, nprocs, padding)[i][j] == CircularRow(rows, nprocs, padding, i, j)
  {
  }

  /** The worked example of the mapping's documentation: 6 rows over 3
      processes, 4 slots each. */
  lemma DocumentedExample()
    ensures CircularTable(6, 3, 2) == [[5, 0, 1, 2], [1, 2, 3, 4], [3, 4, 5, 0]]
  {
    TableEntry(6, 3, 2, 0, 0); TableEntry(6, 3, 2, 0, 1); TableEntry(6, 3, 2, 0, 2); TableEntry(6, 3, 2, 0, 3);
    TableEntry(6, 3, 2, 1, 0); TableEntry(6, 3, 2, 1, 1); TableEntry(6, 3, 2, 1, 2); TableEntry(6, 3, 2, 1, 3);
    TableEntry(6, 3, 2, 2, 0); TableEntry(6, 3, 2, 2, 1); TableEntry(6, 3, 2, 2, 2); TableEntry(6, 3, 2, 2, 3);
    var t := CircularTable(6, 3, 2);
    assert t[0] == [5, 0, 1, 2];
    assert t[1] == [1, 2, 3, 4];
    assert t[2] == [3, 4, 5, 0];
  }

  /** The configuration the test actually runs: 6 rows over 6 processes,
      3 slots each. */
  lemma HardcodedTable()
    ensures CircularTable(6, 6, 2) ==
      [[5, 0, 1], [0, 1, 2], [1, 2, 3], [2, 3, 4], [3, 4, 5], [4, 5, 0]]
  {
    TableEntry(6, 6, 2, 0, 0); TableEntry(6, 6, 2, 0, 1); TableEntry(6, 6, 2, 0, 2);
    TableEntry(6, 6, 2, 1, 0); TableEntry(6, 6, 2, 1, 1); TableEntry(6, 6, 2, 1, 2);
    TableEntry(6, 6, 2, 2, 0); TableEntry(6, 6, 2, 2, 1); TableEntry(6, 6, 2, 2, 2);
    TableEntry(6, 6, 2, 3, 0); TableEntry(6, 6, 2, 3, 1); TableEntry(6, 6, 2, 3, 2);
    TableEntry(6, 6, 2, 4, 0); TableEntry(6, 6, 2, 4, 1); TableEntry(6, 6, 2, 4, 2);
    TableEntry(6, 6, 2, 5, 0); TableEntry(6, 6, 2, 5, 1); TableEntry(6, 6, 2, 5, 2);
    var t := CircularTable(6, 6, 2);
    assert t[0] == [5, 0, 1];
    assert t[1] == [0, 1, 2];
    assert t[2] == [1, 2, 3];
    assert t[3] == [2, 3, 4];
    assert t[4] == [3, 4, 5];
    assert t[5] == [4, 5, 0];
  }

  /** Slot 0 holds the row just above the block, wrapping to the last row
      for process 0. */
  lemma HaloAbove(rows: int, nprocs: int, i: nat)
    requires nprocs >= 1 && rows >= nprocs && rows % nprocs == 0 && i < nprocs
    ensures CircularRow(rows, nprocs, 2, i, 0) == if i == 0 then rows - 1 else i * (rows / nprocs) - 1
  {
    var k := rows / nprocs;
    assert rows == nprocs * k;
    if i == 0 {
      DivModUnique(rows - 1, rows, 0, rows - 1);
    } else {
      MulAtLeast(i, k);
      MulMono(i + 1, nprocs, k);
      DivModUnique(i * k - 1 + rows, rows, 1, i * k - 1);
    }
  }

  /** Slot k + 1 holds the row just below the block, wrapping to row 0 for
      the last process. */
  lemma HaloBelow(rows: int, nprocs: int, i: nat)
    requires nprocs >= 1 && rows >= nprocs && rows % nprocs == 0 && i < nprocs
    ensures var k := rows / nprocs;
      CircularRow(rows, nprocs, 2, i, k + 1) == if i == nprocs - 1 then 0 else (i + 1) * k
  {
    var k := rows / nprocs;
    assert rows == nprocs * k;
    MulMono(i + 1, nprocs, k);
    MulMono(0, i + 1, k);
    assert i * k + k == (i + 1) * k;
    if i == nprocs - 1 {
      DivModUnique((i + 1) * k + rows, rows, 2, 0);
    } else {
      MulMono(i + 2, nprocs, k);
      assert (i + 1) * k < rows;
      DivModUnique((i + 1) * k + rows, rows, 1, (i + 1) * k);
    }
  }

  /** The interior slots 1..k of process i hold rows i * k .. i * k + k - 1
      without wrapping. */
  lemma InteriorSlot(rows: int, nprocs: int, i: nat, j: nat)
    requires nprocs >= 1 && rows >= nprocs && rows % nprocs == 0
    requires i < nprocs && 1 <= j <= rows / nprocs
    ensures CircularRow(rows, nprocs, 2, i, j) == i * (rows / nprocs) + j - 1
  {
    var k := rows / nprocs;
    assert rows == nprocs * k;
    MulMono(i + 1, nprocs, k);
    DivModUnique(i * k + j - 1 + rows, rows, 1, i * k + j - 1);
  }

  /** Over all processes the interior slots cover every logical row: row r
      sits in slot r % k + 1 of process r / k. */
  lemma InteriorCovers(rows: int, nprocs: int, r: nat)
    requires nprocs >= 1 && rows >= nprocs && rows % nprocs == 0 && r < rows
    ensures var k := rows / nprocs;
      k >= 1 && r / k < nprocs && CircularRow(rows, nprocs, 2, r / k, r % k + 1) == r
  {
    var k := rows / nprocs;
    assert rows == nprocs * k;
    if k == 0 {
      assert false;
    }
    IndexSplit(r, k);
    if r / k >= nprocs {
      MulMono(nprocs, r / k, k);
      assert false;
    }
    InteriorSlot(rows, nprocs, r / k, r % k + 1);
  }

  /** ... and no row sits in two interior slots: distinct interior slots,
      of the same process or of different ones, hold distinct rows. */
  lemma InteriorDisjoint(rows: int, nprocs: int, i: nat, j: nat, i': nat, j': nat)
    requires nprocs >= 1 && rows >= nprocs && rows % nprocs == 0
    requires i < nprocs && 1 <= j <= rows / nprocs && i' < nprocs && 1 <= j' <= rows / nprocs
    requires CircularRow(rows, nprocs, 2, i, j) == CircularRow(rows, nprocs, 2, i', j')
    ensures i == i' && j == j'
  {
    var k := rows / nprocs;
    InteriorSlot(rows, nprocs, i, j);
    InteriorSlot(rows, nprocs, i', j');
    DivModUnique(i * k + j - 1, k, i, j - 1);
    DivModUnique(i' * k + j' - 1, k, i', j' - 1);
  }

  /** The table loop of circular_rows: one freshly allocated row of slots
      per process, filled from the mapping. */
  method CircularRowsTable(rows: int, nprocs: nat, padding: int) returns (actual: seq<array<int>>)
    requires rows >= 1 && nprocs >= 1 && RowsPerProc(rows, nprocs, padding) >= 0
    ensures |actual| == nprocs
    ensures forall i :: 0 <= i < nprocs ==> fresh(actual[i])
    ensures forall i :: 0 <= i < nprocs ==> actual[i][..] == CircularTable(rows, nprocs, padding)[i]
  {
    var rowsPerProc := rows / nprocs + padding;
    actual := [];
    for i := 0 to nprocs
      invariant |actual| == i
      invariant forall i' :: 0 <= i' < i ==> fresh(actual[i'])
      invariant forall i' :: 0 <= i' < i ==> actual[i'][..] == CircularTable(rows, nprocs, padding)[i']
    {
      var a := new int[rowsPerProc];
      for j := 0 to rowsPerProc
        modifies a
        invariant forall j' :: 0 <= j' < j ==> a[j'] == CircularRow(rows, nprocs, padding, i, j')
      {
        a[j] := (i * (rowsPerProc - padding) + j - 1 + rows) % rows;
      }
      actual := actual + [a];
    }
  }

  // ---------------------------------------------------------------------
  // print_int_array

  /** The character of a decimal digit. */
  function DigitChar(d: nat): char
    requires d < 10
  {
    ('0' as int + d) as char
  }

  /** The value of a decimal digit character, -1 for any other character. */
  function DigitValue(c: char): int
  {
    if '0' <= c <= '9' then c as int - '0' as int else -1
  }

  predicate IsComma(c: char)
  {
    c == ','
  }

  predicate IsDigit(c: char)
  {
    '0' <= c <= '9'
  }

  /** Every character of t is a decimal digit. */
  predicate AllDigits(t: string)
  {
    forall i {:trigger IsDigit(t[i])} :: 0 <= i < |t| ==> IsDigit(t[i])
  }

  /** No comma at or after index `from` of t. */
  predicate CommaFreeFrom(t: string, from: int)
  {
    forall i {:trigger IsComma(t[i])} :: 0 <= from <= i < |t| ==> !IsComma(t[i])
  }

  /** The decimal digits of n, most significant first, without leading
      zeros. */
  function Digits(n: nat): (s: string)
    ensures |s| >= 1 && AllDigits(s) && CommaFreeFrom(s, 0)
    decreases n
  {
    if n < 10 then [DigitChar(n)] else Digits(n / 10) + [DigitChar(n % 10)]
  }

  /** printf's "%d": an optional minus sign and the digits. */
  function Decimal(n: int): (s: string)
    ensures |s| >= 1 && CommaFreeFrom(s, 0)
  {
    if n < 0 then "-" + Digits(-n) else Digits(n)
  }

  /** The number a string of digits denotes. */
  function ParseDigits(s: string): int
  {
    if |s| == 0 then 0 else ParseDigits(s[..|s| - 1]) * 10 + DigitValue(s[|s| - 1])
  }

  /** The number a "%d" rendering denotes. */
  function ParseDecimal(s: string): int
  {
    if |s| >= 1 && s[0] == '-' then -ParseDigits(s[1..]) else ParseDigits(s)
  }

  lemma {:induction false} DigitsRoundTrip(n: nat)
    ensures ParseDigits(Digits(n)) == n
    decreases n
  {
    if n >= 10 {
      DigitsRoundTrip(n / 10);
      var s := Digits(n);
      assert s[..|s| - 1] == Digits(n / 10);
    }
  }

  /** "%d" loses nothing: the rendering parses back to the number. */
  lemma DecimalRoundTrip(n: int)
    ensures ParseDecimal(Decimal(n)) == n
  {
    if n < 0 {
      DigitsRoundTrip(-n);
      assert ("-" + Digits(-n))[1..] == Digits(-n);
    } else {
      DigitsRoundTrip(n);
      assert IsDigit(Digits(n)[0]);
    }
  }

  /** The elements of s rendered with "%d" and separated by commas. */
  function Join(s: seq<int>): string
  {
    if |s| == 0 then ""
    else if |s| == 1 then Decimal(s[0])
    else Join(s[..|s| - 1]) + "," + Decimal(s[|s| - 1])
  }

  /** Index of the last comma of t, or -1 when there is none. */
  function LastComma(t: string): (r: int)
    ensures -1 <= r < |t|
    ensures r >= 0 ==> IsComma(t[r])
    ensures CommaFreeFrom(t, r + 1)
  {
    if |t| == 0 then -1
    else if IsComma(t[|t| - 1]) then |t| - 1
    else LastComma(t[..|t| - 1])
  }

  /** Reads a comma-separated list of "%d" renderings back into numbers. */
  function ParseList(t: string): seq<int>
    decreases |t|
  {
    if |t| == 0 then []
    else
      var c := LastComma(t);
      if c < 0 then [ParseDecimal(t)]
      else ParseList(t[..c]) + [ParseDecimal(t[c + 1..])]
  }

  /** The last comma is the one with no comma after it. */
  lemma LastCommaUnique(t: string, c: int)
    requires 0 <= c < |t| && IsComma(t[c]) && CommaFreeFrom(t, c + 1)
    ensures LastComma(t) == c
  {
  }

  /** Joining with a comma to a comma-free string leaves no comma after the
      joint. */
  lemma CommaFreeTail(a: string, b: string)
    requires CommaFreeFrom(b, 0)
    ensures var t := a + "," + b;
      |a| < |t| && IsComma(t[|a|]) && CommaFreeFrom(t, |a| + 1)
  {
    var c := a + ",";
    var t := c + b;
    assert t[|a|] == ',';
    forall i | |c| <= i < |t|
      ensures !IsComma(t[i])
    {
      assert t[i] == b[i - |c|];
    }
  }

  /** Appending a comma and a comma-free string puts the last comma right
      after the prefix. */
  lemma LastCommaAppend(a: string, b: string)
    requires CommaFreeFrom(b, 0)
    ensures LastComma(a + "," + b) == |a|
  {
    CommaFreeTail(a, b);
    LastCommaUnique(a + "," + b, |a|);
  }

  /** Parsing splits off the text after the last comma. */
  lemma ParseListAppend(a: string, b: string)
    requires CommaFreeFrom(b, 0)
    ensures ParseList(a + "," + b) == ParseList(a) + [ParseDecimal(b)]
  {
    var t := a + "," + b;
    LastCommaAppend(a, b);
    assert t[..|a|] == a && t[|a| + 1..] == b;
  }

  /** A non-empty sequence is its prefix followed by its last element. */
  lemma LastSplit(s: seq<int>)
    requires |s| >= 1
    ensures s == s[..|s| - 1] + [s[|s| - 1]]
  {
  }

  /** The joined list parses back to the array's contents. */
  lemma {:induction false} JoinRoundTrip(s: seq<int>)
    ensures ParseList(Join(s)) == s
    decreases |s|
  {
    if |s| == 1 {
      DecimalRoundTrip(s[0]);
    } else if |s| > 1 {
      var init, last := s[..|s| - 1], s[|s| - 1];
      ParseListAppend(Join(init), Decimal(last));
      JoinRoundTrip(init);
      DecimalRoundTrip(last);
      LastSplit(s);
    }
  }

  /** print_int_array: an opening bracket, the elements separated by
      commas, a closing bracket and a newline; the text it prints is
      returned instead of written to standard output. */
  method PrintIntArray(a: array<int>, size: int) returns (out: string)
    requires 0 <= size <= a.Length
    ensures out == "[" + Join(a[..size]) + "]\n"
  {
    out := "[";
    if size > 0 {
      out := out + Decimal(a[0]);
    }
    var i := 1;
    while i < size
      invariant size == 0 ==> out == "["
      invariant size > 0 ==> 1 <= i <= size && out == "[" + Join(a[..i])
    {
      assert a[..i + 1][..i] == a[..i];
      out := out + "," + Decimal(a[i]);
      i := i + 1;
    }
    out := out + "]\n";
  }

  /** What print_int_array prints parses back to the array's first `size`
      elements; an empty array prints as "[]". */
  lemma PrintIntArrayRoundTrip(a: seq<int>)
    ensures var text := "[" + Join(a) + "]\n";
      ParseList(text[1..|text| - 2]) == a && (a == [] ==> text == "[]\n")
  {
    var text := "[" + Join(a) + "]\n";
    assert text[1..|text| - 2] == Join(a);
    JoinRoundTrip(a);
  }

  /** The text circular_rows prints for a table: one "Proc[i]: " line per
      process, each followed by the printed list of its rows. */
  function TableText(t: seq<seq<int>>): string
  {
    if |t| == 0 then ""
    else TableText(t[..|t| - 1]) + "Proc[" + Decimal(|t| - 1) + "]: " + "[" + Join(t[|t| - 1]) + "]\n"
  }

  /** Printing one more process appends its line. */
  lemma TableTextSnoc(t: seq<seq<int>>, i: nat)
    requires i < |t|
    ensures TableText(t[..i + 1]) == TableText(t[..i]) + "Proc[" + Decimal(i) + "]: " + ("[" + Join(t[i]) + "]\n")
  {
    assert t[..i + 1][..i] == t[..i];
  }

  /** circular_rows: the mapping for 6 rows over 6 processes with 2 halo
      rows, built as a table and printed row by row. */
  method CircularRows() returns (out: string)
    ensures out == TableText(CircularTable(6, 6, 2))
  {
    var rows := 6;
    var nprocs := 6;
    var padding := 2;
    var rowsPerProc := rows / nprocs + padding;
    var actual := CircularRowsTable(rows, nprocs, padding);
    ghost var table := CircularTable(rows, nprocs, padding);
    out := "";
    for i := 0 to nprocs
      invariant forall i' :: 0 <= i' < nprocs ==> actual[i'][..] == table[i']
      invariant out == TableText(table[..i])
    {
      var line := PrintIntArray(actual[i], rowsPerProc);
      TableTextSnoc(table, i);
      assert actual[i][..rowsPerProc] == table[i];
      out := out + "Proc[" + Decimal(i) + "]: " + line;
    }
    assert table[..nprocs] == table;
  }
}
