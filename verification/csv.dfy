/** csv.c: a text of separated fields, one row a line. */
module Csv {
  import opened CTypes

  const NL: bv8 := 10

  predicate IsSpace(c: bv8) { c == 32 || 9 <= c <= 13 }

  type Row = seq<CString>

  const BLANK: Row := [[]]

  // ---------------------------------------------------------------- what a text means

  /** The length of the field in front of s. */
  function FieldEnd(s: seq<bv8>, fs: bv8): (n: nat)
    ensures n <= |s| && (n < |s| ==> s[n] == NL || s[n] == fs)
    ensures forall k | 0 <= k < n :: s[k] != NL && s[k] != fs
  {
    if s == [] || s[0] == NL || s[0] == fs then 0 else 1 + FieldEnd(s[1..], fs)
  }

  function Trim(f: seq<bv8>): (t: seq<bv8>)
    ensures t <= f
  {
    if f != [] && IsSpace(f[|f| - 1]) then Trim(f[..|f| - 1]) else f
  }

  /** Only blanks are taken off, and all of them. */
  lemma {:induction false} TrimIs(f: seq<bv8>)
    ensures var t := Trim(f);
            && (t == [] || t[|t| - 1] !in {9, 10, 11, 12, 13, 32})
            && forall k | |t| <= k < |f| :: f[k] in {9, 10, 11, 12, 13, 32}
  {
    if f == [] {
    } else {
      TrimIs(f[..|f| - 1]);
    }
  }

  /** The rows of a text; the field in front of a newline is trimmed at its end. */
  function Table(s: CString, fs: bv8): (t: seq<Row>)
    ensures t != [] && forall k | 0 <= k < |t| :: t[k] != []
    decreases |s|
  {
    var n := FieldEnd(s, fs);
    if n == |s| then [[s]]
    else if s[n] == NL then [[Trim(s[..n])]] + Table(s[n + 1..], fs)
    else Prepend(s[..n], Table(s[n + 1..], fs))
  }

  /** A field in front of the first row. */
  function Prepend(f: CString, t: seq<Row>): seq<Row>
    requires t != []
  {
    [[f] + t[0]] + t[1..]
  }

  /** Rows of one empty field are taken off the end. */
  function Strip(t: seq<Row>): (r: seq<Row>)
    ensures r <= t && (r != [] ==> r[|r| - 1] != BLANK)
    ensures forall k | |r| <= k < |t| :: t[k] == [[]]
  {
    if t != [] && t[|t| - 1] == BLANK then Strip(t[..|t| - 1]) else t
  }

  lemma {:induction false} StripKeepsStart(t: seq<Row>, fs: bv8)
    requires t != [] && t[0] != [] && !BlankStart(t, fs)
    ensures Strip(t) != []
  {
    if t[|t| - 1] == BLANK { StripKeepsStart(t[..|t| - 1], fs); }
  }

  /** The parser gives up on a text whose first field is empty, unless a separator that is no blank ends it. */
  predicate BlankStart(t: seq<Row>, fs: bv8)
    requires t != [] && t[0] != []
  {
    t[0][0] == [] && (|t[0]| == 1 || IsSpace(fs))
  }

  function Parsed(s: CString, fs: bv8): Option<seq<Row>> {
    var t := Table(s, fs);
    if BlankStart(t, fs) then None else Some(Strip(t))
  }

  predicate AllSpace(f: seq<bv8>) { forall k | 0 <= k < |f| :: f[k] in {9, 10, 11, 12, 13, 32} }

  /** Which texts the parser gives up on: the empty one, those whose first line is blank and ends, without a separator
      in it, in a newline, and those that begin with a separator which is a blank. */
  lemma GivenUp(s: CString, fs: bv8)
    ensures var n := FieldEnd(s, fs);
            Parsed(s, fs).None? <==>
              s == [] || (n < |s| && s[n] == 10 && AllSpace(s[..n])) ||
              (s[0] == fs && s[0] != 10 && fs in {9, 11, 12, 13, 32})
  {
    hide FieldEnd, Strip;
    var n := FieldEnd(s, fs);
    if n < |s| && s[n] == NL {
      TrimmedAway(s[..n]);
    }
    hide Trim;
    if n == 0 && s != [] { assert s[..0] == []; }
    if n > 0 { assert s[0] != NL && s[0] != fs; }
  }

  lemma TrimmedAway(f: seq<bv8>)
    ensures Trim(f) == [] <==> AllSpace(f)
  {
    TrimIs(f);
    if Trim(f) != [] { assert f[|Trim(f)| - 1] == Trim(f)[|Trim(f)| - 1]; }
  }

  // ---------------------------------------------------------------- writing a table and reading it back

  predicate Plain(f: CString, fs: bv8) { NL !in f && fs !in f }

  predicate PlainRow(row: Row, fs: bv8) {
    row != [] && forall k | 0 <= k < |row| :: Plain(row[k], fs)
  }

  predicate PlainTable(rows: seq<Row>, fs: bv8) {
    rows != [] && forall k | 0 <= k < |rows| :: PlainRow(rows[k], fs)
  }

  function JoinFields(row: Row, fs: bv8): CString
    requires row != [] && fs != 0
  {
    if |row| == 1 then row[0] else row[0] + [fs] + JoinFields(row[1..], fs)
  }

  function Newlines(n: nat): CString { seq(n, _ => NL) }

  /** The rows with newlines between them, and n newlines at the end. */
  function Text(rows: seq<Row>, fs: bv8, n: nat): CString
    requires PlainTable(rows, fs) && fs != 0
  {
    JoinFields(rows[0], fs) + if |rows| == 1 then Newlines(n) else [NL] + Text(rows[1..], fs, n)
  }

  function TrimEnd(row: Row): Row
    requires row != []
  {
    row[..|row| - 1] + [Trim(row[|row| - 1])]
  }

  /** The rows as a newline leaves them; a last row without one stays as it is. */
  function Read(rows: seq<Row>, fs: bv8, n: nat): (t: seq<Row>)
    requires PlainTable(rows, fs)
    ensures |t| == |rows|
    ensures forall k | 0 <= k < |rows| :: t[k] != [] &&
              t[k] == if k == |rows| - 1 && n == 0 then rows[k] else TrimEnd(rows[k])
  {
    if |rows| == 1 then [if n == 0 then rows[0] else TrimEnd(rows[0])]
    else [TrimEnd(rows[0])] + Read(rows[1..], fs, n)
  }

  lemma {:induction false} FieldInFront(f: CString, rest: seq<bv8>, fs: bv8)
    requires Plain(f, fs) && (rest == [] || rest[0] == NL || rest[0] == fs)
    ensures FieldEnd(f + rest, fs) == |f|
  {
    if f == [] {
      assert f + rest == rest;
    } else {
      assert (f + rest)[1..] == f[1..] + rest;
      FieldInFront(f[1..], rest, fs);
    }
  }

  /** What a field and the terminator behind it make of the rows that follow. */
  function After(f: CString, rest: CString, fs: bv8): seq<Row> {
    if rest == [] then [[f]]
    else if rest[0] == NL then [[f]] + Table(rest[1..], fs)
    else Prepend(f, Table(rest[1..], fs))
  }

  lemma TableInFront(f: CString, rest: CString, fs: bv8)
    requires Plain(f, fs) && (rest == [] || rest[0] == NL || rest[0] == fs)
    ensures Table(f + rest, fs) == After(if rest != [] && rest[0] == NL then Trim(f) else f, rest, fs)
  {
    hide Trim;
    var s := f + rest;
    FieldInFront(f, rest, fs);
    hide FieldEnd;
    assert s[..|f|] == f;
    if rest != [] { assert s[|f| + 1..] == rest[1..]; } else { assert s == f; }
  }

  lemma JoinSplit(row: Row, rest: CString, fs: bv8) returns (tail: CString)
    requires PlainRow(row, fs) && fs != 0 && |row| > 1
    ensures PlainRow(row[1..], fs) && Plain(row[0], fs) && row == [row[0]] + row[1..]
    ensures tail == [fs] + (JoinFields(row[1..], fs) + rest) && tail[1..] == JoinFields(row[1..], fs) + rest
    ensures JoinFields(row, fs) + rest == row[0] + tail
    ensures TrimEnd(row) == [row[0]] + TrimEnd(row[1..])
  {
    hide Trim, Plain;
    tail := [fs] + (JoinFields(row[1..], fs) + rest);
  }

  lemma {:induction false} RowInFront(row: Row, rest: CString, fs: bv8)
    requires PlainRow(row, fs) && fs != 0 && fs != NL && (rest == [] || rest[0] == NL)
    ensures Table(JoinFields(row, fs) + rest, fs) ==
            if rest == [] then [row] else [TrimEnd(row)] + Table(rest[1..], fs)
    decreases |row|
  {
    hide Trim, Table, Plain;
    if |row| == 1 {
      TableInFront(row[0], rest, fs);
      assert row == [row[0]] && TrimEnd(row) == [Trim(row[0])];
    } else {
      hide JoinFields, TrimEnd, PlainRow;
      var tail := JoinSplit(row, rest, fs);
      TableInFront(row[0], tail, fs);
      RowInFront(row[1..], rest, fs);
    }
  }

  lemma {:induction false} BlankRows(n: nat, fs: bv8)
    ensures Table(Newlines(n), fs) == seq(n + 1, _ => BLANK)
  {
    if n == 0 {
    } else {
      assert Newlines(n)[1..] == Newlines(n - 1) && Newlines(n)[..0] == [];
      BlankRows(n - 1, fs);
    }
  }

  /** The text of a table reads as the table, trimmed, with an empty row for every newline at the end. */
  lemma {:induction false} TableOfText(rows: seq<Row>, fs: bv8, n: nat)
    requires PlainTable(rows, fs) && fs != 0 && fs != NL
    ensures Table(Text(rows, fs, n), fs) == Read(rows, fs, n) + seq(n, _ => BLANK)
    decreases |rows|
  {
    hide FieldEnd, Trim, Table, JoinFields;
    if |rows| == 1 {
      RowInFront(rows[0], Newlines(n), fs);
      if n > 0 {
        assert Newlines(n)[1..] == Newlines(n - 1);
        BlankRows(n - 1, fs);
      }
    } else {
      RowInFront(rows[0], [NL] + Text(rows[1..], fs, n), fs);
      assert ([NL] + Text(rows[1..], fs, n))[1..] == Text(rows[1..], fs, n);
      TableOfText(rows[1..], fs, n);
    }
  }

  lemma {:induction false} StripBlanks(t: seq<Row>, n: nat)
    ensures Strip(t + seq(n, _ => BLANK)) == Strip(t)
  {
    var s := t + seq(n, _ => BLANK);
    if n == 0 {
      assert s == t;
    } else {
      assert s[..|s| - 1] == t + seq(n - 1, _ => BLANK);
      StripBlanks(t, n - 1);
    }
  }

  predicate EndsTrimmed(row: Row)
    requires row != []
  {
    var f := row[|row| - 1];
    f == [] || !IsSpace(f[|f| - 1])
  }

  lemma TrimEndSame(row: Row)
    requires row != []
    ensures TrimEnd(row) == row <==> EndsTrimmed(row)
  {
    var f := row[|row| - 1];
    assert TrimEnd(row)[|row| - 1] == Trim(f);
    if Trim(f) == f { assert TrimEnd(row) == row; }
  }

  /** No field in front of a newline ends in a blank, the text does not start blank, and the last row is not
      one empty field. */
  predicate Faithful(rows: seq<Row>, fs: bv8, n: nat)
    requires PlainTable(rows, fs)
  {
    && (forall k | 0 <= k < |rows| :: (k == |rows| - 1 && n == 0) || EndsTrimmed(rows[k]))
    && !BlankStart(rows, fs)
    && rows[|rows| - 1] != BLANK
  }

  lemma ReadSame(rows: seq<Row>, fs: bv8, n: nat)
    requires PlainTable(rows, fs)
    ensures Read(rows, fs, n) == rows <==>
            forall k | 0 <= k < |rows| :: (k == |rows| - 1 && n == 0) || EndsTrimmed(rows[k])
  {
    hide EndsTrimmed, TrimEnd;
    var t := Read(rows, fs, n);
    forall k | 0 <= k < |rows|
      ensures t[k] == rows[k] <==> (k == |rows| - 1 && n == 0) || EndsTrimmed(rows[k])
    {
      TrimEndSame(rows[k]);
    }
    if t == rows {
      forall k | 0 <= k < |rows| ensures (k == |rows| - 1 && n == 0) || EndsTrimmed(rows[k]) { assert t[k] == rows[k]; }
    }
  }

  /** A table is read back from its text, behind which any number of newlines may stand, exactly when it is
      faithful. */
  lemma RoundTrip(rows: seq<Row>, fs: bv8, n: nat)
    requires PlainTable(rows, fs) && fs != 0 && fs != NL
    ensures Parsed(Text(rows, fs, n), fs) == Some(rows) <==> Faithful(rows, fs, n)
  {
    hide FieldEnd, IsSpace, Trim, Text, Table, Read, TrimEnd, EndsTrimmed, BlankStart, Strip, PlainRow, JoinFields;
    var t := Read(rows, fs, n);
    TableOfText(rows, fs, n);
    StripBlanks(t, n);
    ReadSame(rows, fs, n);
    SameStart(t, seq(n, _ => BLANK), fs);
    if Strip(t) == rows { assert t == rows; }
    if t == rows { StripNothing(rows); }
  }

  lemma SameStart(t: seq<Row>, more: seq<Row>, fs: bv8)
    requires t != [] && t[0] != []
    ensures BlankStart(t + more, fs) == BlankStart(t, fs)
  {
  }

  lemma StripNothing(t: seq<Row>)
    requires t != []
    ensures Strip(t) == t <==> t[|t| - 1] != BLANK
  {
  }

  /** A blank in front of a newline is lost: the table of "a " and "b" is not read back from its text. */
  lemma BlankIsLost(fs: bv8)
    requires fs != 0 && fs != NL && fs != 32 && fs != 97 && fs != 98
    ensures var rows: seq<Row> := [[[97, 32]], [[98]]];
            PlainTable(rows, fs) && Parsed(Text(rows, fs, 0), fs) != Some(rows)
  {
    var rows: seq<Row> := [[[97, 32]], [[98]]];
    assert PlainRow(rows[0], fs) && PlainRow(rows[1], fs);
    assert !EndsTrimmed(rows[0]);
    RoundTrip(rows, fs, 0);
  }

  // ---------------------------------------------------------------- the code

  /** struct csv_line: `a` is the length of v. */
  datatype Line = Line(v: array?<CString>, u: nat)

  /** The scan for the end of a field. */
  method ScanField(str: CString, s1: nat, fs: bv8) returns (s2: nat)
    requires s1 <= |str|
    ensures s2 == s1 + FieldEnd(str[s1..], fs)
  {
    s2 := s1;
    while s2 < |str| && str[s2] != NL && str[s2] != fs
      invariant s1 <= s2 <= |str|
      invariant FieldEnd(str[s1..], fs) == s2 - s1 + FieldEnd(str[s2..], fs)
    {
      assert str[s2..][1..] == str[s2 + 1..];
      s2 := s2 + 1;
    }
  }

  /** The scan back over blanks. */
  method ScanBlanks(str: CString, s1: nat, s2: nat) returns (s3: nat)
    requires s1 <= s2 <= |str|
    ensures s1 <= s3 <= s2 && str[s1..s3] == Trim(str[s1..s2])
    ensures s3 < s2 ==> IsSpace(str[s3])
    ensures forall k | s3 <= k < s2 :: str[k] in {9, 10, 11, 12, 13, 32}
    ensures s3 > s1 ==> str[s3 - 1] !in {9, 10, 11, 12, 13, 32}
  {
    s3 := s2;
    while s3 > s1 && IsSpace(str[s3 - 1])
      invariant s1 <= s3 <= s2 && Trim(str[s1..s2]) == Trim(str[s1..s3])
      invariant s3 < s2 ==> IsSpace(str[s3])
    {
      assert str[s1..s3][..s3 - s1 - 1] == str[s1..s3 - 1];
      s3 := s3 - 1;
    }
    TrimmedBlanks(str, s1, s3, s2);
  }

  lemma TrimmedBlanks(str: CString, s1: nat, s3: nat, s2: nat)
    requires s1 <= s3 <= s2 <= |str| && str[s1..s3] == Trim(str[s1..s2])
    ensures forall k | s3 <= k < s2 :: str[k] in {9, 10, 11, 12, 13, 32}
    ensures s3 > s1 ==> str[s3 - 1] !in {9, 10, 11, 12, 13, 32}
  {
    hide Trim;
    TrimIs(str[s1..s2]);
    forall k | s3 <= k < s2 ensures str[k] in {9, 10, 11, 12, 13, 32} { assert str[k] == str[s1..s2][k - s1]; }
    if s3 > s1 { assert str[s3 - 1] == str[s1..s3][s3 - s1 - 1]; }
  }

  /** The cells of a line. */
  ghost predicate Holds(l: Line, row: Row)
    reads if l.v == null then {} else {l.v}
  {
    if l.v == null then l.u == 0 && row == [] else l.u <= l.v.Length && l.v[..l.u] == row
  }

  /** struct csv_file: `a` is the length of v. Line u is the one being filled. */
  class CsvFile {
    var v: array?<Line>
    var u: nat
    /** The arrays that hold the cells, the rows that are complete, and the one being filled. */
    ghost var cells: set<array<CString>>
    ghost var rows: seq<Row>
    ghost var current: Row

    constructor ()
      ensures Valid() && fresh(cells) && v == null && rows == [] && current == []
    {
      v, u, cells, rows, current := null, 0, {}, [], [];
    }

    ghost predicate Valid()
      reads this, v, cells
    {
      if v == null then rows == [] && current == [] && u == 0 else
      && |rows| == u <= v.Length && v.Length > 0
      && (forall k | 0 <= k < v.Length && v[k].v != null :: v[k].v in cells)
      && (forall k | 0 <= k < u :: Holds(v[k], rows[k]))
      && (if u == v.Length then current == [] else Holds(v[u], current))
      && (forall j, k | 0 <= j < k < v.Length && v[j].v != null :: v[j].v != v[k].v)
      && (forall k | u < k < v.Length :: v[k] == Line(null, 0))
    }

    /** Nothing was put into line u. */
    ghost predicate Untouched()
      requires Valid()
      reads this, v, cells
    {
      v == null || u == v.Length || v[u] == Line(null, 0)
    }

    /** Makes line u exist: sixteen lines at first, then twice as many. */
    method GrowLines()
      requires Valid()
      modifies this`v
      ensures Valid() && v != null && u < v.Length && (v == old(v) || fresh(v))
    {
      assert Holds(Line(null, 0), []);
      hide Holds;
      var a := if v == null then 0 else v.Length;
      if u >= a {
        if v == null {
          v := new Line[16](_ => Line(null, 0));
        } else {
          var bigger := new Line[a * 2](_ => Line(null, 0));
          forall k | 0 <= k < a { bigger[k] := v[k]; }
          v := bigger;
        }
      }
    }

    /** Makes room for one more cell in line u. */
    method GrowCells()
      requires Valid() && v != null && u < v.Length
      modifies this`cells, v
      ensures Valid() && v[u].v != null && v[u].u == old(v[u].u) < v[u].v.Length
      ensures fresh(cells - old(cells)) && old(cells) <= cells
    {
      var l := v[u];
      var a := if l.v == null then 0 else l.v.Length;
      if l.u >= a {
        var bigger := new CString[if a == 0 then 16 else a * 2](_ => []);
        forall k | 0 <= k < a { bigger[k] := l.v[k]; }
        cells := cells + {bigger};
        v[u] := Line(bigger, l.u);
        assert bigger[..l.u] == current;
      }
    }

    /** pp->v[pp->u++] = s4, with room for it */
    method StoreCell(l: Line, s4: CString)
      requires Valid() && v != null && u < v.Length && v[u] == l && l.v != null && l.u < l.v.Length
      modifies this`current, v, l.v
      ensures Valid() && current == old(current) + [s4]
    {
      ghost var before := l.v[..l.u];
      l.v[l.u] := s4;
      v[u] := Line(l.v, l.u + 1);
      current := current + [s4];
      assert l.v[..l.u + 1] == before + [s4];
    }

    /** The growing of both arrays, and the new cell. */
    method AddCell(s4: CString)
      requires Valid()
      modifies this`v, this`cells, this`current, v, cells
      ensures Valid() && (v == old(v) || fresh(v)) && v != null && u < v.Length
      ensures fresh(cells - old(cells)) && current == old(current) + [s4]
    {
      GrowLines();
      GrowCells();
      CellsKnown();
      hide Valid, Holds;
      StoreCell(v[u], s4);
    }

    lemma CellsKnown()
      requires Valid() && v != null && u < v.Length && v[u].v != null
      ensures v[u].v in cells
    {
    }

    /** p->u++ */
    method EndRow()
      requires Valid() && v != null && u < v.Length && current != []
      modifies this`u, this`rows, this`current
      ensures Valid() && rows == old(rows) + [old(current)] && current == [] && Untouched()
    {
      u := u + 1;
      rows := rows + [current];
      current := [];
    }

    lemma Count()
      requires Valid()
      ensures u == |rows|
    {
    }

    /** p->u > 0 && p->v[p->u - 1].u == 1 && !*p->v[p->u - 1].v[0] */
    predicate LastIsBlank(): (b: bool)
      requires Valid()
      reads this, v, cells
      ensures b <==> rows != [] && rows[|rows| - 1] == BLANK
    {
      assert u > 0 ==> Holds(v[u - 1], rows[u - 1]);
      u > 0 && v[u - 1].u == 1 && v[u - 1].v[0] == []
    }

    /** The last loop: lines of one empty cell are given back. */
    method StripLines()
      requires Valid() && Untouched() && current == []
      modifies this`u, this`rows, v
      ensures Valid() && rows == Strip(old(rows)) && v == old(v)
    {
      hide Valid, Untouched, LastIsBlank;
      while LastIsBlank()
        invariant Valid() && Untouched() && Strip(rows) == Strip(old(rows)) && v == old(v)
        decreases |rows|
      {
        DropLine();
      }
    }

    method DropLine()
      requires Valid() && Untouched() && current == [] && LastIsBlank()
      modifies this`u, this`rows, v
      ensures Valid() && Untouched() && v == old(v) && old(rows) == rows + [BLANK]
    {
      assert Holds(v[u - 1], rows[u - 1]);
      u := u - 1;
      assert rows[u] == [v[u].v[0]];
      v[u] := Line(null, 0);
      rows := rows[..u];
    }
  }

  lemma FieldIsPlain(str: CString, s1: nat, s2: nat, fs: bv8)
    requires s1 <= s2 <= |str| && s2 == s1 + FieldEnd(str[s1..], fs)
    ensures Plain(str[s1..s2], fs) && str[s1..] == str[s1..s2] + str[s2..]
    ensures s2 < |str| ==> str[s2] == NL || str[s2] == fs
  {
    hide FieldEnd;
    forall k | 0 <= k < s2 - s1 ensures str[s1..s2][k] == str[s1..][k] {}
    if s2 < |str| { assert str[s2] == str[s1..][s2 - s1]; }
  }

  /** One field, and what it makes of the rows that follow. */
  method NextField(str: CString, s1: nat, fs: bv8) returns (s2: nat, s3: nat)
    requires s1 <= |str|
    ensures s1 <= s3 <= s2 <= |str|
    ensures Table(str[s1..], fs) == After(str[s1..s3], str[s2..], fs)
    ensures s2 < |str| ==> str[s2] == NL || str[s2] == fs
    ensures s3 < s2 ==> s2 < |str| && str[s2] == NL && IsSpace(str[s3])
  {
    hide Table, Trim, IsSpace, FieldEnd, After;
    s2 := ScanField(str, s1, fs);
    s3 := s2;
    ghost var f := str[s1..s2];
    FieldIsPlain(str, s1, s2, fs);
    TableInFront(f, str[s2..], fs);
    if s2 < |str| && str[s2] == NL { s3 := ScanBlanks(str, s1, s2); }
  }

  /** Complete rows, cells of the next row, and the rows of the rest of the text. */
  function Glue(rows: seq<Row>, current: Row, t: seq<Row>): seq<Row>
    requires t != []
  {
    rows + [current + t[0]] + t[1..]
  }

  lemma GlueRow(rows: seq<Row>, current: Row, f: CString, t: seq<Row>)
    requires t != []
    ensures Glue(rows, current, [[f]] + t) == Glue(rows + [current + [f]], [], t)
  {
    assert ([[f]] + t)[1..] == t && [] + t[0] == t[0] && [t[0]] + t[1..] == t;
  }

  lemma GlueCell(rows: seq<Row>, current: Row, f: CString, t: seq<Row>)
    requires t != []
    ensures Glue(rows, current, Prepend(f, t)) == Glue(rows, current + [f], t)
  {
    assert current + ([f] + t[0]) == current + [f] + t[0];
  }

  lemma GlueAfter(rows: seq<Row>, current: Row, f: CString, rest: CString, fs: bv8)
    ensures Glue(rows, current, After(f, rest, fs)) ==
            if rest == [] then rows + [current + [f]]
            else if rest[0] == NL then Glue(rows + [current + [f]], [], Table(rest[1..], fs))
            else Glue(rows, current + [f], Table(rest[1..], fs))
  {
    hide Table, Prepend;
    if rest != [] {
      hide Glue;
      if rest[0] == NL { GlueRow(rows, current, f, Table(rest[1..], fs)); }
      else { GlueCell(rows, current, f, Table(rest[1..], fs)); }
    }
  }

  lemma StartAfter(f: CString, rest: CString, fs: bv8)
    ensures BlankStart(After(f, rest, fs), fs) <==> f == [] && (rest == [] || rest[0] == NL || IsSpace(fs))
  {
    hide Table, IsSpace;
  }

  lemma GlueNothing(t: seq<Row>)
    requires t != []
    ensures Glue([], [], t) == t
  {
    assert [] + t[0] == t[0];
  }

  /** csv_parse. NULL, for a text without rows, is None. */
  method Parse(str: CString, fs: bv8) returns (p: CsvFile, found: bool)
    ensures fresh(p) && p.Valid() && p.u == |p.rows|
    ensures if found then Parsed(str, fs) == Some(p.rows) && p.rows != [] else Parsed(str, fs).None?
  {
    hide Table, BlankStart, After, Glue, CsvFile.Valid, FieldEnd, Strip;
    p := new CsvFile();
    var s1: nat := 0;
    ghost var t := Table(str, fs);
    GlueNothing(t);
    assert str[0..] == str;
    while true
      invariant fresh(p) && fresh(p.cells) && (p.v != null ==> fresh(p.v)) && p.Valid() && s1 <= |str|
      invariant t == Glue(p.rows, p.current, Table(str[s1..], fs))
      invariant s1 > 0 ==> !BlankStart(t, fs)
      invariant s1 == 0 ==> p.rows == [] && p.current == [] && p.v == null
      decreases |str| - s1
    {
      var s2, s3 := NextField(str, s1, fs);
      StartAfter(str[s1..s3], str[s2..], fs);
      if s1 == 0 { assert str[s1..] == str; }
      if s3 == 0 && (s3 == |str| || IsSpace(str[s3])) { break; }
      assert s1 == 0 ==> !BlankStart(t, fs);
      GlueAfter(p.rows, p.current, str[s1..s3], str[s2..], fs);
      p.AddCell(str[s1..s3]);
      if s2 == |str| || str[s2] == NL { p.EndRow(); }
      if s2 == |str| { break; }
      assert str[s2..][1..] == str[s2 + 1..];
      s1 := s2 + 1;
    }
    assert BlankStart(t, fs) ==> p.rows == [];
    assert !BlankStart(t, fs) ==> p.rows == t;
    if !BlankStart(t, fs) { StripKeepsStart(t, fs); }
    p.StripLines();
    p.Count();
    found := p.u > 0;
  }
}
