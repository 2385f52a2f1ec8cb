/**
 * The line loop of `read_csv` (dataframe.py:88-109): each line loses its
 * trailing newline characters, blank lines are skipped, the first line's
 * values name the columns and every later line's values are appended to the
 * columns pairwise, stopping at the shorter of header and line.
 *
 * Opening and decoding the file is not modelled: the lines arrive as the
 * file iteration yields them (each with its line terminator, if any).
 */
module Csv {
  import opened Wrappers
  import opened Values
  import opened Seqs
  import opened Tokenizer
  import opened Frames

  /** How `read_csv` fails after reading its lines. */
  datatype CsvError =
    | HeaderUnbound  // a line after the first is read while `header` was never bound (the first line was blank)
    | NoColumns      // no header at all, so `DataFrame(None)` fails

  /** `line.rstrip("\n\r")`. */
  function RStripNewlines(s: string): string
    decreases |s|
  {
    if s != [] && (s[|s| - 1] == '\n' || s[|s| - 1] == '\r') then RStripNewlines(s[..|s| - 1]) else s
  }

  /** Stripping keeps a prefix, removes only line-break characters, and leaves none at the end. */
  lemma {:induction false} RStripNewlinesSpec(s: string)
    ensures RStripNewlines(s) <= s
    ensures RStripNewlines(s) == [] || (RStripNewlines(s)[|RStripNewlines(s)| - 1] != '\n' && RStripNewlines(s)[|RStripNewlines(s)| - 1] != '\r')
    ensures forall k :: |RStripNewlines(s)| <= k < |s| ==> s[k] == '\n' || s[k] == '\r'
    decreases |s|
  {
    if s != [] && (s[|s| - 1] == '\n' || s[|s| - 1] == '\r') {
      RStripNewlinesSpec(s[..|s| - 1]);
    }
  }

  /** The columns dict being filled: the header line's values, its distinct names in order, and each name's values. */
  datatype Columns = Columns(header: seq<Key>, keys: seq<Key>, data: map<Key, seq<Value>>)

  /** `{h: [] for h in header}`: a repeated name is one column, where it first occurs. */
  function StartColumns(header: seq<Key>): Columns {
    Columns(header, Dedup(header), EmptyFor(header))
  }

  function EmptyFor(hs: seq<Key>): map<Key, seq<Value>> {
    map h | h in hs :: []
  }

  lemma EmptyForSnoc(hs: seq<Key>, h: Key)
    ensures EmptyFor(hs + [h]) == EmptyFor(hs)[h := []]
  {
  }

  /** Appends each `vs[j]` to the column `hs[j]`, in order. */
  function AppendPairs(data: map<Key, seq<Value>>, hs: seq<Key>, vs: seq<Value>): (d: map<Key, seq<Value>>)
    requires |hs| == |vs|
    requires forall j :: 0 <= j < |hs| ==> hs[j] in data
    ensures d.Keys == data.Keys
    decreases |hs|
  {
    if hs == [] then data
    else
      var n := |hs| - 1;
      var d := AppendPairs(data, hs[..n], vs[..n]);
      d[hs[n] := d[hs[n]] + [vs[n]]]
  }

  /** The columns after one more line: `zip` pairs header and values up to the shorter of them. */
  function ZipRow(cols: Columns, values: seq<Value>): Columns
    requires forall j :: 0 <= j < |cols.header| ==> cols.header[j] in cols.data
  {
    var n := Min(|cols.header|, |values|);
    Columns(cols.header, cols.keys, AppendPairs(cols.data, cols.header[..n], values[..n]))
  }

  /** The columns dict holds every header name and nothing else, in first-seen order. */
  ghost predicate Consistent(cols: Columns) {
    && cols.keys == Dedup(cols.header)
    && (forall j :: 0 <= j < |cols.header| ==> cols.header[j] in cols.data)
    && (forall k :: k in cols.data ==> k in cols.header)
  }

  /**
   * The state of the loop after `lines`: `Ok(None)` while no header is bound,
   * `Ok(Some(columns))` once the first line has given the header, or the
   * error that stopped it.
   */
  function ReadState(lines: seq<string>): (r: Result<Option<Columns>, CsvError>)
    ensures r.Ok? && r.value.Some? ==> Consistent(r.value.value)
    decreases |lines|
  {
    if lines == [] then Ok(None)
    else
      var n := |lines| - 1;
      var prev := ReadState(lines[..n]);
      var line := RStripNewlines(lines[n]);
      if prev.Err? || line == [] then prev
      else if n == 0 then
        DedupMembers(LineValues(line));
        Ok(Some(StartColumns(LineValues(line))))
      else if prev.value.None? then Err(HeaderUnbound)
      else
        var cols := ZipRow(prev.value.value, LineValues(line));
        Ok(Some(cols))
  }

  /** What `read_csv` returns or raises for the file with these lines; `sep` is accepted and not used. */
  function ReadCsvSpec(lines: seq<string>, sep: string): (r: Result<DataFrame, CsvError>)
    ensures r.Ok? ==> r.value.Valid()
    ensures r.Ok? ==> ReadState(lines).Ok? && ReadState(lines).value.Some? && r.value.columns == Dedup(ReadState(lines).value.value.header)
  {
    match ReadState(lines)
    case Err(e) => Err(e)
    case Ok(None) => Err(NoColumns)
    case Ok(Some(cols)) =>
      DedupDistinct(cols.header);
      DedupMembers(cols.header);
      Ok(Make(cols.keys, cols.data))
  }

  /** `{h: [] for h in header}`, name by name. */
  method NewColumns(header: seq<Key>) returns (keys: seq<Key>, data: map<Key, seq<Value>>)
    ensures Columns(header, keys, data) == StartColumns(header)
  {
    keys, data := [], map[];
    var j := 0;
    while j < |header|
      invariant j <= |header|
      invariant keys == Dedup(header[..j]) && data == EmptyFor(header[..j])
    {
      var h := header[j];
      assert header[..j + 1] == header[..j] + [h];
      DedupSnoc(header[..j], h);
      EmptyForSnoc(header[..j], h);
      if h !in data {
        keys := keys + [h];
      }
      data := data[h := []];
      j := j + 1;
    }
    assert header[..j] == header;
  }

  lemma AppendPairsSnoc(data: map<Key, seq<Value>>, hs: seq<Key>, vs: seq<Value>, j: nat)
    requires |hs| == |vs| && j < |hs|
    requires forall i :: 0 <= i < |hs| ==> hs[i] in data
    ensures AppendPairs(data, hs[..j + 1], vs[..j + 1]) ==
      AppendPairs(data, hs[..j], vs[..j])[hs[j] := AppendPairs(data, hs[..j], vs[..j])[hs[j]] + [vs[j]]]
  {
    assert hs[..j + 1][..j] == hs[..j];
    assert vs[..j + 1][..j] == vs[..j];
  }

  /** `for h, v in zip(header, values): columns[h].append(v)`. */
  method ZipAppend(header: seq<Key>, values: seq<Value>, data: map<Key, seq<Value>>) returns (out: map<Key, seq<Value>>)
    requires forall j :: 0 <= j < |header| ==> header[j] in data
    ensures var n := Min(|header|, |values|); out == AppendPairs(data, header[..n], values[..n])
  {
    var n := Min(|header|, |values|);
    out := data;
    var j := 0;
    while j < |header| && j < |values|
      invariant j <= n
      invariant out == AppendPairs(data, header[..n][..j], values[..n][..j])
    {
      AppendPairsSnoc(data, header[..n], values[..n], j);
      out := out[header[j] := out[header[j]] + [values[j]]];
      j := j + 1;
    }
    assert header[..n][..j] == header[..n];
    assert values[..n][..j] == values[..n];
  }

  /** An error stops the reading for good. */
  lemma {:induction false} ReadStateErrorStays(lines: seq<string>, i: nat)
    requires i <= |lines| && ReadState(lines[..i]).Err?
    ensures ReadState(lines) == ReadState(lines[..i])
    decreases |lines| - i
  {
    if i < |lines| {
      assert lines[..i + 1][..i] == lines[..i];
      ReadStateErrorStays(lines, i + 1);
    } else {
      assert lines[..i] == lines;
    }
  }

  /**
   * `read_csv` over the lines the file yields: the header from the first
   * line, the values of every later non-blank line zipped onto it.
   */
  method ReadCsv(lines: seq<string>, sep: string) returns (r: Result<DataFrame, CsvError>)
    ensures r == ReadCsvSpec(lines, sep)
  {
    var bound := false;
    var header: seq<Key> := [];
    var keys: seq<Key> := [];
    var data: map<Key, seq<Value>> := map[];
    var i := 0;
    while i < |lines|
      invariant i <= |lines|
      invariant ReadState(lines[..i]) == if bound then Ok(Some(Columns(header, keys, data))) else Ok(None)
    {
      var unbound;
      bound, header, keys, data, unbound := ReadLine(lines, i, bound, header, keys, data);
      if unbound {
        ReadCsvSpecFinal(lines, sep);
        return Err(HeaderUnbound);
      }
      i := i + 1;
    }
    assert lines[..i] == lines;
    ReadCsvSpecFinal(lines, sep);
    if !bound {
      return Err(NoColumns);
    }
    r := Ok(Make(keys, data));
  }

  /**
   * One pass of the loop, over line `i`: a blank line is skipped, line 0
   * binds the header and makes the columns, a later line is zipped onto
   * them, or raises `UnboundLocalError` when no header is bound.
   */
  method ReadLine(lines: seq<string>, i: nat, bound: bool, header: seq<Key>, keys: seq<Key>, data: map<Key, seq<Value>>)
    returns (bound': bool, header': seq<Key>, keys': seq<Key>, data': map<Key, seq<Value>>, unbound: bool)
    requires i < |lines|
    requires ReadState(lines[..i]) == if bound then Ok(Some(Columns(header, keys, data))) else Ok(None)
    ensures unbound ==> ReadState(lines) == Err(HeaderUnbound)
    ensures !unbound ==> ReadState(lines[..i + 1]) == if bound' then Ok(Some(Columns(header', keys', data'))) else Ok(None)
  {
    bound', header', keys', data', unbound := bound, header, keys, data, false;
    assert lines[..i + 1][..i] == lines[..i];
    var line := RStripNewlines(lines[i]);
    if line != [] {
      var values := SplitLine(line);
      if i == 0 {
        header' := values;
        keys', data' := NewColumns(header');
        bound' := true;
      } else if !bound {
        ReadStateErrorStays(lines, i + 1);
        unbound := true;
      } else {
        data' := ZipAppend(header, values, data);
      }
    }
  }

  /** What `ReadCsvSpec` makes of the state after the last line. */
  lemma ReadCsvSpecFinal(lines: seq<string>, sep: string)
    ensures ReadState(lines) == Ok(None) ==> ReadCsvSpec(lines, sep) == Err(NoColumns)
    ensures ReadState(lines).Err? ==> ReadCsvSpec(lines, sep) == Err(ReadState(lines).error)
    ensures ReadState(lines).Ok? && ReadState(lines).value.Some? ==>
      var cols := ReadState(lines).value.value;
      IsDict(cols.keys, cols.data) && ReadCsvSpec(lines, sep) == Ok(Make(cols.keys, cols.data))
  {
    if ReadState(lines).Ok? && ReadState(lines).value.Some? {
      var cols := ReadState(lines).value.value;
      DedupDistinct(cols.header);
      DedupMembers(cols.header);
    }
  }

  /* ---------- What the loop reads ---------- */

  /** A line the loop skips: nothing is left once its line break is removed. */
  predicate Blank(line: string) {
    RStripNewlines(line) == []
  }

  /** The values of the first line, which become `header`. */
  function HeaderOf(lines: seq<string>): seq<Value>
    requires lines != []
  {
    LineValues(RStripNewlines(lines[0]))
  }

  /** The values of every non-blank line after the first, in file order. */
  function DataRows(lines: seq<string>): seq<seq<Value>>
    decreases |lines|
  {
    if |lines| <= 1 then []
    else
      var n := |lines| - 1;
      DataRows(lines[..n]) + (if Blank(lines[n]) then [] else [LineValues(RStripNewlines(lines[n]))])
  }

  /** The values of one zipped line that go to column `k`: those at the header positions named `k`. */
  function Picks(hs: seq<Key>, vs: seq<Value>, k: Key): seq<Value>
    requires |hs| == |vs|
    decreases |hs|
  {
    if hs == [] then []
    else
      var n := |hs| - 1;
      Picks(hs[..n], vs[..n], k) + (if hs[n] == k then [vs[n]] else [])
  }

  /** Everything column `k` receives from `rows`, each row cut to the shorter of header and row. */
  function Gathered(header: seq<Key>, rows: seq<seq<Value>>, k: Key): seq<Value>
    decreases |rows|
  {
    if rows == [] then []
    else
      var n := |rows| - 1;
      var m := Min(|header|, |rows[n]|);
      Gathered(header, rows[..n], k) + Picks(header[..m], rows[n][..m], k)
  }

  /** The `j`-th value of every row. */
  function Column(rows: seq<seq<Value>>, j: nat): (c: seq<Value>)
    requires forall r :: r in rows ==> j < |r|
    ensures |c| == |rows|
    decreases |rows|
  {
    if rows == [] then [] else Column(rows[..|rows| - 1], j) + [rows[|rows| - 1][j]]
  }

  /** Appending pairs adds to column `k` exactly the values paired with `k`. */
  lemma {:induction false} AppendPairsAt(data: map<Key, seq<Value>>, hs: seq<Key>, vs: seq<Value>, k: Key)
    requires |hs| == |vs| && k in data
    requires forall j :: 0 <= j < |hs| ==> hs[j] in data
    ensures AppendPairs(data, hs, vs)[k] == data[k] + Picks(hs, vs, k)
    decreases |hs|
  {
    if hs != [] {
      var n := |hs| - 1;
      AppendPairsAt(data, hs[..n], vs[..n], k);
    }
  }

  /** No header is bound while every line so far is blank. */
  lemma {:induction false} ReadStateUnbound(lines: seq<string>)
    ensures ReadState(lines) == Ok(None) <==> forall j :: 0 <= j < |lines| ==> Blank(lines[j])
    decreases |lines|
  {
    if lines != [] {
      var n := |lines| - 1;
      var p := lines[..n];
      ReadStateUnbound(p);
      if ReadState(lines) == Ok(None) {
        forall j | 0 <= j < n
          ensures Blank(lines[j])
        {
          assert lines[j] == p[j];
        }
      } else if ReadState(p) == Ok(None) {
        assert !Blank(lines[n]);
      } else {
        var j :| 0 <= j < n && !Blank(p[j]);
        assert lines[j] == p[j];
      }
    }
  }

  /**
   * The header is bound, to the first line's values, exactly when the first
   * line is not blank; the only error is `HeaderUnbound`.
   */
  lemma {:induction false} ReadStateShape(lines: seq<string>)
    ensures (ReadState(lines).Ok? && ReadState(lines).value.Some?) <==> (lines != [] && !Blank(lines[0]))
    ensures ReadState(lines).Ok? && ReadState(lines).value.Some? ==> ReadState(lines).value.value.header == HeaderOf(lines)
    ensures ReadState(lines).Err? ==> ReadState(lines).error == HeaderUnbound
    decreases |lines|
  {
    if lines != [] {
      ReadStateShape(lines[..|lines| - 1]);
      ReadStateShapeStep(lines);
    }
  }

  lemma ReadStateShapeStep(lines: seq<string>)
    requires lines != []
    requires var p := lines[..|lines| - 1];
      && ((ReadState(p).Ok? && ReadState(p).value.Some?) <==> (p != [] && !Blank(p[0])))
      && (ReadState(p).Ok? && ReadState(p).value.Some? ==> ReadState(p).value.value.header == HeaderOf(p))
      && (ReadState(p).Err? ==> ReadState(p).error == HeaderUnbound)
    ensures (ReadState(lines).Ok? && ReadState(lines).value.Some?) <==> !Blank(lines[0])
    ensures ReadState(lines).Ok? && ReadState(lines).value.Some? ==> ReadState(lines).value.value.header == HeaderOf(lines)
    ensures ReadState(lines).Err? ==> ReadState(lines).error == HeaderUnbound
  {
    var n := |lines| - 1;
    var p := lines[..n];
    var prev := ReadState(p);
    var line := RStripNewlines(lines[n]);
    if n > 0 {
      assert p[0] == lines[0];
    }
    if prev.Err? || line == [] {
      assert ReadState(lines) == prev;
    } else if n == 0 {
      assert ReadState(lines).value.value.header == LineValues(line);
    } else if prev.value.None? {
      assert ReadState(lines) == Err(HeaderUnbound);
    } else {
      assert ReadState(lines).value.value.header == prev.value.value.header;
    }
  }

  /** Column `k` holds, in file order, every value that `zip` paired with a header position named `k`. */
  lemma {:induction false} ReadStateData(lines: seq<string>, k: Key)
    requires ReadState(lines).Ok? && ReadState(lines).value.Some?
    requires k in ReadState(lines).value.value.data
    ensures ReadState(lines).value.value.data[k] == Gathered(ReadState(lines).value.value.header, DataRows(lines), k)
    decreases |lines|
  {
    var n := |lines| - 1;
    var p := lines[..n];
    var prev := ReadState(p);
    var line := RStripNewlines(lines[n]);
    if prev.Err? || line == [] {
      ReadStateData(p, k);
      if n > 0 {
        assert DataRows(lines) == DataRows(p);
      }
    } else if n == 0 {
      assert DataRows(lines) == [];
    } else {
      var cols := prev.value.value;
      var values := LineValues(line);
      var m := Min(|cols.header|, |values|);
      ReadStateData(p, k);
      AppendPairsAt(cols.data, cols.header[..m], values[..m], k);
      var rows := DataRows(lines);
      assert rows == DataRows(p) + [values];
      assert rows[..|rows| - 1] == DataRows(p);
    }
  }

  /* ---------- What read_csv returns ---------- */

  /**
   * `read_csv` fails with `NoColumns` exactly when every line is blank, with
   * `HeaderUnbound` exactly when the first line is blank and a later one is
   * not, and otherwise returns the frame whose columns are the first line's
   * distinct values in order.
   */
  lemma ReadCsvOutcome(lines: seq<string>, sep: string)
    ensures ReadCsvSpec(lines, sep) == Err(NoColumns) <==> forall j :: 0 <= j < |lines| ==> Blank(lines[j])
    ensures ReadCsvSpec(lines, sep) == Err(HeaderUnbound) <==>
      (lines != [] && Blank(lines[0]) && exists j :: 0 < j < |lines| && !Blank(lines[j]))
    ensures ReadCsvSpec(lines, sep).Ok? <==> (lines != [] && !Blank(lines[0]))
    ensures ReadCsvSpec(lines, sep).Ok? ==> ReadCsvSpec(lines, sep).value.columns == Dedup(HeaderOf(lines))
  {
    ReadStateUnbound(lines);
    ReadStateShape(lines);
    if lines != [] && Blank(lines[0]) && exists j :: 0 < j < |lines| && !Blank(lines[j]) {
      var j :| 0 < j < |lines| && !Blank(lines[j]);
      assert !(forall i :: 0 <= i < |lines| ==> Blank(lines[i]));
    }
    if ReadCsvSpec(lines, sep) == Err(HeaderUnbound) {
      assert !(forall i :: 0 <= i < |lines| ==> Blank(lines[i]));
      var j :| 0 <= j < |lines| && !Blank(lines[j]);
      assert 0 < j;
    }
  }

  /**
   * Every column of the result is a header name, and holds what `zip` paired
   * with that name from every later non-blank line, in file order.
   */
  lemma ReadCsvColumn(lines: seq<string>, sep: string, k: Key)
    requires ReadCsvSpec(lines, sep).Ok? && k in ReadCsvSpec(lines, sep).value.data
    ensures k in HeaderOf(lines)
    ensures ReadCsvSpec(lines, sep).value.data[k] == Gathered(HeaderOf(lines), DataRows(lines), k)
  {
    ReadStateShape(lines);
    ReadStateData(lines, k);
  }

  /** With distinct header names, a name picks out just its own position. */
  lemma {:induction false} PicksDistinct(hs: seq<Key>, vs: seq<Value>, j: nat)
    requires |hs| == |vs| && j < |hs| && Distinct(hs)
    ensures Picks(hs, vs, hs[j]) == [vs[j]]
    decreases |hs|
  {
    var n := |hs| - 1;
    if j < n {
      assert hs[..n][j] == hs[j];
      PicksDistinct(hs[..n], vs[..n], j);
    } else {
      PicksAbsent(hs[..n], vs[..n], hs[j]);
    }
  }

  lemma {:induction false} PicksAbsent(hs: seq<Key>, vs: seq<Value>, k: Key)
    requires |hs| == |vs| && k !in hs
    ensures Picks(hs, vs, k) == []
    decreases |hs|
  {
    if hs != [] {
      var n := |hs| - 1;
      assert k !in hs[..n];
      PicksAbsent(hs[..n], vs[..n], k);
    }
  }

  /** With distinct header names and no short row, the column named `header[j]` is the `j`-th value of every row. */
  lemma {:induction false} GatheredDistinct(header: seq<Key>, rows: seq<seq<Value>>, j: nat)
    requires Distinct(header) && j < |header|
    requires forall r :: r in rows ==> |header| <= |r|
    ensures Gathered(header, rows, header[j]) == Column(rows, j)
    decreases |rows|
  {
    if rows != [] {
      var n := |rows| - 1;
      var row := rows[n];
      var m := |header|;
      assert Min(|header|, |row|) == m;
      assert header[..m] == header;
      GatheredDistinct(header, rows[..n], j);
      PicksDistinct(header, row[..m], j);
    }
  }

  /**
   * A well-formed file: when the header names are distinct and no data line
   * is shorter than the header, the result has one column per header name,
   * column `header[j]` holds the `j`-th value of every data line, and there
   * are as many rows as non-blank data lines.
   */
  lemma ReadCsvTable(lines: seq<string>, sep: string)
    requires lines != [] && !Blank(lines[0])
    requires Distinct(HeaderOf(lines))
    requires forall r :: r in DataRows(lines) ==> |HeaderOf(lines)| <= |r|
    ensures ReadCsvSpec(lines, sep).Ok?
    ensures ReadCsvSpec(lines, sep).value.columns == HeaderOf(lines)
    ensures forall j :: 0 <= j < |HeaderOf(lines)| ==>
      ReadCsvSpec(lines, sep).value.data[HeaderOf(lines)[j]] == Column(DataRows(lines), j)
    ensures ReadCsvSpec(lines, sep).value.numRows == |DataRows(lines)|
  {
    var h := HeaderOf(lines);
    ReadCsvOutcome(lines, sep);
    DedupOfDistinct(h);
    var t := ReadCsvSpec(lines, sep).value;
    forall j | 0 <= j < |h|
      ensures t.data[h[j]] == Column(DataRows(lines), j)
    {
      ReadCsvColumn(lines, sep, h[j]);
      GatheredDistinct(h, DataRows(lines), j);
    }
    assert |h| > 0;
    ReadCsvColumn(lines, sep, h[0]);
    GatheredDistinct(h, DataRows(lines), 0);
  }
}
