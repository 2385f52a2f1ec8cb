/**
 * The `DataFrame` class (dataframe.py:3-53): a table held as an
 * insertion-ordered dict from column name to the list of that column's
 * values, with the number of rows taken from the first column.
 *
 * No operation changes a table after construction (each builds a fresh
 * dict and wraps it), so a table is a value here.  The dict is its keys in
 * insertion order (`columns`) plus the map itself (`data`).  Python's
 * exceptions become `Err` results.
 */
module Frames {
  import opened Wrappers
  import opened Values
  import opened Seqs

  /** Column names and group keys: header names pass through `convert_value` too. */
  type Key = Value

  /** A row as `row` returns it: each column mapped to that row's value. */
  type Row = map<Key, Value>

  /** The exceptions the table operations raise. */
  datatype Error = KeyError(key: Key) | IndexError

  /** A dict as Python keeps it: its keys once each, in insertion order, and the map. */
  ghost predicate IsDict<V>(keys: seq<Key>, m: map<Key, V>) {
    Distinct(keys) && forall k :: k in m <==> k in keys
  }

  datatype DataFrame = DataFrame(columns: seq<Key>, data: map<Key, seq<Value>>, numRows: nat)
  {
    /** What `__init__` establishes. */
    ghost predicate Valid() {
      && IsDict(columns, data)
      && numRows == (if columns == [] then 0 else |data[columns[0]]|)
    }

    /** Every column holds at least `n` values (columns may differ in length). */
    predicate Covers(n: nat) {
      forall c :: c in data ==> n <= |data[c]|
    }
  }

  /**
   * `DataFrame(data)`: the columns are the dict's keys in insertion order and
   * the row count is the length of the first column, or 0 without columns.
   */
  function Make(keys: seq<Key>, m: map<Key, seq<Value>>): (t: DataFrame)
    requires IsDict(keys, m)
    ensures t.Valid() && t.columns == keys && t.data == m
  {
    DataFrame(keys, m, if keys == [] then 0 else |m[keys[0]]|)
  }

  /** `t[key]`: the whole column, or `KeyError` when there is no such column. */
  function GetColumn(t: DataFrame, key: Key): (r: Result<seq<Value>, Error>)
    ensures r.Ok? <==> key in t.data
    ensures r.Ok? ==> r.value == t.data[key]
    ensures r.Err? ==> r.error == KeyError(key)
  {
    if key in t.data then Ok(t.data[key]) else Err(KeyError(key))
  }

  /** Row `i` of a table whose columns all reach that far. */
  function RowAt(t: DataFrame, i: nat): (r: Row)
    requires t.Covers(i + 1)
    ensures r.Keys == t.data.Keys
    ensures forall c :: c in r ==> r[c] == t.data[c][i]
  {
    map c | c in t.data :: t.data[c][i]
  }

  /**
   * `row(index)`: `IndexError` for an index outside `0 .. num_rows`, and also
   * when some column is too short to hold that row (the lookup in the dict
   * comprehension fails); otherwise the row.
   */
  function GetRow(t: DataFrame, i: int): (r: Result<Row, Error>)
    ensures r.Ok? <==> 0 <= i < t.numRows && t.Covers(i + 1)
    ensures r.Err? ==> r.error == IndexError
    ensures r.Ok? ==> r.value.Keys == t.data.Keys && forall c :: c in t.data ==> r.value[c] == t.data[c][i]
  {
    if i < 0 || i >= t.numRows then Err(IndexError)
    else if !t.Covers(i + 1) then Err(IndexError)
    else Ok(RowAt(t, i))
  }

  function Min(a: int, b: int): int {
    if a < b then a else b
  }

  /**
   * The preview `__repr__` prints: the first `min(5, num_rows)` values of each
   * column (a slice stops early at a shorter column).
   */
  function Preview(t: DataFrame): (p: map<Key, seq<Value>>)
    ensures p.Keys == t.data.Keys
    ensures forall c :: c in p ==> p[c] <= t.data[c] && |p[c]| == Min(Min(5, t.numRows), |t.data[c]|)
  {
    map c | c in t.data :: t.data[c][..Min(Min(5, t.numRows), |t.data[c]|)]
  }

  /** A table of at most five rows, none of them ragged, is previewed whole. */
  lemma PreviewSmall(t: DataFrame)
    requires t.numRows <= 5
    requires forall c :: c in t.data ==> |t.data[c]| == t.numRows
    ensures Preview(t) == t.data
  {
    var p := Preview(t);
    forall c | c in p
      ensures p[c] == t.data[c]
    {
      assert p[c] == t.data[c][..|t.data[c]|];
    }
  }

  /** The first name in `cols` that is not a column, if any. */
  function FirstMissing(cols: seq<Key>, m: map<Key, seq<Value>>): (r: Option<Key>)
    ensures r.None? <==> forall c :: c in cols ==> c in m
    ensures r.Some? ==> r.value in cols && r.value !in m
    ensures r.Some? ==> forall j :: 0 <= j < FirstIndex(cols, r.value) ==> cols[j] in m
  {
    if cols == [] then None
    else if cols[0] !in m then Some(cols[0])
    else
      var r := FirstMissing(cols[1..], m);
      assert forall c :: c in cols ==> c == cols[0] || c in cols[1..];
      r
  }

  /**
   * `select(cols)`: `KeyError` for the first name that is not a column;
   * otherwise a table of the named columns (a repeated name once, where it
   * first occurs) sharing the original's values.
   */
  function Select(t: DataFrame, cols: seq<Key>): (r: Result<DataFrame, Error>)
    ensures r.Err? <==> FirstMissing(cols, t.data).Some?
    ensures r.Err? ==> r.error == KeyError(FirstMissing(cols, t.data).value)
    ensures r.Ok? ==> r.value.Valid() && r.value.columns == Dedup(cols)
    ensures r.Ok? ==> forall c :: c in r.value.data <==> c in cols
    ensures r.Ok? ==> forall c :: c in cols ==> r.value.data[c] == t.data[c]
    ensures r.Ok? ==> r.value.numRows == (if cols == [] then 0 else |t.data[cols[0]]|)
  {
    match FirstMissing(cols, t.data)
    case Some(k) => Err(KeyError(k))
    case None =>
      DedupMembers(cols);
      DedupDistinct(cols);
      DedupHead(cols);
      Ok(Make(Dedup(cols), map c | c in cols :: t.data[c]))
  }

  /** Selecting every column, in order, gives the table back. */
  lemma SelectAll(t: DataFrame)
    requires t.Valid()
    ensures Select(t, t.columns) == Ok(t)
  {
    DedupOfDistinct(t.columns);
    var m := map c | c in t.columns :: t.data[c];
    assert m == t.data;
  }

  /** A selected column reads the same in the selection as in the table. */
  lemma SelectThenGet(t: DataFrame, cols: seq<Key>, c: Key)
    requires Select(t, cols).Ok? && c in cols
    ensures GetColumn(Select(t, cols).value, c) == GetColumn(t, c)
  {
  }

  /** `aggregate(col, func)`: `func` applied to the whole column, or `KeyError`. */
  function Aggregate<R>(t: DataFrame, col: Key, f: seq<Value> -> R): (r: Result<R, Error>)
    ensures r.Ok? <==> col in t.data
    ensures r.Ok? ==> r.value == f(t.data[col])
    ensures r.Err? ==> r.error == KeyError(col)
  {
    if col in t.data then Ok(f(t.data[col])) else Err(KeyError(col))
  }

  /** Aggregating a selected column is aggregating it in the table. */
  lemma AggregateSelected<R>(t: DataFrame, cols: seq<Key>, col: Key, f: seq<Value> -> R)
    requires Select(t, cols).Ok? && col in cols
    ensures Aggregate(Select(t, cols).value, col, f) == Aggregate(t, col, f)
  {
  }

  /** Whether `pred` keeps each of the first `n` rows. */
  function Mask(t: DataFrame, pred: Row -> bool, n: nat): (m: seq<bool>)
    requires t.Covers(n)
    ensures |m| == n
    ensures forall i :: 0 <= i < n ==> m[i] == pred(RowAt(t, i))
  {
    seq(n, i requires 0 <= i < n => pred(RowAt(t, i)))
  }

  /** The rows among the first `n` that `pred` keeps, in increasing order. */
  function Kept(t: DataFrame, pred: Row -> bool, n: nat): (idx: seq<nat>)
    requires t.Covers(n)
    ensures forall k :: 0 <= k < |idx| ==> idx[k] < n
  {
    TrueIndicesExact(Mask(t, pred, n));
    TrueIndices(Mask(t, pred, n))
  }

  /** A row is kept exactly when it is one of the first `n` and `pred` holds of it. */
  lemma KeptExact(t: DataFrame, pred: Row -> bool, n: nat, i: nat)
    requires t.Covers(n)
    ensures i in Kept(t, pred, n) <==> i < n && pred(RowAt(t, i))
  {
    var m := Mask(t, pred, n);
    TrueIndicesExact(m);
    if i in Kept(t, pred, n) {
      var k :| 0 <= k < |TrueIndices(m)| && TrueIndices(m)[k] == i;
    }
  }

  /** Kept rows stay in their original order. */
  lemma KeptIncreasing(t: DataFrame, pred: Row -> bool, n: nat)
    requires t.Covers(n)
    ensures forall a, b :: 0 <= a < b < |Kept(t, pred, n)| ==> Kept(t, pred, n)[a] < Kept(t, pred, n)[b]
  {
    TrueIndicesIncreasing(Mask(t, pred, n));
  }

  /** One more row considered: it is appended when `pred` keeps it. */
  lemma KeptStep(t: DataFrame, pred: Row -> bool, i: nat)
    requires t.Covers(i + 1)
    ensures Kept(t, pred, i + 1) == Kept(t, pred, i) + (if pred(RowAt(t, i)) then [i] else [])
  {
    var m := Mask(t, pred, i + 1);
    assert m == Mask(t, pred, i) + [pred(RowAt(t, i))];
    TrueIndicesSnoc(Mask(t, pred, i), pred(RowAt(t, i)));
  }

  /** The values of `col` at positions `idx`, in the order of `idx`. */
  function Pick(col: seq<Value>, idx: seq<nat>): (r: seq<Value>)
    requires forall k :: 0 <= k < |idx| ==> idx[k] < |col|
    ensures |r| == |idx|
    ensures forall k :: 0 <= k < |idx| ==> r[k] == col[idx[k]]
  {
    seq(|idx|, k requires 0 <= k < |idx| => col[idx[k]])
  }

  /** All indices below `n`, in a table whose columns all hold `n` values. */
  ghost predicate Within(t: DataFrame, idx: seq<nat>, n: nat) {
    t.Covers(n) && forall k :: 0 <= k < |idx| ==> idx[k] < n
  }

  /** Every column of `t` restricted to the rows at `idx` (`n` bounds them). */
  function Gather(t: DataFrame, idx: seq<nat>, n: nat): (m: map<Key, seq<Value>>)
    requires Within(t, idx, n)
    ensures m.Keys == t.data.Keys
  {
    map c | c in t.data :: Pick(t.data[c], idx)
  }

  /** Every column of `acc` with row `i` of `t` appended. */
  function Appended(acc: map<Key, seq<Value>>, t: DataFrame, i: nat): (m: map<Key, seq<Value>>)
    requires t.Covers(i + 1) && acc.Keys == t.data.Keys
    ensures m.Keys == acc.Keys
  {
    map c | c in acc :: acc[c] + [t.data[c][i]]
  }

  /** Gathering one more row is appending it. */
  lemma GatherSnoc(t: DataFrame, idx: seq<nat>, n: nat, i: nat)
    requires Within(t, idx, n) && i < n
    ensures Within(t, idx + [i], n)
    ensures Gather(t, idx + [i], n) == Appended(Gather(t, idx, n), t, i)
  {
    var g, a := Gather(t, idx + [i], n), Appended(Gather(t, idx, n), t, i);
    forall c | c in g
      ensures g[c] == a[c]
    {
      assert g[c] == Pick(t.data[c], idx) + [t.data[c][i]];
    }
  }

  /** The table of the rows of `t` at `idx`, in that order, with every column of `t`. */
  function SubFrame(t: DataFrame, idx: seq<nat>): (s: DataFrame)
    requires t.Valid() && Within(t, idx, t.numRows)
    ensures s.Valid() && s.columns == t.columns
    ensures s.numRows == if t.columns == [] then 0 else |idx|
  {
    Make(t.columns, Gather(t, idx, t.numRows))
  }

  /** Row `k` of a sub-table is row `idx[k]` of the table. */
  lemma SubFrameRow(t: DataFrame, idx: seq<nat>, k: nat)
    requires t.Valid() && Within(t, idx, t.numRows)
    requires k < |idx|
    ensures SubFrame(t, idx).Covers(k + 1)
    ensures RowAt(SubFrame(t, idx), k) == RowAt(t, idx[k])
  {
  }

  /** `acc` with row `i` appended to the columns in `done` only. */
  ghost function AppendedTo(acc: map<Key, seq<Value>>, t: DataFrame, i: nat, done: set<Key>): map<Key, seq<Value>>
    requires forall c :: c in done ==> c in t.data && i < |t.data[c]|
  {
    map c | c in acc :: if c in done then acc[c] + [t.data[c][i]] else acc[c]
  }

  lemma AppendedToStep(acc: map<Key, seq<Value>>, t: DataFrame, i: nat, done: set<Key>, c: Key)
    requires forall d :: d in done ==> d in t.data && i < |t.data[d]|
    requires c in acc && c in t.data && i < |t.data[c]|
    ensures AppendedTo(acc, t, i, done)[c := acc[c] + [t.data[c][i]]] == AppendedTo(acc, t, i, done + {c})
  {
  }

  lemma AppendedToAll(acc: map<Key, seq<Value>>, t: DataFrame, i: nat, done: set<Key>)
    requires forall c :: c in done ==> c in t.data && i < |t.data[c]|
    requires acc.Keys == t.data.Keys && t.data.Keys <= done
    ensures t.Covers(i + 1) && AppendedTo(acc, t, i, done) == Appended(acc, t, i)
  {
  }

  lemma ListedStep(cols: seq<Key>, k: nat, done: set<Key>)
    requires k < |cols| && forall j :: 0 <= j < k ==> cols[j] in done
    ensures forall j :: 0 <= j < k + 1 ==> cols[j] in done + {cols[k]}
  {
  }

  /**
   * The inner loop of `filter` and `group_by`: append row `i` of `t` to each
   * column of `acc`, in the order of `t.columns`, failing with `IndexError`
   * at a column too short to have that row. Only the listing of the columns
   * matters here, not that it is free of repeats.
   */
  method AppendRow(acc: map<Key, seq<Value>>, t: DataFrame, i: nat) returns (r: Result<map<Key, seq<Value>>, Error>)
    requires acc.Keys == t.data.Keys && forall c :: c in t.data <==> c in t.columns
    ensures r.Ok? <==> t.Covers(i + 1)
    ensures r.Err? ==> r.error == IndexError
    ensures r.Ok? ==> t.Covers(i + 1) && r.value == Appended(acc, t, i)
  {
    var out := acc;
    var k := 0;
    ghost var done: set<Key> := {};
    assert out == AppendedTo(acc, t, i, done);
    while k < |t.columns|
      invariant k <= |t.columns|
      invariant forall j :: 0 <= j < k ==> t.columns[j] in done
      invariant forall c :: c in done ==> c in t.data && i < |t.data[c]|
      invariant out == AppendedTo(acc, t, i, done)
    {
      var c := t.columns[k];
      if i >= |t.data[c]| {
        return Err(IndexError);
      }
      AppendedToStep(acc, t, i, done, c);
      ListedStep(t.columns, k, done);
      out := out[c := acc[c] + [t.data[c][i]]];
      done := done + {c};
      k := k + 1;
    }
    forall c | c in t.data
      ensures c in done
    {
      var j := FirstIndex(t.columns, c);
    }
    AppendedToAll(acc, t, i, done);
    r := Ok(out);
  }

  /** What one more row does to the columns `filter` has gathered. */
  lemma FilterStep(t: DataFrame, pred: Row -> bool, i: nat)
    requires t.Covers(i + 1)
    ensures Gather(t, Kept(t, pred, i + 1), i + 1) ==
      if pred(RowAt(t, i)) then Appended(Gather(t, Kept(t, pred, i), i), t, i) else Gather(t, Kept(t, pred, i), i)
  {
    KeptStep(t, pred, i);
    var idx := Kept(t, pred, i);
    assert Gather(t, idx, i + 1) == Gather(t, idx, i);
    if pred(RowAt(t, i)) {
      GatherSnoc(t, idx, i + 1, i);
    } else {
      assert Kept(t, pred, i + 1) == idx;
    }
  }

  /** One pass of the `filter` loop: build row `i` and, when `pred` keeps it, append it. */
  method FilterRowStep(t: DataFrame, pred: Row -> bool, i: nat, acc: map<Key, seq<Value>>) returns (r: Result<map<Key, seq<Value>>, Error>)
    requires t.Valid() && i < t.numRows && t.Covers(i)
    requires acc == Gather(t, Kept(t, pred, i), i)
    ensures r.Ok? <==> t.Covers(i + 1)
    ensures r.Err? ==> r.error == IndexError
    ensures r.Ok? ==> t.Covers(i + 1) && r.value == Gather(t, Kept(t, pred, i + 1), i + 1)
  {
    var row := GetRow(t, i);
    if row.Err? {
      return Err(IndexError);
    }
    FilterStep(t, pred, i);
    if pred(row.value) {
      r := AppendRow(acc, t, i);
    } else {
      r := Ok(acc);
    }
  }

  /**
   * `filter(func)`: the rows `func` keeps, in order, as a new table with the
   * same columns; `IndexError` when a column is too short for the row count.
   */
  method Filter(t: DataFrame, pred: Row -> bool) returns (r: Result<DataFrame, Error>)
    requires t.Valid()
    ensures !t.Covers(t.numRows) ==> r == Err(IndexError)
    ensures t.Covers(t.numRows) ==> r == Ok(SubFrame(t, Kept(t, pred, t.numRows)))
  {
    var acc: map<Key, seq<Value>> := map c | c in t.data :: [];
    var i := 0;
    assert acc == Gather(t, [], 0);
    while i < t.numRows
      invariant i <= t.numRows && t.Covers(i)
      invariant acc == Gather(t, Kept(t, pred, i), i)
    {
      var step := FilterRowStep(t, pred, i, acc);
      if step.Err? {
        return Err(IndexError);
      }
      acc := step.value;
      i := i + 1;
    }
    r := Ok(Make(t.columns, acc));
  }

  /** A kept row of the filtered table is the row of `t` it came from, and `pred` holds of it. */
  lemma FilterRow(t: DataFrame, pred: Row -> bool, k: nat)
    requires t.Valid() && t.Covers(t.numRows)
    requires k < |Kept(t, pred, t.numRows)|
    ensures SubFrame(t, Kept(t, pred, t.numRows)).Covers(k + 1)
    ensures RowAt(SubFrame(t, Kept(t, pred, t.numRows)), k) == RowAt(t, Kept(t, pred, t.numRows)[k])
    ensures pred(RowAt(t, Kept(t, pred, t.numRows)[k]))
  {
    var idx := Kept(t, pred, t.numRows);
    SubFrameRow(t, idx, k);
    KeptExact(t, pred, t.numRows, idx[k]);
  }

  /** The indices `0 .. n`, in order. */
  function Upto(n: nat): (r: seq<nat>)
    ensures |r| == n && forall i :: 0 <= i < n ==> r[i] == i
  {
    seq(n, i requires 0 <= i < n => i as nat)
  }

  /** When `pred` holds of every row, every row is kept. */
  lemma {:induction false} KeptEverything(t: DataFrame, pred: Row -> bool, n: nat)
    requires t.Covers(n)
    requires forall i :: 0 <= i < n ==> pred(RowAt(t, i))
    ensures Kept(t, pred, n) == Upto(n)
  {
    if n > 0 {
      KeptEverything(t, pred, n - 1);
      KeptStep(t, pred, n - 1);
      assert Upto(n) == Upto(n - 1) + [n - 1];
    } else {
      assert Kept(t, pred, n) == [];
    }
  }

  /** Taking every row of a table whose columns all hold exactly `num_rows` values gives it back. */
  lemma SubFrameEverything(t: DataFrame)
    requires t.Valid()
    requires forall c :: c in t.data ==> |t.data[c]| == t.numRows
    ensures SubFrame(t, Upto(t.numRows)) == t
  {
    var g := Gather(t, Upto(t.numRows), t.numRows);
    forall c | c in g
      ensures g[c] == t.data[c]
    {
    }
  }

  /** Filtering with a condition every row meets returns an equal table. */
  lemma FilterKeepsAll(t: DataFrame, pred: Row -> bool)
    requires t.Valid()
    requires forall c :: c in t.data ==> |t.data[c]| == t.numRows
    requires forall i :: 0 <= i < t.numRows ==> pred(RowAt(t, i))
    ensures t.Covers(t.numRows) && SubFrame(t, Kept(t, pred, t.numRows)) == t
  {
    KeptEverything(t, pred, t.numRows);
    SubFrameEverything(t);
  }

  /** What `group_by` returns: a dict from each key, in first-seen order, to the table of its rows. */
  datatype Grouping = Grouping(keys: seq<Key>, tables: map<Key, DataFrame>)

  /** Where each of `keys` equals `k`. */
  function KeyMask(keys: seq<Key>, k: Key): (m: seq<bool>)
    ensures |m| == |keys| && forall i :: 0 <= i < |keys| ==> m[i] == (keys[i] == k)
  {
    seq(|keys|, i requires 0 <= i < |keys| => keys[i] == k)
  }

  /** The positions of `keys` that hold `k`, in increasing order. */
  function RowsWithKey(keys: seq<Key>, k: Key): (idx: seq<nat>)
    ensures forall j :: 0 <= j < |idx| ==> idx[j] < |keys|
  {
    TrueIndicesExact(KeyMask(keys, k));
    TrueIndices(KeyMask(keys, k))
  }

  /** A position is listed for `k` exactly when it holds `k`. */
  lemma RowsWithKeyExact(keys: seq<Key>, k: Key, i: nat)
    ensures i in RowsWithKey(keys, k) <==> i < |keys| && keys[i] == k
  {
    var m := KeyMask(keys, k);
    TrueIndicesExact(m);
    if i in RowsWithKey(keys, k) {
      var j :| 0 <= j < |TrueIndices(m)| && TrueIndices(m)[j] == i;
    }
  }

  /** The positions listed for `k` are in increasing order, none twice. */
  lemma RowsWithKeyIncreasing(keys: seq<Key>, k: Key)
    ensures forall a, b :: 0 <= a < b < |RowsWithKey(keys, k)| ==> RowsWithKey(keys, k)[a] < RowsWithKey(keys, k)[b]
  {
    TrueIndicesIncreasing(KeyMask(keys, k));
  }

  lemma RowsWithKeySnoc(keys: seq<Key>, x: Key, k: Key)
    ensures RowsWithKey(keys + [x], k) == RowsWithKey(keys, k) + (if x == k then [|keys|] else [])
  {
    assert KeyMask(keys + [x], k) == KeyMask(keys, k) + [x == k];
    TrueIndicesSnoc(KeyMask(keys, k), x == k);
  }

  lemma RowsWithKeyAbsent(keys: seq<Key>, k: Key)
    requires k !in keys
    ensures RowsWithKey(keys, k) == []
  {
    var idx := RowsWithKey(keys, k);
    if idx != [] {
      RowsWithKeyExact(keys, k, idx[0]);
      assert false;
    }
  }

  /** `group_by` fails with neither error: the key column exists unless there are no rows, and no column is short. */
  ghost predicate Groupable(t: DataFrame, c: Key) {
    t.Covers(t.numRows) && (t.numRows == 0 || c in t.data)
  }

  /** The first `n` values of the key column (none when `n` is 0, even without that column). */
  function KeysUpTo(t: DataFrame, c: Key, n: nat): (kc: seq<Key>)
    requires n == 0 || (c in t.data && n <= |t.data[c]|)
    ensures |kc| == n
  {
    if n == 0 then [] else t.data[c][..n]
  }

  lemma KeysUpToSnoc(t: DataFrame, c: Key, i: nat)
    requires c in t.data && i < |t.data[c]|
    ensures KeysUpTo(t, c, i + 1) == KeysUpTo(t, c, i) + [t.data[c][i]]
  {
  }

  /** The grouping `group_by(c)` returns when it succeeds. */
  function Grouped(t: DataFrame, c: Key): (g: Grouping)
    requires t.Valid() && Groupable(t, c)
  {
    var kc := KeysUpTo(t, c, t.numRows);
    Grouping(Dedup(kc), GroupTables(t, kc))
  }

  /** Each key of `kc` with the table of the rows holding it. */
  function GroupTables(t: DataFrame, kc: seq<Key>): (m: map<Key, DataFrame>)
    requires t.Valid() && t.Covers(t.numRows) && |kc| <= t.numRows
  {
    map k | k in kc :: SubFrame(t, RowsWithKey(kc, k))
  }

  /** Each column of `t` with no values, as `group_by` starts a new group. */
  function EmptyColumns(t: DataFrame): (m: map<Key, seq<Value>>)
    ensures m.Keys == t.data.Keys && forall c :: c in m ==> m[c] == []
  {
    map c | c in t.data :: []
  }

  /** The columns `group_by` has gathered for each key after the rows whose keys are `kc`. */
  function GroupColumns(t: DataFrame, kc: seq<Key>, n: nat): (m: map<Key, map<Key, seq<Value>>>)
    requires t.Covers(n) && |kc| <= n
  {
    map k | k in kc :: Gather(t, RowsWithKey(kc, k), n)
  }

  lemma GroupColumnsAt(t: DataFrame, kc: seq<Key>, n: nat, k: Key)
    requires t.Covers(n) && |kc| <= n
    ensures k in GroupColumns(t, kc, n) <==> k in kc
    ensures k in kc ==> GroupColumns(t, kc, n)[k].Keys == t.data.Keys
  {
  }

  /** The columns gathered for a key that is seen for the first time. */
  lemma GatherNew(t: DataFrame, kc: seq<Key>, k: Key, i: nat)
    requires t.Covers(i) && |kc| <= i && k !in kc
    ensures Gather(t, RowsWithKey(kc, k), i) == EmptyColumns(t)
  {
    RowsWithKeyAbsent(kc, k);
  }

  /** The columns gathered for a key, one row later. */
  lemma GatherKeyStep(t: DataFrame, kc: seq<Key>, x: Key, k: Key, i: nat)
    requires t.Covers(i + 1) && |kc| == i
    ensures Gather(t, RowsWithKey(kc + [x], k), i + 1) ==
      if x == k then Appended(Gather(t, RowsWithKey(kc, k), i), t, i) else Gather(t, RowsWithKey(kc, k), i)
  {
    RowsWithKeySnoc(kc, x, k);
    var idx := RowsWithKey(kc, k);
    assert Gather(t, idx, i + 1) == Gather(t, idx, i);
    if x == k {
      GatherSnoc(t, idx, i + 1, i);
    } else {
      assert RowsWithKey(kc + [x], k) == idx;
    }
  }

  /** The groups after one more row: the key's group gains the row, a new key starts a group. */
  function NextGroups(t: DataFrame, groups: map<Key, map<Key, seq<Value>>>, key: Key, i: nat): map<Key, map<Key, seq<Value>>>
    requires t.Covers(i + 1)
    requires key in groups ==> groups[key].Keys == t.data.Keys
  {
    groups[key := Appended(if key in groups then groups[key] else EmptyColumns(t), t, i)]
  }

  /** The group of one key after one more row. */
  lemma GroupStepAt(t: DataFrame, kc: seq<Key>, key: Key, i: nat, k: Key)
    requires t.Covers(i + 1) && |kc| == i && k in kc + [key]
    ensures key in GroupColumns(t, kc, i) ==> GroupColumns(t, kc, i)[key].Keys == t.data.Keys
    ensures k in NextGroups(t, GroupColumns(t, kc, i), key, i) && k in GroupColumns(t, kc + [key], i + 1)
    ensures NextGroups(t, GroupColumns(t, kc, i), key, i)[k] == GroupColumns(t, kc + [key], i + 1)[k]
  {
    GroupColumnsAt(t, kc, i, key);
    GroupColumnsAt(t, kc, i, k);
    GroupColumnsAt(t, kc + [key], i + 1, k);
    if key !in kc {
      GatherNew(t, kc, key, i);
    }
    GatherKeyStep(t, kc, key, k, i);
  }

  lemma GroupStepKeys(t: DataFrame, kc: seq<Key>, key: Key, i: nat)
    requires t.Covers(i + 1) && |kc| == i
    ensures key in GroupColumns(t, kc, i) ==> GroupColumns(t, kc, i)[key].Keys == t.data.Keys
    ensures NextGroups(t, GroupColumns(t, kc, i), key, i).Keys == GroupColumns(t, kc + [key], i + 1).Keys
  {
    GroupColumnsAt(t, kc, i, key);
    var groups, spec := GroupColumns(t, kc, i), GroupColumns(t, kc + [key], i + 1);
    forall k
      ensures k in spec <==> k in groups || k == key
    {
      GroupColumnsAt(t, kc, i, k);
      GroupColumnsAt(t, kc + [key], i + 1, k);
    }
  }

  /** One iteration of `group_by` turns the columns gathered so far into those for one more row. */
  lemma GroupStep(t: DataFrame, kc: seq<Key>, key: Key, i: nat)
    requires t.Covers(i + 1) && |kc| == i
    ensures key in GroupColumns(t, kc, i) ==> GroupColumns(t, kc, i)[key].Keys == t.data.Keys
    ensures NextGroups(t, GroupColumns(t, kc, i), key, i) == GroupColumns(t, kc + [key], i + 1)
  {
    GroupStepKeys(t, kc, key, i);
    var groups', spec := NextGroups(t, GroupColumns(t, kc, i), key, i), GroupColumns(t, kc + [key], i + 1);
    forall k | k in groups'
      ensures groups'[k] == spec[k]
    {
      GroupColumnsAt(t, kc + [key], i + 1, k);
      GroupStepAt(t, kc, key, i, k);
    }
  }

  /** The tables `group_by` wraps around the gathered columns of each key. */
  function Wrap(t: DataFrame, groups: map<Key, map<Key, seq<Value>>>): (m: map<Key, DataFrame>)
    requires forall k :: k in groups ==> IsDict(t.columns, groups[k])
    ensures m.Keys == groups.Keys
  {
    map k | k in groups :: Make(t.columns, groups[k])
  }

  /** After every row, each key's gathered columns make a dict over the table's columns. */
  lemma GroupFinishDicts(t: DataFrame, kc: seq<Key>)
    requires t.Valid() && t.Covers(t.numRows) && |kc| == t.numRows
    ensures forall k :: k in GroupColumns(t, kc, t.numRows) ==> IsDict(t.columns, GroupColumns(t, kc, t.numRows)[k])
  {
    var g := GroupColumns(t, kc, t.numRows);
    forall k | k in g
      ensures IsDict(t.columns, g[k])
    {
      GroupColumnsAt(t, kc, t.numRows, k);
    }
  }

  /** After every row, the wrapped columns are the tables of the grouping. */
  lemma GroupFinish(t: DataFrame, kc: seq<Key>)
    requires t.Valid() && t.Covers(t.numRows) && |kc| == t.numRows
    ensures forall k :: k in GroupColumns(t, kc, t.numRows) ==> IsDict(t.columns, GroupColumns(t, kc, t.numRows)[k])
    ensures Wrap(t, GroupColumns(t, kc, t.numRows)) == GroupTables(t, kc)
  {
    GroupFinishDicts(t, kc);
    var m, m' := Wrap(t, GroupColumns(t, kc, t.numRows)), GroupTables(t, kc);
    forall k
      ensures k in m <==> k in m'
    {
      GroupColumnsAt(t, kc, t.numRows, k);
    }
    forall k | k in m
      ensures m[k] == m'[k]
    {
    }
    MapsEqual(m, m');
  }

  /** The groups after the first `i` rows: the keys in first-seen order and each key's gathered columns. */
  type GroupState = (seq<Key>, map<Key, map<Key, seq<Value>>>)

  /**
   * One pass of the `group_by` loop: look up row `i`'s key (`KeyError`
   * without the key column, `IndexError` when it is too short), start a
   * group for a new key, and append the row to its group.
   */
  method AddRow(t: DataFrame, c: Key, i: nat, order: seq<Key>, groups: map<Key, map<Key, seq<Value>>>) returns (r: Result<GroupState, Error>)
    requires t.Valid() && t.Covers(i) && (i == 0 || c in t.data)
    requires order == Dedup(KeysUpTo(t, c, i)) && groups == GroupColumns(t, KeysUpTo(t, c, i), i)
    ensures r.Ok? <==> c in t.data && t.Covers(i + 1)
    ensures r.Err? ==> r.error == if c in t.data then IndexError else KeyError(c)
    ensures r.Ok? ==> r.value.0 == Dedup(KeysUpTo(t, c, i + 1))
    ensures r.Ok? ==> r.value.1 == GroupColumns(t, KeysUpTo(t, c, i + 1), i + 1)
  {
    if c !in t.data {
      return Err(KeyError(c));
    }
    if i >= |t.data[c]| {
      return Err(IndexError);
    }
    var key := t.data[c][i];
    GroupColumnsAt(t, KeysUpTo(t, c, i), i, key);
    var group := if key in groups then groups[key] else EmptyColumns(t);
    var next := AppendRow(group, t, i);
    if next.Err? {
      return Err(IndexError);
    }
    ghost var kc := KeysUpTo(t, c, i);
    GroupStep(t, kc, key, i);
    DedupSnoc(kc, key);
    KeysUpToSnoc(t, c, i);
    var order' := if key in groups then order else order + [key];
    r := Ok((order', groups[key := next.value]));
  }

  /** A table whose columns hold `n` values holds fewer. */
  lemma CoversFewer(t: DataFrame, m: nat, n: nat)
    requires m <= n && t.Covers(n)
    ensures t.Covers(m)
  {
  }

  /**
   * What `group_by(group_col)` returns or raises: `KeyError` when the table
   * has rows but no such column, `IndexError` when a column is too short for
   * the row count, and otherwise the grouping.
   */
  function GroupByResult(t: DataFrame, c: Key): (r: Result<Grouping, Error>)
    requires t.Valid()
  {
    if t.numRows > 0 && c !in t.data then Err(KeyError(c))
    else if !t.Covers(t.numRows) then Err(IndexError)
    else Ok(Grouped(t, c))
  }

  /**
   * `group_by(group_col)`: each distinct key, in the order first seen, with
   * the table of the rows holding it, or the error `GroupByResult` names.
   */
  method GroupBy(t: DataFrame, c: Key) returns (r: Result<Grouping, Error>)
    requires t.Valid()
    ensures r == GroupByResult(t, c)
  {
    var order: seq<Key> := [];
    var groups: map<Key, map<Key, seq<Value>>> := map[];
    var i: nat := 0;
    assert groups == GroupColumns(t, KeysUpTo(t, c, 0), 0);
    while i < t.numRows
      invariant i <= t.numRows && t.Covers(i) && (i == 0 || c in t.data)
      invariant order == Dedup(KeysUpTo(t, c, i)) && groups == GroupColumns(t, KeysUpTo(t, c, i), i)
    {
      var step := AddRow(t, c, i, order, groups);
      if step.Err? {
        if t.Covers(t.numRows) {
          CoversFewer(t, i + 1, t.numRows);
        }
        return Err(step.error);
      }
      order, groups := step.value.0, step.value.1;
      i := i + 1;
    }
    GroupFinish(t, KeysUpTo(t, c, i));
    r := Ok(Grouping(order, Wrap(t, groups)));
  }

  /**
   * The keys of a grouping are the key column's values, each once, in the
   * order first seen, and each has a table.
   */
  lemma GroupedKeys(t: DataFrame, c: Key)
    requires t.Valid() && Groupable(t, c)
    ensures var g, kc := Grouped(t, c), KeysUpTo(t, c, t.numRows);
      && Distinct(g.keys)
      && (forall k :: k in g.keys <==> k in kc)
      && (forall k :: k in g.tables <==> k in g.keys)
      && (forall a, b :: 0 <= a < b < |g.keys| ==> g.keys[a] in kc && g.keys[b] in kc && FirstIndex(kc, g.keys[a]) < FirstIndex(kc, g.keys[b]))
  {
    var kc := KeysUpTo(t, c, t.numRows);
    DedupMembers(kc);
    DedupDistinct(kc);
    DedupOrder(kc);
  }

  /** A key's table holds exactly the rows with that key, in order. */
  lemma GroupedTable(t: DataFrame, c: Key, k: Key, j: nat)
    requires t.Valid() && Groupable(t, c)
    requires k in Grouped(t, c).tables
    requires j < |RowsWithKey(KeysUpTo(t, c, t.numRows), k)|
    ensures var idx := RowsWithKey(KeysUpTo(t, c, t.numRows), k);
      && Grouped(t, c).tables[k] == SubFrame(t, idx)
      && c in t.data && idx[j] < t.numRows && t.data[c][idx[j]] == k
      && Grouped(t, c).tables[k].Covers(j + 1)
      && RowAt(Grouped(t, c).tables[k], j) == RowAt(t, idx[j])
      && forall a, b :: 0 <= a < b < |idx| ==> idx[a] < idx[b]
  {
    var kc := KeysUpTo(t, c, t.numRows);
    var idx := RowsWithKey(kc, k);
    RowsWithKeyExact(kc, k, idx[j]);
    RowsWithKeyIncreasing(kc, k);
    SubFrameRow(t, idx, j);
  }

  /** A key's table has as many rows as the key column holds that key. */
  lemma GroupedTableSize(t: DataFrame, c: Key, k: Key)
    requires t.Valid() && Groupable(t, c) && t.columns != []
    requires k in Grouped(t, c).tables
    ensures Grouped(t, c).tables[k].numRows == |RowsWithKey(KeysUpTo(t, c, t.numRows), k)|
  {
  }

  /** Every row lands in the group of its own key and in no other. */
  lemma GroupOfRow(t: DataFrame, c: Key, i: nat)
    requires t.Valid() && Groupable(t, c) && i < t.numRows
    ensures c in t.data && t.data[c][i] in Grouped(t, c).keys
    ensures forall k :: i in RowsWithKey(KeysUpTo(t, c, t.numRows), k) <==> k == t.data[c][i]
  {
    var kc := KeysUpTo(t, c, t.numRows);
    DedupMember(kc, kc[i]);
    forall k
      ensures i in RowsWithKey(kc, k) <==> k == kc[i]
    {
      RowsWithKeyExact(kc, k, i);
    }
  }

  /** How many of the positions of `kc` hold one of `ks`, counted key by key. */
  function CountRows(kc: seq<Key>, ks: seq<Key>): nat
    decreases |ks|
  {
    if ks == [] then 0 else CountRows(kc, ks[..|ks| - 1]) + |RowsWithKey(kc, ks[|ks| - 1])|
  }

  /** One more key position adds one to the count of a list of distinct keys holding it. */
  lemma {:induction false} CountRowsSnoc(kc: seq<Key>, x: Key, ks: seq<Key>)
    requires Distinct(ks)
    ensures CountRows(kc + [x], ks) == CountRows(kc, ks) + if x in ks then 1 else 0
    decreases |ks|
  {
    if ks != [] {
      var init, last := ks[..|ks| - 1], ks[|ks| - 1];
      CountRowsSnoc(kc, x, init);
      RowsWithKeySnoc(kc, x, last);
      assert ks == init + [last];
      assert x in ks <==> x in init || x == last;
      assert last !in init;
    }
  }

  /** The groups' row counts add up to the number of key positions. */
  lemma {:induction false} CountRowsDedup(kc: seq<Key>)
    ensures CountRows(kc, Dedup(kc)) == |kc|
    decreases |kc|
  {
    if kc != [] {
      var init, x := kc[..|kc| - 1], kc[|kc| - 1];
      assert kc == init + [x];
      CountRowsDedup(init);
      DedupSnoc(init, x);
      DedupMember(init, x);
      DedupDistinct(init);
      CountRowsSnoc(init, x, Dedup(init));
      if x !in init {
        var d := Dedup(init);
        assert (d + [x])[..|d|] == d;
        RowsWithKeySnoc(init, x, x);
        RowsWithKeyAbsent(init, x);
      }
    }
  }

  /** The sizes of the groups add up to the number of rows: grouping loses and duplicates no row. */
  lemma GroupSizes(t: DataFrame, c: Key)
    requires t.Valid() && Groupable(t, c)
    ensures CountRows(KeysUpTo(t, c, t.numRows), Grouped(t, c).keys) == t.numRows
  {
    CountRowsDedup(KeysUpTo(t, c, t.numRows));
  }
}
