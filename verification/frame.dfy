/**
 * An abstract data frame and the handful of frame operations the
 * normalisation step relies on: dropping rows with missing values,
 * renaming columns, assigning a column, coercing a column to dates and
 * moving a column into the index.
 *
 * A frame is positional, as in the library it stands for: an ordered
 * sequence of column labels, and rows whose cells line up with those
 * labels. Every row also carries its index label.
 */
module Frame {
  import opened Wrappers

  type ColumnName = string

  /** A parsed timestamp; only its identity matters here. */
  datatype Date = Date(ordinal: int)

  /** Cell contents are opaque text (numbers included) or a parsed timestamp. */
  datatype Value = Text(text: string) | Stamp(date: Date)

  /** `None` is a missing value (NaN / NaT). */
  type Cell = Option<Value>

  /** The row's index label: its position as read, or a key taken from a column. */
  datatype Label = Position(n: nat) | Key(key: Cell)

  datatype Row = Row(index: Label, cells: seq<Cell>)

  /** `indexName` is the name of the column moved into the index, if any. */
  datatype Table = Table(columns: seq<ColumnName>, indexName: Option<ColumnName>, rows: seq<Row>)

  predicate Distinct(names: seq<ColumnName>) {
    forall i, j | 0 <= i < j < |names| :: names[i] != names[j]
  }

  /**
   * Column labels are distinct (the CSV reader de-duplicates header
   * names) and every row has one cell per column.
   */
  predicate Wf(t: Table) {
    && Distinct(t.columns)
    && forall i | 0 <= i < |t.rows| :: |t.rows[i].cells| == |t.columns|
  }

  /** The position of the first column labelled `name`. */
  function IndexOf(names: seq<ColumnName>, name: ColumnName): (k: nat)
    requires name in names
    ensures k < |names| && names[k] == name
    ensures forall j | 0 <= j < k :: names[j] != name
  {
    if names[0] == name then 0 else 1 + IndexOf(names[1..], name)
  }

  /** With distinct labels, a label's position is the only one holding it. */
  lemma IndexOfDistinct(names: seq<ColumnName>, k: nat)
    requires Distinct(names) && k < |names|
    ensures IndexOf(names, names[k]) == k
  {
  }

  /** The cell of row `i` under column `name`. */
  function CellAt(t: Table, i: nat, name: ColumnName): Cell
    requires Wf(t) && i < |t.rows| && name in t.columns
  {
    t.rows[i].cells[IndexOf(t.columns, name)]
  }

  /** The column `name` as a series, `df[name]`. */
  function Column(t: Table, name: ColumnName): (values: seq<Cell>)
    requires Wf(t) && name in t.columns
    ensures |values| == |t.rows|
    ensures forall i | 0 <= i < |t.rows| :: values[i] == CellAt(t, i, name)
  {
    seq(|t.rows|, i requires 0 <= i < |t.rows| => CellAt(t, i, name))
  }

  /** Column `n` of `t`, if `t` has one, is a column of `r` with the same cells, row by row. */
  predicate Keeps(t: Table, r: Table, n: ColumnName)
    requires Wf(t) && Wf(r)
  {
    n in t.columns ==>
      && n in r.columns
      && |r.rows| == |t.rows|
      && forall i | 0 <= i < |t.rows| :: CellAt(r, i, n) == CellAt(t, i, n)
  }

  // ---------------------------------------------------------------------
  // Subsequences
  // ---------------------------------------------------------------------

  /** `a` is obtained from `b` by deleting elements, keeping the order of the rest. */
  ghost predicate IsSubsequence<T>(a: seq<T>, b: seq<T>)
    decreases |b|
  {
    if a == [] then true
    else if b == [] then false
    else if a[0] == b[0] then IsSubsequence(a[1..], b[1..])
    else IsSubsequence(a, b[1..])
  }

  lemma {:induction false} SubsequenceLength<T>(a: seq<T>, b: seq<T>)
    requires IsSubsequence(a, b)
    ensures |a| <= |b|
    decreases |b|
  {
    if a != [] {
      if a[0] == b[0] {
        SubsequenceLength(a[1..], b[1..]);
      } else {
        SubsequenceLength(a, b[1..]);
      }
    }
  }

  lemma {:induction false} SubsequenceReflexive<T>(a: seq<T>)
    ensures IsSubsequence(a, a)
  {
    if a != [] {
      SubsequenceReflexive(a[1..]);
    }
  }

  // ---------------------------------------------------------------------
  // dropna(subset=...)
  // ---------------------------------------------------------------------

  /** No cell of `row` under a column labelled by a name in `subset` is missing. */
  predicate Complete(columns: seq<ColumnName>, row: Row, subset: seq<ColumnName>) {
    forall k | 0 <= k < |columns| && k < |row.cells| && columns[k] in subset :: row.cells[k].Some?
  }

  /** The rows that are complete on `subset`, in their original order. */
  function KeepComplete(columns: seq<ColumnName>, rows: seq<Row>, subset: seq<ColumnName>): (kept: seq<Row>)
    ensures IsSubsequence(kept, rows)
    ensures forall row | row in kept :: row in rows && Complete(columns, row, subset)
    ensures forall row | row in rows && Complete(columns, row, subset) :: row in kept
    ensures (forall row | row in rows :: Complete(columns, row, subset)) ==> kept == rows
    ensures forall row :: multiset(kept)[row] == if Complete(columns, row, subset) then multiset(rows)[row] else 0
  {
    if rows == [] then []
    else
      var rest := KeepComplete(columns, rows[1..], subset);
      assert rows == [rows[0]] + rows[1..];
      assert multiset(rows) == multiset{rows[0]} + multiset(rows[1..]);
      if Complete(columns, rows[0], subset) then
        assert multiset([rows[0]] + rest) == multiset{rows[0]} + multiset(rest);
        [rows[0]] + rest
      else
        rest
  }

  /**
   * `df.dropna(subset=subset)`: drops every row with a missing value in one
   * of the named columns. The library raises when a name in `subset` is not
   * a column; callers here only pass names they found among the columns.
   */
  function DropNA(t: Table, subset: seq<ColumnName>): (r: Table)
    requires forall n | n in subset :: n in t.columns
    ensures r.columns == t.columns && r.indexName == t.indexName
    ensures IsSubsequence(r.rows, t.rows)
    ensures forall row | row in r.rows :: Complete(t.columns, row, subset)
    ensures forall row | row in t.rows && Complete(t.columns, row, subset) :: row in r.rows
    ensures forall row :: multiset(r.rows)[row] == if Complete(t.columns, row, subset) then multiset(t.rows)[row] else 0
  {
    t.(rows := KeepComplete(t.columns, t.rows, subset))
  }

  /** A frame that `dropna` leaves as it is. */
  lemma DropNAOfComplete(t: Table, subset: seq<ColumnName>)
    requires forall n | n in subset :: n in t.columns
    requires forall row | row in t.rows :: Complete(t.columns, row, subset)
    ensures DropNA(t, subset) == t
  {
  }

  /** Rows kept by `dropna` are still well formed and have a value under every name of `subset`. */
  lemma DropNAWf(t: Table, subset: seq<ColumnName>)
    requires Wf(t) && forall n | n in subset :: n in t.columns
    ensures Wf(DropNA(t, subset))
    ensures forall i, n | 0 <= i < |DropNA(t, subset).rows| && n in subset ::
      CellAt(DropNA(t, subset), i, n).Some?
  {
    var r := DropNA(t, subset);
    forall i | 0 <= i < |r.rows|
      ensures |r.rows[i].cells| == |r.columns|
    {
      assert r.rows[i] in r.rows;
      var j :| 0 <= j < |t.rows| && t.rows[j] == r.rows[i];
    }
    forall i, n | 0 <= i < |r.rows| && n in subset
      ensures CellAt(r, i, n).Some?
    {
      assert r.rows[i] in r.rows;
      var k := IndexOf(r.columns, n);
      assert r.columns[k] in subset;
    }
  }

  // ---------------------------------------------------------------------
  // rename(columns=...)
  // ---------------------------------------------------------------------

  function Renamed(names: seq<ColumnName>, m: map<ColumnName, ColumnName>): (r: seq<ColumnName>)
    ensures |r| == |names|
    ensures forall k | 0 <= k < |names| :: r[k] == if names[k] in m then m[names[k]] else names[k]
  {
    seq(|names|, k requires 0 <= k < |names| => if names[k] in m then m[names[k]] else names[k])
  }

  /**
   * `df.rename(columns=m)`: relabels every column whose name is a key of
   * `m`; the cells, the rows and their order are untouched.
   */
  function Rename(t: Table, m: map<ColumnName, ColumnName>): (r: Table)
    ensures r.rows == t.rows && r.indexName == t.indexName
    ensures r.columns == Renamed(t.columns, m)
  {
    t.(columns := Renamed(t.columns, m))
  }

  /**
   * A renaming that cannot produce two columns with the same label: each
   * present key is renamed to itself or to a label not yet in use, and no
   * two present keys share a target.
   */
  predicate SafeRename(names: seq<ColumnName>, m: map<ColumnName, ColumnName>) {
    && (forall k | k in m && k in names :: m[k] == k || m[k] !in names)
    && (forall k1, k2 | k1 in m && k2 in m && k1 in names && k2 in names && k1 != k2 :: m[k1] != m[k2])
  }

  /** Renaming two columns to two different labels, each its own or unused, is safe. */
  lemma SafePairRename(names: seq<ColumnName>, a: ColumnName, b: ColumnName, x: ColumnName, y: ColumnName)
    requires a != b && x != y
    requires a == x || x !in names
    requires b == y || y !in names
    ensures SafeRename(names, map[a := x, b := y])
  {
  }

  lemma RenameKeepsDistinct(names: seq<ColumnName>, m: map<ColumnName, ColumnName>)
    requires Distinct(names) && SafeRename(names, m)
    ensures Distinct(Renamed(names, m))
  {
    var r := Renamed(names, m);
    forall i, j | 0 <= i < j < |r|
      ensures r[i] != r[j]
    {
      assert names[i] in names && names[j] in names;
    }
  }

  lemma RenameWf(t: Table, m: map<ColumnName, ColumnName>)
    requires Wf(t) && SafeRename(t.columns, m)
    ensures Wf(Rename(t, m))
  {
    RenameKeepsDistinct(t.columns, m);
  }

  /** A renaming that sends every key to itself changes nothing. */
  lemma RenameIdentity(t: Table, m: map<ColumnName, ColumnName>)
    requires forall k | k in m :: m[k] == k
    ensures Rename(t, m) == t
  {
    assert Renamed(t.columns, m) == t.columns;
  }

  /** The renamed column holds, row by row, the cells of the column it was. */
  lemma RenameMoves(t: Table, m: map<ColumnName, ColumnName>, c: ColumnName)
    requires Wf(t) && SafeRename(t.columns, m) && c in m && c in t.columns
    ensures Wf(Rename(t, m))
    ensures m[c] in Rename(t, m).columns
    ensures forall i | 0 <= i < |t.rows| :: CellAt(Rename(t, m), i, m[c]) == CellAt(t, i, c)
  {
    RenameWf(t, m);
    var r := Rename(t, m);
    var k := IndexOf(t.columns, c);
    assert r.columns[k] == m[c];
    IndexOfDistinct(r.columns, k);
  }

  /** A renamed label that is no target of the renaming is no longer a column. */
  lemma RenameRemoves(t: Table, m: map<ColumnName, ColumnName>, c: ColumnName)
    requires c in m && forall k | k in m :: m[k] != c
    ensures c !in Rename(t, m).columns
  {
    var r := Rename(t, m);
    forall j | 0 <= j < |r.columns|
      ensures r.columns[j] != c
    {
    }
  }

  /** A label that is neither renamed nor a target keeps its membership and its cells. */
  lemma RenameKeepsOthers(t: Table, m: map<ColumnName, ColumnName>, n: ColumnName)
    requires Wf(t) && SafeRename(t.columns, m)
    requires n !in m && forall k | k in m :: m[k] != n
    ensures Wf(Rename(t, m))
    ensures n in Rename(t, m).columns <==> n in t.columns
    ensures Keeps(t, Rename(t, m), n)
  {
    RenameWf(t, m);
    var r := Rename(t, m);
    if n in t.columns {
      var k := IndexOf(t.columns, n);
      assert r.columns[k] == n;
      IndexOfDistinct(r.columns, k);
    }
    if n in r.columns {
      var k := IndexOf(r.columns, n);
      assert t.columns[k] == n;
    }
  }

  // ---------------------------------------------------------------------
  // df[name] = values
  // ---------------------------------------------------------------------

  /**
   * `df[name] = values`: overwrites the column in place when it exists,
   * otherwise appends it as the last column. The library raises when the
   * length differs from the number of rows; a scalar is broadcast by the
   * caller into one value per row.
   */
  function Assign(t: Table, name: ColumnName, values: seq<Cell>): (r: Table)
    requires Wf(t) && |values| == |t.rows|
    ensures r.indexName == t.indexName && |r.rows| == |t.rows|
    ensures r.columns == if name in t.columns then t.columns else t.columns + [name]
    ensures forall i | 0 <= i < |r.rows| :: r.rows[i].index == t.rows[i].index
  {
    if name in t.columns then
      var k := IndexOf(t.columns, name);
      t.(rows := seq(|t.rows|, i requires 0 <= i < |t.rows| => t.rows[i].(cells := t.rows[i].cells[k := values[i]])))
    else
      Table(t.columns + [name], t.indexName,
        seq(|t.rows|, i requires 0 <= i < |t.rows| => t.rows[i].(cells := t.rows[i].cells + [values[i]])))
  }

  lemma AssignWf(t: Table, name: ColumnName, values: seq<Cell>)
    requires Wf(t) && |values| == |t.rows|
    ensures Wf(Assign(t, name, values)) && name in Assign(t, name, values).columns
  {
    AssignSpec(t, name, values);
  }

  /** After the assignment the column holds `values` and every other column is unchanged. */
  lemma AssignSpec(t: Table, name: ColumnName, values: seq<Cell>)
    requires Wf(t) && |values| == |t.rows|
    ensures Wf(Assign(t, name, values))
    ensures name in Assign(t, name, values).columns
    ensures forall i | 0 <= i < |t.rows| :: CellAt(Assign(t, name, values), i, name) == values[i]
    ensures forall n | n != name :: Keeps(t, Assign(t, name, values), n)
  {
    var r := Assign(t, name, values);
    if name !in t.columns {
      assert Distinct(r.columns) by {
        forall i, j | 0 <= i < j < |r.columns|
          ensures r.columns[i] != r.columns[j]
        {
          if j == |t.columns| {
            assert t.columns[i] in t.columns;
          }
        }
      }
      IndexOfDistinct(r.columns, |t.columns|);
    }
    forall n | n != name && n in t.columns
      ensures Keeps(t, r, n)
    {
      var k := IndexOf(t.columns, n);
      assert r.columns[k] == n;
      IndexOfDistinct(r.columns, k);
    }
  }

  // ---------------------------------------------------------------------
  // to_datetime(..., errors='coerce')
  // ---------------------------------------------------------------------

  /**
   * One cell of `to_datetime(series, errors='coerce')`: a missing value
   * stays missing, a timestamp stays as it is, and text becomes the
   * timestamp `parse` reads from it or, when it cannot be read, a
   * missing value.
   */
  function CoerceDate(c: Cell, parse: string -> Option<Date>): (r: Cell)
    ensures r.Some? ==> r.value.Stamp?
    ensures r.None? <==> c.None? || (c.value.Text? && parse(c.value.text).None?)
    ensures c.Some? && c.value.Stamp? ==> r == c
    ensures c.Some? && c.value.Text? && parse(c.value.text).Some? ==> r == Some(Stamp(parse(c.value.text).value))
  {
    match c
    case None => None
    case Some(Stamp(d)) => Some(Stamp(d))
    case Some(Text(s)) =>
      match parse(s)
      case Some(d) => Some(Stamp(d))
      case None => None
  }

  /**
   * `to_datetime(series, errors='coerce')`, modelled by coercing each cell on
   * its own through `parse`: never raises and never drops a value. A format
   * the library infers from the first value is not modelled.
   */
  function ToDatetime(values: seq<Cell>, parse: string -> Option<Date>): (r: seq<Cell>)
    ensures |r| == |values|
    ensures forall i | 0 <= i < |values| :: r[i] == CoerceDate(values[i], parse)
    ensures forall i | 0 <= i < |r| :: r[i].None? || r[i].value.Stamp?
    ensures forall i | 0 <= i < |values| :: values[i].None? ==> r[i].None?
  {
    seq(|values|, i requires 0 <= i < |values| => CoerceDate(values[i], parse))
  }

  /** Coercing a column that is already coerced changes nothing. */
  lemma ToDatetimeIdempotent(values: seq<Cell>, parse: string -> Option<Date>)
    ensures ToDatetime(ToDatetime(values, parse), parse) == ToDatetime(values, parse)
  {
    var once := ToDatetime(values, parse);
    var twice := ToDatetime(once, parse);
    assert forall i | 0 <= i < |once| :: twice[i] == once[i];
  }

  // ---------------------------------------------------------------------
  // set_index(name)
  // ---------------------------------------------------------------------

  /** `names` with its position `k` removed. */
  function Without(names: seq<ColumnName>, k: nat): (r: seq<ColumnName>)
    requires k < |names|
    ensures |r| == |names| - 1
    ensures forall j | 0 <= j < |r| :: r[j] == names[if j < k then j else j + 1]
  {
    names[..k] + names[k + 1..]
  }

  lemma WithoutDistinct(names: seq<ColumnName>, k: nat)
    requires k < |names| && Distinct(names)
    ensures Distinct(Without(names, k))
    ensures forall n :: n in Without(names, k) <==> n in names && n != names[k]
  {
    var r := Without(names, k);
    forall i, j | 0 <= i < j < |r|
      ensures r[i] != r[j]
    {
      var i', j' := if i < k then i else i + 1, if j < k then j else j + 1;
      assert r[i] == names[i'] && r[j] == names[j'];
    }
    forall n
      ensures n in r <==> n in names && n != names[k]
    {
      if n in r {
        var j := IndexOf(r, n);
        assert names[if j < k then j else j + 1] == n;
      }
      if n in names && n != names[k] {
        var j := IndexOf(names, n);
        assert r[if j < k then j else j - 1] == n;
      }
    }
  }

  /**
   * `df.set_index(name)`: removes the column from the columns and makes
   * its cells the row labels, replacing the previous index. No row is
   * dropped or moved.
   */
  function SetIndex(t: Table, name: ColumnName): (r: Table)
    requires Wf(t) && name in t.columns
    ensures r.indexName == Some(name) && |r.rows| == |t.rows|
  {
    var k := IndexOf(t.columns, name);
    Table(Without(t.columns, k), Some(name),
      seq(|t.rows|, i requires 0 <= i < |t.rows| =>
        Row(Key(t.rows[i].cells[k]), t.rows[i].cells[..k] + t.rows[i].cells[k + 1..])))
  }

  lemma SetIndexSpec(t: Table, name: ColumnName)
    requires Wf(t) && name in t.columns
    ensures Wf(SetIndex(t, name))
    ensures forall n :: n in SetIndex(t, name).columns <==> n in t.columns && n != name
    ensures forall i | 0 <= i < |t.rows| :: SetIndex(t, name).rows[i].index == Key(CellAt(t, i, name))
    ensures forall n | n != name :: Keeps(t, SetIndex(t, name), n)
  {
    SetIndexShape(t, name);
    forall n | n != name && n in t.columns
      ensures Keeps(t, SetIndex(t, name), n)
    {
      SetIndexKeepsOther(t, name, n);
    }
  }

  /** The labels left after `set_index` are the others, still distinct. */
  lemma SetIndexShape(t: Table, name: ColumnName)
    requires Wf(t) && name in t.columns
    ensures Wf(SetIndex(t, name))
    ensures forall n :: n in SetIndex(t, name).columns <==> n in t.columns && n != name
  {
    WithoutDistinct(t.columns, IndexOf(t.columns, name));
  }

  /** Every other column keeps its cells through `set_index`. */
  lemma SetIndexKeepsOther(t: Table, name: ColumnName, n: ColumnName)
    requires Wf(t) && name in t.columns && n in t.columns && n != name
    ensures Wf(SetIndex(t, name)) && n in SetIndex(t, name).columns
    ensures forall i | 0 <= i < |t.rows| :: CellAt(SetIndex(t, name), i, n) == CellAt(t, i, n)
  {
    SetIndexShape(t, name);
    var r := SetIndex(t, name);
    var k := IndexOf(t.columns, name);
    var j := IndexOf(t.columns, n);
    var j' := if j < k then j else j - 1;
    assert r.columns[j'] == n;
    IndexOfDistinct(r.columns, j');
    forall i | 0 <= i < |t.rows|
      ensures CellAt(r, i, n) == CellAt(t, i, n)
    {
      assert r.rows[i].cells == t.rows[i].cells[..k] + t.rows[i].cells[k + 1..];
      SkipCell(t.rows[i].cells, k, j);
    }
  }

  /** Removing position `k` moves the cell at any other position `j` to `j` or `j - 1`. */
  lemma SkipCell(cells: seq<Cell>, k: nat, j: nat)
    requires k < |cells| && j < |cells| && j != k
    ensures (cells[..k] + cells[k + 1..])[if j < k then j else j - 1] == cells[j]
  {
  }

}
