/**
 * A model of the small part of a GPU dataframe (cudf) that the Splunk
 * notable parser uses: a table of named string columns, boolean-mask row
 * selection, column assignment, row concatenation, column dropping,
 * null filling and the string-length accessor.
 *
 * A table is kept row by row: `columns` is the ordered list of column
 * names, and every row maps exactly those names to cells.
 */
module Frames {

  /** A cell of a column: missing (null), a string, or an integer
      (the result of a string-length accessor). */
  datatype Cell = Null | Str(s: string) | Int(n: int)

  type Row = map<string, Cell>

  datatype Table = Table(columns: seq<string>, rows: seq<Row>)

  /** The errors the library raises on the paths modelled here:
      a missing column label (KeyError) and the string accessor used on a
      column that does not hold strings. */
  datatype Error = MissingColumn(name: string) | NotText(name: string)

  datatype Result<T> = Success(value: T) | Failure(error: Error)

  datatype Option<T> = None | Some(value: T)

  function Names(columns: seq<string>): set<string>
  {
    set c | c in columns
  }

  predicate Distinct(columns: seq<string>)
  {
    forall i, j :: 0 <= i < j < |columns| ==> columns[i] != columns[j]
  }

  /** Column names are unique and every row has exactly the table's columns. */
  predicate WellFormed(t: Table)
  {
    && Distinct(t.columns)
    && forall i :: 0 <= i < |t.rows| ==> t.rows[i].Keys == Names(t.columns)
  }

  /** No cell of the table is null. */
  predicate NoNulls(t: Table)
  {
    forall i, c :: 0 <= i < |t.rows| && c in t.rows[i] ==> t.rows[i][c] != Null
  }

  /** `t[name]`: the cells of one column, top to bottom. */
  function Column(t: Table, name: string): (col: seq<Cell>)
    requires WellFormed(t) && name in t.columns
    ensures |col| == |t.rows|
    ensures forall i :: 0 <= i < |t.rows| ==> col[i] == t.rows[i][name]
  {
    seq(|t.rows|, i requires 0 <= i < |t.rows| => t.rows[i][name])
  }

  /** `t[name] = values`: overwrite the column in place if it exists,
      otherwise append it as the last column. */
  function WithColumn(t: Table, name: string, values: seq<Cell>): (r: Table)
    requires WellFormed(t) && |values| == |t.rows|
    ensures WellFormed(r)
    ensures Names(r.columns) == Names(t.columns) + {name}
    ensures name in t.columns ==> r.columns == t.columns
    ensures name !in t.columns ==> r.columns == t.columns + [name]
    ensures |r.rows| == |t.rows|
  {
    var columns := if name in t.columns then t.columns else t.columns + [name];
    assert Names(columns) == Names(t.columns) + {name};
    Table(columns, seq(|t.rows|, i requires 0 <= i < |t.rows| => t.rows[i][name := values[i]]))
  }

  /** Row `i` of the new table is row `i` of the old one with the cell of
      `name` set to `values[i]`. */
  lemma WithColumnRows(t: Table, name: string, values: seq<Cell>)
    requires WellFormed(t) && |values| == |t.rows|
    ensures forall i :: 0 <= i < |t.rows| ==> WithColumn(t, name, values).rows[i] == t.rows[i][name := values[i]]
  {
  }

  /** The positions of the `true` entries of a mask, in increasing order. */
  function Indices(mask: seq<bool>): (ps: seq<nat>)
    ensures |ps| <= |mask|
    ensures forall k :: 0 <= k < |ps| ==> ps[k] < |mask| && mask[ps[k]]
    ensures forall k1, k2 :: 0 <= k1 < k2 < |ps| ==> ps[k1] < ps[k2]
    ensures forall i :: 0 <= i < |mask| && mask[i] ==> i in ps
  {
    if mask == [] then []
    else
      var init := mask[..|mask| - 1];
      assert forall i :: 0 <= i < |init| ==> init[i] == mask[i];
      Indices(init) + (if mask[|mask| - 1] then [|mask| - 1] else [])
  }

  /** Extending a mask by one entry selects one more position exactly when
      that entry is true. */
  lemma IndicesLast(mask: seq<bool>)
    requires mask != []
    ensures |Indices(mask)| == |Indices(mask[..|mask| - 1])| + (if mask[|mask| - 1] then 1 else 0)
  {
  }

  /** A mask selects nothing exactly when all its entries are false. */
  lemma IndicesEmpty(mask: seq<bool>)
    ensures |Indices(mask)| == 0 <==> forall i :: 0 <= i < |mask| ==> !mask[i]
  {
    if |Indices(mask)| > 0 {
      assert mask[Indices(mask)[0]];
    }
  }

  /** `t[mask]`: the rows whose mask entry is true, in their original order;
      a row is kept only where the mask is true (a null comparison is not). */
  function Where(t: Table, mask: seq<bool>): (r: Table)
    requires WellFormed(t) && |mask| == |t.rows|
    ensures WellFormed(r) && r.columns == t.columns
    ensures |r.rows| == |Indices(mask)| <= |t.rows|
    ensures forall k :: 0 <= k < |r.rows| ==> r.rows[k] == t.rows[Indices(mask)[k]]
  {
    var ps := Indices(mask);
    Table(t.columns, seq(|ps|, k requires 0 <= k < |ps| => t.rows[ps[k]]))
  }

  /** `cudf.concat([a, b])` of two tables with the same columns: the rows of
      `a` followed by the rows of `b`. */
  function Concat(a: Table, b: Table): (r: Table)
    requires WellFormed(a) && WellFormed(b) && a.columns == b.columns
    ensures WellFormed(r) && r.columns == a.columns
    ensures |r.rows| == |a.rows| + |b.rows|
    ensures r.rows[..|a.rows|] == a.rows && r.rows[|a.rows|..] == b.rows
  {
    Table(a.columns, a.rows + b.rows)
  }

  /** The column list without the given names, in the original order. */
  function WithoutNames(columns: seq<string>, names: set<string>): (r: seq<string>)
    ensures Names(r) == Names(columns) - names
    ensures Distinct(columns) ==> Distinct(r)
  {
    if columns == [] then []
    else
      var init := columns[..|columns| - 1];
      var last := columns[|columns| - 1];
      assert columns == init + [last];
      assert Names(columns) == Names(init) + {last};
      var rest := WithoutNames(init, names);
      var tail := if last in names then [] else [last];
      assert Names(rest + tail) == Names(rest) + Names(tail);
      assert Distinct(columns) ==> Distinct(rest + tail) by {
        if Distinct(columns) {
          assert last !in Names(init);
          assert forall i :: 0 <= i < |rest| ==> rest[i] in Names(rest);
        }
      }
      rest + tail
  }

  /** `a` comes before `b` in `columns`. */
  predicate InOrder(columns: seq<string>, a: string, b: string)
  {
    exists p, q :: 0 <= p < q < |columns| && columns[p] == a && columns[q] == b
  }

  /** The names left after dropping keep their relative order. */
  lemma {:induction false} WithoutNamesOrder(columns: seq<string>, names: set<string>)
    ensures forall i, j :: 0 <= i < j < |WithoutNames(columns, names)| ==>
              InOrder(columns, WithoutNames(columns, names)[i], WithoutNames(columns, names)[j])
  {
    if columns != [] {
      var n := |columns| - 1;
      var init, last := columns[..n], columns[n];
      var rest := WithoutNames(init, names);
      var r := WithoutNames(columns, names);
      WithoutNamesOrder(init, names);
      assert r == rest + (if last in names then [] else [last]);
      forall i, j | 0 <= i < j < |r|
        ensures InOrder(columns, r[i], r[j])
      {
        if j < |rest| {
          assert r[i] == rest[i] && r[j] == rest[j];
          assert InOrder(init, rest[i], rest[j]);
          var p, q :| 0 <= p < q < |init| && init[p] == rest[i] && init[q] == rest[j];
          assert columns[p] == r[i] && columns[q] == r[j];
        } else {
          assert r[i] == rest[i] && rest[i] in Names(rest);
          var p :| 0 <= p < |init| && init[p] == rest[i];
          assert columns[p] == r[i] && columns[n] == r[j];
        }
      }
    }
  }

  /** The table without the given columns, every row losing those keys. */
  function Without(t: Table, names: set<string>): (r: Table)
    requires WellFormed(t)
    ensures WellFormed(r)
    ensures Names(r.columns) == Names(t.columns) - names
    ensures |r.rows| == |t.rows|
    ensures forall i :: 0 <= i < |t.rows| ==>
              && r.rows[i].Keys == t.rows[i].Keys - names
              && forall c :: c in r.rows[i] ==> r.rows[i][c] == t.rows[i][c]
  {
    Table(WithoutNames(t.columns, names),
          seq(|t.rows|, i requires 0 <= i < |t.rows| => t.rows[i] - names))
  }

  /** The first of `names` that is not a column, if any. */
  function FirstMissing(names: seq<string>, columns: seq<string>): (m: Option<string>)
    ensures m.None? <==> forall n :: n in names ==> n in columns
    ensures m.Some? ==> m.value in names && m.value !in columns
  {
    if names == [] then None
    else if names[0] !in columns then Some(names[0])
    else FirstMissing(names[1..], columns)
  }

  /** `t.drop(names)`: remove columns; a label that is not a column raises. */
  function DropColumns(t: Table, names: seq<string>): (r: Result<Table>)
    requires WellFormed(t)
    ensures r.Success? <==> forall n :: n in names ==> n in t.columns
    ensures r.Failure? ==> r.error.MissingColumn? && r.error.name in names && r.error.name !in t.columns
    ensures r.Success? ==> WellFormed(r.value) && |r.value.rows| == |t.rows|
    ensures r.Success? ==> Names(r.value.columns) == Names(t.columns) - Names(names)
    ensures r.Success? ==> r.value.columns == WithoutNames(t.columns, Names(names))
    ensures r.Success? ==> forall i, c :: 0 <= i < |t.rows| && c in r.value.rows[i] ==>
                             c in t.rows[i] && r.value.rows[i][c] == t.rows[i][c]
  {
    match FirstMissing(names, t.columns)
    case Some(n) => Failure(MissingColumn(n))
    case None => Success(Without(t, Names(names)))
  }

  function FillCell(c: Cell, v: string): Cell
  {
    if c.Null? then Str(v) else c
  }

  /** `t.fillna(v)`: every null cell becomes the string `v`. */
  function FillNulls(t: Table, v: string): (r: Table)
    requires WellFormed(t)
    ensures WellFormed(r) && r.columns == t.columns && |r.rows| == |t.rows|
    ensures NoNulls(r)
    ensures forall i, c :: 0 <= i < |t.rows| && c in t.rows[i] ==>
              && c in r.rows[i]
              && (t.rows[i][c] != Null ==> r.rows[i][c] == t.rows[i][c])
              && (t.rows[i][c] == Null ==> r.rows[i][c] == Str(v))
  {
    Table(t.columns,
          seq(|t.rows|, i requires 0 <= i < |t.rows| =>
            map c | c in t.rows[i] :: FillCell(t.rows[i][c], v)))
  }

  /** The column holds no integer cells, so the string accessor applies to it. */
  predicate IsText(t: Table, name: string)
  {
    forall i :: 0 <= i < |t.rows| && name in t.rows[i] ==> !t.rows[i][name].Int?
  }

  /** `series.str.len()` on a series named `name`: the length of every
      string, null for a null cell; a non-string cell raises. */
  function StrLen(col: seq<Cell>, name: string): (r: Result<seq<Cell>>)
    ensures r.Success? <==> forall i :: 0 <= i < |col| ==> !col[i].Int?
    ensures r.Failure? ==> r.error == NotText(name)
    ensures r.Success? ==> (
              && |r.value| == |col|
              && forall i :: 0 <= i < |col| ==>
                   (col[i].Null? ==> r.value[i] == Null) &&
                   (col[i].Str? ==> r.value[i] == Int(|col[i].s|)))
  {
    if exists i :: 0 <= i < |col| && col[i].Int? then Failure(NotText(name))
    else Success(seq(|col|, i requires 0 <= i < |col| => if col[i].Str? then Int(|col[i].s|) else Null))
  }

  /** The string accessor applies to a column exactly when it is text. */
  lemma TextColumn(t: Table, name: string)
    requires WellFormed(t) && name in t.columns
    ensures IsText(t, name) <==> StrLen(Column(t, name), name).Success?
  {
    assert name in Names(t.columns);
    var col := Column(t, name);
    if StrLen(col, name).Success? {
      forall i | 0 <= i < |t.rows| && name in t.rows[i]
        ensures !t.rows[i][name].Int?
      {
        assert col[i] == t.rows[i][name];
      }
    }
  }

  /** `series == 0` used as a mask: a null (or non-integer) entry selects nothing. */
  function IsZero(col: seq<Cell>): (m: seq<bool>)
    ensures |m| == |col|
    ensures forall i :: 0 <= i < |col| ==> (m[i] <==> col[i] == Int(0))
  {
    seq(|col|, i requires 0 <= i < |col| => col[i] == Int(0))
  }

  /** `series != 0` used as a mask: a null entry selects nothing either. */
  function IsNonZero(col: seq<Cell>): (m: seq<bool>)
    ensures |m| == |col|
    ensures forall i :: 0 <= i < |col| ==> (m[i] <==> col[i].Int? && col[i].n != 0)
  {
    seq(|col|, i requires 0 <= i < |col| => col[i].Int? && col[i].n != 0)
  }

  /** The two masks never select the same row, and between them select
      exactly the integer entries: a null length is in neither. */
  lemma ZeroMasksSplit(col: seq<Cell>)
    ensures forall i :: 0 <= i < |col| ==> !(IsZero(col)[i] && IsNonZero(col)[i])
    ensures forall i :: 0 <= i < |col| ==> (IsZero(col)[i] || IsNonZero(col)[i] <==> col[i].Int?)
  {
  }

  /** A dataframe object: its columns and rows can be overwritten in place. */
  class Frame {
    var columns: seq<string>
    var rows: seq<Row>

    function Value(): Table
      reads this
    {
      Table(columns, rows)
    }

    ghost predicate Valid()
      reads this
    {
      WellFormed(Value())
    }

    constructor (t: Table)
      requires WellFormed(t)
      ensures Valid() && Value() == t
    {
      columns, rows := t.columns, t.rows;
    }

    /** `df.empty`: true when the frame has no rows or no columns. */
    function IsEmpty(): (e: bool)
      reads this
      ensures e <==> Value().rows == [] || Value().columns == []
    {
      |rows| == 0 || |columns| == 0
    }

    /** `df[name]`, raising when `name` is not a column. */
    method Get(name: string) returns (r: Result<seq<Cell>>)
      requires Valid()
      ensures r.Success? <==> name in columns
      ensures r.Failure? ==> r.error == MissingColumn(name)
      ensures r.Success? ==> r.value == Column(Value(), name)
    {
      if name in columns {
        r := Success(Column(Value(), name));
      } else {
        r := Failure(MissingColumn(name));
      }
    }

    /** `df[name] = values`, in place. */
    method Assign(name: string, values: seq<Cell>)
      requires Valid() && |values| == |rows|
      modifies this
      ensures Valid() && Value() == WithColumn(old(Value()), name, values)
    {
      var t := WithColumn(Value(), name, values);
      columns, rows := t.columns, t.rows;
    }

    /** `df[mask]`: a new frame holding the selected rows. */
    method Select(mask: seq<bool>) returns (r: Frame)
      requires Valid() && |mask| == |rows|
      ensures fresh(r) && r.Valid() && r.Value() == Where(Value(), mask)
    {
      r := new Frame(Where(Value(), mask));
    }

    /** `df.drop(names)`: a new frame without those columns. */
    method Drop(names: seq<string>) returns (r: Result<Frame>)
      requires Valid()
      ensures Contents(r) == DropColumns(Value(), names)
      ensures r.Success? ==> fresh(r.value) && r.value.Valid()
    {
      var d := DropColumns(Value(), names);
      if d.Failure? {
        r := Failure(d.error);
      } else {
        var f := new Frame(d.value);
        r := Success(f);
      }
    }

    /** `df.fillna(v)`: a new frame with every null replaced by `v`. */
    method FillNa(v: string) returns (r: Frame)
      requires Valid()
      ensures fresh(r) && r.Valid() && r.Value() == FillNulls(Value(), v)
    {
      r := new Frame(FillNulls(Value(), v));
    }
  }

  /** The table a frame result holds, or its error. */
  function Contents(r: Result<Frame>): Result<Table>
    reads if r.Success? then {r.value} else {}
  {
    match r
    case Success(f) => Success(f.Value())
    case Failure(e) => Failure(e)
  }

  /** `cudf.concat([a, b])` of two frames with the same columns. */
  method ConcatFrames(a: Frame, b: Frame) returns (r: Frame)
    requires a.Valid() && b.Valid() && a.columns == b.columns
    ensures fresh(r) && r.Valid() && r.Value() == Concat(a.Value(), b.Value())
  {
    r := new Frame(Concat(a.Value(), b.Value()));
  }
}
