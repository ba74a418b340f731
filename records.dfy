/**
 * Values, rows and table schemas of the record store behind the generic
 * database manager, the integrity rules the storage engine enforces when a
 * unit of work commits, and the way the engine fills in an inserted row.
 */
module Records {

  datatype Option<T> = None | Some(value: T)

  /** A column value: the loosely typed payload values a caller supplies. */
  datatype Value = Int(i: int) | Text(s: string) | Bool(b: bool) | Null

  /** A stored row, and every payload map (create data, filters, updates): column name to value. */
  type Row = map<string, Value>

  /**
   * A mapped record type: the table name, the column names, the integer
   * identity column (primary key, auto-assigned when an insert leaves it
   * out), the columns declared unique, the columns declared not nullable,
   * and the client-side defaults of the other columns.
   */
  datatype Schema = Schema(
    tableName: string,
    columns: set<string>,
    primaryKey: string,
    unique: set<string>,
    required: set<string>,
    defaults: map<string, Value>)
  {
    /** A declarative class cannot be mapped without a primary key among its columns. */
    ghost predicate WellFormed() {
      && primaryKey in columns
      && unique <= columns
      && required <= columns
      && defaults.Keys <= columns
    }

    /** The columns in which no two rows may share a non-null value. */
    function KeyColumns(): set<string> {
      unique + {primaryKey}
    }
  }

  /** The dictionary the manager hands back for a row: one entry per column of the schema. */
  function Project(s: Schema, r: Row): (d: Row)
    ensures d.Keys == s.columns
  {
    map c | c in s.columns :: if c in r then r[c] else Null
  }

  /** A stored row already has exactly the schema's columns, so handing it back returns it unchanged. */
  lemma ProjectStored(s: Schema, r: Row)
    requires r.Keys == s.columns
    ensures Project(s, r) == r
  {
  }

  /** Row-level constraints: the row's columns, an integer identity, no NULL in a NOT NULL column. */
  predicate RowOk(s: Schema, r: Row) {
    && r.Keys == s.columns
    && s.primaryKey in r && r[s.primaryKey].Int?
    && forall c | c in s.required :: c in r && r[c] != Null
  }

  /** Two rows violate a uniqueness constraint (NULLs never collide). */
  predicate Clash(s: Schema, x: Row, y: Row) {
    exists c | c in s.KeyColumns() :: c in x && c in y && x[c] != Null && x[c] == y[c]
  }

  /** The constraints the engine checks on commit; a violation is an integrity error. */
  predicate Consistent(s: Schema, rows: seq<Row>)
    decreases |rows|
  {
    if rows == [] then true
    else
      var n := |rows| - 1;
      && Consistent(s, rows[..n])
      && RowOk(s, rows[n])
      && forall x | x in rows[..n] :: !Clash(s, x, rows[n])
  }

  /** Consistency is exactly: every row is well formed and no two rows clash. */
  lemma {:induction false} ConsistentPairwise(s: Schema, rows: seq<Row>)
    ensures Consistent(s, rows) <==>
      && (forall i | 0 <= i < |rows| :: RowOk(s, rows[i]))
      && (forall i, j | 0 <= i < j < |rows| :: !Clash(s, rows[i], rows[j]))
  {
    if rows != [] {
      var n := |rows| - 1;
      var pre := rows[..n];
      ConsistentPairwise(s, pre);
      assert forall i | 0 <= i < n :: pre[i] == rows[i];
      if Consistent(s, rows) {
        forall i, j | 0 <= i < j < |rows| ensures !Clash(s, rows[i], rows[j]) {
          if j < n {
            assert pre[i] == rows[i] && pre[j] == rows[j];
          } else {
            assert rows[i] in pre;
          }
        }
      }
      if (forall i | 0 <= i < |rows| :: RowOk(s, rows[i])) &&
         (forall i, j | 0 <= i < j < |rows| :: !Clash(s, rows[i], rows[j])) {
        forall x | x in pre ensures !Clash(s, x, rows[n]) {
          var i :| 0 <= i < n && pre[i] == x;
        }
      }
    }
  }

  /**
   * An insert commits iff the table was consistent, the new row is well
   * formed, and it shares no non-null identity or unique value with an
   * existing row.
   */
  lemma ConsistentAppend(s: Schema, rows: seq<Row>, r: Row)
    ensures Consistent(s, rows + [r]) <==>
      && Consistent(s, rows)
      && RowOk(s, r)
      && forall i | 0 <= i < |rows| :: !Clash(s, rows[i], r)
  {
    var all := rows + [r];
    assert all[..|rows|] == rows;
    assert all[|rows|] == r;
    assert forall x | x in rows :: exists i | 0 <= i < |rows| :: rows[i] == x;
  }

  /** Every row of a consistent table has exactly the schema's columns. */
  lemma ConsistentConform(s: Schema, rows: seq<Row>)
    requires Consistent(s, rows)
    ensures forall i | 0 <= i < |rows| :: rows[i].Keys == s.columns
  {
    ConsistentPairwise(s, rows);
  }

  /** Appending a row that repeats a non-null key value of an existing row violates a constraint. */
  lemma ReusedKeyClashes(s: Schema, rows: seq<Row>, i: nat, r: Row, c: string)
    requires i < |rows| && c in s.KeyColumns()
    requires c in rows[i] && c in r && r[c] != Null && rows[i][c] == r[c]
    ensures !Consistent(s, rows + [r])
  {
    var all := rows + [r];
    assert all[..|rows|] == rows;
    assert all[|rows|] == r;
    assert rows[i] in all[..|rows|];
    assert Clash(s, rows[i], r);
  }

  /** The integer values held in a column, in row order (NULL and other values skipped). */
  function IntCells(rows: seq<Row>, col: string): (xs: seq<int>)
    ensures |xs| <= |rows|
  {
    if rows == [] then []
    else
      var n := |rows| - 1;
      IntCells(rows[..n], col) + (if col in rows[n] && rows[n][col].Int? then [rows[n][col].i] else [])
  }

  /** An integer is among the column's values iff some row holds it there. */
  lemma {:induction false} IntCellsMember(rows: seq<Row>, col: string, x: int)
    ensures x in IntCells(rows, col) <==> exists i | 0 <= i < |rows| :: col in rows[i] && rows[i][col] == Int(x)
  {
    if rows != [] {
      var n := |rows| - 1;
      IntCellsMember(rows[..n], col, x);
      assert forall i | 0 <= i < n :: rows[..n][i] == rows[i];
      if x in IntCells(rows, col) && x !in IntCells(rows[..n], col) {
        assert col in rows[n] && rows[n][col] == Int(x);
      }
    }
  }

  /** Appending a row appends its integer value in the column, if it has one. */
  lemma IntCellsSnoc(rows: seq<Row>, r: Row, col: string)
    ensures IntCells(rows + [r], col) ==
      IntCells(rows, col) + if col in r && r[col].Int? then [r[col].i] else []
  {
    assert (rows + [r])[..|rows|] == rows;
  }

  /** Column values of a concatenation are the concatenation of the column values. */
  lemma {:induction false} IntCellsConcat(a: seq<Row>, b: seq<Row>, col: string)
    ensures IntCells(a + b, col) == IntCells(a, col) + IntCells(b, col)
  {
    if b == [] {
      assert a + b == a;
    } else {
      var n := |b| - 1;
      assert a + b == (a + b[..n]) + [b[n]];
      assert b == b[..n] + [b[n]];
      IntCellsSnoc(a + b[..n], b[n], col);
      IntCellsSnoc(b[..n], b[n], col);
      IntCellsConcat(a, b[..n], col);
    }
  }

  /** The largest element of a non-empty sequence. */
  function Max(xs: seq<int>): (m: int)
    requires xs != []
    ensures m in xs && forall x | x in xs :: x <= m
  {
    if |xs| == 1 then xs[0]
    else
      var rest := Max(xs[1..]);
      assert forall x | x in xs :: x == xs[0] || x in xs[1..];
      if xs[0] < rest then rest else xs[0]
  }

  /** The identity the engine assigns to an insert that leaves it out: one past the largest, 1 in an empty table. */
  function NextId(rows: seq<Row>, pk: string): int {
    var ids := IntCells(rows, pk);
    if ids == [] then 1 else Max(ids) + 1
  }

  /** The assigned identity is held by no row of the table. */
  lemma NextIdFresh(rows: seq<Row>, pk: string)
    ensures forall i | 0 <= i < |rows| :: !(pk in rows[i] && rows[i][pk] == Int(NextId(rows, pk)))
  {
    forall i | 0 <= i < |rows| && pk in rows[i] && rows[i][pk].Int?
      ensures rows[i][pk].i < NextId(rows, pk)
    {
      IntCellsMember(rows, pk, rows[i][pk].i);
    }
  }

  /**
   * The row an insert stores. The ORM leaves every attribute whose value is
   * None out of the INSERT, so a NULL counts as an omitted value: the
   * supplied non-NULL values, then the assigned identity, then the column
   * default, then NULL.
   */
  function NewRow(s: Schema, rows: seq<Row>, data: map<string, Value>): (r: Row)
    ensures r.Keys == s.columns
  {
    map c | c in s.columns ::
      if c in data && data[c] != Null then data[c]
      else if c == s.primaryKey then Int(NextId(rows, s.primaryKey))
      else if c in s.defaults then s.defaults[c]
      else Null
  }

  /** What an inserted row holds, column by column; an omitted identity is fresh. */
  lemma NewRowFields(s: Schema, rows: seq<Row>, data: map<string, Value>)
    requires s.WellFormed()
    ensures var r := NewRow(s, rows, data);
      && (forall c | c in data && c in s.columns && data[c] != Null :: r[c] == data[c])
      && (forall c | c in s.columns && (c !in data || data[c] == Null) && c != s.primaryKey ::
            r[c] == if c in s.defaults then s.defaults[c] else Null)
      && (s.primaryKey !in data || data[s.primaryKey] == Null ==>
            r[s.primaryKey] == Int(NextId(rows, s.primaryKey)) &&
            forall i | 0 <= i < |rows| :: !(s.primaryKey in rows[i] && rows[i][s.primaryKey] == r[s.primaryKey]))
  {
    NextIdFresh(rows, s.primaryKey);
  }

  /** The table after inserting the records one after another, each getting an identity past the previous ones. */
  function BulkRows(s: Schema, rows: seq<Row>, records: seq<map<string, Value>>): (r: seq<Row>)
    decreases |records|
  {
    if records == [] then rows
    else
      var prev := BulkRows(s, rows, records[..|records| - 1]);
      prev + [NewRow(s, prev, records[|records| - 1])]
  }

  /** A bulk insert keeps the old rows as a prefix and appends exactly one new row per record, in order. */
  lemma {:induction false} BulkRowsShape(s: Schema, rows: seq<Row>, records: seq<map<string, Value>>)
    ensures var r := BulkRows(s, rows, records);
      && |r| == |rows| + |records|
      && r[..|rows|] == rows
      && forall k | 0 <= k < |records| :: r[|rows| + k] == NewRow(s, r[..|rows| + k], records[k])
  {
    if records != [] {
      var n := |records| - 1;
      var prev := BulkRows(s, rows, records[..n]);
      BulkRowsShape(s, rows, records[..n]);
      var r := BulkRows(s, rows, records);
      assert r == prev + [NewRow(s, prev, records[n])];
      assert r[..|rows|] == prev[..|rows|];
      forall k | 0 <= k < |records|
        ensures r[|rows| + k] == NewRow(s, r[..|rows| + k], records[k])
      {
        if k < n {
          assert r[..|rows| + k] == prev[..|rows| + k];
          assert records[..n][k] == records[k];
        } else {
          assert r[..|rows| + k] == prev;
        }
      }
    }
  }
}
