/**
 * The query side of the record store: the row predicates the manager builds
 * (equality filters joined by AND or OR, operator conditions), what a query
 * returns, paging, bulk updates, deletes and the integer aggregates.
 */
module Query {
  import opened Records

  /** The value part of an operator condition: one value, or a list for `in`. */
  datatype Operand = One(v: Value) | Many(vs: seq<Value>)

  /** A `(column, operator, value)` triple. */
  datatype Condition = Condition(column: string, op: string, operand: Operand)

  /** The operators the condition dispatch recognises; any other is skipped. */
  predicate KnownOperator(op: string) {
    op in {"eq", "ne", "gt", "gte", "lt", "lte", "like", "in"}
  }

  /** Lexicographic order on text (binary collation). */
  predicate TextLess(x: string, y: string)
    decreases |x|
  {
    if x == [] then y != []
    else if y == [] then false
    else if x[0] != y[0] then x[0] < y[0]
    else TextLess(x[1..], y[1..])
  }

  /** Strict order between two values of the same kind; NULL and mixed kinds compare false. */
  predicate Less(a: Value, b: Value) {
    match (a, b)
    case (Int(x), Int(y)) => x < y
    case (Text(x), Text(y)) => TextLess(x, y)
    case (Bool(x), Bool(y)) => !x && y
    case _ => false
  }

  /** `s` occurs in `t` as a contiguous substring. */
  predicate Contains(t: string, s: string) {
    exists k | 0 <= k <= |t| - |s| :: OccursAt(t, s, k)
  }

  predicate OccursAt(t: string, s: string, k: nat) {
    k + |s| <= |t| && t[k..k + |s|] == s
  }

  /** A recognised operator given the wrong kind of operand: the engine rejects the query. */
  predicate Malformed(c: Condition) {
    && KnownOperator(c.op)
    && (if c.op == "in" then c.operand.One? else c.op != "like" && c.operand.Many?)
  }

  // ----- text forms, for `like` -----

  /** The decimal digits of a natural number, most significant first. */
  function Digits(n: nat): (s: string)
    ensures |s| >= 1
    ensures forall k | 0 <= k < |s| :: '0' <= s[k] <= '9'
    decreases n
  {
    var last := "0123456789"[n % 10];
    if n < 10 then [last] else Digits(n / 10) + [last]
  }

  /** The number a string of decimal digits denotes. */
  function DigitsValue(s: string): nat
    decreases |s|
  {
    if s == [] then 0
    else
      var d := s[|s| - 1];
      DigitsValue(s[..|s| - 1]) * 10 + (if '0' <= d <= '9' then (d as int) - ('0' as int) else 0)
  }

  /** Reading back the digits of a number gives the number. */
  lemma {:induction false} DigitsRoundTrip(n: nat)
    ensures DigitsValue(Digits(n)) == n
    decreases n
  {
    var last := "0123456789"[n % 10];
    assert (last as int) - ('0' as int) == n % 10;
    if n >= 10 {
      var s := Digits(n / 10) + [last];
      assert s[..|s| - 1] == Digits(n / 10);
      DigitsRoundTrip(n / 10);
    } else {
      assert [last][..0] == [];
    }
  }

  /** Python's `str` of an integer, also the text SQLite gives an INTEGER: an optional minus sign, then digits. */
  function Decimal(i: int): string {
    if i < 0 then "-" + Digits(-i) else Digits(i)
  }

  /** Python's `str` of a payload value, which the f-string `%{value}%` embeds. */
  function PyStr(v: Value): string {
    match v
    case Int(i) => Decimal(i)
    case Text(s) => s
    case Bool(b) => if b then "True" else "False"
    case Null => "None"
  }

  /** Python's `repr` of a list element: text is quoted. */
  function PyRepr(v: Value): string {
    if v.Text? then "'" + v.s + "'" else PyStr(v)
  }

  /** The elements' reprs separated by `, `. */
  function PyJoin(vs: seq<Value>): string
    decreases |vs|
  {
    if vs == [] then ""
    else if |vs| == 1 then PyRepr(vs[0])
    else PyJoin(vs[..|vs| - 1]) + ", " + PyRepr(vs[|vs| - 1])
  }

  /** Python's `str` of a list. */
  function PyList(vs: seq<Value>): string {
    "[" + PyJoin(vs) + "]"
  }

  /** The text SQLite matches a stored cell against; booleans are stored as 1 and 0, NULL has none. */
  function CellText(cell: Value): Option<string> {
    match cell
    case Int(i) => Some(Decimal(i))
    case Text(s) => Some(s)
    case Bool(b) => Some(if b then "1" else "0")
    case Null => None
  }

  /** `cell LIKE '%pattern%'`, without wildcards inside the pattern or case folding. */
  predicate LikeHolds(cell: Value, pattern: string) {
    CellText(cell).Some? && Contains(CellText(cell).value, pattern)
  }

  /**
   * One condition on one cell, with SQL's NULL rules: equality with NULL is
   * IS NULL, inequality with a value excludes NULL cells, comparisons,
   * patterns and membership never hold of a NULL cell. The `like` pattern is
   * the operand's Python text form, whatever its kind.
   */
  predicate CondHolds(cell: Value, op: string, operand: Operand): (b: bool)
    ensures b ==> KnownOperator(op)
    ensures cell == Null ==> (b <==> op == "eq" && operand == One(Null))
  {
    match operand
    case One(v) =>
      if op == "eq" then cell == v
      else if op == "ne" then cell != Null && cell != v
      else if op == "gt" then Less(v, cell)
      else if op == "gte" then Less(v, cell) || (cell != Null && cell == v)
      else if op == "lt" then Less(cell, v)
      else if op == "lte" then Less(cell, v) || (cell != Null && cell == v)
      else if op == "like" then LikeHolds(cell, PyStr(v))
      else false
    case Many(vs) =>
      if op == "in" then cell != Null && cell in vs
      else if op == "like" then LikeHolds(cell, PyList(vs))
      else false
  }

  /** The WHERE clause of a query. */
  datatype Pred =
    | AllEq(pairs: map<string, Value>)
    | AnyEq(pairs: map<string, Value>)
    | Conds(conds: seq<Condition>)
    | Not(p: Pred)

  predicate Holds(p: Pred, r: Row) {
    match p
    case AllEq(f) => forall k | k in f :: k in r && r[k] == f[k]
    case AnyEq(f) => exists k | k in f :: k in r && r[k] == f[k]
    case Conds(cs) => forall c | c in cs :: c.column in r && CondHolds(r[c.column], c.op, c.operand)
    case Not(q) => !Holds(q, r)
  }

  /** The filter on the `id` attribute used by the by-id operations. */
  function IdEq(id: int): Pred {
    AllEq(map["id" := Int(id)])
  }

  /** A row passes the by-id filter iff its `id` column holds that integer. */
  lemma HoldsIdEq(id: int, r: Row)
    ensures Holds(IdEq(id), r) <==> "id" in r && r["id"] == Int(id)
  {
    assert "id" in map["id" := Int(id)];
  }

  /** The rows a query selects, in storage order. */
  function Where(rows: seq<Row>, p: Pred): (r: seq<Row>)
    ensures |r| <= |rows|
  {
    if rows == [] then []
    else
      var n := |rows| - 1;
      Where(rows[..n], p) + (if Holds(p, rows[n]) then [rows[n]] else [])
  }

  /** A row is selected iff it is in the table and satisfies the predicate. */
  lemma {:induction false} WhereMember(rows: seq<Row>, p: Pred, x: Row)
    ensures x in Where(rows, p) <==> x in rows && Holds(p, x)
  {
    if rows != [] {
      var n := |rows| - 1;
      WhereMember(rows[..n], p, x);
      assert rows == rows[..n] + [rows[n]];
    }
  }

  /** A predicate that every row satisfies selects the whole table, in order. */
  lemma {:induction false} WhereEvery(rows: seq<Row>, p: Pred)
    requires forall i | 0 <= i < |rows| :: Holds(p, rows[i])
    ensures Where(rows, p) == rows
  {
    if rows != [] {
      var n := |rows| - 1;
      WhereEvery(rows[..n], p);
      assert rows == rows[..n] + [rows[n]];
    }
  }

  /** Some row is selected iff some row satisfies the predicate. */
  lemma {:induction false} WhereNonEmpty(rows: seq<Row>, p: Pred)
    ensures Where(rows, p) != [] <==> exists i | 0 <= i < |rows| :: Holds(p, rows[i])
  {
    if rows != [] {
      var n := |rows| - 1;
      var pre := rows[..n];
      WhereNonEmpty(pre, p);
      assert Where(rows, p) == Where(pre, p) + (if Holds(p, rows[n]) then [rows[n]] else []);
      if exists i | 0 <= i < |rows| :: Holds(p, rows[i]) {
        var i :| 0 <= i < |rows| && Holds(p, rows[i]);
        if i < n {
          assert pre[i] == rows[i];
        }
      }
      if exists i | 0 <= i < n :: Holds(p, pre[i]) {
        var i :| 0 <= i < n && Holds(p, pre[i]);
        assert pre[i] == rows[i];
      }
    }
  }

  /** Selecting with a predicate or with its negation splits the table. */
  lemma {:induction false} WherePartition(rows: seq<Row>, p: Pred)
    ensures |Where(rows, p)| + |Where(rows, Not(p))| == |rows|
  {
    if rows != [] {
      WherePartition(rows[..|rows| - 1], p);
    }
  }

  /** Appending a row appends it to the selection iff it satisfies the predicate. */
  lemma WhereSnoc(rows: seq<Row>, x: Row, p: Pred)
    ensures Where(rows + [x], p) == Where(rows, p) + if Holds(p, x) then [x] else []
  {
    assert (rows + [x])[..|rows|] == rows;
  }

  /** Selecting from a concatenation selects from each part. */
  lemma {:induction false} WhereConcat(a: seq<Row>, b: seq<Row>, p: Pred)
    ensures Where(a + b, p) == Where(a, p) + Where(b, p)
  {
    if b == [] {
      assert a + b == a;
    } else {
      var n := |b| - 1;
      assert a + b == (a + b[..n]) + [b[n]];
      assert b == b[..n] + [b[n]];
      WhereSnoc(a + b[..n], b[n], p);
      WhereSnoc(b[..n], b[n], p);
      WhereConcat(a, b[..n], p);
    }
  }

  /** Removing rows never breaks the table's integrity constraints. */
  lemma {:induction false} WhereConsistent(s: Schema, rows: seq<Row>, p: Pred)
    requires Consistent(s, rows)
    ensures Consistent(s, Where(rows, p))
  {
    if rows != [] {
      var n := |rows| - 1;
      var w := Where(rows[..n], p);
      WhereConsistent(s, rows[..n], p);
      if Holds(p, rows[n]) {
        var w' := w + [rows[n]];
        assert Where(rows, p) == w';
        assert w'[..|w|] == w;
        forall x | x in w ensures !Clash(s, x, rows[n]) {
          WhereMember(rows[..n], p, x);
        }
        assert Consistent(s, w'[..|w|]);
      } else {
        assert Where(rows, p) == w;
      }
    }
  }

  // ----- equality filters -----

  /** The pairs whose key names a column of the model; the others are dropped without an error. */
  function Recognised(columns: set<string>, pairs: map<string, Value>): map<string, Value> {
    map k | k in pairs && k in columns :: pairs[k]
  }

  /** The rows an equality-AND filter selects (count, exists, bulk update, delete). */
  function Matching(columns: set<string>, rows: seq<Row>, filters: map<string, Value>): seq<Row> {
    Where(rows, AllEq(Recognised(columns, filters)))
  }

  /** The rows a filtered read returns: with no filter, or none recognised, the whole table. */
  function FilterResult(columns: set<string>, rows: seq<Row>, filters: map<string, Value>, useOr: bool): seq<Row> {
    var rec := Recognised(columns, filters);
    if |filters| == 0 || |rec| == 0 then rows
    else if useOr then Where(rows, AnyEq(rec))
    else Where(rows, AllEq(rec))
  }

  /**
   * A filtered read returns exactly the table rows that match all recognised
   * pairs (AND) or at least one of them (OR); when no pair is recognised it
   * returns every row, under OR as well as under AND.
   */
  lemma FilterResultMember(columns: set<string>, rows: seq<Row>, filters: map<string, Value>, useOr: bool, x: Row)
    ensures var rec := Recognised(columns, filters);
      x in FilterResult(columns, rows, filters, useOr) <==>
        x in rows &&
        (rec == map[] ||
         (useOr && exists k | k in rec :: k in x && x[k] == rec[k]) ||
         (!useOr && forall k | k in rec :: k in x && x[k] == rec[k]))
  {
    var rec := Recognised(columns, filters);
    if |filters| != 0 && |rec| != 0 {
      WhereMember(rows, if useOr then AnyEq(rec) else AllEq(rec), x);
    } else if |filters| == 0 {
      assert rec == map[];
    }
  }

  /** Counting under a filter gives the length of the AND-filtered read with the same filter. */
  lemma CountIsFilteredReadLength(columns: set<string>, rows: seq<Row>, filters: map<string, Value>)
    ensures |Matching(columns, rows, filters)| == |FilterResult(columns, rows, filters, false)|
  {
    var rec := Recognised(columns, filters);
    if |filters| == 0 || |rec| == 0 {
      assert rec == map[];
      WhereEvery(rows, AllEq(rec));
    }
  }

  /** Some row matches the equality-AND filter iff the count under that filter is positive. */
  lemma ExistsIffCountPositive(columns: set<string>, rows: seq<Row>, filters: map<string, Value>)
    ensures (exists i | 0 <= i < |rows| :: Holds(AllEq(Recognised(columns, filters)), rows[i])) <==>
      |Matching(columns, rows, filters)| > 0
  {
    WhereNonEmpty(rows, AllEq(Recognised(columns, filters)));
  }

  /** A filter none of whose keys is a column matches every row. */
  lemma UnrecognisedFilterMatchesAll(columns: set<string>, rows: seq<Row>, filters: map<string, Value>)
    requires filters.Keys !! columns
    ensures Matching(columns, rows, filters) == rows
  {
    assert Recognised(columns, filters) == map[];
    WhereEvery(rows, AllEq(map[]));
  }

  // ----- operator conditions -----

  /** The conditions that constrain the query: known column and known operator, in order. */
  function Active(columns: set<string>, cs: seq<Condition>): (r: seq<Condition>)
    ensures |r| <= |cs|
  {
    if cs == [] then []
    else
      var n := |cs| - 1;
      Active(columns, cs[..n]) + (if cs[n].column in columns && KnownOperator(cs[n].op) then [cs[n]] else [])
  }

  lemma {:induction false} ActiveMember(columns: set<string>, cs: seq<Condition>, c: Condition)
    ensures c in Active(columns, cs) <==> c in cs && c.column in columns && KnownOperator(c.op)
  {
    if cs != [] {
      var n := |cs| - 1;
      ActiveMember(columns, cs[..n], c);
      assert cs == cs[..n] + [cs[n]];
    }
  }

  /** Some condition on a known column gives its operator the wrong kind of operand. */
  predicate AnyMalformed(columns: set<string>, cs: seq<Condition>)
    decreases |cs|
  {
    if cs == [] then false
    else
      var n := |cs| - 1;
      AnyMalformed(columns, cs[..n]) || (cs[n].column in columns && Malformed(cs[n]))
  }

  /** The rows a condition read returns: none when the engine rejects the query. */
  function ConditionsResult(columns: set<string>, rows: seq<Row>, cs: seq<Condition>): seq<Row> {
    if AnyMalformed(columns, cs) then [] else Where(rows, Conds(Active(columns, cs)))
  }

  /**
   * A condition read returns exactly the table rows satisfying every condition
   * whose column exists and whose operator is known; the other conditions
   * impose nothing.
   */
  lemma ConditionsResultMember(columns: set<string>, rows: seq<Row>, cs: seq<Condition>, x: Row)
    requires !AnyMalformed(columns, cs)
    ensures x in ConditionsResult(columns, rows, cs) <==>
      x in rows &&
      forall c | c in cs && c.column in columns && KnownOperator(c.op) ::
        c.column in x && CondHolds(x[c.column], c.op, c.operand)
  {
    var act := Active(columns, cs);
    WhereMember(rows, Conds(act), x);
    forall c ensures c in act <==> c in cs && c.column in columns && KnownOperator(c.op) {
      ActiveMember(columns, cs, c);
    }
  }

  /** Appending a condition on an unknown column or with an unknown operator changes nothing. */
  lemma IgnoredConditionChangesNothing(columns: set<string>, rows: seq<Row>, cs: seq<Condition>, c: Condition)
    requires c.column !in columns || !KnownOperator(c.op)
    ensures ConditionsResult(columns, rows, cs + [c]) == ConditionsResult(columns, rows, cs)
  {
    var cs' := cs + [c];
    assert cs'[..|cs|] == cs;
    assert Active(columns, cs') == Active(columns, cs);
    assert AnyMalformed(columns, cs') == AnyMalformed(columns, cs);
  }

  // ----- paging -----

  /** Skip `offset` rows (a negative offset skips none), then keep at most `limit` (none, 0 or negative: no bound). */
  function Page(rows: seq<Row>, offset: int, limit: Option<int>): seq<Row> {
    var start := if offset <= 0 then 0 else if offset < |rows| then offset else |rows|;
    var rest := rows[start..];
    if limit.None? || limit.value <= 0 || |rest| <= limit.value then rest
    else rest[..limit.value]
  }

  /** A page is the run of consecutive rows from the offset, as long as the limit allows. */
  lemma PageShape(rows: seq<Row>, offset: int, limit: Option<int>)
    ensures var start := if offset <= 0 then 0 else if offset < |rows| then offset else |rows|;
      var p := Page(rows, offset, limit);
      && |p| == (if limit.Some? && 0 < limit.value < |rows| - start then limit.value else |rows| - start)
      && forall k | 0 <= k < |p| :: p[k] == rows[start + k]
  {
  }

  // ----- updates -----

  /** A row with the recognised columns set to their new values. */
  function Updated(r: Row, u: map<string, Value>): Row {
    map c | c in r :: if c in u then u[c] else r[c]
  }

  /** The table after a bulk update of the rows the predicate selects. */
  function UpdateRows(rows: seq<Row>, p: Pred, u: map<string, Value>): (r: seq<Row>)
    ensures |r| == |rows|
  {
    seq(|rows|, i requires 0 <= i < |rows| => if Holds(p, rows[i]) then Updated(rows[i], u) else rows[i])
  }

  /**
   * The table an update commits: none when no update key names a column
   * (nothing is executed) or when the result violates a constraint.
   */
  function UpdateOutcome(s: Schema, rows: seq<Row>, p: Pred, updates: map<string, Value>): Option<seq<Row>> {
    var u := Recognised(s.columns, updates);
    if u == map[] then None
    else
      var next := UpdateRows(rows, p, u);
      if Consistent(s, next) then Some(next) else None
  }

  /**
   * A committed update changes only the selected rows and, in them, only the
   * recognised columns; every other row and column is as before.
   */
  lemma UpdateOutcomeFrame(s: Schema, rows: seq<Row>, p: Pred, updates: map<string, Value>)
    requires UpdateOutcome(s, rows, p, updates).Some?
    ensures var next := UpdateOutcome(s, rows, p, updates).value;
      && Recognised(s.columns, updates) != map[]
      && |next| == |rows|
      && (forall i | 0 <= i < |rows| && !Holds(p, rows[i]) :: next[i] == rows[i])
      && (forall i | 0 <= i < |rows| && Holds(p, rows[i]) ::
            next[i].Keys == rows[i].Keys &&
            forall c | c in rows[i] :: next[i][c] == if c in updates && c in s.columns then updates[c] else rows[i][c])
  {
  }

  /** An update that matches no row still commits and leaves the rows as they were. */
  lemma UpdateWithoutMatch(s: Schema, rows: seq<Row>, p: Pred, updates: map<string, Value>)
    requires Consistent(s, rows)
    requires Recognised(s.columns, updates) != map[]
    requires forall i | 0 <= i < |rows| :: !Holds(p, rows[i])
    ensures UpdateOutcome(s, rows, p, updates) == Some(rows)
  {
    assert UpdateRows(rows, p, Recognised(s.columns, updates)) == rows;
  }

  /** Updates naming no column leave the table alone and report failure. */
  lemma UpdateWithoutColumns(s: Schema, rows: seq<Row>, p: Pred, updates: map<string, Value>)
    requires updates.Keys !! s.columns
    ensures UpdateOutcome(s, rows, p, updates) == None
  {
    assert Recognised(s.columns, updates) == map[];
  }

  /** Applying the same update twice with the same filter gives the table the first application gave. */
  lemma UpdateRowsIdempotent(rows: seq<Row>, p: Pred, u: map<string, Value>)
    ensures UpdateRows(UpdateRows(rows, p, u), p, u) == UpdateRows(rows, p, u)
  {
    var once := UpdateRows(rows, p, u);
    forall i | 0 <= i < |rows| ensures UpdateRows(once, p, u)[i] == once[i] {
      if Holds(p, rows[i]) {
        assert Updated(Updated(rows[i], u), u) == Updated(rows[i], u);
      }
    }
  }

  // ----- aggregates -----

  function Sum(xs: seq<int>): int {
    if xs == [] then 0 else Sum(xs[..|xs| - 1]) + xs[|xs| - 1]
  }

  /** Summing distributes over concatenation. */
  lemma {:induction false} SumConcat(a: seq<int>, b: seq<int>)
    ensures Sum(a + b) == Sum(a) + Sum(b)
  {
    if b == [] {
      assert a + b == a;
    } else {
      var n := |b| - 1;
      assert (a + b)[..|a| + n] == a + b[..n];
      assert (a + b)[|a| + n] == b[n];
      SumConcat(a, b[..n]);
    }
  }

  /** The column sum over a table split in two parts is the sum of the parts' column sums. */
  lemma ColumnSumSplits(a: seq<Row>, b: seq<Row>, col: string)
    ensures Sum(IntCells(a + b, col)) == Sum(IntCells(a, col)) + Sum(IntCells(b, col))
  {
    IntCellsConcat(a, b, col);
    SumConcat(IntCells(a, col), IntCells(b, col));
  }

  // ----- 64-bit integer SUM -----

  const MinInt64: int := -0x8000_0000_0000_0000
  const MaxInt64: int := 0x7FFF_FFFF_FFFF_FFFF

  predicate InInt64(x: int) {
    MinInt64 <= x <= MaxInt64
  }

  /** SQLite adds the integers in row order and raises "integer overflow" once a partial sum leaves 64 bits. */
  predicate SumFits(xs: seq<int>)
    decreases |xs|
  {
    xs == [] || (SumFits(xs[..|xs| - 1]) && InInt64(Sum(xs)))
  }

  /** SQL SUM of a column's integers: NULL for none, and the caller's None when the engine reports overflow. */
  function SqlSum(xs: seq<int>): (r: Option<int>)
    ensures r.Some? <==> xs != [] && SumFits(xs)
    ensures r.Some? ==> r.value == Sum(xs) && InInt64(r.value)
  {
    if xs != [] && SumFits(xs) then Some(Sum(xs)) else None
  }

  /** Adding one more value: the total grows by it, and it fits iff the old total did and the new one does. */
  lemma SumSnoc(xs: seq<int>, x: int)
    ensures Sum(xs + [x]) == Sum(xs) + x
    ensures SumFits(xs + [x]) <==> SumFits(xs) && InInt64(Sum(xs) + x)
  {
    assert (xs + [x])[..|xs|] == xs;
  }

  /** The sum fits iff every non-empty prefix sum is a 64-bit integer. */
  lemma {:induction false} SumFitsPrefixes(xs: seq<int>)
    ensures SumFits(xs) <==> forall k | 1 <= k <= |xs| :: InInt64(Sum(xs[..k]))
    decreases |xs|
  {
    if xs != [] {
      var n := |xs| - 1;
      SumFitsPrefixes(xs[..n]);
      assert forall k | 1 <= k <= n :: xs[..n][..k] == xs[..k];
      assert xs[..|xs|] == xs;
    }
  }

  /** A sum of naturals is a natural. */
  lemma {:induction false} SumNonNegative(xs: seq<int>)
    requires forall k | 0 <= k < |xs| :: 0 <= xs[k]
    ensures 0 <= Sum(xs)
    decreases |xs|
  {
    if xs != [] {
      SumNonNegative(xs[..|xs| - 1]);
    }
  }

  /** With no negative values, only the total can overflow: a total within 64 bits means SUM succeeds. */
  lemma {:induction false} SumFitsNonNegative(xs: seq<int>)
    requires forall k | 0 <= k < |xs| :: 0 <= xs[k]
    requires InInt64(Sum(xs))
    ensures SumFits(xs)
    decreases |xs|
  {
    if xs != [] {
      var pre := xs[..|xs| - 1];
      SumNonNegative(pre);
      SumFitsNonNegative(pre);
    }
  }

  /** What one more row adds to a column's integers, their sum and whether the sum still fits. */
  lemma ColumnSumStep(rows: seq<Row>, i: nat, col: string)
    requires i < |rows|
    ensures var before := IntCells(rows[..i], col);
      var cell := if col in rows[i] && rows[i][col].Int? then [rows[i][col].i] else [];
      && IntCells(rows[..i + 1], col) == before + cell
      && Sum(before + cell) == Sum(before) + (if cell == [] then 0 else cell[0])
      && (SumFits(before + cell) <==> SumFits(before) && (cell == [] || InInt64(Sum(before) + cell[0])))
  {
    assert rows[..i + 1][..i] == rows[..i] && rows[..i + 1][i] == rows[i];
    var before := IntCells(rows[..i], col);
    if col in rows[i] && rows[i][col].Int? {
      SumSnoc(before, rows[i][col].i);
    } else {
      assert before + [] == before;
    }
  }
}
