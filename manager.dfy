/**
 * The generic table-driven database manager. Each operation takes a table
 * name and loosely typed column/value maps, resolves the mapped record type
 * by a linear search over the registry, and runs as one atomic unit of work
 * on the store: it commits or leaves the store exactly as it was.
 *
 * The source tests `hasattr(model, key)`, which accepts any class attribute;
 * the model approximates it by membership in the record type's column set.
 */
module Manager {
  import opened Records
  import opened Query
  import opened Registry

  /** The loop that keeps the payload pairs whose key is a column (filter conditions, update dictionaries). */
  method Recognise(columns: set<string>, pairs: map<string, Value>) returns (kept: map<string, Value>)
    ensures kept.Keys == pairs.Keys * columns
    ensures forall k | k in kept :: kept[k] == pairs[k]
    ensures kept == Recognised(columns, pairs)
  {
    kept := map[];
    var pending := pairs.Keys;
    while pending != {}
      invariant pending <= pairs.Keys
      invariant kept.Keys == (pairs.Keys - pending) * columns
      invariant forall k | k in kept :: kept[k] == pairs[k]
      decreases pending
    {
      var k :| k in pending;
      if k in columns {
        kept := kept[k := pairs[k]];
      }
      pending := pending - {k};
    }
    assert kept.Keys == Recognised(columns, pairs).Keys;
  }

  /** The dictionary of a stored row: every column of the record type with its value. */
  method ToDict(s: Schema, r: Row) returns (d: Row)
    requires r.Keys == s.columns
    ensures d.Keys == s.columns
    ensures d == r
  {
    ProjectStored(s, r);
    d := Project(s, r);
  }

  /** Runs a query over a table and hands back each selected row as a dictionary of all columns. */
  method Scan(s: Schema, rows: seq<Row>, p: Pred) returns (hits: seq<Row>)
    requires forall i | 0 <= i < |rows| :: rows[i].Keys == s.columns
    ensures hits == Where(rows, p)
  {
    hits := [];
    for i := 0 to |rows|
      invariant hits == Where(rows[..i], p)
    {
      assert rows[..i + 1][..i] == rows[..i];
      if Holds(p, rows[i]) {
        var d := ToDict(s, rows[i]);
        hits := hits + [d];
      }
    }
    assert rows[..|rows|] == rows;
  }

  /** Counts the rows a query selects. */
  method CountWhere(rows: seq<Row>, p: Pred) returns (n: nat)
    ensures n == |Where(rows, p)|
  {
    n := 0;
    for i := 0 to |rows|
      invariant n == |Where(rows[..i], p)|
    {
      assert rows[..i + 1][..i] == rows[..i];
      if Holds(p, rows[i]) {
        n := n + 1;
      }
    }
    assert rows[..|rows|] == rows;
  }

  /** Whether the query selects any row (an EXISTS subquery). */
  method AnyRow(rows: seq<Row>, p: Pred) returns (found: bool)
    ensures found <==> exists i | 0 <= i < |rows| :: Holds(p, rows[i])
  {
    for i := 0 to |rows|
      invariant forall j | 0 <= j < i :: !Holds(p, rows[j])
    {
      if Holds(p, rows[i]) {
        return true;
      }
    }
    return false;
  }

  /** Whether some row matches the equality-AND filter over the recognised keys. */
  method AnyMatching(columns: set<string>, rows: seq<Row>, filters: map<string, Value>) returns (found: bool)
    ensures found <==> exists i | 0 <= i < |rows| :: Holds(AllEq(Recognised(columns, filters)), rows[i])
  {
    var criteria := Recognise(columns, filters);
    found := AnyRow(rows, AllEq(criteria));
  }

  /** The first row a query selects, as a dictionary. */
  method First(s: Schema, rows: seq<Row>, p: Pred) returns (r: Option<Row>)
    requires forall i | 0 <= i < |rows| :: rows[i].Keys == s.columns
    ensures r.None? <==> forall i | 0 <= i < |rows| :: !Holds(p, rows[i])
    ensures r.Some? ==>
      exists i | 0 <= i < |rows| ::
        && rows[i] == r.value
        && Holds(p, r.value)
        && forall j | 0 <= j < i :: !Holds(p, rows[j])
  {
    for i := 0 to |rows|
      invariant forall j | 0 <= j < i :: !Holds(p, rows[j])
    {
      if Holds(p, rows[i]) {
        var d := ToDict(s, rows[i]);
        return Some(d);
      }
    }
    return None;
  }

  /** The rows from position `start` up to `stop`, as dictionaries. */
  method Slice(s: Schema, rows: seq<Row>, start: nat, stop: nat) returns (out: seq<Row>)
    requires forall i | 0 <= i < |rows| :: rows[i].Keys == s.columns
    requires start <= stop <= |rows|
    ensures out == rows[start..stop]
  {
    out := [];
    for i := start to stop
      invariant out == rows[start..i]
    {
      var d := ToDict(s, rows[i]);
      out := out + [d];
    }
  }

  /** The page is the slice between the clamped offset and the clamped end. */
  lemma PageSlice(rows: seq<Row>, offset: int, limit: Option<int>, start: nat, stop: nat)
    requires start == if offset <= 0 then 0 else if offset < |rows| then offset else |rows|
    requires stop == if limit.Some? && 0 < limit.value < |rows| - start then start + limit.value else |rows|
    ensures start <= stop <= |rows| && rows[start..stop] == Page(rows, offset, limit)
  {
    if limit.Some? && 0 < limit.value < |rows| - start {
      assert rows[start..][..limit.value] == rows[start..stop];
    }
  }

  /** SQL MIN over a column: the smallest integer, nothing when the column holds none. */
  method ColumnMin(rows: seq<Row>, column: string) returns (m: Option<int>)
    ensures m.None? <==> IntCells(rows, column) == []
    ensures m.Some? ==> m.value in IntCells(rows, column) && forall x | x in IntCells(rows, column) :: m.value <= x
  {
    m := None;
    for i := 0 to |rows|
      invariant m.None? <==> IntCells(rows[..i], column) == []
      invariant m.Some? ==>
        m.value in IntCells(rows[..i], column) && forall x | x in IntCells(rows[..i], column) :: m.value <= x
    {
      assert rows[..i + 1][..i] == rows[..i];
      if column in rows[i] && rows[i][column].Int? {
        var v := rows[i][column].i;
        if m.None? || v < m.value {
          m := Some(v);
        }
      }
    }
    assert rows[..|rows|] == rows;
  }

  /** SQL MAX over a column: the largest integer, nothing when the column holds none. */
  method ColumnMax(rows: seq<Row>, column: string) returns (m: Option<int>)
    ensures m.None? <==> IntCells(rows, column) == []
    ensures m.Some? ==> m.value in IntCells(rows, column) && forall x | x in IntCells(rows, column) :: x <= m.value
  {
    m := None;
    for i := 0 to |rows|
      invariant m.None? <==> IntCells(rows[..i], column) == []
      invariant m.Some? ==>
        m.value in IntCells(rows[..i], column) && forall x | x in IntCells(rows[..i], column) :: x <= m.value
    {
      assert rows[..i + 1][..i] == rows[..i];
      if column in rows[i] && rows[i][column].Int? {
        var v := rows[i][column].i;
        if m.None? || m.value < v {
          m := Some(v);
        }
      }
    }
    assert rows[..|rows|] == rows;
  }

  /** SQL SUM over a column: the total of the integers, nothing for none or when a partial sum overflows 64 bits. */
  method ColumnSum(rows: seq<Row>, column: string) returns (total: Option<int>)
    ensures total == SqlSum(IntCells(rows, column))
  {
    var acc := 0;
    var seen := false;
    var overflow := false;
    for i := 0 to |rows|
      invariant acc == Sum(IntCells(rows[..i], column))
      invariant seen == (IntCells(rows[..i], column) != [])
      invariant overflow == !SumFits(IntCells(rows[..i], column))
    {
      ColumnSumStep(rows, i, column);
      if column in rows[i] && rows[i][column].Int? {
        acc := acc + rows[i][column].i;
        seen := true;
        if !InInt64(acc) {
          // the engine raises "integer overflow"
          overflow := true;
        }
      }
    }
    assert rows[..|rows|] == rows;
    total := if seen && !overflow then Some(acc) else None;
  }

  /** A bulk UPDATE: the new table and the number of rows the WHERE clause matched. */
  method ApplyUpdate(rows: seq<Row>, p: Pred, u: map<string, Value>) returns (next: seq<Row>, matched: nat)
    ensures next == UpdateRows(rows, p, u)
    ensures matched == |Where(rows, p)|
  {
    next := [];
    matched := 0;
    for i := 0 to |rows|
      invariant |next| == i
      invariant forall k | 0 <= k < i :: next[k] == if Holds(p, rows[k]) then Updated(rows[k], u) else rows[k]
      invariant matched == |Where(rows[..i], p)|
    {
      assert |Where(rows[..i + 1], p)| == |Where(rows[..i], p)| + if Holds(p, rows[i]) then 1 else 0 by {
        assert rows[..i + 1] == rows[..i] + [rows[i]];
        WhereSnoc(rows[..i], rows[i], p);
      }
      if Holds(p, rows[i]) {
        next := next + [Updated(rows[i], u)];
        matched := matched + 1;
      } else {
        next := next + [rows[i]];
      }
    }
    assert rows[..|rows|] == rows;
    assert next == UpdateRows(rows, p, u) by {
      var all := UpdateRows(rows, p, u);
      assert forall k | 0 <= k < |rows| :: next[k] == all[k];
    }
  }

  /** A DELETE: the rows that remain, in order, and the number removed. */
  method Remove(rows: seq<Row>, p: Pred) returns (kept: seq<Row>, removed: nat)
    ensures kept == Where(rows, Not(p))
    ensures removed == |Where(rows, p)|
    ensures removed + |kept| == |rows|
  {
    kept := [];
    removed := 0;
    for i := 0 to |rows|
      invariant kept == Where(rows[..i], Not(p))
      invariant removed == |Where(rows[..i], p)|
    {
      assert rows[..i + 1][..i] == rows[..i];
      if Holds(p, rows[i]) {
        removed := removed + 1;
      } else {
        kept := kept + [rows[i]];
      }
    }
    assert rows[..|rows|] == rows;
    WherePartition(rows, p);
  }

  class DatabaseManager {
    /** The mapped record types of the declarative base, in registry order. */
    const models: seq<Schema>
    /** The tables that exist in the database, each with its rows in storage order. */
    var tables: map<string, seq<Row>>

    ghost predicate Valid()
      reads this
    {
      RegistryOk(models) && StoreOk(models, tables)
    }

    /** A manager over a registry and a database that already holds `existing`. */
    constructor (registry: seq<Schema>, existing: map<string, seq<Row>>)
      requires RegistryOk(registry) && StoreOk(registry, existing)
      ensures Valid() && models == registry && tables == existing
    {
      models := registry;
      tables := existing;
    }

    /** The name resolves to a model and its table exists. */
    predicate Live(name: string)
      reads this
    {
      Lookup(models, name).Some? && name in tables
    }

    function RowsOf(name: string): seq<Row>
      reads this
    {
      if name in tables then tables[name] else []
    }

    function SchemaOf(name: string): Schema
      requires Lookup(models, name).Some?
    {
      Lookup(models, name).value
    }

    // ==================== schema resolution ====================

    method GetModelByTableName(name: string) returns (m: Option<Schema>)
      ensures m == Lookup(models, name)
      ensures m.Some? ==> m.value.tableName == name
      ensures m.None? <==> name !in Declared(models)
    {
      DeclaredIffResolves(models, name);
      var i := 0;
      assert models[0..] == models;
      while i < |models|
        invariant 0 <= i <= |models|
        invariant Lookup(models, name) == Lookup(models[i..], name)
      {
        LookupFrom(models, name, i);
        if models[i].tableName == name {
          return Some(models[i]);
        }
        i := i + 1;
      }
      return None;
    }

    // ==================== table lifecycle ====================

    /** Create one declared table unless it already exists. */
    method CreateTable(name: string)
      requires Valid() && name in Declared(models)
      modifies this
      ensures Valid()
      ensures tables == AfterCreate(old(tables), {name})
    {
      LifecyclePreservesStore(models, tables, {name});
      AfterCreateOne(tables, name);
      if name !in tables {
        tables := tables[name := []];
      }
    }

    /** Drop one table if it exists. */
    method DropTable(name: string)
      requires Valid()
      modifies this
      ensures Valid()
      ensures tables == AfterDrop(old(tables), {name})
    {
      if name in tables {
        tables := tables - {name};
      }
    }

    /** Create every declared table (no names) or the declared ones among `names`, skipping the rest. */
    method CreateTables(names: Option<seq<string>>)
      requires Valid()
      modifies this
      ensures Valid()
      ensures tables == AfterCreate(old(tables), Targets(models, names))
    {
      match names
      case None =>
        for i := 0 to |models|
          invariant Valid()
          invariant tables == AfterCreate(old(tables), Declared(models[..i]))
        {
          DeclaredStep(models, i);
          CreateTable(models[i].tableName);
          AfterCreateStep(old(tables), Declared(models[..i]), models[i].tableName);
        }
        assert models[..|models|] == models;
      case Some(ns) =>
        for i := 0 to |ns|
          invariant Valid()
          invariant tables == AfterCreate(old(tables), Declared(models) * Named(ns[..i]))
        {
          NamedStep(ns, i);
          var done := Declared(models) * Named(ns[..i]);
          if ns[i] in Declared(models) {
            CreateTable(ns[i]);
            AfterCreateStep(old(tables), done, ns[i]);
            assert Declared(models) * Named(ns[..i + 1]) == done + {ns[i]};
          } else {
            // an undeclared name is reported and skipped
            assert Declared(models) * Named(ns[..i + 1]) == done;
          }
        }
        assert ns[..|ns|] == ns;
    }

    /** Drop every declared table (no names) or the declared ones among `names`, skipping the rest. */
    method DropTables(names: Option<seq<string>>)
      requires Valid()
      modifies this
      ensures Valid()
      ensures tables == AfterDrop(old(tables), Targets(models, names))
    {
      match names
      case None =>
        for i := 0 to |models|
          invariant Valid()
          invariant tables == AfterDrop(old(tables), Declared(models[..i]))
        {
          DeclaredStep(models, i);
          DropTable(models[i].tableName);
          AfterDropStep(old(tables), Declared(models[..i]), models[i].tableName);
        }
        assert models[..|models|] == models;
      case Some(ns) =>
        for i := 0 to |ns|
          invariant Valid()
          invariant tables == AfterDrop(old(tables), Declared(models) * Named(ns[..i]))
        {
          NamedStep(ns, i);
          var done := Declared(models) * Named(ns[..i]);
          if ns[i] in Declared(models) {
            DropTable(ns[i]);
            AfterDropStep(old(tables), done, ns[i]);
            assert Declared(models) * Named(ns[..i + 1]) == done + {ns[i]};
          } else {
            assert Declared(models) * Named(ns[..i + 1]) == done;
          }
        }
        assert ns[..|ns|] == ns;
    }

    // ==================== create ====================

    /**
     * Insert one row; on success hand back the stored row with every column.
     * A key that is not a column makes the record constructor raise, which the
     * manager does not catch, hence the second precondition.
     */
    method Create(name: string, data: map<string, Value>) returns (r: Option<Row>)
      requires Valid()
      requires Lookup(models, name).Some? ==> data.Keys <= SchemaOf(name).columns
      modifies this
      ensures Valid()
      ensures r.Some? <==>
        old(Live(name)) &&
        Consistent(SchemaOf(name), old(RowsOf(name)) + [NewRow(SchemaOf(name), old(RowsOf(name)), data)])
      ensures r.Some? ==>
        && r.value == NewRow(SchemaOf(name), old(RowsOf(name)), data)
        && tables == old(tables)[name := old(RowsOf(name)) + [r.value]]
      ensures r.None? ==> tables == old(tables)
    {
      var model := GetModelByTableName(name);
      if model.None? {
        return None;
      }
      var s := model.value;
      if name !in tables {
        // the INSERT fails: no such table
        return None;
      }
      var rows := tables[name];
      var row := NewRow(s, rows, data);
      if !Consistent(s, rows + [row]) {
        // integrity error: rolled back
        return None;
      }
      StoreReplace(models, tables, name, rows + [row]);
      tables := tables[name := rows + [row]];
      var d := ToDict(s, row);
      r := Some(d);
    }

    /** Insert all records in one unit of work: every row or none. */
    method CreateBulk(name: string, records: seq<map<string, Value>>) returns (ok: bool)
      requires Valid()
      requires Lookup(models, name).Some? ==>
        forall k | 0 <= k < |records| :: records[k].Keys <= SchemaOf(name).columns
      modifies this
      ensures Valid()
      ensures ok <==>
        Lookup(models, name).Some? &&
        (records == [] ||
         (old(Live(name)) && Consistent(SchemaOf(name), BulkRows(SchemaOf(name), old(RowsOf(name)), records))))
      ensures tables ==
        if ok && records != [] then old(tables)[name := BulkRows(SchemaOf(name), old(RowsOf(name)), records)]
        else old(tables)
    {
      var model := GetModelByTableName(name);
      if model.None? {
        return false;
      }
      var s := model.value;
      if records == [] {
        // nothing to flush: the commit runs no statement
        return true;
      }
      if name !in tables {
        return false;
      }
      var rows := tables[name];
      assert RowsOf(name) == rows;
      var batch := rows;
      for k := 0 to |records|
        invariant batch == BulkRows(s, rows, records[..k])
      {
        assert records[..k + 1][..k] == records[..k];
        batch := batch + [NewRow(s, batch, records[k])];
      }
      assert records[..|records|] == records;
      if !Consistent(s, batch) {
        // integrity error: the whole batch is rolled back
        return false;
      }
      StoreReplace(models, tables, name, batch);
      tables := tables[name := batch];
      return true;
    }

    // ==================== read ====================

    /** The first row whose `id` equals `recordId`; the record type must have an `id` attribute. */
    method ReadById(name: string, recordId: int) returns (r: Option<Row>)
      requires Valid()
      requires Lookup(models, name).Some? ==> "id" in SchemaOf(name).columns
      ensures r.None? <==> !Live(name) || forall i | 0 <= i < |RowsOf(name)| :: !Holds(IdEq(recordId), RowsOf(name)[i])
      ensures r.Some? ==>
        exists i | 0 <= i < |RowsOf(name)| ::
          && RowsOf(name)[i] == r.value
          && Holds(IdEq(recordId), r.value)
          && forall j | 0 <= j < i :: !Holds(IdEq(recordId), RowsOf(name)[j])
    {
      var model := GetModelByTableName(name);
      if model.None? {
        return None;
      }
      var s := model.value;
      if name !in tables {
        return None;
      }
      var rows := tables[name];
      StoreTable(models, tables, name);
      ConsistentConform(s, rows);
      assert RowsOf(name) == rows;
      r := First(s, rows, IdEq(recordId));
    }

    /** All rows after skipping `offset`, at most `limit` of them when `limit` is a non-zero number. */
    method ReadAll(name: string, limit: Option<int>, offset: int) returns (result: seq<Row>)
      requires Valid()
      ensures result == if Live(name) then Page(RowsOf(name), offset, limit) else []
    {
      var model := GetModelByTableName(name);
      if model.None? {
        return [];
      }
      var s := model.value;
      if name !in tables {
        return [];
      }
      var rows := tables[name];
      StoreTable(models, tables, name);
      ConsistentConform(s, rows);
      var start := if offset <= 0 then 0 else if offset < |rows| then offset else |rows|;
      var stop := |rows|;
      if limit.Some? && limit.value != 0 {
        // a limit of None or 0 is falsy and adds no LIMIT; a negative LIMIT is unbounded
        if 0 < limit.value < stop - start {
          stop := start + limit.value;
        }
      }
      PageSlice(rows, offset, limit, start, stop);
      assert RowsOf(name) == rows;
      result := Slice(s, rows, start, stop);
    }

    /** Equality filters joined by AND, or by OR when `useOr`; keys that are not columns are dropped. */
    method ReadWithFilter(name: string, useOr: bool, filters: map<string, Value>) returns (result: seq<Row>)
      requires Valid()
      ensures result == if Live(name) then FilterResult(SchemaOf(name).columns, RowsOf(name), filters, useOr) else []
    {
      var model := GetModelByTableName(name);
      if model.None? {
        return [];
      }
      var s := model.value;
      if name !in tables {
        return [];
      }
      var rows := tables[name];
      StoreTable(models, tables, name);
      ConsistentConform(s, rows);
      assert RowsOf(name) == rows;
      if |filters| == 0 {
        result := Scan(s, rows, AllEq(map[]));
        WhereEvery(rows, AllEq(map[]));
        return;
      }
      var conditions := Recognise(s.columns, filters);
      if useOr && |conditions| > 0 {
        result := Scan(s, rows, AnyEq(conditions));
      } else if |conditions| > 0 {
        result := Scan(s, rows, AllEq(conditions));
      } else {
        result := Scan(s, rows, AllEq(map[]));
        WhereEvery(rows, AllEq(map[]));
      }
    }

    /** The conjunction of the `(column, operator, value)` conditions on known columns with known operators. */
    method ReadWithConditions(name: string, conditions: seq<Condition>) returns (result: seq<Row>)
      requires Valid()
      ensures result == if Live(name) then ConditionsResult(SchemaOf(name).columns, RowsOf(name), conditions) else []
    {
      var model := GetModelByTableName(name);
      if model.None? {
        return [];
      }
      var s := model.value;
      var active: seq<Condition> := [];
      var rejected := false;
      for i := 0 to |conditions|
        invariant active == Active(s.columns, conditions[..i])
        invariant rejected == AnyMalformed(s.columns, conditions[..i])
      {
        assert conditions[..i + 1][..i] == conditions[..i];
        var c := conditions[i];
        if c.column in s.columns && KnownOperator(c.op) {
          rejected := rejected || Malformed(c);
          active := active + [c];
        }
      }
      assert conditions[..|conditions|] == conditions;
      if rejected || name !in tables {
        // the engine rejects the query (operand of the wrong kind, or no such table)
        return [];
      }
      var rows := tables[name];
      StoreTable(models, tables, name);
      ConsistentConform(s, rows);
      result := Scan(s, rows, Conds(active));
    }

    /** The number of rows matching the equality-AND filter. */
    method Count(name: string, filters: map<string, Value>) returns (n: nat)
      requires Valid()
      ensures n == if Live(name) then |Matching(SchemaOf(name).columns, RowsOf(name), filters)| else 0
    {
      var model := GetModelByTableName(name);
      if model.None? {
        return 0;
      }
      var s := model.value;
      if name !in tables {
        return 0;
      }
      var criteria := Recognise(s.columns, filters);
      n := CountWhere(tables[name], AllEq(criteria));
    }

    /** Whether some row matches the equality-AND filter. */
    method Exists(name: string, filters: map<string, Value>) returns (found: bool)
      requires Valid()
      ensures found <==>
        Live(name) &&
        exists i | 0 <= i < |RowsOf(name)| ::
          Holds(AllEq(Recognised(SchemaOf(name).columns, filters)), RowsOf(name)[i])
    {
      var model := GetModelByTableName(name);
      if model.None? {
        return false;
      }
      var s := model.value;
      if name !in tables {
        return false;
      }
      var rows := tables[name];
      assert RowsOf(name) == rows;
      found := AnyMatching(s.columns, rows, filters);
      assert found <==> exists i | 0 <= i < |RowsOf(name)| ::
        Holds(AllEq(Recognised(SchemaOf(name).columns, filters)), RowsOf(name)[i]);
    }

    // ==================== update ====================

    /**
     * Set the recognised columns of the rows whose `id` is `recordId`. Fails,
     * touching nothing, when no update key is a column or the result violates a
     * constraint; succeeds even when no row has that id.
     */
    method Update(name: string, recordId: int, updates: map<string, Value>) returns (ok: bool)
      requires Valid()
      requires Lookup(models, name).Some? && Recognised(SchemaOf(name).columns, updates) != map[] ==>
        "id" in SchemaOf(name).columns
      modifies this
      ensures Valid()
      ensures ok <==> old(Live(name)) && UpdateOutcome(SchemaOf(name), old(RowsOf(name)), IdEq(recordId), updates).Some?
      ensures tables ==
        if ok then old(tables)[name := UpdateOutcome(SchemaOf(name), old(RowsOf(name)), IdEq(recordId), updates).value]
        else old(tables)
    {
      var model := GetModelByTableName(name);
      if model.None? {
        return false;
      }
      var s := model.value;
      var changes := Recognise(s.columns, updates);
      if |changes| == 0 {
        // no valid columns to update
        return false;
      }
      if name !in tables {
        return false;
      }
      var next, matched := ApplyUpdate(tables[name], IdEq(recordId), changes);
      if !Consistent(s, next) {
        return false;
      }
      StoreReplace(models, tables, name, next);
      tables := tables[name := next];
      return true;
    }

    /** The dictionary-argument entry point; it behaves exactly as `Update`. */
    method UpdateById(name: string, recordId: int, updates: map<string, Value>) returns (ok: bool)
      requires Valid()
      requires Lookup(models, name).Some? && Recognised(SchemaOf(name).columns, updates) != map[] ==>
        "id" in SchemaOf(name).columns
      modifies this
      ensures Valid()
      ensures ok <==> old(Live(name)) && UpdateOutcome(SchemaOf(name), old(RowsOf(name)), IdEq(recordId), updates).Some?
      ensures tables ==
        if ok then old(tables)[name := UpdateOutcome(SchemaOf(name), old(RowsOf(name)), IdEq(recordId), updates).value]
        else old(tables)
    {
      ok := Update(name, recordId, updates);
    }

    /** Set the recognised columns of every row matching the equality-AND filter; the result is the match count. */
    method UpdateBulk(name: string, updates: map<string, Value>, filters: map<string, Value>) returns (n: nat)
      requires Valid()
      modifies this
      ensures Valid()
      ensures var committed := old(Live(name)) &&
                UpdateOutcome(SchemaOf(name), old(RowsOf(name)), AllEq(Recognised(SchemaOf(name).columns, filters)), updates).Some?;
        && n == (if committed then |Matching(SchemaOf(name).columns, old(RowsOf(name)), filters)| else 0)
        && tables == if committed
             then old(tables)[name := UpdateOutcome(SchemaOf(name), old(RowsOf(name)),
                                                    AllEq(Recognised(SchemaOf(name).columns, filters)), updates).value]
             else old(tables)
    {
      var model := GetModelByTableName(name);
      if model.None? {
        return 0;
      }
      var s := model.value;
      var criteria := Recognise(s.columns, filters);
      var changes := Recognise(s.columns, updates);
      ghost var outcome := UpdateOutcome(s, RowsOf(name), AllEq(criteria), updates);
      if |changes| == 0 {
        assert changes == map[];
        assert outcome.None?;
        return 0;
      }
      if name !in tables {
        return 0;
      }
      var next, matched := ApplyUpdate(tables[name], AllEq(criteria), changes);
      if !Consistent(s, next) {
        assert outcome.None?;
        return 0;
      }
      assert outcome == Some(next);
      StoreReplace(models, tables, name, next);
      tables := tables[name := next];
      n := matched;
    }

    // ==================== delete ====================

    /** Delete the rows whose `id` is `recordId`; succeeds whether or not one existed. */
    method DeleteById(name: string, recordId: int) returns (ok: bool)
      requires Valid()
      requires Lookup(models, name).Some? ==> "id" in SchemaOf(name).columns
      modifies this
      ensures Valid()
      ensures ok == old(Live(name))
      ensures tables == if ok then old(tables)[name := Where(old(RowsOf(name)), Not(IdEq(recordId)))] else old(tables)
    {
      var model := GetModelByTableName(name);
      if model.None? {
        return false;
      }
      var s := model.value;
      if name !in tables {
        return false;
      }
      var kept, removed := Remove(tables[name], IdEq(recordId));
      StoreTable(models, tables, name);
      WhereConsistent(s, tables[name], Not(IdEq(recordId)));
      StoreReplace(models, tables, name, kept);
      tables := tables[name := kept];
      return true;
    }

    /** Delete the rows matching the equality-AND filter; the result is how many were removed. */
    method DeleteWithFilter(name: string, filters: map<string, Value>) returns (n: nat)
      requires Valid()
      modifies this
      ensures Valid()
      ensures n == if old(Live(name)) then |Matching(SchemaOf(name).columns, old(RowsOf(name)), filters)| else 0
      ensures tables ==
        if old(Live(name))
        then old(tables)[name := Where(old(RowsOf(name)), Not(AllEq(Recognised(SchemaOf(name).columns, filters))))]
        else old(tables)
    {
      var model := GetModelByTableName(name);
      if model.None? {
        return 0;
      }
      var s := model.value;
      if name !in tables {
        return 0;
      }
      var criteria := Recognise(s.columns, filters);
      var kept, removed := Remove(tables[name], AllEq(criteria));
      StoreTable(models, tables, name);
      WhereConsistent(s, tables[name], Not(AllEq(criteria)));
      StoreReplace(models, tables, name, kept);
      tables := tables[name := kept];
      n := removed;
    }

    /** Empty the table; the result is its previous size. */
    method DeleteAll(name: string) returns (n: nat)
      requires Valid()
      modifies this
      ensures Valid()
      ensures n == if old(Live(name)) then |old(RowsOf(name))| else 0
      ensures tables == if old(Live(name)) then old(tables)[name := []] else old(tables)
    {
      var model := GetModelByTableName(name);
      if model.None? {
        return 0;
      }
      if name !in tables {
        return 0;
      }
      n := |tables[name]|;
      StoreReplace(models, tables, name, []);
      tables := tables[name := []];
    }

    // ==================== aggregates ====================

    /** The smallest integer in the column, or nothing for an empty (all-NULL) column or an error. */
    method GetMin(name: string, column: string) returns (m: Option<int>)
      requires Valid()
      requires Lookup(models, name).Some? ==> column in SchemaOf(name).columns
      ensures m.None? <==> !Live(name) || IntCells(RowsOf(name), column) == []
      ensures m.Some? ==>
        m.value in IntCells(RowsOf(name), column) && forall x | x in IntCells(RowsOf(name), column) :: m.value <= x
    {
      var model := GetModelByTableName(name);
      if model.None? || name !in tables {
        return None;
      }
      m := ColumnMin(tables[name], column);
    }

    /** The largest integer in the column, or nothing for an empty (all-NULL) column or an error. */
    method GetMax(name: string, column: string) returns (m: Option<int>)
      requires Valid()
      requires Lookup(models, name).Some? ==> column in SchemaOf(name).columns
      ensures m.None? <==> !Live(name) || IntCells(RowsOf(name), column) == []
      ensures m.Some? ==>
        m.value in IntCells(RowsOf(name), column) && forall x | x in IntCells(RowsOf(name), column) :: x <= m.value
    {
      var model := GetModelByTableName(name);
      if model.None? || name !in tables {
        return None;
      }
      m := ColumnMax(tables[name], column);
    }

    /** The sum of the integers in the column, or nothing for an empty (all-NULL) column, an overflow or an error. */
    method GetSum(name: string, column: string) returns (total: Option<int>)
      requires Valid()
      requires Lookup(models, name).Some? ==> column in SchemaOf(name).columns
      ensures total == if Live(name) then SqlSum(IntCells(RowsOf(name), column)) else None
    {
      var model := GetModelByTableName(name);
      if model.None? || name !in tables {
        return None;
      }
      total := ColumnSum(tables[name], column);
    }
  }

  /** In a consistent table keyed by `id`, the last row's id matches that row and no earlier one. */
  lemma OnlyAppendedMatches(s: Schema, before: seq<Row>, row: Row)
    requires s.primaryKey == "id" && Consistent(s, before + [row])
    ensures "id" in row && row["id"].Int?
    ensures Holds(IdEq(row["id"].i), row)
    ensures forall j | 0 <= j < |before| :: !Holds(IdEq(row["id"].i), before[j])
  {
    ConsistentAppend(s, before, row);
    var id := row["id"].i;
    HoldsIdEq(id, row);
    forall j | 0 <= j < |before| ensures !Holds(IdEq(id), before[j]) {
      HoldsIdEq(id, before[j]);
      if "id" in before[j] && before[j]["id"] == Int(id) {
        assert "id" in s.KeyColumns();
        assert Clash(s, before[j], row);
      }
    }
  }

  /** When no earlier row matches, a matching row of the extended table is the appended one. */
  lemma FoundIsAppended(before: seq<Row>, row: Row, p: Pred, k: nat, found: Row)
    requires forall j | 0 <= j < |before| :: !Holds(p, before[j])
    requires k <= |before| && (before + [row])[k] == found && Holds(p, found)
    ensures found == row
  {
    assert forall j | 0 <= j < |before| :: (before + [row])[j] == before[j];
  }

  /**
   * A row created in a table whose identity column is `id` is read back,
   * unchanged, by the id the insert gave it.
   */
  method CreateThenRead(db: DatabaseManager, name: string, data: map<string, Value>)
    returns (created: Option<Row>, read: Option<Row>)
    requires db.Valid()
    requires Lookup(db.models, name).Some? ==>
      data.Keys <= db.SchemaOf(name).columns && db.SchemaOf(name).primaryKey == "id"
    modifies db
    ensures db.Valid()
    ensures created.Some? ==> "id" in created.value && created.value["id"].Int? && read == created
    ensures created.None? ==> db.tables == old(db.tables) && read.None?
  {
    ghost var before := db.RowsOf(name);
    created := db.Create(name, data);
    if created.None? {
      return created, None;
    }
    var row := created.value;
    OnlyAppendedMatches(db.SchemaOf(name), before, row);
    var id := row["id"].i;
    ghost var rows := db.RowsOf(name);
    assert rows == before + [row];
    assert rows[|before|] == row;
    assert db.Live(name);
    read := db.ReadById(name, id);
    assert db.RowsOf(name) == rows;
    assert !forall i | 0 <= i < |rows| :: !Holds(IdEq(id), rows[i]) by {
      assert Holds(IdEq(id), rows[|before|]);
    }
    ghost var k :| 0 <= k < |rows| && rows[k] == read.value && Holds(IdEq(id), read.value) &&
      forall j | 0 <= j < k :: !Holds(IdEq(id), rows[j]);
    FoundIsAppended(before, row, IdEq(id), k, read.value);
  }
}
