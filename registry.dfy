/**
 * The registry of mapped record types, the resolution of a table name to its
 * record type, and what creating and dropping tables does to the store.
 */
module Registry {
  import opened Records

  /**
   * The first registered model whose table name equals `name` exactly, or
   * nothing when no model has that name.
   */
  function Lookup(models: seq<Schema>, name: string): (m: Option<Schema>)
    ensures m.None? <==> forall i | 0 <= i < |models| :: models[i].tableName != name
    ensures m.Some? ==>
      exists i | 0 <= i < |models| ::
        && models[i] == m.value
        && models[i].tableName == name
        && forall j | 0 <= j < i :: models[j].tableName != name
  {
    if models == [] then None
    else if models[0].tableName == name then Some(models[0])
    else
      var rest := Lookup(models[1..], name);
      assert forall i | 1 <= i < |models| :: models[i] == models[1..][i - 1];
      rest
  }

  /** The table names the registry declares. */
  function Declared(models: seq<Schema>): set<string> {
    set i | 0 <= i < |models| :: models[i].tableName
  }

  /** One step of the search: the model at position `i` if it has the name, else the search from `i + 1`. */
  lemma LookupFrom(models: seq<Schema>, name: string, i: nat)
    requires i < |models|
    ensures Lookup(models[i..], name) ==
      if models[i].tableName == name then Some(models[i]) else Lookup(models[i + 1..], name)
  {
    assert models[i..][0] == models[i];
    assert models[i..][1..] == models[i + 1..];
  }

  /** A name is declared iff it resolves to a model. */
  lemma DeclaredIffResolves(models: seq<Schema>, name: string)
    ensures name in Declared(models) <==> Lookup(models, name).Some?
  {
    if Lookup(models, name).Some? {
      var i :| 0 <= i < |models| && models[i].tableName == name;
    }
  }

  /** Every registered model is a well-formed record type. */
  ghost predicate RegistryOk(models: seq<Schema>) {
    forall i | 0 <= i < |models| :: models[i].WellFormed()
  }

  /** Every existing table is declared and satisfies its record type's constraints. */
  ghost predicate StoreOk(models: seq<Schema>, tables: map<string, seq<Row>>) {
    forall n | n in tables :: Lookup(models, n).Some? && Consistent(Lookup(models, n).value, tables[n])
  }

  /** Reading a table of a valid store: it belongs to a declared model and satisfies its constraints. */
  lemma StoreTable(models: seq<Schema>, tables: map<string, seq<Row>>, name: string)
    requires StoreOk(models, tables) && name in tables
    ensures Lookup(models, name).Some? && Consistent(Lookup(models, name).value, tables[name])
  {
  }

  /** Replacing the rows of a declared table by consistent ones keeps the store valid. */
  lemma StoreReplace(models: seq<Schema>, tables: map<string, seq<Row>>, name: string, rows: seq<Row>)
    requires StoreOk(models, tables)
    requires Lookup(models, name).Some? && Consistent(Lookup(models, name).value, rows)
    ensures StoreOk(models, tables[name := rows])
  {
  }

  /** The distinct names in a request. */
  function Named(ns: seq<string>): set<string> {
    set n | n in ns
  }

  lemma NamedStep(ns: seq<string>, i: nat)
    requires i < |ns|
    ensures Named(ns[..i + 1]) == Named(ns[..i]) + {ns[i]}
  {
    assert ns[..i + 1] == ns[..i] + [ns[i]];
  }

  lemma DeclaredStep(models: seq<Schema>, i: nat)
    requires i < |models|
    ensures Declared(models[..i + 1]) == Declared(models[..i]) + {models[i].tableName}
  {
    assert forall j | 0 <= j < i :: models[..i + 1][j] == models[..i][j];
  }

  /** The names a create or drop request applies to: every declared table, or the declared ones among those named. */
  function Targets(models: seq<Schema>, names: Option<seq<string>>): set<string> {
    match names
    case None => Declared(models)
    case Some(ns) => Declared(models) * Named(ns)
  }

  /** Create-if-absent: the targets that do not exist get an empty table, the existing ones keep their rows. */
  function AfterCreate(tables: map<string, seq<Row>>, targets: set<string>): map<string, seq<Row>> {
    map n | n in tables.Keys + targets :: if n in tables then tables[n] else []
  }

  /** Drop-if-present: the targets that exist are removed. */
  function AfterDrop(tables: map<string, seq<Row>>, targets: set<string>): map<string, seq<Row>> {
    tables - targets
  }

  /** Creating the same tables twice is the same as creating them once. */
  lemma AfterCreateIdempotent(tables: map<string, seq<Row>>, targets: set<string>)
    ensures AfterCreate(AfterCreate(tables, targets), targets) == AfterCreate(tables, targets)
  {
  }

  /** Dropping the same tables twice is the same as dropping them once. */
  lemma AfterDropIdempotent(tables: map<string, seq<Row>>, targets: set<string>)
    ensures AfterDrop(AfterDrop(tables, targets), targets) == AfterDrop(tables, targets)
  {
  }

  /** Creation touches only the targets, and never the rows of a table that already exists. */
  lemma AfterCreateFrame(tables: map<string, seq<Row>>, targets: set<string>)
    ensures AfterCreate(tables, targets).Keys == tables.Keys + targets
    ensures forall n | n in tables :: AfterCreate(tables, targets)[n] == tables[n]
    ensures forall n | n in targets && n !in tables :: AfterCreate(tables, targets)[n] == []
  {
  }

  /** Dropping removes exactly the targets and leaves every other table's rows alone. */
  lemma AfterDropFrame(tables: map<string, seq<Row>>, targets: set<string>)
    ensures AfterDrop(tables, targets).Keys == tables.Keys - targets
    ensures forall n | n in tables && n !in targets :: AfterDrop(tables, targets)[n] == tables[n]
  {
  }

  /** Creating a single table adds it empty when it is absent and changes nothing otherwise. */
  lemma AfterCreateOne(tables: map<string, seq<Row>>, name: string)
    ensures AfterCreate(tables, {name}) == if name in tables then tables else tables[name := []]
  {
  }

  /** Handling the targets one name at a time composes to handling them together. */
  lemma AfterCreateStep(tables: map<string, seq<Row>>, targets: set<string>, name: string)
    ensures AfterCreate(AfterCreate(tables, targets), {name}) == AfterCreate(tables, targets + {name})
  {
  }

  lemma AfterDropStep(tables: map<string, seq<Row>>, targets: set<string>, name: string)
    ensures AfterDrop(AfterDrop(tables, targets), {name}) == AfterDrop(tables, targets + {name})
  {
  }

  /** Creating or dropping tables keeps the store's invariant. */
  lemma LifecyclePreservesStore(models: seq<Schema>, tables: map<string, seq<Row>>, targets: set<string>)
    requires StoreOk(models, tables) && targets <= Declared(models)
    ensures StoreOk(models, AfterCreate(tables, targets))
    ensures StoreOk(models, AfterDrop(tables, targets))
  {
    forall n | n in targets ensures Lookup(models, n).Some? {
      DeclaredIffResolves(models, n);
    }
  }
}
