# A verified model of the generic `DatabaseManager`

`DatabaseManager` (database_utils.py) is a table-driven CRUD layer over SQLAlchemy. Both agents use it: the quiz agent and the translation agent.

- A caller gives only a table name and loosely typed column/value maps.
- The manager resolves the mapped record type by a linear search over the declarative registry.
- It performs each operation as one unit of work: it commits, or it rolls back and returns a failure value (`None`, `[]`, `0` or `False`).

The SQL engine is replaced by an explicit in-memory store.

- `const models: seq<Schema>` is the registry, in order. A `Schema` lists the table name, its column set, the integer identity column (primary key), the unique columns, the NOT NULL columns, and the column defaults.
- `var tables: map<string, seq<Row>>` holds the tables that exist. Each table is a sequence of rows in insertion order: inserts append, and updates keep every row in place. A row maps columns to values.
- A value is an integer, a text, a boolean or NULL.

## Modules

- `Records` defines values, rows and schemas. It also defines:
  - the integrity rules the engine checks on commit (`Consistent`: identities are distinct integers, unique columns never repeat a non-null value, NOT NULL columns are filled);
  - the row an insert stores (`NewRow`). The ORM leaves an attribute set to None out of the INSERT, so a NULL counts as omitted. A column gets the given non-NULL value, else SQLite's fresh rowid if it is the identity, else its default, else NULL;
  - the rows a bulk insert appends (`BulkRows`).
- `Query` holds the specification side of the queries:
  - selection `Where` by a row predicate;
  - equality filters joined by AND or OR, dropping keys that are not columns;
  - the eight-operator conditions with SQL NULL semantics. `like` matches the column's text against the operand's Python `str` (`%{value}%`);
  - offset/limit paging;
  - the updated table and whether it commits;
  - column sums, which fail like SQLite's SUM once a running total leaves the 64-bit range.
- `Registry` covers name resolution (`Lookup`) and what creating and dropping tables does to the store.
- `Manager` holds the class `DatabaseManager`. Its methods state their results and the new store in terms of the `Query`, `Records` and `Registry` functions. Each keeps the invariant `Valid()`: every table is declared and satisfies its schema. The loops of the source (the registry search, the accumulation of filters, conditions and update dictionaries, and the iteration over result rows) are `while`/`for` loops with invariants.
- `Examples` holds the agents' record types (quiz_agent/agent.py, translation_agent/agent.py) and a session over the quiz registry.

Atomic failure: a statement the engine rejects is a real branch that returns the failure value and leaves `tables` untouched. This covers a constraint violation, a table that is declared but not created, and an operand of the wrong shape. The source catches these cases.

Exceptions the source does not catch become preconditions:

- a keyword argument that is no attribute of the record class makes the record constructor raise `TypeError` (`create`, `create_bulk`). As for `hasattr`, the model approximates the class's attributes by its columns;
- `model.id` on a record type without an `id` column raises (`read_by_id`, `delete_by_id`, and `update`/`update_by_id` once an update key is recognised);
- `getattr(model, column_name)` on an unknown column raises (the aggregates).

`hasattr(model, key)` accepts any class attribute. The model approximates it by membership in the schema's column set.

## Model

| member | source | states |
|---|---|---|
| Registry.Lookup | database_utils.py:157-164 | the result is the first registered model whose table name equals the argument exactly, and nothing iff no model has that name |
| Registry.LookupFrom | database_utils.py:158-161 | one step of the search: the model at the position if it has the name, else the search from the next position |
| Registry.DeclaredIffResolves | database_utils.py:82-86 | a name is in the metadata's table set iff it resolves to a model |
| Manager.DatabaseManager.GetModelByTableName | database_utils.py:136-167 | the loop over the registry returns exactly `Lookup`; it returns nothing iff the name is not declared |
| Manager.DatabaseManager.constructor | database_utils.py:21-34 | a manager over a registry and an existing valid database holds exactly those |
| Manager.DatabaseManager.CreateTable | database_utils.py:83-84 | creating a declared table with `checkfirst` adds it empty only when it is absent |
| Manager.DatabaseManager.DropTable | database_utils.py:126-127 | dropping with `checkfirst` removes the table only when it exists |
| Manager.DatabaseManager.CreateTables | database_utils.py:71-91 | the new store is `AfterCreate` of every declared table (no names) or of the declared names among those given; undeclared names are skipped without stopping the loop; the store invariant holds |
| Manager.DatabaseManager.DropTables | database_utils.py:114-134 | the new store is `AfterDrop` of every declared table or of the declared names given; undeclared names are skipped |
| Registry.AfterCreateIdempotent | database_utils.py:84 | creating the same tables twice leaves the store as creating them once |
| Registry.AfterDropIdempotent | database_utils.py:127 | dropping the same tables twice leaves the store as dropping them once |
| Registry.AfterCreateFrame | database_utils.py:71-86 | creation adds exactly the target names, keeps every existing table's rows and gives new tables no rows |
| Registry.AfterDropFrame | database_utils.py:114-129 | dropping removes exactly the targets and keeps every other table's rows |
| Registry.AfterCreateOne | database_utils.py:84 | creating one table changes the store only when the table is absent |
| Registry.AfterCreateStep | database_utils.py:82-86 | creating targets one at a time composes to creating them together |
| Registry.AfterDropStep | database_utils.py:125-129 | dropping targets one at a time composes to dropping them together |
| Registry.LifecyclePreservesStore | database_utils.py:71-129 | creating or dropping declared tables keeps every table declared and consistent |
| Registry.StoreTable | database_utils.py:196-199 | every existing table of a valid store belongs to a declared model and satisfies its constraints |
| Registry.StoreReplace | database_utils.py:196-199 | committing consistent rows to a declared table keeps the store valid |
| Records.Project | database_utils.py:201 | the dictionary handed back has exactly one entry per column of the table |
| Records.ProjectStored | database_utils.py:201 | projecting a stored row onto the columns gives the row itself |
| Manager.ToDict | database_utils.py:279 | the dictionary of a stored row equals the row |
| Records.ConsistentAppend | database_utils.py:196-205 | an insert commits iff the table was consistent, the new row is well formed, and it shares no non-null identity or unique value with an existing row |
| Records.ConsistentPairwise | database_utils.py:202-205 | the commit-time constraints hold iff every row is well formed and no two rows share a non-null identity or unique value |
| Records.ConsistentConform | database_utils.py:201 | every stored row has exactly the schema's columns |
| Records.ReusedKeyClashes | database_utils.py:202-205 | appending a row that repeats a non-null identity or unique value of an existing row violates the constraints |
| Records.IntCells | database_utils.py:745 | the integers of a column are at most one per row |
| Records.IntCellsMember | database_utils.py:745 | an integer is among a column's values iff some row holds it in that column |
| Records.IntCellsSnoc | database_utils.py:745 | appending a row appends its integer in the column, if it holds one |
| Records.IntCellsConcat | database_utils.py:745 | the column values of two concatenated tables are the concatenated column values |
| Records.Max | database_utils.py:196-199 | the largest identity is in the sequence and bounds every element |
| Records.NextIdFresh | database_utils.py:196-199 | the identity assigned to an insert that omits it is held by no row of the table |
| Records.NewRow | database_utils.py:196-201 | an inserted row has exactly the table's columns |
| Records.NewRowFields | database_utils.py:196-201 | an inserted row holds each given non-NULL value; a column given no value or None holds its default or NULL, and the identity a fresh integer |
| Records.BulkRowsShape | database_utils.py:238-240 | a bulk insert keeps the old rows as a prefix and appends one row per record, in order, each seeing the rows inserted before it |
| Manager.DatabaseManager.Create | database_utils.py:189-209 | success iff the model resolves, its table exists and the table plus the new row (None values omitted) is consistent; then the result is the new row with all columns and that row is appended; on any failure the store is unchanged |
| Manager.DatabaseManager.CreateBulk | database_utils.py:232-250 | success iff the model resolves and either there are no records (nothing to flush) or the table exists and all appended rows are consistent; then every row is appended, otherwise none is |
| Query.Where | database_utils.py:365 | a query returns at most as many rows as the table has |
| Query.WhereMember | database_utils.py:365 | a row is returned iff it is in the table and satisfies the predicate |
| Query.WhereEvery | database_utils.py:348-350 | a predicate every row satisfies returns the whole table in order |
| Query.WhereNonEmpty | database_utils.py:483 | the result is non-empty iff some row satisfies the predicate |
| Query.WherePartition | database_utils.py:677-684 | the rows selected by a predicate and by its negation together number exactly the table's rows |
| Query.WhereSnoc | database_utils.py:365 | appending a row adds it to the selection iff it satisfies the predicate |
| Query.WhereConcat | database_utils.py:681 | selection preserves order: selecting from two concatenated parts gives the concatenated selections |
| Query.WhereConsistent | database_utils.py:646-647 | removing rows keeps a consistent table consistent |
| Manager.Scan | database_utils.py:364-365 | the rows a query returns as dictionaries are exactly `Where` over the table, in table order |
| Manager.Recognise | database_utils.py:354-356 | the kept pairs are exactly the given pairs whose key is a column, with their values |
| Query.FilterResultMember | database_utils.py:348-365 | a filtered read returns a row iff it is in the table and: no pair is recognised, or under OR some recognised pair matches it, or under AND all recognised pairs match it |
| Query.UnrecognisedFilterMatchesAll | database_utils.py:354-362 | a filter with no column among its keys selects every row |
| Manager.DatabaseManager.ReadWithFilter | database_utils.py:341-368 | the result is `FilterResult` over the table when it exists, and `[]` when it does not or the model does not resolve |
| Query.CondHolds | database_utils.py:402-417 | a condition holds only with one of the eight known operators; on a NULL cell only `eq` against None holds (`IS NULL`); `like` holds iff the cell's text contains the operand's Python text |
| Query.DigitsRoundTrip | database_utils.py:415 | the decimal text of a natural reads back as that natural, so the `like` pattern of a number is its own digits |
| Query.ActiveMember | database_utils.py:399-417 | a condition constrains the query iff it is given, names a column and uses one of the eight known operators |
| Query.ConditionsResultMember | database_utils.py:398-419 | when no operand has the wrong shape, a row is returned iff it is in the table and satisfies every active condition, `like` matching on the operand's Python text |
| Query.IgnoredConditionChangesNothing | database_utils.py:400 | adding a condition on an unknown column or with an unknown operator leaves the result unchanged |
| Manager.DatabaseManager.ReadWithConditions | database_utils.py:393-422 | the loop over the conditions computes the active ones and whether any is malformed; the result is `ConditionsResult`, and `[]` on an engine error or a missing table |
| Query.CountIsFilteredReadLength | database_utils.py:447-451 | the count under a filter equals the length of the AND-filtered read with the same filter |
| Manager.CountWhere | database_utils.py:451 | the count is the number of rows the query selects |
| Manager.DatabaseManager.Count | database_utils.py:442-455 | the result is the number of rows matching the recognised equality pairs under AND, and 0 when the table is not there |
| Query.ExistsIffCountPositive | database_utils.py:447-483 | some row matches the equality-AND filter iff the count under that filter is positive |
| Manager.AnyRow | database_utils.py:483 | the result is true iff some row satisfies the predicate |
| Manager.AnyMatching | database_utils.py:479-483 | the result is true iff some row matches all recognised equality pairs |
| Manager.DatabaseManager.Exists | database_utils.py:474-487 | the result is true iff the table exists and some row matches all recognised equality pairs |
| Manager.First | database_utils.py:277 | the result is the first selected row, and nothing iff no row is selected |
| Query.HoldsIdEq | database_utils.py:277 | a row passes the by-id filter iff its `id` column holds that integer |
| Manager.DatabaseManager.ReadById | database_utils.py:272-283 | the result is the first row whose `id` is the argument, and nothing iff no row has it or the table is not there |
| Manager.OnlyAppendedMatches | database_utils.py:202-205 | in a consistent table keyed by `id`, the last row's id matches that row and no earlier one |
| Manager.FoundIsAppended | database_utils.py:277 | when no earlier row matches, a matching row of the extended table is the appended one |
| Manager.CreateThenRead | database_utils.py:189-283 | a row created in a table keyed by `id` is read back unchanged by the id it was given; a failed create changes nothing |
| Query.PageShape | database_utils.py:308-312 | a page is the run of consecutive rows from the offset, of length `limit` when that is positive and smaller than what remains, else everything that remains |
| Manager.PageSlice | database_utils.py:308-312 | the page is the slice from the clamped offset to the clamped end |
| Manager.Slice | database_utils.py:312 | the dictionaries of the rows between two positions are exactly those rows |
| Manager.DatabaseManager.ReadAll | database_utils.py:303-315 | the result is `Page` of the table with the given offset and limit; `None` and 0 mean no limit |
| Query.UpdateRows | database_utils.py:524 | a bulk update keeps the number of rows |
| Manager.ApplyUpdate | database_utils.py:598-616 | the new table is `UpdateRows` and the count is the number of rows the filter matched |
| Query.UpdateOutcomeFrame | database_utils.py:515-527 | a committed update names some column, keeps the table's length, leaves unmatched rows as they were, and in matched rows changes only the recognised columns |
| Query.UpdateWithoutColumns | database_utils.py:520-522 | an update with no column among its keys does not commit |
| Query.UpdateWithoutMatch | database_utils.py:524-527 | an update that matches no row still commits and leaves the rows as they were |
| Query.UpdateRowsIdempotent | database_utils.py:524 | applying the same update twice with the same filter gives the table the first application gave |
| Manager.DatabaseManager.Update | database_utils.py:509-531 | success iff the table exists and `UpdateOutcome` commits; then the table is the updated one, otherwise the store is unchanged |
| Manager.DatabaseManager.UpdateById | database_utils.py:551-573 | the same contract as `Update` |
| Manager.DatabaseManager.UpdateBulk | database_utils.py:593-620 | when the update commits, the result is the number of matched rows and the table is the updated one; otherwise the result is 0 and the store is unchanged |
| Manager.Remove | database_utils.py:677-684 | the rows kept are the unselected rows in order, the count removed is the number selected, and together they make up the table |
| Manager.DatabaseManager.DeleteById | database_utils.py:641-653 | success iff the table exists, whether or not a row had the id; the table keeps exactly the rows whose `id` differs, in order |
| Manager.DatabaseManager.DeleteWithFilter | database_utils.py:672-688 | the result is the number of rows matching the equality-AND filter, and exactly the other rows remain, in order |
| Manager.DatabaseManager.DeleteAll | database_utils.py:706-718 | the result is the table's previous size and the table is left empty |
| Manager.ColumnMin | database_utils.py:745 | the result is the smallest integer in the column, and nothing iff the column holds none |
| Manager.ColumnMax | database_utils.py:774 | the result is the largest integer in the column, and nothing iff the column holds none |
| Manager.ColumnSum | database_utils.py:832-836 | the loop computes `SqlSum` of the column's integers: their total, and nothing when the column holds none or a running total overflows 64 bits |
| Manager.DatabaseManager.GetMin | database_utils.py:739-749 | the result is the column's smallest integer, and nothing when the column holds none or the table is not there |
| Manager.DatabaseManager.GetMax | database_utils.py:768-778 | the result is the column's largest integer, and nothing when the column holds none or the table is not there |
| Manager.DatabaseManager.GetSum | database_utils.py:826-836 | the result is the sum of the column's integers, and nothing when the column holds none, a running total overflows 64 bits, or the table is not there |
| Query.SqlSum | database_utils.py:832-836 | SUM is present iff the column holds an integer and every running total stays in the 64-bit range; then it is the exact total |
| Query.SumSnoc | database_utils.py:832 | adding one more integer adds it to the total, and the sum fits iff the old one did and the new total is in range |
| Query.SumFitsPrefixes | database_utils.py:832-836 | the sum fits iff every non-empty prefix total is a 64-bit integer |
| Query.SumNonNegative | database_utils.py:832 | a sum of naturals is a natural |
| Query.SumFitsNonNegative | database_utils.py:832-836 | with no negative values only the final total can overflow |
| Query.ColumnSumStep | database_utils.py:832 | one more row adds its integer to the column's values, to their total, and to the range check |
| Query.SumConcat | database_utils.py:832 | summing distributes over concatenation |
| Query.ColumnSumSplits | database_utils.py:832 | the column sum of two concatenated tables is the sum of their column sums |
| Examples.Glossary | quiz_agent/agent.py:63-69 | the glossary record type is well formed |
| Examples.QuizStats | quiz_agent/agent.py:71-78 | the quiz agent's score record type is well formed |
| Examples.ScoresByQuiz | translation_agent/agent.py:72-78 | the translation agent's score record type is well formed and has no `id` column |
| Examples.QuizResults | quiz_agent/agent.py:80-87 | the quiz result record type is well formed |
| Examples.QuizRegistry | quiz_agent/agent.py:63-90 | the quiz agent's registry is well formed and declares exactly its three tables |
| Examples.FirstGlossaryEntry | database_utils.py:196-201 | the first word saved into an empty glossary gets id 1 and NULL in the columns it was not given |
| Examples.TakenIdRejected | database_utils.py:202-205 | saving a quiz result under an id that is already taken violates the constraints |
| Examples.OpenQuizStore | database_utils.py:71-75 | opening the quiz agent's store and creating all its tables gives three empty tables |
| Examples.SaveWord | database_utils.py:189-201 | saving a word into the empty glossary stores and returns it with id 1 |
| Examples.DharmaHasIdOne | database_utils.py:277 | the saved word's row passes the filter for id 1 |
| Examples.LookUpWord | database_utils.py:272-280 | the saved word is found by its id |
| Examples.CountWord | database_utils.py:442-451 | the saved word is counted once by its text |
| Examples.ForgetWord | database_utils.py:641-649 | deleting the word by id empties the glossary |
| Examples.LikeUsesPythonText | database_utils.py:415 | the number 5 matches a text and an integer containing the digit 5, True matches "True" but not the shorter "Tru", and a NULL cell never matches |
| Examples.GlossarySession | database_utils.py:175-283 | in a session that saves, reads and deletes a word, the value created and the value read back agree |

## Left out

- The engine and session plumbing are not modelled: `_initialize_engine`, `get_session`, commit, rollback and session close, `close` and `health_check`. They are I/O and live connections. Each operation is one atomic step on the in-memory store instead.
- `get_avg` is not modelled. It returns a floating-point mean.
- Numeric and text type coercion by SQLite/SQLAlchemy is not modelled. Values compare only within one kind: an ordering condition between values of different kinds, or with NULL, is false.
- Query.CondHolds: `like` is an exact substring test of the cell's text. SQL `%`/`_` wildcards inside the operand's text and SQLite's case-insensitive ASCII matching are not modelled. The text of a list operand quotes its text elements with single quotes, without Python's escaping or its choice of double quotes.
- Manager.Recognise, Manager.DatabaseManager.Create, Manager.DatabaseManager.CreateBulk: `hasattr(model, key)` and the record constructor's attribute check are approximated by column membership. A key that names another class attribute (a method, `metadata`) is dropped by the model's filters where the source would keep it. For `Create` and `CreateBulk`, the requirement that every data key is a column excludes calls that the source accepts, such as `create("Glossary", metadata=1, sanskrit_word="x")`.
- Manager.DatabaseManager.CreateTables: a single string passed instead of a list (normalised at lines 78-79 and 121-122) is not a separate input. The model's `names` is a sequence.
- Manager.DatabaseManager.CreateTables: with no names, `create_all` resolves foreign-key order itself. The model creates the declared tables in registry order, which has the same final store.
- Manager.DatabaseManager.GetMin, Manager.DatabaseManager.GetMax, Manager.DatabaseManager.GetSum: these aggregate only the integer values of a column. A text or boolean column's MIN/MAX/SUM under SQLite ordering and coercion is not modelled.
- Registry.Lookup: the search runs in registry order, which SQLAlchemy does not document. Under single-table inheritance a subclass inherits `__tablename__`, several classes match, and the unordered mapper collection decides which is returned. The model assumes each table is mapped through one class, as in the agents' registries.
- Registry.DeclaredIffResolves: a plain `Table` on the metadata with no mapped class is created and dropped at lines 83-84 and 126-127, but never resolves at lines 158-161. The model's declared tables are exactly the mapped classes' tables.
- Records.NextId: SQLite picks a random unused rowid once the largest is 9223372036854775807. The model always assigns one past the largest.
- Manager.DatabaseManager.Create, Manager.DatabaseManager.CreateBulk, Manager.DatabaseManager.Update, Manager.DatabaseManager.UpdateById, Manager.DatabaseManager.UpdateBulk: the model does not capture values that parameter binding rejects. The source catches the bind error and returns `None`, `False` or `0`. The model's schemas carry no column kinds and its integers are unbounded, so `Create`, `CreateBulk`, `Update`, `UpdateById` and `UpdateBulk` commit such values, and the filters accept them. These members promise "success iff consistent" only for values that bind. Two kinds of value do not:
  - a Python integer outside the 64-bit range;
  - a value other than None, True, False, 0 or 1 in a `Boolean` column, such as `is_correct` of the quiz results (quiz_agent/agent.py:87). SQLAlchemy's Boolean bind processor raises, and the error is wrapped as a `StatementError`.
- Records.Consistent: SQLAlchemy reports any constraint failure as `IntegrityError`. The model captures identity, uniqueness and NOT NULL constraints. Foreign keys and check constraints are not modelled, because the agents' record types declare none.
- Manager.DatabaseManager.ReadAll, Manager.DatabaseManager.ReadWithFilter, Manager.DatabaseManager.ReadWithConditions, Manager.DatabaseManager.GetSum: the model returns and adds rows in insertion order. Every agent table has an `Integer` primary key, which SQLite makes the rowid, so a query without `ORDER BY` runs in ascending key order. The two orders differ once a caller gives an explicit key below the largest, or changes a key with `update`. Then the model can return a different page, a differently ordered filtered or conditional read, and a different SUM result where the overflow check depends on the order. For example, with ids 2, 3, 1 holding 9223372036854775807, 1, -1, SQLite's SUM succeeds but the model's reports overflow. These promises do not depend on row order: membership, counts, existence, MIN, MAX, and the SUM total whenever neither order overflows.
- `print` logging, `dotenv` loading, concurrency and transaction isolation are not modelled.
- The LLM prompts, ADK agent wiring, MCP/Notion subprocess, clock wrapper and transliteration call in quiz_agent/agent.py and translation_agent/agent.py are not modelled. Only their record type declarations are used, as example schemas.
