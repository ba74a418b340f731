/**
 * The record types the two agents register with the manager, and what the
 * manager's contracts give for them.
 */
module Examples {
  import opened Records
  import opened Query
  import opened Registry
  import opened Manager

  /** The glossary of looked-up words (both agents). */
  function Glossary(): (s: Schema)
    ensures s.WellFormed()
  {
    Schema("Glossary", {"id", "sanskrit_word", "english_meaning", "added_on", "input_sentence"}, "id", {}, {}, map[])
  }

  /** The quiz agent's score table, keyed by `id`. */
  function QuizStats(): (s: Schema)
    ensures s.WellFormed()
  {
    Schema("QuizStats", {"id", "quiz_id", "username", "taken_on", "score", "total_score"}, "id", {}, {}, map[])
  }

  /**
   * The translation agent's score table: its identity column is `quiz_id` and
   * it has no `id`, so reading, updating or deleting it by id is outside the
   * manager's preconditions.
   */
  function ScoresByQuiz(): (s: Schema)
    ensures s.WellFormed() && "id" !in s.columns
  {
    Schema("QuizStats", {"quiz_id", "user_id", "taken_on", "score", "total_score"}, "quiz_id", {}, {}, map[])
  }

  /** One answered question of a quiz. */
  function QuizResults(): (s: Schema)
    ensures s.WellFormed()
  {
    Schema("QuizResults", {"id", "quiz_id", "question", "user_answer", "correct_answer", "is_correct"}, "id", {}, {}, map[])
  }

  /** The quiz agent's registry. */
  function QuizRegistry(): (models: seq<Schema>)
    ensures RegistryOk(models)
    ensures Declared(models) == {"Glossary", "QuizStats", "QuizResults"}
  {
    var models := [Glossary(), QuizStats(), QuizResults()];
    assert models[0].tableName == "Glossary" && models[1].tableName == "QuizStats";
    assert models[2].tableName == "QuizResults";
    models
  }

  /** The first word saved into an empty glossary gets id 1 and the other columns it was not given are NULL. */
  lemma FirstGlossaryEntry(word: string, meaning: string)
    ensures var r := NewRow(Glossary(), [], map["sanskrit_word" := Text(word), "english_meaning" := Text(meaning)]);
      && r == map["id" := Int(1), "sanskrit_word" := Text(word), "english_meaning" := Text(meaning),
                  "added_on" := Null, "input_sentence" := Null]
      && Consistent(Glossary(), [r])
  {
    var r := NewRow(Glossary(), [], map["sanskrit_word" := Text(word), "english_meaning" := Text(meaning)]);
    assert IntCells([], "id") == [];
    assert [r][..0] == [];
  }

  /** Saving a result under an id that is already taken is an integrity error, whatever else the row holds. */
  lemma TakenIdRejected(rows: seq<Row>, i: nat, id: int, data: map<string, Value>)
    requires i < |rows| && "id" in rows[i] && rows[i]["id"] == Int(id)
    requires data.Keys <= QuizResults().columns
    ensures !Consistent(QuizResults(), rows + [NewRow(QuizResults(), rows, data["id" := Int(id)])])
  {
    var r := NewRow(QuizResults(), rows, data["id" := Int(id)]);
    ReusedKeyClashes(QuizResults(), rows, i, r, "id");
  }

  /** The quiz agent's start-up: a manager over its registry with every table created, empty. */
  method OpenQuizStore() returns (db: DatabaseManager)
    ensures fresh(db) && db.Valid() && db.models == QuizRegistry()
    ensures db.tables == map["Glossary" := [], "QuizStats" := [], "QuizResults" := []]
  {
    db := new DatabaseManager(QuizRegistry(), map[]);
    db.CreateTables(None);
    assert db.tables == AfterCreate(map[], {"Glossary", "QuizStats", "QuizResults"});
  }

  /** The glossary row of the word "dharma" after it is saved into an empty table. */
  function Dharma(): Row {
    map["id" := Int(1), "sanskrit_word" := Text("dharma"), "english_meaning" := Text("duty"),
        "added_on" := Null, "input_sentence" := Null]
  }

  /** The saved word carries id 1. */
  lemma DharmaHasIdOne()
    ensures Holds(IdEq(1), Dharma())
  {
    HoldsIdEq(1, Dharma());
  }

  /** Save the word into an empty glossary: it is stored with id 1. */
  method SaveWord(db: DatabaseManager) returns (saved: Option<Row>)
    requires db.Valid() && db.models == QuizRegistry()
    requires "Glossary" in db.tables && db.tables["Glossary"] == []
    modifies db
    ensures db.Valid() && db.models == QuizRegistry()
    ensures saved == Some(Dharma())
    ensures db.tables == old(db.tables)["Glossary" := [Dharma()]]
  {
    assert Lookup(db.models, "Glossary") == Some(Glossary());
    FirstGlossaryEntry("dharma", "duty");
    saved := db.Create("Glossary", map["sanskrit_word" := Text("dharma"), "english_meaning" := Text("duty")]);
  }

  /** Look the saved word up by id. */
  method LookUpWord(db: DatabaseManager) returns (found: Option<Row>)
    requires db.Valid() && db.models == QuizRegistry()
    requires "Glossary" in db.tables && db.tables["Glossary"] == [Dharma()]
    ensures found == Some(Dharma())
  {
    assert Lookup(db.models, "Glossary") == Some(Glossary());
    DharmaHasIdOne();
    found := db.ReadById("Glossary", 1);
    assert db.RowsOf("Glossary") == [Dharma()];
    assert Holds(IdEq(1), db.RowsOf("Glossary")[0]);
    assert db.Live("Glossary");
  }

  /** Count the rows holding the saved word: exactly one. */
  method CountWord(db: DatabaseManager) returns (n: nat)
    requires db.Valid() && db.models == QuizRegistry()
    requires "Glossary" in db.tables && db.tables["Glossary"] == [Dharma()]
    ensures n == 1
  {
    assert Lookup(db.models, "Glossary") == Some(Glossary());
    var byWord := map["sanskrit_word" := Text("dharma")];
    n := db.Count("Glossary", byWord);
    assert db.RowsOf("Glossary") == [Dharma()];
    assert Recognised(Glossary().columns, byWord) == byWord;
    assert Holds(AllEq(byWord), Dharma());
    assert forall i | 0 <= i < |[Dharma()]| :: [Dharma()][i] == Dharma();
    WhereEvery([Dharma()], AllEq(byWord));
  }

  /** Delete the saved word by id: the glossary is empty again. */
  method ForgetWord(db: DatabaseManager) returns (ok: bool)
    requires db.Valid() && db.models == QuizRegistry()
    requires "Glossary" in db.tables && db.tables["Glossary"] == [Dharma()]
    modifies db
    ensures ok && db.tables == old(db.tables)["Glossary" := []]
  {
    assert Lookup(db.models, "Glossary") == Some(Glossary());
    assert db.RowsOf("Glossary") == [Dharma()];
    DharmaHasIdOne();
    assert [Dharma()][..0] == [];
    assert Where([Dharma()], Not(IdEq(1))) == [];
    ok := db.DeleteById("Glossary", 1);
  }

  /** A session of the quiz agent: open the store, save a word, look it up, delete it. */
  method GlossarySession() returns (saved: Option<Row>, found: Option<Row>, n: nat)
    ensures saved == found == Some(Dharma()) && n == 1
  {
    var db := OpenQuizStore();
    saved := SaveWord(db);
    found := LookUpWord(db);
    n := CountWord(db);
    var ok := ForgetWord(db);
  }

  /**
   * `like` embeds the operand's Python text: the number 5 matches a text
   * containing "5" and an integer cell whose digits contain it, `True`
   * matches the text "True" but not the shorter "Tru", and a NULL cell never
   * matches.
   */
  lemma LikeUsesPythonText()
    ensures CondHolds(Text("room 5"), "like", One(Int(5)))
    ensures CondHolds(Int(15), "like", One(Int(5)))
    ensures CondHolds(Text("True"), "like", One(Bool(true)))
    ensures !CondHolds(Text("Tru"), "like", One(Bool(true)))
    ensures !CondHolds(Null, "like", One(Null))
  {
    assert Digits(5) == "5";
    assert Digits(15) == "15" by {
      assert Digits(1) == "1";
    }
    assert OccursAt("room 5", "5", 5);
    assert OccursAt("15", "5", 1);
    assert OccursAt("True", "True", 0);
  }
}
