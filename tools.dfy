/** The database tools of src/submission/tools/database.py: each builds a query,
    hands it to `execute_query` and turns the rows into text (or, for
    `get_answers`, into a dictionary of answer lists). */
module Tools {
  import opened PyStr
  import opened Execution
  import opened Formatting
  import opened AnswerGrouping

  /** What a tool call amounts to: whether `execute_query` printed its warning,
      and the value returned or the exception raised. */
  datatype Reply<T> = Reply(warned: bool, value: Result<T, ToolError>)

  /** The five questionnaires; each has an entries table and an answers table. */
  datatype Questionnaire = Student | Curriculum | Home | Teacher | School

  function Subject(q: Questionnaire): string
  {
    match q
    case Student => "student"
    case Curriculum => "curriculum"
    case Home => "home"
    case Teacher => "teacher"
    case School => "school"
  }

  /** `studentquestionnaireentries`, ... : the tables `get_question_types` and
      `get_questions` accept. */
  function EntriesTable(q: Questionnaire): string
  {
    Subject(q) + "questionnaireentries"
  }

  /** `studentquestionnaireanswers`, ... : the tables `get_answers` accepts. */
  function AnswersTable(q: Questionnaire): string
  {
    Subject(q) + "questionnaireanswers"
  }

  /** Runs `query` and lays the rows out with `cols`, one line per row. */
  function Tabulated(db: Database, query: string, cols: seq<Column>): (r: Reply<string>)
    ensures r.warned == Unbounded(query)
    ensures db(query).Err? ==> r.value == Err(QueryFailed(db(query).error))
    ensures db(query).Ok? ==> r.value == Tabulate(cols, db(query).value)
  {
    var e := ExecuteQuery(db, query);
    Reply(e.warned, if e.rows.Err? then Err(QueryFailed(e.rows.error)) else Tabulate(cols, e.rows.value))
  }

  /** The upper-case keywords the queries use are limiter words once lower-cased. */
  lemma KeywordWhere()
    ensures Lower("WHERE") == Limiters[1]
  {
    var l := Lower("WHERE");
    assert l[0] == 'w' && l[1] == 'h' && l[2] == 'e' && l[3] == 'r' && l[4] == 'e';
  }

  lemma KeywordDistinct()
    ensures Lower("DISTINCT") == Limiters[3]
  {
    var l := Lower("DISTINCT");
    assert l[0] == 'd' && l[1] == 'i' && l[2] == 's' && l[3] == 't';
    assert l[4] == 'i' && l[5] == 'n' && l[6] == 'c' && l[7] == 't';
  }

  lemma KeywordCount()
    ensures Lower("count") == Limiters[0]
  {
    var l := Lower("count");
    assert l[0] == 'c' && l[1] == 'o' && l[2] == 'u' && l[3] == 'n' && l[4] == 't';
  }

  // ---------------------------------------------------------------- query_database

  const ResultHeader: string := "\nResult:\n"

  /** One row as `", ".join(map(str, result))`. */
  function RowText(row: Row): string
  {
    Join(", ", row)
  }

  function RowTexts(rows: seq<Row>): seq<string>
  {
    seq(|rows|, i requires 0 <= i < |rows| => RowText(rows[i]))
  }

  /** `query_database`: the query as given, then the `Result:` header, then
      the rows, one per line; with no rows nothing follows the header. */
  function QueryDatabase(db: Database, query: string): (r: Reply<string>)
    ensures r.warned == Unbounded(query)
    ensures db(query).Err? ==> r.value == Err(QueryFailed(db(query).error))
    ensures db(query).Ok? ==>
      var head := "Query: " + query + ResultHeader;
      && r.value.Ok?
      && |head| <= |r.value.value| && r.value.value[..|head|] == head
      && (db(query).value == [] ==> r.value.value == head)
  {
    var e := ExecuteQuery(db, query);
    if e.rows.Err? then Reply(e.warned, Err(QueryFailed(e.rows.error)))
    else
      var out := "Query: " + query + ResultHeader + Join("\n", RowTexts(e.rows.value));
      assert out[..|"Query: " + query + ResultHeader|] == "Query: " + query + ResultHeader;
      Reply(e.warned, Ok(out))
  }

  /** After the header, the reply splits at line feeds into one `a, b, ...`
      text per row, in row order, provided no value holds a line feed. */
  lemma QueryDatabaseText(db: Database, query: string)
    requires db(query).Ok? && db(query).value != []
    requires var rows := db(query).value;
      forall i, k :: 0 <= i < |rows| && 0 <= k < |rows[i]| ==> '\n' !in rows[i][k]
    ensures var out := QueryDatabase(db, query).value.value;
      var head := "Query: " + query + ResultHeader;
      && |head| <= |out|
      && Split(out[|head|..], "\n") == RowTexts(db(query).value)
  {
    var rows := db(query).value;
    var out := QueryDatabase(db, query).value.value;
    var head := "Query: " + query + ResultHeader;
    var ts := RowTexts(rows);
    assert out == head + Join("\n", ts);
    assert out[|head|..] == Join("\n", ts);
    forall i | 0 <= i < |ts| ensures '\n' !in ts[i] {
      JoinAvoids(", ", rows[i], '\n');
    }
    SplitJoin(ts, '\n');
  }

  // ---------------------------------------------------------------- get_schema_of_given_table

  function SchemaQuery(table: string): string
  {
    "SELECT column_name, data_type FROM information_schema.columns WHERE table_name = LOWER('" + table + "')"
  }

  const SchemaColumns: seq<Column> := [Column("Column", false), Column("Data Type", false)]

  /** `get_schema_of_given_table`: the query filters with `WHERE`, so it never
      draws the warning; each row becomes `(Column: ..., Data Type: ...)`. */
  function GetSchemaOfGivenTable(db: Database, table: string): (r: Reply<string>)
    ensures !r.warned
    ensures db(SchemaQuery(table)).Err? ==> r.value == Err(QueryFailed(db(SchemaQuery(table)).error))
    ensures db(SchemaQuery(table)).Ok? ==> r.value == Tabulate(SchemaColumns, db(SchemaQuery(table)).value)
  {
    SchemaQueryLimited(table);
    Tabulated(db, SchemaQuery(table), SchemaColumns)
  }

  lemma SchemaQueryLimited(table: string)
    ensures !Unbounded(SchemaQuery(table))
  {
    var before := "SELECT column_name, data_type FROM information_schema.columns ";
    var after := " table_name = LOWER('" + table + "')";
    assert SchemaQuery(table) == before + "WHERE" + after;
    KeywordWhere();
    LimitedBy(before, "WHERE", after, 1);
  }

  /** A layout of two plain columns writes the line the f-string writes. */
  lemma PairEntry(a: string, b: string, row: Row)
    requires |row| >= 2
    ensures Entry([Column(a, false), Column(b, false)], row) == "(" + a + ": " + row[0] + ", " + b + ": " + row[1] + ")"
  {
    var fs := Fields([Column(a, false), Column(b, false)], row);
    assert |fs| == 2 && fs[0] == a + ": " + row[0] && fs[1] == b + ": " + row[1];
    assert Join(", ", fs) == fs[0] + ", " + Join(", ", fs[1..]);
    assert Join(", ", fs[1..]) == fs[1];
  }

  lemma SchemaLine(row: Row)
    requires |row| >= 2
    ensures Entry(SchemaColumns, row) == "(Column: " + row[0] + ", Data Type: " + row[1] + ")"
  {
    PairEntry("Column", "Data Type", row);
  }

  // ---------------------------------------------------------------- get_question_types

  function QuestionTypesQuery(q: Questionnaire): string
  {
    "SELECT DISTINCT type FROM " + EntriesTable(q)
  }

  const TypeColumns: seq<Column> := [Column("Type", true)]

  /** `get_question_types`: `DISTINCT` keeps the warning away; each row becomes
      `(Type: ...)` with its CR-LF pairs escaped. */
  function GetQuestionTypes(db: Database, q: Questionnaire): (r: Reply<string>)
    ensures !r.warned
    ensures db(QuestionTypesQuery(q)).Err? ==> r.value == Err(QueryFailed(db(QuestionTypesQuery(q)).error))
    ensures db(QuestionTypesQuery(q)).Ok? ==> r.value == Tabulate(TypeColumns, db(QuestionTypesQuery(q)).value)
  {
    QuestionTypesQueryLimited(q);
    Tabulated(db, QuestionTypesQuery(q), TypeColumns)
  }

  lemma QuestionTypesQueryLimited(q: Questionnaire)
    ensures !Unbounded(QuestionTypesQuery(q))
  {
    var after := " type FROM " + EntriesTable(q);
    assert QuestionTypesQuery(q) == "SELECT " + "DISTINCT" + after;
    KeywordDistinct();
    LimitedBy("SELECT ", "DISTINCT", after, 3);
  }

  /** A type line holds the value with every CR-LF pair turned into the four
      characters `\r\n`: no CR-LF pair is left in it, and a value without one is
      shown as it is. */
  lemma TypeLine(row: Row)
    requires |row| >= 1
    ensures var shown := Replace(row[0], CrLf, EscapedCrLf);
      && Entry(TypeColumns, row) == "(Type: " + shown + ")"
      && !Contains(shown, CrLf)
      && (!Contains(row[0], CrLf) ==> Entry(TypeColumns, row) == "(Type: " + row[0] + ")")
  {
    var shown := Replace(row[0], CrLf, EscapedCrLf);
    var fs := Fields(TypeColumns, row);
    assert |fs| == 1 && fs[0] == "Type: " + shown;
    EscapeRemovesCrLf(row[0]);
    if !Contains(row[0], CrLf) {
      ReplaceAbsent(row[0], CrLf, EscapedCrLf);
    }
  }

  // ---------------------------------------------------------------- get_questions

  /** `WHERE type IN (...)`, with the one-element-tuple fixup applied first and
      the escaped CR-LF restored second; nothing when no types are given. */
  function TypeFilter(types: seq<string>, render: string -> string): string
  {
    if types == [] then ""
    else "WHERE type IN " + Replace(InList(types, render), EscapedCrLf, CrLf)
  }

  function QuestionsQuery(q: Questionnaire, types: seq<string>, render: string -> string): string
  {
    "SELECT code, question FROM " + EntriesTable(q) + " " + TypeFilter(types, render)
  }

  const QuestionColumns: seq<Column> := [Column("Code", false), Column("Question", false)]

  /** `get_questions`: each row becomes `(Code: ..., Question: ...)`. */
  function GetQuestions(db: Database, q: Questionnaire, types: seq<string>, render: string -> string): (r: Reply<string>)
    ensures var query := QuestionsQuery(q, types, render);
      && r.warned == Unbounded(query)
      && (db(query).Err? ==> r.value == Err(QueryFailed(db(query).error)))
      && (db(query).Ok? ==> r.value == Tabulate(QuestionColumns, db(query).value))
  {
    Tabulated(db, QuestionsQuery(q, types, render), QuestionColumns)
  }

  /** The filter is left out exactly when no types are given, and with types
      it begins with `WHERE type IN (`, so a filtered query is never warned
      about. */
  lemma TypeFilterPresence(q: Questionnaire, types: seq<string>, render: string -> string)
    ensures TypeFilter(types, render) == "" <==> types == []
    ensures types != [] ==> !Unbounded(QuestionsQuery(q, types, render))
  {
    if types != [] {
      var rest := Replace(InList(types, render), EscapedCrLf, CrLf);
      assert QuestionsQuery(q, types, render)
        == ("SELECT code, question FROM " + EntriesTable(q) + " ") + "WHERE" + (" type IN " + rest);
      KeywordWhere();
      LimitedBy("SELECT code, question FROM " + EntriesTable(q) + " ", "WHERE", " type IN " + rest, 1);
    }
  }

  /** With one type whose text is shown by `repr` as the plain quoted text with
      its CR-LF pairs escaped, both fixups together give back a list naming
      exactly that value: `WHERE type IN ('<value>')`. */
  lemma SingleTypeFilterMatchesValue(x: string, render: string -> string)
    requires render(x) == PlainRepr(x)
    requires !Contains(render(x), TupleComma) && !Contains(x, EscapedCrLf)
    ensures TypeFilter([x], render) == "WHERE type IN ('" + x + "')"
  {
    var e := Replace(x, CrLf, EscapedCrLf);
    SingletonInList(x, render);
    assert InList([x], render) == "('" + (e + "')");
    UnescapeQuoted(e);
    UnescapeEscape(x);
  }

  /** Restoring CR-LF pairs leaves the quotes and parentheses around `e` alone. */
  lemma UnescapeQuoted(e: string)
    ensures Replace("('" + (e + "')"), EscapedCrLf, CrLf) == "('" + Replace(e, EscapedCrLf, CrLf) + "')"
  {
    var t := "('" + (e + "')");
    assert t[0] == '(' && t[1] == '\'';
    forall i | 0 <= i < 2 ensures !OccursAt(t, EscapedCrLf, i) {
      if i + 4 <= |t| {
        assert t[i..i + 4][0] == t[i] != EscapedCrLf[0];
      }
    }
    ReplaceSkipsPrefix("('", e + "')", EscapedCrLf, CrLf);
    ReplaceKeepsSuffix(e, "')", EscapedCrLf, CrLf);
  }

  /** With any number of types shown without `,)` and without a trailing comma,
      the list is `(t0, t1, ...)`: the one-element fixup removes only the
      one-element tuple's comma. */
  lemma TypeFilterList(types: seq<string>, render: string -> string)
    requires types != []
    requires forall i :: 0 <= i < |types| ==> FixupSafe(render(types[i]))
    ensures TypeFilter(types, render)
      == "WHERE type IN " + Replace("(" + Join(", ", Rendered(types, render)) + ")", EscapedCrLf, CrLf)
  {
    InListDropsOnlyTupleComma(types, render);
  }

  lemma QuestionLine(row: Row)
    requires |row| >= 2
    ensures Entry(QuestionColumns, row) == "(Code: " + row[0] + ", Question: " + row[1] + ")"
  {
    PairEntry("Code", "Question", row);
  }

  // ---------------------------------------------------------------- get_answers

  function AnswersQuery(q: Questionnaire, codes: seq<string>, render: string -> string): string
  {
    "SELECT DISTINCT code, answer FROM " + AnswersTable(q) + " WHERE code IN " + InList(codes, render)
  }

  /** `get_answers`: the query always filters, so it is never warned about; the
      rows are grouped by code as the loop groups them, or the call fails when
      a row is not a `(code, answer)` pair. */
  method GetAnswers(db: Database, q: Questionnaire, codes: seq<string>, render: string -> string)
    returns (r: Reply<Grouped>)
    ensures !r.warned
    ensures var query := AnswersQuery(q, codes, render);
      && (db(query).Err? ==> r.value == Err(QueryFailed(db(query).error)))
      && (db(query).Ok? ==> (r.value.Ok? <==> AllPairs(db(query).value)))
      && (db(query).Ok? && r.value.Err? ==> r.value.error == RowNotPair)
      && (r.value.Ok? ==> db(query).Ok? && r.value.value == Grouping(AsAnswers(db(query).value)))
  {
    var query := AnswersQuery(q, codes, render);
    AnswersQueryLimited(q, codes, render);
    var e := ExecuteQuery(db, query);
    if e.rows.Err? {
      return Reply(e.warned, Err(QueryFailed(e.rows.error)));
    }
    var grouped := GroupAnswers(e.rows.value);
    r := Reply(e.warned, grouped);
  }

  lemma AnswersQueryLimited(q: Questionnaire, codes: seq<string>, render: string -> string)
    ensures !Unbounded(AnswersQuery(q, codes, render))
  {
    var before := "SELECT DISTINCT code, answer FROM " + AnswersTable(q) + " ";
    var after := " code IN " + InList(codes, render);
    assert AnswersQuery(q, codes, render) == before + "WHERE" + after;
    KeywordWhere();
    LimitedBy(before, "WHERE", after, 1);
  }

  /** Nothing guards against an empty list of codes: the query then ends in
      `WHERE code IN ()`. */
  lemma EmptyCodesQuery(q: Questionnaire, render: string -> string)
    ensures AnswersQuery(q, [], render)
      == "SELECT DISTINCT code, answer FROM " + AnswersTable(q) + " WHERE code IN ()"
  {
    InListDropsOnlyTupleComma([], render);
    assert Rendered([], render) == [];
  }

  /** One code gives `WHERE code IN (<repr of the code>)`. */
  lemma SingleCodeQuery(q: Questionnaire, x: string, render: string -> string)
    requires !Contains(render(x), TupleComma)
    ensures AnswersQuery(q, [x], render)
      == "SELECT DISTINCT code, answer FROM " + AnswersTable(q) + " WHERE code IN (" + render(x) + ")"
  {
    SingletonInList(x, render);
  }

  // ---------------------------------------------------------------- fixed queries

  const BenchmarksQuery: string := "SELECT name, score FROM benchmarks"
  const BenchmarkColumns: seq<Column> := [Column("Name", false), Column("Score", false)]

  /** `get_benchmark_scores`: each row becomes `(Name: ..., Score: ...)`. */
  function GetBenchmarkScores(db: Database): (r: Reply<string>)
    ensures r.warned == Unbounded(BenchmarksQuery)
    ensures db(BenchmarksQuery).Err? ==> r.value == Err(QueryFailed(db(BenchmarksQuery).error))
    ensures db(BenchmarksQuery).Ok? ==> r.value == Tabulate(BenchmarkColumns, db(BenchmarksQuery).value)
  {
    Tabulated(db, BenchmarksQuery, BenchmarkColumns)
  }

  lemma BenchmarkLine(row: Row)
    requires |row| >= 2
    ensures Entry(BenchmarkColumns, row) == "(Name: " + row[0] + ", Score: " + row[1] + ")"
  {
    PairEntry("Name", "Score", row);
  }

  const ScoreMetricsQuery: string := "SELECT name, code FROM studentscoreentries"
  const ScoreMetricColumns: seq<Column> := [Column("Name", false), Column("Code", false)]

  /** `get_score_metrics`: each row becomes `(Name: ..., Code: ...)`. */
  function GetScoreMetrics(db: Database): (r: Reply<string>)
    ensures r.warned == Unbounded(ScoreMetricsQuery)
    ensures db(ScoreMetricsQuery).Err? ==> r.value == Err(QueryFailed(db(ScoreMetricsQuery).error))
    ensures db(ScoreMetricsQuery).Ok? ==> r.value == Tabulate(ScoreMetricColumns, db(ScoreMetricsQuery).value)
  {
    Tabulated(db, ScoreMetricsQuery, ScoreMetricColumns)
  }

  lemma ScoreMetricLine(row: Row)
    requires |row| >= 2
    ensures Entry(ScoreMetricColumns, row) == "(Name: " + row[0] + ", Code: " + row[1] + ")"
  {
    PairEntry("Name", "Code", row);
  }

  const CountriesQuery: string := "SELECT name, code, country_id FROM countries"
  const CountryColumns: seq<Column> := [Column("Name", false), Column("Code", false), Column("Country_Id", false)]

  /** `get_countries`: the table name `countries` contains the limiter word
      `count`, so this unfiltered query is never warned about; each row becomes
      `(Name: ..., Code: ..., Country_Id: ...)`. */
  function GetCountries(db: Database): (r: Reply<string>)
    ensures !r.warned
    ensures db(CountriesQuery).Err? ==> r.value == Err(QueryFailed(db(CountriesQuery).error))
    ensures db(CountriesQuery).Ok? ==> r.value == Tabulate(CountryColumns, db(CountriesQuery).value)
  {
    CountriesQueryLimited();
    Tabulated(db, CountriesQuery, CountryColumns)
  }

  lemma CountriesQueryLimited()
    ensures !Unbounded(CountriesQuery)
  {
    assert CountriesQuery == "SELECT name, code, country_id FROM " + "count" + "ries";
    KeywordCount();
    LimitedBy("SELECT name, code, country_id FROM ", "count", "ries", 0);
  }

  lemma CountryLine(row: Row)
    requires |row| >= 3
    ensures Entry(CountryColumns, row)
      == "(Name: " + row[0] + ", Code: " + row[1] + ", Country_Id: " + row[2] + ")"
  {
    TripleEntry("Name", "Code", "Country_Id", row);
  }

  /** A layout of three plain columns writes the line the f-string writes. */
  lemma TripleEntry(a: string, b: string, c: string, row: Row)
    requires |row| >= 3
    ensures Entry([Column(a, false), Column(b, false), Column(c, false)], row)
      == "(" + a + ": " + row[0] + ", " + b + ": " + row[1] + ", " + c + ": " + row[2] + ")"
  {
    var fs := Fields([Column(a, false), Column(b, false), Column(c, false)], row);
    assert |fs| == 3 && fs[0] == a + ": " + row[0] && fs[1] == b + ": " + row[1] && fs[2] == c + ": " + row[2];
    assert fs[1..][1..] == fs[2..];
    assert Join(", ", fs[2..]) == fs[2];
    assert Join(", ", fs[1..]) == fs[1] + ", " + fs[2];
    assert Join(", ", fs) == fs[0] + ", " + (fs[1] + ", " + fs[2]);
  }
}
