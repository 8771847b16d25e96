# Database tools of the PIRLS submission agent, modelled in Dafny

The agent answers questions about the PIRLS study by calling tools that query a
PostgreSQL database (src/submission/tools/database.py). This project models
what those tools do around the database:

- the advisory check in `execute_query`, which warns when a query has no limiter word;
- the Python string operations the tools rely on: `in`, `str.replace`, `join`, ASCII `lower` and `strip`. The tools never call `split`; the model's `Split` is only a helper that states the one-line-per-row properties;
- the `WHERE … IN (…)` lists built from `str(tuple(xs))`, together with their two fixups: the one-element-tuple comma and the CR-LF escapes;
- the per-row `(Label: value, ...)` layouts and the `Query:/Result:` envelope;
- the loop in `get_answers` that groups `(code, answer)` rows by code.

The database is a parameter, `Database = string -> Result<seq<Row>, string>`.
It maps a query text to rows of column texts, or to the message of the
exception the driver raised. Every tool returns a `Reply`, which holds two things:

- whether `execute_query` printed its warning;
- the value the tool returns, or the error it raised.

There are three kinds of error:

- `QueryFailed`: the driver's exception, re-raised by `execute_query`;
- `RowTooShort`: `value[k]` on a row that is too short;
- `RowNotPair`: `for code, answer in res` on a row that does not have exactly two values.

Modules:

- `PyStr` (pystr.dfy): Python string primitives and their laws.
- `Execution` (execution.dfy): `execute_query`.
- `Formatting` (formatting.dfy): the row layouts and the `IN` lists.
- `AnswerGrouping` (grouping.dfy): the `get_answers` loop, as a method with loop invariants.
- `Tools` (tools.dfy): the eight tools.

What the code does, which the model follows:

- `get_question_types` turns each real CR-LF pair in a type value into the four characters `\r\n` (database.py:99-101).
- In `get_questions`, the second fixup turns the four characters `\r\n` back into a real CR-LF pair (database.py:123-126). `repr` writes a CR-LF pair in a value as exactly those four characters.
- `get_answers` has no guard against an empty list of codes, so the query ends in `IN ()` (database.py:162).
- The answers are distinct only because of the `DISTINCT` in the SQL (database.py:162). The loop itself appends every row (database.py:167-168).

Where the docstrings and the code differ, the model follows the code:

- Several docstrings say a failing query "returns an error message" (database.py:69, :91, :119, :157, :180, :196, :212). In fact `execute_query` prints the exception and re-raises it (database.py:33-35). The model gives a `QueryFailed` error, not text.
- Several docstrings show each entry followed by a line feed (database.py:90, :118, :179, :195, :211). In fact the entries are joined with line feeds, so there is none after the last entry and the output is empty for no rows (`TabulateLines`).

## Model

| member | source | states |
|---|---|---|
| PyStr.ContainsIff | src/submission/tools/database.py:26 | `word in lq` holds exactly when the word occurs at some index of the text |
| PyStr.ReplaceIsJoinOfSplit | src/submission/tools/database.py:101 | `str.replace` replaces every occurrence, left to right and without overlap: the result is the split pieces joined by the replacement |
| PyStr.SplitJoin | src/submission/tools/database.py:52 | joining parts with a one-character separator none of them holds, then splitting at it, gives back the parts |
| PyStr.ReplaceAbsent | src/submission/tools/database.py:101 | a text without the pattern is left unchanged by `replace` |
| PyStr.ReplaceSkipsPrefix | src/submission/tools/database.py:126 | when no match starts inside a prefix, `replace` copies the prefix and works on the rest |
| PyStr.ReplaceKeepsSuffix | src/submission/tools/database.py:126 | a suffix whose characters are not in the pattern is copied through unchanged |
| PyStr.EscapeRemovesCrLf | src/submission/tools/database.py:99-101 | after CR-LF pairs are escaped, no CR-LF pair is left, and the result starts with a line feed only if the value does |
| PyStr.EscapeLeavesNoLf | src/submission/tools/database.py:99-101 | a value whose line feeds all end CR-LF pairs has no line feed once escaped |
| PyStr.UnescapeEscape | src/submission/tools/database.py:123-126 | turning the four-character escapes back into CR-LF pairs undoes the escaping, for text that does not already hold the escape |
| PyStr.Lower | src/submission/tools/database.py:25 | ASCII `lower()` keeps the length and lowers each character in place |
| PyStr.LowerStrip | src/submission/tools/database.py:25 | lower-casing and stripping commute |
| PyStr.LStripContains | src/submission/tools/database.py:25 | stripping leading whitespace keeps every word that does not start with whitespace |
| PyStr.RStripContains | src/submission/tools/database.py:25 | stripping trailing whitespace keeps every word that does not end with whitespace |
| Execution.AnyOccursIff | src/submission/tools/database.py:26 | `any(word in lq for word in words)` holds exactly when some word occurs in the text |
| Execution.ExecuteQuery | src/submission/tools/database.py:21-30 | the query always goes to the database, and the warning is printed exactly when no limiter word occurs in the lower-cased query |
| Execution.WarningIffNoLimiter | src/submission/tools/database.py:21-26 | the check on the stripped, lower-cased query is the same as "no limiter word at any index of the lower-cased query" |
| Execution.NotWarnedWhenLimited | src/submission/tools/database.py:26 | one occurrence of a limiter word rules out the warning |
| Execution.LimitedBy | src/submission/tools/database.py:26 | a limiter word written in any case, anywhere in the query, rules out the warning |
| Formatting.EntryIsOneLine | src/submission/tools/database.py:76 | a row's line has no line feed when no label or value holds one; an escaping column may hold line feeds inside CR-LF pairs |
| Formatting.TabulateLines | src/submission/tools/database.py:76 | when no label or value holds a line feed (an escaping column may hold one inside a CR-LF pair), the layout is empty for no rows, and otherwise it splits at line feeds into one `(...)` line per row in row order, with no trailing line feed |
| Formatting.InListDropsOnlyTupleComma | src/submission/tools/database.py:124-126 | when no shown element holds `,)` or ends in a comma, the fixed list is `(e0, e1, ...)` for any length, `(e0)` for one element and `()` for none |
| Formatting.SingletonInList | src/submission/tools/database.py:160-162 | one element gives `(repr(x))`, with the tuple's trailing comma gone |
| Formatting.FixupAltersCommaParenValue | src/submission/tools/database.py:124-126 | an element whose text holds `,)` loses that comma as well: `["a,)", "b"]` becomes `('a)', 'b')` |
| Formatting.FixupNotIdempotent | src/submission/tools/database.py:124 | the fixup is a single pass: `,,)` becomes `,)`, and a second pass would turn that into `)` |
| AnswerGrouping.GroupAnswers | src/submission/tools/database.py:165-168 | the loop fails with a ValueError exactly when some row is not a pair; otherwise it builds the ordered dictionary `Grouping` of the rows |
| AnswerGrouping.FirstSeenDistinct | src/submission/tools/database.py:165-168 | the dictionary's keys are distinct |
| AnswerGrouping.FirstSeenCodes | src/submission/tools/database.py:165-168 | a code is a key exactly when some row carries it |
| AnswerGrouping.FirstSeenOrder | src/submission/tools/database.py:165-168 | keys are in first-seen order: wherever a later key occurs, every earlier key has already occurred |
| AnswerGrouping.AnswersOfCodes | src/submission/tools/database.py:165-168 | a code's list is non-empty exactly when the code is a key, and each entry is the answer of a row with that code |
| AnswerGrouping.TotalIsRowCount | src/submission/tools/database.py:165-168 | the lengths of the lists add up to the number of rows |
| Tools.QueryDatabase | src/submission/tools/database.py:51-53 | warns as `execute_query` does; a failed query raises its error; a successful one yields text that starts with `Query: <query>`, a line feed and `Result:` with its line feed, and with no rows nothing follows that header |
| Tools.QueryDatabaseText | src/submission/tools/database.py:51-53 | when there are rows and no value holds a line feed, what follows the header splits at line feeds into one `a, b, ...` text per row, in row order |
| Tools.GetSchemaOfGivenTable | src/submission/tools/database.py:72-76 | never warns, because the query has `WHERE`; a failed query raises its error; otherwise the reply is the two-column layout of the rows |
| Tools.SchemaLine | src/submission/tools/database.py:76 | a row becomes `(Column: <v0>, Data Type: <v1>)` |
| Tools.GetQuestionTypes | src/submission/tools/database.py:94-101 | never warns, because the query has `DISTINCT`; otherwise the reply is the `Type` layout with CR-LF pairs escaped |
| Tools.TypeLine | src/submission/tools/database.py:99-101 | a row becomes `(Type: <value with CR-LF escaped>)`; that value holds no CR-LF pair, and a value without one is shown unchanged |
| Tools.GetQuestions | src/submission/tools/database.py:126-132 | warns exactly as `execute_query` does for the built query; otherwise the reply is the `Code`/`Question` layout of the rows |
| Tools.TypeFilterPresence | src/submission/tools/database.py:126-128 | the filter is empty exactly when no types are given, and a filtered query is never warned about |
| Tools.SingleTypeFilterMatchesValue | src/submission/tools/database.py:123-126 | for one type that `repr` shows as quoted text with escaped CR-LF pairs, the two fixups give `WHERE type IN ('<type>')` with the type's real CR-LF pairs |
| Tools.TypeFilterList | src/submission/tools/database.py:124-126 | for any number of fixup-safe types, the filter is `WHERE type IN ` followed by `(t0, t1, ...)` with the escapes restored |
| Tools.QuestionLine | src/submission/tools/database.py:132 | a row becomes `(Code: <v0>, Question: <v1>)` |
| Tools.GetAnswers | src/submission/tools/database.py:160-170 | never warns; a failed query raises its error; a row that is not a pair raises ValueError; otherwise the result is the rows grouped by code |
| Tools.EmptyCodesQuery | src/submission/tools/database.py:162 | an empty list of codes is not guarded against: the query ends in `WHERE code IN ()` |
| Tools.SingleCodeQuery | src/submission/tools/database.py:160-162 | one code gives `WHERE code IN (<repr of the code>)` |
| Tools.GetBenchmarkScores | src/submission/tools/database.py:183-187 | warns as `execute_query` does for its fixed query; otherwise the reply is the `Name`/`Score` layout |
| Tools.BenchmarkLine | src/submission/tools/database.py:187 | a row becomes `(Name: <v0>, Score: <v1>)` |
| Tools.GetScoreMetrics | src/submission/tools/database.py:199-203 | warns as `execute_query` does for its fixed query; otherwise the reply is the `Name`/`Code` layout |
| Tools.ScoreMetricLine | src/submission/tools/database.py:203 | a row becomes `(Name: <v0>, Code: <v1>)` |
| Tools.GetCountries | src/submission/tools/database.py:215-219 | never warns, because the table name `countries` contains the limiter word `count`; otherwise the reply is the three-column layout |
| Tools.CountryLine | src/submission/tools/database.py:219 | a row becomes `(Name: <v0>, Code: <v1>, Country_Id: <v2>)` |

## Left out

- The connection, the SQLAlchemy engine and the cursor: the database is the parameter `db`, and rows arrive with every value already as text. Python's `str()` of numbers, dates and `None` is therefore not modelled.
- Execution.ExecuteQuery: assumes that `ENGINE.connect()` succeeds. That call runs before the limiter check and outside the `try` (database.py:23). When it fails, the source raises without printing the warning. The model instead reports `warned` as the limiter check decides, and only the query can fail.
- Tools.GetQuestionTypes: assumes every `type` value is text. The code calls `value[0].replace(...)` with no `str()` around it (database.py:101), so a NULL `type` raises AttributeError. Rows in this model hold only text, so that error path is not modelled.
- The text of the two `print` calls in `execute_query`: the warning is the boolean `warned`, and the printed exception message is not modelled. The re-raise is the `QueryFailed` error.
- Python's `repr`: it is the parameter `render`. `PlainRepr` covers only text whose sole special characters are CR-LF pairs. It does not cover quotes, backslashes or other control characters.
- `json.dumps` in `get_answers`: the model stops at the ordered dictionary (`Grouped`) and does not produce the indented JSON text.
- Unicode `lower()` and `strip()`: ASCII lower-casing and Python's ASCII whitespace only.
- The `Literal` annotations on table names: they are modelled as the enumeration `Questionnaire`. Python does not enforce them at run time.
- Tools.GetBenchmarkScores: its contract gives the warning as `Unbounded` of the fixed query and does not prove that the warning is printed. It is printed, because the query holds no limiter word, but proving that needs a search of a long literal.
- Tools.GetScoreMetrics: the same as `GetBenchmarkScores`. The warning is printed, but this is not proved.
- Tools.GetQuestions: with no types, it is not proved that the warning is printed. Only the other direction is proved (`TypeFilterPresence`).
- The other source files are not part of this model:
  - src/submission/tools/external.py: an HTTP request and a CSV lookup;
  - src/submission/tools/plot.py: `exec` of generated code and an upload;
  - src/submission/crews and src/submission/create_submission.py: agent configuration;
  - src/static/util.py: engine and environment configuration.
