/** `execute_query` (src/submission/tools/database.py, lines 10-35): the
    advisory check for unbounded queries and the hand-off of the query text
    to the database. The database itself is a parameter. */
module Execution {
  import opened PyStr

  datatype Result<T, E> = Ok(value: T) | Err(error: E)

  /** One result row: its columns, each already turned into text. */
  type Row = seq<string>

  /** The database: from query text to the rows it returns, or to the message
      of the exception the driver raised for it. */
  type Database = string -> Result<seq<Row>, string>

  /** How a tool call can fail. */
  datatype ToolError =
    | QueryFailed(message: string)  // execute_query re-raised the driver's exception
    | RowTooShort                    // a formatter indexed past the end of a row (IndexError)
    | RowNotPair                     // `for code, answer in res` met a row of another width (ValueError)

  /** The words whose presence marks a query as bounded (`record_limiters`). */
  const Limiters: seq<string> := ["count", "where", "limit", "distinct", "having", "group by"]

  /** Python's `any(word in lq for word in words)`. */
  predicate AnyOccurs(lq: string, words: seq<string>)
  {
    |words| > 0 && (Contains(lq, words[0]) || AnyOccurs(lq, words[1..]))
  }

  lemma {:induction false} AnyOccursIff(lq: string, words: seq<string>)
    ensures AnyOccurs(lq, words) <==> exists k :: 0 <= k < |words| && Contains(lq, words[k])
  {
    if |words| > 0 {
      AnyOccursIff(lq, words[1..]);
      if k :| 0 < k < |words| && Contains(lq, words[k]) {
        assert words[1..][k - 1] == words[k];
      }
    }
  }

  /** The condition under which the warning is printed: no limiter word in the
      stripped, lower-cased query. */
  predicate Unbounded(query: string)
  {
    !AnyOccurs(Lower(Strip(query)), Limiters)
  }

  /** What one call of execute_query does: whether it printed the warning, and
      what the database answered. */
  datatype Outcome = Outcome(warned: bool, rows: Result<seq<Row>, string>)

  /** The warning is advisory: the query goes to the database either way, and
      the warning is printed exactly when no limiter word occurs anywhere in
      the lower-cased query. */
  function ExecuteQuery(db: Database, query: string): (e: Outcome)
    ensures e.rows == db(query)
    ensures e.warned <==>
      forall k, i :: 0 <= k < |Limiters| ==> !OccursAt(Lower(query), Limiters[k], i)
  {
    WarningIffNoLimiter(query);
    Outcome(Unbounded(query), db(query))
  }

  /** Stripping does not matter to the check (every limiter word starts and ends
      with a letter), and `in` is a search for an occurrence. */
  lemma WarningIffNoLimiter(query: string)
    ensures Unbounded(query) <==>
      forall k, i :: 0 <= k < |Limiters| ==> !OccursAt(Lower(query), Limiters[k], i)
  {
    var lq := Lower(query);
    LowerStrip(query);
    AnyOccursIff(RStrip(LStrip(lq)), Limiters);
    forall k | 0 <= k < |Limiters|
      ensures Contains(RStrip(LStrip(lq)), Limiters[k]) <==> exists i :: OccursAt(lq, Limiters[k], i)
    {
      StripKeepsWord(lq, k);
    }
  }

  lemma StripKeepsWord(lq: string, k: nat)
    requires k < |Limiters|
    ensures Contains(RStrip(LStrip(lq)), Limiters[k]) <==> exists i :: OccursAt(lq, Limiters[k], i)
  {
    var w := Limiters[k];
    LimiterTrimmed(k);
    RStripContains(LStrip(lq), w);
    LStripContains(lq, w);
    ContainsIff(lq, w);
  }

  lemma LimiterTrimmed(k: nat)
    requires k < |Limiters|
    ensures var w := Limiters[k]; w != [] && !IsSpace(w[0]) && !IsSpace(w[|w| - 1])
  {
  }

  /** Finding one limiter word in the query rules the warning out. */
  lemma NotWarnedWhenLimited(query: string, k: nat, i: nat)
    requires k < |Limiters| && OccursAt(Lower(query), Limiters[k], i)
    ensures !Unbounded(query)
  {
    WarningIffNoLimiter(query);
    var w := Limiters[k];
    assert Unbounded(query) ==> !OccursAt(Lower(query), w, i);
  }

  /** A query that spells a limiter word in any mix of cases, anywhere, is never
      warned about. */
  lemma LimitedBy(before: string, word: string, after: string, k: nat)
    requires k < |Limiters| && Lower(word) == Limiters[k]
    ensures !Unbounded(before + word + after)
  {
    var q := before + word + after;
    var n := |before|;
    forall j | 0 <= j < |word| ensures Lower(q)[n + j] == Lower(word)[j] {
      assert q[n + j] == word[j];
    }
    assert Lower(q)[n..n + |word|] == Lower(word);
    NotWarnedWhenLimited(q, k, n);
  }
}
