/** The grouping loop of `get_answers` (src/submission/tools/database.py,
    lines 165-168): each row is unpacked into a code and an answer, and the
    answer is appended to the list kept under the code in a dictionary of
    lists, whose keys keep the order in which they were first inserted. */
module AnswerGrouping {
  import opened Execution

  /** One `(code, answer)` result row. */
  datatype Answer = Answer(code: string, text: string)

  /** The insertion-ordered dictionary the loop builds: its keys in insertion
      order, and the list stored under each key. */
  datatype Grouped = Grouped(codes: seq<string>, answers: map<string, seq<string>>)

  /** Every row unpacks into exactly two values. */
  predicate AllPairs(rows: seq<Row>)
  {
    forall i :: 0 <= i < |rows| ==> |rows[i]| == 2
  }

  function AsAnswers(rows: seq<Row>): seq<Answer>
    requires AllPairs(rows)
  {
    seq(|rows|, i requires 0 <= i < |rows| => Answer(rows[i][0], rows[i][1]))
  }

  /** The distinct codes of `xs`, each where it first occurs. */
  function FirstSeen(xs: seq<Answer>): seq<string>
  {
    if xs == [] then []
    else
      var p := FirstSeen(xs[..|xs| - 1]);
      var c := xs[|xs| - 1].code;
      if c in p then p else p + [c]
  }

  /** The answers given under `c`, in row order. */
  function AnswersOf(xs: seq<Answer>, c: string): seq<string>
  {
    if xs == [] then []
    else
      var a := xs[|xs| - 1];
      AnswersOf(xs[..|xs| - 1], c) + (if a.code == c then [a.text] else [])
  }

  /** The dictionary the loop is meant to leave behind for the rows `xs`. */
  function Grouping(xs: seq<Answer>): Grouped
  {
    var keys := FirstSeen(xs);
    Grouped(keys, map c | c in keys :: AnswersOf(xs, c))
  }

  lemma AsAnswersStep(rows: seq<Row>, i: nat)
    requires i < |rows| && AllPairs(rows[..i + 1])
    ensures AllPairs(rows[..i])
    ensures AsAnswers(rows[..i + 1]) == AsAnswers(rows[..i]) + [Answer(rows[i][0], rows[i][1])]
  {
    assert rows[..i + 1][..i] == rows[..i];
    assert forall j :: 0 <= j < i ==> rows[..i + 1][j] == rows[..i][j];
  }

  /** The loop: it stops at the first row that does not unpack into a pair
      (Python's ValueError, which discards the partial dictionary); otherwise the
      dictionary it builds is `Grouping` of the rows. */
  method GroupAnswers(rows: seq<Row>) returns (r: Result<Grouped, ToolError>)
    ensures r.Err? <==> !AllPairs(rows)
    ensures r.Err? ==> r.error == RowNotPair
    ensures r.Ok? ==> AllPairs(rows) && r.value == Grouping(AsAnswers(rows))
  {
    var codes: seq<string> := [];
    var answers: map<string, seq<string>> := map[];
    var i := 0;
    while i < |rows|
      invariant 0 <= i <= |rows|
      invariant AllPairs(rows[..i])
      invariant codes == FirstSeen(AsAnswers(rows[..i]))
      invariant forall c :: c in answers <==> c in codes
      invariant forall c :: c in answers ==> answers[c] == AnswersOf(AsAnswers(rows[..i]), c)
    {
      var row := rows[i];
      if |row| != 2 {
        assert !AllPairs(rows) by { assert rows[i] == row; }
        return Err(RowNotPair);
      }
      assert AllPairs(rows[..i + 1]) by {
        assert forall j :: 0 <= j < i ==> rows[..i + 1][j] == rows[..i][j];
      }
      var code, answer := row[0], row[1];
      ghost var before := AsAnswers(rows[..i]);
      AsAnswersStep(rows, i);
      ghost var after := AsAnswers(rows[..i + 1]);
      assert after[..|after| - 1] == before;
      assert after[|after| - 1] == Answer(code, answer);
      if code !in answers {
        AnswersOfUnseen(before, code);
        codes := codes + [code];
        answers := answers[code := []];
      }
      answers := answers[code := answers[code] + [answer]];
      i := i + 1;
    }
    assert rows[..i] == rows;
    r := Ok(Grouped(codes, answers));
  }

  /** A code not yet among the keys has no answers yet. */
  lemma {:induction false} AnswersOfUnseen(xs: seq<Answer>, c: string)
    requires c !in FirstSeen(xs)
    ensures AnswersOf(xs, c) == []
  {
    if xs != [] {
      AnswersOfUnseen(xs[..|xs| - 1], c);
    }
  }

  /** The keys are distinct. */
  lemma {:induction false} FirstSeenDistinct(xs: seq<Answer>)
    ensures forall j, k :: 0 <= j < k < |FirstSeen(xs)| ==> FirstSeen(xs)[j] != FirstSeen(xs)[k]
  {
    if xs != [] {
      var p := FirstSeen(xs[..|xs| - 1]);
      var c := xs[|xs| - 1].code;
      FirstSeenDistinct(xs[..|xs| - 1]);
      if c !in p {
        var keys := p + [c];
        assert FirstSeen(xs) == keys;
        forall j, k | 0 <= j < k < |keys| ensures keys[j] != keys[k] {
          assert keys[j] == p[j] && p[j] in p;
          if k < |p| {
            assert keys[k] == p[k];
          } else {
            assert keys[k] == c;
          }
        }
      }
    }
  }

  /** The keys are exactly the codes that occur in the rows. */
  lemma {:induction false} FirstSeenCodes(xs: seq<Answer>, c: string)
    ensures c in FirstSeen(xs) <==> exists i :: 0 <= i < |xs| && xs[i].code == c
  {
    if xs != [] {
      var p := xs[..|xs| - 1];
      FirstSeenCodes(p, c);
      if exists i :: 0 <= i < |xs| && xs[i].code == c {
        var i :| 0 <= i < |xs| && xs[i].code == c;
        if i < |p| {
          assert p[i] == xs[i];
        }
      }
      if exists i :: 0 <= i < |p| && p[i].code == c {
        var i :| 0 <= i < |p| && p[i].code == c;
        assert xs[i] == p[i];
      }
    }
  }

  /** The keys come in first-seen order: wherever a later key occurs, every
      earlier key has already occurred before it. */
  lemma {:induction false} FirstSeenOrder(xs: seq<Answer>, j: nat, k: nat, i: nat)
    requires var keys := FirstSeen(xs); j < k < |keys|
    requires i < |xs| && xs[i].code == FirstSeen(xs)[k]
    ensures exists h :: 0 <= h < i && xs[h].code == FirstSeen(xs)[j]
  {
    var p := xs[..|xs| - 1];
    var keys := FirstSeen(xs);
    var pk := FirstSeen(p);
    if i < |p| {
      assert p[i] == xs[i];
      FirstSeenCodes(p, xs[i].code);
      assert keys[k] in pk;
      assert k < |pk|;
      assert keys[k] == pk[k] && keys[j] == pk[j];
      FirstSeenOrder(p, j, k, i);
      var h :| 0 <= h < i && p[h].code == pk[j];
      assert xs[h] == p[h];
    } else {
      // the last row: its code is `keys[k]`; `keys[j]` was seen in `p`
      assert keys[j] == pk[j] by {
        assert keys == pk || keys == pk + [xs[|xs| - 1].code];
      }
      FirstSeenCodes(p, pk[j]);
      var h :| 0 <= h < |p| && p[h].code == pk[j];
      assert xs[h] == p[h];
    }
  }

  /** A code has answers exactly when it is a key, and each answer it has is the
      answer of some row with that code. */
  lemma {:induction false} AnswersOfCodes(xs: seq<Answer>, c: string)
    ensures AnswersOf(xs, c) != [] <==> c in FirstSeen(xs)
    ensures forall t :: t in AnswersOf(xs, c) ==>
      exists i :: 0 <= i < |xs| && xs[i].code == c && xs[i].text == t
  {
    if xs != [] {
      var p := xs[..|xs| - 1];
      AnswersOfCodes(p, c);
      forall t | t in AnswersOf(xs, c)
        ensures exists i :: 0 <= i < |xs| && xs[i].code == c && xs[i].text == t
      {
        if t in AnswersOf(p, c) {
          var i :| 0 <= i < |p| && p[i].code == c && p[i].text == t;
          assert xs[i] == p[i];
        } else {
          assert xs[|xs| - 1].code == c && xs[|xs| - 1].text == t;
        }
      }
    }
  }

  /** The combined length of the lists stored under `keys`. */
  function Total(keys: seq<string>, xs: seq<Answer>): nat
  {
    if keys == [] then 0
    else Total(keys[..|keys| - 1], xs) + |AnswersOf(xs, keys[|keys| - 1])|
  }

  /** Every row's answer lands in exactly one list: the list lengths add up to
      the number of rows. */
  lemma {:induction false} TotalIsRowCount(xs: seq<Answer>)
    ensures Total(FirstSeen(xs), xs) == |xs|
  {
    if xs != [] {
      var p := xs[..|xs| - 1];
      var a := xs[|xs| - 1];
      var keys := FirstSeen(p);
      TotalIsRowCount(p);
      FirstSeenDistinct(p);
      assert xs == p + [a];
      if a.code in keys {
        TotalBump(keys, p, a);
      } else {
        TotalUnchanged(keys, p, a);
        AnswersOfUnseen(p, a.code);
        assert (keys + [a.code])[..|keys|] == keys;
      }
    }
  }

  /** Appending a row whose code is none of `keys` leaves their lists alone. */
  lemma {:induction false} TotalUnchanged(keys: seq<string>, xs: seq<Answer>, a: Answer)
    requires a.code !in keys
    ensures Total(keys, xs + [a]) == Total(keys, xs)
  {
    if keys != [] {
      var last := keys[|keys| - 1];
      TotalUnchanged(keys[..|keys| - 1], xs, a);
      assert (xs + [a])[..|xs|] == xs;
      assert AnswersOf(xs + [a], last) == AnswersOf(xs, last);
    }
  }

  /** Appending a row whose code is one of the distinct `keys` lengthens exactly
      one list by one. */
  lemma {:induction false} TotalBump(keys: seq<string>, xs: seq<Answer>, a: Answer)
    requires a.code in keys
    requires forall j, k :: 0 <= j < k < |keys| ==> keys[j] != keys[k]
    ensures Total(keys, xs + [a]) == Total(keys, xs) + 1
  {
    var init := keys[..|keys| - 1];
    var last := keys[|keys| - 1];
    assert (xs + [a])[..|xs|] == xs;
    if last == a.code {
      assert a.code !in init;
      TotalUnchanged(init, xs, a);
      assert AnswersOf(xs + [a], last) == AnswersOf(xs, last) + [a.text];
    } else {
      assert a.code in init by {
        var j :| 0 <= j < |keys| && keys[j] == a.code;
        assert init[j] == keys[j];
      }
      TotalBump(init, xs, a);
      assert AnswersOf(xs + [a], last) == AnswersOf(xs, last);
    }
  }
}
