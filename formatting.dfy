/** The text the tools build around the database: the one-line-per-row layouts
    of the `map(lambda value: f'(...)', res)` formatters, and the `IN (...)`
    lists made from `str(tuple(xs))` (src/submission/tools/database.py). */
module Formatting {
  import opened PyStr
  import opened Execution

  /** One labelled field of a result line, as in `Data Type: {value[1]}`.
      A column marked `escapesCrLf` shows its value with every CR-LF pair
      replaced by the four characters `\r\n`. */
  datatype Column = Column(name: string, escapesCrLf: bool)

  function CellText(c: Column, v: string): string
  {
    if c.escapesCrLf then Replace(v, CrLf, EscapedCrLf) else v
  }

  /** The fields of one line: the k-th column shows the k-th value of the row. */
  function Fields(cols: seq<Column>, row: Row): seq<string>
    requires |cols| <= |row|
  {
    seq(|cols|, k requires 0 <= k < |cols| => cols[k].name + ": " + CellText(cols[k], row[k]))
  }

  /** One line: `(label0: value0, label1: value1, ...)`. */
  function Entry(cols: seq<Column>, row: Row): string
    requires |cols| <= |row|
  {
    "(" + Join(", ", Fields(cols, row)) + ")"
  }

  /** Every row has at least `n` values. */
  predicate RowsHave(rows: seq<Row>, n: nat)
  {
    forall i :: 0 <= i < |rows| ==> n <= |rows[i]|
  }

  function Entries(cols: seq<Column>, rows: seq<Row>): seq<string>
    requires RowsHave(rows, |cols|)
  {
    seq(|rows|, i requires 0 <= i < |rows| => Entry(cols, rows[i]))
  }

  /** `'\n'.join(map(lambda value: f'(...)', res))`: a row with fewer values than
      the layout names makes `value[k]` raise IndexError. */
  function Tabulate(cols: seq<Column>, rows: seq<Row>): Result<string, ToolError>
  {
    if RowsHave(rows, |cols|) then Ok(Join("\n", Entries(cols, rows))) else Err(RowTooShort)
  }

  /** A value can be shown on one line in column `c`: it holds no line feed,
      or, in an escaping column, none outside a CR-LF pair. */
  predicate FitsOnLine(c: Column, v: string)
  {
    if c.escapesCrLf then LfOnlyInCrLf(v) else '\n' !in v
  }

  predicate LayoutFitsRows(cols: seq<Column>, rows: seq<Row>)
    requires RowsHave(rows, |cols|)
  {
    && (forall k :: 0 <= k < |cols| ==> '\n' !in cols[k].name)
    && (forall i, k :: 0 <= i < |rows| && 0 <= k < |cols| ==> FitsOnLine(cols[k], rows[i][k]))
  }

  lemma {:induction false} JoinAvoids(sep: string, parts: seq<string>, c: char)
    requires c !in sep && forall k :: 0 <= k < |parts| ==> c !in parts[k]
    ensures c !in Join(sep, parts)
  {
    if |parts| > 1 {
      JoinAvoids(sep, parts[1..], c);
    }
  }

  lemma {:induction false} JoinEndsWith(sep: string, parts: seq<string>)
    requires |parts| > 0 && parts[|parts| - 1] != []
    ensures var j := Join(sep, parts); j != [] && j[|j| - 1] == parts[|parts| - 1][|parts[|parts| - 1]| - 1]
  {
    if |parts| > 1 {
      JoinEndsWith(sep, parts[1..]);
    }
  }

  /** A line of the layout holds no line feed when its values fit on one line. */
  lemma EntryIsOneLine(cols: seq<Column>, row: Row)
    requires |cols| <= |row|
    requires forall k :: 0 <= k < |cols| ==> '\n' !in cols[k].name && FitsOnLine(cols[k], row[k])
    ensures '\n' !in Entry(cols, row)
  {
    var fs := Fields(cols, row);
    forall k | 0 <= k < |cols| ensures '\n' !in fs[k] {
      if cols[k].escapesCrLf {
        EscapeLeavesNoLf(row[k]);
      }
    }
    JoinAvoids(", ", fs, '\n');
  }

  /** The formatter's output is the empty text for no rows; otherwise it splits at
      line feeds into exactly one `(...)` line per row, in row order, and it ends
      with the last line's `)`, not with a line feed. */
  lemma TabulateLines(cols: seq<Column>, rows: seq<Row>)
    requires RowsHave(rows, |cols|) && LayoutFitsRows(cols, rows)
    ensures Tabulate(cols, rows).Ok?
    ensures rows == [] ==> Tabulate(cols, rows).value == ""
    ensures rows != [] ==>
      var out := Tabulate(cols, rows).value;
      && Split(out, "\n") == Entries(cols, rows)
      && out[|out| - 1] == ')'
    ensures forall i :: 0 <= i < |rows| ==>
      var line := Entries(cols, rows)[i];
      line[0] == '(' && line[|line| - 1] == ')' && '\n' !in line
  {
    var es := Entries(cols, rows);
    forall i | 0 <= i < |rows| ensures '\n' !in es[i] {
      EntryIsOneLine(cols, rows[i]);
    }
    if rows != [] {
      SplitJoin(es, '\n');
      JoinEndsWith("\n", es);
    }
  }

  /** Python's `str(tuple(xs))` with each element shown as `rs[i]`: a one-element
      tuple keeps a comma before the closing parenthesis. */
  function TupleText(rs: seq<string>): string
  {
    "(" + Join(", ", rs) + (if |rs| == 1 then "," else "") + ")"
  }

  /** Each element as Python's `repr` would show it; `render` stands for `repr`. */
  function Rendered(xs: seq<string>, render: string -> string): seq<string>
  {
    seq(|xs|, i requires 0 <= i < |xs| => render(xs[i]))
  }

  const TupleComma: string := ",)"
  const CloseParen: string := ")"

  /** `str(tuple(xs)).replace(",)", ")")`: the list behind `IN`, with the
      one-element-tuple fixup applied. */
  function InList(xs: seq<string>, render: string -> string): string
  {
    Replace(TupleText(Rendered(xs, render)), TupleComma, CloseParen)
  }

  /** A shown element the fixup cannot touch: it holds no `,)` and does not end in a comma.
      Python's `repr` of a string ends in a quote, so the first condition is the one that matters. */
  predicate FixupSafe(r: string)
  {
    !Contains(r, TupleComma) && (r == [] || r[|r| - 1] != ',')
  }

  /** With no `,)` inside the shown elements, the fixup removes exactly the
      one-element tuple's trailing comma: the list is `(e0, e1, ...)` for any length,
      `(e0)` for one element and `()` for none. */
  lemma InListDropsOnlyTupleComma(xs: seq<string>, render: string -> string)
    requires forall i :: 0 <= i < |xs| ==> FixupSafe(render(xs[i]))
    ensures InList(xs, render) == "(" + Join(", ", Rendered(xs, render)) + ")"
  {
    var rs := Rendered(xs, render);
    var tail := if |rs| == 1 then TupleComma else CloseParen;
    assert TupleText(rs) == "(" + (Join(", ", rs) + tail);
    CommaParenAt("(" + (Join(", ", rs) + tail), 0);
    ReplaceSkipsPrefix("(", Join(", ", rs) + tail, TupleComma, CloseParen);
    if rs == [] {
      assert Join(", ", rs) + tail == CloseParen;
      ClosingFixup(CloseParen);
    } else {
      JoinFixup(rs, tail);
    }
  }

  /** The single-type and single-code case of both `IN` builders. */
  lemma SingletonInList(x: string, render: string -> string)
    requires !Contains(render(x), TupleComma)
    ensures InList([x], render) == "(" + render(x) + ")"
  {
    var r := render(x);
    assert Rendered([x], render) == [r];
    assert TupleText([r]) == "(" + r + TupleComma;
    NoFixupInside(r, TupleComma);
    forall i | 0 <= i < |"(" + r| ensures !OccursAt("(" + r + TupleComma, TupleComma, i) {
      if 0 < i {
        OccursShift("(" + r + TupleComma, TupleComma, i - 1);
        assert ("(" + r + TupleComma)[1..] == r + TupleComma;
      }
    }
    ReplaceSkipsPrefix("(" + r, TupleComma, TupleComma, CloseParen);
    ClosingFixup(TupleComma);
  }

  lemma ClosingFixup(tail: string)
    requires tail == TupleComma || tail == CloseParen
    ensures Replace(tail, TupleComma, CloseParen) == CloseParen
  {
    if tail == CloseParen {
      assert !StartsWith(tail, TupleComma);
      assert Replace(tail, TupleComma, CloseParen) == [')'] + Replace([], TupleComma, CloseParen);
    } else {
      assert StartsWith(tail, TupleComma);
    }
  }

  /** `,)` occurs at `i` exactly when a comma sits there and `)` right after it. */
  lemma CommaParenAt(s: string, i: int)
    ensures OccursAt(s, TupleComma, i) <==> 0 <= i && i + 1 < |s| && s[i] == ',' && s[i + 1] == ')'
  {
    if 0 <= i && i + 1 < |s| {
      assert s[i..i + 2] == [s[i], s[i + 1]];
    }
  }

  /** Within `r + q`, no `,)` starts inside `r` (the last position of `r` needs `q` to
      start with `)`, which `FixupSafe` or `q`'s first character excludes). */
  lemma NoFixupInside(r: string, q: string)
    requires !Contains(r, TupleComma)
    requires (r == [] || r[|r| - 1] != ',') || (q != [] && q[0] != ')')
    ensures forall i :: 0 <= i < |r| ==> !OccursAt(r + q, TupleComma, i)
  {
    ContainsIff(r, TupleComma);
    forall i | 0 <= i < |r| ensures !OccursAt(r + q, TupleComma, i) {
      CommaParenAt(r + q, i);
      if i + 2 <= |r| {
        CommaParenAt(r, i);
        assert !OccursAt(r, TupleComma, i);
      } else if q != [] {
        assert (r + q)[i] == r[|r| - 1];
        assert (r + q)[i + 1] == q[0];
      }
    }
  }

  lemma {:induction false} JoinFixup(rs: seq<string>, tail: string)
    requires |rs| >= 1 && forall i :: 0 <= i < |rs| ==> FixupSafe(rs[i])
    requires tail == TupleComma || tail == CloseParen
    ensures Replace(Join(", ", rs) + tail, TupleComma, CloseParen) == Join(", ", rs) + CloseParen
  {
    var r := rs[0];
    assert FixupSafe(r);
    if |rs| == 1 {
      NoFixupInside(r, tail);
      ReplaceSkipsPrefix(r, tail, TupleComma, CloseParen);
      ClosingFixup(tail);
    } else {
      var rest := Join(", ", rs[1..]) + tail;
      assert Join(", ", rs) + tail == (r + ", ") + rest;
      NoFixupBeforeSeparator(r, rest);
      ReplaceSkipsPrefix(r + ", ", rest, TupleComma, CloseParen);
      assert forall i :: 0 <= i < |rs[1..]| ==> rs[1..][i] == rs[i + 1];
      JoinFixup(rs[1..], tail);
    }
  }

  /** No `,)` starts in a fixup-safe element or in the `, ` after it. */
  lemma NoFixupBeforeSeparator(r: string, rest: string)
    requires FixupSafe(r)
    ensures forall i :: 0 <= i < |r + ", "| ==> !OccursAt((r + ", ") + rest, TupleComma, i)
  {
    var s := (r + ", ") + rest;
    assert s == r + (", " + rest);
    NoFixupInside(r, ", " + rest);
    assert s[|r|] == ',' && s[|r| + 1] == ' ';
    forall i | 0 <= i < |r + ", "| ensures !OccursAt(s, TupleComma, i) {
      CommaParenAt(s, i);
    }
  }

  /** Python's `repr` on text without quotes, backslashes or control characters
      other than CR-LF pairs: the text in single quotes, each CR-LF pair escaped. */
  function PlainRepr(x: string): string
  {
    "'" + Replace(x, CrLf, EscapedCrLf) + "'"
  }

  /** The fixup is blind to quoting: an element that itself holds `,)` loses its
      comma, so the list no longer names the value it was given. */
  lemma FixupAltersCommaParenValue()
    ensures PlainRepr("a,)") == "'a,)'" && PlainRepr("b") == "'b'"
    ensures InList(["a,)", "b"], PlainRepr) == "('a)', 'b')"
  {
    CommaParenTupleText();
    CommaParenFixup();
  }

  lemma CommaParenTupleText()
    ensures PlainRepr("a,)") == "'a,)'" && PlainRepr("b") == "'b'"
    ensures TupleText(Rendered(["a,)", "b"], PlainRepr)) == "('a" + (",)" + "', 'b')")
  {
    PlainReprOfPlain("a,)");
    PlainReprOfPlain("b");
    var rs := Rendered(["a,)", "b"], PlainRepr);
    assert rs[0] == "'a,)'" && rs[1] == "'b'";
    assert rs == ["'a,)'", "'b'"];
    assert rs[1..] == ["'b'"];
    assert Join(", ", rs) == "'a,)'" + ", " + "'b'";
  }

  lemma CommaParenFixup()
    ensures Replace("('a" + (",)" + "', 'b')"), TupleComma, CloseParen) == "('a)', 'b')"
  {
    CommaParenHead();
    CommaParenTail();
    FixupBetween("('a", "', 'b')");
  }

  /** A `,)` with no match before it and none after it is the only change. */
  lemma FixupBetween(p: string, u: string)
    requires forall i :: 0 <= i < |p| ==> !OccursAt(p + (TupleComma + u), TupleComma, i)
    requires Replace(u, TupleComma, CloseParen) == u
    ensures Replace(p + (TupleComma + u), TupleComma, CloseParen) == p + CloseParen + u
  {
    ReplaceSkipsPrefix(p, TupleComma + u, TupleComma, CloseParen);
    assert StartsWith(TupleComma + u, TupleComma);
    assert (TupleComma + u)[2..] == u;
  }

  lemma CommaParenHead()
    ensures forall i :: 0 <= i < 3 ==> !OccursAt("('a" + (",)" + "', 'b')"), TupleComma, i)
  {
    var t := "('a" + (",)" + "', 'b')");
    assert t[0] == '(' && t[1] == '\'' && t[2] == 'a';
    forall i | 0 <= i < 3 ensures !OccursAt(t, TupleComma, i) {
      CommaParenAt(t, i);
    }
  }

  lemma CommaParenTail()
    ensures Replace("', 'b')", TupleComma, CloseParen) == "', 'b')"
  {
    var u := "', 'b')";
    assert u[1] == ',' && u[2] == ' ';
    assert forall i :: 0 <= i < |u| && i != 1 ==> u[i] != ',';
    forall i ensures !OccursAt(u, TupleComma, i) {
      CommaParenAt(u, i);
    }
    ContainsIff(u, TupleComma);
    ReplaceAbsent(u, TupleComma, CloseParen);
  }

  /** The fixup is one left-to-right pass, not a fixed point: `,,)` becomes `,)`,
      which a second pass would change again. */
  lemma FixupNotIdempotent()
    ensures Replace(",,)", TupleComma, CloseParen) == ",)"
    ensures Replace(",)", TupleComma, CloseParen) == ")"
  {
    assert StartsWith(",)", TupleComma);
    assert Replace(",)", TupleComma, CloseParen) == CloseParen + Replace([], TupleComma, CloseParen);
    CommaParenAt(",,)", 0);
    ReplaceStep(",,)", TupleComma, CloseParen);
    assert ",,)"[1..] == ",)";
  }

  lemma PlainReprOfPlain(x: string)
    requires !Contains(x, CrLf)
    ensures PlainRepr(x) == "'" + x + "'"
  {
    ReplaceAbsent(x, CrLf, EscapedCrLf);
  }
}
