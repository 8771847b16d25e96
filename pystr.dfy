/** The Python `str` operations the database tools are built from:
    `in`, `replace`, `join`, `lower` and `strip`, and `Split`, which the tools
    never call but which states their line-per-row properties.
    Text is a sequence of characters; case and whitespace are ASCII only. */
module PyStr {

  /** The two-character carriage-return line-feed pair. */
  const CrLf: string := "\r\n"
  /** The four characters backslash, `r`, backslash, `n`: the escaped form of CrLf. */
  const EscapedCrLf: string := "\\r\\n"

  /** `w` occurs in `s` starting at position `i`. */
  predicate OccursAt(s: string, w: string, i: int)
  {
    0 <= i && i + |w| <= |s| && s[i..i + |w|] == w
  }

  predicate StartsWith(s: string, w: string)
  {
    |w| <= |s| && s[..|w|] == w
  }

  /** Python's `w in s`: a left-to-right scan for `w` (the empty string is in every string). */
  predicate Contains(s: string, w: string)
  {
    StartsWith(s, w) || (|s| > 0 && Contains(s[1..], w))
  }

  /** The scan finds `w` exactly when `w` occurs somewhere in `s`. */
  lemma {:induction false} ContainsIff(s: string, w: string)
    ensures Contains(s, w) <==> exists i :: OccursAt(s, w, i)
  {
    assert StartsWith(s, w) <==> OccursAt(s, w, 0);
    if |s| > 0 {
      ContainsIff(s[1..], w);
      if Contains(s[1..], w) {
        var i :| OccursAt(s[1..], w, i);
        assert s[1..][i..i + |w|] == s[i + 1..i + 1 + |w|];
        assert OccursAt(s, w, i + 1);
      }
      if i :| OccursAt(s, w, i) && i > 0 {
        assert s[1..][i - 1..i - 1 + |w|] == s[i..i + |w|];
        assert OccursAt(s[1..], w, i - 1);
      }
    } else {
      assert forall i :: OccursAt(s, w, i) ==> i == 0;
    }
  }

  /** Python's `s.replace(pat, rep)`: every occurrence of `pat`, found scanning
      left to right without overlap, is replaced by `rep`. With an empty `pat`,
      `rep` is inserted before every character and at the end. */
  function Replace(s: string, pat: string, rep: string): string
    decreases |s|
  {
    if pat == [] then Interleave(s, rep)
    else if s == [] then []
    else if StartsWith(s, pat) then rep + Replace(s[|pat|..], pat, rep)
    else [s[0]] + Replace(s[1..], pat, rep)
  }

  function Interleave(s: string, rep: string): string
  {
    if s == [] then rep else rep + [s[0]] + Interleave(s[1..], rep)
  }

  /** Python's `sep.join(parts)`. */
  function Join(sep: string, parts: seq<string>): string
  {
    if |parts| == 0 then []
    else if |parts| == 1 then parts[0]
    else parts[0] + sep + Join(sep, parts[1..])
  }

  /** Python's `s.split(sep)` for a non-empty separator: not called by the
      tools, it is used here to state that a joined text falls apart into its
      parts again, and to characterise `Replace`. */
  function Split(s: string, sep: string): (r: seq<string>)
    requires sep != []
    ensures |r| >= 1
  {
    if s == [] then [[]]
    else if StartsWith(s, sep) then [[]] + Split(s[|sep|..], sep)
    else
      var t := Split(s[1..], sep);
      [[s[0]] + t[0]] + t[1..]
  }

  lemma JoinCons(sep: string, p: string, t: seq<string>)
    requires |t| >= 1
    ensures Join(sep, [p] + t) == p + sep + Join(sep, t)
  {
    assert ([p] + t)[1..] == t;
  }

  /** One step of the split scan. */
  lemma SplitStep(s: string, sep: string)
    requires sep != [] && s != []
    ensures StartsWith(s, sep) ==> Split(s, sep) == [[]] + Split(s[|sep|..], sep)
    ensures !StartsWith(s, sep) ==>
      var t := Split(s[1..], sep); Split(s, sep) == [[s[0]] + t[0]] + t[1..]
  {
  }

  /** Prepending a character to the first piece prepends it to the joined text. */
  lemma JoinHead(sep: string, c: char, t: seq<string>)
    requires |t| >= 1
    ensures Join(sep, [[c] + t[0]] + t[1..]) == [c] + Join(sep, t)
  {
    if |t| > 1 {
      JoinCons(sep, [c] + t[0], t[1..]);
      JoinCons(sep, t[0], t[1..]);
      assert t == [t[0]] + t[1..];
    }
  }

  /** Python's identity `s.replace(pat, rep) == rep.join(s.split(pat))`:
      replace cuts the text at every occurrence that split finds, and nowhere else. */
  lemma {:induction false} ReplaceIsJoinOfSplit(s: string, pat: string, rep: string)
    requires pat != []
    ensures Replace(s, pat, rep) == Join(rep, Split(s, pat))
  {
    if s != [] {
      if StartsWith(s, pat) {
        ReplaceIsJoinOfSplit(s[|pat|..], pat, rep);
        ReplaceSplitAtMatch(s, pat, rep);
      } else {
        ReplaceIsJoinOfSplit(s[1..], pat, rep);
        ReplaceSplitAtChar(s, pat, rep);
      }
    }
  }

  lemma ReplaceSplitAtMatch(s: string, pat: string, rep: string)
    requires pat != [] && s != [] && StartsWith(s, pat)
    requires Replace(s[|pat|..], pat, rep) == Join(rep, Split(s[|pat|..], pat))
    ensures Replace(s, pat, rep) == Join(rep, Split(s, pat))
  {
    var t := Split(s[|pat|..], pat);
    SplitStep(s, pat);
    assert Split(s, pat) == [[]] + t;
    JoinCons(rep, [], t);
    assert Join(rep, Split(s, pat)) == rep + Join(rep, t);
  }

  lemma ReplaceSplitAtChar(s: string, pat: string, rep: string)
    requires pat != [] && s != [] && !StartsWith(s, pat)
    requires Replace(s[1..], pat, rep) == Join(rep, Split(s[1..], pat))
    ensures Replace(s, pat, rep) == Join(rep, Split(s, pat))
  {
    var t := Split(s[1..], pat);
    SplitStep(s, pat);
    assert Split(s, pat) == [[s[0]] + t[0]] + t[1..];
    JoinHead(rep, s[0], t);
  }

  /** Text in which `pat` does not occur is left unchanged by replace. */
  lemma {:induction false} ReplaceAbsent(s: string, pat: string, rep: string)
    requires pat != [] && !Contains(s, pat)
    ensures Replace(s, pat, rep) == s
  {
    if s != [] {
      ReplaceAbsent(s[1..], pat, rep);
      assert s == [s[0]] + s[1..];
    }
  }

  /** A prefix `p` at which no occurrence of `pat` starts is copied through unchanged. */
  lemma {:induction false} ReplaceSkipsPrefix(p: string, q: string, pat: string, rep: string)
    requires pat != []
    requires forall i :: 0 <= i < |p| ==> !OccursAt(p + q, pat, i)
    ensures Replace(p + q, pat, rep) == p + Replace(q, pat, rep)
  {
    if p == [] {
      assert p + q == q;
    } else {
      var s, s1, r := p + q, p[1..] + q, Replace(q, pat, rep);
      NoOccurrenceInTail(p, q, pat);
      ReplaceStep(s, pat, rep);
      ReplaceSkipsPrefix(p[1..], q, pat, rep);
      calc {
        Replace(s, pat, rep);
        [s[0]] + Replace(s1, pat, rep);
        [p[0]] + (p[1..] + r);
        { assert p == [p[0]] + p[1..]; }
        p + r;
      }
    }
  }

  lemma NoOccurrenceInTail(p: string, q: string, pat: string)
    requires p != []
    requires forall i :: 0 <= i < |p| ==> !OccursAt(p + q, pat, i)
    ensures (p + q)[1..] == p[1..] + q
    ensures forall i :: 0 <= i < |p| - 1 ==> !OccursAt(p[1..] + q, pat, i)
  {
    var s := p + q;
    assert s[1..] == p[1..] + q;
    forall i | 0 <= i < |p| - 1
      ensures !OccursAt(p[1..] + q, pat, i)
    {
      OccursShift(s, pat, i);
    }
  }

  lemma OccursShift(s: string, w: string, i: nat)
    requires s != []
    ensures OccursAt(s[1..], w, i) <==> OccursAt(s, w, i + 1)
  {
    if i + 1 + |w| <= |s| {
      assert s[1..][i..i + |w|] == s[i + 1..i + 1 + |w|];
    }
  }

  /** One step of the replace scan on text that does not start with `pat`. */
  lemma ReplaceStep(s: string, pat: string, rep: string)
    requires pat != [] && s != [] && !OccursAt(s, pat, 0)
    ensures Replace(s, pat, rep) == [s[0]] + Replace(s[1..], pat, rep)
  {
    assert !StartsWith(s, pat);
  }

  /** Splitting at a one-character separator undoes joining with it,
      provided no piece contains that character. */
  lemma {:induction false} SplitJoin(parts: seq<string>, c: char)
    requires |parts| >= 1
    requires forall k :: 0 <= k < |parts| ==> c !in parts[k]
    ensures Split(Join([c], parts), [c]) == parts
  {
    if |parts| == 1 {
      SplitNoSeparator(parts[0], c);
    } else {
      SplitJoin(parts[1..], c);
      SplitAfterPiece(parts[0], Join([c], parts[1..]), c);
      assert parts == [parts[0]] + parts[1..];
    }
  }

  lemma {:induction false} SplitNoSeparator(p: string, c: char)
    requires c !in p
    ensures Split(p, [c]) == [p]
  {
    if p != [] {
      SplitNoSeparator(p[1..], c);
      assert p == [p[0]] + p[1..];
    }
  }

  lemma {:induction false} SplitAfterPiece(p: string, t: string, c: char)
    requires c !in p
    ensures Split(p + [c] + t, [c]) == [p] + Split(t, [c])
  {
    var s := p + [c] + t;
    if p == [] {
      assert s[1..] == t;
    } else {
      assert s[1..] == p[1..] + [c] + t;
      SplitAfterPiece(p[1..], t, c);
      assert p == [p[0]] + p[1..];
    }
  }

  /** Escaping every CR-LF pair leaves no CR-LF pair behind; and the escaped
      text starts with a line feed only when the original did. */
  lemma {:induction false} EscapeRemovesCrLf(s: string)
    ensures !Contains(Replace(s, CrLf, EscapedCrLf), CrLf)
    ensures var t := Replace(s, CrLf, EscapedCrLf); t != [] && t[0] == '\n' ==> s[0] == '\n'
  {
    var t := Replace(s, CrLf, EscapedCrLf);
    if s == [] {
    } else if StartsWith(s, CrLf) {
      EscapeRemovesCrLf(s[2..]);
      NoCrLfAfterPlainPrefix(EscapedCrLf, Replace(s[2..], CrLf, EscapedCrLf));
    } else {
      var u := Replace(s[1..], CrLf, EscapedCrLf);
      EscapeRemovesCrLf(s[1..]);
      assert t == [s[0]] + u;
      assert t[1..] == u;
    }
  }

  /** Every line feed of `v` ends a CR-LF pair. */
  predicate LfOnlyInCrLf(v: string)
  {
    forall i :: 0 <= i < |v| && v[i] == '\n' ==> 0 < i && v[i - 1] == '\r'
  }

  /** When every line feed belongs to a CR-LF pair, escaping the pairs leaves
      no line feed at all. */
  lemma {:induction false} EscapeLeavesNoLf(v: string)
    requires LfOnlyInCrLf(v)
    ensures '\n' !in Replace(v, CrLf, EscapedCrLf)
  {
    if v != [] {
      EscapeStep(v);
      assert |v| >= 2 && v[1] == '\n' ==> StartsWith(v, CrLf) by {
        if |v| >= 2 && v[1] == '\n' {
          assert v[..2] == CrLf;
        }
      }
      if StartsWith(v, CrLf) {
        forall i | 0 <= i < |v[2..]| && v[2..][i] == '\n'
          ensures 0 < i && v[2..][i - 1] == '\r'
        {
          assert v[i + 2] == '\n';
        }
        EscapeLeavesNoLf(v[2..]);
      } else {
        forall i | 0 <= i < |v[1..]| && v[1..][i] == '\n'
          ensures 0 < i && v[1..][i - 1] == '\r'
        {
          assert v[i + 1] == '\n';
        }
        EscapeLeavesNoLf(v[1..]);
      }
    }
  }

  lemma {:induction false} NoCrLfAfterPlainPrefix(x: string, t: string)
    requires '\r' !in x && !Contains(t, CrLf)
    ensures !Contains(x + t, CrLf)
  {
    if x == [] {
      assert x + t == t;
    } else {
      NoCrLfAfterPlainPrefix(x[1..], t);
      assert (x + t)[0] == x[0] != '\r';
      assert (x + t)[1..] == x[1..] + t;
    }
  }

  /** What the escaped text starts with, the original starts with too, for any
      prefix `w` in which each backslash is followed by a character other than `r`. */
  lemma {:induction false} EscapedPrefix(u: string, w: string)
    requires StartsWith(Replace(u, CrLf, EscapedCrLf), w)
    requires forall k :: 0 <= k < |w| && w[k] == '\\' ==> k + 1 < |w| && w[k + 1] != 'r'
    ensures StartsWith(u, w)
  {
    var t := Replace(u, CrLf, EscapedCrLf);
    if w != [] {
      assert u != [];
      EscapeStep(u);
      assert t[..|w|] == w;
      assert w[0] == t[0];
      assert |w| >= 2 ==> w[1] == t[1];
      assert !StartsWith(u, CrLf);
      assert t == [u[0]] + Replace(u[1..], CrLf, EscapedCrLf);
      assert t[1..][..|w| - 1] == w[1..];
      forall k | 0 <= k < |w[1..]| && w[1..][k] == '\\'
        ensures k + 1 < |w[1..]| && w[1..][k + 1] != 'r'
      {
        assert w[k + 1] == '\\';
      }
      EscapedPrefix(u[1..], w[1..]);
      assert u[..|w|] == [u[0]] + u[1..][..|w| - 1];
    }
  }

  /** One step of the escaping scan. */
  lemma EscapeStep(u: string)
    requires u != []
    ensures var t := Replace(u, CrLf, EscapedCrLf);
      if StartsWith(u, CrLf) then
        t == EscapedCrLf + Replace(u[2..], CrLf, EscapedCrLf) && t[0] == '\\' && t[1] == 'r'
      else t == [u[0]] + Replace(u[1..], CrLf, EscapedCrLf)
  {
  }

  /** Unescaping undoes escaping, for text that does not already hold the escape sequence. */
  lemma {:induction false} UnescapeEscape(s: string)
    requires !Contains(s, EscapedCrLf)
    ensures Replace(Replace(s, CrLf, EscapedCrLf), EscapedCrLf, CrLf) == s
  {
    if s == [] {
    } else if StartsWith(s, CrLf) {
      var u := Replace(s[2..], CrLf, EscapedCrLf);
      if Contains(s[2..], EscapedCrLf) {
        ContainsSuffix(s, 2, EscapedCrLf);
      }
      UnescapeEscape(s[2..]);
      assert (EscapedCrLf + u)[4..] == u;
      assert s == CrLf + s[2..];
    } else {
      var u := Replace(s[1..], CrLf, EscapedCrLf);
      var t := [s[0]] + u;
      UnescapeEscape(s[1..]);
      assert t[1..] == u;
      if StartsWith(u, "r\\n") {
        EscapedPrefix(s[1..], "r\\n");
        assert s[1..][..3] == "r\\n";
      }
      assert |s| >= 4 ==> s[..4] == [s[0]] + s[1..][..3];
      assert |t| >= 4 ==> t[..4] == [s[0]] + u[..3];
      assert !StartsWith(s, EscapedCrLf);
      assert !StartsWith(t, EscapedCrLf);
      assert s == [s[0]] + s[1..];
    }
  }

  /** A tail none of whose characters appears in `pat` is copied through unchanged. */
  lemma {:induction false} ReplaceKeepsSuffix(e: string, tail: string, pat: string, rep: string)
    requires pat != []
    requires forall k :: 0 <= k < |tail| ==> tail[k] !in pat
    ensures Replace(e + tail, pat, rep) == Replace(e, pat, rep) + tail
    decreases |e|
  {
    var s := e + tail;
    assert StartsWith(e, pat) ==> StartsWith(s, pat) by {
      if StartsWith(e, pat) {
        assert s[..|pat|] == e[..|pat|];
      }
    }
    assert |e| < |pat| ==> !StartsWith(s, pat) by {
      if |e| < |pat| <= |s| {
        assert s[..|pat|][|e|] == tail[0];
        assert tail[0] != pat[|e|];
      }
    }
    if e == [] {
      assert s == tail;
      forall i | 0 <= i && i + |pat| <= |tail|
        ensures !OccursAt(tail, pat, i)
      {
        assert tail[i..i + |pat|][0] == tail[i] != pat[0];
      }
      ContainsIff(tail, pat);
      ReplaceAbsent(tail, pat, rep);
    } else if StartsWith(s, pat) {
      assert e[..|pat|] == s[..|pat|];
      assert s[|pat|..] == e[|pat|..] + tail;
      ReplaceKeepsSuffix(e[|pat|..], tail, pat, rep);
    } else {
      assert s[1..] == e[1..] + tail;
      ReplaceKeepsSuffix(e[1..], tail, pat, rep);
    }
  }

  lemma {:induction false} ContainsSuffix(s: string, n: nat, w: string)
    requires n <= |s| && Contains(s[n..], w)
    ensures Contains(s, w)
  {
    if n > 0 {
      assert s[1..][n - 1..] == s[n..];
      ContainsSuffix(s[1..], n - 1, w);
    }
  }

  /** ASCII lower-casing, as Python's `lower()` does on ASCII text. */
  function LowerChar(c: char): char
  {
    if 'A' <= c <= 'Z' then (c as int + 32) as char else c
  }

  function Lower(s: string): (r: string)
    ensures |r| == |s| && forall i :: 0 <= i < |s| ==> r[i] == LowerChar(s[i])
  {
    if s == [] then [] else [LowerChar(s[0])] + Lower(s[1..])
  }

  /** The ASCII characters for which Python's `isspace()` holds. */
  predicate IsSpace(c: char)
  {
    c == ' ' || 9 <= c as int <= 13 || 28 <= c as int <= 31
  }

  /** Python's `strip()`: whitespace removed from both ends. */
  function Strip(s: string): string
  {
    RStrip(LStrip(s))
  }

  function LStrip(s: string): string
  {
    if s != [] && IsSpace(s[0]) then LStrip(s[1..]) else s
  }

  function RStrip(s: string): string
  {
    if s != [] && IsSpace(s[|s| - 1]) then RStrip(s[..|s| - 1]) else s
  }

  /** Stripping keeps every occurrence of a word that starts with a non-space. */
  lemma {:induction false} LStripContains(s: string, w: string)
    requires w != [] && !IsSpace(w[0])
    ensures Contains(LStrip(s), w) <==> Contains(s, w)
  {
    if s != [] && IsSpace(s[0]) {
      LStripContains(s[1..], w);
    }
  }

  /** Stripping keeps every occurrence of a word that ends with a non-space. */
  lemma {:induction false} RStripContains(s: string, w: string)
    requires w != [] && !IsSpace(w[|w| - 1])
    ensures Contains(RStrip(s), w) <==> Contains(s, w)
  {
    if s != [] && IsSpace(s[|s| - 1]) {
      var t := s[..|s| - 1];
      RStripContains(t, w);
      ContainsIff(t, w);
      ContainsIff(s, w);
      forall i | OccursAt(s, w, i) ensures OccursAt(t, w, i) {
        assert s[i..i + |w|][|w| - 1] == w[|w| - 1];
        OccursInPrefix(s, |t|, w, i);
      }
      forall i | OccursAt(t, w, i) ensures OccursAt(s, w, i) {
        OccursInPrefix(s, |t|, w, i);
      }
    }
  }

  lemma OccursInPrefix(s: string, n: nat, w: string, i: nat)
    requires i + |w| <= n <= |s|
    ensures OccursAt(s[..n], w, i) <==> OccursAt(s, w, i)
  {
    assert s[..n][i..i + |w|] == s[i..i + |w|];
  }

  /** Lower-casing and stripping commute: lower-casing neither makes nor unmakes whitespace. */
  lemma {:induction false} LowerStrip(s: string)
    ensures Lower(Strip(s)) == Strip(Lower(s))
  {
    LowerLStrip(s);
    LowerRStrip(LStrip(s));
  }

  lemma {:induction false} LowerLStrip(s: string)
    ensures Lower(LStrip(s)) == LStrip(Lower(s))
  {
    if s != [] {
      assert Lower(s)[1..] == Lower(s[1..]);
      LowerLStrip(s[1..]);
    }
  }

  lemma {:induction false} LowerRStrip(s: string)
    ensures Lower(RStrip(s)) == RStrip(Lower(s))
  {
    if s != [] {
      assert Lower(s)[..|s| - 1] == Lower(s[..|s| - 1]);
      LowerRStrip(s[..|s| - 1]);
    }
  }
}
