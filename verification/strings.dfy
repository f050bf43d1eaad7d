/** The string operations the renderer relies on: Python's `str.join` with
    `filter(None, ...)`, `str.replace`, and the two regular expressions of
    doc.py (the blank-line collapse of `element` and the parenthesis test of
    `attribute`). */
module Strings {
  import opened Wrappers

  predicate IsBlank(c: char) { c == ' ' || c == '\t' }

  predicate IsSpace(c: char) { c == '\n' || IsBlank(c) }

  /** Python truthiness of a value that is a string or None. */
  predicate Truthy(o: Option<string>) { o.Some? && o.value != "" }

  /** Python's `'%s' % o` for a string or None. */
  function Show(o: Option<string>): string
  {
    match o
    case Some(s) => s
    case None => "None"
  }

  /** `filter(None, vs)`: keeps the renderings that are neither None nor "". */
  function Present(vs: seq<Option<string>>): (r: seq<string>)
    ensures |r| <= |vs|
    ensures forall i :: 0 <= i < |r| ==> r[i] != ""
    ensures r == [] <==> forall i :: 0 <= i < |vs| ==> !Truthy(vs[i])
  {
    if vs == [] then []
    else if Truthy(vs[0]) then [vs[0].value] + Present(vs[1..])
    else
      assert forall i :: 1 <= i < |vs| ==> vs[i] == vs[1..][i - 1];
      Present(vs[1..])
  }

  /** The filter works value by value: a list of renderings keeps what
      each of its parts keeps, in order. */
  lemma {:induction false} PresentConcat(a: seq<Option<string>>, b: seq<Option<string>>)
    ensures Present(a + b) == Present(a) + Present(b)
    decreases |a|
  {
    if a == [] {
      assert a + b == b;
    } else {
      assert (a + b)[1..] == a[1..] + b;
      PresentConcat(a[1..], b);
    }
  }

  /** A single rendering is kept exactly when it is truthy. */
  lemma PresentOne(v: Option<string>)
    ensures Present([v]) == if Truthy(v) then [v.value] else []
  {
    assert [v][1..] == [];
  }

  /** `sep.join(parts)`. */
  function Join(sep: string, parts: seq<string>): string
  {
    if |parts| == 0 then ""
    else if |parts| == 1 then parts[0]
    else parts[0] + sep + Join(sep, parts[1..])
  }

  /** Each part followed by a line break, one after the other. */
  function Unlines(parts: seq<string>): string
  {
    if parts == [] then "" else parts[0] + "\n" + Unlines(parts[1..])
  }

  /** Joining parts none of which is empty gives "" only when there are no parts. */
  lemma {:induction false} JoinEmptyIff(sep: string, parts: seq<string>)
    requires forall i :: 0 <= i < |parts| ==> parts[i] != ""
    ensures Join(sep, parts) == "" <==> parts == []
  {
    if |parts| > 1 {
      assert |Join(sep, parts)| >= |parts[0]| > 0;
    }
  }

  /** `s.replace(p, r)`: every non-overlapping occurrence of p, scanned from
      the left, is replaced by r. */
  function ReplaceAll(s: string, p: string, r: string): (t: string)
    requires |p| > 0
    ensures |r| == |p| ==> |t| == |s|
    decreases |s|
  {
    if |s| < |p| then s
    else if s[..|p|] == p then r + ReplaceAll(s[|p|..], p, r)
    else [s[0]] + ReplaceAll(s[1..], p, r)
  }

  /** p occurs in s at index i. */
  predicate OccursAt(s: string, p: string, i: int)
  {
    0 <= i && i + |p| <= |s| && s[i..i + |p|] == p
  }

  /** An occurrence in a suffix is an occurrence in the whole text, shifted. */
  lemma OccursInSuffix(s: string, p: string, n: nat, i: int)
    requires n <= |s|
    ensures OccursAt(s[n..], p, i) <==> i >= 0 && OccursAt(s, p, i + n)
  {
    if 0 <= i && i + |p| <= |s| - n {
      assert s[n..][i..i + |p|] == s[i + n..i + n + |p|];
    }
  }

  /** A text in which the pattern does not occur is left unchanged. */
  lemma {:induction false} ReplaceAllNoMatch(s: string, p: string, r: string)
    requires |p| > 0
    requires forall i :: !OccursAt(s, p, i)
    ensures ReplaceAll(s, p, r) == s
    decreases |s|
  {
    if |s| >= |p| {
      assert !OccursAt(s, p, 0);
      forall i: int ensures !OccursAt(s[1..], p, i) {
        OccursInSuffix(s, p, 1, i);
      }
      ReplaceAllNoMatch(s[1..], p, r);
      assert s == [s[0]] + s[1..];
    }
  }

  /** A pattern whose first character only occurs too close to the end of s
      for the pattern to fit does not occur in s. */
  lemma AbsentFirstChar(s: string, p: string)
    requires |p| > 0
    requires forall i :: 0 <= i < |s| && s[i] == p[0] ==> |s| - i < |p|
    ensures forall i :: !OccursAt(s, p, i)
  {
    forall i: int ensures !OccursAt(s, p, i) {
      if 0 <= i && i + |p| <= |s| {
        assert s[i] != p[0];
        assert s[i..i + |p|][0] == s[i];
      }
    }
  }

  /** The leftmost occurrence is the first one replaced: the text before it
      is kept, and the scan goes on after it. With ReplaceAllNoMatch this
      fixes the result for every text. */
  lemma {:induction false} ReplaceAllFirst(x: string, p: string, r: string, y: string)
    requires |p| > 0
    requires forall i :: 0 <= i < |x| ==> !OccursAt(x + p + y, p, i)
    ensures ReplaceAll(x + p + y, p, r) == x + r + ReplaceAll(y, p, r)
    decreases |x|
  {
    var s := x + p + y;
    if x == [] {
      assert s == p + y;
      assert s[..|p|] == p && s[|p|..] == y;
    } else {
      assert !OccursAt(s, p, 0);
      assert s[1..] == x[1..] + p + y;
      forall i | 0 <= i < |x| - 1 ensures !OccursAt(x[1..] + p + y, p, i) {
        OccursInSuffix(s, p, 1, i);
      }
      ReplaceAllFirst(x[1..], p, r, y);
      assert x + r + ReplaceAll(y, p, r) == [x[0]] + (x[1..] + r + ReplaceAll(y, p, r));
    }
  }

  /** Every replacement starts with p's first character: up to the first
      place where the result shows that character, nothing was replaced. */
  lemma {:induction false} ReplaceAllKeepsPrefix(u: string, p: string, r: string, m: nat)
    requires |p| > 0 && |r| == |p| && r[0] == p[0]
    requires m <= |u|
    ensures u[..m] == ReplaceAll(u, p, r)[..m] || exists j :: 0 <= j < m && ReplaceAll(u, p, r)[j] == p[0]
    decreases |u|
  {
    var t := ReplaceAll(u, p, r);
    if m > 0 && |u| >= |p| {
      if u[..|p|] == p {
        assert t[0] == p[0];
      } else {
        var t' := ReplaceAll(u[1..], p, r);
        assert t == [u[0]] + t';
        ReplaceAllKeepsPrefix(u[1..], p, r, m - 1);
        if u[1..][..m - 1] == t'[..m - 1] {
          assert u[..m] == [u[0]] + u[1..][..m - 1];
          assert t[..m] == [u[0]] + t'[..m - 1];
        } else {
          var j :| 0 <= j < m - 1 && t'[j] == p[0];
          assert t[j + 1] == p[0];
        }
      }
    }
  }

  /** When the replacement has the pattern's length, starts like it, differs
      from it, and neither of them shows the pattern's first character
      again, no occurrence of the pattern is left afterwards. */
  lemma {:induction false} ReplaceAllLeavesNone(s: string, p: string, r: string)
    requires |p| > 0 && |r| == |p| && r != p && r[0] == p[0]
    requires p[0] !in p[1..] && p[0] !in r[1..]
    ensures forall i :: !OccursAt(ReplaceAll(s, p, r), p, i)
    decreases |s|
  {
    var t := ReplaceAll(s, p, r);
    if |s| < |p| {
    } else if s[..|p|] == p {
      var rest := ReplaceAll(s[|p|..], p, r);
      ReplaceAllLeavesNone(s[|p|..], p, r);
      assert t == r + rest;
      forall i: int ensures !OccursAt(t, p, i) {
        if i == 0 {
          assert t[..|p|] == r;
        } else if 0 < i < |r| && i + |p| <= |t| {
          assert t[i..i + |p|][0] == r[i] == r[1..][i - 1];
        } else if i >= |r| {
          OccursInSuffix(t, p, |r|, i - |r|);
          assert t[|r|..] == rest;
        }
      }
    } else {
      var rest := ReplaceAll(s[1..], p, r);
      ReplaceAllLeavesNone(s[1..], p, r);
      assert t == [s[0]] + rest;
      forall i: int ensures !OccursAt(t, p, i) {
        if i >= 1 {
          OccursInSuffix(t, p, 1, i - 1);
          assert t[1..] == rest;
        } else if i == 0 {
          NoOccurrenceAtStart(s, p, r);
        }
      }
    }
  }

  /** The case of ReplaceAllLeavesNone where s does not start with p: the
      result does not start with p either. */
  lemma NoOccurrenceAtStart(s: string, p: string, r: string)
    requires |p| > 0 && |r| == |p| && r[0] == p[0]
    requires p[0] !in p[1..]
    requires |s| >= |p| && s[..|p|] != p
    ensures !OccursAt(ReplaceAll(s, p, r), p, 0)
  {
    var t := ReplaceAll(s, p, r);
    ReplaceAllSkip(s, p, r);
    ReplaceAllKeepsPrefix(s[1..], p, r, |p| - 1);
    assert t[1..] == ReplaceAll(s[1..], p, r);
    HeadNotOccurrence(s, p, t);
  }

  lemma HeadNotOccurrence(s: string, p: string, t: string)
    requires 0 < |p| <= |s| && |s| == |t| && s[..|p|] != p && p[0] !in p[1..] && s[0] == t[0]
    requires s[1..][..|p| - 1] == t[1..][..|p| - 1] || exists j :: 0 <= j < |p| - 1 && t[1..][j] == p[0]
    ensures !OccursAt(t, p, 0)
  {
    if s[1..][..|p| - 1] == t[1..][..|p| - 1] {
      SameHead(s, p, t);
    } else {
      var j :| 0 <= j < |p| - 1 && t[1..][j] == p[0];
      StrayHead(p, t, j + 1);
    }
  }

  /** No occurrence at the start: the first character is kept. */
  lemma ReplaceAllSkip(s: string, p: string, r: string)
    requires |p| > 0 && |s| >= |p| && s[..|p|] != p
    ensures ReplaceAll(s, p, r) == [s[0]] + ReplaceAll(s[1..], p, r)
  {
  }

  lemma SameHead(s: string, p: string, t: string)
    requires 0 < |p| <= |s| && |p| <= |t| && s[..|p|] != p
    requires s[0] == t[0] && s[1..][..|p| - 1] == t[1..][..|p| - 1]
    ensures !OccursAt(t, p, 0)
  {
    assert t[..|p|] == [t[0]] + t[1..][..|p| - 1];
    assert s[..|p|] == [s[0]] + s[1..][..|p| - 1];
  }

  lemma StrayHead(p: string, t: string, k: nat)
    requires 0 < k < |p| <= |t| && p[0] !in p[1..] && t[k] == p[0]
    ensures !OccursAt(t, p, 0)
  {
    assert p[1..][k - 1] == p[k];
    assert t[..|p|][k] == p[0];
  }

  /** t differs from s only by a's turned into b's, and q has no b: each
      occurrence of q in t was already one in s. */
  lemma OccursRewritten(s: string, t: string, a: char, b: char, q: string, i: int)
    requires RewritesOnly(s, t, a, b) && b !in q
    ensures OccursAt(t, q, i) ==> OccursAt(s, q, i)
  {
    if OccursAt(t, q, i) {
      forall k | 0 <= k < |q| ensures s[i + k] == q[k] {
        assert t[i + k] == t[i..i + |q|][k] == q[k];
      }
      assert s[i..i + |q|] == q;
    }
  }

  /** When r differs from p only at index k, a character the replacement
      changed is the k-th of an occurrence of p in the original text. */
  lemma {:induction false} ReplaceAllChangedAt(s: string, p: string, r: string, k: nat, i: nat)
    requires |p| > 0 && |r| == |p| && k < |p|
    requires forall j :: 0 <= j < |p| && j != k ==> r[j] == p[j]
    requires i < |s|
    ensures ReplaceAll(s, p, r)[i] != s[i] ==> OccursAt(s, p, i - k)
    decreases |s|
  {
    var t := ReplaceAll(s, p, r);
    if |s| >= |p| {
      if s[..|p|] == p {
        var rest := ReplaceAll(s[|p|..], p, r);
        assert t == r + rest;
        if i < |p| {
          assert s[i] == s[..|p|][i] == p[i];
        } else {
          ReplaceAllChangedAt(s[|p|..], p, r, k, i - |p|);
          OccursInSuffix(s, p, |p|, i - |p| - k);
        }
      } else if i > 0 {
        var rest := ReplaceAll(s[1..], p, r);
        assert t == [s[0]] + rest;
        ReplaceAllChangedAt(s[1..], p, r, k, i - 1);
        OccursInSuffix(s, p, 1, i - 1 - k);
      }
    }
  }

  /** t is s with some occurrences of the character a turned into b, and
      nothing else changed. */
  predicate RewritesOnly(s: string, t: string, a: char, b: char)
  {
    |t| == |s| && forall i :: 0 <= i < |s| ==> t[i] == s[i] || (s[i] == a && t[i] == b)
  }

  lemma RewritesOnlyConcat(s: string, t: string, s': string, t': string, a: char, b: char)
    requires RewritesOnly(s, t, a, b) && RewritesOnly(s', t', a, b)
    ensures RewritesOnly(s + s', t + t', a, b)
  {
    forall i | 0 <= i < |s + s'|
      ensures (t + t')[i] == (s + s')[i] || ((s + s')[i] == a && (t + t')[i] == b)
    {
      if i >= |s| {
        assert (t + t')[i] == t'[i - |s|] && (s + s')[i] == s'[i - |s|];
      }
    }
  }

  lemma RewritesOnlyTrans(s: string, t: string, u: string, a: char, b: char)
    requires a != b
    requires RewritesOnly(s, t, a, b) && RewritesOnly(t, u, a, b)
    ensures RewritesOnly(s, u, a, b)
  {
  }

  /** A replacement whose pattern and replacement differ only by turning some
      a into b changes the string in the same way, and only in that way. */
  lemma {:induction false} ReplaceAllRewritesOnly(s: string, p: string, r: string, a: char, b: char)
    requires |p| > 0 && RewritesOnly(p, r, a, b)
    ensures RewritesOnly(s, ReplaceAll(s, p, r), a, b)
    decreases |s|
  {
    if |s| < |p| {
    } else if s[..|p|] == p {
      ReplaceAllRewritesOnly(s[|p|..], p, r, a, b);
      RewritesOnlyConcat(p, r, s[|p|..], ReplaceAll(s[|p|..], p, r), a, b);
      assert s == p + s[|p|..];
    } else {
      ReplaceAllRewritesOnly(s[1..], p, r, a, b);
      RewritesOnlyConcat([s[0]], [s[0]], s[1..], ReplaceAll(s[1..], p, r), a, b);
      assert s == [s[0]] + s[1..];
    }
  }

  // ---------------------------------------------------------------------
  // re.sub(r'(\n[ \t]*)+\n', '\n', txt)

  /** Length of the longest prefix of s that is made of spaces, tabs and line
      breaks and ends with a line break (0 when there is none). */
  function NewlineSpan(s: string): (k: nat)
    ensures k <= |s|
    ensures k > 0 ==> s[k - 1] == '\n'
    ensures forall i :: 0 <= i < k ==> IsSpace(s[i])
  {
    if s == [] || !IsSpace(s[0]) then 0
    else
      var rest := NewlineSpan(s[1..]);
      if rest > 0 then rest + 1
      else if s[0] == '\n' then 1
      else 0
  }

  /** The span is maximal: whatever follows it has no line break before its
      first character that is not a space or tab. */
  lemma {:induction false} NewlineSpanMaximal(s: string)
    requires NewlineSpan(s) > 0
    ensures NewlineSpan(s[NewlineSpan(s)..]) == 0
  {
    if NewlineSpan(s[1..]) > 0 {
      NewlineSpanMaximal(s[1..]);
      assert s[NewlineSpan(s)..] == s[1..][NewlineSpan(s[1..])..];
    }
  }

  /** The substitution: a line break followed by a whitespace run that holds
      further line breaks is a match; the greedy match ends at the last of
      them and is replaced by a single line break. */
  function Collapse(s: string): string
    decreases |s|
  {
    if s == [] then []
    else if s[0] == '\n' && NewlineSpan(s[1..]) > 0 then "\n" + Collapse(s[1 + NewlineSpan(s[1..])..])
    else [s[0]] + Collapse(s[1..])
  }

  /** The line breaks at i and j have only spaces and tabs between them:
      the lines in between are blank. */
  predicate BlankBetween(t: string, i: int, j: int)
    requires 0 <= i < j < |t|
  {
    t[i] == '\n' && t[j] == '\n' && forall k :: i < k < j ==> IsBlank(t[k])
  }

  /** No line between two line breaks holds only spaces and tabs. */
  predicate NoBlankLine(t: string)
  {
    forall i, j :: 0 <= i < j < |t| ==> !BlankBetween(t, i, j)
  }

  /** No line break of t starts a match of the substitution. */
  predicate NoSpanAfterBreak(t: string)
  {
    forall i :: 0 <= i < |t| && t[i] == '\n' ==> NewlineSpan(t[i + 1..]) == 0
  }

  /** u reaches a line break at j after spaces and tabs alone. */
  predicate BreakAfterBlanks(u: string, j: int)
  {
    0 <= j < |u| && u[j] == '\n' && forall k :: 0 <= k < j ==> IsBlank(u[k])
  }

  /** The span is non-empty exactly when a line break comes after spaces and
      tabs alone. */
  lemma {:induction false} SpanStartsBlank(u: string)
    ensures NewlineSpan(u) > 0 <==> exists j :: BreakAfterBlanks(u, j)
    decreases |u|
  {
    if u != [] {
      if u[0] == '\n' {
        assert BreakAfterBlanks(u, 0);
      } else if IsBlank(u[0]) {
        SpanStartsBlank(u[1..]);
        forall j | BreakAfterBlanks(u, j) ensures BreakAfterBlanks(u[1..], j - 1) {
          assert j != 0;
        }
        forall j | BreakAfterBlanks(u[1..], j) ensures BreakAfterBlanks(u, j + 1) {
        }
      } else {
        forall j | 0 <= j < |u| && u[j] == '\n' ensures !BreakAfterBlanks(u, j) {
          assert j != 0;
          assert !IsBlank(u[0]);
        }
      }
    }
  }

  /** The two descriptions of "no blank line" agree. */
  lemma NoSpanAfterBreakIff(t: string)
    ensures NoSpanAfterBreak(t) <==> NoBlankLine(t)
  {
    forall i | 0 <= i < |t| && t[i] == '\n'
      ensures NewlineSpan(t[i + 1..]) > 0 <==> exists j :: i < j < |t| && BlankBetween(t, i, j)
    {
      var u := t[i + 1..];
      SpanStartsBlank(u);
      forall j | BreakAfterBlanks(u, j) ensures i + 1 + j < |t| && BlankBetween(t, i, i + 1 + j) {
        assert forall k :: i < k < i + 1 + j ==> t[k] == u[k - i - 1];
      }
      forall j | i < j < |t| && BlankBetween(t, i, j) ensures BreakAfterBlanks(u, j - i - 1) {
        assert forall k :: 0 <= k < j - i - 1 ==> u[k] == t[k + i + 1];
      }
    }
  }

  /** A prefix made of spaces, tabs and line breaks that ends in a line
      break lies within the span: the span is the longest such prefix. */
  lemma {:induction false} SpanComplete(s: string, m: nat)
    requires 0 < m <= |s| && s[m - 1] == '\n'
    requires forall i :: 0 <= i < m ==> IsSpace(s[i])
    ensures NewlineSpan(s) >= m
    decreases m
  {
    if m > 1 {
      SpanComplete(s[1..], m - 1);
    }
  }

  /** A run of whitespace ending in a line break, put in front of y, adds its
      length to y's span. */
  lemma {:induction false} SpanAppend(w: string, y: string)
    requires |w| > 0 && w[|w| - 1] == '\n'
    requires forall i :: 0 <= i < |w| ==> IsSpace(w[i])
    ensures NewlineSpan(w + y) == |w| + NewlineSpan(y)
    decreases |w|
  {
    if |w| == 1 {
      assert (w + y)[1..] == y;
    } else {
      assert (w + y)[1..] == w[1..] + y;
      SpanAppend(w[1..], y);
    }
  }

  /** The characters of s that are not spaces, tabs or line breaks. */
  function NonSpace(s: string): string
  {
    if s == [] then [] else (if IsSpace(s[0]) then [] else [s[0]]) + NonSpace(s[1..])
  }

  lemma {:induction false} CollapseKeepsNoSpan(s: string)
    requires NewlineSpan(s) == 0
    ensures NewlineSpan(Collapse(s)) == 0
    decreases |s|
  {
    if s != [] && IsSpace(s[0]) {
      assert s[0] != '\n';
      CollapseKeepsNoSpan(s[1..]);
      assert Collapse(s)[1..] == Collapse(s[1..]);
    }
  }

  lemma NoSpanAfterBreakCons(c: char, t: string)
    requires NoSpanAfterBreak(t)
    requires c == '\n' ==> NewlineSpan(t) == 0
    ensures NoSpanAfterBreak([c] + t)
  {
    var u := [c] + t;
    forall i | 0 <= i < |u| && u[i] == '\n'
      ensures NewlineSpan(u[i + 1..]) == 0
    {
      if i == 0 {
        assert u[1..] == t;
      } else {
        assert u[i + 1..] == t[i..];
        assert t[i - 1] == '\n';
      }
    }
  }

  /** After the substitution no line break starts a match. */
  lemma {:induction false} CollapseNoSpan(s: string)
    ensures NoSpanAfterBreak(Collapse(s))
    decreases |s|
  {
    if s == [] {
    } else if s[0] == '\n' && NewlineSpan(s[1..]) > 0 {
      var rest := s[1 + NewlineSpan(s[1..])..];
      assert rest == s[1..][NewlineSpan(s[1..])..];
      NewlineSpanMaximal(s[1..]);
      CollapseNoSpan(rest);
      CollapseKeepsNoSpan(rest);
      NoSpanAfterBreakCons('\n', Collapse(rest));
    } else {
      CollapseNoSpan(s[1..]);
      if s[0] == '\n' {
        CollapseKeepsNoSpan(s[1..]);
      }
      NoSpanAfterBreakCons(s[0], Collapse(s[1..]));
    }
  }

  /** After the substitution no blank line is left. */
  lemma CollapseNoBlankLine(s: string)
    ensures NoBlankLine(Collapse(s))
  {
    CollapseNoSpan(s);
    NoSpanAfterBreakIff(Collapse(s));
  }

  lemma {:induction false} CollapseFixedSpan(s: string)
    requires NoSpanAfterBreak(s)
    ensures Collapse(s) == s
    decreases |s|
  {
    if s != [] {
      assert NoSpanAfterBreak(s[1..]) by {
        forall i | 0 <= i < |s[1..]| && s[1..][i] == '\n' ensures NewlineSpan(s[1..][i + 1..]) == 0 {
          assert s[1..][i + 1..] == s[i + 2..];
        }
      }
      CollapseFixedSpan(s[1..]);
    }
  }

  /** A text without blank lines is left as it is. */
  lemma CollapseFixed(s: string)
    requires NoBlankLine(s)
    ensures Collapse(s) == s
  {
    NoSpanAfterBreakIff(s);
    CollapseFixedSpan(s);
  }

  /** Substituting twice gives what substituting once gives. */
  lemma CollapseIdempotent(s: string)
    ensures Collapse(Collapse(s)) == Collapse(s)
  {
    CollapseNoBlankLine(s);
    CollapseFixed(Collapse(s));
  }

  /** A maximal match (a line break, then spaces, tabs and line breaks ending
      in a line break, with no further such run right after it) becomes one
      line break, and the scan goes on after it. */
  lemma CollapseRun(w: string, y: string)
    requires |w| > 0 && w[|w| - 1] == '\n'
    requires forall i :: 0 <= i < |w| ==> IsSpace(w[i])
    requires NewlineSpan(y) == 0
    ensures Collapse("\n" + w + y) == "\n" + Collapse(y)
  {
    var s := "\n" + w + y;
    assert s[1..] == w + y;
    SpanAppend(w, y);
    assert s[1 + |w|..] == y;
  }

  /** A line break that does not start a match is kept. */
  lemma CollapseKeepsBreak(y: string)
    requires NewlineSpan(y) == 0
    ensures Collapse("\n" + y) == "\n" + Collapse(y)
  {
    assert ("\n" + y)[1..] == y;
  }

  lemma {:induction false} NonSpaceConcat(s: string, t: string)
    ensures NonSpace(s + t) == NonSpace(s) + NonSpace(t)
    decreases |s|
  {
    if s != [] {
      assert (s + t)[1..] == s[1..] + t;
      NonSpaceConcat(s[1..], t);
    } else {
      assert s + t == t;
    }
  }

  lemma {:induction false} NonSpaceOfSpaces(s: string)
    requires forall i :: 0 <= i < |s| ==> IsSpace(s[i])
    ensures NonSpace(s) == []
    decreases |s|
  {
    if s != [] {
      NonSpaceOfSpaces(s[1..]);
    }
  }

  /** The substitution removes whitespace only: every other character is
      kept, in order. */
  lemma {:induction false} CollapseKeepsText(s: string)
    ensures NonSpace(Collapse(s)) == NonSpace(s)
    decreases |s|
  {
    if s == [] {
    } else if s[0] == '\n' && NewlineSpan(s[1..]) > 0 {
      var k := 1 + NewlineSpan(s[1..]);
      CollapseKeepsText(s[k..]);
      assert s == s[..k] + s[k..];
      NonSpaceConcat(s[..k], s[k..]);
      NonSpaceOfSpaces(s[..k]);
      NonSpaceConcat("\n", Collapse(s[k..]));
    } else {
      CollapseKeepsText(s[1..]);
      NonSpaceConcat([s[0]], Collapse(s[1..]));
    }
  }

  /** Text before the first line break is left as it is. */
  lemma {:induction false} CollapsePrefix(p: string, s: string)
    requires forall i :: 0 <= i < |p| ==> p[i] != '\n'
    ensures Collapse(p + s) == p + Collapse(s)
    decreases |p|
  {
    if p != [] {
      assert (p + s)[1..] == p[1..] + s;
      CollapsePrefix(p[1..], s);
    } else {
      assert p + s == s;
    }
  }

  // ---------------------------------------------------------------------
  // re.match(r'\(.*\)$', sub)

  /** The text opens with "(" and closes with ")" (possibly followed by one
      final line break, which `$` allows), with no line break in between,
      since `.` does not match one. */
  predicate MatchesParenthesized(s: string)
  {
    |s| >= 2 && s[0] == '(' &&
    ( (s[|s| - 1] == ')' && '\n' !in s[1..|s| - 1])
    || (|s| >= 3 && s[|s| - 2] == ')' && s[|s| - 1] == '\n' && '\n' !in s[1..|s| - 2]) )
  }
}
