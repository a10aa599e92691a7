/**
 * The bracketed-section extractor: `parseOpenAIResponse` runs the global regular
 * expression `\[([^\]]+)\]:\s*([\s\S]*?)(?=\n\[|$)` over a model response, one
 * `exec` after another, and collects the trimmed heading and content of every match.
 *
 * The regular expression is modelled by what it matches (`MatchesAt`). Backtracking
 * cannot change the outcome: the heading run `[^\]]+` can only be followed by `]` when
 * it is maximal, so the heading ends at the first `]`; the greedy `\s*` is taken in
 * full because the lazy content always succeeds at the latest at the end of the text;
 * and the lazy content stops at the first place where `\n[` follows or the text ends.
 */
module SectionParser {
  import opened Wrappers
  import opened JsString
  import opened Types

  /**
   * Where one match lies in the text: `[` at `start`, the captured heading is
   * `text[start + 1..headEnd]`, `]:` sits at `headEnd`, white space runs up to
   * `bodyStart`, and the captured content is `text[bodyStart..end]`.
   */
  datatype Span = Span(start: nat, headEnd: nat, bodyStart: nat, end: nat)

  /** The lookahead `\n\[` holds at `k`. */
  predicate LineBracketAt(text: string, k: nat) {
    k + 1 < |text| && text[k] == '\n' && text[k + 1] == '['
  }

  /** No `\n[` occurs anywhere in `s`. */
  predicate NoLineBracket(s: string) {
    forall k :: 0 <= k < |s| ==> !LineBracketAt(s, k)
  }

  /** The regular expression matches at position `p`, and `m` is that match. */
  predicate MatchesAt(text: string, p: nat, m: Span) {
    && m.start == p
    && p + 1 < m.headEnd
    && m.headEnd + 2 <= m.bodyStart <= m.end <= |text|
    && text[p] == '['
    && (forall k :: p + 1 <= k < m.headEnd ==> text[k] != ']')
    && text[m.headEnd] == ']' && text[m.headEnd + 1] == ':'
    && AllSpace(text, m.headEnd + 2, m.bodyStart)
    && (m.bodyStart == |text| || !IsJsSpace(text[m.bodyStart]))
    && (forall k :: m.bodyStart <= k < m.end ==> !LineBracketAt(text, k))
    && (m.end == |text| || LineBracketAt(text, m.end))
  }

  /** The span lies inside the text, its parts in order. */
  predicate Fits(text: string, m: Span) {
    m.start < m.headEnd <= m.bodyStart <= m.end <= |text|
  }

  /** A `[heading]:` marker, with a non-empty heading free of `]`, starts at `p`. */
  predicate MarkerAt(text: string, p: nat, q: nat) {
    && p + 1 < q
    && q + 1 < |text|
    && text[p] == '[' && text[q] == ']' && text[q + 1] == ':'
    && forall k :: p < k < q ==> text[k] != ']'
  }

  ghost predicate HasMarker(text: string) {
    exists p: nat, q: nat :: MarkerAt(text, p, q)
  }

  /** The first occurrence of `c` at or after `i`, or the end of the text. */
  function FindChar(text: string, i: nat, c: char): (j: nat)
    requires i <= |text|
    ensures i <= j <= |text|
    ensures forall k :: i <= k < j ==> text[k] != c
    ensures j == |text| || text[j] == c
    decreases |text| - i
  {
    if i == |text| || text[i] == c then i else FindChar(text, i + 1, c)
  }

  /** The first place at or after `i` where `\n[` follows, or the end of the text. */
  function FindLineBracket(text: string, i: nat): (j: nat)
    requires i <= |text|
    ensures i <= j <= |text|
    ensures forall k :: i <= k < j ==> !LineBracketAt(text, k)
    ensures j == |text| || LineBracketAt(text, j)
    decreases |text| - i
  {
    if i == |text| || LineBracketAt(text, i) then i else FindLineBracket(text, i + 1)
  }

  /** One attempt of the regular expression anchored at `p`. */
  function TryMatchAt(text: string, p: nat): (r: Option<Span>)
    requires p <= |text|
    ensures r.Some? ==> r.value.start == p && Fits(text, r.value)
  {
    if p == |text| || text[p] != '[' then None
    else
      var q := FindChar(text, p + 1, ']');
      if q == p + 1 || q + 1 >= |text| || text[q + 1] != ':' then None
      else
        var b := SkipSpace(text, q + 2);
        var e := FindLineBracket(text, b);
        Some(Span(p, q, b, e))
  }

  /** The attempt at `p` succeeds exactly when the regular expression matches there, with that match. */
  lemma TryMatchAtSpec(text: string, p: nat)
    requires p <= |text|
    ensures TryMatchAt(text, p).Some? ==> MatchesAt(text, p, TryMatchAt(text, p).value)
    ensures TryMatchAt(text, p).None? ==> forall m :: !MatchesAt(text, p, m)
  {
  }

  /** The regular expression matches at a position in at most one way. */
  lemma MatchIsUnique(text: string, p: nat, m: Span, m': Span)
    requires MatchesAt(text, p, m) && MatchesAt(text, p, m')
    ensures m == m'
  {
  }

  /**
   * `RegExp.prototype.exec` with the `g` flag and `lastIndex == from`: the attempts at
   * `from`, `from + 1`, ... up to the end of the text, the first that succeeds.
   */
  function Exec(text: string, from: nat): (r: Option<Span>)
    requires from <= |text|
    ensures r.Some? ==> from <= r.value.start && Fits(text, r.value)
    decreases |text| - from
  {
    match TryMatchAt(text, from)
    case Some(m) => Some(m)
    case None => if from == |text| then None else Exec(text, from + 1)
  }

  /** `Exec` finds the leftmost match at or after `from`, and fails only when there is none. */
  lemma {:induction false} ExecIsLeftmostMatch(text: string, from: nat)
    requires from <= |text|
    ensures Exec(text, from).Some? ==> MatchesAt(text, Exec(text, from).value.start, Exec(text, from).value)
    ensures Exec(text, from).Some? ==>
              forall p, m :: from <= p < Exec(text, from).value.start ==> !MatchesAt(text, p, m)
    ensures Exec(text, from).None? ==> forall p, m :: from <= p ==> !MatchesAt(text, p, m)
    decreases |text| - from
  {
    TryMatchAtSpec(text, from);
    if TryMatchAt(text, from).None? && from < |text| {
      ExecIsLeftmostMatch(text, from + 1);
    }
  }

  /** The matches successive `exec` calls find when the first one starts at `from`. */
  function Matches(text: string, from: nat): (ms: seq<Span>)
    requires from <= |text|
    ensures forall i :: 0 <= i < |ms| ==> Fits(text, ms[i]) && from <= ms[i].start
    decreases |text| - from
  {
    match Exec(text, from)
    case None => []
    case Some(m) => [m] + Matches(text, m.end)
  }

  predicate AllMatch(text: string, ms: seq<Span>) {
    forall i :: 0 <= i < |ms| ==> MatchesAt(text, ms[i].start, ms[i])
  }

  /** Every span `exec` after `exec` finds is a match of the regular expression. */
  lemma {:induction false} MatchesAllMatch(text: string, from: nat)
    requires from <= |text|
    ensures AllMatch(text, Matches(text, from))
    decreases |text| - from
  {
    match Exec(text, from)
    case None =>
    case Some(m) =>
      ExecIsLeftmostMatch(text, from);
      MatchesAllMatch(text, m.end);
      var rest := Matches(text, m.end);
      assert Matches(text, from) == [m] + rest;
      assert forall i :: 0 < i < |[m] + rest| ==> ([m] + rest)[i] == rest[i - 1];
  }

  /** The matches come in left-to-right order and do not overlap. */
  lemma {:induction false} MatchesOrdered(text: string, from: nat, i: nat, j: nat)
    requires from <= |text|
    requires i < j < |Matches(text, from)|
    ensures Matches(text, from)[i].end <= Matches(text, from)[j].start
    decreases |text| - from
  {
    var m := Exec(text, from).value;
    var rest := Matches(text, m.end);
    assert Matches(text, from) == [m] + rest;
    if i == 0 {
      assert Matches(text, from)[j] == rest[j - 1];
    } else {
      MatchesOrdered(text, m.end, i - 1, j - 1);
    }
  }

  /** The section one match contributes: its heading and content captures, trimmed. */
  function ToSection(text: string, m: Span): (s: Section)
    requires Fits(text, m)
    ensures |s.heading| < m.headEnd - m.start && |s.content| <= m.end - m.bodyStart
    ensures NoEdgeSpace(s.heading) && NoEdgeSpace(s.content)
  {
    Section(Trim(text[m.start + 1..m.headEnd]), Trim(text[m.bodyStart..m.end]))
  }

  function SectionsOf(text: string, ms: seq<Span>): seq<Section>
    requires forall i :: 0 <= i < |ms| ==> Fits(text, ms[i])
  {
    seq(|ms|, i requires 0 <= i < |ms| => ToSection(text, ms[i]))
  }

  /**
   * What `exec` after `exec` produces. The first match is the leftmost one at or
   * after `from`, ...
   */
  lemma MatchesStartsWithExec(text: string, from: nat)
    requires from <= |text|
    ensures |Matches(text, from)| == 0 <==> Exec(text, from).None?
    ensures |Matches(text, from)| > 0 ==> Exec(text, from) == Some(Matches(text, from)[0])
  {
  }

  /** ... every later match is the leftmost one at or after the end of the match before it, ... */
  lemma {:induction false} MatchesLinkByExec(text: string, from: nat, i: nat)
    requires from <= |text|
    requires 0 < i < |Matches(text, from)|
    ensures Matches(text, from)[i - 1].end <= |text|
    ensures Exec(text, Matches(text, from)[i - 1].end) == Some(Matches(text, from)[i])
    decreases |text| - from
  {
    var m := Exec(text, from).value;
    var rest := Matches(text, m.end);
    assert Matches(text, from) == [m] + rest;
    if i == 1 {
      MatchesStartsWithExec(text, m.end);
    } else {
      MatchesLinkByExec(text, m.end, i - 1);
    }
  }

  /** ... and after the last match `exec` finds no more. */
  lemma {:induction false} MatchesEndWhenExecFails(text: string, from: nat)
    requires from <= |text|
    requires |Matches(text, from)| > 0
    ensures Exec(text, Matches(text, from)[|Matches(text, from)| - 1].end).None?
    decreases |text| - from
  {
    var m := Exec(text, from).value;
    var rest := Matches(text, m.end);
    assert Matches(text, from) == [m] + rest;
    if |rest| == 0 {
      MatchesStartsWithExec(text, m.end);
    } else {
      MatchesEndWhenExecFails(text, m.end);
    }
  }

  /** There is at least one match from `0` exactly when the text holds a `[heading]:` marker. */
  lemma SomeMatchIffMarker(text: string)
    ensures |Matches(text, 0)| > 0 <==> HasMarker(text)
  {
    if HasMarker(text) {
      var p: nat, q: nat :| MarkerAt(text, p, q);
      var r := TryMatchAt(text, p);
      assert FindChar(text, p + 1, ']') == q;
      assert r.Some?;
      TryMatchAtSpec(text, p);
      ExecIsLeftmostMatch(text, 0);
    }
    if |Matches(text, 0)| > 0 {
      ExecIsLeftmostMatch(text, 0);
      var m := Exec(text, 0).value;
      assert MarkerAt(text, m.start, m.headEnd);
    }
  }

  /** Every section meets what trimming the captures guarantees. */
  predicate WellFormedSection(s: Section) {
    && NoEdgeSpace(s.heading)
    && NoEdgeSpace(s.content)
    && NoCloseBracket(s.heading)
    && NoLineBracket(s.content)
  }

  predicate NoCloseBracket(s: string) {
    forall k :: 0 <= k < |s| ==> s[k] != ']'
  }

  lemma TrimKeepsNoCloseBracket(s: string)
    requires NoCloseBracket(s)
    ensures NoCloseBracket(Trim(s))
  {
    var i, j := TrimIsWindow(s);
    forall k | 0 <= k < j - i ensures s[i..j][k] != ']' {
      assert s[i..j][k] == s[i + k];
    }
  }

  lemma TrimKeepsNoLineBracket(s: string)
    requires NoLineBracket(s)
    ensures NoLineBracket(Trim(s))
  {
    var i, j := TrimIsWindow(s);
    forall k | 0 <= k < j - i ensures !LineBracketAt(s[i..j], k) {
      assert LineBracketAt(s[i..j], k) ==> LineBracketAt(s, i + k);
    }
  }

  /** A match's heading capture has no `]`, and trimmed it has no edge white space either. */
  lemma MatchGivesHeading(text: string, m: Span)
    requires MatchesAt(text, m.start, m)
    ensures NoCloseBracket(ToSection(text, m).heading) && NoEdgeSpace(ToSection(text, m).heading)
  {
    var head := text[m.start + 1..m.headEnd];
    assert NoCloseBracket(head) by {
      forall k | 0 <= k < |head| ensures head[k] != ']' {
        assert head[k] == text[m.start + 1 + k];
      }
    }
    TrimKeepsNoCloseBracket(head);
  }

  /** A match's content capture has no `\n[`, and trimmed it has no edge white space either. */
  lemma MatchGivesContent(text: string, m: Span)
    requires MatchesAt(text, m.start, m)
    ensures NoLineBracket(ToSection(text, m).content) && NoEdgeSpace(ToSection(text, m).content)
  {
    var body := text[m.bodyStart..m.end];
    assert NoLineBracket(body) by {
      forall k | 0 <= k < |body| ensures !LineBracketAt(body, k) {
        assert LineBracketAt(body, k) ==> LineBracketAt(text, m.bodyStart + k);
      }
    }
    TrimKeepsNoLineBracket(body);
  }

  /** A match's trimmed captures form a well-formed section. */
  lemma MatchGivesWellFormedSection(text: string, m: Span)
    requires MatchesAt(text, m.start, m)
    ensures WellFormedSection(ToSection(text, m))
  {
    MatchGivesHeading(text, m);
    MatchGivesContent(text, m);
  }

  lemma ExampleFirstExec()
    ensures Exec("[A]: x\n[B]: y", 0) == Some(Span(0, 2, 5, 6))
  {
    var text := "[A]: x\n[B]: y";
    assert FindChar(text, 1, ']') == 2;
    assert SkipSpace(text, 4) == 5;
    assert FindLineBracket(text, 5) == 6;
    assert TryMatchAt(text, 0) == Some(Span(0, 2, 5, 6));
  }

  lemma ExampleSecondExec()
    ensures Exec("[A]: x\n[B]: y", 6) == Some(Span(7, 9, 12, 13))
  {
    var text := "[A]: x\n[B]: y";
    assert FindChar(text, 8, ']') == 9;
    assert SkipSpace(text, 11) == 12;
    assert FindLineBracket(text, 12) == 13;
    assert TryMatchAt(text, 7) == Some(Span(7, 9, 12, 13));
  }

  /** `"[A]: x\n[B]: y"` has two matches; the first one's content stops at the `\n[`. */
  lemma ExampleTwoSectionsMatches()
    ensures Matches("[A]: x\n[B]: y", 0) == [Span(0, 2, 5, 6), Span(7, 9, 12, 13)]
  {
    var text := "[A]: x\n[B]: y";
    ExampleFirstExec();
    ExampleSecondExec();
    assert Exec(text, 13) == None;
  }

  lemma TwoSectionsCaptures()
    ensures "[A]: x\n[B]: y"[1..2] == "A" && "[A]: x\n[B]: y"[5..6] == "x"
    ensures "[A]: x\n[B]: y"[8..9] == "B" && "[A]: x\n[B]: y"[12..13] == "y"
    ensures NoEdgeSpace("A") && NoEdgeSpace("x") && NoEdgeSpace("B") && NoEdgeSpace("y")
  {
    var text := "[A]: x\n[B]: y";
    assert text[1..2] == "A" by { assert text[1..2][0] == text[1]; }
    assert text[5..6] == "x" by { assert text[5..6][0] == text[5]; }
    assert text[8..9] == "B" by { assert text[8..9][0] == text[8]; }
    assert text[12..13] == "y" by { assert text[12..13][0] == text[12]; }
  }

  /** The two matches of that text give the sections `(A, x)` and `(B, y)`, in order. */
  lemma ExampleTwoSections()
    ensures SectionsOf("[A]: x\n[B]: y", [Span(0, 2, 5, 6), Span(7, 9, 12, 13)])
            == [Section("A", "x"), Section("B", "y")]
  {
    var text := "[A]: x\n[B]: y";
    TwoSectionsCaptures();
    var m0, m1 := Span(0, 2, 5, 6), Span(7, 9, 12, 13);
    ExampleSection(text, m0, "A", "x");
    ExampleSection(text, m1, "B", "y");
  }

  lemma ExampleSection(text: string, m: Span, heading: string, content: string)
    requires Fits(text, m)
    requires text[m.start + 1..m.headEnd] == heading && NoEdgeSpace(heading)
    requires text[m.bodyStart..m.end] == content && NoEdgeSpace(content)
    ensures ToSection(text, m) == Section(heading, content)
  {
    TrimFixesExactlyEdgeFree(heading);
    TrimFixesExactlyEdgeFree(content);
  }

  lemma ExampleGreedySpaceMatches()
    ensures Matches("[A]:\n[B]: y", 0) == [Span(0, 2, 5, 11)]
  {
    var text := "[A]:\n[B]: y";
    assert FindChar(text, 1, ']') == 2;
    assert SkipSpace(text, 4) == 5;
    assert FindLineBracket(text, 5) == 11;
    assert Exec(text, 0) == Some(Span(0, 2, 5, 11));
    assert Exec(text, 11) == None;
  }

  lemma GreedySpaceCaptures()
    ensures "[A]:\n[B]: y"[1..2] == "A" && "[A]:\n[B]: y"[5..11] == "[B]: y"
    ensures NoEdgeSpace("[B]: y")
  {
    var text := "[A]:\n[B]: y";
    assert text[5..11] == "[B]: y" by {
      forall k | 0 <= k < 6 ensures text[5..11][k] == "[B]: y"[k] { }
    }
  }

  /** The greedy `\s*` also swallows a newline, so a marker right after it becomes content. */
  lemma ExampleGreedySpace()
    ensures SectionsOf("[A]:\n[B]: y", Matches("[A]:\n[B]: y", 0)) == [Section("A", "[B]: y")]
  {
    var text := "[A]:\n[B]: y";
    GreedySpaceCaptures();
    ExampleSection(text, Span(0, 2, 5, 11), "A", "[B]: y");
    ExampleGreedySpaceMatches();
    assert SectionsOf(text, [Span(0, 2, 5, 11)]) == [Section("A", "[B]: y")];
  }

  /** The result of `parseOpenAIResponse`. */
  datatype Parsed = Parsed(sections: seq<Section>, corrected: string)

  /** One more `exec` moves one match from the part still to be found to the part found. */
  lemma ExecStep(text: string, found: seq<Span>, lastIndex: nat, m: Span)
    requires lastIndex <= |text|
    requires Matches(text, 0) == found + Matches(text, lastIndex)
    requires Exec(text, lastIndex) == Some(m)
    ensures m.end <= |text|
    ensures Matches(text, 0) == (found + [m]) + Matches(text, m.end)
  {
    assert Matches(text, lastIndex) == [m] + Matches(text, m.end);
  }

  lemma SectionsOfAppend(text: string, found: seq<Span>, m: Span)
    requires forall i :: 0 <= i < |found| ==> Fits(text, found[i])
    requires Fits(text, m)
    ensures forall i :: 0 <= i < |found + [m]| ==> Fits(text, (found + [m])[i])
    ensures SectionsOf(text, found + [m]) == SectionsOf(text, found) + [ToSection(text, m)]
  {
  }

  /** Every section of a text is well formed. */
  lemma SectionsWellFormed(text: string)
    ensures forall i :: 0 <= i < |Matches(text, 0)| ==>
              WellFormedSection(SectionsOf(text, Matches(text, 0))[i])
  {
    var ms := Matches(text, 0);
    MatchesAllMatch(text, 0);
    forall i | 0 <= i < |ms| ensures WellFormedSection(SectionsOf(text, ms)[i]) {
      MatchGivesWellFormedSection(text, ms[i]);
    }
  }

  /** `parseOpenAIResponse(resultText)`. */
  method ParseOpenAIResponse(resultText: string) returns (r: Parsed)
    ensures r.sections == SectionsOf(resultText, Matches(resultText, 0))
    ensures forall i :: 0 <= i < |r.sections| ==> WellFormedSection(r.sections[i])
    ensures r.corrected == if |r.sections| > 0 then r.sections[0].content else ""
    ensures !HasMarker(resultText) ==> r.sections == [] && r.corrected == ""
  {
    var sections: seq<Section> := [];
    var lastIndex: nat := 0;
    ghost var found: seq<Span> := [];
    var match_ := Exec(resultText, lastIndex);
    while match_.Some?
      invariant lastIndex <= |resultText|
      invariant match_ == Exec(resultText, lastIndex)
      invariant Matches(resultText, 0) == found + Matches(resultText, lastIndex)
      invariant forall i :: 0 <= i < |found| ==> Fits(resultText, found[i])
      invariant sections == SectionsOf(resultText, found)
      decreases |resultText| - lastIndex
    {
      var m := match_.value;
      ExecStep(resultText, found, lastIndex, m);
      SectionsOfAppend(resultText, found, m);
      sections := sections + [ToSection(resultText, m)];
      found := found + [m];
      lastIndex := m.end;
      match_ := Exec(resultText, lastIndex);
    }
    assert found == Matches(resultText, 0);
    SectionsWellFormed(resultText);
    SomeMatchIffMarker(resultText);
    var corrected := if |sections| > 0 && sections[0].content != "" then sections[0].content else "";
    r := Parsed(sections, corrected);
  }
}
