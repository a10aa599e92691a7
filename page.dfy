/**
 * The reply parsing in `Home.handleTranslate`: three case-insensitive matches of
 * `Label:\s*(.*)`, each taken at the first occurrence of its label. After the
 * label every white-space character is skipped, line breaks included; the match
 * then runs to the next line terminator and is trimmed. A missing correction or
 * suggestion is empty; a missing translation falls back to the whole reply.
 */
module HomePage {
  import opened Wrappers
  import opened JsString

  /**
   * The `i` flag without `u` compares characters after upper-casing them, and a
   * character outside ASCII is never made equal to an ASCII one that way. The
   * labels are ASCII, so against them the comparison is ASCII case folding.
   */
  function AsciiUpper(c: char): char
  {
    if 'a' <= c <= 'z' then (c as int - 32) as char else c
  }

  /** The text matches `label`, ignoring ASCII case, at position `p`. */
  predicate LabelAt(text: string, p: nat, tag: string) {
    && p + |tag| <= |text|
    && forall k :: 0 <= k < |tag| ==> AsciiUpper(text[p + k]) == AsciiUpper(tag[k])
  }

  ghost predicate HasLabel(text: string, tag: string) {
    exists p: nat :: LabelAt(text, p, tag)
  }

  /** The first position at or after `from` where `label` occurs, ignoring case. */
  function FindLabel(text: string, tag: string, from: nat): (r: Option<nat>)
    requires from <= |text|
    ensures r.Some? ==> from <= r.value && LabelAt(text, r.value, tag)
    ensures r.Some? ==> forall p: nat :: from <= p < r.value ==> !LabelAt(text, p, tag)
    ensures r.None? ==> forall p: nat :: from <= p ==> !LabelAt(text, p, tag)
    decreases |text| - from
  {
    if LabelAt(text, from, tag) then Some(from)
    else if from == |text| then None
    else FindLabel(text, tag, from + 1)
  }

  /** The end of the line that `i` is on: the next line terminator, or the end of the text. */
  function LineEnd(text: string, i: nat): (j: nat)
    requires i <= |text|
    ensures i <= j <= |text|
    ensures forall k :: i <= k < j ==> !IsLineTerminator(text[k])
    ensures j == |text| || IsLineTerminator(text[j])
    decreases |text| - i
  {
    if i == |text| || IsLineTerminator(text[i]) then i else LineEnd(text, i + 1)
  }

  /** `text.match(/label\s*(.*)/i)?.[1]`: the captured rest of the line, untrimmed. */
  function MatchLabel(text: string, tag: string): (r: Option<string>)
    ensures r.Some? ==> |r.value| <= |text| && NoLineTerminator(r.value)
  {
    match FindLabel(text, tag, 0)
    case None => None
    case Some(p) =>
      var i := SkipSpace(text, p + |tag|);
      Some(text[i..LineEnd(text, i)])
  }

  /** There is a capture exactly when the label occurs. */
  lemma MatchLabelSpec(text: string, tag: string)
    ensures MatchLabel(text, tag).Some? <==> HasLabel(text, tag)
  {
    match FindLabel(text, tag, 0)
    case None =>
    case Some(p) => assert LabelAt(text, p, tag);
  }

  /**
   * The capture for the first occurrence `p` of the label: after the white space
   * that follows the label (none of it left over), up to but excluding the next
   * line terminator, so it holds no line terminator.
   */
  lemma MatchLabelCapture(text: string, tag: string) returns (p: nat, i: nat, j: nat)
    requires MatchLabel(text, tag).Some?
    ensures LabelAt(text, p, tag) && forall q: nat :: q < p ==> !LabelAt(text, q, tag)
    ensures p + |tag| <= i <= j <= |text|
    ensures AllSpace(text, p + |tag|, i) && (i == |text| || !IsJsSpace(text[i]))
    ensures NoLineTerminator(text[i..j]) && (j == |text| || IsLineTerminator(text[j]))
    ensures MatchLabel(text, tag).value == text[i..j]
  {
    p := FindLabel(text, tag, 0).value;
    i := SkipSpace(text, p + |tag|);
    j := LineEnd(text, i);
    forall k | 0 <= k < j - i ensures !IsLineTerminator(text[i..j][k]) {
      assert text[i..j][k] == text[i + k];
    }
  }

  /** The capture holds no line terminator, and once trimmed no edge white space. */
  lemma CaptureIsOneLine(text: string, tag: string)
    requires MatchLabel(text, tag).Some?
    ensures NoLineTerminator(MatchLabel(text, tag).value)
    ensures NoLineTerminator(Trim(MatchLabel(text, tag).value))
  {
    var _, _, _ := MatchLabelCapture(text, tag);
    TrimKeepsNoLineTerminator(MatchLabel(text, tag).value);
  }

  /** The ASCII upper-case form of a string. */
  function Folded(s: string): string
  {
    seq(|s|, k requires 0 <= k < |s| => AsciiUpper(s[k]))
  }

  /** Labels that differ only in ASCII case match the same way, so the match ignores case. */
  lemma {:induction false} CaseInsensitive(text: string, tag: string, tag': string, from: nat)
    requires Folded(tag) == Folded(tag') && from <= |text|
    ensures FindLabel(text, tag, from) == FindLabel(text, tag', from)
    decreases |text| - from
  {
    assert LabelAt(text, from, tag) == LabelAt(text, from, tag') by {
      assert |tag| == |tag'|;
      forall k | 0 <= k < |tag| ensures AsciiUpper(tag[k]) == AsciiUpper(tag'[k]) {
        assert Folded(tag)[k] == Folded(tag')[k];
      }
    }
    if !LabelAt(text, from, tag) && from < |text| {
      CaseInsensitive(text, tag, tag', from + 1);
    }
  }

  /** Hence the capture itself does not depend on the label's case. */
  lemma MatchIgnoresCase(text: string, tag: string, tag': string)
    requires Folded(tag) == Folded(tag')
    ensures MatchLabel(text, tag) == MatchLabel(text, tag')
  {
    CaseInsensitive(text, tag, tag', 0);
    assert |tag| == |Folded(tag)| == |tag'|;
  }

  /** Folding is idempotent: an upper-cased letter stays as it is. */
  lemma FoldedIdempotent(s: string)
    ensures Folded(Folded(s)) == Folded(s)
  {
    assert forall k :: 0 <= k < |s| ==> AsciiUpper(AsciiUpper(s[k])) == AsciiUpper(s[k]);
  }

  /** A label matches exactly as its upper-case spelling does. */
  lemma MatchAsUpperCase(text: string, tag: string)
    ensures MatchLabel(text, tag) == MatchLabel(text, Folded(tag))
  {
    FoldedIdempotent(tag);
    MatchIgnoresCase(text, tag, Folded(tag));
  }

  /** The three values the handler publishes: correction, suggestions and translation. */
  datatype Extracted = Extracted(correction: string, suggestions: string, translation: string)

  const CORRECTED_LABEL := "Corrected Transcript:"
  const SUGGESTIONS_LABEL := "Suggestions:"
  const TRANSLATION_LABEL := "Translation:"

  /** The trimmed capture, or `fallback` when the label is absent. */
  function TrimmedOr(m: Option<string>, fallback: string): string {
    match m
    case Some(c) => Trim(c)
    case None => fallback
  }

  /** `handleTranslate`'s parsing of the model's reply `result`. */
  function ExtractLabelled(result: string): (e: Extracted)
    ensures NoLineTerminator(e.correction) && NoLineTerminator(e.suggestions)
    ensures e.translation == result || NoLineTerminator(e.translation)
  {
    OneLabel(result, CORRECTED_LABEL);
    OneLabel(result, SUGGESTIONS_LABEL);
    OneLabel(result, TRANSLATION_LABEL);
    Extracted(
      TrimmedOr(MatchLabel(result, CORRECTED_LABEL), ""),
      TrimmedOr(MatchLabel(result, SUGGESTIONS_LABEL), ""),
      TrimmedOr(MatchLabel(result, TRANSLATION_LABEL), result))
  }

  /**
   * A correction or suggestion is a single trimmed line, empty when its label is
   * missing; the translation is too, unless its label is missing, in which case it
   * is the whole reply.
   */
  lemma ExtractLabelledSpec(result: string)
    ensures var e := ExtractLabelled(result);
      && NoLineTerminator(e.correction) && NoEdgeSpace(e.correction)
      && NoLineTerminator(e.suggestions) && NoEdgeSpace(e.suggestions)
      && (!HasLabel(result, CORRECTED_LABEL) ==> e.correction == "")
      && (!HasLabel(result, SUGGESTIONS_LABEL) ==> e.suggestions == "")
      && (!HasLabel(result, TRANSLATION_LABEL) ==> e.translation == result)
      && (HasLabel(result, TRANSLATION_LABEL) ==> NoLineTerminator(e.translation) && NoEdgeSpace(e.translation))
  {
    OneLabel(result, CORRECTED_LABEL);
    OneLabel(result, SUGGESTIONS_LABEL);
    OneLabel(result, TRANSLATION_LABEL);
  }

  lemma OneLabel(result: string, tag: string)
    ensures MatchLabel(result, tag).None? <==> !HasLabel(result, tag)
    ensures MatchLabel(result, tag).Some? ==>
      var t := Trim(MatchLabel(result, tag).value); NoLineTerminator(t) && NoEdgeSpace(t)
  {
    MatchLabelSpec(result, tag);
    if MatchLabel(result, tag).Some? {
      CaptureIsOneLine(result, tag);
    }
  }

  /** The label is found in lower case, the line break after it is skipped, and the capture stops at the next one. */
  lemma ExampleNextLine()
    ensures MatchLabel("translation:\n hola\nx", TRANSLATION_LABEL) == Some("hola")
  {
    var text := "translation:\n hola\nx";
    assert LabelAt(text, 0, TRANSLATION_LABEL);
    assert SkipSpace(text, 12) == 14;
    assert LineEnd(text, 14) == 18;
    assert text[14..18] == "hola";
  }
}
