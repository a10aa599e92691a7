/**
 * `extractQuotedHeading`: the first match of `"([^"]+)"` in a heading, or the heading
 * itself. The quoted run `[^"]+` can only be followed by `"` when it is maximal, so a
 * match at `p` is the text up to the next `"`, and it exists exactly when that next
 * `"` is not right after `p`.
 */
module QuotedHeading {
  import opened Wrappers

  /** `"` at `open` and at `close`, at least one character between them, none of them `"`. */
  predicate QuotedAt(h: string, open: nat, close: nat) {
    && open + 1 < close < |h|
    && h[open] == '"' && h[close] == '"'
    && forall k :: open < k < close ==> h[k] != '"'
  }

  ghost predicate HasQuoted(h: string) {
    exists open: nat, close: nat :: QuotedAt(h, open, close)
  }

  predicate NoQuote(s: string) {
    forall k :: 0 <= k < |s| ==> s[k] != '"'
  }

  datatype Quote = Quote(open: nat, close: nat)

  /** The first `"` at or after `i`, or the end of the heading. */
  function NextQuote(h: string, i: nat): (j: nat)
    requires i <= |h|
    ensures i <= j <= |h|
    ensures forall k :: i <= k < j ==> h[k] != '"'
    ensures j == |h| || h[j] == '"'
    decreases |h| - i
  {
    if i == |h| || h[i] == '"' then i else NextQuote(h, i + 1)
  }

  /** The regular expression's search: the leftmost quoted run that starts at or after `from`. */
  function FindQuoted(h: string, from: nat): (r: Option<Quote>)
    requires from <= |h|
    ensures r.Some? ==> from <= r.value.open && QuotedAt(h, r.value.open, r.value.close)
    ensures r.Some? ==> forall p: nat, q: nat :: from <= p < r.value.open ==> !QuotedAt(h, p, q)
    ensures r.None? ==> forall p: nat, q: nat :: from <= p ==> !QuotedAt(h, p, q)
    decreases |h| - from
  {
    if from == |h| then None
    else if h[from] == '"' && NextQuote(h, from + 1) < |h| && NextQuote(h, from + 1) > from + 1 then
      Some(Quote(from, NextQuote(h, from + 1)))
    else
      var r := FindQuoted(h, from + 1);
      assert forall q: nat :: !QuotedAt(h, from, q);
      r
  }

  /** `extractQuotedHeading(heading)`. */
  function ExtractQuotedHeading(heading: string): (r: string)
    ensures |r| <= |heading|
    ensures exists i: nat, j: nat :: i <= j <= |heading| && r == heading[i..j]
    ensures !HasQuoted(heading) ==> r == heading
    ensures HasQuoted(heading) ==> r != [] && NoQuote(r)
    ensures forall p: nat, q: nat :: QuotedAt(heading, p, q) && (forall p': nat, q': nat :: p' < p ==> !QuotedAt(heading, p', q'))
              ==> r == heading[p + 1..q]
  {
    match FindQuoted(heading, 0)
    case None => assert heading == heading[0..|heading|]; heading
    case Some(Quote(open, close)) =>
      var r := heading[open + 1..close];
      assert forall k :: 0 <= k < |r| ==> r[k] == heading[open + 1 + k];
      r
  }

  /** Applying the extraction to its own result changes nothing. */
  lemma ExtractIdempotent(heading: string)
    ensures ExtractQuotedHeading(ExtractQuotedHeading(heading)) == ExtractQuotedHeading(heading)
  {
    var r := ExtractQuotedHeading(heading);
    if HasQuoted(heading) {
      assert !HasQuoted(r);
    }
  }

  lemma TwoOccurrences(s: string, i: nat, j: nat, c: char)
    requires i < j < |s| && s[i] == c && s[j] == c
    ensures multiset(s)[c] >= 2
  {
    assert s == s[..j] + s[j..];
    assert s[..j][i] == c;
    assert s[j..][0] == c;
    assert multiset(s) == multiset(s[..j]) + multiset(s[j..]);
  }

  /** A heading with fewer than two `"` characters comes back unchanged. */
  lemma FewQuotesUnchanged(heading: string)
    requires multiset(heading)['"'] < 2
    ensures ExtractQuotedHeading(heading) == heading
  {
    if HasQuoted(heading) {
      var p: nat, q: nat :| QuotedAt(heading, p, q);
      TwoOccurrences(heading, p, q, '"');
    }
  }

  /** The quoted phrase is pulled out of an annotated heading. */
  lemma ExampleQuoted()
    ensures ExtractQuotedHeading("Heading (\"Translation\")") == "Translation"
  {
    var h := "Heading (\"Translation\")";
    assert |h| == 23;
    assert forall k :: 0 <= k < 9 ==> h[k] != '"';
    assert forall k :: 9 < k < 21 ==> h[k] != '"';
    assert QuotedAt(h, 9, 21);
    assert h[10..21] == "Translation";
  }

  /** Empty quotes are no match: the search moves on to the next `"`. */
  lemma ExampleEmptyQuotesSkipped()
    ensures ExtractQuotedHeading("\"\"ab\"") == "ab"
  {
    var h := "\"\"ab\"";
    assert NextQuote(h, 1) == 1;
    assert NextQuote(h, 2) == 4;
    assert FindQuoted(h, 0) == Some(Quote(1, 4));
  }
}
