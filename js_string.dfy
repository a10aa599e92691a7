/**
 * The parts of ECMAScript string handling the core relies on: the white-space and
 * line-terminator code points (sections 12.2 and 12.3 of ECMA-262), which are also
 * what the RegExp escape `\s` matches (section 22.2.2.9) and what
 * `String.prototype.trim` removes (section 22.1.3.32), and the characters the
 * RegExp `.` refuses to match without the `s` flag.
 */
module JsString {

  /** WhiteSpace: TAB, VT, FF, SPACE, NO-BREAK SPACE, ZWNBSP and the category Zs. */
  predicate IsWhiteSpace(c: char) {
    || c == '\t' || c == '\U{000B}' || c == '\U{000C}' || c == ' '
    || c == '\U{00A0}' || c == '\U{FEFF}' || c == '\U{1680}'
    || ('\U{2000}' <= c <= '\U{200A}')
    || c == '\U{202F}' || c == '\U{205F}' || c == '\U{3000}'
  }

  /** LineTerminator: LF, CR, LINE SEPARATOR and PARAGRAPH SEPARATOR. */
  predicate IsLineTerminator(c: char) {
    c == '\n' || c == '\r' || c == '\U{2028}' || c == '\U{2029}'
  }

  /** What `\s` matches and what `trim` strips. */
  predicate IsJsSpace(c: char) {
    IsWhiteSpace(c) || IsLineTerminator(c)
  }

  predicate AllSpace(s: string, i: nat, j: nat)
    requires i <= j <= |s|
  {
    forall k :: i <= k < j ==> IsJsSpace(s[k])
  }

  /** Neither the first nor the last character of `s` is white space. */
  predicate NoEdgeSpace(s: string) {
    s == [] || (!IsJsSpace(s[0]) && !IsJsSpace(s[|s| - 1]))
  }

  predicate NoLineTerminator(s: string) {
    forall k :: 0 <= k < |s| ==> !IsLineTerminator(s[k])
  }

  /** `s[i..j]` is what is left of `s` once its leading and trailing white space is gone. */
  predicate TrimmedAt(s: string, i: nat, j: nat) {
    && i <= j <= |s|
    && AllSpace(s, 0, i)
    && AllSpace(s, j, |s|)
    && (i < j ==> !IsJsSpace(s[i]) && !IsJsSpace(s[j - 1]))
  }

  /** The end of the run of white space that starts at `i`. */
  function SkipSpace(s: string, i: nat): (j: nat)
    requires i <= |s|
    ensures i <= j <= |s|
    ensures AllSpace(s, i, j)
    ensures j == |s| || !IsJsSpace(s[j])
    decreases |s| - i
  {
    if i < |s| && IsJsSpace(s[i]) then SkipSpace(s, i + 1) else i
  }

  /** The start of the run of white space that ends at `j`, not going below `i`. */
  function SkipSpaceBack(s: string, i: nat, j: nat): (k: nat)
    requires i <= j <= |s|
    ensures i <= k <= j
    ensures AllSpace(s, k, j)
    ensures k == i || !IsJsSpace(s[k - 1])
    decreases j - i
  {
    if i < j && IsJsSpace(s[j - 1]) then SkipSpaceBack(s, i, j - 1) else j
  }

  /** `String.prototype.trim`: never longer than `s`, and without white space at either edge. */
  function Trim(s: string): (r: string)
    ensures |r| <= |s|
    ensures NoEdgeSpace(r)
  {
    var i := SkipSpace(s, 0);
    s[i..SkipSpaceBack(s, i, |s|)]
  }

  /** Trim keeps exactly the window between the leading and the trailing white space. */
  lemma TrimSpec(s: string) returns (i: nat, j: nat)
    ensures TrimmedAt(s, i, j) && Trim(s) == s[i..j]
    ensures NoEdgeSpace(Trim(s))
  {
    i := SkipSpace(s, 0);
    j := SkipSpaceBack(s, i, |s|);
    assert AllSpace(s, j, |s|);
  }

  /** What trim leaves is determined: any two trimmed windows of `s` hold the same text. */
  lemma TrimmedAtUnique(s: string, i: nat, j: nat, i': nat, j': nat)
    requires TrimmedAt(s, i, j) && TrimmedAt(s, i', j')
    ensures s[i..j] == s[i'..j']
  {
  }

  /** Trimming leaves a string without white space at its edges unchanged, and only such a string. */
  lemma TrimFixesExactlyEdgeFree(s: string)
    ensures Trim(s) == s <==> NoEdgeSpace(s)
  {
    var _, _ := TrimSpec(s);
    if NoEdgeSpace(s) {
      assert TrimmedAt(s, 0, |s|);
      var i, j := TrimSpec(s);
      TrimmedAtUnique(s, i, j, 0, |s|);
      assert s[0..|s|] == s;
    }
  }

  /** Trimming twice is trimming once. */
  lemma TrimIdempotent(s: string)
    ensures Trim(Trim(s)) == Trim(s)
  {
    TrimFixesExactlyEdgeFree(Trim(s));
  }

  /** The trimmed string is a window of the original, so it lies inside it. */
  lemma TrimIsWindow(s: string) returns (i: nat, j: nat)
    ensures i <= j <= |s| && Trim(s) == s[i..j]
  {
    i, j := TrimSpec(s);
  }

  lemma WindowKeepsNoLineTerminator(s: string, i: nat, j: nat)
    requires i <= j <= |s| && NoLineTerminator(s)
    ensures NoLineTerminator(s[i..j])
  {
    forall k | 0 <= k < j - i ensures !IsLineTerminator(s[i..j][k]) {
      assert s[i..j][k] == s[i + k];
    }
  }

  /** Trimming a string with no line terminator gives one with none either. */
  lemma TrimKeepsNoLineTerminator(s: string)
    requires NoLineTerminator(s)
    ensures NoLineTerminator(Trim(s))
  {
    var i, j := TrimIsWindow(s);
    WindowKeepsNoLineTerminator(s, i, j);
  }
}
