/**
 * `getSpeechRecognitionErrorMessage`: the detailed message for a Web Speech API
 * error code. Every message opens with a bracketed `SR-` number; a known code is
 * followed by the code itself in brackets and a description, an unknown one by
 * `[unknown]` and the code at the end.
 */
module SpeechErrors {

  /** The eight codes the table knows, in the order of its `switch`. */
  const KNOWN_CODES: seq<string> := [
    "no-speech", "audio-capture", "not-allowed", "aborted",
    "network", "service-not-allowed", "bad-grammar", "language-not-supported"
  ]

  /** The SR number each known code is reported under. */
  const KNOWN_NUMBERS: seq<string> := ["004", "005", "006", "011", "012", "013", "014", "015"]

  /** The description that follows each known code. */
  const DESCRIPTIONS: seq<string> := [
    "No speech was detected.",
    "Audio capture failed - check microphone permissions.",
    "Microphone access was denied.",
    "Speech input was aborted.",
    "Network communication required for recognition failed.",
    "Speech recognition service not allowed.",
    "Grammar provided was invalid.",
    "The language is not supported."
  ]

  /** The bracketed number a message opens with, e.g. `[SR-004]`. */
  function Tag(number: string): (t: string)
    ensures |t| == |number| + 5
  {
    "[SR-" + number + "]"
  }

  /** The `switch`: the position of `error` among the known codes, or 8 when it is none of them. */
  function CodeIndex(error: string, from: nat := 0): (i: nat)
    requires from <= |KNOWN_CODES|
    ensures from <= i <= |KNOWN_CODES|
    ensures i < |KNOWN_CODES| ==> KNOWN_CODES[i] == error
    ensures forall k :: from <= k < i ==> KNOWN_CODES[k] != error
    decreases |KNOWN_CODES| - from
  {
    if from == |KNOWN_CODES| || KNOWN_CODES[from] == error then from else CodeIndex(error, from + 1)
  }

  /** `w` occurs in `s` at position `k`. */
  predicate OccursAt(s: string, w: string, k: nat) {
    k + |w| <= |s| && s[k..k + |w|] == w
  }

  const UNKNOWN_TEXT := "[unknown]" + " Speech recognition error occurred (code: "

  /** The message of a known code: SR tag, the code in brackets, a space and the description. */
  function KnownText(number: string, code: string, description: string): string {
    Tag(number) + "[" + code + "] " + description
  }

  /** The message of an unknown code: SR-004, `[unknown]`, and the code before a closing parenthesis. */
  function UnknownText(code: string): string {
    Tag("004") + UNKNOWN_TEXT + code + ")"
  }

  lemma KnownTextParts(number: string, code: string, description: string)
    requires |number| == 3
    ensures var r := KnownText(number, code, description);
      && |r| == 11 + |code| + |description|
      && r[..4] == "[SR-" && r[..8] == Tag(number)
      && r[8..10 + |code|] == "[" + code + "]"
      && r[9..9 + |code|] == code
      && r[10 + |code|..] == " " + description
  {
    var r := KnownText(number, code, description);
    assert r == Tag(number) + ("[" + code + "]") + (" " + description);
    assert r[..8] == Tag(number);
    assert r[8..10 + |code|] == "[" + code + "]";
    assert r[10 + |code|..] == " " + description;
  }

  lemma UnknownTextParts(code: string)
    ensures var r := UnknownText(code);
      && |r| == 9 + |UNKNOWN_TEXT| + |code|
      && r[..4] == "[SR-" && r[..8] == Tag("004")
      && r[8..|r| - |code| - 1] == UNKNOWN_TEXT
      && r[|r| - |code| - 1..] == code + ")"
      && r[|r| - |code| - 1..|r| - 1] == code
  {
    var r := UnknownText(code);
    assert r == Tag("004") + UNKNOWN_TEXT + (code + ")");
    assert r[..8] == Tag("004");
  }

  /**
   * `getSpeechRecognitionErrorMessage(error)`: a known code's SR tag, the code in
   * brackets and its description; for any other code the SR-004 tag, `[unknown]`
   * and the code. Every message opens with `[SR-` and holds the code verbatim.
   */
  function GetSpeechRecognitionErrorMessage(error: string): (r: string)
    ensures |r| > 8 + |error| && r[..4] == "[SR-"
    ensures exists k :: OccursAt(r, error, k)
  {
    var i := CodeIndex(error);
    if i < |KNOWN_CODES| then
      KnownTextParts(KNOWN_NUMBERS[i], error, DESCRIPTIONS[i]);
      assert OccursAt(KnownText(KNOWN_NUMBERS[i], error, DESCRIPTIONS[i]), error, 9);
      KnownText(KNOWN_NUMBERS[i], error, DESCRIPTIONS[i])
    else
      var r := UnknownText(error);
      UnknownTextParts(error);
      assert OccursAt(r, error, |r| - |error| - 1);
      r
  }

  /**
   * A known code's message is its SR tag, the code in brackets, and after a space
   * the code's description.
   */
  lemma KnownMessage(i: nat)
    requires i < |KNOWN_CODES|
    ensures var r := GetSpeechRecognitionErrorMessage(KNOWN_CODES[i]); var n := |KNOWN_CODES[i]|;
      && r[..4] == "[SR-" && r[..8] == Tag(KNOWN_NUMBERS[i])
      && r[8..10 + n] == "[" + KNOWN_CODES[i] + "]"
      && r[10 + n..] == " " + DESCRIPTIONS[i]
  {
    KnownCodesDistinct();
    KnownTextParts(KNOWN_NUMBERS[i], KNOWN_CODES[i], DESCRIPTIONS[i]);
  }

  /** Any other code gets the SR-004 `[unknown]` message, which ends with the code. */
  lemma UnknownMessage(error: string)
    requires error !in KNOWN_CODES
    ensures var r := GetSpeechRecognitionErrorMessage(error);
      r[..4] == "[SR-" && r[..8] == "[SR-004]" && r[8..|r| - |error| - 1] == UNKNOWN_TEXT && r[|r| - |error| - 1..] == error + ")"
  {
    UnknownTextParts(error);
  }

  lemma KnownCodesDistinct()
    ensures forall i, j :: 0 <= i < j < |KNOWN_CODES| ==> KNOWN_CODES[i] != KNOWN_CODES[j]
  {
  }

  /** Different codes give different messages, so the message always identifies its code. */
  lemma MessageIdentifiesCode(a: string, b: string)
    ensures GetSpeechRecognitionErrorMessage(a) == GetSpeechRecognitionErrorMessage(b) ==> a == b
  {
    if GetSpeechRecognitionErrorMessage(a) == GetSpeechRecognitionErrorMessage(b) {
      ShapeOf(a);
      ShapeOf(b);
      NumbersDistinct();
      var ia, ib := CodeIndex(a), CodeIndex(b);
    }
  }

  lemma NumbersDistinct()
    ensures forall i, j :: 0 <= i < j < |KNOWN_NUMBERS| ==> KNOWN_NUMBERS[i] != KNOWN_NUMBERS[j]
    ensures forall i :: 0 < i < |KNOWN_NUMBERS| ==> KNOWN_NUMBERS[i] != "004"
  {
  }

  /** The parts of a message that tell known from unknown codes and one code from another. */
  lemma ShapeOf(error: string)
    ensures var r := GetSpeechRecognitionErrorMessage(error); var i := CodeIndex(error);
      && (i < |KNOWN_CODES| ==> r[4..7] == KNOWN_NUMBERS[i] && r[9..9 + |error|] == error)
      && (i == |KNOWN_CODES| ==> && r[4..7] == "004" && r[9] == 'u'
                                 && |r| == 9 + |UNKNOWN_TEXT| + |error|
                                 && r[|r| - |error| - 1..|r| - 1] == error)
  {
    var i := CodeIndex(error);
    var r := GetSpeechRecognitionErrorMessage(error);
    if i < |KNOWN_CODES| {
      KnownTextParts(KNOWN_NUMBERS[i], error, DESCRIPTIONS[i]);
      assert r[4..7] == r[..8][4..7];
    } else {
      UnknownTextParts(error);
      assert r[4..7] == r[..8][4..7];
      assert r[9] == r[8..|r| - |error| - 1][1] == "[unknown]"[1];
    }
  }

  /** Of the known codes only `no-speech` shares its SR tag with the unknown ones. */
  lemma OnlyNoSpeechSharesUnknownTag(i: nat, error: string)
    requires i < |KNOWN_CODES| && error !in KNOWN_CODES
    ensures (GetSpeechRecognitionErrorMessage(KNOWN_CODES[i])[..8]
             == GetSpeechRecognitionErrorMessage(error)[..8]) <==> KNOWN_CODES[i] == "no-speech"
  {
    KnownMessage(i);
    UnknownMessage(error);
    SharesTag004(i);
  }

  lemma SharesTag004(i: nat)
    requires i < |KNOWN_CODES|
    ensures Tag(KNOWN_NUMBERS[i]) == "[SR-004]" <==> KNOWN_CODES[i] == "no-speech"
  {
    if i != 0 {
      NumbersDistinct();
      KnownCodesDistinct();
      assert Tag(KNOWN_NUMBERS[i])[4..7] == KNOWN_NUMBERS[i];
    }
  }
}
