/** `LANGUAGES`: the languages offered for translation and speech recognition. */
module Languages {

  /** One entry: an IETF BCP 47 code and the name shown for it (the `label` field; `label` is a Dafny keyword). */
  datatype Language = Language(code: string, name: string)

  const LANGUAGES: seq<Language> := [
    Language("en-US", "English"),
    Language("es-ES", "Spanish"),
    Language("fr-FR", "French"),
    Language("de-DE", "German"),
    Language("pt-PT", "Portuguese"),
    Language("ru-RU", "Russian"),
    Language("sv-SE", "Swedish"),
    Language("zh-CN", "Chinese (Simplified)"),
    Language("tr-TR", "Turkish"),
    Language("ko-KR", "Korean")
  ]

  /** The table's codes, in order. */
  function Codes(): seq<string>
  {
    seq(|LANGUAGES|, i requires 0 <= i < |LANGUAGES| => LANGUAGES[i].code)
  }

  /** `LANGUAGES.some(l => l.code === code)`. */
  function IsSupported(code: string, from: nat := 0): (b: bool)
    requires from <= |LANGUAGES|
    ensures b <==> exists i :: from <= i < |LANGUAGES| && LANGUAGES[i].code == code
    decreases |LANGUAGES| - from
  {
    from < |LANGUAGES| && (LANGUAGES[from].code == code || IsSupported(code, from + 1))
  }

  /** Ten entries, in the fixed order of the table. */
  lemma TableOrder()
    ensures Codes() == ["en-US", "es-ES", "fr-FR", "de-DE", "pt-PT", "ru-RU", "sv-SE", "zh-CN", "tr-TR", "ko-KR"]
  {
  }

  /** No two entries share a code, so a lookup by code is unambiguous. */
  lemma CodesDistinct()
    ensures forall i, j :: 0 <= i < j < |LANGUAGES| ==> LANGUAGES[i].code != LANGUAGES[j].code
  {
  }

  /** No two entries share a name. */
  lemma LabelsDistinct()
    ensures forall i, j :: 0 <= i < j < |LANGUAGES| ==> LANGUAGES[i].name != LANGUAGES[j].name
  {
  }

  /** Every code and every name is non-empty, and no name is also a code. */
  lemma EntriesNonEmpty()
    ensures forall i :: 0 <= i < |LANGUAGES| ==> LANGUAGES[i].code != "" && LANGUAGES[i].name != ""
    ensures forall i, j :: 0 <= i < |LANGUAGES| && 0 <= j < |LANGUAGES| ==> LANGUAGES[i].name != LANGUAGES[j].code
  {
  }
}
