/**
 * The language guard of a chat panel: the two drop-down handlers accept a value
 * only when it is one of the table's codes, and each touches only its own setting.
 */
module Panel {
  import opened Languages

  /** The language settings one panel shows and edits (state kept by its parent). */
  class LanguagePanel {
    var inputLang: string
    var targetLang: string

    /** Both settings are table codes. */
    predicate Valid()
      reads this
    {
      IsSupported(inputLang) && IsSupported(targetLang)
    }

    constructor (inputLang: string, targetLang: string)
      ensures this.inputLang == inputLang && this.targetLang == targetLang
      ensures IsSupported(inputLang) && IsSupported(targetLang) ==> Valid()
    {
      this.inputLang := inputLang;
      this.targetLang := targetLang;
    }

    /**
     * `handleInputLangChange`: `setInputLang(value)` is called, here reported as
     * `accepted`, exactly when `value` is a table code; otherwise nothing changes.
     */
    method HandleInputLangChange(value: string) returns (accepted: bool)
      modifies this
      ensures accepted <==> IsSupported(value)
      ensures inputLang == (if accepted then value else old(inputLang))
      ensures targetLang == old(targetLang)
      ensures old(Valid()) ==> Valid()
    {
      if !IsSupported(value) {
        return false;
      }
      inputLang := value;
      accepted := true;
    }

    /**
     * `handleTargetLangChange`: `setTargetLang(value)` is called exactly when
     * `value` is a table code; otherwise nothing changes.
     */
    method HandleTargetLangChange(value: string) returns (accepted: bool)
      modifies this
      ensures accepted <==> IsSupported(value)
      ensures targetLang == (if accepted then value else old(targetLang))
      ensures inputLang == old(inputLang)
      ensures old(Valid()) ==> Valid()
    {
      if !IsSupported(value) {
        return false;
      }
      targetLang := value;
      accepted := true;
    }
  }

  /** The panels' starting settings are table codes. */
  lemma InitialSettingsValid()
    ensures IsSupported("en-US") && IsSupported("es-ES")
  {
    assert LANGUAGES[0].code == "en-US" && LANGUAGES[1].code == "es-ES";
  }
}
