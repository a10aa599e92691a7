/** `getLanguageLabel` and `getRoleLabel`: the names the chat shows for a language code and a sender. */
module ChatUtils {
  import opened Wrappers
  import opened Types
  import opened Languages

  /** `LANGUAGES.find(l => l.code === code)`: the first entry with that code, if any. */
  function FindLanguage(code: string, from: nat := 0): (r: Option<Language>)
    requires from <= |LANGUAGES|
    ensures r.Some? ==> exists i :: from <= i < |LANGUAGES| && LANGUAGES[i] == r.value && r.value.code == code
    ensures r.None? ==> forall i :: from <= i < |LANGUAGES| ==> LANGUAGES[i].code != code
    decreases |LANGUAGES| - from
  {
    if from == |LANGUAGES| then None
    else if LANGUAGES[from].code == code then Some(LANGUAGES[from])
    else FindLanguage(code, from + 1)
  }

  /** `getLanguageLabel(code)`: the name of the entry with that code, or the code itself. */
  function GetLanguageLabel(code: string): (r: string)
    ensures || (exists i :: 0 <= i < |LANGUAGES| && LANGUAGES[i].code == code && r == LANGUAGES[i].name)
            || (!IsSupported(code) && r == code)
  {
    match FindLanguage(code)
    case Some(lang) => lang.name
    case None => code
  }

  /** A known code gets the name of its table entry. */
  lemma LanguageLabelOfEntry(i: nat)
    requires i < |LANGUAGES|
    ensures GetLanguageLabel(LANGUAGES[i].code) == LANGUAGES[i].name
  {
    CodesDistinct();
  }

  /** A code that is not in the table comes back as it is. */
  lemma LanguageLabelOfUnknown(code: string)
    requires !IsSupported(code)
    ensures GetLanguageLabel(code) == code
  {
  }

  /** The label is always some table name or the code itself, and it is the code exactly when the code is unknown. */
  lemma LanguageLabelIsNameOrCode(code: string)
    ensures var r := GetLanguageLabel(code);
      (exists i :: 0 <= i < |LANGUAGES| && r == LANGUAGES[i].name) || r == code
    ensures GetLanguageLabel(code) == code <==> !IsSupported(code)
  {
    EntriesNonEmpty();
  }

  /**
   * `getRoleLabel(sender)`: only `"Provider"` is renamed, to `"Health Care Provider"`;
   * every other sender, `"Patient"` included, is shown unchanged.
   */
  function GetRoleLabel(sender: string): (r: string)
    ensures r != sender <==> sender == "Provider"
    ensures sender == "Provider" ==> r == "Health Care Provider"
  {
    if sender == "Patient" then "Patient"
    else if sender == "Provider" then "Health Care Provider"
    else sender
  }

  /** The two roles get different labels, so a label tells who sent a message. */
  lemma RoleLabelsDistinct(a: Role, b: Role)
    ensures GetRoleLabel(a.Name()) == GetRoleLabel(b.Name()) <==> a == b
    ensures GetRoleLabel(Patient.Name()) == "Patient"
    ensures GetRoleLabel(Provider.Name()) == "Health Care Provider"
  {
  }
}
