/** The value types the core shares: a chat participant and one parsed section. */
module Types {

  /** A chat participant. */
  datatype Role = Patient | Provider {

    /** The string the role is spelt as at run time. */
    function Name(): (s: string)
      ensures s == "Patient" || s == "Provider"
    {
      match this
      case Patient => "Patient"
      case Provider => "Provider"
    }
  }

  /** One `[heading]: content` pair of a model response. */
  datatype Section = Section(heading: string, content: string)
}
