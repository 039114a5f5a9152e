/** The settings record that the extension's scripts pass to each other. */
module Configuration {
  import opened Wrappers

  /**
   * A settings record as it travels in a message or an event. Every field
   * may be absent (`None`): nothing on the way checks the record's shape.
   */
  datatype Config = Config(findText: Option<string>, replaceText: Option<string>, logShaderWGSL: Option<bool>)

  /** JavaScript's `value || ''` for a string property that may be absent. */
  function OrEmpty(v: Option<string>): (s: string)
    ensures v.Some? ==> s == v.value
    ensures v.None? ==> s == ""
  {
    v.GetOr("")
  }
}
