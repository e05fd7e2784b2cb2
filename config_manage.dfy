/** The configuration holder: ignore patterns and supported extensions, replaced together by `setConfig`. */
module ConfigManagement {
  import opened Patterns

  datatype SetConfigParams = SetConfigParams(ignorePatterns: seq<Regex>, supportedExtensions: seq<string>)

  class ConfigManager {
    var ignorePatterns: seq<Regex>
    var supportedExtensions: seq<string>

    /** A fresh manager holds no patterns and no extensions. */
    constructor ()
      ensures IgnorePatterns() == [] && SupportedExtensions() == []
    {
      ignorePatterns := [];
      supportedExtensions := [];
    }

    /** The `ignorePatterns` getter: reads the manager and nothing else. */
    function IgnorePatterns(): (r: seq<Regex>)
      reads this
      ensures r == ignorePatterns
    {
      ignorePatterns
    }

    /** The `supportedExtensions` getter: reads the manager and nothing else. */
    function SupportedExtensions(): (r: seq<string>)
      reads this
      ensures r == supportedExtensions
    {
      supportedExtensions
    }

    /** Both fields are overwritten; the getters then return exactly what was passed. */
    method SetConfig(params: SetConfigParams)
      modifies this
      ensures IgnorePatterns() == params.ignorePatterns
      ensures SupportedExtensions() == params.supportedExtensions
    {
      ignorePatterns := params.ignorePatterns;
      supportedExtensions := params.supportedExtensions;
    }
  }
}
