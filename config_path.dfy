/**
 * Where the identity store lives: `extract_config_path`. An explicit
 * `--config-path` wins; otherwise the platform's configuration directory
 * (a parameter here: `dirs::config_dir()` reads the environment) followed by
 * `/sigrs/config.sigrs`. Paths are the bytes of a Unix `OsString`; a Rust
 * `String` is one whose bytes are well-formed UTF-8.
 */
module ConfigPath {
  import opened Common
  import Utf8

  /** `/sigrs/config.sigrs`, the part pushed onto the configuration directory. */
  const STORE_SUFFIX: Bytes := [47, 115, 105, 103, 114, 115, 47, 99, 111, 110, 102, 105, 103, 46, 115, 105, 103, 114, 115]

  lemma SuffixIsAscii()
    ensures AllAscii(STORE_SUFFIX) && |STORE_SUFFIX| == 19
  {
  }

  const CONFIG_PATH_REQUIRED := "Config path required"
  const FORMATTING_FAILED := "Config path formatting failed"

  /**
   * `extract_config_path`: `override` is the `--config-path` argument,
   * `configDir` what `dirs::config_dir()` returned.
   */
  function ExtractConfigPath(override: Option<Bytes>, configDir: Option<Bytes>): (r: Result<Bytes, string>)
    ensures override.Some? ==> r == Ok(override.value)
    ensures override.None? && configDir.None? ==> r == Err(CONFIG_PATH_REQUIRED)
    ensures override.None? && configDir.Some? ==>
      (r.Ok? <==> Utf8.Valid(configDir.value))
      && (r.Ok? ==> r.value == configDir.value + STORE_SUFFIX)
      && (r.Err? ==> r.error == FORMATTING_FAILED)
  {
    if override.Some? then Ok(override.value)
    else if configDir.None? then Err(CONFIG_PATH_REQUIRED)
    else
      var joined := configDir.value + STORE_SUFFIX;
      SuffixIsAscii();
      Utf8.AppendAsciiPreservesValidity(configDir.value, STORE_SUFFIX);
      if Utf8.Valid(joined) then Ok(joined) else Err(FORMATTING_FAILED)
  }

  /** A string result is always a Rust `String`: well-formed UTF-8, whichever way it was found. */
  lemma ResultIsUtf8(override: Option<Bytes>, configDir: Option<Bytes>)
    requires override.Some? ==> Utf8.Valid(override.value)
    ensures ExtractConfigPath(override, configDir).Ok? ==> Utf8.Valid(ExtractConfigPath(override, configDir).value)
  {
    if override.None? && configDir.Some? {
      SuffixIsAscii();
      Utf8.AppendAsciiPreservesValidity(configDir.value, STORE_SUFFIX);
    }
  }
}
