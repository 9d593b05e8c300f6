/**
 * config.py: the application settings read once from the environment, the
 * check that an API key has been configured, the model configuration handed
 * to the LLM client, and the `DEBUG` flag.
 */
module Config {
  import opened Wrappers
  import Text

  /**
   * The sampling temperature. `Settings.__init__` parses it from `DEFAULT_TEMPERATURE`
   * as a float; the model never inspects it, it only copies it.
   */
  type Temperature(==)

  /** The two example keys shipped with the project, which do not count as configured. */
  const PlaceholderKeys: seq<string> := ["your-openai-api-key-here", "your-openrouter-api-key-here"]

  const DefaultBaseUrl := "https://openrouter.ai/api/v1"
  const DefaultModel := "google/gemma-2-9b-it:free"
  const DefaultHost := "0.0.0.0"
  const DefaultDebug := "false"

  /** The fields of a `Settings` object; none is changed after construction. */
  datatype Settings = Settings(
    openaiApiKey: Option<string>,
    openaiBaseUrl: string,
    defaultModel: string,
    defaultTemperature: Temperature,
    host: string,
    port: int,
    debug: bool)

  /** The dictionary returned by `get_model_config`: exactly these four keys. */
  datatype ModelConfig = ModelConfig(
    model: string,
    temperature: Temperature,
    openaiApiKey: Option<string>,
    openaiApiBase: string)

  /** `os.getenv(name, default)` over a snapshot of the environment. */
  function Getenv(env: map<string, string>, name: string, default: string): string {
    if name in env then env[name] else default
  }

  /**
   * The `debug` rule: the value, lower-cased, equals `"true"`. That holds
   * exactly when the value is `true` in any mix of upper and lower case.
   */
  function DebugFlag(value: string): (on: bool)
    ensures on <==> |value| == 4 && forall i | 0 <= i < 4 :: value[i] == "true"[i] || value[i] == "TRUE"[i]
  {
    var lowered := Text.Lower(value);
    assert lowered == "true" <==> |value| == 4 && forall i | 0 <= i < 4 :: Text.LowerChar(value[i]) == "true"[i] by {
      if |value| == 4 && forall i | 0 <= i < 4 :: Text.LowerChar(value[i]) == "true"[i] {
        assert lowered == "true";
      }
    }
    lowered == "true"
  }

  /**
   * `Settings.__init__`. The float parse of `DEFAULT_TEMPERATURE` and the
   * integer parse of `PORT` are not modelled: their results are parameters.
   */
  function LoadSettings(env: map<string, string>, temperature: Temperature, port: int): (s: Settings)
    ensures s.openaiApiKey.None? <==> "OPENAI_API_KEY" !in env
    ensures s.openaiApiKey.Some? ==> s.openaiApiKey.value == env["OPENAI_API_KEY"]
    ensures s.openaiBaseUrl == if "OPENAI_BASE_URL" in env then env["OPENAI_BASE_URL"] else DefaultBaseUrl
    ensures s.defaultModel == if "DEFAULT_MODEL" in env then env["DEFAULT_MODEL"] else DefaultModel
    ensures s.host == if "HOST" in env then env["HOST"] else DefaultHost
    ensures s.defaultTemperature == temperature && s.port == port
    ensures s.debug <==> "DEBUG" in env && DebugFlag(env["DEBUG"])
  {
    Settings(
      if "OPENAI_API_KEY" in env then Some(env["OPENAI_API_KEY"]) else None,
      Getenv(env, "OPENAI_BASE_URL", DefaultBaseUrl),
      Getenv(env, "DEFAULT_MODEL", DefaultModel),
      temperature,
      Getenv(env, "HOST", DefaultHost),
      port,
      DebugFlag(Getenv(env, "DEBUG", DefaultDebug)))
  }

  /**
   * `Settings.validate`: false when the key is missing or empty, false when
   * it is one of the placeholders, true for every other key.
   */
  function Validate(s: Settings): (ok: bool)
    ensures s.openaiApiKey == None || s.openaiApiKey == Some("") ==> !ok
    ensures s.openaiApiKey.Some? && s.openaiApiKey.value in PlaceholderKeys ==> !ok
    ensures s.openaiApiKey.Some? && s.openaiApiKey.value != "" && s.openaiApiKey.value !in PlaceholderKeys ==> ok
  {
    // `not self.openai_api_key` holds of None and of the empty string
    if s.openaiApiKey.None? || s.openaiApiKey.value == "" then false
    else if s.openaiApiKey.value in PlaceholderKeys then false
    else true
  }

  /**
   * `Settings.get_model_config`: the requested model name unless it is
   * missing or empty, then the default; the other three entries are the
   * settings' own fields, unchanged.
   */
  function GetModelConfig(s: Settings, modelName: Option<string>): (c: ModelConfig)
    ensures modelName.Some? && modelName.value != "" ==> c.model == modelName.value
    ensures modelName == None || modelName == Some("") ==> c.model == s.defaultModel
    ensures c.temperature == s.defaultTemperature
    ensures c.openaiApiKey == s.openaiApiKey
    ensures c.openaiApiBase == s.openaiBaseUrl
  {
    // `model_name or self.default_model`
    var model := if modelName.Some? && modelName.value != "" then modelName.value else s.defaultModel;
    ModelConfig(model, s.defaultTemperature, s.openaiApiKey, s.openaiBaseUrl)
  }

  /**
   * The guard every `build_*_chain` runs before it creates an LLM client:
   * with an invalid key no configuration is produced (the caller answers
   * HTTP 500); otherwise it is `get_model_config` of the requested model.
   */
  function ChainConfig(s: Settings, modelName: Option<string>): (c: Option<ModelConfig>)
    ensures c.None? <==> !Validate(s)
    ensures c.Some? ==> c.value.openaiApiKey.Some? && c.value.openaiApiKey.value !in PlaceholderKeys
    ensures c.Some? ==> c.value == GetModelConfig(s, modelName)
  {
    if !Validate(s) then None else Some(GetModelConfig(s, modelName))
  }
}
