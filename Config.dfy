/** node-ocr's `validateConfig`, the argument check shared by `ocr` and `extract`. */
module Config {
  import opened Wrappers
  import opened Text

  const OcrProviders: seq<string> := ["mistral", "openai", "gemini", "local"]

  /** The fields of an OCR or extraction configuration that the check reads. */
  datatype OcrConfig = OcrConfig(filePath: Option<string>, provider: Option<string>,
                                 model: Option<string>, apiKey: Option<string>)

  /** Key first, then path, then provider; a missing or empty provider is not
      checked (it is falsy). */
  function ValidateConfig(config: OcrConfig): Outcome {
    if IsBlank(Node, config.apiKey) then Fail("Valid API key is required")
    else if IsBlank(Node, config.filePath) then Fail("Valid file path is required")
    else if config.provider.Some? && config.provider.value != "" && config.provider.value !in OcrProviders then
      Fail("Provider " + config.provider.value + " not supported")
    else Pass
  }

  /** The checks run in a fixed order and the first failing one decides the message;
      the configuration passes exactly when its key and path hold some non-whitespace
      character and its provider is missing, empty, or one of mistral, openai, gemini
      and local. */
  lemma ValidateConfigSpec(config: OcrConfig)
    ensures var v := ValidateConfig(config);
      && (!HasContent(Node, config.apiKey) ==> v == Fail("Valid API key is required"))
      && ((HasContent(Node, config.apiKey) && !HasContent(Node, config.filePath))
            ==> v == Fail("Valid file path is required"))
      && ((HasContent(Node, config.apiKey) && HasContent(Node, config.filePath)
           && config.provider.Some? && config.provider.value != "" && config.provider.value !in OcrProviders)
            ==> v == Fail("Provider " + config.provider.value + " not supported"))
      && (v == Pass <==> HasContent(Node, config.apiKey) && HasContent(Node, config.filePath)
                         && (config.provider.None? || config.provider.value == "" || config.provider.value in OcrProviders))
  {
    BlankIffNoContent(Node, config.apiKey);
    BlankIffNoContent(Node, config.filePath);
  }

  /** The key is checked before the path: a configuration missing both is rejected
      for its key, and a whitespace-only key counts as missing. */
  lemma KeyCheckedFirst(filePath: Option<string>, provider: Option<string>, model: Option<string>)
    ensures ValidateConfig(OcrConfig(filePath, provider, model, Some(" \t\n"))) == Fail("Valid API key is required")
    ensures ValidateConfig(OcrConfig(filePath, provider, model, None)) == Fail("Valid API key is required")
  {
    assert AllSpace(Node, " \t\n") by {
      assert IsSpace(Node, " \t\n"[0]) && IsSpace(Node, " \t\n"[1]) && IsSpace(Node, " \t\n"[2]);
    }
    TrimEmptyIffAllSpace(Node, " \t\n");
  }
}
