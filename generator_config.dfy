/** `BasicTreeGeneratorConfig`: the parameters of the random tree
    generator, its presets, and the validation `parse_config` applies to
    a configuration file. */
module GeneratorConfigs {
  import opened Wrappers
  import opened Ints

  /** The five fields; `avgActions` is a `double` in the source, modelled
      as a real (every value used here is exact in binary). */
  datatype Config = Config(maxDepth: u32, numGoals: u32, avgActions: Option<real>,
                           minActions: Option<u32>, maxActions: u32)

  /** The default member initialisers. */
  const DEFAULT: Config := Config(1, 1, None, None, 1)

  /** The presets: both optional fields are set, to 1.5, 3.0 or 5.0 and 0. */
  const SIMPLE: Config := Config(4, 10, Some(1.5), Some(0), 3)
  const MEDIUM: Config := Config(8, 20, Some(3.0), Some(0), 6)
  const COMPLEX: Config := Config(9, 30, Some(5.0), Some(0), 7)

  /** Exactly one way of bounding the number of actions is given. */
  predicate ExactlyOneBound(c: Config)
  {
    c.avgActions.Some? != c.minActions.Some?
  }

  /** Why `parse_config` throws: the file does not exist
      (`filesystem_error`), the YAML document lacks or mistypes a required
      field (a yaml-cpp exception), both bounds are given, or neither is
      (`invalid_argument`). */
  datatype ConfigError = FileMissing | YamlError | BothBounds | NoBound

  datatype ConfigResult = Ok(config: Config) | Fail(error: ConfigError)

  /** `parse_config`. The file system and YAML parser are inputs: `fileExists`
      is the existence test, and `fields` the five fields as read from the
      document, `None` when reading a required field fails. */
  function ParseConfig(fileExists: bool, fields: Option<Config>): (r: ConfigResult)
    ensures !fileExists ==> r == Fail(FileMissing)
    ensures r.Ok? <==> fileExists && fields.Some? && ExactlyOneBound(fields.value)
    ensures r.Ok? ==> r.config == fields.value
    ensures fileExists && fields.Some? && fields.value.avgActions.Some? && fields.value.minActions.Some? ==>
      r == Fail(BothBounds)
    ensures fileExists && fields.Some? && fields.value.avgActions.None? && fields.value.minActions.None? ==>
      r == Fail(NoBound)
  {
    if !fileExists then Fail(FileMissing)
    else if fields.None? then Fail(YamlError)
    else if fields.value.avgActions.Some? && fields.value.minActions.Some? then Fail(BothBounds)
    else if fields.value.avgActions.None? && fields.value.minActions.None? then Fail(NoBound)
    else Ok(fields.value)
  }

  /** Reading a configuration accepts it, unchanged, exactly when it
      gives one bound. */
  lemma ParseConfigAcceptsExactlyOneBound(c: Config)
    ensures ParseConfig(true, Some(c)).Ok? <==> ExactlyOneBound(c)
    ensures ExactlyOneBound(c) ==> ParseConfig(true, Some(c)) == Ok(c)
  {
  }

  /** None of the presets would pass validation, and neither would the
      defaults: the presets set both bounds and the defaults neither. */
  lemma PresetsRejected()
    ensures ParseConfig(true, Some(SIMPLE)) == Fail(BothBounds)
    ensures ParseConfig(true, Some(MEDIUM)) == Fail(BothBounds)
    ensures ParseConfig(true, Some(COMPLEX)) == Fail(BothBounds)
    ensures ParseConfig(true, Some(DEFAULT)) == Fail(NoBound)
  {
  }
}
