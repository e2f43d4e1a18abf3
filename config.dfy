/**
 * The linter's configuration (internal/config/config.go): which rules run,
 * the sensitive keywords and the extra runes the special-character rule
 * allows. Reading the file and decoding YAML are not modelled: `Load`
 * starts from the outcome of those steps.
 */
module Config {
  import opened Wrappers
  import opened Runes
  import opened Strings

  const RuleLowercase: string := "lowercase"
  const RuleEnglish: string := "english"
  const RuleSpecial: string := "special"
  const RuleSensitive: string := "sensitive"

  /** Go's Config; a nil `Rules` map is `None`. */
  datatype Config = Config(
    rules: Option<map<string, bool>>,
    sensitiveKeywords: seq<string>,
    allowedSpecialChars: string)

  /** IsRuleEnabled: a rule is off only when the map holds an explicit
      `false` for it; a nil map and an absent name both mean on. */
  function IsRuleEnabled(c: Config, name: string): (enabled: bool)
    ensures !enabled <==> c.rules.Some? && name in c.rules.value && !c.rules.value[name]
  {
    if c.rules.None? then true
    else if name !in c.rules.value then true
    else c.rules.value[name]
  }

  /** defaultSensitiveKeywords, in their fixed order. */
  const DefaultSensitiveKeywords: seq<string> := [
    "password", "passwd", "secret", "token", "api_key", "apikey", "auth",
    "credential", "private_key", "access_key", "session", "jwt", "bearer",
    "ssn", "credit_card"
  ]

  /** DefaultConfig: the four rules switched on, the default keywords and no
      extra allowed runes. */
  function DefaultConfig(): (c: Config)
    ensures c.rules.Some? && c.rules.value.Keys == {RuleLowercase, RuleEnglish, RuleSpecial, RuleSensitive}
    ensures forall name :: IsRuleEnabled(c, name)
    ensures c.sensitiveKeywords == DefaultSensitiveKeywords && c.allowedSpecialChars == ""
  {
    Config(
      Some(map[RuleLowercase := true, RuleEnglish := true, RuleSpecial := true, RuleSensitive := true]),
      DefaultSensitiveKeywords,
      "")
  }

  /** A word of lower-case ASCII letters and underscores. */
  predicate LowerWord(w: string) {
    forall i | 0 <= i < |w| :: 'a' <= w[i] <= 'z' || w[i] == '_'
  }

  /** The default keywords are already lower-case, so the sensitive rule's
      lower-casing leaves them as they are. */
  lemma DefaultKeywordsLowercase(u: Tables)
    requires Valid(u)
    ensures forall k | 0 <= k < |DefaultSensitiveKeywords| ::
              Lower(u, DefaultSensitiveKeywords[k]) == DefaultSensitiveKeywords[k]
  {
    forall k | 0 <= k < |DefaultSensitiveKeywords|
      ensures Lower(u, DefaultSensitiveKeywords[k]) == DefaultSensitiveKeywords[k]
    {
      var w := DefaultSensitiveKeywords[k];
      assert LowerWord(w);
      LowerOfLowercaseAscii(u, w);
    }
  }

  /** No default keyword is listed twice. */
  lemma DefaultKeywordsDistinct()
    ensures forall i, j | 0 <= i < j < |DefaultSensitiveKeywords| ::
              DefaultSensitiveKeywords[i] != DefaultSensitiveKeywords[j]
  {
  }

  /** The fields a decoded file may set; an absent `rules` key is `None`. */
  datatype FileConfig = FileConfig(
    rules: Option<map<string, bool>>,
    sensitiveKeywords: seq<string>,
    allowedSpecialChars: string)

  /** What reading and decoding the file gave. */
  datatype LoadInput = Missing | ReadFailed | ParseFailed | Parsed(file: FileConfig)

  datatype LoadError = ReadError | ParseError

  /** The rule setting a merged configuration holds: the file's entry when
      there is one, the default otherwise. */
  function FileRule(file: FileConfig, name: string): bool {
    if file.rules.Some? && name in file.rules.value then file.rules.value[name]
    else IsRuleEnabled(DefaultConfig(), name)
  }

  /** Load: a missing file gives the defaults; a read or parse failure gives
      an error and no configuration; a decoded file is merged on top of the
      defaults, rule by rule, keywords appended, allowed runes replaced only
      when the file sets them. */
  method Load(input: LoadInput) returns (r: Result<Config, LoadError>)
    ensures input.Missing? ==> r == Success(DefaultConfig())
    ensures input.ReadFailed? ==> r == Failure(ReadError)
    ensures input.ParseFailed? ==> r == Failure(ParseError)
    ensures input.Parsed? ==> r.Success? && r.value.rules.Some?
    ensures input.Parsed? ==> forall name :: IsRuleEnabled(r.value, name) == FileRule(input.file, name)
    ensures input.Parsed? && input.file.rules.Some? ==>
              r.value.rules.value.Keys == DefaultConfig().rules.value.Keys + input.file.rules.value.Keys
    ensures input.Parsed? && input.file.rules.None? ==>
              r.value.rules.value == DefaultConfig().rules.value
    ensures input.Parsed? ==>
              r.value.sensitiveKeywords == DefaultSensitiveKeywords + input.file.sensitiveKeywords
    ensures input.Parsed? ==>
              r.value.allowedSpecialChars ==
                (if input.file.allowedSpecialChars != "" then input.file.allowedSpecialChars
                 else DefaultConfig().allowedSpecialChars)
  {
    var cfg := DefaultConfig();
    match input {
      case Missing =>
        return Success(cfg);
      case ReadFailed =>
        return Failure(ReadError);
      case ParseFailed =>
        return Failure(ParseError);
      case Parsed(file) =>
        var rules := cfg.rules.value;
        if file.rules.Some? {
          var fileRules := file.rules.value;
          var pending := fileRules.Keys;
          while pending != {}
            invariant pending <= fileRules.Keys
            invariant rules.Keys == cfg.rules.value.Keys + (fileRules.Keys - pending)
            invariant forall k | k in rules ::
                        rules[k] == if k in fileRules && k !in pending then fileRules[k] else cfg.rules.value[k]
            decreases pending
          {
            var k :| k in pending;
            rules := rules[k := fileRules[k]];
            pending := pending - {k};
          }
        }
        var keywords := cfg.sensitiveKeywords;
        if |file.sensitiveKeywords| > 0 {
          keywords := keywords + file.sensitiveKeywords;
        } else {
          assert file.sensitiveKeywords == [];
          assert keywords + file.sensitiveKeywords == keywords;
        }
        var allowed := cfg.allowedSpecialChars;
        if file.allowedSpecialChars != "" {
          allowed := file.allowedSpecialChars;
        }
        return Success(Config(Some(rules), keywords, allowed));
    }
  }

  /** The merge of the example file in the test suite: `sensitive` off,
      `lowercase` on, `my_secret` added, `!` allowed. */
  method LoadExample() returns (c: Config)
    ensures !IsRuleEnabled(c, RuleSensitive) && IsRuleEnabled(c, RuleLowercase)
    ensures IsRuleEnabled(c, RuleEnglish) && IsRuleEnabled(c, RuleSpecial)
    ensures c.sensitiveKeywords == DefaultSensitiveKeywords + ["my_secret"]
    ensures c.allowedSpecialChars == "!"
  {
    var file := FileConfig(Some(map[RuleSensitive := false, RuleLowercase := true]), ["my_secret"], "!");
    var r := Load(Parsed(file));
    c := r.value;
  }
}
