# loglinter, modelled in Dafny

loglinter is a `go/analysis` analyzer for Go log calls. It finds calls such as
`slog.Info(...)`, `log.Printf(...)` or `zap.L().Error(...)` whose method is a
conventional log method declared in `log`, `log/slog` or `go.uber.org/zap`
(or a package below them). For each call it takes the first argument as the
message. From that argument it builds two strings:

- the literal text, made of the string literals and typed constants found
  along `+` chains and parentheses;
- a raw textual form of the whole expression.

Four rules then run on the message, each unless the configuration switches it
off:

- **lowercase**: the first non-space rune must not be upper case.
- **english**: only ASCII and seven typographic runes are allowed.
- **special**: no emoji, no forbidden ASCII punctuation and no repeated
  `...`, `!!`, `??` or `***`.
- **sensitive**: no sensitive keyword may appear, either as a whole word of
  the message or inside the identifiers of the expression.

Each violation becomes a diagnostic over the message argument's span. When
the argument is a plain string literal, a lowercase or special diagnostic
also carries a suggested fix that rewrites that literal, but only when the
rewrite changes it: for lowercase, the first rune must be an ASCII capital;
for special, cleaning must remove some rune. So a capital that is not
ASCII, a capital after leading space, or a repeated-punctuation report on
a message that cleaning leaves as it is comes without a fix.

The model is split into these modules:

- `Runes`: rune classes and the Unicode tables, passed as a parameter.
- `Strings`: the `strings` package functions the code uses.
- `Ast`: the slice of `go/ast` and `go/types` that the analyzer reads.
- `Violations`: what each rule reports.
- `Config`: the configuration.
- `Lowercase`, `English`, `Special` and `Sensitive`: the four rules.
- `LegacySensitive`: the older substring version of the sensitive rule, kept
  in the test data.
- `Resolver`: how a message argument is turned into its literal and its raw
  text.
- `Classifier`: which calls are log calls.
- `Analysis`: running the rules on one call, building the diagnostics and
  suggesting the fixes.

Each rule is a function from strings to `Option<Violation>`; `None` stands for
Go's empty diagnostic string. Go loops that build a value appear twice: as a
`method` with its loop, and as the function that specifies that method, with
the properties proved about the function. The loops modelled this way are:

- `buildForbiddenSet`;
- `stripStringLiterals`;
- `isSupportedPackage`;
- `collectStringParts`;
- the `ast.Inspect` walk of `exprToString`;
- `cleanSpecialMessage`;
- the per-rule blocks of `analyseCall`.

The Unicode tables are a `Runes.Tables` value: `unicode.IsUpper`, `IsPunct`,
`IsSymbol`, the `So` category, `IsSpace` and `ToLower`. `Runes.Valid(u)` fixes
their values on ASCII only. Every property that depends on them states the
assumption it needs.

The rules `CheckLowercase`, `CheckEnglish` and `CheckSpecialChars` are
modelled from their copies under `internal/analyzer/testdata/src/`. The
copies in `basic.go`, `lowercase.go`, `language.go` and `special.go` are
identical, and each rule is written once. `internal/rules/lowercase.go`,
`english.go` and `special.go` are not part of this model. The sensitive rule
the analyzer runs is `internal/rules/sensitive.go`. It splits the message
into words, has a list of words that may safely follow a keyword, and strips
string literals from the expression. The test-data `CheckSensitive` is the
older substring rule, modelled as `LegacySensitive`.

## Behaviour worth noting

- A message ending in `!!!`, such as `"Starting Server!!!"`, is reported by
  the special rule for the forbidden rune `!`, not for repeated
  punctuation, because the per-rune scan comes first.
- `"user password: " + password` is reported as a keyword found in the
  message text, because the message check runs before the expression check.
- `isLogMethod` does not accept zap's sugared `Infof`/`Infow` family, even
  though the comment on `messageArgIndex` mentions them.

## Model

| member | source | states |
|---|---|---|
| Config.IsRuleEnabled | internal/config/config.go:62-71 | a rule is off exactly when the rules map exists and holds an explicit `false` for its name; a nil map or an absent name means on |
| Config.DefaultConfig | internal/config/config.go:47-57 | the four rule names are the map's keys, every rule name is enabled, the keywords are the default list and no extra special runes are allowed |
| Config.DefaultKeywordsLowercase | internal/config/config.go:117-135 | every default keyword is already lower case, so lowering it changes nothing |
| Config.DefaultKeywordsDistinct | internal/config/config.go:117-135 | no default keyword is listed twice |
| Config.Load | internal/config/config.go:75-113 | a missing file gives the defaults; a read or parse failure gives the matching error; a parsed file overrides the default rule switches name by name, appends its keywords to the defaults, and replaces the allowed runes only when it gives a non-empty string |
| Config.LoadExample | internal/config/config_test.go:52-91 | loading `sensitive: false`, `lowercase: true`, keyword `my_secret` and allowed `!` disables sensitive, keeps the other rules on, ends the keyword list with `my_secret` and allows `!` |
| English.ScriptName | internal/analyzer/testdata/src/language/language.go:56-71 | each script name holds exactly for its code-point range (Cyrillic, CJK, Arabic, Devanagari, emoji), and `non-Latin` holds exactly outside all of them |
| English.CheckEnglish | internal/analyzer/testdata/src/language/language.go:14-38 | no violation iff every rune is ASCII or one of the seven allowed typographic runes; otherwise the violation names the first other rune and its script |
| English.AsciiNeverViolates | internal/analyzer/testdata/src/language/language.go:18-20 | an all-ASCII message never violates |
| English.TypographicNeverViolates | internal/analyzer/testdata/src/language/language.go:42-52 | inserting an allowed dash, quote or ellipsis anywhere does not change the verdict |
| English.FirstOffenceDecides | internal/analyzer/testdata/src/language/language.go:29-35 | after a permitted prefix, the first non-permitted rune is the one reported, whatever follows it |
| English.OffenceAt | internal/analyzer/testdata/src/language/language.go:14-38 | the report is determined by the position of the first offence |
| English.EnDashExample | internal/rules/rules_test.go:62 | `step 1–2` passes |
| English.CyrillicWordReported | internal/rules/rules_test.go:56-57 | a Cyrillic word after permitted text is reported as Cyrillic, at its first letter |
| Lowercase.CheckLowercase | internal/analyzer/testdata/src/lowercase/lowercase.go:20-36 | the only violation is `NotLowercase`; an all-space message passes; otherwise the message violates iff its first non-space rune is upper case and is not the replacement rune |
| Lowercase.SurroundingSpaceIgnored | internal/analyzer/testdata/src/lowercase/lowercase.go:21 | leading and trailing white space does not change the verdict |
| Lowercase.RuneErrorPasses | internal/analyzer/testdata/src/lowercase/lowercase.go:27-30 | a message whose first non-space rune is U+FFFD passes |
| Lowercase.AsciiExamples | internal/rules/rules_test.go:21-25 | `Starting server…` and `FAILED TO CONNECT` violate; `failed to connect` and the empty message pass |
| Lowercase.UnicodeExamples | internal/rules/rules_test.go:26-27 | a Cyrillic capital violates and `über` passes, given those runes' table entries |
| LegacySensitive.LegacyKeywordHit | internal/analyzer/testdata/src/sensitive/sensitive.go:22-46 | one keyword hits iff it is a substring of the lower-cased message, or its `_`-free form is a substring of the whole expression with `_` and spaces removed; the message hit is reported first |
| LegacySensitive.LegacyScan | internal/analyzer/testdata/src/sensitive/sensitive.go:22-48 | no violation iff no lower-cased keyword hits; otherwise the first keyword that hits is reported |
| LegacySensitive.LegacyCheckSensitive | internal/analyzer/testdata/src/sensitive/sensitive.go:18-49 | the same, on the lower-cased message and expression; an empty keyword list never reports |
| LegacySensitive.TokenHitIsSubstringHit | internal/rules/sensitive.go:125-138 | every word match of the current rule is a substring match of the older rule |
| LegacySensitive.AuthSubstringExample | internal/analyzer/testdata/src/sensitive/sensitive.go:26-31 | the older rule flags `auth` inside `user authenticated successfully` |
| Special.DefaultForbiddenRunes | internal/analyzer/testdata/src/special/special.go:14-17 | the forbidden runes are exactly the listed twenty; none of `- _ / : . ,` is among them |
| Special.BuildForbiddenSet | internal/analyzer/testdata/src/special/special.go:56-69 | the set is the default forbidden runes minus the allowed ones, and holds only ASCII punctuation and symbols |
| Special.ScanRunes | internal/analyzer/testdata/src/special/special.go:28-44 | no violation iff no rune is an emoji or a forbidden punctuation or symbol rune; otherwise the first such rune is reported |
| Special.ScanStopsAt | internal/analyzer/testdata/src/special/special.go:28-44 | the scan reports exactly the first offending rune |
| Special.FirstRepeated | internal/analyzer/testdata/src/special/special.go:82-89 | no violation iff no run occurs; otherwise the first run in list order that occurs is reported |
| Special.NoDoubledRunRune | internal/analyzer/testdata/src/special/special.go:82-89 | a message in which no `.`, `!`, `?` or `*` is immediately repeated has no repeated punctuation |
| Special.EllipsisReported | internal/analyzer/testdata/src/special/special.go:83-86 | a message ending in `...` is reported for `...` |
| Special.DoubleBangReported | internal/analyzer/testdata/src/special/special.go:83-86 | a message without dots that ends in `!!` is reported for `!!` |
| Special.CheckSpecialChars | internal/analyzer/testdata/src/special/special.go:25-52 | a per-rune violation wins; only when there is none is repeated punctuation checked; every violation is an emoji, a forbidden rune or a run |
| Special.SafePunctuationNeverFlagged | internal/analyzer/testdata/src/special/special.go:14-17 | `- _ / : . ,` and space never trip the per-rune scan, whatever is allowed |
| Special.NonAsciiNeverForbidden | internal/analyzer/testdata/src/special/special.go:38-43 | a non-ASCII rune that is not an emoji never trips the per-rune scan |
| Special.EmptyNeverViolates | internal/rules/rules_test.go:100 | the empty message passes |
| Special.EmojiReportedFirst | internal/analyzer/testdata/src/special/special.go:34-36 | an emoji at the start is reported whatever follows |
| Special.PlainMessagePasses | internal/rules/rules_test.go:97-99 | letters, digits, space, safe punctuation and allowed runes, with no doubled run rune, pass |
| Special.ExclamationExample | internal/rules/rules_test.go:91 | `server started!` is reported for `!` |
| Special.PerRuneBeforeRepeatedExample | internal/rules/rules_test.go:92 | `connection failed!!!` is reported for the rune `!`, not for `!!` |
| Special.AllowedExclamationExample | internal/rules/rules_test.go:96 | with `!` allowed, `greeting!` passes |
| Special.AllowedRepeatedExample | internal/analyzer/testdata/src/special/special.go:46-49 | with `!` allowed, `hi!!` is still reported for `!!` |
| Special.EllipsisExample | internal/rules/rules_test.go:93 | `warning: something went wrong...` is reported for `...` |
| Special.CheckMarkExample | internal/rules/rules_test.go:95 | U+2705 is reported as an emoji |
| Special.RocketExample | internal/rules/rules_test.go:94 | U+1F680 is reported as an emoji |
| Sensitive.TokenizeWords | internal/rules/sensitive.go:8-21 | every token is a non-empty run of `a-z`, `0-9` and `_` |
| Sensitive.TokenizeSplit | internal/rules/sensitive.go:8-21 | a separator rune splits the token list in two |
| Sensitive.SingleWordTokens | internal/rules/sensitive.go:8-21 | a word is its own single token |
| Sensitive.TokenizeJoinWords | internal/rules/sensitive.go:8-21 | words joined by spaces tokenize back to the same words |
| Sensitive.TokensOccur | internal/rules/sensitive.go:8-21 | every token is a substring of the input |
| Sensitive.Step | internal/rules/sensitive.go:36-70 | one rune of the lexer emits at most one rune, and never a quote or backtick |
| Sensitive.StripStringLiterals | internal/rules/sensitive.go:28-72 | the loop computes the lexer's output from the code state |
| Sensitive.LexOutput | internal/rules/sensitive.go:28-72 | the output is no longer than the input and holds no quote or backtick |
| Sensitive.LexPlain | internal/rules/sensitive.go:60-69 | text without quotes or backticks passes through unchanged |
| Sensitive.LexUnterminated | internal/rules/sensitive.go:37-58 | an unterminated literal swallows the rest of the expression |
| Sensitive.EscapeKeepsLiteralOpen | internal/rules/sensitive.go:45-52 | a backslash-escaped rune, a quote included, does not close a double-quoted literal |
| Sensitive.ClosedLiteral | internal/rules/sensitive.go:44-63 | a closed double-quoted literal without escapes becomes two spaces |
| Sensitive.ClosedRawLiteral | internal/rules/sensitive.go:37-43 | a closed raw literal becomes two spaces |
| Sensitive.MessageHitFirstToken | internal/rules/sensitive.go:125-138 | the message hits iff the first token equal to the keyword is not followed by a safe status word |
| Sensitive.KeywordHit | internal/rules/sensitive.go:119-154 | a keyword hits iff the message hits or the stripped, normalised expression contains it; a message hit is reported as such first |
| Sensitive.ScanKeywords | internal/rules/sensitive.go:119-156 | no violation iff no lower-cased keyword hits; otherwise the first keyword that hits is reported |
| Sensitive.CheckSensitive | internal/rules/sensitive.go:84-157 | the same on the lower-cased message's words and the lower-cased expression; the violation is a message hit or an expression hit |
| Sensitive.FirstKeywordWins | internal/rules/sensitive.go:119-155 | the report is the hit of the first keyword in list order that hits |
| Sensitive.EmptyInputs | internal/rules/sensitive.go:84-157 | on an empty message and expression nothing is reported iff every lower-cased keyword keeps a rune once `_` is removed, and any hit there is an expression hit |
| Sensitive.SkipSeparators | internal/rules/sensitive.go:8-21 | runes outside `a-z`, `0-9` and `_` at the front produce no token |
| Sensitive.WordThen | internal/rules/sensitive.go:8-21 | a word followed by separators is the first token, and the rest is tokenized on its own |
| Sensitive.TwoWords | internal/rules/sensitive.go:8-21 | two words around separators are exactly the two tokens |
| Sensitive.ThreeWords | internal/rules/sensitive.go:8-21 | three words around separators are exactly the three tokens |
| Sensitive.WordReported | internal/rules/sensitive.go:119-138 | a keyword that lower-casing leaves alone and that is a message hit makes the rule report, whatever the expression |
| Sensitive.PlainLiteralMessage | internal/rules/sensitive.go:84-157 | a message of words, logged as the one literal holding it, is reported by keywords that keep a rune without `_` exactly when some keyword is a message hit on its words |
| Sensitive.DefaultKeywordsPlain | internal/config/config.go:117-135 | every default keyword is unchanged by lower-casing and does not start with `_` |
| Sensitive.AuthIsNotAToken | internal/rules/rules_test.go:136-141 | `CheckSensitive` with the 15 default keywords reports nothing for `user authenticated successfully` logged as that literal |
| Sensitive.ApiRequestExample | internal/rules/rules_test.go:142 | the same for `api request completed` |
| Sensitive.TokenValidatedExample | internal/rules/rules_test.go:143 | the same for `token validated`: `token` is followed by a status word |
| Sensitive.PasswordInMessage | internal/rules/rules_test.go:146 | `CheckSensitive` with the default keywords reports `user password: secret123` for any expression |
| Sensitive.TokenInMessage | internal/rules/rules_test.go:147 | the same for `token: abc123` |
| Sensitive.ApiKeyInMessage | internal/rules/rules_test.go:148 | the same for `api_key=xyz` |
| Sensitive.IdentifierFires | internal/rules/sensitive.go:140-154 | an identifier in code position whose `_`-free text contains the keyword's `_`-free form makes the expression hit |
| Resolver.NoEscapes | internal/analyzer/analyzer.go:276-279 | text without backslashes is unchanged by the escape replacements |
| Resolver.Unquote | internal/analyzer/analyzer.go:272-279 | unquoting never lengthens the literal |
| Resolver.UnquoteQuotedBody | internal/analyzer/analyzer.go:272-279 | a double-quoted literal's text is its unescaped body |
| Resolver.UnquoteQuoted | internal/analyzer/analyzer.go:269-281 | a double-quoted literal without escapes yields its body |
| Resolver.UnquoteRawBody | internal/analyzer/analyzer.go:272-279 | a raw literal also loses one leading and one trailing `"` and is unescaped |
| Resolver.UnquoteRaw | internal/analyzer/analyzer.go:272-279 | a raw literal without backslashes or edge quotes yields its body |
| Resolver.RawQuotesLost | internal/analyzer/analyzer.go:272-274 | the raw literal `` `"x"` `` resolves to `x`, not `"x"` |
| Resolver.UnescapeNewline | internal/analyzer/analyzer.go:278 | `\n` becomes a newline |
| Resolver.DoubleUnescape | internal/analyzer/analyzer.go:276-278 | `\\n` also becomes a newline, because the replacements run one after another |
| Resolver.CollectStringParts | internal/analyzer/analyzer.go:267-304 | the recursion appends exactly the parts of the expression to the list it is given |
| Resolver.LiteralShape | internal/analyzer/analyzer.go:267-304 | `+` concatenates, parentheses are transparent, string literals are unquoted, typed constants give their quote-trimmed text, and every other node gives nothing |
| Resolver.ConstantQuotesTrimmed | internal/analyzer/analyzer.go:292-295 | every leading and trailing `"` of a constant's text is trimmed |
| Resolver.Inspect | internal/analyzer/analyzer.go:326-335 | the walk appends the preorder text of literals and identifiers |
| Resolver.InspectAll | internal/analyzer/analyzer.go:326-335 | the same for a list of child nodes |
| Resolver.ExprToString | internal/analyzer/analyzer.go:308-336 | the raw text is the preorder walk's text |
| Resolver.ExtractStringValue | internal/analyzer/analyzer.go:253-263 | it returns the joined literal parts and the raw text |
| Resolver.LiteralPlusVariable | internal/analyzer/analyzer.go:253-263 | for `"body" + v`, the literal is `body` and the raw text is the quoted body followed by `v` |
| Resolver.MentionedNameReported | internal/rules/sensitive.go:140-154 | an identifier of the argument whose `_`-free lower-cased name contains a keyword's `_`-free form makes the sensitive rule report, whatever the message |
| Classifier.LogMethodExamples | internal/analyzer/analyzer.go:189-206 | `Printf`, `DPanic` and `InfoContext` are log methods; `Infof`, `Infow`, `Warnf`, `Errorw`, `info` and the empty name are not |
| Classifier.IsSupportedPackage | internal/analyzer/analyzer.go:217-225 | the loop accepts exactly the paths equal to a prefix or below one, or `log` itself |
| Classifier.SupportedPackageIff | internal/analyzer/analyzer.go:210-225 | the supported paths are exactly `log`, `go.uber.org/zap` and the paths below them |
| Classifier.LookAlikeRejected | internal/analyzer/analyzer.go:217-225 | a path that starts with `log` and continues with any rune other than `/` is rejected |
| Classifier.PackageExamples | internal/analyzer/analyzer.go:210-225 | `logrus`, `github.com/sirupsen/logrus` and the empty path are rejected; `log/slog` and `go.uber.org/zap/zapcore` are accepted |
| Classifier.PkgPathOf | internal/analyzer/analyzer.go:228-233 | a nil object, or one without a package, has the empty path; otherwise the path is its package's path |
| Classifier.IsSupportedLogMethod | internal/analyzer/analyzer.go:171-185 | accepted iff the name is a log method, the selected identifier resolves, and its package is supported |
| Classifier.UnresolvedSelectorIgnored | internal/analyzer/analyzer.go:171-185 | an unresolved identifier, a nil object or an object without a package is never a log call |
| Classifier.ExtractLogCall | internal/analyzer/analyzer.go:142-167 | a descriptor exists iff the callee is a selector, the method is supported and there is an argument; it holds the call's position, the first argument and that argument's resolved literal and raw text |
| Analysis.LowerRuneFacts | internal/analyzer/analyzer.go:473-478 | `lowerRune` changes a rune iff it is ASCII upper case, maps it 32 code points up into `a`-`z`, and never yields ASCII upper case |
| Analysis.SuggestLowercaseFix | internal/analyzer/analyzer.go:431-470 | a fix exists iff the message is non-empty, the argument is a string literal and its first rune is ASCII upper case; it replaces the literal's span with the message, first rune lowered, in the literal's own delimiter |
| Analysis.LowercaseFixSilences | internal/analyzer/analyzer.go:452-455 | a message with an ASCII capital first violates the lowercase rule, and the fixed text passes it |
| Analysis.LowercaseReportWithoutFix | internal/analyzer/analyzer.go:431-470 | a message whose first non-space rune is a non-ASCII capital, or follows leading space, is reported with no fix |
| Analysis.LowercaseFixLeavesQuoteBare | internal/analyzer/analyzer.go:458-459 | an unescaped `"` in the message reappears bare inside the rewritten literal |
| Analysis.CleanSpecialMessage | internal/analyzer/analyzer.go:513-560 | the loop computes the cleaned message |
| Analysis.CleanedRunes | internal/analyzer/analyzer.go:513-560 | a rune survives cleaning iff it is in the message and is kept; cleaning never lengthens; it is the identity iff every rune is kept |
| Analysis.CleanedIdempotent | internal/analyzer/analyzer.go:513-560 | cleaning twice is cleaning once |
| Analysis.KeepIff | internal/analyzer/analyzer.go:513-560 | a rune is kept iff it is ASCII and is allowed, or is safe punctuation, or is neither a forbidden rune nor ASCII punctuation or symbol |
| Analysis.CleanedPassesRuneCheck | internal/analyzer/analyzer.go:513-560 | a cleaned message never trips the per-rune scan; only repeated punctuation can remain |
| Analysis.EmojiDropped | internal/analyzer/analyzer.go:526-531 | a non-ASCII rune is removed wherever it stands |
| Analysis.SpecialFixes | internal/analyzer/analyzer.go:566-600 | a fix exists iff the message is non-empty, the argument is a string literal and some rune would be removed; it replaces the literal's span with the cleaned message in the literal's delimiter |
| Analysis.SuggestSpecialFix | internal/analyzer/analyzer.go:566-600 | the method computes exactly those fixes |
| Analysis.RuneReportHasFix | internal/analyzer/analyzer.go:566-600 | every emoji or forbidden-rune report on a string literal comes with a fix |
| Analysis.EllipsisReportWithoutFix | internal/analyzer/analyzer.go:566-600 | a message whose runes are all kept but which contains `...` is reported with no fix |
| Analysis.RuleCheckKind | internal/analyzer/analyzer.go:370-423 | each rule's check only reports violations of its own kind |
| Analysis.RuleReportFacts | internal/analyzer/analyzer.go:370-423 | one rule block reports at most once, and exactly its check's violation when the rule is enabled |
| Analysis.ReportsFacts | internal/analyzer/analyzer.go:370-423 | a call gets at most four reports; a violation is reported iff its rule is enabled and that rule's check returns it; the reports come in the order lowercase, english, special, sensitive |
| Analysis.DiagnoseFacts | internal/analyzer/analyzer.go:370-423 | one diagnostic per report, over the message argument's span, carrying the violation and its rule's fixes |
| Analysis.ReportRule | internal/analyzer/analyzer.go:373-422 | one rule block appends that rule's diagnostics to those already reported |
| Analysis.AnalyseCall | internal/analyzer/analyzer.go:370-423 | the diagnostics are those of the reports, in order |
| Analysis.SensitiveNameReported | internal/analyzer/analyzer.go:412-422 | with the sensitive rule on, a call whose argument mentions an identifier containing a keyword is reported by that rule |
| Analysis.DisabledRuleSilent | internal/analyzer/analyzer.go:370-423 | a disabled rule never appears among the reports |

## Left out

- `runPass`, which walks every call in each file with the inspector and calls `extractLogCall` and `analyseCall`, is not modelled; the model starts from one call.
- `NewAnalyzer`, `NewFlagConfiguredAnalyzer`, `loadConfigOrDefault`, the plugin entry point and `main` are wiring, not modelled.
- `reportDiagnostic` prints to standard error and calls `pass.Report`; the model returns the diagnostics as a sequence instead.
- A diagnostic carries the `Violation` value rather than its formatted text; the `%q` formatting of runes and keywords is not modelled.
- `sourceFragment` always returns the empty string, so `exprToString` always falls back to the `ast.Inspect` walk; only that walk is modelled.
- `Ast.Expr.OtherExpr` stands for every other node `ast.Inspect` walks, statements, function bodies and field lists included; the raw text of such a node is approximated by the text of the expressions given as its children.
- Token positions are opaque numbers in `Ast.Span`, and file sets are not modelled.
- A typed constant's value is given as the text `constant.Value.String()` returns; evaluating constants is not modelled.
- `Config.Load`: reading the file and decoding YAML are not modelled; the method starts from the outcome of those steps.
- The Unicode category tables are a parameter, fixed on ASCII only; UTF-8 decoding is not modelled, and a string is a sequence of runes.
- `messageArgIndex` is modelled as `Classifier.MessageArgIndex`, which always returns 0; it has no contract of its own, and `Classifier.ExtractLogCall` states its effect.
- The `len(runes) == 0` test in `suggestLowercaseFix` cannot be reached after the empty-message test, so it has no counterpart.
- Analysis.SuggestLowercaseFix: takes the call descriptor and reads the message from it, where the Go function takes the message separately; `analyseCall` always passes the descriptor's own message.
- Analysis.ReportRule: the four rule blocks of `analyseCall` are one method called once per rule, in the order of the source.
- The fixes put the unescaped message back between the original delimiters without re-escaping it (`Analysis.LowercaseFixLeavesQuoteBare`). The model keeps that behaviour.
- The escape handling of `collectStringParts` runs its replacements one after another, so `\\n` also becomes a newline (`Resolver.DoubleUnescape`). The model keeps that behaviour.
- `internal/rules/lowercase.go`, `english.go` and `special.go` are not part of this model; the identical test-data copies are modelled instead.
