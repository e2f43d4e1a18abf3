/**
 * What a content rule reports. Go's rules return "" for no violation and a
 * formatted description otherwise; here a rule returns `None` or `Some` of a
 * violation that carries what the description names (the offending rune, the
 * repeated run, the keyword).
 */
module Violations {

  /** scriptName's labels. */
  datatype Script = Cyrillic | CJK | Arabic | Devanagari | Emoji | NonLatin

  datatype Violation =
    | NotLowercase                           // "log message should start with a lowercase letter"
    | NonEnglish(script: Script, rune: char) // "... non-English characters (%s script, rune %q)"
    | EmojiRune(rune: char)                  // "... emoji or special Unicode symbol (rune %q)"
    | ForbiddenRune(rune: char)              // "... forbidden special character %q"
    | RepeatedPunctuation(run: string)       // "... repeated punctuation %q"
    | SensitiveInMessage(keyword: string)    // "... (keyword %q found in message text)"
    | SensitiveInExpression(keyword: string) // "... (keyword %q found in argument expression)"

  /** The four rules, in the order the analyzer runs them. */
  datatype Rule = LowercaseRule | EnglishRule | SpecialRule | SensitiveRule

  /** The rule that produces each violation. */
  function RuleOf(v: Violation): Rule {
    match v
    case NotLowercase => LowercaseRule
    case NonEnglish(_, _) => EnglishRule
    case EmojiRune(_) => SpecialRule
    case ForbiddenRune(_) => SpecialRule
    case RepeatedPunctuation(_) => SpecialRule
    case SensitiveInMessage(_) => SensitiveRule
    case SensitiveInExpression(_) => SensitiveRule
  }
}
