/**
 * What the analyzer does with a log call (analyseCall, suggestLowercaseFix,
 * lowerRune, cleanSpecialMessage, suggestSpecialFix): run the enabled rules
 * in a fixed order on the resolved message, report one diagnostic per rule
 * that fires, spanning the message argument, and attach an automatic fix to
 * the lowercase and special-character reports when the argument is a single
 * string literal.
 */
module Analysis {
  import opened Wrappers
  import opened Runes
  import opened Strings
  import opened Violations
  import opened Ast
  import Config
  import opened Lowercase
  import English
  import opened Special
  import Sensitive
  import opened Classifier
  import Resolver

  /** analysis.TextEdit: replace the text between two positions. */
  datatype TextEdit = TextEdit(pos: int, end: int, newText: string)

  /** analysis.SuggestedFix */
  datatype SuggestedFix = SuggestedFix(message: string, edits: seq<TextEdit>)

  /** analysis.Diagnostic, with the rule's violation as its message; a nil
      fix list is `[]`. */
  datatype Diagnostic = Diagnostic(pos: int, end: int, violation: Violation, fixes: seq<SuggestedFix>)

  const LowercaseFixMessage: string := "lowercase first letter of log message"
  const SpecialFixMessage: string := "remove emoji and noisy special characters from log message"

  /** lowerRune is `Runes.AsciiToLower`: only `A`-`Z` change, each to the
      letter 32 code points later, and nothing it returns is an ASCII
      capital. */
  lemma LowerRuneFacts(r: char)
    ensures AsciiToLower(r) != r <==> IsAsciiUpper(r)
    ensures IsAsciiUpper(r) ==> 'a' <= AsciiToLower(r) <= 'z' && AsciiToLower(r) as int == r as int + 32
    ensures !IsAsciiUpper(AsciiToLower(r))
  {
  }

  predicate IsStringLit(e: Expr) {
    e.BasicLit? && e.kind == STRING
  }

  /** A string-literal message argument carries the text its literal
      resolves to, as extractStringValue leaves it. */
  predicate LiteralResolved(lc: LogCall) {
    IsStringLit(lc.msgArg) ==> lc.msgLiteral == Resolver.Unquote(lc.msgArg.value)
  }

  /** Every descriptor extractLogCall builds is resolved in this sense. */
  lemma ResolvedLiteral(uses: Uses, lc: LogCall)
    requires Resolved(uses, lc)
    ensures LiteralResolved(lc)
  {
    Resolver.LiteralShape(uses, lc.msgArg);
  }

  /** The replacement text: the body between two copies of the literal's
      first byte (its opening `"` or backtick). */
  function Requote(lit: Expr, body: string): string
    requires lit.BasicLit? && lit.value != []
  {
    [lit.value[0]] + body + [lit.value[0]]
  }

  /** The message with its first rune lowered. */
  function LowerFirst(msg: string): string
    requires msg != []
  {
    [AsciiToLower(msg[0])] + msg[1..]
  }

  /** suggestLowercaseFix: one fix exactly when the message is non-empty,
      the argument is a string literal and the first rune is an ASCII
      capital; it rewrites the whole literal as the message with that rune
      lowered, between the literal's own opening delimiter. */
  function SuggestLowercaseFix(lc: LogCall): (fixes: seq<SuggestedFix>)
    requires LiteralResolved(lc)
    ensures fixes != [] <==> lc.msgLiteral != [] && IsStringLit(lc.msgArg) && IsAsciiUpper(lc.msgLiteral[0])
    ensures fixes != [] ==>
              lc.msgArg.value != [] &&
              fixes == [SuggestedFix(LowercaseFixMessage,
                          [TextEdit(lc.msgArg.span.pos, lc.msgArg.span.end, Requote(lc.msgArg, LowerFirst(lc.msgLiteral)))])]
  {
    var msg := lc.msgLiteral;
    if msg == "" then []
    else if !IsStringLit(lc.msgArg) then []
    else
      var fixed := LowerFirst(msg);
      if fixed == msg then []
      else
        assert lc.msgArg.value != [] by {
          assert |Resolver.Unquote(lc.msgArg.value)| <= |lc.msgArg.value|;
        }
        [SuggestedFix(LowercaseFixMessage,
          [TextEdit(lc.msgArg.span.pos, lc.msgArg.span.end, Requote(lc.msgArg, fixed))])]
  }

  /** The fixed message passes the rule that the original failed. */
  lemma LowercaseFixSilences(u: Tables, msg: string)
    requires Valid(u)
    requires msg != [] && IsAsciiUpper(msg[0])
    ensures CheckLowercase(u, msg) == Some(NotLowercase)
    ensures CheckLowercase(u, LowerFirst(msg)) == None
  {
    assert FirstNonSpace(u, msg, 0);
    assert FirstNonSpace(u, LowerFirst(msg), 0);
  }

  /** A message whose first non-space rune is upper-case is reported, but
      gets no fix when that rune is preceded by white space or lies outside
      ASCII (" Starting", "Запуск"). */
  lemma LowercaseReportWithoutFix(u: Tables, lc: LogCall, k: int)
    requires LiteralResolved(lc)
    requires FirstNonSpace(u, lc.msgLiteral, k)
    requires lc.msgLiteral[k] != RuneError && u.isUpper(lc.msgLiteral[k])
    requires !IsAsciiUpper(lc.msgLiteral[0])
    ensures CheckLowercase(u, lc.msgLiteral) == Some(NotLowercase)
    ensures SuggestLowercaseFix(lc) == []
  {
  }

  /** The fix writes the resolved message back between the delimiters
      without escaping it again: a `"` inside the message (written `\"` in
      the source) stands bare inside the replacement literal. */
  lemma LowercaseFixLeavesQuoteBare(lit: Expr, msg: string, j: int)
    requires lit.BasicLit? && lit.value != []
    requires 1 <= j < |msg| && msg[j] == '"'
    ensures 0 < j + 1 < |Requote(lit, LowerFirst(msg))| - 1
    ensures Requote(lit, LowerFirst(msg))[j + 1] == '"'
  {
    var t := Requote(lit, LowerFirst(msg));
    assert t == [lit.value[0]] + ([AsciiToLower(msg[0])] + msg[1..]) + [lit.value[0]];
    assert t[j + 1] == msg[1..][j - 1];
  }

  /** The rune test of cleanSpecialMessage: ASCII only; an allowed rune is
      kept; otherwise a default-forbidden rune goes, the safe punctuation
      stays, and any other punctuation or symbol goes. */
  predicate Keep(u: Tables, r: char, allowedExtra: string) {
    IsAscii(r) &&
    (r in allowedExtra ||
     (r !in DefaultForbiddenASCII && (IsSafePunctuation(r) || !(u.isPunct(r) || u.isSymbol(r)))))
  }

  /** The kept runes of a message, in order. */
  function Cleaned(u: Tables, msg: string, allowedExtra: string): string
    decreases |msg|
  {
    if msg == [] then []
    else
      var last := msg[|msg| - 1];
      Cleaned(u, msg[..|msg| - 1], allowedExtra) + (if Keep(u, last, allowedExtra) then [last] else [])
  }

  /** cleanSpecialMessage: the allowed set is built first, then each rune is
      checked in turn and the kept ones written out. */
  method CleanSpecialMessage(u: Tables, msg: string, allowedExtra: string) returns (cleaned: string)
    ensures cleaned == Cleaned(u, msg, allowedExtra)
  {
    if msg == "" {
      return msg;
    }
    var allowed: set<char> := {};
    var j := 0;
    while j < |allowedExtra|
      invariant 0 <= j <= |allowedExtra|
      invariant forall r :: r in allowed <==> r in allowedExtra[..j]
    {
      allowed := allowed + {allowedExtra[j]};
      j := j + 1;
    }
    assert allowedExtra[..j] == allowedExtra;
    cleaned := [];
    var i := 0;
    while i < |msg|
      invariant 0 <= i <= |msg|
      invariant cleaned == Cleaned(u, msg[..i], allowedExtra)
    {
      var r := msg[i];
      assert msg[..i + 1][..i] == msg[..i];
      if r as int > MaxASCII {
      } else if r in allowed {
        cleaned := cleaned + [r];
      } else if r in DefaultForbiddenASCII {
      } else if IsSafePunctuation(r) {
        cleaned := cleaned + [r];
      } else if u.isPunct(r) || u.isSymbol(r) {
      } else {
        cleaned := cleaned + [r];
      }
      i := i + 1;
    }
    assert msg[..i] == msg;
  }

  /** Cleaning works rune by rune, so it distributes over concatenation. */
  lemma {:induction false} CleanedAppend(u: Tables, a: string, b: string, allowedExtra: string)
    ensures Cleaned(u, a + b, allowedExtra) == Cleaned(u, a, allowedExtra) + Cleaned(u, b, allowedExtra)
    decreases |b|
  {
    if b == [] {
      assert a + b == a;
    } else {
      var b' := b[..|b| - 1];
      assert (a + b)[..|a + b| - 1] == a + b';
      assert (a + b)[|a + b| - 1] == b[|b| - 1];
      CleanedAppend(u, a, b', allowedExtra);
    }
  }

  /** The cleaned message holds exactly the kept runes of the message, is
      never longer, and equals the message exactly when every rune is kept. */
  lemma {:induction false} CleanedRunes(u: Tables, msg: string, allowedExtra: string)
    ensures forall r :: r in Cleaned(u, msg, allowedExtra) <==> r in msg && Keep(u, r, allowedExtra)
    ensures |Cleaned(u, msg, allowedExtra)| <= |msg|
    ensures Cleaned(u, msg, allowedExtra) == msg <==> forall i | 0 <= i < |msg| :: Keep(u, msg[i], allowedExtra)
    decreases |msg|
  {
    if msg != [] {
      var init := msg[..|msg| - 1];
      var last := msg[|msg| - 1];
      CleanedRunes(u, init, allowedExtra);
      assert msg == init + [last];
      if forall i | 0 <= i < |msg| :: Keep(u, msg[i], allowedExtra) {
        assert forall i | 0 <= i < |init| :: Keep(u, init[i], allowedExtra) by {
          forall i | 0 <= i < |init| ensures Keep(u, init[i], allowedExtra) {
            assert init[i] == msg[i];
          }
        }
      }
    }
  }

  /** Cleaning a cleaned message changes nothing. */
  lemma CleanedIdempotent(u: Tables, msg: string, allowedExtra: string)
    ensures Cleaned(u, Cleaned(u, msg, allowedExtra), allowedExtra) == Cleaned(u, msg, allowedExtra)
  {
    var c := Cleaned(u, msg, allowedExtra);
    CleanedRunes(u, msg, allowedExtra);
    CleanedRunes(u, c, allowedExtra);
    assert forall i | 0 <= i < |c| :: c[i] in c;
  }

  /** With the ASCII tables fixed, whether a rune survives depends on its
      ASCII category alone: allowed runes, the safe punctuation and every
      ASCII rune that is neither punctuation nor a symbol (letters, digits,
      white space, controls) stay; everything else goes. */
  lemma KeepIff(u: Tables, r: char, allowedExtra: string)
    requires Valid(u)
    ensures Keep(u, r, allowedExtra) <==>
              IsAscii(r) && (r in allowedExtra || IsSafePunctuation(r) || !(IsAsciiPunct(r) || IsAsciiSymbol(r)))
  {
    DefaultForbiddenRunes(r);
  }

  /** A cleaned message never trips the per-rune check, whatever the extra
      allowed runes: only the repeated-punctuation check can still fire. */
  lemma CleanedPassesRuneCheck(u: Tables, msg: string, allowedExtra: string)
    requires Valid(u)
    ensures CheckSpecialChars(u, Cleaned(u, msg, allowedExtra), allowedExtra) ==
              CheckRepeatedPunctuation(Cleaned(u, msg, allowedExtra))
  {
    var c := Cleaned(u, msg, allowedExtra);
    CleanedRunes(u, msg, allowedExtra);
    forall i | 0 <= i < |c| ensures RuneViolation(u, c[i], ForbiddenSet(allowedExtra)).None? {
      assert c[i] in c;
    }
  }

  /** An emoji, like any rune above ASCII, is removed and nothing else around
      it changes. */
  lemma EmojiDropped(u: Tables, a: string, e: char, b: string, allowedExtra: string)
    requires !IsAscii(e)
    ensures Cleaned(u, a + [e] + b, allowedExtra) == Cleaned(u, a, allowedExtra) + Cleaned(u, b, allowedExtra)
  {
    CleanedAppend(u, a + [e], b, allowedExtra);
    CleanedAppend(u, a, [e], allowedExtra);
    assert Cleaned(u, [e], allowedExtra) == [] by {
      assert [e][..0] == [];
      assert !Keep(u, e, allowedExtra);
    }
  }

  /** What suggestSpecialFix returns: one fix exactly when the message is
      non-empty, the argument is a string literal and cleaning drops some
      rune; it rewrites the whole literal as the cleaned message. */
  function SpecialFixes(u: Tables, lc: LogCall, allowedExtra: string): (fixes: seq<SuggestedFix>)
    requires LiteralResolved(lc)
    ensures fixes != [] <==>
              lc.msgLiteral != [] && IsStringLit(lc.msgArg) &&
              exists i | 0 <= i < |lc.msgLiteral| :: !Keep(u, lc.msgLiteral[i], allowedExtra)
    ensures fixes != [] ==>
              lc.msgArg.value != [] &&
              fixes == [SuggestedFix(SpecialFixMessage,
                          [TextEdit(lc.msgArg.span.pos, lc.msgArg.span.end,
                                    Requote(lc.msgArg, Cleaned(u, lc.msgLiteral, allowedExtra)))])]
  {
    var msg := lc.msgLiteral;
    if msg == "" then []
    else if !IsStringLit(lc.msgArg) then []
    else
      var fixed := Cleaned(u, msg, allowedExtra);
      CleanedRunes(u, msg, allowedExtra);
      if fixed == msg then []
      else
        assert lc.msgArg.value != [] by {
          assert |Resolver.Unquote(lc.msgArg.value)| <= |lc.msgArg.value|;
        }
        [SuggestedFix(SpecialFixMessage,
          [TextEdit(lc.msgArg.span.pos, lc.msgArg.span.end, Requote(lc.msgArg, fixed))])]
  }

  /** suggestSpecialFix, calling cleanSpecialMessage. */
  method SuggestSpecialFix(u: Tables, lc: LogCall, allowedExtra: string) returns (fixes: seq<SuggestedFix>)
    requires LiteralResolved(lc)
    ensures fixes == SpecialFixes(u, lc, allowedExtra)
  {
    var msg := lc.msgLiteral;
    if msg == "" {
      return [];
    }
    if !IsStringLit(lc.msgArg) {
      return [];
    }
    var fixed := CleanSpecialMessage(u, msg, allowedExtra);
    if fixed == msg {
      return [];
    }
    assert |Resolver.Unquote(lc.msgArg.value)| <= |lc.msgArg.value|;
    fixes := [SuggestedFix(SpecialFixMessage,
               [TextEdit(lc.msgArg.span.pos, lc.msgArg.span.end, Requote(lc.msgArg, fixed))])];
  }

  /** A rune the per-rune check rejects is one that cleaning drops. */
  lemma RejectedNotKept(u: Tables, r: char, allowedExtra: string)
    requires Valid(u)
    requires RuneViolation(u, r, ForbiddenSet(allowedExtra)).Some?
    ensures !Keep(u, r, allowedExtra)
  {
    if !IsEmoji(u, r) {
      assert r in DefaultForbiddenASCII && r !in allowedExtra;
    }
  }

  /** Whenever the per-rune check reports an emoji or a forbidden rune in a
      string literal, a fix is offered. */
  lemma RuneReportHasFix(u: Tables, lc: LogCall, allowedExtra: string)
    requires Valid(u) && LiteralResolved(lc)
    requires IsStringLit(lc.msgArg)
    requires ScanRunes(u, lc.msgLiteral, ForbiddenSet(allowedExtra)).Some?
    ensures SpecialFixes(u, lc, allowedExtra) != []
  {
    var msg := lc.msgLiteral;
    var i :| 0 <= i < |msg| && RuneViolation(u, msg[i], ForbiddenSet(allowedExtra)).Some?;
    RejectedNotKept(u, msg[i], allowedExtra);
  }

  /** A message made only of kept runes that contains `...` ("wait...") is
      reported by the special rule and offered no fix. */
  lemma EllipsisReportWithoutFix(u: Tables, lc: LogCall, allowedExtra: string)
    requires Valid(u) && LiteralResolved(lc)
    requires forall i | 0 <= i < |lc.msgLiteral| :: Keep(u, lc.msgLiteral[i], allowedExtra)
    requires Contains(lc.msgLiteral, "...")
    ensures CheckSpecialChars(u, lc.msgLiteral, allowedExtra) == Some(RepeatedPunctuation("..."))
    ensures SpecialFixes(u, lc, allowedExtra) == []
  {
    CleanedRunes(u, lc.msgLiteral, allowedExtra);
    CleanedPassesRuneCheck(u, lc.msgLiteral, allowedExtra);
  }

  /** The configuration name of each rule. */
  function RuleName(r: Rule): string {
    match r
    case LowercaseRule => Config.RuleLowercase
    case EnglishRule => Config.RuleEnglish
    case SpecialRule => Config.RuleSpecial
    case SensitiveRule => Config.RuleSensitive
  }

  /** The position of each rule in analyseCall. */
  function RuleRank(r: Rule): nat {
    match r
    case LowercaseRule => 0
    case EnglishRule => 1
    case SpecialRule => 2
    case SensitiveRule => 3
  }

  function RuleEnabled(cfg: Config.Config, r: Rule): bool {
    Config.IsRuleEnabled(cfg, RuleName(r))
  }

  /** The check a rule stands for, applied to the call's message. */
  function RuleCheck(u: Tables, cfg: Config.Config, lc: LogCall, r: Rule): Option<Violation> {
    match r
    case LowercaseRule => CheckLowercase(u, lc.msgLiteral)
    case EnglishRule => English.CheckEnglish(lc.msgLiteral)
    case SpecialRule => CheckSpecialChars(u, lc.msgLiteral, cfg.allowedSpecialChars)
    case SensitiveRule => Sensitive.CheckSensitive(u, lc.msgLiteral, lc.fullExpr, cfg.sensitiveKeywords)
  }

  /** The violation of one rule when it is switched on and fires. */
  function RuleReport(u: Tables, cfg: Config.Config, lc: LogCall, r: Rule): seq<Violation> {
    var v := RuleCheck(u, cfg, lc, r);
    if RuleEnabled(cfg, r) && v.Some? then [v.value] else []
  }

  /** Each rule reports only violations of its own kind. */
  lemma RuleCheckKind(u: Tables, cfg: Config.Config, lc: LogCall, r: Rule)
    ensures RuleCheck(u, cfg, lc, r).Some? ==> RuleOf(RuleCheck(u, cfg, lc, r).value) == r
  {
    match r
    case LowercaseRule =>
      var v := CheckLowercase(u, lc.msgLiteral);
      assert v.Some? ==> RuleOf(v.value) == LowercaseRule;
    case EnglishRule =>
      EnglishKind(lc.msgLiteral);
    case SpecialRule =>
      var v := CheckSpecialChars(u, lc.msgLiteral, cfg.allowedSpecialChars);
      assert v.Some? ==> RuleOf(v.value) == SpecialRule;
    case SensitiveRule =>
      var v := Sensitive.CheckSensitive(u, lc.msgLiteral, lc.fullExpr, cfg.sensitiveKeywords);
      assert v.Some? ==> RuleOf(v.value) == SensitiveRule;
  }

  /** The English rule reports only NonEnglish. */
  lemma EnglishKind(msg: string)
    ensures English.CheckEnglish(msg).Some? ==> English.CheckEnglish(msg).value.NonEnglish?
  {
    var v := English.CheckEnglish(msg);
    if v.Some? {
      var i :| English.FirstOffence(msg, i) && v.value == NonEnglish(English.ScriptName(msg[i]), msg[i]);
    }
  }

  /** The violations analyseCall reports, in order. */
  function Reports(u: Tables, cfg: Config.Config, lc: LogCall): seq<Violation> {
    RuleReport(u, cfg, lc, LowercaseRule) + RuleReport(u, cfg, lc, EnglishRule) +
    RuleReport(u, cfg, lc, SpecialRule) + RuleReport(u, cfg, lc, SensitiveRule)
  }

  /** A rule reports at most once, and only a violation of its own kind that
      its check returned while it is on. */
  lemma RuleReportFacts(u: Tables, cfg: Config.Config, lc: LogCall, r: Rule)
    ensures |RuleReport(u, cfg, lc, r)| <= 1
    ensures forall v :: v in RuleReport(u, cfg, lc, r) <==>
              RuleOf(v) == r && RuleEnabled(cfg, r) && RuleCheck(u, cfg, lc, r) == Some(v)
  {
    RuleCheckKind(u, cfg, lc, r);
  }

  /** Four lists of at most one violation each, of the four rules in order. */
  lemma {:induction false} InRuleOrder(l: seq<Violation>, e: seq<Violation>, s: seq<Violation>, k: seq<Violation>)
    requires |l| <= 1 && |e| <= 1 && |s| <= 1 && |k| <= 1
    requires forall v | v in l :: RuleOf(v) == LowercaseRule
    requires forall v | v in e :: RuleOf(v) == EnglishRule
    requires forall v | v in s :: RuleOf(v) == SpecialRule
    requires forall v | v in k :: RuleOf(v) == SensitiveRule
    ensures |l + e + s + k| <= 4
    ensures forall i, j | 0 <= i < j < |l + e + s + k| ::
              RuleRank(RuleOf((l + e + s + k)[i])) < RuleRank(RuleOf((l + e + s + k)[j]))
  {
    var vs := l + e + s + k;
    forall i | 0 <= i < |vs|
      ensures i < |l| ==> vs[i] in l
      ensures |l| <= i < |l| + |e| ==> vs[i] in e
      ensures |l| + |e| <= i < |l| + |e| + |s| ==> vs[i] in s
      ensures |l| + |e| + |s| <= i ==> vs[i] in k
    {
      if i < |l| { assert vs[i] == l[i]; }
      else if i < |l| + |e| { assert vs[i] == e[i - |l|]; }
      else if i < |l| + |e| + |s| { assert vs[i] == s[i - |l| - |e|]; }
      else { assert vs[i] == k[i - |l| - |e| - |s|]; }
    }
  }

  /** At most one report per rule; a violation is reported exactly when its
      rule is switched on and its check returns it; the rules come in the
      order lowercase, english, special, sensitive. */
  lemma ReportsFacts(u: Tables, cfg: Config.Config, lc: LogCall)
    ensures |Reports(u, cfg, lc)| <= 4
    ensures forall v :: v in Reports(u, cfg, lc) <==>
              RuleEnabled(cfg, RuleOf(v)) && RuleCheck(u, cfg, lc, RuleOf(v)) == Some(v)
    ensures forall i, j | 0 <= i < j < |Reports(u, cfg, lc)| ::
              RuleRank(RuleOf(Reports(u, cfg, lc)[i])) < RuleRank(RuleOf(Reports(u, cfg, lc)[j]))
  {
    var l := RuleReport(u, cfg, lc, LowercaseRule);
    var e := RuleReport(u, cfg, lc, EnglishRule);
    var s := RuleReport(u, cfg, lc, SpecialRule);
    var k := RuleReport(u, cfg, lc, SensitiveRule);
    RuleReportFacts(u, cfg, lc, LowercaseRule);
    RuleReportFacts(u, cfg, lc, EnglishRule);
    RuleReportFacts(u, cfg, lc, SpecialRule);
    RuleReportFacts(u, cfg, lc, SensitiveRule);
    InRuleOrder(l, e, s, k);
    forall v ensures v in l + e + s + k <==> RuleEnabled(cfg, RuleOf(v)) && RuleCheck(u, cfg, lc, RuleOf(v)) == Some(v) {
      assert v in l + e + s + k <==> v in l || v in e || v in s || v in k;
    }
  }

  /** The fixes attached to a report: the lowercase fix, the special fix, or
      none. */
  function FixesFor(u: Tables, cfg: Config.Config, lc: LogCall, v: Violation): seq<SuggestedFix>
    requires LiteralResolved(lc)
  {
    match RuleOf(v)
    case LowercaseRule => SuggestLowercaseFix(lc)
    case SpecialRule => SpecialFixes(u, lc, cfg.allowedSpecialChars)
    case _ => []
  }

  /** The diagnostics for a list of reports: one each, spanning the message
      argument, with the rule's fixes. */
  function Diagnose(u: Tables, cfg: Config.Config, lc: LogCall, vs: seq<Violation>): seq<Diagnostic>
    requires LiteralResolved(lc)
  {
    if vs == [] then []
    else
      var last := vs[|vs| - 1];
      Diagnose(u, cfg, lc, vs[..|vs| - 1]) +
        [Diagnostic(lc.msgArg.span.pos, lc.msgArg.span.end, last, FixesFor(u, cfg, lc, last))]
  }

  /** The diagnostics match the reports one for one: same position, the
      message argument's span, the rule's fixes. */
  lemma {:induction false} DiagnoseFacts(u: Tables, cfg: Config.Config, lc: LogCall, vs: seq<Violation>)
    requires LiteralResolved(lc)
    ensures |Diagnose(u, cfg, lc, vs)| == |vs|
    ensures forall i | 0 <= i < |vs| ::
              Diagnose(u, cfg, lc, vs)[i] ==
                Diagnostic(lc.msgArg.span.pos, lc.msgArg.span.end, vs[i], FixesFor(u, cfg, lc, vs[i]))
  {
    if vs != [] {
      var init := vs[..|vs| - 1];
      var last := vs[|vs| - 1];
      DiagnoseFacts(u, cfg, lc, init);
      var d := Diagnose(u, cfg, lc, init);
      var dl := Diagnostic(lc.msgArg.span.pos, lc.msgArg.span.end, last, FixesFor(u, cfg, lc, last));
      assert Diagnose(u, cfg, lc, vs) == d + [dl];
      forall i | 0 <= i < |vs|
        ensures (d + [dl])[i] ==
                  Diagnostic(lc.msgArg.span.pos, lc.msgArg.span.end, vs[i], FixesFor(u, cfg, lc, vs[i]))
      {
        if i < |init| {
          assert init[i] == vs[i];
        }
      }
    }
  }

  /** One more report adds its diagnostic at the end. */
  lemma DiagnoseStep(u: Tables, cfg: Config.Config, lc: LogCall, done: seq<Violation>, v: Violation)
    requires LiteralResolved(lc)
    ensures Diagnose(u, cfg, lc, done + [v]) ==
              Diagnose(u, cfg, lc, done) + [Diagnostic(lc.msgArg.span.pos, lc.msgArg.span.end, v, FixesFor(u, cfg, lc, v))]
  {
    assert (done + [v])[..|done|] == done;
  }

  /** One block of analyseCall: when the rule is on and its check fires,
      report a diagnostic spanning the message argument, with the lowercase
      fix for the lowercase rule, the special fix for the special rule and
      none for the others. */
  method ReportRule(u: Tables, cfg: Config.Config, lc: LogCall, r: Rule, diags: seq<Diagnostic>, ghost done: seq<Violation>)
    returns (diags': seq<Diagnostic>)
    requires LiteralResolved(lc)
    requires diags == Diagnose(u, cfg, lc, done)
    ensures diags' == Diagnose(u, cfg, lc, done + RuleReport(u, cfg, lc, r))
  {
    diags' := diags;
    if RuleEnabled(cfg, r) {
      var v := RuleCheck(u, cfg, lc, r);
      if v.Some? {
        RuleCheckKind(u, cfg, lc, r);
        var fixes: seq<SuggestedFix> := [];
        if r == LowercaseRule {
          fixes := SuggestLowercaseFix(lc);
        } else if r == SpecialRule {
          fixes := SuggestSpecialFix(u, lc, cfg.allowedSpecialChars);
        }
        DiagnoseStep(u, cfg, lc, done, v.value);
        diags' := diags' + [Diagnostic(lc.msgArg.span.pos, lc.msgArg.span.end, v.value, fixes)];
        return;
      }
    }
    assert done + RuleReport(u, cfg, lc, r) == done;
  }

  /** analyseCall: the four rules in turn, lowercase, english, special,
      sensitive; each report becomes one diagnostic. */
  method AnalyseCall(u: Tables, cfg: Config.Config, lc: LogCall) returns (diags: seq<Diagnostic>)
    requires LiteralResolved(lc)
    ensures diags == Diagnose(u, cfg, lc, Reports(u, cfg, lc))
  {
    ghost var done: seq<Violation> := [];
    diags := ReportRule(u, cfg, lc, LowercaseRule, [], done);
    assert done + RuleReport(u, cfg, lc, LowercaseRule) == RuleReport(u, cfg, lc, LowercaseRule);
    done := RuleReport(u, cfg, lc, LowercaseRule);
    diags := ReportRule(u, cfg, lc, EnglishRule, diags, done);
    done := done + RuleReport(u, cfg, lc, EnglishRule);
    diags := ReportRule(u, cfg, lc, SpecialRule, diags, done);
    done := done + RuleReport(u, cfg, lc, SpecialRule);
    diags := ReportRule(u, cfg, lc, SensitiveRule, diags, done);
  }

  /** A name in the message argument that contains a keyword is reported by
      the sensitive rule whenever that rule is on, whatever the message. */
  lemma SensitiveNameReported(u: Tables, cfg: Config.Config, lc: LogCall, name: string, k: int)
    requires Valid(u) && LowersToLetters(u)
    requires Config.IsRuleEnabled(cfg, Config.RuleSensitive)
    requires lc.fullExpr == Resolver.InspectText(lc.msgArg)
    requires Resolver.Lexable(lc.msgArg) && Resolver.Mentions(lc.msgArg, name)
    requires 0 <= k < |cfg.sensitiveKeywords|
    requires Contains(ReplaceAll(Lower(u, name), "_", ""), ReplaceAll(Lower(u, cfg.sensitiveKeywords[k]), "_", ""))
    ensures exists v :: v in Reports(u, cfg, lc) && RuleOf(v) == SensitiveRule
  {
    Resolver.MentionedNameReported(u, lc.msgArg, name, lc.msgLiteral, cfg.sensitiveKeywords, k);
    RuleCheckKind(u, cfg, lc, SensitiveRule);
    var v := RuleCheck(u, cfg, lc, SensitiveRule).value;
    ReportsFacts(u, cfg, lc);
  }

  /** A rule switched off in the configuration never reports. */
  lemma DisabledRuleSilent(u: Tables, cfg: Config.Config, lc: LogCall, r: Rule)
    requires !RuleEnabled(cfg, r)
    ensures forall i | 0 <= i < |Reports(u, cfg, lc)| :: RuleOf(Reports(u, cfg, lc)[i]) != r
  {
    ReportsFacts(u, cfg, lc);
    var vs := Reports(u, cfg, lc);
    forall i | 0 <= i < |vs| ensures RuleOf(vs[i]) != r {
      assert vs[i] in vs;
    }
  }
}
