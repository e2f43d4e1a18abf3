/**
 * The no-special-characters rule (CheckSpecialChars, buildForbiddenSet,
 * isEmoji, checkRepeatedPunctuation). Written once here; the copies in
 * testdata/src/special and testdata/src/basic are identical.
 */
module Special {
  import opened Wrappers
  import opened Runes
  import opened Strings
  import opened Violations

  /** The 20 ASCII runes forbidden unless the configuration allows them. */
  const DefaultForbiddenASCII: string := "!@#$%^&*+=|\\<>?`~;'\""

  /** The repeated sequences, in the order they are tried. */
  const RepeatedRuns: seq<string> := ["...", "!!", "??", "***"]

  /** The runes the special-character fix always keeps: - _ / : . , and space. */
  predicate IsSafePunctuation(r: char) {
    r == '-' || r == '_' || r == '/' || r == ':' || r == '.' || r == ',' || r == ' '
  }

  /** The 20 default runes, one by one. */
  lemma DefaultForbiddenRunes(r: char)
    ensures r in DefaultForbiddenASCII <==>
      r == '!' || r == '@' || r == '#' || r == '$' || r == '%' || r == '^' || r == '&' ||
      r == '*' || r == '+' || r == '=' || r == '|' || r == '\\' || r == '<' || r == '>' ||
      r == '?' || r == '`' || r == '~' || r == ';' || r == '\'' || r == '"'
  {
  }

  /** Every default rune is ASCII punctuation or an ASCII symbol. */
  lemma DefaultForbiddenPunct()
    ensures forall r | r in DefaultForbiddenASCII :: IsAscii(r) && (IsAsciiPunct(r) || IsAsciiSymbol(r))
  {
    forall r | r in DefaultForbiddenASCII
      ensures IsAscii(r) && (IsAsciiPunct(r) || IsAsciiSymbol(r))
    {
      DefaultForbiddenRunes(r);
    }
  }

  /** The forbidden set as a value: the defaults minus the allowed runes. */
  function ForbiddenSet(allowedExtra: string): set<char> {
    set r | r in DefaultForbiddenASCII && r !in allowedExtra
  }

  /** buildForbiddenSet: fills the `allowed` set, then keeps each default rune
      that is not allowed. The result is the 20 default runes minus those of
      `allowedExtra`, and so holds ASCII punctuation and symbols only. */
  method BuildForbiddenSet(allowedExtra: string) returns (forbidden: set<char>)
    ensures forall r :: r in forbidden <==> r in DefaultForbiddenASCII && r !in allowedExtra
    ensures forall r | r in forbidden :: IsAscii(r) && (IsAsciiPunct(r) || IsAsciiSymbol(r))
  {
    var allowed: set<char> := {};
    var i := 0;
    while i < |allowedExtra|
      invariant 0 <= i <= |allowedExtra|
      invariant forall r :: r in allowed <==> r in allowedExtra[..i]
    {
      allowed := allowed + {allowedExtra[i]};
      i := i + 1;
    }
    assert allowedExtra[..i] == allowedExtra;
    forbidden := {};
    var j := 0;
    while j < |DefaultForbiddenASCII|
      invariant 0 <= j <= |DefaultForbiddenASCII|
      invariant forall r :: r in forbidden <==> r in DefaultForbiddenASCII[..j] && r !in allowed
    {
      var r := DefaultForbiddenASCII[j];
      if r !in allowed {
        forbidden := forbidden + {r};
      }
      j := j + 1;
    }
    assert DefaultForbiddenASCII[..j] == DefaultForbiddenASCII;
    DefaultForbiddenPunct();
  }

  /** Category So, or the pictograph, dingbat and variation-selector ranges. */
  predicate IsEmoji(u: Tables, r: char) {
    u.isOtherSymbol(r) ||
    (0x1F300 <= r as int <= 0x1FAFF) ||
    (0x2600 <= r as int <= 0x27BF) ||
    (0xFE00 <= r as int <= 0xFE0F)
  }

  /** The per-rune check: emoji first, then ASCII punctuation or any symbol
      that is in the forbidden set. */
  function RuneViolation(u: Tables, r: char, forbidden: set<char>): Option<Violation> {
    if IsEmoji(u, r) then Some(EmojiRune(r))
    else if ((IsAscii(r) && u.isPunct(r)) || u.isSymbol(r)) && r in forbidden then Some(ForbiddenRune(r))
    else None
  }

  /** The rune loop of CheckSpecialChars: stops at the first rune the per-rune
      check rejects and reports it. */
  function ScanRunes(u: Tables, msg: string, forbidden: set<char>): (v: Option<Violation>)
    ensures v.None? <==> forall i | 0 <= i < |msg| :: RuneViolation(u, msg[i], forbidden).None?
    ensures v.Some? ==> exists i | 0 <= i < |msg| ::
              v == RuneViolation(u, msg[i], forbidden) &&
              forall j | 0 <= j < i :: RuneViolation(u, msg[j], forbidden).None?
    decreases |msg|
  {
    if msg == [] then None
    else
      var v := RuneViolation(u, msg[0], forbidden);
      if v.Some? then v
      else
        var w := ScanRunes(u, msg[1..], forbidden);
        assert w.Some? ==> exists i | 0 <= i < |msg[1..]| ::
          w == RuneViolation(u, msg[1..][i], forbidden) &&
          (forall j | 0 <= j < i :: RuneViolation(u, msg[1..][j], forbidden).None?) &&
          msg[1..][i] == msg[i + 1] &&
          forall j | 0 <= j <= i :: RuneViolation(u, msg[j], forbidden).None? || j == i + 1;
        w
  }

  /** checkRepeatedPunctuation over the given runs, first match wins. */
  function FirstRepeated(msg: string, runs: seq<string>): (v: Option<Violation>)
    ensures v.None? <==> forall k | 0 <= k < |runs| :: !Contains(msg, runs[k])
    ensures v.Some? ==> exists k | 0 <= k < |runs| ::
              v.value == RepeatedPunctuation(runs[k]) && Contains(msg, runs[k]) &&
              forall j | 0 <= j < k :: !Contains(msg, runs[j])
    decreases |runs|
  {
    if runs == [] then None
    else if Contains(msg, runs[0]) then Some(RepeatedPunctuation(runs[0]))
    else
      var w := FirstRepeated(msg, runs[1..]);
      assert w.Some? ==> exists k | 0 <= k < |runs[1..]| ::
        w.value == RepeatedPunctuation(runs[1..][k]) && runs[1..][k] == runs[k + 1] &&
        Contains(msg, runs[k + 1]) && forall j | 0 <= j <= k :: !Contains(msg, runs[j]);
      w
  }

  function CheckRepeatedPunctuation(msg: string): Option<Violation> {
    FirstRepeated(msg, RepeatedRuns)
  }

  /** The runes the repeated runs are made of. */
  predicate IsRunRune(r: char) {
    r == '.' || r == '!' || r == '?' || r == '*'
  }

  /** No repeated run is found in a message where no rune of a run is
      immediately repeated. */
  lemma NoDoubledRunRune(msg: string)
    requires forall i | 0 <= i < |msg| - 1 :: !(IsRunRune(msg[i]) && msg[i + 1] == msg[i])
    ensures CheckRepeatedPunctuation(msg) == None
  {
    forall k | 0 <= k < |RepeatedRuns| ensures !Contains(msg, RepeatedRuns[k]) {
      var p := RepeatedRuns[k];
      assert |p| >= 2 && p[1] == p[0] && IsRunRune(p[0]);
      forall i | 0 <= i < |msg| && msg[i] == p[0] ensures !HasPrefix(msg[i..], p) {
        if i + 1 < |msg| {
          assert msg[i..][1] == msg[i + 1] != p[1];
        }
      }
      NotContains(msg, p);
    }
  }

  /** A message that ends in "..." reports the ellipsis, the first run tried. */
  lemma EllipsisReported(msg: string)
    requires HasSuffix(msg, "...")
    ensures CheckRepeatedPunctuation(msg) == Some(RepeatedPunctuation("..."))
  {
    ContainsAt(msg, "...", |msg| - 3);
  }

  /** A message without dots that ends in "!!" reports the doubled '!'. */
  lemma DoubleBangReported(msg: string)
    requires forall i | 0 <= i < |msg| :: msg[i] != '.'
    requires HasSuffix(msg, "!!")
    ensures CheckRepeatedPunctuation(msg) == Some(RepeatedPunctuation("!!"))
  {
    NotContains(msg, "...");
    ContainsAt(msg, "!!", |msg| - 2);
  }

  /** A per-rune violation always wins; the repeated-run check runs only after
      a clean scan. */
  function CheckSpecialChars(u: Tables, msg: string, allowedExtra: string): (v: Option<Violation>)
    ensures ScanRunes(u, msg, ForbiddenSet(allowedExtra)).Some? ==>
              v == ScanRunes(u, msg, ForbiddenSet(allowedExtra))
    ensures ScanRunes(u, msg, ForbiddenSet(allowedExtra)).None? ==>
              v == CheckRepeatedPunctuation(msg)
    ensures v.Some? ==> v.value.EmojiRune? || v.value.ForbiddenRune? || v.value.RepeatedPunctuation?
  {
    var forbidden := ForbiddenSet(allowedExtra);
    var perRune := ScanRunes(u, msg, forbidden);
    if perRune.Some? then perRune
    else CheckRepeatedPunctuation(msg)
  }

  /** Hyphen, underscore, slash, colon, dot, comma and space never cause a
      per-rune violation, whatever the allowed runes are. */
  lemma SafePunctuationNeverFlagged(u: Tables, r: char, allowedExtra: string)
    requires Valid(u)
    requires IsSafePunctuation(r)
    ensures RuneViolation(u, r, ForbiddenSet(allowedExtra)) == None
  {
    DefaultForbiddenRunes(r);
  }

  /** The forbidden set holds ASCII runes only, so a non-ASCII rune that is not
      emoji-like never fails the per-rune check. */
  lemma NonAsciiNeverForbidden(u: Tables, r: char, allowedExtra: string)
    requires !IsAscii(r) && !IsEmoji(u, r)
    ensures RuneViolation(u, r, ForbiddenSet(allowedExtra)) == None
  {
  }

  /** The empty message never violates. */
  lemma EmptyNeverViolates(u: Tables, allowedExtra: string)
    ensures CheckSpecialChars(u, "", allowedExtra) == None
  {
  }

  /** A message that starts with an emoji-like rune reports that rune, even
      when the rune would also be forbidden or allowed. */
  lemma EmojiReportedFirst(u: Tables, r: char, rest: string, allowedExtra: string)
    requires IsEmoji(u, r)
    ensures CheckSpecialChars(u, [r] + rest, allowedExtra) == Some(EmojiRune(r))
  {
    assert ([r] + rest)[0] == r;
  }

  /** Letters, digits, space and the safe punctuation: runes that pass the
      per-rune check whatever is allowed. */
  predicate IsPlain(r: char) {
    ('a' <= r <= 'z') || ('A' <= r <= 'Z') || ('0' <= r <= '9') || IsSafePunctuation(r)
  }

  lemma PlainRuneClean(u: Tables, r: char, allowedExtra: string)
    requires Valid(u) && IsPlain(r)
    ensures RuneViolation(u, r, ForbiddenSet(allowedExtra)) == None
  {
    DefaultForbiddenRunes(r);
  }

  /** A message of plain runes and allowed ASCII runes passes the rune loop. */
  lemma PlainScanClean(u: Tables, msg: string, allowedExtra: string)
    requires Valid(u)
    requires forall i | 0 <= i < |msg| :: IsPlain(msg[i]) || (IsAscii(msg[i]) && msg[i] in allowedExtra)
    ensures ScanRunes(u, msg, ForbiddenSet(allowedExtra)) == None
  {
    forall i | 0 <= i < |msg| ensures RuneViolation(u, msg[i], ForbiddenSet(allowedExtra)).None? {
      if IsPlain(msg[i]) {
        PlainRuneClean(u, msg[i], allowedExtra);
      }
    }
  }

  /** The scan reports the first rune that fails the per-rune check, whatever follows. */
  lemma ScanStopsAt(u: Tables, msg: string, i: int, forbidden: set<char>)
    requires 0 <= i < |msg| && RuneViolation(u, msg[i], forbidden).Some?
    requires forall j | 0 <= j < i :: RuneViolation(u, msg[j], forbidden).None?
    ensures ScanRunes(u, msg, forbidden) == RuneViolation(u, msg[i], forbidden)
  {
    var v := ScanRunes(u, msg, forbidden);
    var k :| 0 <= k < |msg| && v == RuneViolation(u, msg[k], forbidden) &&
             forall j | 0 <= j < k :: RuneViolation(u, msg[j], forbidden).None?;
    assert !(k < i) && !(i < k);
  }

  /** After a plain prefix, the scan reports the rune at `i`. */
  lemma PlainScanStopsAt(u: Tables, msg: string, i: int, allowedExtra: string)
    requires Valid(u)
    requires 0 <= i < |msg| && RuneViolation(u, msg[i], ForbiddenSet(allowedExtra)).Some?
    requires forall j | 0 <= j < i :: IsPlain(msg[j])
    ensures ScanRunes(u, msg, ForbiddenSet(allowedExtra)) == RuneViolation(u, msg[i], ForbiddenSet(allowedExtra))
  {
    forall j | 0 <= j < i ensures RuneViolation(u, msg[j], ForbiddenSet(allowedExtra)).None? {
      PlainRuneClean(u, msg[j], allowedExtra);
    }
    ScanStopsAt(u, msg, i, ForbiddenSet(allowedExtra));
  }

  /** "server started!" reports the forbidden '!'. */
  lemma ExclamationExample(u: Tables)
    requires Valid(u)
    ensures CheckSpecialChars(u, "server started!", "") == Some(ForbiddenRune('!'))
  {
    DefaultForbiddenRunes('!');
    PlainScanStopsAt(u, "server started!", 14, "");
  }

  /** "connection failed!!!" reports the forbidden '!' rather than the repeated run. */
  lemma PerRuneBeforeRepeatedExample(u: Tables)
    requires Valid(u)
    ensures CheckSpecialChars(u, "connection failed!!!", "") == Some(ForbiddenRune('!'))
  {
    DefaultForbiddenRunes('!');
    PlainScanStopsAt(u, "connection failed!!!", 17, "");
  }

  /** A message made of plain runes and allowed ASCII runes, with no rune of
      a repeated run doubled, passes the rule. */
  lemma PlainMessagePasses(u: Tables, msg: string, allowedExtra: string)
    requires Valid(u)
    requires forall i | 0 <= i < |msg| :: IsPlain(msg[i]) || (IsAscii(msg[i]) && msg[i] in allowedExtra)
    requires forall i | 0 <= i < |msg| - 1 :: !(IsRunRune(msg[i]) && msg[i + 1] == msg[i])
    ensures CheckSpecialChars(u, msg, allowedExtra) == None
  {
    PlainScanClean(u, msg, allowedExtra);
    NoDoubledRunRune(msg);
  }

  /** "greeting!" passes once '!' is allowed. */
  lemma AllowedExclamationExample(u: Tables)
    requires Valid(u)
    ensures CheckSpecialChars(u, "greeting!", "!") == None
  {
    PlainMessagePasses(u, "greeting!", "!");
  }

  /** "hi!!" still reports the repeated run with '!' allowed: repeated runs are
      checked regardless of the allowed runes. */
  lemma AllowedRepeatedExample(u: Tables)
    requires Valid(u)
    ensures CheckSpecialChars(u, "hi!!", "!") == Some(RepeatedPunctuation("!!"))
  {
    PlainScanClean(u, "hi!!", "!");
    DoubleBangReported("hi!!");
  }

  /** "warning: something went wrong..." reports the repeated "...", although
      every one of its runes is safe. */
  lemma EllipsisExample(u: Tables)
    requires Valid(u)
    ensures CheckSpecialChars(u, "warning: something went wrong...", "") == Some(RepeatedPunctuation("..."))
  {
    PlainScanClean(u, "warning: something went wrong...", "");
    EllipsisReported("warning: something went wrong...");
  }

  /** "ok ✅" reports the check mark. */
  lemma CheckMarkExample(u: Tables)
    requires Valid(u)
    ensures CheckSpecialChars(u, "ok \U{2705}", "") == Some(EmojiRune('\U{2705}'))
  {
    PlainScanStopsAt(u, "ok \U{2705}", 3, "");
  }

  /** "server started 🚀" reports the rocket. */
  lemma RocketExample(u: Tables)
    requires Valid(u)
    ensures CheckSpecialChars(u, "server started \U{1F680}", "") == Some(EmojiRune('\U{1F680}'))
  {
    PlainScanStopsAt(u, "server started \U{1F680}", 15, "");
  }
}
