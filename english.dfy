/**
 * The English-only rule (CheckEnglish, isAllowedNonASCII, scriptName). The
 * rule is written once here; the copies in testdata/src/language and
 * testdata/src/basic are identical.
 */
module English {
  import opened Wrappers
  import opened Runes
  import opened Violations

  /** en dash, em dash, curly single and double quotes, ellipsis */
  predicate IsAllowedNonASCII(r: char) {
    r == '\U{2013}' || r == '\U{2014}' || r == '\U{2018}' || r == '\U{2019}' ||
    r == '\U{201C}' || r == '\U{201D}' || r == '\U{2026}'
  }

  /** A best-effort script label from disjoint code point ranges. */
  function ScriptName(r: char): (s: Script)
    ensures s == Cyrillic <==> 0x0400 <= r as int <= 0x04FF
    ensures s == CJK <==> 0x4E00 <= r as int <= 0x9FFF
    ensures s == Arabic <==> 0x0600 <= r as int <= 0x06FF
    ensures s == Devanagari <==> 0x0900 <= r as int <= 0x097F
    ensures s == Emoji <==> 0x1F300 <= r as int <= 0x1FAFF
    ensures s == NonLatin <==> !(0x0400 <= r as int <= 0x04FF || 0x4E00 <= r as int <= 0x9FFF ||
                                 0x0600 <= r as int <= 0x06FF || 0x0900 <= r as int <= 0x097F ||
                                 0x1F300 <= r as int <= 0x1FAFF)
  {
    var c := r as int;
    if 0x0400 <= c <= 0x04FF then Cyrillic
    else if 0x4E00 <= c <= 0x9FFF then CJK
    else if 0x0600 <= c <= 0x06FF then Arabic
    else if 0x0900 <= c <= 0x097F then Devanagari
    else if 0x1F300 <= c <= 0x1FAFF then Emoji
    else NonLatin
  }

  /** A rune the rule lets through. */
  predicate Permitted(r: char) {
    IsAscii(r) || IsAllowedNonASCII(r)
  }

  /** `i` is the first rune of `msg` that the rule does not let through. */
  ghost predicate FirstOffence(msg: string, i: int) {
    0 <= i < |msg| && !Permitted(msg[i]) && forall j | 0 <= j < i :: Permitted(msg[j])
  }

  /** The rule passes exactly when every rune is permitted, and otherwise
      names the first offending rune and its script. */
  function CheckEnglish(msg: string): (v: Option<Violation>)
    ensures v.None? <==> forall i | 0 <= i < |msg| :: Permitted(msg[i])
    ensures v.Some? ==> exists i :: FirstOffence(msg, i) && v.value == NonEnglish(ScriptName(msg[i]), msg[i])
    decreases |msg|
  {
    if msg == [] then None
    else if Permitted(msg[0]) then
      var v := CheckEnglish(msg[1..]);
      assert v.Some? ==> exists i :: FirstOffence(msg[1..], i) && FirstOffence(msg, i + 1);
      v
    else
      assert FirstOffence(msg, 0);
      Some(NonEnglish(ScriptName(msg[0]), msg[0]))
  }

  /** ASCII-only messages, the empty one included, never violate. */
  lemma AsciiNeverViolates(msg: string)
    requires forall i | 0 <= i < |msg| :: IsAscii(msg[i])
    ensures CheckEnglish(msg) == None
  {
  }

  /** The seven typographic runes never violate: inserting one anywhere
      leaves the verdict as it was. */
  lemma {:induction false} TypographicNeverViolates(pre: string, r: char, post: string)
    requires IsAllowedNonASCII(r)
    ensures CheckEnglish(pre + [r] + post) == CheckEnglish(pre + post)
    decreases |pre|
  {
    if pre == [] {
      assert (pre + [r] + post)[1..] == pre + post;
    } else {
      assert (pre + [r] + post)[1..] == pre[1..] + [r] + post;
      assert (pre + post)[1..] == pre[1..] + post;
      TypographicNeverViolates(pre[1..], r, post);
    }
  }

  /** The first rune that is neither ASCII nor allowed decides the single
      diagnostic; later runes are never examined. */
  lemma {:induction false} FirstOffenceDecides(pre: string, r: char, post: string)
    requires forall i | 0 <= i < |pre| :: Permitted(pre[i])
    requires !Permitted(r)
    ensures CheckEnglish(pre + [r] + post) == Some(NonEnglish(ScriptName(r), r))
    decreases |pre|
  {
    if pre == [] {
      assert (pre + [r] + post)[0] == r;
    } else {
      assert (pre + [r] + post)[1..] == pre[1..] + [r] + post;
      FirstOffenceDecides(pre[1..], r, post);
    }
  }

  /** The verdict in index form: the rune at the first offence is reported. */
  lemma OffenceAt(msg: string, i: int)
    requires FirstOffence(msg, i)
    ensures CheckEnglish(msg) == Some(NonEnglish(ScriptName(msg[i]), msg[i]))
  {
    var v := CheckEnglish(msg);
    assert v.Some?;
    var k :| FirstOffence(msg, k) && v.value == NonEnglish(ScriptName(msg[k]), msg[k]);
    assert FirstOffence(msg, k);
    assert !(k < i) && !(i < k);
  }

  /** "step 1–2" passes. */
  lemma EnDashExample()
    ensures CheckEnglish("step 1\U{2013}2") == None
  {
    assert forall i | 0 <= i < 8 :: Permitted("step 1\U{2013}2"[i]);
  }

  /** A permitted prefix followed by a Cyrillic word ("starting сервер") is
      reported as Cyrillic, at the word's first rune. */
  lemma CyrillicWordReported(pre: string, word: string)
    requires forall i | 0 <= i < |pre| :: Permitted(pre[i])
    requires word != [] && 0x0400 <= word[0] as int <= 0x04FF
    ensures CheckEnglish(pre + word) == Some(NonEnglish(Cyrillic, word[0]))
  {
    assert pre + word == pre + [word[0]] + word[1..];
    FirstOffenceDecides(pre, word[0], word[1..]);
  }
}
