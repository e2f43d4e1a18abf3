/**
 * The older sensitive-data rule kept in testdata/src/sensitive/sensitive.go
 * and testdata/src/basic/basic.go (the two copies are identical). It matches
 * plain substrings: in the lower-cased message, and in the whole lower-cased
 * expression with `_` and spaces removed, quoted text included.
 */
module LegacySensitive {
  import opened Wrappers
  import opened Runes
  import opened Strings
  import opened Violations
  import Sensitive

  /** The expression with `_` and spaces removed; nothing is stripped. */
  function RawNormalized(lowerExpr: string): string {
    ReplaceAll(ReplaceAll(lowerExpr, "_", ""), " ", "")
  }

  /** One iteration of the keyword loop on a lower-cased keyword. */
  function LegacyKeywordHit(lower: string, lowerExpr: string, kw: string): (v: Option<Violation>)
    ensures v.Some? <==> Contains(lower, kw) || Contains(RawNormalized(lowerExpr), ReplaceAll(kw, "_", ""))
    ensures Contains(lower, kw) ==> v == Some(SensitiveInMessage(kw))
    ensures !Contains(lower, kw) && v.Some? ==> v == Some(SensitiveInExpression(kw))
  {
    if Contains(lower, kw) then Some(SensitiveInMessage(kw))
    else if Contains(RawNormalized(lowerExpr), ReplaceAll(kw, "_", "")) then Some(SensitiveInExpression(kw))
    else None
  }

  /** The keyword loop: keywords in list order, first hit returned. */
  function LegacyScan(u: Tables, lower: string, lowerExpr: string, keywords: seq<string>): (v: Option<Violation>)
    ensures v.None? <==> forall k | 0 <= k < |keywords| :: LegacyKeywordHit(lower, lowerExpr, Lower(u, keywords[k])).None?
    ensures v.Some? ==> exists k | 0 <= k < |keywords| ::
              v == LegacyKeywordHit(lower, lowerExpr, Lower(u, keywords[k])) &&
              forall j | 0 <= j < k :: LegacyKeywordHit(lower, lowerExpr, Lower(u, keywords[j])).None?
    decreases |keywords|
  {
    if keywords == [] then None
    else
      var v := LegacyKeywordHit(lower, lowerExpr, Lower(u, keywords[0]));
      if v.Some? then v
      else
        var w := LegacyScan(u, lower, lowerExpr, keywords[1..]);
        LegacyScanStep(u, lower, lowerExpr, keywords, w);
        w
  }

  /** A miss on the first keyword: the scan of the rest answers for the
      whole list. */
  lemma LegacyScanStep(u: Tables, lower: string, lowerExpr: string, keywords: seq<string>, w: Option<Violation>)
    requires keywords != [] && LegacyKeywordHit(lower, lowerExpr, Lower(u, keywords[0])).None?
    requires w.None? <==> forall k | 0 <= k < |keywords[1..]| ::
               LegacyKeywordHit(lower, lowerExpr, Lower(u, keywords[1..][k])).None?
    requires w.Some? ==> exists k | 0 <= k < |keywords[1..]| ::
               w == LegacyKeywordHit(lower, lowerExpr, Lower(u, keywords[1..][k])) &&
               forall j | 0 <= j < k :: LegacyKeywordHit(lower, lowerExpr, Lower(u, keywords[1..][j])).None?
    ensures w.None? <==> forall k | 0 <= k < |keywords| ::
              LegacyKeywordHit(lower, lowerExpr, Lower(u, keywords[k])).None?
    ensures w.Some? ==> exists k | 0 <= k < |keywords| ::
              w == LegacyKeywordHit(lower, lowerExpr, Lower(u, keywords[k])) &&
              forall j | 0 <= j < k :: LegacyKeywordHit(lower, lowerExpr, Lower(u, keywords[j])).None?
  {
    var rest := keywords[1..];
    assert forall k | 0 <= k < |rest| :: rest[k] == keywords[k + 1];
    if w.Some? {
      var k :| 0 <= k < |rest| &&
               w == LegacyKeywordHit(lower, lowerExpr, Lower(u, rest[k])) &&
               forall j | 0 <= j < k :: LegacyKeywordHit(lower, lowerExpr, Lower(u, rest[j])).None?;
      assert forall j | 0 <= j < k + 1 :: LegacyKeywordHit(lower, lowerExpr, Lower(u, keywords[j])).None? by {
        forall j | 0 <= j < k + 1
          ensures LegacyKeywordHit(lower, lowerExpr, Lower(u, keywords[j])).None?
        {
          if j > 0 {
            assert keywords[j] == rest[j - 1];
          }
        }
      }
      assert w == LegacyKeywordHit(lower, lowerExpr, Lower(u, keywords[k + 1]));
    } else {
      forall k | 0 <= k < |keywords|
        ensures LegacyKeywordHit(lower, lowerExpr, Lower(u, keywords[k])).None?
      {
        if k > 0 {
          assert keywords[k] == rest[k - 1];
        }
      }
    }
  }

  /** The legacy CheckSensitive: the first keyword, in list order, found as a
      substring of the lower-cased message or of the normalized expression. */
  function LegacyCheckSensitive(u: Tables, msg: string, fullExpr: string, keywords: seq<string>): (v: Option<Violation>)
    ensures v.None? <==> forall k | 0 <= k < |keywords| ::
              LegacyKeywordHit(Lower(u, msg), Lower(u, fullExpr), Lower(u, keywords[k])).None?
    ensures v.Some? ==> exists k | 0 <= k < |keywords| ::
              v == LegacyKeywordHit(Lower(u, msg), Lower(u, fullExpr), Lower(u, keywords[k])) &&
              forall j | 0 <= j < k :: LegacyKeywordHit(Lower(u, msg), Lower(u, fullExpr), Lower(u, keywords[j])).None?
    ensures keywords == [] ==> v == None
  {
    LegacyScan(u, Lower(u, msg), Lower(u, fullExpr), keywords)
  }

  /** Every whole-token hit of the current rule is a substring hit of the
      legacy one: the current message check only removes reports. */
  lemma TokenHitIsSubstringHit(lower: string, kw: string)
    requires Sensitive.MessageHit(Sensitive.TokenizeWords(lower), kw)
    ensures Contains(lower, kw)
  {
    var tokens := Sensitive.TokenizeWords(lower);
    Sensitive.MessageHitFirstToken(tokens, kw);
    var i :| Sensitive.FirstToken(tokens, kw, i) && !Sensitive.SafeAfter(tokens, i);
    Sensitive.TokensOccur(lower);
  }

  /** "auth" inside "authenticated" fires the legacy message check, while the
      current rule sees only the tokens "user", "authenticated",
      "successfully". */
  lemma AuthSubstringExample()
    ensures LegacyKeywordHit("user authenticated successfully", "", "auth") == Some(SensitiveInMessage("auth"))
  {
    var m := "user authenticated successfully";
    assert m[5] == 'a' && m[6] == 'u' && m[7] == 't' && m[8] == 'h';
    assert m[5..9] == "auth";
    ContainsAt(m, "auth", 5);
  }
}
