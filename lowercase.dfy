/**
 * The lowercase-start rule (CheckLowercase). Written once here; the copies in
 * testdata/src/lowercase and testdata/src/basic are identical.
 */
module Lowercase {
  import opened Wrappers
  import opened Runes
  import opened Strings
  import opened Violations

  /** strings.TrimSpace */
  function TrimSpace(u: Tables, s: string): string {
    TrimFunc(s, u.isSpace)
  }

  /** `k` is the index of the first rune of `s` that is not white space. */
  ghost predicate FirstNonSpace(u: Tables, s: string, k: int) {
    0 <= k < |s| && !u.isSpace(s[k]) && forall j | 0 <= j < k :: u.isSpace(s[j])
  }

  /** Only the first rune after trimming matters: a whitespace-only message
      passes, and otherwise the rule fires exactly when that rune is upper-case
      and not the replacement rune. */
  function CheckLowercase(u: Tables, msg: string): (v: Option<Violation>)
    ensures v.Some? ==> v.value == NotLowercase
    ensures (forall k | 0 <= k < |msg| :: u.isSpace(msg[k])) ==> v.None?
    ensures forall k | FirstNonSpace(u, msg, k) ::
              v.Some? <==> msg[k] != RuneError && u.isUpper(msg[k])
  {
    TrimFuncFacts(msg, u.isSpace);
    var t := TrimSpace(u, msg);
    if t == [] then None
    else
      var r := t[0];
      if r == RuneError then None
      else if u.isUpper(r) then Some(NotLowercase)
      else None
  }

  /** Surrounding white space never changes the verdict. */
  lemma SurroundingSpaceIgnored(u: Tables, lead: string, s: string, trail: string)
    requires forall k | 0 <= k < |lead| :: u.isSpace(lead[k])
    requires forall k | 0 <= k < |trail| :: u.isSpace(trail[k])
    ensures CheckLowercase(u, lead + s + trail) == CheckLowercase(u, s)
  {
    var m := lead + s + trail;
    if k :| FirstNonSpace(u, s, k) {
      assert FirstNonSpace(u, m, |lead| + k);
    } else {
      assert forall k | 0 <= k < |s| :: u.isSpace(s[k]) by {
        forall k | 0 <= k < |s| ensures u.isSpace(s[k]) {
          if !u.isSpace(s[k]) {
            FirstNonSpaceExists(u, s, k);
          }
        }
      }
      assert forall k | 0 <= k < |m| :: u.isSpace(m[k]);
    }
  }

  /** A rune that is not space has a first non-space rune at or before it. */
  lemma {:induction false} FirstNonSpaceExists(u: Tables, s: string, i: int)
    requires 0 <= i < |s| && !u.isSpace(s[i])
    ensures exists k :: FirstNonSpace(u, s, k)
    decreases i
  {
    if !FirstNonSpace(u, s, i) {
      var j :| 0 <= j < i && !u.isSpace(s[j]);
      FirstNonSpaceExists(u, s, j);
    }
  }

  /** A first rune equal to the replacement rune passes. */
  lemma RuneErrorPasses(u: Tables, lead: string, rest: string)
    requires forall k | 0 <= k < |lead| :: u.isSpace(lead[k])
    requires !u.isSpace(RuneError)
    ensures CheckLowercase(u, lead + [RuneError] + rest) == None
  {
    assert FirstNonSpace(u, lead + [RuneError] + rest, |lead|);
  }

  /** "Starting server on port 8080" and "FAILED TO CONNECT" violate;
      "failed to connect" and the empty message pass. */
  lemma AsciiExamples(u: Tables)
    requires Valid(u)
    ensures CheckLowercase(u, "Starting server on port 8080") == Some(NotLowercase)
    ensures CheckLowercase(u, "FAILED TO CONNECT") == Some(NotLowercase)
    ensures CheckLowercase(u, "failed to connect") == None
    ensures CheckLowercase(u, "") == None
  {
    assert FirstNonSpace(u, "Starting server on port 8080", 0);
    assert FirstNonSpace(u, "FAILED TO CONNECT", 0);
    assert FirstNonSpace(u, "failed to connect", 0);
  }

  /** Upper-case outside ASCII counts: "Запуск" violates; "über" passes. */
  lemma UnicodeExamples(u: Tables)
    requires !u.isSpace('\U{0417}') && u.isUpper('\U{0417}')
    requires !u.isSpace('\U{00FC}') && !u.isUpper('\U{00FC}')
    ensures CheckLowercase(u, "\U{0417}\U{0430}\U{043F}\U{0443}\U{0441}\U{043A}") == Some(NotLowercase)
    ensures CheckLowercase(u, "\U{00FC}ber") == None
  {
    assert FirstNonSpace(u, "\U{0417}\U{0430}\U{043F}\U{0443}\U{0441}\U{043A}", 0);
    assert FirstNonSpace(u, "\U{00FC}ber", 0);
  }
}
