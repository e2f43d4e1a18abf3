/**
 * The parts of Go's `strings` package the linter relies on, over sequences
 * of runes.
 */
module Strings {
  import opened Runes

  /** strings.HasPrefix */
  predicate HasPrefix(s: string, p: string) {
    |p| <= |s| && s[..|p|] == p
  }

  /** A rune that differs from the pattern's at the same place rules the
      pattern out as a prefix. */
  lemma NotPrefix(s: string, p: string, k: nat)
    requires k < |p| && (k < |s| ==> s[k] != p[k])
    ensures !HasPrefix(s, p)
  {
    if |p| <= |s| {
      assert s[..|p|][k] != p[k];
    }
  }

  /** strings.HasSuffix */
  predicate HasSuffix(s: string, p: string) {
    |p| <= |s| && s[|s| - |p|..] == p
  }

  /** strings.Contains: `p` occurs in `s` as a contiguous run. */
  predicate Contains(s: string, p: string)
    decreases |s|
  {
    HasPrefix(s, p) || (s != [] && Contains(s[1..], p))
  }

  /** The recursive search finds exactly the occurrences at some offset. */
  lemma {:induction false} ContainsAt(s: string, p: string, i: nat)
    requires i + |p| <= |s| && s[i..i + |p|] == p
    ensures Contains(s, p)
    decreases i
  {
    if i > 0 {
      assert s[1..][i - 1..i - 1 + |p|] == p;
      ContainsAt(s[1..], p, i - 1);
    } else {
      assert s[..|p|] == p;
    }
  }

  /** Contains finds an occurrence at some offset. */
  lemma {:induction false} ContainsOccurrence(s: string, p: string)
    requires Contains(s, p)
    ensures exists i | 0 <= i <= |s| :: HasPrefix(s[i..], p)
    decreases |s|
  {
    if HasPrefix(s, p) {
      assert s[0..] == s;
    } else {
      ContainsOccurrence(s[1..], p);
      var i :| 0 <= i <= |s[1..]| && HasPrefix(s[1..][i..], p);
      assert s[1..][i..] == s[i + 1..];
    }
  }

  /** A pattern is not found when no position that starts with its first
      rune starts the whole pattern. */
  lemma {:induction false} NotContains(s: string, p: string)
    requires p != []
    requires forall i | 0 <= i < |s| && s[i] == p[0] :: !HasPrefix(s[i..], p)
    ensures !Contains(s, p)
    decreases |s|
  {
    if s != [] {
      assert s[0..] == s;
      forall i | 0 <= i < |s[1..]| && s[1..][i] == p[0] ensures !HasPrefix(s[1..][i..], p) {
        assert s[1..][i..] == s[i + 1..];
      }
      NotContains(s[1..], p);
    }
  }

  /** strings.TrimPrefix */
  function TrimPrefix(s: string, p: string): (r: string)
    ensures HasPrefix(s, p) ==> s == p + r
    ensures !HasPrefix(s, p) ==> r == s
  {
    if HasPrefix(s, p) then s[|p|..] else s
  }

  /** strings.TrimSuffix */
  function TrimSuffix(s: string, p: string): (r: string)
    ensures HasSuffix(s, p) ==> s == r + p
    ensures !HasSuffix(s, p) ==> r == s
  {
    if HasSuffix(s, p) then s[..|s| - |p|] else s
  }

  /** strings.TrimLeftFunc: drop the leading runes that satisfy `f`. */
  function TrimLeftFunc(s: string, f: char -> bool): (r: string)
    ensures |r| <= |s| && r == s[|s| - |r|..]
    ensures forall k | 0 <= k < |s| - |r| :: f(s[k])
    ensures r != [] ==> !f(r[0])
    decreases |s|
  {
    if s != [] && f(s[0]) then TrimLeftFunc(s[1..], f) else s
  }

  /** strings.TrimRightFunc: drop the trailing runes that satisfy `f`. */
  function TrimRightFunc(s: string, f: char -> bool): (r: string)
    ensures |r| <= |s| && r == s[..|r|]
    ensures forall k | |r| <= k < |s| :: f(s[k])
    ensures r != [] ==> !f(r[|r| - 1])
    decreases |s|
  {
    if s != [] && f(s[|s| - 1]) then TrimRightFunc(s[..|s| - 1], f) else s
  }

  /** strings.TrimFunc, and so strings.Trim with a one-rune cutset and
      strings.TrimSpace: the left run of `f`-runes, then the right one, cut off. */
  function TrimFunc(s: string, f: char -> bool): string {
    TrimRightFunc(TrimLeftFunc(s, f), f)
  }

  /** The result of TrimFunc is empty exactly when every rune satisfies `f`,
      starts with the first rune that does not, holds only runes of `s` and is
      no longer than `s`. */
  lemma TrimFuncFacts(s: string, f: char -> bool)
    ensures TrimFunc(s, f) == [] <==> forall k | 0 <= k < |s| :: f(s[k])
    ensures forall i | 0 <= i < |s| && !f(s[i]) && (forall k | 0 <= k < i :: f(s[k])) ::
              TrimFunc(s, f) != [] && TrimFunc(s, f)[0] == s[i]
    ensures forall k | 0 <= k < |TrimFunc(s, f)| :: TrimFunc(s, f)[k] in s
    ensures |TrimFunc(s, f)| <= |s|
  {
    var t := TrimLeftFunc(s, f);
    var r := TrimRightFunc(t, f);
    assert r == TrimFunc(s, f);
    forall i | 0 <= i < |s| && !f(s[i]) && (forall k | 0 <= k < i :: f(s[k]))
      ensures r != [] && r[0] == s[i]
    {
      TrimFuncFirst(s, f, i);
    }
    assert r == [] ==> t == [] by {
      if t != [] {
        assert !f(t[0]);
      }
    }
    forall k | 0 <= k < |r|
      ensures r[k] in s
    {
      assert r[k] == t[k] == s[|s| - |t| + k];
    }
  }

  /** The first rune that does not satisfy `f` is where the trimmed text starts. */
  lemma TrimFuncFirst(s: string, f: char -> bool, i: int)
    requires 0 <= i < |s| && !f(s[i]) && forall k | 0 <= k < i :: f(s[k])
    ensures TrimFunc(s, f) != [] && TrimFunc(s, f)[0] == s[i]
  {
    var t := TrimLeftFunc(s, f);
    assert |s| - |t| == i;
    assert t == s[i..];
    assert t[0] == s[i];
  }

  /** Leading runes that all satisfy `f` are dropped up to the first that does not. */
  lemma {:induction false} TrimLeftSkips(p: string, t: string, f: char -> bool)
    requires forall k | 0 <= k < |p| :: f(p[k])
    requires t == [] || !f(t[0])
    ensures TrimLeftFunc(p + t, f) == t
    decreases |p|
  {
    if p == [] {
      assert p + t == t;
    } else {
      assert (p + t)[1..] == p[1..] + t;
      TrimLeftSkips(p[1..], t, f);
    }
  }

  /** Trailing runes that all satisfy `f` are dropped back to the last that does not. */
  lemma {:induction false} TrimRightSkips(t: string, q: string, f: char -> bool)
    requires forall k | 0 <= k < |q| :: f(q[k])
    requires t == [] || !f(t[|t| - 1])
    ensures TrimRightFunc(t + q, f) == t
    decreases |q|
  {
    if q == [] {
      assert t + q == t;
    } else {
      var q' := q[..|q| - 1];
      assert (t + q)[..|t + q| - 1] == t + q';
      TrimRightSkips(t, q', f);
    }
  }

  /** TrimFunc removes exactly the runs of `f`-runes around a body that
      neither starts nor ends with one. */
  lemma TrimFuncStrips(p: string, body: string, q: string, f: char -> bool)
    requires forall k | 0 <= k < |p| :: f(p[k])
    requires forall k | 0 <= k < |q| :: f(q[k])
    requires body == [] || (!f(body[0]) && !f(body[|body| - 1]))
    ensures TrimFunc(p + body + q, f) == body
  {
    if body == [] {
      assert p + body + q == p + q + [];
      assert forall k | 0 <= k < |p + q| :: f((p + q)[k]);
      TrimLeftSkips(p + q, [], f);
    } else {
      assert p + body + q == p + (body + q);
      assert (body + q)[0] == body[0];
      TrimLeftSkips(p, body + q, f);
      TrimRightSkips(body, q, f);
    }
  }

  /** strings.ReplaceAll for a non-empty pattern: leftmost, non-overlapping
      occurrences are replaced, scanning from the left. */
  function ReplaceAll(s: string, pat: string, rep: string): string
    requires pat != []
    decreases |s|
  {
    if s == [] then []
    else if HasPrefix(s, pat) then rep + ReplaceAll(s[|pat|..], pat, rep)
    else [s[0]] + ReplaceAll(s[1..], pat, rep)
  }

  /** A prefix free of the pattern's first rune is copied as it is. */
  lemma {:induction false} ReplaceAllKeepsPrefix(a: string, t: string, pat: string, rep: string)
    requires pat != [] && pat[0] !in a
    ensures ReplaceAll(a + t, pat, rep) == a + ReplaceAll(t, pat, rep)
    decreases |a|
  {
    if a == [] {
      assert a + t == t;
    } else {
      NotPrefix(a + t, pat, 0);
      assert (a + t)[1..] == a[1..] + t;
      ReplaceAllKeepsPrefix(a[1..], t, pat, rep);
    }
  }

  /** An occurrence at the start is replaced and the scan goes on after it. */
  lemma ReplaceAllAtStart(t: string, pat: string, rep: string)
    requires pat != []
    ensures ReplaceAll(pat + t, pat, rep) == rep + ReplaceAll(t, pat, rep)
  {
    assert (pat + t)[..|pat|] == pat;
    assert (pat + t)[|pat|..] == t;
  }

  /** Text in which the first rune of the pattern never occurs is left as it is. */
  lemma {:induction false} ReplaceAllAbsent(s: string, pat: string, rep: string)
    requires pat != [] && pat[0] !in s
    ensures ReplaceAll(s, pat, rep) == s
    decreases |s|
  {
    if s != [] {
      assert s[1..] == s[1..] && forall k | 0 <= k < |s[1..]| :: s[1..][k] == s[k + 1];
      ReplaceAllAbsent(s[1..], pat, rep);
    }
  }

  /** Replacing a rune by nothing removes every occurrence and keeps the rest. */
  lemma {:induction false} ReplaceAllDeletes(s: string, c: char)
    ensures c !in ReplaceAll(s, [c], [])
    ensures forall x :: x in ReplaceAll(s, [c], []) <==> x in s && x != c
    ensures |ReplaceAll(s, [c], [])| <= |s|
    decreases |s|
  {
    if s != [] {
      ReplaceAllDeletes(s[1..], c);
      assert forall x | x in s :: x == s[0] || x in s[1..];
    }
  }

  /** A replacement no longer than the pattern never makes the text longer. */
  lemma {:induction false} ReplaceAllShrinks(s: string, pat: string, rep: string)
    requires pat != [] && |rep| <= |pat|
    ensures |ReplaceAll(s, pat, rep)| <= |s|
    decreases |s|
  {
    if s != [] {
      if HasPrefix(s, pat) {
        ReplaceAllShrinks(s[|pat|..], pat, rep);
      } else {
        ReplaceAllShrinks(s[1..], pat, rep);
      }
    }
  }

  /** Concatenation is associative. */
  lemma AppendAssoc<T>(a: seq<T>, b: seq<T>, c: seq<T>)
    ensures a + (b + c) == (a + b) + c
  {
  }

  /** Replacing a single rune works part by part. */
  lemma {:induction false} ReplaceAllRuneAppend(a: string, b: string, c: char, rep: string)
    ensures ReplaceAll(a + b, [c], rep) == ReplaceAll(a, [c], rep) + ReplaceAll(b, [c], rep)
    decreases |a|
  {
    if a == [] {
      assert a + b == b;
    } else {
      var ab := a + b;
      assert ab[0] == a[0] && ab[1..] == a[1..] + b;
      assert ab[..1] == [a[0]] && a[..1] == [a[0]];
      ReplaceAllRuneAppend(a[1..], b, c, rep);
      var head := if a[0] == c then rep else [a[0]];
      assert ReplaceAll(ab, [c], rep) == head + ReplaceAll(ab[1..], [c], rep);
      assert ReplaceAll(a, [c], rep) == head + ReplaceAll(a[1..], [c], rep);
      AppendAssoc(head, ReplaceAll(a[1..], [c], rep), ReplaceAll(b, [c], rep));
    }
  }

  /** strings.Join(parts, "") */
  function Concat(parts: seq<string>): string
    decreases |parts|
  {
    if parts == [] then [] else parts[0] + Concat(parts[1..])
  }

  /** Joining distributes over appending part lists. */
  lemma {:induction false} ConcatAppend(a: seq<string>, b: seq<string>)
    ensures Concat(a + b) == Concat(a) + Concat(b)
    decreases |a|
  {
    if a == [] {
      assert a + b == b;
    } else {
      assert (a + b)[1..] == a[1..] + b;
      ConcatAppend(a[1..], b);
    }
  }

  /** strings.ToLower: every rune is mapped by the case table. */
  function Lower(u: Tables, s: string): string {
    seq(|s|, i requires 0 <= i < |s| => u.toLower(s[i]))
  }

  /** Lower-casing works rune by rune, so it distributes over concatenation. */
  lemma LowerAppend(u: Tables, a: string, b: string)
    ensures Lower(u, a + b) == Lower(u, a) + Lower(u, b)
  {
  }

  /** On ASCII text with no capital letter, lower-casing changes nothing. */
  lemma LowerOfLowercaseAscii(u: Tables, s: string)
    requires Valid(u)
    requires forall k | 0 <= k < |s| :: IsAscii(s[k]) && !IsAsciiUpper(s[k])
    ensures Lower(u, s) == s
  {
  }
}
