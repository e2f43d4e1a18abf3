/**
 * The sensitive-data rule the driver runs (internal/rules/sensitive.go):
 * whole-token matching in the message, with a "safe next word" exception,
 * and a substring search in the argument expression once the contents of its
 * string literals are removed.
 */
module Sensitive {
  import opened Wrappers
  import opened Runes
  import opened Strings
  import opened Violations
  import Config

  // ---------------------------------------------------------------------
  // tokenizeWords
  // ---------------------------------------------------------------------

  /** The runes a token is made of: a-z, 0-9 and underscore. Everything else,
      upper-case and non-ASCII runes included, separates tokens. */
  predicate IsWordRune(r: char) {
    ('a' <= r <= 'z') || ('0' <= r <= '9') || r == '_'
  }

  predicate IsWord(t: string) {
    t != [] && forall j | 0 <= j < |t| :: IsWordRune(t[j])
  }

  /** The length of the run of word runes `s` starts with. */
  function WordRunLength(s: string): (n: nat)
    ensures n <= |s|
    ensures forall j | 0 <= j < n :: IsWordRune(s[j])
    ensures n < |s| ==> !IsWordRune(s[n])
    decreases |s|
  {
    if s != [] && IsWordRune(s[0]) then 1 + WordRunLength(s[1..]) else 0
  }

  /** strings.FieldsFunc with "not a word rune" as the separator test: the
      maximal runs of word runes, in order. */
  function TokenizeWords(s: string): (tokens: seq<string>)
    ensures forall k | 0 <= k < |tokens| :: IsWord(tokens[k])
    decreases |s|
  {
    if s == [] then []
    else if !IsWordRune(s[0]) then TokenizeWords(s[1..])
    else
      var n := WordRunLength(s);
      [s[..n]] + TokenizeWords(s[n..])
  }

  /** A run of word runes is not cut by what follows a separator. */
  lemma {:induction false} WordRunStopsAtSeparator(a: string, c: char, b: string)
    requires !IsWordRune(c)
    ensures WordRunLength(a + [c] + b) == WordRunLength(a)
    decreases |a|
  {
    if a != [] && IsWordRune(a[0]) {
      assert (a + [c] + b)[1..] == a[1..] + [c] + b;
      WordRunStopsAtSeparator(a[1..], c, b);
    }
  }

  /** A separator splits the tokens: tokenizing around it is tokenizing each
      side. Together with `SingleWordTokens` this says the tokens are exactly
      the maximal word runs. */
  lemma {:induction false} TokenizeSplit(a: string, c: char, b: string)
    requires !IsWordRune(c)
    ensures TokenizeWords(a + [c] + b) == TokenizeWords(a) + TokenizeWords(b)
    decreases |a|
  {
    var s := a + [c] + b;
    if a == [] {
      assert s[1..] == b;
    } else if !IsWordRune(a[0]) {
      assert s[1..] == a[1..] + [c] + b;
      TokenizeSplit(a[1..], c, b);
    } else {
      WordRunStopsAtSeparator(a, c, b);
      var n := WordRunLength(a);
      assert s[..n] == a[..n];
      assert s[n..] == a[n..] + [c] + b;
      TokenizeSplit(a[n..], c, b);
    }
  }

  /** A word on its own is a single token. */
  lemma SingleWordTokens(t: string)
    requires IsWord(t)
    ensures TokenizeWords(t) == [t]
  {
    WordRunAll(t);
    assert t[..|t|] == t;
  }

  lemma {:induction false} WordRunAll(t: string)
    requires forall j | 0 <= j < |t| :: IsWordRune(t[j])
    ensures WordRunLength(t) == |t|
    decreases |t|
  {
    if t != [] {
      WordRunAll(t[1..]);
    }
  }

  /** Words joined by single spaces. */
  function JoinWords(ts: seq<string>): string
    decreases |ts|
  {
    if ts == [] then []
    else if |ts| == 1 then ts[0]
    else ts[0] + " " + JoinWords(ts[1..])
  }

  /** Tokenizing words joined by spaces gives the words back. */
  lemma {:induction false} TokenizeJoinWords(ts: seq<string>)
    requires forall k | 0 <= k < |ts| :: IsWord(ts[k])
    ensures TokenizeWords(JoinWords(ts)) == ts
    decreases |ts|
  {
    if |ts| == 1 {
      SingleWordTokens(ts[0]);
    } else if |ts| > 1 {
      TokenizeSplit(ts[0], ' ', JoinWords(ts[1..]));
      SingleWordTokens(ts[0]);
      TokenizeJoinWords(ts[1..]);
    }
  }

  /** Every token occurs in the text it was cut from. */
  lemma {:induction false} TokensOccur(s: string)
    ensures forall k | 0 <= k < |TokenizeWords(s)| :: Contains(s, TokenizeWords(s)[k])
    decreases |s|
  {
    var tokens := TokenizeWords(s);
    if s == [] {
    } else if !IsWordRune(s[0]) {
      TokensOccur(s[1..]);
      forall k | 0 <= k < |tokens| ensures Contains(s, tokens[k]) {
        assert tokens[k] == TokenizeWords(s[1..])[k];
        ContainsShift(s, 1, tokens[k]);
      }
    } else {
      var n := WordRunLength(s);
      TokensOccur(s[n..]);
      forall k | 0 <= k < |tokens| ensures Contains(s, tokens[k]) {
        if k == 0 {
          ContainsAt(s, s[..n], 0);
        } else {
          assert tokens[k] == TokenizeWords(s[n..])[k - 1];
          ContainsShift(s, n, tokens[k]);
        }
      }
    }
  }

  /** An occurrence in a suffix is an occurrence. */
  lemma {:induction false} ContainsShift(s: string, n: nat, p: string)
    requires n <= |s| && Contains(s[n..], p)
    ensures Contains(s, p)
    decreases n
  {
    if n > 0 {
      assert s[1..][n - 1..] == s[n..];
      ContainsShift(s[1..], n - 1, p);
    }
  }

  // ---------------------------------------------------------------------
  // stripStringLiterals
  // ---------------------------------------------------------------------

  /** Where the scanner is: in code, inside a double-quoted literal (just
      after a backslash or not), or inside a raw literal. */
  datatype LexState = Code | InDouble(escape: bool) | InRaw

  /** The state reached and the text written so far. */
  datatype Lexed = Lexed(state: LexState, out: string)

  /** One rune of the state machine. */
  function Step(st: LexState, r: char): (l: Lexed)
    ensures |l.out| <= 1 && '"' !in l.out && '`' !in l.out
  {
    match st
    case InRaw =>
      if r == '`' then Lexed(Code, " ") else Lexed(InRaw, "")
    case InDouble(escape) =>
      if escape then Lexed(InDouble(false), "")
      else if r == '\\' then Lexed(InDouble(true), "")
      else if r == '"' then Lexed(Code, " ")
      else Lexed(InDouble(false), "")
    case Code =>
      if r == '"' then Lexed(InDouble(false), " ")
      else if r == '`' then Lexed(InRaw, " ")
      else Lexed(Code, [r])
  }

  /** The state machine run over `s` from `st`. */
  function Lex(st: LexState, s: string): (l: Lexed)
    decreases |s|
  {
    if s == [] then Lexed(st, [])
    else
      var h := Step(st, s[0]);
      var t := Lex(h.state, s[1..]);
      Lexed(t.state, h.out + t.out)
  }

  /** The text stripStringLiterals returns. */
  function Stripped(expr: string): string {
    Lex(Code, expr).out
  }

  /** Running over a concatenation is running over each part in turn. */
  lemma {:induction false} LexAppend(st: LexState, a: string, b: string)
    ensures Lex(st, a + b) ==
      Lexed(Lex(Lex(st, a).state, b).state, Lex(st, a).out + Lex(Lex(st, a).state, b).out)
    decreases |a|
  {
    if a == [] {
      assert a + b == b;
    } else {
      assert (a + b)[0] == a[0] && (a + b)[1..] == a[1..] + b;
      LexAppend(Step(st, a[0]).state, a[1..], b);
    }
  }

  function StateOf(inDouble: bool, inRaw: bool, escape: bool): LexState {
    if inRaw then InRaw else if inDouble then InDouble(escape) else Code
  }

  /** stripStringLiterals: the three flags of the source and a builder. */
  method StripStringLiterals(expr: string) returns (b: string)
    ensures b == Stripped(expr)
  {
    b := [];
    var inDouble, inRaw, escape := false, false, false;
    var i := 0;
    while i < |expr|
      invariant 0 <= i <= |expr|
      invariant !(inDouble && inRaw) && (escape ==> inDouble)
      invariant Lex(Code, expr[..i]) == Lexed(StateOf(inDouble, inRaw, escape), b)
    {
      var r := expr[i];
      LexAppend(Code, expr[..i], [r]);
      assert expr[..i + 1] == expr[..i] + [r];
      if inRaw {
        if r == '`' {
          inRaw := false;
          b := b + [' '];
        }
      } else if inDouble {
        if escape {
          escape := false;
        } else if r == '\\' {
          escape := true;
        } else if r == '"' {
          inDouble := false;
          b := b + [' '];
        }
      } else if r == '"' {
        inDouble := true;
        b := b + [' '];
      } else if r == '`' {
        inRaw := true;
        b := b + [' '];
      } else {
        b := b + [r];
      }
      i := i + 1;
    }
    assert expr[..i] == expr;
  }

  /** At most one rune out per rune in, and never a quote or a backtick. */
  lemma {:induction false} LexOutput(st: LexState, s: string)
    ensures |Lex(st, s).out| <= |s|
    ensures '"' !in Lex(st, s).out && '`' !in Lex(st, s).out
    decreases |s|
  {
    if s != [] {
      LexOutput(Step(st, s[0]).state, s[1..]);
    }
  }

  /** Text without quotes or backticks comes out unchanged. */
  lemma {:induction false} LexPlain(s: string)
    requires '"' !in s && '`' !in s
    ensures Lex(Code, s) == Lexed(Code, s)
    decreases |s|
  {
    if s != [] {
      assert s == [s[0]] + s[1..];
      LexPlain(s[1..]);
    }
  }

  /** A literal that is never closed swallows the rest of the input. */
  lemma {:induction false} LexUnterminated(st: LexState, s: string)
    requires (st.InRaw? && '`' !in s) || (st.InDouble? && '"' !in s)
    ensures Lex(st, s).out == [] && Lex(st, s).state != Code
    decreases |s|
  {
    if s != [] {
      assert s[0] != '`' && s[0] != '"' ==> true;
      LexUnterminated(Step(st, s[0]).state, s[1..]);
    }
  }

  /** Inside a double-quoted literal a backslash and the rune after it are
      dropped, so `\"` does not close the literal. */
  lemma EscapeKeepsLiteralOpen(r: char)
    ensures Lex(InDouble(false), ['\\', r]) == Lexed(InDouble(false), [])
  {
    assert ['\\', r][1..] == [r];
    assert [r][1..] == [];
    assert Lex(InDouble(true), [r]) == Lexed(InDouble(false), []);
  }

  /** A closed double-quoted literal without backslashes becomes two spaces. */
  lemma ClosedLiteral(pre: string, body: string, post: string)
    requires Lex(Code, pre).state == Code
    requires '"' !in body && '\\' !in body
    ensures Stripped(pre + ['"'] + body + ['"'] + post) == Stripped(pre) + "  " + Stripped(post)
  {
    var close := ['"'] + post;
    var tail := Lex(Code, post);
    assert Lex(InDouble(false), close) == Lexed(tail.state, " " + tail.out) by {
      assert close[0] == '"' && close[1..] == post;
    }
    assert Lex(InDouble(false), body + close) == Lexed(tail.state, " " + tail.out) by {
      DoubleBody(body);
      LexAppend(InDouble(false), body, close);
    }
    var lit := ['"'] + (body + close);
    assert Lex(Code, lit) == Lexed(tail.state, "  " + tail.out) by {
      assert lit[0] == '"' && lit[1..] == body + close;
    }
    LexAppend(Code, pre, lit);
    assert pre + ['"'] + body + ['"'] + post == pre + lit;
  }

  lemma {:induction false} DoubleBody(body: string)
    requires '"' !in body && '\\' !in body
    ensures Lex(InDouble(false), body) == Lexed(InDouble(false), [])
    decreases |body|
  {
    if body != [] {
      DoubleBody(body[1..]);
    }
  }

  /** A closed raw literal becomes two spaces, backslashes and all. */
  lemma ClosedRawLiteral(pre: string, body: string, post: string)
    requires Lex(Code, pre).state == Code
    requires '`' !in body
    ensures Stripped(pre + ['`'] + body + ['`'] + post) == Stripped(pre) + "  " + Stripped(post)
  {
    var close := ['`'] + post;
    var tail := Lex(Code, post);
    assert Lex(InRaw, close) == Lexed(tail.state, " " + tail.out) by {
      assert close[0] == '`' && close[1..] == post;
    }
    assert Lex(InRaw, body + close) == Lexed(tail.state, " " + tail.out) by {
      RawBody(body);
      LexAppend(InRaw, body, close);
    }
    var lit := ['`'] + (body + close);
    assert Lex(Code, lit) == Lexed(tail.state, "  " + tail.out) by {
      assert lit[0] == '`' && lit[1..] == body + close;
    }
    LexAppend(Code, pre, lit);
    assert pre + ['`'] + body + ['`'] + post == pre + lit;
  }

  lemma {:induction false} RawBody(body: string)
    requires '`' !in body
    ensures Lex(InRaw, body) == Lexed(InRaw, [])
    decreases |body|
  {
    if body != [] {
      RawBody(body[1..]);
    }
  }

  // ---------------------------------------------------------------------
  // CheckSensitive
  // ---------------------------------------------------------------------

  /** Status words after which a keyword token is not reported. */
  const SafeNext: set<string> := {
    "ok", "success", "successful", "succeeded", "failed", "failure", "error",
    "invalid", "missing", "present", "enabled", "disabled", "created",
    "generated", "refreshed", "expired", "validated", "completed", "revoked",
    "rotated", "updated", "authorized", "unauthorized"
  }

  /** `i` is the first position of `kw` among the tokens. */
  ghost predicate FirstToken(tokens: seq<string>, kw: string, i: int) {
    0 <= i < |tokens| && tokens[i] == kw && forall j | 0 <= j < i :: tokens[j] != kw
  }

  /** The token after position `i` is a status word. */
  predicate SafeAfter(tokens: seq<string>, i: int) {
    0 <= i && i + 1 < |tokens| && tokens[i + 1] in SafeNext
  }

  /** The message part of the keyword loop: the first token equal to the
      keyword decides; a following status word ends the search for it. */
  function MessageHit(tokens: seq<string>, kw: string): bool
    decreases |tokens|
  {
    if tokens == [] then false
    else if tokens[0] != kw then MessageHit(tokens[1..], kw)
    else !SafeAfter(tokens, 0)
  }

  /** Only the first occurrence of the keyword is judged. */
  lemma {:induction false} MessageHitFirstToken(tokens: seq<string>, kw: string)
    ensures MessageHit(tokens, kw) <==> exists i :: FirstToken(tokens, kw, i) && !SafeAfter(tokens, i)
    decreases |tokens|
  {
    if tokens != [] && tokens[0] != kw {
      var rest := tokens[1..];
      MessageHitFirstToken(rest, kw);
      if MessageHit(tokens, kw) {
        var i :| FirstToken(rest, kw, i) && !SafeAfter(rest, i);
        assert FirstToken(tokens, kw, i + 1) && !SafeAfter(tokens, i + 1);
      }
      if exists i :: FirstToken(tokens, kw, i) && !SafeAfter(tokens, i) {
        var i :| FirstToken(tokens, kw, i) && !SafeAfter(tokens, i);
        assert i != 0;
        assert FirstToken(rest, kw, i - 1) && !SafeAfter(rest, i - 1);
      }
    } else if tokens != [] {
      if exists i :: FirstToken(tokens, kw, i) && !SafeAfter(tokens, i) {
        var i :| FirstToken(tokens, kw, i) && !SafeAfter(tokens, i);
        assert i == 0;
      }
      assert FirstToken(tokens, kw, 0);
    }
  }

  /** The expression after string contents are removed, without `_` or spaces. */
  function Normalized(lowerExpr: string): string {
    ReplaceAll(ReplaceAll(Stripped(lowerExpr), "_", ""), " ", "")
  }

  /** The expression part of the keyword loop: a substring test on the
      normalized expression, with `_` removed from the keyword. */
  predicate ExprHit(lowerExpr: string, kw: string) {
    Contains(Normalized(lowerExpr), ReplaceAll(kw, "_", ""))
  }

  /** One iteration of the keyword loop on a lower-cased keyword: the message
      check, then the expression check. */
  function KeywordHit(tokens: seq<string>, lowerExpr: string, kw: string): (v: Option<Violation>)
    ensures v.Some? <==> MessageHit(tokens, kw) || ExprHit(lowerExpr, kw)
    ensures MessageHit(tokens, kw) ==> v == Some(SensitiveInMessage(kw))
    ensures !MessageHit(tokens, kw) && ExprHit(lowerExpr, kw) ==> v == Some(SensitiveInExpression(kw))
  {
    if MessageHit(tokens, kw) then Some(SensitiveInMessage(kw))
    else if ExprHit(lowerExpr, kw) then Some(SensitiveInExpression(kw))
    else None
  }

  /** The keyword loop: keywords in list order, first hit returned. */
  function ScanKeywords(u: Tables, tokens: seq<string>, lowerExpr: string, keywords: seq<string>): (v: Option<Violation>)
    ensures v.None? <==> forall k | 0 <= k < |keywords| :: KeywordHit(tokens, lowerExpr, Lower(u, keywords[k])).None?
    ensures v.Some? ==> exists k | 0 <= k < |keywords| ::
              v == KeywordHit(tokens, lowerExpr, Lower(u, keywords[k])) &&
              forall j | 0 <= j < k :: KeywordHit(tokens, lowerExpr, Lower(u, keywords[j])).None?
    decreases |keywords|
  {
    if keywords == [] then None
    else
      var v := KeywordHit(tokens, lowerExpr, Lower(u, keywords[0]));
      if v.Some? then v
      else
        var w := ScanKeywords(u, tokens, lowerExpr, keywords[1..]);
        ScanKeywordsStep(u, tokens, lowerExpr, keywords, w);
        w
  }

  /** A miss on the first keyword: the scan of the rest answers for the
      whole list. */
  lemma ScanKeywordsStep(u: Tables, tokens: seq<string>, lowerExpr: string, keywords: seq<string>, w: Option<Violation>)
    requires keywords != [] && KeywordHit(tokens, lowerExpr, Lower(u, keywords[0])).None?
    requires w.None? <==> forall k | 0 <= k < |keywords[1..]| ::
               KeywordHit(tokens, lowerExpr, Lower(u, keywords[1..][k])).None?
    requires w.Some? ==> exists k | 0 <= k < |keywords[1..]| ::
               w == KeywordHit(tokens, lowerExpr, Lower(u, keywords[1..][k])) &&
               forall j | 0 <= j < k :: KeywordHit(tokens, lowerExpr, Lower(u, keywords[1..][j])).None?
    ensures w.None? <==> forall k | 0 <= k < |keywords| ::
              KeywordHit(tokens, lowerExpr, Lower(u, keywords[k])).None?
    ensures w.Some? ==> exists k | 0 <= k < |keywords| ::
              w == KeywordHit(tokens, lowerExpr, Lower(u, keywords[k])) &&
              forall j | 0 <= j < k :: KeywordHit(tokens, lowerExpr, Lower(u, keywords[j])).None?
  {
    var rest := keywords[1..];
    assert forall k | 0 <= k < |rest| :: rest[k] == keywords[k + 1];
    if w.Some? {
      var k :| 0 <= k < |rest| &&
               w == KeywordHit(tokens, lowerExpr, Lower(u, rest[k])) &&
               forall j | 0 <= j < k :: KeywordHit(tokens, lowerExpr, Lower(u, rest[j])).None?;
      assert forall j | 0 <= j < k + 1 :: KeywordHit(tokens, lowerExpr, Lower(u, keywords[j])).None? by {
        forall j | 0 <= j < k + 1
          ensures KeywordHit(tokens, lowerExpr, Lower(u, keywords[j])).None?
        {
          if j > 0 {
            assert keywords[j] == rest[j - 1];
          }
        }
      }
      assert w == KeywordHit(tokens, lowerExpr, Lower(u, keywords[k + 1]));
    } else {
      forall k | 0 <= k < |keywords|
        ensures KeywordHit(tokens, lowerExpr, Lower(u, keywords[k])).None?
      {
        if k > 0 {
          assert keywords[k] == rest[k - 1];
        }
      }
    }
  }

  /** CheckSensitive: lower-case both inputs, tokenize the message, then try
      the keywords in order. The result is the first keyword's hit, naming
      the lower-cased keyword and the input that matched; None when no
      keyword hits. */
  function CheckSensitive(u: Tables, msg: string, fullExpr: string, keywords: seq<string>): (v: Option<Violation>)
    ensures v.None? <==> forall k | 0 <= k < |keywords| ::
              KeywordHit(TokenizeWords(Lower(u, msg)), Lower(u, fullExpr), Lower(u, keywords[k])).None?
    ensures v.Some? ==> exists k | 0 <= k < |keywords| ::
              v == KeywordHit(TokenizeWords(Lower(u, msg)), Lower(u, fullExpr), Lower(u, keywords[k])) &&
              forall j | 0 <= j < k ::
                KeywordHit(TokenizeWords(Lower(u, msg)), Lower(u, fullExpr), Lower(u, keywords[j])).None?
    ensures v.Some? ==> v.value.SensitiveInMessage? || v.value.SensitiveInExpression?
  {
    ScanKeywords(u, TokenizeWords(Lower(u, msg)), Lower(u, fullExpr), keywords)
  }

  /** A keyword list in which an earlier keyword hits decides the result,
      whatever the later keywords are. */
  lemma FirstKeywordWins(u: Tables, msg: string, fullExpr: string, keywords: seq<string>, k: int)
    requires 0 <= k < |keywords|
    requires KeywordHit(TokenizeWords(Lower(u, msg)), Lower(u, fullExpr), Lower(u, keywords[k])).Some?
    requires forall j | 0 <= j < k ::
               KeywordHit(TokenizeWords(Lower(u, msg)), Lower(u, fullExpr), Lower(u, keywords[j])).None?
    ensures CheckSensitive(u, msg, fullExpr, keywords) ==
            KeywordHit(TokenizeWords(Lower(u, msg)), Lower(u, fullExpr), Lower(u, keywords[k]))
  {
    var tokens := TokenizeWords(Lower(u, msg));
    var v := CheckSensitive(u, msg, fullExpr, keywords);
    var i :| 0 <= i < |keywords| && v == KeywordHit(tokens, Lower(u, fullExpr), Lower(u, keywords[i])) &&
             forall j | 0 <= j < i :: KeywordHit(tokens, Lower(u, fullExpr), Lower(u, keywords[j])).None?;
    assert !(i < k) && !(k < i);
  }

  /** With an empty message and an empty expression, the only keyword that
      hits is one with nothing left once underscores are removed, and such a
      keyword always hits the expression check. */
  lemma EmptyInputs(u: Tables, keywords: seq<string>)
    ensures CheckSensitive(u, "", "", keywords).None? <==>
            forall k | 0 <= k < |keywords| :: ReplaceAll(Lower(u, keywords[k]), "_", "") != []
    ensures forall k | 0 <= k < |keywords| ::
              KeywordHit([], [], Lower(u, keywords[k])).Some? ==>
              KeywordHit([], [], Lower(u, keywords[k])) == Some(SensitiveInExpression(Lower(u, keywords[k])))
  {
    assert Lower(u, "") == [];
    assert TokenizeWords([]) == [];
    assert Normalized([]) == [];
    forall p: string ensures Contains([], p) <==> p == [] {
    }
  }

  /** A keyword that is no token is never a message hit. */
  lemma {:induction false} AbsentTokenNoHit(tokens: seq<string>, kw: string)
    requires kw !in tokens
    ensures !MessageHit(tokens, kw)
    decreases |tokens|
  {
    if tokens != [] {
      AbsentTokenNoHit(tokens[1..], kw);
    }
  }

  /** Words joined by spaces hold only word runes and spaces. */
  lemma {:induction false} JoinWordsRunes(ws: seq<string>)
    requires forall k | 0 <= k < |ws| :: IsWord(ws[k])
    ensures forall j | 0 <= j < |JoinWords(ws)| :: IsWordRune(JoinWords(ws)[j]) || JoinWords(ws)[j] == ' '
    decreases |ws|
  {
    if |ws| > 1 {
      JoinWordsRunes(ws[1..]);
      var rest := JoinWords(ws[1..]);
      assert JoinWords(ws) == ws[0] + (" " + rest);
      forall j | 0 <= j < |JoinWords(ws)|
        ensures IsWordRune(JoinWords(ws)[j]) || JoinWords(ws)[j] == ' '
      {
        if j < |ws[0]| {
          assert JoinWords(ws)[j] == ws[0][j];
        } else if j > |ws[0]| {
          assert JoinWords(ws)[j] == rest[j - |ws[0]| - 1];
        }
      }
    }
  }

  /** A lone closed literal without quotes or backslashes inside leaves
      nothing once stripped and normalized. */
  lemma LoneLiteralNormalized(body: string)
    requires '"' !in body && '\\' !in body
    ensures Normalized(['"'] + body + ['"']) == []
  {
    ClosedLiteral([], body, []);
    assert [] + ['"'] + body + ['"'] + [] == ['"'] + body + ['"'];
    assert Stripped(['"'] + body + ['"']) == "  ";
    ReplaceAllAbsent("  ", "_", "");
    ReplaceAllAtStart(" ", " ", "");
    ReplaceAllAtStart("", " ", "");
  }

  /** Text of word runes and spaces has no quote or backslash, and
      lower-casing leaves it, and the literal quoting it, as they are. */
  lemma WordTextFacts(u: Tables, s: string)
    requires Valid(u)
    requires forall j | 0 <= j < |s| :: IsWordRune(s[j]) || s[j] == ' '
    ensures '"' !in s && '\\' !in s
    ensures Lower(u, s) == s
    ensures Lower(u, ['"'] + s + ['"']) == ['"'] + s + ['"']
  {
    LowerOfLowercaseAscii(u, s);
    LowerOfLowercaseAscii(u, ['"']);
    LowerAppend(u, ['"'], s);
    LowerAppend(u, ['"'] + s, ['"']);
  }

  /** An expression that normalizes to nothing is hit by no keyword that
      keeps a rune once its underscores are removed. */
  lemma NoExprHitOnEmpty(lowerExpr: string, keywords: seq<string>)
    requires Normalized(lowerExpr) == []
    requires forall k | 0 <= k < |keywords| :: keywords[k] != [] && keywords[k][0] != '_'
    ensures forall k | 0 <= k < |keywords| :: !ExprHit(lowerExpr, keywords[k])
  {
    forall k | 0 <= k < |keywords|
      ensures !ExprHit(lowerExpr, keywords[k])
    {
      var kw := keywords[k];
      ReplaceAllDeletes(kw, '_');
      assert kw[0] in ReplaceAll(kw, "_", "");
    }
  }

  /** A keyword the rule leaves as it is when lower-casing and that keeps a
      rune once its underscores are removed. */
  predicate PlainKeyword(u: Tables, kw: string) {
    Lower(u, kw) == kw && kw != [] && kw[0] != '_'
  }

  /** Every default keyword is plain. */
  lemma DefaultKeywordsPlain(u: Tables)
    requires Valid(u)
    ensures forall k | 0 <= k < |Config.DefaultSensitiveKeywords| :: PlainKeyword(u, Config.DefaultSensitiveKeywords[k])
  {
    Config.DefaultKeywordsLowercase(u);
  }

  /** A message of words, logged as the one literal holding it, is reported
      by plain keywords exactly when some keyword is a message hit on its
      words: the literal's contents never reach the expression check. */
  lemma PlainLiteralMessage(u: Tables, ws: seq<string>, keywords: seq<string>)
    requires Valid(u)
    requires forall k | 0 <= k < |ws| :: IsWord(ws[k])
    requires forall k | 0 <= k < |keywords| :: PlainKeyword(u, keywords[k])
    ensures CheckSensitive(u, JoinWords(ws), ['"'] + JoinWords(ws) + ['"'], keywords).None? <==>
            forall k | 0 <= k < |keywords| :: !MessageHit(ws, keywords[k])
  {
    var msg := JoinWords(ws);
    var lit := ['"'] + msg + ['"'];
    JoinWordsRunes(ws);
    WordTextFacts(u, msg);
    TokenizeJoinWords(ws);
    LoneLiteralNormalized(msg);
    NoExprHitOnEmpty(lit, keywords);
    forall k | 0 <= k < |keywords|
      ensures KeywordHit(TokenizeWords(Lower(u, msg)), Lower(u, lit), Lower(u, keywords[k])).None? <==>
              !MessageHit(ws, keywords[k])
    {
      assert Lower(u, keywords[k]) == keywords[k];
    }
  }

  /** The words of "user authenticated successfully". */
  lemma AuthText()
    ensures JoinWords(["user", "authenticated", "successfully"]) == "user authenticated successfully"
  {
    var ws := ["user", "authenticated", "successfully"];
    assert JoinWords(ws[2..]) == "successfully";
    assert JoinWords(ws[1..]) == "authenticated" + " " + "successfully";
  }

  /** The literal of "user authenticated successfully". */
  lemma AuthLiteral()
    ensures ['"'] + "user authenticated successfully" + ['"'] == "\"user authenticated successfully\""
  {
  }

  /** The words of "api request completed". */
  lemma ApiText()
    ensures JoinWords(["api", "request", "completed"]) == "api request completed"
  {
    var ws := ["api", "request", "completed"];
    assert JoinWords(ws[2..]) == "completed";
    assert JoinWords(ws[1..]) == "request" + " " + "completed";
  }

  /** The literal of "api request completed". */
  lemma ApiLiteral()
    ensures ['"'] + "api request completed" + ['"'] == "\"api request completed\""
  {
  }

  /** The words of "token validated" and its literal. */
  lemma TokenText()
    ensures JoinWords(["token", "validated"]) == "token validated"
    ensures ['"'] + "token validated" + ['"'] == "\"token validated\""
  {
  }

  /** The clean case "user authenticated successfully" of the keyword test:
      `auth` is inside a word, never a word of its own, and the literal's
      contents are not looked at. */
  lemma AuthIsNotAToken(u: Tables)
    requires Valid(u)
    ensures CheckSensitive(u, "user authenticated successfully", "\"user authenticated successfully\"",
                           Config.DefaultSensitiveKeywords).None?
  {
    var ws := ["user", "authenticated", "successfully"];
    AuthText();
    AuthLiteral();
    forall k | 0 <= k < |Config.DefaultSensitiveKeywords| ensures !MessageHit(ws, Config.DefaultSensitiveKeywords[k]) {
      AbsentTokenNoHit(ws, Config.DefaultSensitiveKeywords[k]);
    }
    DefaultKeywordsPlain(u);
    PlainLiteralMessage(u, ws, Config.DefaultSensitiveKeywords);
  }

  /** The clean case "api request completed": `api` alone is no keyword. */
  lemma ApiRequestExample(u: Tables)
    requires Valid(u)
    ensures CheckSensitive(u, "api request completed", "\"api request completed\"",
                           Config.DefaultSensitiveKeywords).None?
  {
    var ws := ["api", "request", "completed"];
    ApiText();
    ApiLiteral();
    forall k | 0 <= k < |Config.DefaultSensitiveKeywords| ensures !MessageHit(ws, Config.DefaultSensitiveKeywords[k]) {
      AbsentTokenNoHit(ws, Config.DefaultSensitiveKeywords[k]);
    }
    DefaultKeywordsPlain(u);
    PlainLiteralMessage(u, ws, Config.DefaultSensitiveKeywords);
  }

  /** The clean case "token validated": `token` is followed by a status
      word, so it is not reported. */
  lemma TokenValidatedExample(u: Tables)
    requires Valid(u)
    ensures CheckSensitive(u, "token validated", "\"token validated\"", Config.DefaultSensitiveKeywords).None?
  {
    var ws := ["token", "validated"];
    TokenText();
    forall k | 0 <= k < |Config.DefaultSensitiveKeywords| ensures !MessageHit(ws, Config.DefaultSensitiveKeywords[k]) {
      if Config.DefaultSensitiveKeywords[k] != "token" {
        AbsentTokenNoHit(ws, Config.DefaultSensitiveKeywords[k]);
      }
    }
    DefaultKeywordsPlain(u);
    PlainLiteralMessage(u, ws, Config.DefaultSensitiveKeywords);
  }

  /** Leading separators contribute no token. */
  lemma {:induction false} SkipSeparators(sep: string, rest: string)
    requires forall j | 0 <= j < |sep| :: !IsWordRune(sep[j])
    ensures TokenizeWords(sep + rest) == TokenizeWords(rest)
    decreases |sep|
  {
    if sep != [] {
      assert (sep + rest)[0] == sep[0] && (sep + rest)[1..] == sep[1..] + rest;
      assert forall j | 0 <= j < |sep[1..]| :: sep[1..][j] == sep[j + 1];
      SkipSeparators(sep[1..], rest);
    } else {
      assert sep + rest == rest;
    }
  }

  /** A word, then separators: the word is the first token and the rest is
      tokenized on its own. */
  lemma WordThen(w: string, sep: string, rest: string)
    requires IsWord(w) && sep != []
    requires forall j | 0 <= j < |sep| :: !IsWordRune(sep[j])
    ensures TokenizeWords(w + sep + rest) == [w] + TokenizeWords(rest)
  {
    assert w + sep + rest == w + [sep[0]] + (sep[1..] + rest);
    TokenizeSplit(w, sep[0], sep[1..] + rest);
    SkipSeparators(sep[1..], rest);
    SingleWordTokens(w);
  }

  /** Two words around separators are the two tokens. */
  lemma TwoWords(a: string, sep: string, b: string)
    requires IsWord(a) && IsWord(b) && sep != []
    requires forall j | 0 <= j < |sep| :: !IsWordRune(sep[j])
    ensures TokenizeWords(a + sep + b) == [a, b]
  {
    WordThen(a, sep, b);
    SingleWordTokens(b);
  }

  /** Three words around separators are the three tokens. */
  lemma ThreeWords(a: string, sep: string, b: string, sep2: string, c: string)
    requires IsWord(a) && IsWord(b) && IsWord(c) && sep != [] && sep2 != []
    requires forall j | 0 <= j < |sep| :: !IsWordRune(sep[j])
    requires forall j | 0 <= j < |sep2| :: !IsWordRune(sep2[j])
    ensures TokenizeWords(a + sep + (b + sep2 + c)) == [a, b, c]
  {
    WordThen(a, sep, b + sep2 + c);
    TwoWords(b, sep2, c);
  }

  /** "user password: secret123" and `password` have no capitals; `password` is default keyword 0 and
      a message hit on the tokens ["user", "password", "secret123"]. */
  lemma PasswordFacts()
    ensures NoCapitals("user password: secret123") && NoCapitals("password")
    ensures Config.DefaultSensitiveKeywords[0] == "password"
    ensures MessageHit(["user", "password", "secret123"], "password")
  {
  }

  /** "user password: secret123" is the words `user`, `password`, `secret123`. */
  lemma PasswordColonWords()
    ensures TokenizeWords("user password: secret123") == ["user", "password", "secret123"]
  {
    var m := "user" + " " + ("password" + ": " + "secret123");
    assert m == "user password: secret123";
    ThreeWords("user", " ", "password", ": ", "secret123");
  }

  /** "token: abc123" and `token` have no capitals; `token` is default keyword 3 and
      a message hit on the tokens ["token", "abc123"]. */
  lemma TokenFacts()
    ensures NoCapitals("token: abc123") && NoCapitals("token")
    ensures Config.DefaultSensitiveKeywords[3] == "token"
    ensures MessageHit(["token", "abc123"], "token")
  {
  }

  /** "token: abc123" is the words `token`, `abc123`. */
  lemma TokenColonWords()
    ensures TokenizeWords("token: abc123") == ["token", "abc123"]
  {
    var m := "token" + ": " + "abc123";
    assert m == "token: abc123";
    TwoWords("token", ": ", "abc123");
  }

  /** "api_key=xyz" and `api_key` have no capitals; `api_key` is default keyword 4 and
      a message hit on the tokens ["api_key", "xyz"]. */
  lemma ApiKeyFacts()
    ensures NoCapitals("api_key=xyz") && NoCapitals("api_key")
    ensures Config.DefaultSensitiveKeywords[4] == "api_key"
    ensures MessageHit(["api_key", "xyz"], "api_key")
  {
  }

  /** "api_key=xyz" is the words `api_key`, `xyz`: the underscore joins. */
  lemma ApiKeyWords()
    ensures TokenizeWords("api_key=xyz") == ["api_key", "xyz"]
  {
    var m := "api_key" + "=" + "xyz";
    assert m == "api_key=xyz";
    TwoWords("api_key", "=", "xyz");
  }

  /** A keyword, unchanged by lower-casing, that is a message hit on the
      message's tokens makes the rule report, whatever the expression and
      whatever keywords come before it. */
  lemma WordReported(u: Tables, msg: string, fullExpr: string, keywords: seq<string>, k: int)
    requires 0 <= k < |keywords| && Lower(u, keywords[k]) == keywords[k]
    requires MessageHit(TokenizeWords(Lower(u, msg)), keywords[k])
    ensures CheckSensitive(u, msg, fullExpr, keywords).Some?
  {
    assert KeywordHit(TokenizeWords(Lower(u, msg)), Lower(u, fullExpr), Lower(u, keywords[k])).Some?;
  }

  /** ASCII text without capitals, which lower-casing leaves alone. */
  predicate NoCapitals(s: string) {
    forall j | 0 <= j < |s| :: IsAscii(s[j]) && !IsAsciiUpper(s[j])
  }

  /** The same for a message and keyword without capitals, stated on the
      message's own tokens. */
  lemma PlainWordReported(u: Tables, msg: string, fullExpr: string, keywords: seq<string>, k: int)
    requires Valid(u)
    requires 0 <= k < |keywords| && NoCapitals(msg) && NoCapitals(keywords[k])
    requires MessageHit(TokenizeWords(msg), keywords[k])
    ensures CheckSensitive(u, msg, fullExpr, keywords).Some?
  {
    LowerOfLowercaseAscii(u, msg);
    LowerOfLowercaseAscii(u, keywords[k]);
    WordReported(u, msg, fullExpr, keywords, k);
  }

  /** "user password: secret123" is reported with the default keywords,
      whatever the expression: `password` is a word of the message and is
      followed by no status word. */
  lemma PasswordInMessage(u: Tables, fullExpr: string)
    requires Valid(u)
    ensures CheckSensitive(u, "user password: secret123", fullExpr, Config.DefaultSensitiveKeywords).Some?
  {
    PasswordColonWords();
    PasswordFacts();
    PlainWordReported(u, "user password: secret123", fullExpr, Config.DefaultSensitiveKeywords, 0);
  }

  /** "token: abc123" is reported with the default keywords, whatever the
      expression: the colon separates `token` from what follows. */
  lemma TokenInMessage(u: Tables, fullExpr: string)
    requires Valid(u)
    ensures CheckSensitive(u, "token: abc123", fullExpr, Config.DefaultSensitiveKeywords).Some?
  {
    TokenColonWords();
    TokenFacts();
    PlainWordReported(u, "token: abc123", fullExpr, Config.DefaultSensitiveKeywords, 3);
  }

  /** "api_key=xyz" is reported with the default keywords, whatever the
      expression: the underscore keeps `api_key` one word. */
  lemma ApiKeyInMessage(u: Tables, fullExpr: string)
    requires Valid(u)
    ensures CheckSensitive(u, "api_key=xyz", fullExpr, Config.DefaultSensitiveKeywords).Some?
  {
    ApiKeyWords();
    ApiKeyFacts();
    PlainWordReported(u, "api_key=xyz", fullExpr, Config.DefaultSensitiveKeywords, 4);
  }

  /** An identifier in code position whose text, once `_` is removed,
      contains the keyword (without its underscores) fires the expression
      check, whatever surrounds it: this is how `+ apiKey`, `+ jwtToken` and
      `+ userPassword` are caught once lower-cased. */
  lemma IdentifierFires(pre: string, ident: string, post: string, kw: string)
    requires Lex(Code, pre).state == Code
    requires forall k | 0 <= k < |ident| :: ident[k] != '"' && ident[k] != '`' && ident[k] != ' '
    requires Contains(ReplaceAll(ident, "_", ""), ReplaceAll(kw, "_", ""))
    ensures ExprHit(pre + ident + post, kw)
  {
    var p := ReplaceAll(kw, "_", "");
    LexPlain(ident);
    LexAppend(Code, pre, ident);
    LexAppend(Code, pre + ident, post);
    var sp := Stripped(pre);
    var sq := Lex(Code, post).out;
    assert Stripped(pre + ident + post) == sp + ident + sq;
    ReplaceAllRuneAppend(sp + ident, sq, '_', "");
    ReplaceAllRuneAppend(sp, ident, '_', "");
    var m := ReplaceAll(ident, "_", "");
    var a := ReplaceAll(sp, "_", "");
    var b := ReplaceAll(sq, "_", "");
    assert ReplaceAll(Stripped(pre + ident + post), "_", "") == a + m + b;
    ReplaceAllDeletes(ident, '_');
    assert ' ' !in m;
    ReplaceAllRuneAppend(a + m, b, ' ', "");
    ReplaceAllRuneAppend(a, m, ' ', "");
    ReplaceAllAbsent(m, " ", "");
    var a2 := ReplaceAll(a, " ", "");
    assert Normalized(pre + ident + post) == a2 + m + ReplaceAll(b, " ", "");
    ContainsInMiddle(a2, m, ReplaceAll(b, " ", ""), p);
  }

  /** Lower-casing changes no quote, backtick or backslash and makes none, so
      the lexer passes through the same states on the lowered text. */
  lemma {:induction false} LexLowerState(u: Tables, st: LexState, s: string)
    requires Valid(u) && LowersToLetters(u)
    ensures Lex(st, Lower(u, s)).state == Lex(st, s).state
    decreases |s|
  {
    if s != [] {
      var r := s[0];
      var l := Lower(u, s);
      assert l[0] == u.toLower(r) && l[1..] == Lower(u, s[1..]);
      LowerKeepsLexical(u, r);
      LexLowerState(u, Step(st, r).state, s[1..]);
    }
  }

  /** The runes the lexer reacts to are fixed by lower-casing, and no other
      rune lowers to one of them; nor to a space. */
  lemma LowerKeepsLexical(u: Tables, r: char)
    requires Valid(u) && LowersToLetters(u)
    ensures u.toLower(r) == '"' <==> r == '"'
    ensures u.toLower(r) == '`' <==> r == '`'
    ensures u.toLower(r) == '\\' <==> r == '\\'
    ensures u.toLower(r) == ' ' <==> r == ' '
  {
    if IsAscii(r) {
      assert u.toLower(r) == AsciiToLower(r);
    }
  }

  /** An occurrence in the middle part is an occurrence in the whole. */
  lemma ContainsInMiddle(a: string, m: string, b: string, p: string)
    requires Contains(m, p)
    ensures Contains(a + m + b, p)
  {
    ContainsOccurrence(m, p);
    var i :| 0 <= i <= |m| && HasPrefix(m[i..], p);
    assert m[i..][..|p|] == m[i..i + |p|];
    assert (a + m + b)[|a| + i..|a| + i + |p|] == m[i..i + |p|];
    ContainsAt(a + m + b, p, |a| + i);
  }
}
