/**
 * The message resolver of internal/analyzer/analyzer.go: the literal text of
 * the message argument, rebuilt from string literals and constants joined by
 * `+`, and the raw text of the whole argument that the sensitive rule scans.
 */
module Resolver {
  import opened Wrappers
  import opened Runes
  import opened Strings
  import opened Ast
  import Sensitive

  predicate IsBacktick(r: char) {
    r == '`'
  }

  predicate IsDoubleQuote(r: char) {
    r == '"'
  }

  /** The four escape replacements, in the order the source applies them:
      `\"`, `\\`, `\n`, `\t`. */
  function Unescape(b: string): string {
    ReplaceAll(ReplaceAll(ReplaceAll(ReplaceAll(b, "\\\"", "\""), "\\\\", "\\"), "\\n", "\n"), "\\t", "\t")
  }

  /** No replacement makes the text longer. */
  lemma UnescapeShrinks(b: string)
    ensures |Unescape(b)| <= |b|
  {
    var c := ReplaceAll(b, "\\\"", "\"");
    var d := ReplaceAll(c, "\\\\", "\\");
    var e := ReplaceAll(d, "\\n", "\n");
    ReplaceAllShrinks(b, "\\\"", "\"");
    ReplaceAllShrinks(c, "\\\\", "\\");
    ReplaceAllShrinks(d, "\\n", "\n");
    ReplaceAllShrinks(e, "\\t", "\t");
  }

  /** Text without a backslash comes through unchanged. */
  lemma NoEscapes(b: string)
    requires '\\' !in b
    ensures Unescape(b) == b
  {
    ReplaceAllAbsent(b, "\\\"", "\"");
    ReplaceAllAbsent(b, "\\\\", "\\");
    ReplaceAllAbsent(b, "\\n", "\n");
    ReplaceAllAbsent(b, "\\t", "\t");
  }

  /** The ad-hoc unquoting of a string literal's source text: all surrounding
      backticks trimmed, then at most one leading and one trailing `"`, then
      the escapes replaced. The text never grows. */
  function Unquote(value: string): (s: string)
    ensures |s| <= |value|
  {
    var a := TrimFunc(value, IsBacktick);
    var b := TrimSuffix(TrimPrefix(a, "\""), "\"");
    UnescapeShrinks(b);
    Unescape(b)
  }

  /** One leading and one trailing `"` come off. */
  lemma Dequote(body: string)
    ensures TrimSuffix(TrimPrefix("\"" + body + "\"", "\""), "\"") == body
  {
    var v := "\"" + body + "\"";
    var w := body + "\"";
    assert v[..1] == "\"" && v[1..] == w;
    assert w[|w| - 1..] == "\"" && w[..|w| - 1] == body;
  }

  /** A double-quoted literal loses its two quotes and is unescaped. */
  lemma UnquoteQuotedBody(body: string)
    ensures Unquote("\"" + body + "\"") == Unescape(body)
  {
    var v := "\"" + body + "\"";
    assert TrimFunc(v, IsBacktick) == v by {
      assert v[0] == '"' && v[|v| - 1] == '"';
      TrimFuncStrips([], v, [], IsBacktick);
      assert [] + v + [] == v;
    }
    Dequote(body);
  }

  /** So a double-quoted literal whose body holds no backslash loses only its
      two quotes. */
  lemma UnquoteQuoted(body: string)
    requires '\\' !in body
    ensures Unquote("\"" + body + "\"") == body
  {
    UnquoteQuotedBody(body);
    NoEscapes(body);
  }

  /** A raw literal loses its backticks and is unescaped like any other;
      a `"` at either end of its body is taken for a delimiter as well. */
  lemma UnquoteRawBody(body: string)
    requires body == [] || (body[0] != '`' && body[|body| - 1] != '`')
    ensures Unquote("`" + body + "`") == Unescape(TrimSuffix(TrimPrefix(body, "\""), "\""))
  {
    TrimFuncStrips("`", body, "`", IsBacktick);
  }

  /** So a raw literal whose body holds no backslash and neither starts nor
      ends with `"` loses only its two backticks. */
  lemma UnquoteRaw(body: string)
    requires '`' !in body && '\\' !in body
    requires body == [] || (body[0] != '"' && body[|body| - 1] != '"')
    ensures Unquote("`" + body + "`") == body
  {
    UnquoteRawBody(body);
    assert !HasPrefix(body, "\"");
    assert !HasSuffix(body, "\"");
    NoEscapes(body);
  }

  /** `\n` becomes a newline; the text around it, free of backslashes, is kept. */
  lemma UnescapeNewline(pre: string, post: string)
    requires '\\' !in pre && '\\' !in post
    ensures Unescape(pre + "\\n" + post) == pre + "\n" + post
  {
    var b := pre + "\\n" + post;
    assert ReplaceAll(b, "\\\"", "\"") == b by {
      BackslashNUntouched(pre, post, '"');
    }
    assert ReplaceAll(b, "\\\\", "\\") == b by {
      BackslashNUntouched(pre, post, '\\');
    }
    UnescapeNewlineTail(pre, post);
  }

  /** A `\` followed by `n` is no occurrence of a backslash pair ending in
      another rune. */
  lemma BackslashNUntouched(pre: string, post: string, c: char)
    requires '\\' !in pre && '\\' !in post && c != 'n'
    ensures ReplaceAll(pre + "\\n" + post, ['\\', c], [c]) == pre + "\\n" + post
  {
    var x := "\\n" + post;
    var pat := ['\\', c];
    assert ReplaceAll(x, pat, [c]) == x by {
      NotPrefix(x, pat, 1);
      assert x[1..] == "n" + post;
      assert '\\' !in "n" + post;
      ReplaceAllAbsent("n" + post, pat, [c]);
      assert ReplaceAll(x, pat, [c]) == [x[0]] + ReplaceAll(x[1..], pat, [c]);
    }
    assert ReplaceAll(pre + x, pat, [c]) == pre + ReplaceAll(x, pat, [c]) by {
      ReplaceAllKeepsPrefix(pre, x, pat, [c]);
    }
    assert pre + "\\n" + post == pre + x;
  }

  /** The replacements run one after the other, so `\\n` is unescaped twice
      and ends as a newline, not as a backslash followed by `n`. */
  lemma DoubleUnescape(pre: string, post: string)
    requires '\\' !in pre && '\\' !in post
    ensures Unescape(pre + "\\\\n" + post) == pre + "\n" + post
  {
    DoubleUnescapeHead(pre, post);
    UnescapeNewlineTail(pre, post);
  }

  /** The first two replacements on `pre` `\\n` `post`: the quote escape
      finds nothing, the backslash escape leaves `\n`. */
  lemma DoubleUnescapeHead(pre: string, post: string)
    requires '\\' !in pre && '\\' !in post
    ensures ReplaceAll(ReplaceAll(pre + "\\\\n" + post, "\\\"", "\""), "\\\\", "\\") == pre + "\\n" + post
  {
    var x := "\\\\n" + post;
    assert pre + "\\\\n" + post == pre + x;
    DoubleBackslashQuoteFree(post);
    ReplaceAllKeepsPrefix(pre, x, "\\\"", "\"");
    DoubleBackslashCollapses(post);
    ReplaceAllKeepsPrefix(pre, x, "\\\\", "\\");
    assert pre + ("\\n" + post) == pre + "\\n" + post;
  }

  /** The quote escape finds nothing in `\\n` `post`. */
  lemma DoubleBackslashQuoteFree(post: string)
    requires '\\' !in post
    ensures ReplaceAll("\\\\n" + post, "\\\"", "\"") == "\\\\n" + post
  {
    var x := "\\\\n" + post;
    NotPrefix(x, "\\\"", 1);
    assert x[1..] == [] + "\\n" + post;
    BackslashNUntouched([], post, '"');
  }

  /** The backslash escape turns `\\n` `post` into `\n` `post`. */
  lemma DoubleBackslashCollapses(post: string)
    requires '\\' !in post
    ensures ReplaceAll("\\\\n" + post, "\\\\", "\\") == "\\n" + post
  {
    assert "\\\\n" + post == "\\\\" + ("n" + post);
    ReplaceAllAtStart("n" + post, "\\\\", "\\");
    assert '\\' !in "n" + post;
    ReplaceAllAbsent("n" + post, "\\\\", "\\");
  }

  /** The last two replacements on `pre` `\n` `post`. */
  lemma UnescapeNewlineTail(pre: string, post: string)
    requires '\\' !in pre && '\\' !in post
    ensures ReplaceAll(ReplaceAll(pre + "\\n" + post, "\\n", "\n"), "\\t", "\t") == pre + "\n" + post
  {
    var x := "\\n" + post;
    var y := pre + "\n" + post;
    assert pre + "\\n" + post == pre + x;
    assert ReplaceAll(pre + x, "\\n", "\n") == y by {
      ReplaceAllKeepsPrefix(pre, x, "\\n", "\n");
      ReplaceAllAtStart(post, "\\n", "\n");
      ReplaceAllAbsent(post, "\\n", "\n");
      assert pre + ("\n" + post) == y;
    }
    assert ReplaceAll(y, "\\t", "\t") == y by {
      assert '\\' !in y;
      ReplaceAllAbsent(y, "\\t", "\t");
    }
  }

  /** A raw literal whose body is itself quoted loses those quotes as well. */
  lemma RawQuotesLost(body: string)
    requires '\\' !in body
    ensures Unquote("`\"" + body + "\"`") == body
  {
    var q := "\"" + body + "\"";
    assert "`\"" + body + "\"`" == "`" + q + "`";
    assert q[0] == '"' && q[|q| - 1] == '"';
    UnquoteRawBody(q);
    Dequote(body);
    NoEscapes(body);
  }

  /** The parts collectStringParts appends for `e`: the unquoted text of a
      string literal; both sides of a `+`; the value of a constant with its
      surrounding `"` trimmed; the inside of parentheses; nothing for
      anything else. */
  function LiteralParts(uses: Uses, e: Expr): seq<string>
    decreases e
  {
    match e
    case BasicLit(kind, value, _) => if kind == STRING then [Unquote(value)] else []
    case BinaryExpr(x, op, y, _) => if op == Add then LiteralParts(uses, x) + LiteralParts(uses, y) else []
    case Ident(id, _, _) =>
      if id in uses && uses[id].Some? && uses[id].value.ConstObj?
      then [TrimFunc(uses[id].value.valueText, IsDoubleQuote)]
      else []
    case ParenExpr(x, _) => LiteralParts(uses, x)
    case _ => []
  }

  /** The resolved literal: the parts joined with no separator. */
  function Literal(uses: Uses, e: Expr): string {
    Concat(LiteralParts(uses, e))
  }

  /** collectStringParts: appends to the caller's parts, one recursive call
      per operand. */
  method CollectStringParts(uses: Uses, e: Expr, parts: seq<string>) returns (out: seq<string>)
    ensures out == parts + LiteralParts(uses, e)
    decreases e
  {
    match e {
      case BasicLit(kind, value, _) =>
        if kind == STRING {
          out := parts + [Unquote(value)];
        } else {
          assert LiteralParts(uses, e) == [];
          out := parts;
        }
      case BinaryExpr(x, op, y, _) =>
        if op == Add {
          var mid := CollectStringParts(uses, x, parts);
          out := CollectStringParts(uses, y, mid);
          AppendAssoc(parts, LiteralParts(uses, x), LiteralParts(uses, y));
        } else {
          assert LiteralParts(uses, e) == [];
          out := parts;
        }
      case Ident(id, _, _) =>
        if id in uses && uses[id].Some? && uses[id].value.ConstObj? {
          var val := TrimFunc(uses[id].value.valueText, IsDoubleQuote);
          out := parts + [val];
        } else {
          assert LiteralParts(uses, e) == [];
          out := parts;
        }
      case ParenExpr(x, _) =>
        out := CollectStringParts(uses, x, parts);
      case SelectorExpr(_, _, _, _) =>
        assert LiteralParts(uses, e) == [];
        out := parts;
      case CallExpr(_, _, _) =>
        assert LiteralParts(uses, e) == [];
        out := parts;
      case OtherExpr(_, _) =>
        assert LiteralParts(uses, e) == [];
        out := parts;
    }
  }

  /** The literal of a sum is the literal of its left operand followed by
      that of its right; parentheses are transparent; a variable, a call, a
      selector, a non-string literal or any other operator contributes
      nothing, so a lone variable resolves to "". */
  lemma LiteralShape(uses: Uses, e: Expr)
    ensures e.BinaryExpr? && e.op == Add ==> Literal(uses, e) == Literal(uses, e.x) + Literal(uses, e.y)
    ensures e.ParenExpr? ==> Literal(uses, e) == Literal(uses, e.x)
    ensures e.BasicLit? && e.kind == STRING ==> Literal(uses, e) == Unquote(e.value)
    ensures e.Ident? && e.id in uses && uses[e.id].Some? && uses[e.id].value.ConstObj? ==>
              Literal(uses, e) == TrimFunc(uses[e.id].value.valueText, IsDoubleQuote)
    ensures e.Ident? && !(e.id in uses && uses[e.id].Some? && uses[e.id].value.ConstObj?) ==> Literal(uses, e) == ""
    ensures e.BasicLit? && e.kind != STRING ==> Literal(uses, e) == ""
    ensures e.BinaryExpr? && e.op != Add ==> Literal(uses, e) == ""
    ensures e.SelectorExpr? || e.CallExpr? || e.OtherExpr? ==> Literal(uses, e) == ""
  {
    match e
    case BinaryExpr(x, op, y, _) =>
      if op == Add {
        ConcatAppend(LiteralParts(uses, x), LiteralParts(uses, y));
      }
    case BasicLit(kind, value, _) =>
      if kind == STRING {
        assert Concat([Unquote(value)]) == Unquote(value) + Concat([]);
      }
    case Ident(id, _, _) =>
      if id in uses && uses[id].Some? && uses[id].value.ConstObj? {
        var t := TrimFunc(uses[id].value.valueText, IsDoubleQuote);
        assert Concat([t]) == t + Concat([]);
      }
    case _ =>
  }

  /** The constant's text loses every surrounding `"`, not just one pair. */
  lemma ConstantQuotesTrimmed(body: string)
    requires body == [] || (body[0] != '"' && body[|body| - 1] != '"')
    ensures TrimFunc("\"\"" + body + "\"\"", IsDoubleQuote) == body
  {
    TrimFuncStrips("\"\"", body, "\"\"", IsDoubleQuote);
  }

  /** The text ast.Inspect writes for `e`: every literal's source text
      (delimiters kept) and every identifier's name, in preorder, with no
      operators, parentheses, dots or spaces. */
  function InspectText(e: Expr): string
    decreases e
  {
    match e
    case BasicLit(_, value, _) => value
    case Ident(_, name, _) => name
    case BinaryExpr(x, _, y, _) => InspectText(x) + InspectText(y)
    case ParenExpr(x, _) => InspectText(x)
    case SelectorExpr(x, _, selName, _) => InspectText(x) + selName
    case CallExpr(fun, args, _) => InspectText(fun) + InspectTexts(args)
    case OtherExpr(children, _) => InspectTexts(children)
  }

  /** The walk over a list of children, left to right. */
  function InspectTexts(es: seq<Expr>): string
    decreases es
  {
    if es == [] then "" else InspectTexts(es[..|es| - 1]) + InspectText(es[|es| - 1])
  }

  /** The ast.Inspect callback writing into the builder `sb`. */
  method Inspect(e: Expr, sb: string) returns (out: string)
    ensures out == sb + InspectText(e)
    decreases e
  {
    match e {
      case BasicLit(_, value, _) =>
        out := sb + value;
      case Ident(_, name, _) =>
        out := sb + name;
      case BinaryExpr(x, _, y, _) =>
        out := Inspect(x, sb);
        out := Inspect(y, out);
      case ParenExpr(x, _) =>
        out := Inspect(x, sb);
      case SelectorExpr(x, _, selName, _) =>
        out := Inspect(x, sb);
        out := out + selName;
      case CallExpr(fun, args, _) =>
        out := Inspect(fun, sb);
        out := InspectAll(args, out);
      case OtherExpr(children, _) =>
        out := InspectAll(children, sb);
    }
  }

  /** Visiting the children of a node in order. */
  method InspectAll(es: seq<Expr>, sb: string) returns (out: string)
    ensures out == sb + InspectTexts(es)
    decreases es
  {
    out := sb;
    var i := 0;
    while i < |es|
      invariant 0 <= i <= |es|
      invariant out == sb + InspectTexts(es[..i])
    {
      assert es[..i + 1][..i] == es[..i];
      out := Inspect(es[i], out);
      i := i + 1;
    }
    assert es[..|es|] == es;
  }

  /** exprToString: sourceFragment yields "" on every path, so the text is
      always the one the AST walk writes. */
  method ExprToString(e: Expr) returns (s: string)
    ensures s == InspectText(e)
  {
    s := Inspect(e, "");
  }

  /** extractStringValue: the raw text and the joined parts. */
  method ExtractStringValue(uses: Uses, e: Expr) returns (literal: string, fullExpr: string)
    ensures literal == Literal(uses, e)
    ensures fullExpr == InspectText(e)
  {
    fullExpr := ExprToString(e);
    var parts := CollectStringParts(uses, e, []);
    assert parts == LiteralParts(uses, e);
    literal := Concat(parts);
  }

  /** `"<body>" + v` for a variable `v`: the literal is the body, the raw
      text is the quoted body followed at once by the variable's name. */
  lemma LiteralPlusVariable(uses: Uses, body: string, id: nat, name: string, s1: Span, s2: Span, s3: Span)
    requires '\\' !in body
    requires !(id in uses && uses[id].Some? && uses[id].value.ConstObj?)
    ensures Literal(uses, BinaryExpr(BasicLit(STRING, "\"" + body + "\"", s1), Add, Ident(id, name, s2), s3)) == body
    ensures InspectText(BinaryExpr(BasicLit(STRING, "\"" + body + "\"", s1), Add, Ident(id, name, s2), s3)) ==
              "\"" + body + "\"" + name
  {
    var lit := BasicLit(STRING, "\"" + body + "\"", s1);
    var v := Ident(id, name, s2);
    LiteralShape(uses, BinaryExpr(lit, Add, v, s3));
    LiteralShape(uses, lit);
    LiteralShape(uses, v);
    UnquoteQuoted(body);
  }

  /** A name the lexer of the sensitive rule reads as code: no quote,
      backtick or space. */
  predicate IsIdentName(name: string) {
    forall k | 0 <= k < |name| :: name[k] != '"' && name[k] != '`' && name[k] != ' '
  }

  /** Every literal token of `e` closes as the sensitive rule's lexer reads
      it, and every name is an identifier name. */
  ghost predicate Lexable(e: Expr)
    decreases e
  {
    match e
    case BasicLit(_, value, _) => Sensitive.Lex(Sensitive.Code, value).state == Sensitive.Code
    case Ident(_, name, _) => IsIdentName(name)
    case BinaryExpr(x, _, y, _) => Lexable(x) && Lexable(y)
    case ParenExpr(x, _) => Lexable(x)
    case SelectorExpr(x, _, selName, _) => Lexable(x) && IsIdentName(selName)
    case CallExpr(fun, args, _) => Lexable(fun) && AllLexable(args)
    case OtherExpr(children, _) => AllLexable(children)
  }

  /** Every child is lexable. */
  ghost predicate AllLexable(es: seq<Expr>)
    decreases es
  {
    es == [] || (AllLexable(es[..|es| - 1]) && Lexable(es[|es| - 1]))
  }

  /** `name` is written by the walk as an identifier of `e`. */
  predicate Mentions(e: Expr, name: string)
    decreases e
  {
    match e
    case BasicLit(_, _, _) => false
    case Ident(_, n, _) => n == name
    case BinaryExpr(x, _, y, _) => Mentions(x, name) || Mentions(y, name)
    case ParenExpr(x, _) => Mentions(x, name)
    case SelectorExpr(x, _, selName, _) => Mentions(x, name) || selName == name
    case CallExpr(fun, args, _) => Mentions(fun, name) || AnyMentions(args, name)
    case OtherExpr(children, _) => AnyMentions(children, name)
  }

  /** Some child mentions `name`. */
  predicate AnyMentions(es: seq<Expr>, name: string)
    decreases es
  {
    es != [] && (AnyMentions(es[..|es| - 1], name) || Mentions(es[|es| - 1], name))
  }

  /** Text that leaves the lexer in code, followed by more such text. */
  lemma CodeThenCode(a: string, b: string)
    requires Sensitive.Lex(Sensitive.Code, a).state == Sensitive.Code
    requires Sensitive.Lex(Sensitive.Code, b).state == Sensitive.Code
    ensures Sensitive.Lex(Sensitive.Code, a + b).state == Sensitive.Code
  {
    Sensitive.LexAppend(Sensitive.Code, a, b);
  }

  /** The walk text of a lexable expression leaves the lexer in code. */
  lemma {:induction false} TextEndsInCode(e: Expr)
    requires Lexable(e)
    ensures Sensitive.Lex(Sensitive.Code, InspectText(e)).state == Sensitive.Code
    decreases e
  {
    match e
    case BasicLit(_, _, _) =>
    case Ident(_, name, _) =>
      Sensitive.LexPlain(name);
    case BinaryExpr(x, _, y, _) =>
      TextEndsInCode(x);
      TextEndsInCode(y);
      CodeThenCode(InspectText(x), InspectText(y));
    case ParenExpr(x, _) =>
      TextEndsInCode(x);
    case SelectorExpr(x, _, selName, _) =>
      TextEndsInCode(x);
      Sensitive.LexPlain(selName);
      CodeThenCode(InspectText(x), selName);
    case CallExpr(fun, args, _) =>
      TextEndsInCode(fun);
      TextsEndInCode(args);
      CodeThenCode(InspectText(fun), InspectTexts(args));
    case OtherExpr(children, _) =>
      TextsEndInCode(children);
  }

  lemma {:induction false} TextsEndInCode(es: seq<Expr>)
    requires AllLexable(es)
    ensures Sensitive.Lex(Sensitive.Code, InspectTexts(es)).state == Sensitive.Code
    decreases es
  {
    if es != [] {
      var init := es[..|es| - 1];
      TextsEndInCode(init);
      TextEndsInCode(es[|es| - 1]);
      CodeThenCode(InspectTexts(init), InspectText(es[|es| - 1]));
    }
  }

  /** Text appended after a mention stays after it. */
  lemma MentionThen(p: string, name: string, q: string, r: string)
    ensures (p + name + q) + r == p + name + (q + r)
  {
  }

  /** Text prepended before a mention joins what precedes it. */
  lemma ThenMention(a: string, p: string, name: string, q: string)
    ensures a + (p + name + q) == (a + p) + name + q
  {
  }

  /** A mentioned identifier stands in the walk text in code position: what
      precedes it leaves the lexer in code. */
  lemma {:induction false} MentionInCode(e: Expr, name: string) returns (pre: string, post: string)
    requires Lexable(e) && Mentions(e, name)
    ensures InspectText(e) == pre + name + post
    ensures Sensitive.Lex(Sensitive.Code, pre).state == Sensitive.Code
    ensures IsIdentName(name)
    decreases e, 1
  {
    match e
    case Ident(_, _, _) =>
      pre, post := "", "";
      Sensitive.LexPlain("");
    case BinaryExpr(_, _, _, _) =>
      pre, post := MentionInBinary(e, name);
    case ParenExpr(x, _) =>
      pre, post := MentionInCode(x, name);
    case SelectorExpr(_, _, _, _) =>
      pre, post := MentionInSelector(e, name);
    case CallExpr(_, _, _) =>
      pre, post := MentionInCall(e, name);
    case OtherExpr(children, _) =>
      pre, post := MentionsInCode(children, name);
  }

  /** An operand of `x op y`: in `x`, or in `y` after the code text of `x`. */
  lemma {:induction false} MentionInBinary(e: Expr, name: string) returns (pre: string, post: string)
    requires e.BinaryExpr? && Lexable(e) && Mentions(e, name)
    ensures InspectText(e) == pre + name + post
    ensures Sensitive.Lex(Sensitive.Code, pre).state == Sensitive.Code
    ensures IsIdentName(name)
    decreases e, 0
  {
    var x, y := e.x, e.y;
    assert InspectText(e) == InspectText(x) + InspectText(y);
    if Mentions(x, name) {
      var p, q := MentionInCode(x, name);
      MentionThen(p, name, q, InspectText(y));
      pre, post := p, q + InspectText(y);
    } else {
      var p, q := MentionInCode(y, name);
      TextEndsInCode(x);
      CodeThenCode(InspectText(x), p);
      ThenMention(InspectText(x), p, name, q);
      pre, post := InspectText(x) + p, q;
    }
  }

  /** `x.sel`: in `x`, or the selected name itself after the code text of `x`. */
  lemma {:induction false} MentionInSelector(e: Expr, name: string) returns (pre: string, post: string)
    requires e.SelectorExpr? && Lexable(e) && Mentions(e, name)
    ensures InspectText(e) == pre + name + post
    ensures Sensitive.Lex(Sensitive.Code, pre).state == Sensitive.Code
    ensures IsIdentName(name)
    decreases e, 0
  {
    var x := e.x;
    assert InspectText(e) == InspectText(x) + e.selName;
    if Mentions(x, name) {
      var p, q := MentionInCode(x, name);
      MentionThen(p, name, q, e.selName);
      pre, post := p, q + e.selName;
    } else {
      TextEndsInCode(x);
      pre, post := InspectText(x), "";
    }
  }

  /** `f(args)`: in the callee, or in an argument after the callee's code text. */
  lemma {:induction false} MentionInCall(e: Expr, name: string) returns (pre: string, post: string)
    requires e.CallExpr? && Lexable(e) && Mentions(e, name)
    ensures InspectText(e) == pre + name + post
    ensures Sensitive.Lex(Sensitive.Code, pre).state == Sensitive.Code
    ensures IsIdentName(name)
    decreases e, 0
  {
    var fun, args := e.fun, e.args;
    assert InspectText(e) == InspectText(fun) + InspectTexts(args);
    if Mentions(fun, name) {
      var p, q := MentionInCode(fun, name);
      MentionThen(p, name, q, InspectTexts(args));
      pre, post := p, q + InspectTexts(args);
    } else {
      var p, q := MentionsInCode(args, name);
      TextEndsInCode(fun);
      CodeThenCode(InspectText(fun), p);
      ThenMention(InspectText(fun), p, name, q);
      pre, post := InspectText(fun) + p, q;
    }
  }

  lemma {:induction false} MentionsInCode(es: seq<Expr>, name: string) returns (pre: string, post: string)
    requires AllLexable(es) && AnyMentions(es, name)
    ensures InspectTexts(es) == pre + name + post
    ensures Sensitive.Lex(Sensitive.Code, pre).state == Sensitive.Code
    ensures IsIdentName(name)
    decreases es
  {
    var init := es[..|es| - 1];
    var last := es[|es| - 1];
    assert InspectTexts(es) == InspectTexts(init) + InspectText(last);
    if Mentions(last, name) {
      var p, q := MentionInCode(last, name);
      TextsEndInCode(init);
      CodeThenCode(InspectTexts(init), p);
      ThenMention(InspectTexts(init), p, name, q);
      pre, post := InspectTexts(init) + p, q;
    } else {
      var p, q := MentionsInCode(init, name);
      MentionThen(p, name, q, InspectText(last));
      pre, post := p, q + InspectText(last);
    }
  }

  /** A name written in the message argument (a variable, a field, a called
      function) whose lower-cased text without `_` contains a keyword without
      its `_` makes the sensitive rule report, whatever the message says:
      `"user password: " + password` and `"key=" + apiKey` are both caught. */
  lemma MentionedNameReported(u: Tables, e: Expr, name: string, msg: string, keywords: seq<string>, k: int)
    requires Valid(u) && LowersToLetters(u)
    requires Lexable(e) && Mentions(e, name)
    requires 0 <= k < |keywords|
    requires Contains(ReplaceAll(Lower(u, name), "_", ""), ReplaceAll(Lower(u, keywords[k]), "_", ""))
    ensures Sensitive.CheckSensitive(u, msg, InspectText(e), keywords).Some?
  {
    var pre, post := MentionInCode(e, name);
    var lname := Lower(u, name);
    LowerAppend(u, pre + name, post);
    LowerAppend(u, pre, name);
    Sensitive.LexLowerState(u, Sensitive.Code, pre);
    forall j | 0 <= j < |lname| ensures lname[j] != '"' && lname[j] != '`' && lname[j] != ' ' {
      Sensitive.LowerKeepsLexical(u, name[j]);
    }
    Sensitive.IdentifierFires(Lower(u, pre), lname, Lower(u, post), Lower(u, keywords[k]));
    assert Sensitive.KeywordHit(Sensitive.TokenizeWords(Lower(u, msg)), Lower(u, InspectText(e)), Lower(u, keywords[k])).Some?;
  }
}
