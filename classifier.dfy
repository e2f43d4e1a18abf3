/**
 * Which calls the analyzer looks at (extractLogCall, isSupportedLogMethod,
 * isLogMethod, isSupportedPackage, pkgPathOf, messageArgIndex): a call whose
 * function is `x.M`, where `M` is one of the conventional log method names
 * and resolves to an object declared in a supported logging package.
 */
module Classifier {
  import opened Wrappers
  import opened Strings
  import opened Ast
  import Resolver

  /** The 22 method names isLogMethod accepts. */
  const LogMethods: set<string> := {
    "Info", "Warn", "Error", "Debug",
    "Fatal", "Panic", "DPanic",
    "InfoCtx", "WarnCtx", "ErrorCtx", "DebugCtx",
    "InfoContext", "WarnContext", "ErrorContext", "DebugContext",
    "Print", "Printf", "Println",
    "Fatalf", "Fatalln",
    "Panicf", "Panicln"
  }

  predicate IsLogMethod(name: string) {
    name in LogMethods
  }

  /** The name switch accepts the standard log family's formatting variants
      but none of zap's sugared ones: `Infof`, `Infow`, `Warnf`, `Errorw`
      are never checked, nor is a lower-case or empty name. */
  lemma LogMethodExamples()
    ensures IsLogMethod("Printf") && IsLogMethod("DPanic") && IsLogMethod("InfoContext")
    ensures !IsLogMethod("Infof") && !IsLogMethod("Infow") && !IsLogMethod("Warnf") && !IsLogMethod("Errorw")
    ensures !IsLogMethod("info") && !IsLogMethod("")
  {
  }

  /** supportedPkgPrefixes, in order. */
  const SupportedPkgPrefixes: seq<string> := ["log/slog", "go.uber.org/zap", "go.uber.org/zap/zaptest", "log"]

  /** One iteration of isSupportedPackage's loop: the path is the prefix or
      lies below it. */
  predicate UnderPrefix(pkg: string, prefix: string) {
    pkg == prefix || HasPrefix(pkg, prefix + "/")
  }

  /** What isSupportedPackage decides: some prefix matches, or the path is
      exactly `log`. */
  predicate SupportedPackage(pkg: string) {
    (exists i | 0 <= i < |SupportedPkgPrefixes| :: UnderPrefix(pkg, SupportedPkgPrefixes[i])) || pkg == "log"
  }

  /** isSupportedPackage: the loop over the prefixes, then the exact `log`
      test. */
  method IsSupportedPackage(pkg: string) returns (b: bool)
    ensures b == SupportedPackage(pkg)
  {
    var i := 0;
    while i < |SupportedPkgPrefixes|
      invariant 0 <= i <= |SupportedPkgPrefixes|
      invariant forall j | 0 <= j < i :: !UnderPrefix(pkg, SupportedPkgPrefixes[j])
    {
      var prefix := SupportedPkgPrefixes[i];
      if pkg == prefix || HasPrefix(pkg, prefix + "/") {
        return true;
      }
      i := i + 1;
    }
    return pkg == "log";
  }

  /** A prefix of a longer prefix. */
  lemma PrefixOfPrefix(s: string, a: string, b: string)
    requires HasPrefix(s, a + b)
    ensures HasPrefix(s, a)
  {
    assert s[..|a|] == (a + b)[..|a|];
  }

  /** The supported paths, stated without the list: `log` and
      `go.uber.org/zap` and everything below either. The `log/slog` and
      `zaptest` entries and the final exact test add nothing. */
  lemma SupportedPackageIff(pkg: string)
    ensures SupportedPackage(pkg) <==>
              pkg == "log" || HasPrefix(pkg, "log/") ||
              pkg == "go.uber.org/zap" || HasPrefix(pkg, "go.uber.org/zap/")
  {
    if SupportedPackage(pkg) && pkg != "log" {
      var i :| 0 <= i < |SupportedPkgPrefixes| && UnderPrefix(pkg, SupportedPkgPrefixes[i]);
      if i == 0 {
        if pkg == "log/slog" {
          assert HasPrefix(pkg, "log/");
        } else {
          assert "log/slog" + "/" == "log/" + "slog/";
          PrefixOfPrefix(pkg, "log/", "slog/");
        }
      } else if i == 2 {
        if pkg == "go.uber.org/zap/zaptest" {
          assert HasPrefix(pkg, "go.uber.org/zap/");
        } else {
          assert "go.uber.org/zap/zaptest" + "/" == "go.uber.org/zap/" + "zaptest/";
          PrefixOfPrefix(pkg, "go.uber.org/zap/", "zaptest/");
        }
      }
    }
    if HasPrefix(pkg, "log/") {
      assert UnderPrefix(pkg, SupportedPkgPrefixes[3]);
    }
    if pkg == "go.uber.org/zap" || HasPrefix(pkg, "go.uber.org/zap/") {
      assert UnderPrefix(pkg, SupportedPkgPrefixes[1]);
    }
  }

  /** A path that starts like `log` but continues with another rune is not
      a logging package. */
  lemma LookAlikeRejected(pkg: string)
    requires HasPrefix(pkg, "log") && |pkg| > 3 && pkg[3] != '/'
    ensures !SupportedPackage(pkg)
  {
    SupportedPackageIff(pkg);
    NotPrefix(pkg, "log/", 3);
    NotPrefix(pkg, "go.uber.org/zap/", 0);
  }

  /** `logrus` and `github.com/sirupsen/logrus` are rejected, and so is the
      empty path of an object without a package; `log/slog` and zap's
      sub-packages are accepted. */
  lemma PackageExamples()
    ensures !SupportedPackage("logrus") && !SupportedPackage("github.com/sirupsen/logrus") && !SupportedPackage("")
    ensures SupportedPackage("log/slog") && SupportedPackage("go.uber.org/zap/zapcore")
  {
    LookAlikeRejected("logrus");
    var g := "github.com/sirupsen/logrus";
    SupportedPackageIff(g);
    NotPrefix(g, "log/", 0);
    NotPrefix(g, "go.uber.org/zap/", 1);
    SupportedPackageIff("");
    SupportedPackageIff("log/slog");
    SupportedPackageIff("go.uber.org/zap/zapcore");
    assert HasPrefix("log/slog", "log/");
    assert HasPrefix("go.uber.org/zap/zapcore", "go.uber.org/zap/");
  }

  /** pkgPathOf: the declaring package's path, or "" for a nil object or an
      object with no package. */
  function PkgPathOf(obj: Option<Object>): (path: string)
    ensures obj.None? || obj.value.pkg.None? ==> path == ""
    ensures obj.Some? && obj.value.pkg.Some? ==> path == obj.value.pkg.value
  {
    match obj
    case None => ""
    case Some(o) => if o.pkg.None? then "" else o.pkg.value
  }

  /** What isSupportedLogMethod decides for a selector `x.M`. */
  predicate SupportedLogMethod(uses: Uses, sel: Expr)
    requires sel.SelectorExpr?
  {
    IsLogMethod(sel.selName) && sel.selId in uses && SupportedPackage(PkgPathOf(uses[sel.selId]))
  }

  /** isSupportedLogMethod: the name first, then the lookup of the selected
      identifier, then its package. */
  method IsSupportedLogMethod(uses: Uses, sel: Expr) returns (b: bool)
    requires sel.SelectorExpr?
    ensures b == SupportedLogMethod(uses, sel)
  {
    if !IsLogMethod(sel.selName) {
      return false;
    }
    if sel.selId !in uses {
      return false;
    }
    var pkg := PkgPathOf(uses[sel.selId]);
    b := IsSupportedPackage(pkg);
  }

  /** A log method name whose selected identifier is unresolved, resolves to
      nil, or resolves to an object without a package is never a log call. */
  lemma UnresolvedSelectorIgnored(uses: Uses, sel: Expr)
    requires sel.SelectorExpr?
    requires sel.selId !in uses || uses[sel.selId].None? || uses[sel.selId].value.pkg.None?
    ensures !SupportedLogMethod(uses, sel)
  {
    PackageExamples();
  }

  /** messageArgIndex: every supported method takes its message first. */
  function MessageArgIndex(args: seq<Expr>): int {
    0
  }

  /** logCall: the call's position, the message argument, its resolved
      literal and its raw text. */
  datatype LogCall = LogCall(pos: int, msgArg: Expr, msgLiteral: string, fullExpr: string)

  /** The fields of a call descriptor are those extractStringValue gives for
      its message argument. */
  predicate Resolved(uses: Uses, lc: LogCall) {
    lc.msgLiteral == Resolver.Literal(uses, lc.msgArg) && lc.fullExpr == Resolver.InspectText(lc.msgArg)
  }

  /** extractLogCall: a descriptor exactly for a selector call to a supported
      log method with at least one argument; the message is the first
      argument, resolved. */
  method ExtractLogCall(uses: Uses, call: Expr) returns (r: Option<LogCall>)
    requires call.CallExpr?
    ensures r.Some? <==> call.fun.SelectorExpr? && SupportedLogMethod(uses, call.fun) && |call.args| > 0
    ensures r.Some? ==> r.value.pos == call.span.pos && r.value.msgArg == call.args[0]
    ensures r.Some? ==> Resolved(uses, r.value)
  {
    if !call.fun.SelectorExpr? {
      return None;
    }
    var supported := IsSupportedLogMethod(uses, call.fun);
    if !supported {
      return None;
    }
    var msgIdx := MessageArgIndex(call.args);
    if msgIdx < 0 || msgIdx >= |call.args| {
      return None;
    }
    var msgArg := call.args[msgIdx];
    var literal, fullExpr := Resolver.ExtractStringValue(uses, msgArg);
    return Some(LogCall(call.span.pos, msgArg, literal, fullExpr));
  }
}
