/** URL match patterns (a host prefix followed by a star) turned into anchored regular expressions: every
    regular-expression metacharacter is escaped, then each escaped `*` becomes `.*`. The compiled
    expression is represented by its tokens: literal characters and runs of `.`, which match any
    character except a line terminator. */
module Glob {
  import opened Strings

  datatype Token = Lit(c: char) | AnyRun

  /** The characters `escapeForRegex` puts a backslash in front of. */
  predicate IsRegexSpecial(c: char) {
    c in ".*+?^${}()|[]\\"
  }

  /** `escapeForRegex`. */
  function EscapeForRegex(s: string): (r: string)
    ensures |r| >= |s|
  {
    if |s| == 0 then ""
    else (if IsRegexSpecial(s[0]) then ['\\', s[0]] else [s[0]]) + EscapeForRegex(s[1..])
  }

  /** The body of `toPatternRegex`'s source: the escaped pattern with every `\*` turned into `.*`. */
  function PatternBody(pattern: string): string {
    ReplaceAll(EscapeForRegex(pattern), "\\*", ".*")
  }

  /** The source handed to `new RegExp`. */
  function PatternSource(pattern: string): string {
    "^" + PatternBody(pattern) + "$"
  }

  /** The tokens of a pattern: `*` is a run, everything else is itself. */
  function Compile(pattern: string): (r: seq<Token>)
    ensures |r| == |pattern|
    ensures forall i :: 0 <= i < |r| ==> (r[i] == AnyRun <==> pattern[i] == '*')
    ensures forall i :: 0 <= i < |r| && r[i].Lit? ==> r[i].c == pattern[i]
  {
    if |pattern| == 0 then []
    else [if pattern[0] == '*' then AnyRun else Lit(pattern[0])] + Compile(pattern[1..])
  }

  /** How a token reads in regular-expression syntax. */
  function RenderToken(t: Token): string {
    match t
    case AnyRun => ".*"
    case Lit(c) => if IsRegexSpecial(c) then ['\\', c] else [c]
  }

  function Render(ts: seq<Token>): string {
    if |ts| == 0 then "" else RenderToken(ts[0]) + Render(ts[1..])
  }

  /** An escaped string never starts with a bare `*`. */
  lemma EscapeHead(s: string)
    requires |EscapeForRegex(s)| > 0
    ensures EscapeForRegex(s)[0] != '*'
  {
  }

  /** The source text `toPatternRegex` builds is exactly the rendering of the pattern's tokens, so
      the escaping and the `\*` replacement never interfere. */
  lemma {:induction false} PatternBodyRendersTokens(pattern: string)
    ensures PatternBody(pattern) == Render(Compile(pattern))
    decreases |pattern|
  {
    if |pattern| > 0 {
      var c := pattern[0];
      var rest := EscapeForRegex(pattern[1..]);
      PatternBodyRendersTokens(pattern[1..]);
      assert |rest| > 0 ==> rest[0] != '*' by {
        if |rest| > 0 {
          EscapeHead(pattern[1..]);
        }
      }
      assert Compile(pattern) == Compile([c]) + Compile(pattern[1..]);
      if c == '*' {
        PatternBodyStar(pattern);
      } else if IsRegexSpecial(c) {
        PatternBodySpecial(pattern);
      } else {
        PatternBodyPlain(pattern);
      }
    }
  }

  /** A leading `*` is escaped to `\*`, which the replacement turns into `.*`. */
  lemma PatternBodyStar(pattern: string)
    requires |pattern| > 0 && pattern[0] == '*'
    ensures PatternBody(pattern) == ".*" + PatternBody(pattern[1..])
  {
    var rest := EscapeForRegex(pattern[1..]);
    var e := EscapeForRegex(pattern);
    assert e == "\\*" + rest;
    assert StartsWith(e, "\\*");
    assert e[2..] == rest;
  }

  /** A leading special character other than `*` is escaped, and the replacement passes it by. */
  lemma PatternBodySpecial(pattern: string)
    requires |pattern| > 0 && pattern[0] != '*' && IsRegexSpecial(pattern[0])
    requires var rest := EscapeForRegex(pattern[1..]); |rest| > 0 ==> rest[0] != '*'
    ensures PatternBody(pattern) == ['\\', pattern[0]] + PatternBody(pattern[1..])
  {
    var c := pattern[0];
    var rest := EscapeForRegex(pattern[1..]);
    var e := EscapeForRegex(pattern);
    var t := [c] + rest;
    assert e == ['\\'] + t;
    assert e[0] == '\\' && e[1] == c;
    assert !StartsWith(e, "\\*");
    assert e[1..] == t;
    assert t[0] == c && (|t| > 1 ==> t[1] == rest[0]);
    assert !StartsWith(t, "\\*");
    assert t[1..] == rest;
    assert PatternBody(pattern) == ['\\'] + ReplaceAll(t, "\\*", ".*");
    assert ReplaceAll(t, "\\*", ".*") == [c] + PatternBody(pattern[1..]);
  }

  /** Any other leading character stays as it is. */
  lemma PatternBodyPlain(pattern: string)
    requires |pattern| > 0 && pattern[0] != '*' && !IsRegexSpecial(pattern[0])
    ensures PatternBody(pattern) == [pattern[0]] + PatternBody(pattern[1..])
  {
    var c := pattern[0];
    var rest := EscapeForRegex(pattern[1..]);
    var e := EscapeForRegex(pattern);
    assert e == [c] + rest;
    assert e[0] == c;
    assert !StartsWith(e, "\\*");
    assert e[1..] == rest;
  }

  /** Whether the anchored expression `^tokens$` matches the whole of `s`. */
  function GlobMatch(ts: seq<Token>, s: string): bool
    decreases |ts| + |s|
  {
    if |ts| == 0 then |s| == 0
    else match ts[0]
      case Lit(c) => |s| > 0 && s[0] == c && GlobMatch(ts[1..], s[1..])
      case AnyRun =>
        GlobMatch(ts[1..], s) || (|s| > 0 && !IsLineTerminator(s[0]) && GlobMatch(ts, s[1..]))
  }

  /** A pattern without `*` matches exactly the string equal to it. */
  lemma {:induction false} GlobLiteral(pattern: string, s: string)
    requires '*' !in pattern
    ensures GlobMatch(Compile(pattern), s) <==> s == pattern
    decreases |pattern|
  {
    if |pattern| > 0 {
      GlobLiteral(pattern[1..], if |s| > 0 then s[1..] else s);
      if |s| > 0 && s[1..] == pattern[1..] && s[0] == pattern[0] {
        assert s == pattern;
      }
    }
  }

  /** A trailing `*` matches any run of characters without a line terminator. */
  lemma {:induction false} GlobTrailingRun(s: string)
    ensures GlobMatch([AnyRun], s) <==> forall i :: 0 <= i < |s| ==> !IsLineTerminator(s[i])
    decreases |s|
  {
    assert [AnyRun][1..] == [];
    if |s| > 0 {
      GlobTrailingRun(s[1..]);
      assert forall i :: 1 <= i < |s| ==> s[i] == s[1..][i - 1];
    }
  }

  /** A literal prefix of the pattern consumes the same prefix of the input. */
  lemma {:induction false} GlobLiteralPrefix(lit: string, rest: seq<Token>, s: string)
    requires '*' !in lit
    ensures GlobMatch(Compile(lit) + rest, s) <==> StartsWith(s, lit) && GlobMatch(rest, s[|lit|..])
    decreases |lit|
  {
    if |lit| == 0 {
      assert Compile(lit) + rest == rest;
    } else {
      var ts := Compile(lit) + rest;
      assert ts[0] == Lit(lit[0]);
      assert ts[1..] == Compile(lit[1..]) + rest;
      if |s| > 0 {
        GlobLiteralPrefix(lit[1..], rest, s[1..]);
        if |s| >= |lit| {
          assert s[1..][|lit| - 1..] == s[|lit|..];
          assert (s[..|lit|] == lit) <==> (s[0] == lit[0] && s[1..][..|lit| - 1] == lit[1..]);
        }
      }
    }
  }

  /** The site patterns' shape: `prefix*` matches the strings that start with the prefix and
      continue without a line terminator. */
  lemma GlobPrefixPattern(prefix: string, s: string)
    requires '*' !in prefix
    ensures GlobMatch(Compile(prefix + "*"), s) <==>
              StartsWith(s, prefix) && forall i :: |prefix| <= i < |s| ==> !IsLineTerminator(s[i])
  {
    assert Compile(prefix + "*") == Compile(prefix) + [AnyRun] by {
      CompileAppend(prefix, "*");
    }
    GlobLiteralPrefix(prefix, [AnyRun], s);
    if |prefix| <= |s| {
      GlobTrailingRun(s[|prefix|..]);
      assert forall i :: |prefix| <= i < |s| ==> s[i] == s[|prefix|..][i - |prefix|];
    }
  }

  lemma {:induction false} CompileAppend(a: string, b: string)
    ensures Compile(a + b) == Compile(a) + Compile(b)
    decreases |a|
  {
    if |a| == 0 {
      assert a + b == b;
    } else {
      assert (a + b)[1..] == a[1..] + b;
      CompileAppend(a[1..], b);
    }
  }
}
