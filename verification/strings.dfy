/** JavaScript string primitives the extension relies on, over `seq<char>`.
    One `char` stands for one UTF-16 code unit as far as lengths and indices go. */
module Strings {

  /** The characters of JavaScript's `\s` class, which are also the ones `String.prototype.trim`
      removes (WhiteSpace and LineTerminator of ECMA-262): space, tab to carriage return, and the
      Unicode space separators, line and paragraph separators and the byte-order mark. */
  predicate IsSpace(c: char) {
    if c <= ' ' then c == ' ' || '\t' <= c <= '\r'
    else if c < '\U{00A0}' then false
    else WideSpace(c)
  }

  /** The whitespace characters above the Latin-1 control range. */
  predicate WideSpace(c: char) {
    || c == '\U{00A0}' || c == '\U{1680}' || '\U{2000}' <= c <= '\U{200A}'
    || c == '\U{2028}' || c == '\U{2029}' || c == '\U{202F}' || c == '\U{205F}'
    || c == '\U{3000}' || c == '\U{FEFF}'
  }

  /** The characters a regular-expression `.` refuses to match (no `s` flag). */
  predicate IsLineTerminator(c: char) {
    c == '\n' || c == '\r' || c == '\U{2028}' || c == '\U{2029}'
  }

  predicate IsDigit(c: char) {
    '0' <= c <= '9'
  }

  /** Every character is whitespace. */
  predicate AllSpace(s: string) {
    forall i :: 0 <= i < |s| ==> IsSpace(s[i])
  }

  predicate NoSpaceAtEnds(s: string) {
    |s| == 0 || (!IsSpace(s[0]) && !IsSpace(s[|s| - 1]))
  }

  /** The index of the first non-whitespace character at or after `i` (or `|s|`). */
  function SkipSpaces(s: string, i: nat): (j: nat)
    requires i <= |s|
    ensures i <= j <= |s|
    ensures j < |s| ==> !IsSpace(s[j])
    ensures forall k :: i <= k < j ==> IsSpace(s[k])
    decreases |s| - i
  {
    if i < |s| && IsSpace(s[i]) then SkipSpaces(s, i + 1) else i
  }

  /** The index just after the last non-whitespace character before `j` (or 0). */
  function SkipSpacesBack(s: string, j: nat): (i: nat)
    requires j <= |s|
    ensures i <= j
    ensures i > 0 ==> !IsSpace(s[i - 1])
    ensures forall k :: i <= k < j ==> IsSpace(s[k])
  {
    if j > 0 && IsSpace(s[j - 1]) then SkipSpacesBack(s, j - 1) else j
  }

  /** `trimStart`. */
  function TrimStart(s: string): string {
    s[SkipSpaces(s, 0)..]
  }

  /** `String.prototype.trim`: the infix between the first and the last non-whitespace
      characters, empty when there are none. */
  function Trim(s: string): (r: string)
    ensures NoSpaceAtEnds(r) && |r| <= |s|
  {
    var a := SkipSpaces(s, 0);
    var b := SkipSpacesBack(s, |s|);
    if b <= a then "" else s[a..b]
  }

  /** The first non-whitespace index is determined by the characters alone. */
  lemma {:induction false} SkipSpacesAt(s: string, i: nat, a: nat)
    requires i <= a <= |s|
    requires forall k :: i <= k < a ==> IsSpace(s[k])
    requires a == |s| || !IsSpace(s[a])
    ensures SkipSpaces(s, i) == a
    decreases a - i
  {
    if i < a {
      SkipSpacesAt(s, i + 1, a);
    }
  }

  /** The last non-whitespace index is determined by the characters alone. */
  lemma {:induction false} SkipSpacesBackAt(s: string, j: nat, b: nat)
    requires b <= j <= |s|
    requires forall k :: b <= k < j ==> IsSpace(s[k])
    requires b == 0 || !IsSpace(s[b - 1])
    ensures SkipSpacesBack(s, j) == b
    decreases j - b
  {
    if b < j {
      SkipSpacesBackAt(s, j - 1, b);
    }
  }

  /** Any split of `s` into whitespace, a core with non-whitespace ends, and whitespace, has that
      core as its trim. */
  lemma TrimUnique(s: string, a: nat, b: nat)
    requires a <= b <= |s|
    requires forall k :: 0 <= k < a ==> IsSpace(s[k])
    requires forall k :: b <= k < |s| ==> IsSpace(s[k])
    requires NoSpaceAtEnds(s[a..b])
    ensures Trim(s) == s[a..b]
  {
    if a < b {
      assert s[a..b][0] == s[a] && s[a..b][b - a - 1] == s[b - 1];
      SkipSpacesAt(s, 0, a);
      SkipSpacesBackAt(s, |s|, b);
    } else {
      SkipSpacesAt(s, 0, |s|);
    }
  }

  /** `trim` removes a run of whitespace from each end and nothing else. */
  lemma TrimShape(s: string) returns (a: nat)
    ensures a + |Trim(s)| <= |s| && Trim(s) == s[a..a + |Trim(s)|]
    ensures forall k :: 0 <= k < a ==> IsSpace(s[k])
    ensures forall k :: a + |Trim(s)| <= k < |s| ==> IsSpace(s[k])
  {
    a := SkipSpaces(s, 0);
    var b := SkipSpacesBack(s, |s|);
    if b <= a {
      assert a == |s|;
      a := 0;
    }
  }

  /** A string that is all whitespace trims to the empty string, and conversely. */
  lemma TrimEmptyIffBlank(s: string)
    ensures Trim(s) == "" <==> AllSpace(s)
  {
    var a := TrimShape(s);
    if AllSpace(s) {
      TrimUnique(s, |s|, |s|);
    }
  }

  /** Trimming a string whose ends are not whitespace changes nothing. */
  lemma TrimNoop(s: string)
    requires NoSpaceAtEnds(s)
    ensures Trim(s) == s
  {
    TrimUnique(s, 0, |s|);
  }

  /** `trim` is idempotent. */
  lemma TrimIdempotent(s: string)
    ensures Trim(Trim(s)) == Trim(s)
  {
    TrimNoop(Trim(s));
  }

  /** Whitespace added around a string disappears under `trim`. */
  lemma TrimPadding(pre: string, s: string, post: string)
    requires AllSpace(pre) && AllSpace(post)
    ensures Trim(pre + s + post) == Trim(s)
  {
    var a := TrimShape(s);
    var t := Trim(s);
    var w := pre + s + post;
    var lo, hi := |pre| + a, |pre| + a + |t|;
    assert w[lo..hi] == t by {
      forall k | 0 <= k < |t| ensures w[lo..hi][k] == t[k] {
        assert w[lo + k] == s[a + k];
      }
    }
    assert forall k :: 0 <= k < lo ==> IsSpace(w[k]) by {
      forall k | 0 <= k < lo ensures IsSpace(w[k]) {
        if k >= |pre| {
          assert w[k] == s[k - |pre|];
        } else {
          assert w[k] == pre[k];
        }
      }
    }
    assert forall k :: hi <= k < |w| ==> IsSpace(w[k]) by {
      forall k | hi <= k < |w| ensures IsSpace(w[k]) {
        if k < |pre| + |s| {
          assert w[k] == s[k - |pre|];
        } else {
          assert w[k] == post[k - |pre| - |s|];
        }
      }
    }
    TrimUnique(w, lo, hi);
  }

  /** ASCII lower-casing of one character. */
  function LowerChar(c: char): (r: char)
    ensures IsSpace(r) <==> IsSpace(c)
    ensures !('A' <= r <= 'Z')
  {
    if 'A' <= c <= 'Z' then (c as int + 32) as char else c
  }

  /** `toLowerCase`, restricted to the ASCII letters. */
  function Lower(s: string): (r: string)
    ensures |r| == |s|
    ensures forall i :: 0 <= i < |s| ==> r[i] == LowerChar(s[i])
  {
    if |s| == 0 then [] else [LowerChar(s[0])] + Lower(s[1..])
  }

  lemma LowerAppend(a: string, b: string)
    ensures Lower(a + b) == Lower(a) + Lower(b)
  {
  }

  /** Lower-casing is idempotent. */
  lemma LowerIdempotent(s: string)
    ensures Lower(Lower(s)) == Lower(s)
  {
  }

  /** Lower-casing keeps a run of whitespace. */
  lemma LowerSpaces(s: string, lo: nat, hi: nat)
    requires lo <= hi <= |s|
    requires forall k :: lo <= k < hi ==> IsSpace(s[k])
    ensures forall k :: lo <= k < hi ==> IsSpace(Lower(s)[k])
  {
    forall k | lo <= k < hi ensures IsSpace(Lower(s)[k]) {
      assert Lower(s)[k] == LowerChar(s[k]);
    }
  }

  /** Lower-casing commutes with slicing. */
  lemma {:induction false} LowerSlice(s: string, lo: nat, hi: nat)
    requires lo <= hi <= |s|
    ensures Lower(s)[lo..hi] == Lower(s[lo..hi])
  {
    var l := Lower(s)[lo..hi];
    var m := Lower(s[lo..hi]);
    assert |l| == |m|;
    forall k | 0 <= k < |l| ensures l[k] == m[k] {
      assert l[k] == LowerChar(s[lo + k]);
      assert m[k] == LowerChar(s[lo..hi][k]);
    }
  }

  /** Lower-casing keeps a string free of whitespace at its ends. */
  lemma LowerNoSpaceAtEnds(t: string)
    requires NoSpaceAtEnds(t)
    ensures NoSpaceAtEnds(Lower(t))
  {
    if |t| > 0 {
      assert Lower(t)[0] == LowerChar(t[0]) && Lower(t)[|t| - 1] == LowerChar(t[|t| - 1]);
    }
  }

  /** Lower-casing commutes with trimming, since it never turns whitespace into anything else. */
  lemma LowerTrim(s: string)
    ensures Lower(Trim(s)) == Trim(Lower(s))
  {
    var a := TrimShape(s);
    var t := Trim(s);
    var b := a + |t|;
    LowerSpaces(s, 0, a);
    LowerSpaces(s, b, |s|);
    LowerSlice(s, a, b);
    LowerNoSpaceAtEnds(t);
    TrimUnique(Lower(s), a, b);
  }

  /** The first index at or after `i` holding `c`, or `|s|` when there is none. */
  function FindChar(s: string, c: char, i: nat): (r: nat)
    requires i <= |s|
    ensures i <= r <= |s|
    ensures r < |s| ==> s[r] == c
    ensures forall k :: i <= k < r ==> s[k] != c
    decreases |s| - i
  {
    if i == |s| || s[i] == c then i else FindChar(s, c, i + 1)
  }

  /** `FindChar` is determined by the characters alone. */
  lemma {:induction false} FindCharAt(s: string, c: char, i: nat, e: nat)
    requires i <= e <= |s|
    requires forall k :: i <= k < e ==> s[k] != c
    requires e == |s| || s[e] == c
    ensures FindChar(s, c, i) == e
    decreases e - i
  {
    if i < e {
      FindCharAt(s, c, i + 1, e);
    }
  }

  /** The first index at or after `i` holding one of the characters of `stops`, or `|s|` when
      there is none: the end of a maximal run of a negated class such as `[^/?#]`. */
  function FindAny(s: string, stops: string, i: nat): (r: nat)
    requires i <= |s|
    ensures i <= r <= |s|
    ensures r < |s| ==> s[r] in stops
    ensures forall k :: i <= k < r ==> s[k] !in stops
    decreases |s| - i
  {
    if i == |s| || s[i] in stops then i else FindAny(s, stops, i + 1)
  }

  /** `FindAny` is determined by the characters alone. */
  lemma {:induction false} FindAnyAt(s: string, stops: string, i: nat, e: nat)
    requires i <= e <= |s|
    requires forall k :: i <= k < e ==> s[k] !in stops
    requires e == |s| || s[e] in stops
    ensures FindAny(s, stops, i) == e
    decreases e - i
  {
    if i < e {
      FindAnyAt(s, stops, i + 1, e);
    }
  }

  /** The end of the run of ASCII digits (`\d*`) starting at `i`. */
  function SkipDigits(s: string, i: nat): (j: nat)
    requires i <= |s|
    ensures i <= j <= |s|
    ensures j < |s| ==> !IsDigit(s[j])
    ensures forall k :: i <= k < j ==> IsDigit(s[k])
    decreases |s| - i
  {
    if i < |s| && IsDigit(s[i]) then SkipDigits(s, i + 1) else i
  }

  /** `SkipDigits` is determined by the characters alone. */
  lemma {:induction false} SkipDigitsAt(s: string, i: nat, e: nat)
    requires i <= e <= |s|
    requires forall k :: i <= k < e ==> IsDigit(s[k])
    requires e == |s| || !IsDigit(s[e])
    ensures SkipDigits(s, i) == e
    decreases e - i
  {
    if i < e {
      SkipDigitsAt(s, i + 1, e);
    }
  }

  /** `startsWith`. */
  predicate StartsWith(s: string, prefix: string) {
    |prefix| <= |s| && s[..|prefix|] == prefix
  }

  /** `includes`: some position of `s` starts an occurrence of `sub`. */
  predicate Contains(s: string, sub: string)
    decreases |s|
  {
    StartsWith(s, sub) || (|s| > 0 && Contains(s[1..], sub))
  }

  /** `sub` occurs in `s` starting at index `i`. */
  predicate OccursAt(s: string, sub: string, i: int) {
    0 <= i <= |s| - |sub| && s[i..i + |sub|] == sub
  }

  /** `includes` holds exactly when `sub` occurs at some index. */
  lemma {:induction false} ContainsIff(s: string, sub: string)
    ensures Contains(s, sub) <==> exists i :: OccursAt(s, sub, i)
    decreases |s|
  {
    if StartsWith(s, sub) {
      assert OccursAt(s, sub, 0);
    } else if |s| > 0 {
      ContainsIff(s[1..], sub);
      if Contains(s[1..], sub) {
        var i :| OccursAt(s[1..], sub, i);
        assert s[1..][i..i + |sub|] == s[i + 1..i + 1 + |sub|];
        assert OccursAt(s, sub, i + 1);
      } else {
        forall i | 0 <= i <= |s| - |sub| ensures !OccursAt(s, sub, i) {
          if i == 0 {
            assert s[..|sub|] == s[0..|sub|];
          } else {
            assert s[1..][i - 1..i - 1 + |sub|] == s[i..i + |sub|];
            assert !OccursAt(s[1..], sub, i - 1);
          }
        }
      }
    }
  }

  /** A string containing `sub` still contains it with more text on either side. */
  lemma ContainsInfix(pre: string, s: string, post: string, sub: string)
    requires Contains(s, sub)
    ensures Contains(pre + s + post, sub)
  {
    ContainsIff(s, sub);
    var i :| OccursAt(s, sub, i);
    assert (pre + s + post)[|pre| + i..|pre| + i + |sub|] == sub;
    assert OccursAt(pre + s + post, sub, |pre| + i);
    ContainsIff(pre + s + post, sub);
  }

  /** `String.prototype.replace(/pat/g, rep)` for a literal pattern: occurrences are found left to
      right and replaced without overlapping. */
  function ReplaceAll(s: string, pat: string, rep: string): (r: string)
    requires |pat| > 0
    decreases |s|
  {
    if |s| == 0 then ""
    else if StartsWith(s, pat) then rep + ReplaceAll(s[|pat|..], pat, rep)
    else [s[0]] + ReplaceAll(s[1..], pat, rep)
  }

  /** A string with no occurrence of the pattern is left unchanged. */
  lemma {:induction false} ReplaceAllAbsent(s: string, pat: string, rep: string)
    requires |pat| > 0
    requires !Contains(s, pat)
    ensures ReplaceAll(s, pat, rep) == s
    decreases |s|
  {
    if |s| > 0 {
      ReplaceAllAbsent(s[1..], pat, rep);
    }
  }

  /** When the replacement is no longer than the pattern, the result is no longer than the input. */
  lemma {:induction false} ReplaceAllShrinks(s: string, pat: string, rep: string)
    requires |pat| > 0 && |rep| <= |pat|
    ensures |ReplaceAll(s, pat, rep)| <= |s|
    decreases |s|
  {
    if |s| > 0 {
      if StartsWith(s, pat) {
        ReplaceAllShrinks(s[|pat|..], pat, rep);
      } else {
        ReplaceAllShrinks(s[1..], pat, rep);
      }
    }
  }

  /** A character absent from both the input and the replacement is absent from the output. */
  lemma {:induction false} ReplaceAllKeepsOut(s: string, pat: string, rep: string, c: char)
    requires |pat| > 0 && c !in s && c !in rep
    ensures c !in ReplaceAll(s, pat, rep)
    decreases |s|
  {
    if |s| > 0 {
      if StartsWith(s, pat) {
        ReplaceAllKeepsOut(s[|pat|..], pat, rep, c);
      } else {
        ReplaceAllKeepsOut(s[1..], pat, rep, c);
      }
    }
  }

  /** A string without the pattern's first character does not contain the pattern. */
  lemma NotContainsWithoutHead(s: string, pat: string)
    requires |pat| > 0 && pat[0] !in s
    ensures !Contains(s, pat)
  {
    ContainsIff(s, pat);
    forall i | 0 <= i <= |s| - |pat| ensures !OccursAt(s, pat, i) {
      assert s[i..i + |pat|][0] == s[i];
    }
  }

  /** Position arithmetic of `String.prototype.slice`: negative positions count from the end and
      everything is clamped into `[0, len]`. */
  function SlicePos(i: int, len: nat): (p: nat)
    ensures p <= len
    ensures 0 <= i <= len ==> p == i
  {
    if i < 0 then (if len + i < 0 then 0 else len + i)
    else if i > len then len
    else i
  }

  /** `String.prototype.slice(start, end)`. */
  function JsSlice(s: string, start: int, end: int): (r: string)
    ensures 0 <= start <= end <= |s| ==> r == s[start..end]
    ensures |r| <= |s|
  {
    var a := SlicePos(start, |s|);
    var b := SlicePos(end, |s|);
    if b <= a then "" else s[a..b]
  }

  /** The decimal digits of a natural number, as `${n}` renders it. */
  function NatToString(n: nat): (r: string)
    ensures |r| > 0
    ensures forall i :: 0 <= i < |r| ==> IsDigit(r[i])
    ensures n > 0 ==> r[0] != '0'
  {
    if n < 10 then [('0' as int + n) as char]
    else NatToString(n / 10) + [('0' as int + n % 10) as char]
  }

  /** The value of a string of decimal digits. */
  function DecimalValue(s: string): nat
    requires forall i :: 0 <= i < |s| ==> IsDigit(s[i])
  {
    if |s| == 0 then 0
    else
      assert IsDigit(s[|s| - 1]);
      10 * DecimalValue(s[..|s| - 1]) + (s[|s| - 1] as int - '0' as int)
  }

  /** Reading back the digits of `n` gives `n`. */
  lemma {:induction false} NatToStringRoundTrip(n: nat)
    ensures DecimalValue(NatToString(n)) == n
  {
    if n >= 10 {
      NatToStringRoundTrip(n / 10);
      var s := NatToString(n);
      assert s[..|s| - 1] == NatToString(n / 10);
    }
  }
}
