/** The text helpers every parser shares: tag stripping, entity decoding, whitespace
    normalisation, clipping, absolute URLs, and the first-wins de-duplication of parsed items. */
module ParserUtils {
  import opened Wrappers
  import opened Strings
  import opened Urls
  import opened Contracts
  import Dedupe

  // ---------------------------------------------------------------- stripTags

  /** The length of the tag that `/<[^>]+>/` matches at the start of `s`: a `<`, at least one
      character other than `>`, and the first `>` after them. */
  function TagAt(s: string): (r: Option<nat>)
    ensures r.Some? ==> 3 <= r.value <= |s| && s[0] == '<' && s[r.value - 1] == '>'
    ensures r.Some? ==> forall k :: 1 <= k < r.value - 1 ==> s[k] != '>'
  {
    if |s| == 0 || s[0] != '<' then None
    else
      var e := FindChar(s, '>', 1);
      if e == |s| || e == 1 then None else Some(e + 1)
  }

  /** `stripTags`: every tag, scanning left to right, becomes one space. */
  function StripTags(s: string): (r: string)
    ensures |r| <= |s|
    decreases |s|
  {
    if |s| == 0 then ""
    else match TagAt(s)
      case Some(n) => " " + StripTags(s[n..])
      case None => [s[0]] + StripTags(s[1..])
  }

  /** A string without `<` has no tag, so nothing is replaced. */
  lemma {:induction false} StripTagsNoLt(s: string)
    requires '<' !in s
    ensures StripTags(s) == s
    decreases |s|
  {
    if |s| > 0 {
      StripTagsNoLt(s[1..]);
    }
  }

  /** A tag at the front is replaced by exactly one space, and the scan resumes after it. */
  lemma StripTagsTag(t: string, rest: string)
    requires |t| > 0 && '>' !in t
    ensures StripTags("<" + t + ">" + rest) == " " + StripTags(rest)
  {
    var s := "<" + t + ">" + rest;
    assert forall k :: 1 <= k <= |t| ==> s[k] == t[k - 1];
    FindCharAt(s, '>', 1, |t| + 1);
    assert s[|t| + 2..] == rest;
  }

  /** No position of `s` starts a tag. */
  predicate TagFree(s: string) {
    forall i :: 0 <= i < |s| ==> TagAt(s[i..]).None?
  }

  lemma TagFreeCons(c: char, s: string)
    ensures TagFree([c] + s) <==> TagAt([c] + s).None? && TagFree(s)
  {
    var w := [c] + s;
    assert forall i :: 1 <= i <= |w| ==> w[i..] == s[i - 1..];
    if TagAt(w).None? && TagFree(s) {
      forall i | 0 <= i < |w| ensures TagAt(w[i..]).None? {
        if i > 0 {
          assert TagAt(s[i - 1..]).None?;
        }
      }
    }
    if TagFree(w) {
      forall i | 0 <= i < |s| ensures TagAt(s[i..]).None? {
        assert TagAt(w[i + 1..]).None?;
      }
      assert w[0..] == w;
    }
  }

  /** Stripping introduces no character other than the space: a character absent from the input
      and not a space is absent from the output. */
  lemma {:induction false} StripTagsKeepsOut(s: string, c: char)
    requires c != ' ' && c !in s
    ensures c !in StripTags(s)
    decreases |s|
  {
    if |s| > 0 {
      match TagAt(s)
      case Some(n) => StripTagsKeepsOut(s[n..], c);
      case None => StripTagsKeepsOut(s[1..], c);
    }
  }

  /** A tag-free string is left unchanged. */
  lemma {:induction false} StripTagsTagFree(s: string)
    requires TagFree(s)
    ensures StripTags(s) == s
    decreases |s|
  {
    if |s| > 0 {
      TagFreeCons(s[0], s[1..]);
      assert [s[0]] + s[1..] == s;
      StripTagsTagFree(s[1..]);
    }
  }

  /** The output of `stripTags` contains no tag. */
  lemma {:induction false} StripTagsLeavesNoTag(s: string)
    ensures TagFree(StripTags(s))
    decreases |s|
  {
    if |s| > 0 {
      match TagAt(s)
      case Some(n) =>
        StripTagsLeavesNoTag(s[n..]);
        TagFreeCons(' ', StripTags(s[n..]));
      case None =>
        var rest := StripTags(s[1..]);
        StripTagsLeavesNoTag(s[1..]);
        TagFreeCons(s[0], rest);
        if s[0] == '<' {
          var e := FindChar(s, '>', 1);
          if e < |s| {
            assert s[1..][1..] == s[2..];
            assert rest == [s[1]] + StripTags(s[2..]);
            FindCharAt([s[0]] + rest, '>', 1, 1);
          } else {
            assert '>' !in s[1..] by {
              forall k | 0 <= k < |s| - 1 ensures s[1..][k] != '>' {
                assert s[k + 1] != '>';
              }
            }
            StripTagsKeepsOut(s[1..], '>');
            var w := [s[0]] + rest;
            assert forall k :: 1 <= k < |w| ==> w[k] == rest[k - 1];
            FindCharAt(w, '>', 1, |w|);
          }
        }
    }
  }

  /** Stripping tags twice is stripping them once. */
  lemma StripTagsIdempotent(s: string)
    ensures StripTags(StripTags(s)) == StripTags(s)
  {
    StripTagsLeavesNoTag(s);
    StripTagsTagFree(StripTags(s));
  }

  // ---------------------------------------------------------------- normalizeWhitespace

  /** `replace(/\s+/g, ' ')`: every maximal run of whitespace becomes one space. */
  function Collapse(s: string): (r: string)
    ensures |r| <= |s|
    ensures |s| > 0 && !IsSpace(s[0]) ==> |r| > 0 && r[0] == s[0]
    decreases |s|
  {
    if |s| == 0 then ""
    else if IsSpace(s[0]) then " " + Collapse(s[SkipSpaces(s, 0)..])
    else [s[0]] + Collapse(s[1..])
  }

  /** Every whitespace character is a plain space and no two whitespace characters are adjacent. */
  predicate SingleSpaced(s: string) {
    && (forall i :: 0 <= i < |s| && IsSpace(s[i]) ==> s[i] == ' ')
    && (forall i :: 0 <= i < |s| - 1 && IsSpace(s[i]) ==> !IsSpace(s[i + 1]))
  }

  /** The shape `normalizeWhitespace` produces: single-spaced, with no whitespace at either end. */
  predicate Normalized(s: string) {
    SingleSpaced(s) && NoSpaceAtEnds(s)
  }

  lemma {:induction false} CollapseSingleSpaced(s: string)
    ensures SingleSpaced(Collapse(s))
    decreases |s|
  {
    if |s| > 0 {
      if IsSpace(s[0]) {
        CollapseSingleSpaced(s[SkipSpaces(s, 0)..]);
      } else {
        CollapseSingleSpaced(s[1..]);
      }
    }
  }

  /** A single-spaced string is its own collapse. */
  lemma {:induction false} CollapseNoop(s: string)
    requires SingleSpaced(s)
    ensures Collapse(s) == s
    decreases |s|
  {
    if |s| > 0 {
      if IsSpace(s[0]) {
        SkipSpacesAt(s, 0, 1);
      }
      CollapseNoop(s[1..]);
    }
  }

  lemma TrimSingleSpaced(s: string)
    requires SingleSpaced(s)
    ensures SingleSpaced(Trim(s))
  {
    var a := TrimShape(s);
    var t := Trim(s);
    assert forall i :: 0 <= i < |t| ==> t[i] == s[a + i];
  }

  /** `normalizeWhitespace`: collapse the whitespace runs, then trim. */
  function NormalizeWhitespace(s: string): (r: string)
    ensures Normalized(r)
  {
    CollapseSingleSpaced(s);
    TrimSingleSpaced(Collapse(s));
    Trim(Collapse(s))
  }

  /** A normalised string is left unchanged, so normalising is idempotent. */
  lemma NormalizeNoop(s: string)
    requires Normalized(s)
    ensures NormalizeWhitespace(s) == s
  {
    CollapseNoop(s);
    TrimNoop(s);
  }

  lemma NormalizeIdempotent(s: string)
    ensures NormalizeWhitespace(NormalizeWhitespace(s)) == NormalizeWhitespace(s)
  {
    NormalizeNoop(NormalizeWhitespace(s));
  }

  /** The non-whitespace characters of `s`, in order. */
  function Visible(s: string): string {
    if |s| == 0 then "" else (if IsSpace(s[0]) then "" else [s[0]]) + Visible(s[1..])
  }

  lemma {:induction false} VisibleAppend(a: string, b: string)
    ensures Visible(a + b) == Visible(a) + Visible(b)
    decreases |a|
  {
    if |a| > 0 {
      assert (a + b)[1..] == a[1..] + b;
      VisibleAppend(a[1..], b);
    } else {
      assert a + b == b;
    }
  }

  lemma {:induction false} VisibleBlank(s: string)
    requires forall k :: 0 <= k < |s| ==> IsSpace(s[k])
    ensures Visible(s) == ""
    decreases |s|
  {
    if |s| > 0 {
      VisibleBlank(s[1..]);
    }
  }

  lemma {:induction false} CollapseVisible(s: string)
    ensures Visible(Collapse(s)) == Visible(s)
    decreases |s|
  {
    if |s| > 0 {
      if IsSpace(s[0]) {
        var j := SkipSpaces(s, 0);
        CollapseVisible(s[j..]);
        assert s == s[..j] + s[j..];
        VisibleAppend(s[..j], s[j..]);
        VisibleBlank(s[..j]);
      } else {
        CollapseVisible(s[1..]);
      }
    }
  }

  lemma TrimVisible(s: string)
    ensures Visible(Trim(s)) == Visible(s)
  {
    var a := TrimShape(s);
    var b := a + |Trim(s)|;
    assert s == s[..a] + Trim(s) + s[b..];
    VisibleAppend(s[..a] + Trim(s), s[b..]);
    VisibleAppend(s[..a], Trim(s));
    VisibleBlank(s[..a]);
    VisibleBlank(s[b..]);
  }

  /** Normalising only touches whitespace: the visible characters are kept, in order. */
  lemma NormalizeVisible(s: string)
    ensures Visible(NormalizeWhitespace(s)) == Visible(s)
  {
    CollapseVisible(s);
    TrimVisible(Collapse(s));
  }

  /** A string has no visible character exactly when it is all whitespace. */
  lemma {:induction false} VisibleEmptyIff(s: string)
    ensures Visible(s) == "" <==> AllSpace(s)
    decreases |s|
  {
    if |s| > 0 {
      VisibleEmptyIff(s[1..]);
      assert forall k :: 1 <= k < |s| ==> s[k] == s[1..][k - 1];
    }
  }

  // ---------------------------------------------------------------- decodeHtmlEntities

  /** `decodeHtmlEntities`: five literal replacements, `&amp;` first. */
  function DecodeHtmlEntities(s: string): (r: string)
    ensures |r| <= |s|
  {
    var s1 := ReplaceAll(s, "&amp;", "&");
    var s2 := ReplaceAll(s1, "&quot;", "\"");
    var s3 := ReplaceAll(s2, "&#39;", "'");
    var s4 := ReplaceAll(s3, "&lt;", "<");
    ReplaceAllShrinks(s, "&amp;", "&");
    ReplaceAllShrinks(s1, "&quot;", "\"");
    ReplaceAllShrinks(s2, "&#39;", "'");
    ReplaceAllShrinks(s3, "&lt;", "<");
    ReplaceAllShrinks(s4, "&gt;", ">");
    ReplaceAll(s4, "&gt;", ">")
  }

  /** Text without `&` is left unchanged. */
  lemma DecodeNoAmpersand(s: string)
    requires '&' !in s
    ensures DecodeHtmlEntities(s) == s
  {
    NotContainsWithoutHead(s, "&amp;");
    ReplaceAllAbsent(s, "&amp;", "&");
    NotContainsWithoutHead(s, "&quot;");
    ReplaceAllAbsent(s, "&quot;", "\"");
    NotContainsWithoutHead(s, "&#39;");
    ReplaceAllAbsent(s, "&#39;", "'");
    NotContainsWithoutHead(s, "&lt;");
    ReplaceAllAbsent(s, "&lt;", "<");
    NotContainsWithoutHead(s, "&gt;");
    ReplaceAllAbsent(s, "&gt;", ">");
  }

  /** Decoding is one pass in a fixed order: `&amp;` is decoded first, so an escaped entity is
      decoded twice. */
  lemma DecodeTwice()
    ensures DecodeHtmlEntities("&amp;lt;") == "<"
  {
    assert ReplaceAll("&amp;lt;", "&amp;", "&") == "&lt;" by {
      assert StartsWith("&amp;lt;", "&amp;");
      assert "&amp;lt;"[5..] == "lt;";
      NotContainsWithoutHead("lt;", "&amp;");
      ReplaceAllAbsent("lt;", "&amp;", "&");
    }
    Unmatched("&lt;", "&quot;", "\"");
    Unmatched("&lt;", "&#39;", "'");
    assert ReplaceAll("&lt;", "&lt;", "<") == "<" by {
      assert StartsWith("&lt;", "&lt;");
      assert "&lt;"[4..] == "";
    }
    NotContainsWithoutHead("<", "&gt;");
    ReplaceAllAbsent("<", "&gt;", ">");
  }

  /** Text in which no `&` starts one of the five entities is left unchanged. */
  lemma DecodeUnmatched(u: string)
    requires forall i :: 0 <= i < |u| - 1 && u[i] == '&' ==> u[i + 1] !in "q#lga"
    ensures DecodeHtmlEntities(u) == u
  {
    Unmatched(u, "&amp;", "&");
    Unmatched(u, "&quot;", "\"");
    Unmatched(u, "&#39;", "'");
    Unmatched(u, "&lt;", "<");
    Unmatched(u, "&gt;", ">");
  }

  /** An entity outside the five is kept as it is. */
  lemma DecodeKeepsOtherEntities()
    ensures DecodeHtmlEntities("a&nbsp;b") == "a&nbsp;b"
  {
    var u := "a&nbsp;b";
    forall i | 0 <= i < |u| - 1 && u[i] == '&' ensures u[i + 1] !in "q#lga" {
      assert i == 1;
    }
    DecodeUnmatched(u);
  }

  /** A text in which the pattern's first character is never followed by its second is left
      unchanged by the replacement. */
  lemma Unmatched(u: string, pat: string, rep: string)
    requires |pat| > 1
    requires forall i :: 0 <= i < |u| - 1 && u[i] == pat[0] ==> u[i + 1] != pat[1]
    ensures ReplaceAll(u, pat, rep) == u
  {
    ContainsIff(u, pat);
    forall i | 0 <= i <= |u| - |pat| ensures !OccursAt(u, pat, i) {
      assert u[i..i + |pat|][0] == u[i] && u[i..i + |pat|][1] == u[i + 1];
    }
    ReplaceAllAbsent(u, pat, rep);
  }

  // ---------------------------------------------------------------- cleanText and clipText

  /** `cleanText`: strip tags, decode entities, normalise whitespace. */
  function CleanText(s: string): (r: string)
    ensures Normalized(r)
    ensures Visible(r) == Visible(DecodeHtmlEntities(StripTags(s)))
  {
    NormalizeVisible(DecodeHtmlEntities(StripTags(s)));
    NormalizeWhitespace(DecodeHtmlEntities(StripTags(s)))
  }

  /** `cleanText` is empty exactly when the text left after stripping tags and decoding entities
      is all whitespace, which is when a parser skips the entry. */
  lemma CleanTextEmpty(s: string)
    ensures CleanText(s) == "" <==> AllSpace(DecodeHtmlEntities(StripTags(s)))
  {
    var r := CleanText(s);
    VisibleEmptyIff(r);
    VisibleEmptyIff(DecodeHtmlEntities(StripTags(s)));
    if |r| > 0 {
      assert !IsSpace(r[0]);
    }
  }

  /** On text with neither markup nor entities, `cleanText` only normalises whitespace. */
  lemma CleanPlainText(s: string)
    requires '<' !in s && '&' !in s
    ensures CleanText(s) == NormalizeWhitespace(s)
  {
    StripTagsNoLt(s);
    DecodeNoAmpersand(s);
  }

  /** `clipText(input, limit)`: the input when it fits, otherwise `input.slice(0, limit - 3)`
      followed by an ellipsis. A limit below 3 makes the slice end negative, so it counts from the
      end of the input. */
  function ClipText(s: string, limit: int): (r: string)
    ensures |s| <= limit ==> r == s
    ensures |s| > limit >= 3 ==> |r| == limit && r == s[..limit - 3] + "..."
    ensures |s| > limit && limit < 3 ==>
              r == s[..if |s| + limit - 3 < 0 then 0 else |s| + limit - 3] + "..."
  {
    if |s| <= limit then s else JsSlice(s, 0, limit - 3) + "..."
  }

  // ---------------------------------------------------------------- dedupeByUrlAndTitle

  /** The identity of a parsed item: its lower-cased url and its trimmed, lower-cased title. */
  function UrlTitleKey(item: ParsedItem): string {
    Lower(item.url) + "|" + Lower(Trim(item.title))
  }

  /** `dedupeByUrlAndTitle`: first-wins de-duplication under `UrlTitleKey`. */
  function DedupeByUrlAndTitle(items: seq<ParsedItem>): (r: seq<ParsedItem>)
    ensures |r| <= |items|
    ensures Dedupe.DistinctKeys(r, UrlTitleKey)
    ensures forall x :: x in r ==> x in items
    ensures forall i :: 0 <= i < |items| ==> UrlTitleKey(items[i]) in Dedupe.Keys(r, UrlTitleKey)
    ensures Dedupe.FirstOccurrences(r, items, UrlTitleKey)
  {
    Dedupe.DedupeDistinct(items, UrlTitleKey);
    Dedupe.DedupeMembers(items, UrlTitleKey);
    Dedupe.DedupeSpec(items, UrlTitleKey);
    Dedupe.FirstIndicesSpec(items, UrlTitleKey, |items|);
    var r := Dedupe.DedupeBy(items, UrlTitleKey);
    Dedupe.DedupeShorter(items, UrlTitleKey);
    r
  }

  /** Every item of the input is represented in the de-duplicated list by its key. */
  lemma DedupeKeepsMemberKeys(items: seq<ParsedItem>)
    ensures forall x :: x in items ==> UrlTitleKey(x) in Dedupe.Keys(DedupeByUrlAndTitle(items), UrlTitleKey)
  {
    forall x | x in items ensures UrlTitleKey(x) in Dedupe.Keys(DedupeByUrlAndTitle(items), UrlTitleKey) {
      var i :| 0 <= i < |items| && items[i] == x;
    }
  }
}
