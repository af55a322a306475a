/** Regular-expression matches as the parsers consume them. The regular-expression engine is not
    part of this model: each global regular expression is a function from the searched text to the
    sequence of its matches, in the order `String.prototype.matchAll` yields them. */
module Regex {
  import opened Wrappers

  /** One match: where it starts in the searched text, the whole matched text (`match[0]`), and the
      capture groups (`groups[0]` is `match[1]`). */
  datatype Match = Match(index: nat, text: string, groups: seq<string>) {

    /** `match[k]` for a capture group `k >= 1`; a group that did not take part reads as "". */
    function Group(k: nat): string {
      if 1 <= k <= |groups| then groups[k - 1] else ""
    }
  }

  /** `text.matchAll(regex)` for one fixed regular expression. */
  type Matcher = string -> seq<Match>

  /** `regex.exec(text)` for the same pattern without the `g` flag: the leftmost match. */
  function Exec(m: Matcher, text: string): (r: Option<Match>)
    ensures r.None? <==> |m(text)| == 0
    ensures r.Some? ==> r.value in m(text)
  {
    if |m(text)| == 0 then None else Some(m(text)[0])
  }

  /** Capture group `k` of the last match in a sequence of matches, none when there is no match. */
  function LastGroup(ms: seq<Match>, k: nat): (r: Option<string>)
    ensures r.None? <==> |ms| == 0
    ensures r.Some? ==> r.value == ms[|ms| - 1].Group(k)
  {
    if |ms| == 0 then None else Some(ms[|ms| - 1].Group(k))
  }

  /** The match lies inside the searched text, and that part of the text is what it matched. */
  predicate Within(mt: Match, text: string) {
    mt.index + |mt.text| <= |text| && text[mt.index..mt.index + |mt.text|] == mt.text
  }
}
