/** The small attribute expressions the card parsers build from an attribute name,
    `name=<quote>(<run>)<quote>` with the `i` flag, and their leftmost match (`RegExp.exec`).
    The quote characters also bound the run, and call sites differ in which quotes they accept and
    whether the run may be empty. */
module Attributes {
  import opened Wrappers
  import opened Strings

  /** The quotes an expression accepts, and whether its run may be empty. */
  datatype Shape = Shape(quotes: string, allowEmpty: bool)

  /** `name=["']([^"']+)["']`, as the kissjav card parser builds it. */
  const EitherQuote := Shape("\"'", false)

  /** `name="([^"]*)"`, as the kone card parser builds it. */
  const DoubleQuote := Shape("\"", true)

  /** The expression matches at `i` capturing `v`: the name in any ASCII case, `=`, an opening
      quote, `v` free of quotes, and a closing quote. */
  predicate MatchAt(s: string, name: string, shape: Shape, i: nat, v: string) {
    var start := i + |name| + 2;
    && start + |v| < |s|
    && Lower(s[i..i + |name|]) == Lower(name)
    && s[i + |name|] == '='
    && s[i + |name| + 1] in shape.quotes
    && s[start..start + |v|] == v
    && (forall k :: 0 <= k < |v| ==> v[k] !in shape.quotes)
    && s[start + |v|] in shape.quotes
    && (shape.allowEmpty || |v| > 0)
  }

  /** The value captured by a match starting at `i`, if the expression matches there. */
  function AttributeAt(s: string, name: string, shape: Shape, i: nat): (r: Option<string>)
  {
    var start := i + |name| + 2;
    if start <= |s| && Lower(s[i..i + |name|]) == Lower(name) && s[i + |name|] == '='
       && s[i + |name| + 1] in shape.quotes
    then
      var e := FindAny(s, shape.quotes, start);
      if e < |s| && (shape.allowEmpty || e > start) then Some(s[start..e]) else None
    else None
  }

  /** `AttributeAt` is exactly the expression's match at `i`: the greedy run has to stop at the
      first quote, so the captured value is determined by the position. */
  lemma AttributeAtIff(s: string, name: string, shape: Shape, i: nat, v: string)
    ensures AttributeAt(s, name, shape, i) == Some(v) <==> MatchAt(s, name, shape, i, v)
  {
    var start := i + |name| + 2;
    if MatchAt(s, name, shape, i, v) {
      assert forall k :: start <= k < start + |v| ==> s[k] == v[k - start];
      FindAnyAt(s, shape.quotes, start, start + |v|);
    }
  }

  /** The leftmost position at or after `i` where the expression matches, or `|s| + 1`. */
  function FirstMatch(s: string, name: string, shape: Shape, i: nat): (j: nat)
    requires i <= |s| + 1
    ensures i <= j <= |s| + 1
    ensures j <= |s| ==> AttributeAt(s, name, shape, j).Some?
    ensures forall k :: i <= k < j ==> AttributeAt(s, name, shape, k).None?
    decreases |s| + 1 - i
  {
    if i == |s| + 1 || AttributeAt(s, name, shape, i).Some? then i
    else FirstMatch(s, name, shape, i + 1)
  }

  /** `new RegExp(`${name}=...`, 'i').exec(source)?.[1]`: the value of the leftmost match. */
  function ExecAttribute(s: string, name: string, shape: Shape): (r: Option<string>)
    ensures r.Some? ==> exists j :: 0 <= j <= |s| && MatchAt(s, name, shape, j, r.value)
                          && forall k, v :: 0 <= k < j ==> !MatchAt(s, name, shape, k, v)
    ensures r.None? <==> forall j, v :: 0 <= j <= |s| ==> !MatchAt(s, name, shape, j, v)
  {
    var j := FirstMatch(s, name, shape, 0);
    forall k, v | 0 <= k < j && k <= |s| ensures !MatchAt(s, name, shape, k, v) {
      AttributeAtIff(s, name, shape, k, v);
    }
    if j <= |s| then
      AttributeAtIff(s, name, shape, j, AttributeAt(s, name, shape, j).value);
      AttributeAt(s, name, shape, j)
    else None
  }
}
