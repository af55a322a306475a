/** The part of the WHATWG URL API the extension uses. Parsing and serialisation are not modelled:
    they are the two functions of a `UrlApi`, supplied from outside. A parsed URL is a record whose
    query is the ordered list of `URLSearchParams` pairs. */
module Urls {
  import opened Wrappers

  datatype Url = Url(origin: string, pathname: string, query: seq<(string, string)>, hash: string)

  /** `new URL(input, base)` (none when it throws) and `url.toString()`. */
  datatype UrlApi = UrlApi(parse: (string, Option<string>) -> Option<Url>, serialize: Url -> string)

  /** `url.searchParams.get(name)`: the value of the first pair with that name. */
  function QueryGet(query: seq<(string, string)>, name: string): (r: Option<string>)
    ensures r.None? <==> forall i :: 0 <= i < |query| ==> query[i].0 != name
    ensures r.Some? ==> (name, r.value) in query
  {
    if |query| == 0 then None
    else if query[0].0 == name then Some(query[0].1)
    else QueryGet(query[1..], name)
  }

  /** `url.searchParams.set(name, value)`: the first pair with that name takes the value, every
      later pair with that name is removed, and the pair is appended when there was none. */
  function QuerySet(query: seq<(string, string)>, name: string, value: string): (r: seq<(string, string)>)
  {
    if |query| == 0 then [(name, value)]
    else if query[0].0 == name then [(name, value)] + RemoveAll(query[1..], name)
    else [query[0]] + QuerySet(query[1..], name, value)
  }

  /** The pairs whose name differs from `name`, in order. */
  function RemoveAll(query: seq<(string, string)>, name: string): (r: seq<(string, string)>)
    ensures forall i :: 0 <= i < |r| ==> r[i].0 != name
  {
    if |query| == 0 then []
    else if query[0].0 == name then RemoveAll(query[1..], name)
    else [query[0]] + RemoveAll(query[1..], name)
  }

  /** Removing every pair named `name` keeps the first value of every other name. */
  lemma {:induction false} RemoveAllGet(query: seq<(string, string)>, name: string, other: string)
    requires other != name
    ensures QueryGet(RemoveAll(query, name), other) == QueryGet(query, other)
    decreases |query|
  {
    if |query| > 0 {
      RemoveAllGet(query[1..], name, other);
    }
  }

  /** The number of pairs named `name`. */
  function Count(query: seq<(string, string)>, name: string): nat {
    if |query| == 0 then 0 else (if query[0].0 == name then 1 else 0) + Count(query[1..], name)
  }

  /** After `set`, reading the name back gives the value, reading any other name gives what it gave
      before, and the name occurs exactly once. */
  lemma {:induction false} QuerySetGet(query: seq<(string, string)>, name: string, value: string, other: string)
    ensures QueryGet(QuerySet(query, name, value), name) == Some(value)
    ensures other != name ==> QueryGet(QuerySet(query, name, value), other) == QueryGet(query, other)
    ensures Count(QuerySet(query, name, value), name) == 1
    decreases |query|
  {
    if |query| == 0 {
    } else if query[0].0 == name {
      if other != name {
        RemoveAllGet(query[1..], name, other);
      }
      RemoveAllCount(query[1..], name);
    } else {
      QuerySetGet(query[1..], name, value, other);
    }
  }

  lemma {:induction false} RemoveAllCount(query: seq<(string, string)>, name: string)
    ensures Count(RemoveAll(query, name), name) == 0
    decreases |query|
  {
    if |query| > 0 {
      RemoveAllCount(query[1..], name);
    }
  }

  /** `new URL(rawUrl, pageUrl).toString()`, or `rawUrl` unchanged when that throws. */
  function ToAbsoluteUrl(api: UrlApi, rawUrl: string, pageUrl: string): (r: string)
    ensures api.parse(rawUrl, Some(pageUrl)).None? ==> r == rawUrl
    ensures api.parse(rawUrl, Some(pageUrl)).Some? ==> r == api.serialize(api.parse(rawUrl, Some(pageUrl)).value)
  {
    match api.parse(rawUrl, Some(pageUrl))
    case Some(u) => api.serialize(u)
    case None => rawUrl
  }
}
