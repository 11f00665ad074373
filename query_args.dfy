/**
 * A stated model of the two WordPress helpers the plugin uses on URLs,
 * `add_query_arg(key, '', url)` and `remove_query_arg(key, url)`. A URL is
 * split as in sections 3.4 and 3.5 of RFC 3986: the fragment starts at the
 * first '#', the query at the first '?' before it; query parameters are
 * separated by '&' and a parameter's name is the text before its first '='.
 */
module QueryArgs {
  import opened Strings
  import opened Maybe

  datatype UrlParts = UrlParts(base: string, query: Option<string>, fragment: string)

  function Parse(url: string): UrlParts
  {
    var h := IndexOf(url, '#');
    var beforeFragment := url[..h];
    var q := IndexOf(beforeFragment, '?');
    if q == |beforeFragment| then UrlParts(beforeFragment, None, url[h..])
    else UrlParts(beforeFragment[..q], Some(beforeFragment[q + 1..]), url[h..])
  }

  function Unparse(p: UrlParts): string
  {
    p.base + (match p.query case Some(q) => "?" + q case None => "") + p.fragment
  }

  /** The shapes `Parse` produces. */
  predicate WellFormed(p: UrlParts)
  {
    && '?' !in p.base && '#' !in p.base
    && (p.query.Some? ==> '#' !in p.query.value)
    && (p.fragment == [] || p.fragment[0] == '#')
  }

  /** The text before the first `c` has no `c`. */
  lemma BeforeIndexFree(s: string, c: char)
    ensures c !in s[..IndexOf(s, c)]
  {
    var k := IndexOf(s, c);
    forall i | 0 <= i < k ensures s[..k][i] != c {
      assert s[..k][i] == s[i];
    }
  }

  /** Parsing splits a URL without losing anything, into well-formed parts. */
  lemma ParseUnparse(url: string)
    ensures WellFormed(Parse(url)) && Unparse(Parse(url)) == url
  {
    ParseRoundTrip(url);
    ParseWellFormed(url);
  }

  lemma ParseRoundTrip(url: string)
    ensures Unparse(Parse(url)) == url
  {
    var h := IndexOf(url, '#');
    if IndexOf(url[..h], '?') < |url[..h]| {
      RoundTripWithQuery(url);
    } else {
      RoundTripWithoutQuery(url);
    }
  }

  lemma RoundTripWithQuery(url: string)
    requires IndexOf(url[..IndexOf(url, '#')], '?') < |url[..IndexOf(url, '#')]|
    ensures Unparse(Parse(url)) == url
  {
    var h := IndexOf(url, '#');
    var beforeFragment := url[..h];
    var q := IndexOf(beforeFragment, '?');
    var p := Parse(url);
    assert p == UrlParts(beforeFragment[..q], Some(beforeFragment[q + 1..]), url[h..]);
    assert Unparse(p) == beforeFragment[..q] + ("?" + beforeFragment[q + 1..]) + url[h..];
    RejoinQuery(beforeFragment, q, url[h..]);
    assert url == beforeFragment + url[h..];
  }

  lemma RoundTripWithoutQuery(url: string)
    requires IndexOf(url[..IndexOf(url, '#')], '?') == |url[..IndexOf(url, '#')]|
    ensures Unparse(Parse(url)) == url
  {
    var h := IndexOf(url, '#');
    var beforeFragment := url[..h];
    var p := Parse(url);
    assert p == UrlParts(beforeFragment, None, url[h..]);
    assert Unparse(p) == beforeFragment + "" + url[h..];
    assert url == beforeFragment + url[h..];
  }

  /** The text around a '?' at index `q`, joined again. */
  lemma RejoinQuery(s: string, q: int, rest: string)
    requires 0 <= q < |s| && s[q] == '?'
    ensures s[..q] + ("?" + s[q + 1..]) + rest == s + rest
  {
    assert s == s[..q] + ([s[q]] + s[q + 1..]);
  }

  lemma ParseWellFormed(url: string)
    ensures WellFormed(Parse(url))
  {
    var h := IndexOf(url, '#');
    var beforeFragment := url[..h];
    BeforeIndexFree(url, '#');
    var q := IndexOf(beforeFragment, '?');
    BeforeIndexFree(beforeFragment, '?');
    var base := beforeFragment[..q];
    var p := Parse(url);
    assert p.base == base;
    assert p.fragment == url[h..];
    assert '#' !in base by {
      forall i | 0 <= i < q ensures base[i] != '#' {
        assert base[i] == beforeFragment[i];
      }
    }
    if q < |beforeFragment| {
      var query := beforeFragment[q + 1..];
      assert p.query == Some(query);
      assert '#' !in query by {
        forall i | 0 <= i < |query| ensures query[i] != '#' {
          assert query[i] == beforeFragment[q + 1 + i];
        }
      }
    }
  }

  /** Splitting `a + rest` at the first `c`, when `a` has none and `rest` is
      empty or starts with `c`, gives back `a` and `rest`. */
  lemma SplitAtFirst(a: string, c: char, rest: string)
    requires c !in a
    requires rest == [] || rest[0] == c
    ensures IndexOf(a + rest, c) == |a|
    ensures (a + rest)[..|a|] == a && (a + rest)[|a|..] == rest
  {
    if rest != [] {
      IndexOfFirst(a, c, rest[1..]);
      assert a + rest == a + [c] + rest[1..];
    } else {
      assert a + rest == a;
    }
  }

  /** Rebuilding `s` around its '?' at index `q` with "&" and `key` appended. */
  lemma AppendAfterQuery(s: string, q: int, key: string, rest: string)
    requires 0 <= q < |s| && s[q] == '?'
    ensures s[..q] + "?" + (s[q + 1..] + "&" + key) + rest == s + "&" + key + rest
  {
    assert s == s[..q] + [s[q]] + s[q + 1..];
  }

  /** Well-formed parts are recovered from the URL they make. */
  lemma UnparseParse(p: UrlParts)
    requires WellFormed(p)
    ensures Parse(Unparse(p)) == p
  {
    if p.query.Some? {
      ParseWithQuery(p.base, p.query.value, p.fragment);
    } else {
      ParseWithoutQuery(p.base, p.fragment);
    }
  }

  /** Well-formed parts with a query. */
  lemma ParseWithQuery(base: string, query: string, fragment: string)
    requires WellFormed(UrlParts(base, Some(query), fragment))
    ensures Parse(Unparse(UrlParts(base, Some(query), fragment))) == UrlParts(base, Some(query), fragment)
  {
    var middle := "?" + query;
    var beforeFragment := base + middle;
    var url := Unparse(UrlParts(base, Some(query), fragment));
    assert url == beforeFragment + fragment;
    assert '#' !in beforeFragment;
    SplitAtFirst(beforeFragment, '#', fragment);
    SplitAtFirst(base, '?', middle);
    assert url[..IndexOf(url, '#')] == beforeFragment;
    assert beforeFragment[|base| + 1..] == query;
  }

  /** Well-formed parts without a query. */
  lemma ParseWithoutQuery(base: string, fragment: string)
    requires WellFormed(UrlParts(base, None, fragment))
    ensures Parse(Unparse(UrlParts(base, None, fragment))) == UrlParts(base, None, fragment)
  {
    var url := Unparse(UrlParts(base, None, fragment));
    assert url == base + fragment;
    SplitAtFirst(base, '#', fragment);
    IndexOfEnd(base, '?');
  }

  /** The name of a query parameter: the text before its first '='. */
  function ParamName(param: string): string
  {
    param[..IndexOf(param, '=')]
  }

  predicate HasParam(params: seq<string>, key: string)
  {
    exists i :: 0 <= i < |params| && ParamName(params[i]) == key
  }

  /** The parameters with every one named `key` replaced by the bare `key`. */
  function Bare(params: seq<string>, key: string): (r: seq<string>)
    ensures |r| == |params|
    ensures forall i :: 0 <= i < |r| ==> r[i] == if ParamName(params[i]) == key then key else params[i]
  {
    seq(|params|, i requires 0 <= i < |params| => if ParamName(params[i]) == key then key else params[i])
  }

  /** The parameters not named `key`, in order. */
  function Without(params: seq<string>, key: string): (r: seq<string>)
    ensures !HasParam(r, key)
    ensures forall i :: 0 <= i < |r| ==> r[i] in params
    decreases |params|
  {
    if params == [] then []
    else if ParamName(params[0]) == key then Without(params[1..], key)
    else [params[0]] + Without(params[1..], key)
  }

  /** A key that can stand as a bare query parameter. */
  predicate ValidKey(key: string)
  {
    key != [] && '&' !in key && '#' !in key && '=' !in key
  }

  /** The query of a URL, "" when it has none. */
  function QueryOf(url: string): string
  {
    match Parse(url).query case Some(q) => q case None => ""
  }

  /** The query `add_query_arg(key, '', url)` writes in place of `query`. */
  function NewQuery(key: string, query: string): string
  {
    if query == [] then key
    else if HasParam(Split(query, '&'), key) then Join(Bare(Split(query, '&'), key), "&")
    else query + "&" + key
  }

  /** `add_query_arg(key, '', url)`: the bare `key` becomes a query parameter,
      in place of any parameter of that name or else at the end of the query,
      before the fragment. */
  function AddQueryArg(key: string, url: string): string
  {
    var p := Parse(url);
    p.base + "?" + NewQuery(key, QueryOf(url)) + p.fragment
  }

  /** `remove_query_arg(key, url)`: every parameter named `key` is dropped, and
      the '?' with them when no parameter is left. */
  function RemoveQueryArg(key: string, url: string): string
  {
    var p := Parse(url);
    match p.query
    case None => url
    case Some(q) =>
      var rest := KeptQuery(key, q);
      if rest == [] then p.base + p.fragment else p.base + "?" + rest + p.fragment
  }

  lemma ParamNameOfKey(key: string)
    requires ValidKey(key)
    ensures ParamName(key) == key
  {
  }

  /** The bare key is inserted just before the fragment: after a new "?" when
      the URL has no query, directly when its query is empty, and after "&"
      otherwise (when no parameter of that name is present yet). */
  lemma AddQueryArgInserts(key: string, url: string)
    requires !HasParam(Split(QueryOf(url), '&'), key)
    ensures var h := IndexOf(url, '#');
      IndexOf(url[..h], '?') == h ==> AddQueryArg(key, url) == url[..h] + "?" + key + url[h..]
    ensures var h := IndexOf(url, '#');
      IndexOf(url[..h], '?') == h - 1 ==> AddQueryArg(key, url) == url[..h] + key + url[h..]
    ensures var h := IndexOf(url, '#');
      IndexOf(url[..h], '?') < h - 1 ==> AddQueryArg(key, url) == url[..h] + "&" + key + url[h..]
  {
    var h := IndexOf(url, '#');
    var q := IndexOf(url[..h], '?');
    if q == h {
      InsertsWithoutQuery(key, url);
    } else if q == h - 1 {
      InsertsIntoEmptyQuery(key, url);
    } else if q < h - 1 {
      InsertsAfterQuery(key, url);
    }
  }

  lemma InsertsWithoutQuery(key: string, url: string)
    requires IndexOf(url[..IndexOf(url, '#')], '?') == IndexOf(url, '#')
    ensures var h := IndexOf(url, '#');
      AddQueryArg(key, url) == url[..h] + "?" + key + url[h..]
  {
    var h := IndexOf(url, '#');
    var beforeFragment := url[..h];
    assert Parse(url) == UrlParts(beforeFragment, None, url[h..]);
    assert QueryOf(url) == [];
  }

  lemma InsertsIntoEmptyQuery(key: string, url: string)
    requires IndexOf(url[..IndexOf(url, '#')], '?') == IndexOf(url, '#') - 1
    ensures var h := IndexOf(url, '#');
      AddQueryArg(key, url) == url[..h] + key + url[h..]
  {
    EmptyQueryParts(url);
    assert NewQuery(key, []) == key;
  }

  /** The parts of a URL whose query is empty: the base and the '?' are
      the text before the fragment. */
  lemma EmptyQueryParts(url: string)
    requires IndexOf(url[..IndexOf(url, '#')], '?') == IndexOf(url, '#') - 1
    ensures var h := IndexOf(url, '#');
      && QueryOf(url) == [] && Parse(url).base + "?" == url[..h] && Parse(url).fragment == url[h..]
  {
    var h := IndexOf(url, '#');
    var beforeFragment := url[..h];
    var q := IndexOf(beforeFragment, '?');
    assert q + 1 == |beforeFragment|;
    var p := Parse(url);
    assert p.query == Some(beforeFragment[q + 1..]) && p.base == beforeFragment[..q];
    assert beforeFragment[q + 1..] == [];
    assert beforeFragment[q] == '?';
    assert beforeFragment == p.base + "?";
  }

  lemma InsertsAfterQuery(key: string, url: string)
    requires !HasParam(Split(QueryOf(url), '&'), key)
    requires IndexOf(url[..IndexOf(url, '#')], '?') < IndexOf(url, '#') - 1
    ensures var h := IndexOf(url, '#');
      AddQueryArg(key, url) == url[..h] + "&" + key + url[h..]
  {
    var h := IndexOf(url, '#');
    var beforeFragment := url[..h];
    var q := IndexOf(beforeFragment, '?');
    var query := beforeFragment[q + 1..];
    QueryParts(url);
    assert |query| == |beforeFragment| - q - 1;
    assert NewQuery(key, query) == query + "&" + key;
    assert AddQueryArg(key, url) == beforeFragment[..q] + "?" + (query + "&" + key) + url[h..];
    AppendAfterQuery(beforeFragment, q, key, url[h..]);
  }

  /** The parts of a URL with a query before its fragment. */
  lemma QueryParts(url: string)
    requires IndexOf(url[..IndexOf(url, '#')], '?') < IndexOf(url, '#')
    ensures var h := IndexOf(url, '#');
      var beforeFragment := url[..h];
      var q := IndexOf(beforeFragment, '?');
      && q < |beforeFragment| && beforeFragment[q] == '?'
      && QueryOf(url) == beforeFragment[q + 1..]
      && Parse(url).base == beforeFragment[..q] && Parse(url).fragment == url[h..]
  {
    var h := IndexOf(url, '#');
    var beforeFragment := url[..h];
    assert |beforeFragment| == h;
  }

  /** The parts of the URL `AddQueryArg` builds: the base and fragment of
      the original, and the new query. */
  lemma AddedParts(key: string, url: string)
    requires '#' !in key
    ensures Parse(AddQueryArg(key, url)) ==
      UrlParts(Parse(url).base, Some(NewQuery(key, QueryOf(url))), Parse(url).fragment)
  {
    var p := Parse(url);
    ParseWellFormed(url);
    NewQueryNoHash(key, QueryOf(url));
    var r := UrlParts(p.base, Some(NewQuery(key, QueryOf(url))), p.fragment);
    assert AddQueryArg(key, url) == Unparse(r);
    UnparseParse(r);
  }

  /** After `AddQueryArg` the URL has a parameter named `key`, every parameter
      of that name is bare, and the base and fragment are kept. */
  lemma AddQueryArgHasParam(key: string, url: string)
    requires ValidKey(key)
    ensures var p := Parse(AddQueryArg(key, url));
      && p.query.Some? && HasParam(Split(p.query.value, '&'), key)
      && BareOnly(Split(p.query.value, '&'), key)
      && p.base == Parse(url).base && p.fragment == Parse(url).fragment
  {
    AddedParts(key, url);
    NewQueryHasKey(key, QueryOf(url));
    NewQueryBareOnly(key, QueryOf(url));
  }

  /** The new query has no '#' when neither the key nor the old query has one. */
  lemma NewQueryNoHash(key: string, query: string)
    requires '#' !in key && '#' !in query
    ensures '#' !in NewQuery(key, query)
  {
    var params := Split(query, '&');
    if query != [] && HasParam(params, key) {
      JoinHasNoHash(Bare(params, key), key, query);
    }
  }

  /** The new query is not empty and has a parameter named `key`. */
  lemma NewQueryHasKey(key: string, query: string)
    requires ValidKey(key)
    ensures NewQuery(key, query) != []
    ensures HasParam(Split(NewQuery(key, query), '&'), key)
  {
    var params := Split(query, '&');
    ParamNameOfKey(key);
    if query == [] {
      SingleKeyQuery(key);
    } else if HasParam(params, key) {
      BareKeepsKey(query, key);
    } else {
      SplitAppend(query, '&', key);
      assert Split(query + "&" + key, '&')[|params|] == key;
    }
  }

  /** The query made of the bare key alone. */
  lemma SingleKeyQuery(key: string)
    requires ValidKey(key)
    ensures Split(key, '&') == [key]
    ensures HasParam(Split(key, '&'), key)
    ensures Without(Split(key, '&'), key) == []
  {
    SplitSingle(key, '&');
    ParamNameOfKey(key);
    assert Split(key, '&')[0] == key;
  }

  /** Making the parameters named `key` bare keeps one of that name. */
  lemma BareKeepsKey(query: string, key: string)
    requires ValidKey(key)
    requires HasParam(Split(query, '&'), key)
    ensures var nq := Join(Bare(Split(query, '&'), key), "&");
      nq != [] && HasParam(Split(nq, '&'), key)
  {
    var params := Split(query, '&');
    var b := Bare(params, key);
    BareSplitJoin(query, key);
    var i :| 0 <= i < |params| && ParamName(params[i]) == key;
    assert b[i] == key;
    ParamNameOfKey(key);
    assert ParamName(b[i]) == key;
    JoinNonEmpty(b, "&");
  }

  /** In the new query every parameter named `key` is the bare `key`. */
  lemma NewQueryBareOnly(key: string, query: string)
    requires ValidKey(key)
    ensures BareOnly(Split(NewQuery(key, query), '&'), key)
  {
    var params := Split(query, '&');
    if query == [] {
      SplitSingle(key, '&');
    } else if HasParam(params, key) {
      BareSplitJoin(query, key);
    } else {
      SplitAppend(query, '&', key);
      var s := Split(query + "&" + key, '&');
      forall i | 0 <= i < |s| ensures ParamName(s[i]) == key ==> s[i] == key {
        if i < |params| { assert s[i] == params[i]; }
      }
    }
  }

  /** Splitting the bare-made query gives the bare-made parameters. */
  lemma BareSplitJoin(query: string, key: string)
    requires ValidKey(key)
    ensures Split(Join(Bare(Split(query, '&'), key), "&"), '&') == Bare(Split(query, '&'), key)
  {
    var params := Split(query, '&');
    var b := Bare(params, key);
    SplitPartsFree(query, '&');
    assert forall i :: 0 <= i < |b| ==> '&' !in b[i];
    SplitJoin(b, '&');
  }

  /** Every parameter named `key` is the bare `key`. */
  predicate BareOnly(params: seq<string>, key: string)
  {
    forall i :: 0 <= i < |params| && ParamName(params[i]) == key ==> params[i] == key
  }

  /** Making bare parameters that already are bare changes nothing. */
  lemma BareOfBareOnly(params: seq<string>, key: string)
    requires BareOnly(params, key)
    ensures Bare(params, key) == params
  {
  }

  /** Dropping a name that no parameter has changes nothing. */
  lemma {:induction false} WithoutAbsent(params: seq<string>, key: string)
    requires !HasParam(params, key)
    ensures Without(params, key) == params
    decreases |params|
  {
    if params != [] {
      assert ParamName(params[0]) != key;
      forall i | 0 <= i < |params[1..]| ensures ParamName(params[1..][i]) != key {
        assert params[1..][i] == params[i + 1];
      }
      WithoutAbsent(params[1..], key);
      assert params == [params[0]] + params[1..];
    }
  }

  /** A trailing parameter named `key` is dropped. */
  lemma {:induction false} WithoutAppendNamed(params: seq<string>, x: string, key: string)
    requires ParamName(x) == key
    ensures Without(params + [x], key) == Without(params, key)
    decreases |params|
  {
    if params == [] {
      assert [] + [x] == [x];
      assert [x][1..] == [];
    } else {
      assert (params + [x])[1..] == params[1..] + [x];
      WithoutAppendNamed(params[1..], x, key);
    }
  }

  /** The query `RemoveQueryArg` leaves, given the old query. */
  function KeptQuery(key: string, query: string): string
  {
    Join(Without(Split(query, '&'), key), "&")
  }

  /** The parts of the URL `RemoveQueryArg` builds: the base and fragment of
      the original, and the kept parameters, if any. */
  lemma RemovedParts(key: string, url: string)
    ensures var p := Parse(url);
      Parse(RemoveQueryArg(key, url)) ==
        if p.query.None? || KeptQuery(key, p.query.value) == [] then UrlParts(p.base, None, p.fragment)
        else UrlParts(p.base, Some(KeptQuery(key, p.query.value)), p.fragment)
  {
    var p := Parse(url);
    if p.query.Some? {
      var q := p.query.value;
      ParseWellFormed(url);
      KeptNoHash(key, q);
      RemovedPartsOfQuery(p, KeptQuery(key, q));
    }
  }

  lemma RemovedPartsOfQuery(p: UrlParts, rest: string)
    requires WellFormed(p) && '#' !in rest
    ensures var r := if rest == [] then p.base + p.fragment else p.base + "?" + rest + p.fragment;
      Parse(r) == if rest == [] then UrlParts(p.base, None, p.fragment) else UrlParts(p.base, Some(rest), p.fragment)
  {
    if rest == [] {
      var r := UrlParts(p.base, None, p.fragment);
      assert Unparse(r) == p.base + p.fragment;
      UnparseParse(r);
    } else {
      var r := UrlParts(p.base, Some(rest), p.fragment);
      assert Unparse(r) == p.base + "?" + rest + p.fragment;
      UnparseParse(r);
    }
  }

  /** The kept parameters have no '#' and no '&'. */
  lemma KeptNoHash(key: string, query: string)
    requires '#' !in query
    ensures '#' !in KeptQuery(key, query)
    ensures forall i :: 0 <= i < |Without(Split(query, '&'), key)| ==>
      '&' !in Without(Split(query, '&'), key)[i]
  {
    var kept := Without(Split(query, '&'), key);
    SplitPartsFree(query, '&');
    forall i | 0 <= i < |kept| ensures '#' !in kept[i] && '&' !in kept[i] {
      var j :| 0 <= j < |Split(query, '&')| && Split(query, '&')[j] == kept[i];
      PartsOfSplitFree(query, '&', '#', j);
    }
    JoinFree(kept, "&", '#');
  }

  /** `RemoveQueryArg` keeps the base and the fragment and exactly the
      parameters not named `key`, in order; no parameter named `key` is left,
      and the '?' goes when no parameter is left. */
  lemma RemoveQueryArgDrops(key: string, url: string)
    ensures var p := Parse(url);
      var r := Parse(RemoveQueryArg(key, url));
      && r.base == p.base && r.fragment == p.fragment
      && (r.query.Some? ==>
            p.query.Some? && Split(r.query.value, '&') == Without(Split(p.query.value, '&'), key)
            && !HasParam(Split(r.query.value, '&'), key))
      && (r.query.None? <==> p.query.None? || KeptQuery(key, p.query.value) == [])
  {
    var p := Parse(url);
    RemovedParts(key, url);
    if p.query.Some? && KeptQuery(key, p.query.value) != [] {
      var kept := Without(Split(p.query.value, '&'), key);
      ParseWellFormed(url);
      KeptNoHash(key, p.query.value);
      assert kept != [];
      SplitJoin(kept, '&');
    }
  }

  /** Adding the endpoint and removing it again gives the URL back, unless
      the URL ended in an empty query ("...?"), whose '?' is dropped. */
  lemma RemoveAfterAdd(key: string, url: string)
    requires ValidKey(key)
    requires Parse(url).query != Some([])
    requires !HasParam(Split(QueryOf(url), '&'), key)
    ensures RemoveQueryArg(key, AddQueryArg(key, url)) == url
  {
    var p := Parse(url);
    AddedParts(key, url);
    ParseRoundTrip(url);
    var kept := KeptQuery(key, NewQuery(key, QueryOf(url)));
    assert RemoveQueryArg(key, AddQueryArg(key, url)) ==
      if kept == [] then p.base + p.fragment else p.base + "?" + kept + p.fragment;
    RemoveAfterAddCases(key, p, QueryOf(url));
  }

  lemma RemoveAfterAddCases(key: string, p: UrlParts, query: string)
    requires ValidKey(key)
    requires p.query != Some([])
    requires query == match p.query case Some(q) => q case None => ""
    requires !HasParam(Split(query, '&'), key)
    ensures var kept := KeptQuery(key, NewQuery(key, query));
      Unparse(p) == if kept == [] then p.base + p.fragment else p.base + "?" + kept + p.fragment
  {
    if query == [] {
      SingleKeyQuery(key);
      assert Unparse(p) == p.base + p.fragment;
    } else {
      KeptAfterAppend(key, query);
      assert Unparse(p) == p.base + "?" + query + p.fragment;
    }
  }

  /** Removing the parameter that was appended gives the old query back. */
  lemma KeptAfterAppend(key: string, query: string)
    requires ValidKey(key)
    requires query != []
    requires !HasParam(Split(query, '&'), key)
    ensures KeptQuery(key, NewQuery(key, query)) == query
  {
    assert NewQuery(key, query) == query + "&" + key;
    ParamNameOfKey(key);
    SplitAppend(query, '&', key);
    WithoutAppendNamed(Split(query, '&'), key, key);
    WithoutAbsent(Split(query, '&'), key);
    JoinSplit(query, '&');
  }

  /** Adding the endpoint twice is adding it once. */
  lemma AddQueryArgIdempotent(key: string, url: string)
    requires ValidKey(key)
    ensures AddQueryArg(key, AddQueryArg(key, url)) == AddQueryArg(key, url)
  {
    var p := Parse(url);
    var newQuery := NewQuery(key, QueryOf(url));
    AddedParts(key, url);
    NewQueryHasKey(key, QueryOf(url));
    NewQueryBareOnly(key, QueryOf(url));
    assert QueryOf(AddQueryArg(key, url)) == newQuery;
    BareOfBareOnly(Split(newQuery, '&'), key);
    JoinSplit(newQuery, '&');
    assert NewQuery(key, newQuery) == newQuery;
  }

  /** The rebuilt query has no '#' when its parts have none. */
  lemma JoinHasNoHash(b: seq<string>, key: string, query: string)
    requires '#' !in key && '#' !in query
    requires |b| == |Split(query, '&')|
    requires forall i :: 0 <= i < |b| ==> b[i] == key || b[i] == Split(query, '&')[i]
    ensures '#' !in Join(b, "&")
  {
    forall i | 0 <= i < |b| ensures '#' !in b[i] {
      if b[i] != key {
        PartsOfSplitFree(query, '&', '#', i);
      }
    }
    JoinFree(b, "&", '#');
  }

  /** A character absent from a string is absent from every part of its split. */
  lemma {:induction false} PartsOfSplitFree(s: string, d: char, c: char, i: int)
    requires c !in s
    requires 0 <= i < |Split(s, d)|
    ensures c !in Split(s, d)[i]
    decreases |s|
  {
    if s != [] {
      var rest := Split(s[1..], d);
      assert c !in s[1..];
      if s[0] == d {
        if i > 0 { PartsOfSplitFree(s[1..], d, c, i - 1); }
      } else {
        if i == 0 {
          PartsOfSplitFree(s[1..], d, c, 0);
        } else {
          PartsOfSplitFree(s[1..], d, c, i);
        }
      }
    }
  }

  /** A character absent from every part and from the separator is absent
      from the join. */
  lemma {:induction false} JoinFree(parts: seq<string>, sep: string, c: char)
    requires c !in sep
    requires forall i :: 0 <= i < |parts| ==> c !in parts[i]
    ensures c !in Join(parts, sep)
    decreases |parts|
  {
    if |parts| > 1 {
      JoinFree(parts[1..], sep, c);
    }
  }

  /** A URL without query or fragment gets `?key` appended. */
  lemma AddQueryArgToPlainUrl(key: string, url: string)
    requires '?' !in url && '#' !in url
    ensures AddQueryArg(key, url) == url + "?" + key
  {
    assert url[..|url|] == url;
    InsertsWithoutQuery(key, url);
    assert url[|url|..] == [];
  }

  /** Adding a parameter the URL does not have makes the URL longer. */
  lemma AddQueryArgLonger(key: string, url: string)
    requires key != [] && !HasParam(Split(QueryOf(url), '&'), key)
    ensures |AddQueryArg(key, url)| > |url|
  {
    AddQueryArgInserts(key, url);
  }
}
