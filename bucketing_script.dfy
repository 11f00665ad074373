/**
 * The bucketing script `javascript_redirect` prints into the page head
 * (the `mint_ab_test` object): it reads the assignment cookie or draws a
 * bucket, writes the assignment cookie, and sends a visitor drawn into
 * variant B to the same page with the endpoint in the query.
 *
 * The server bakes five values into the script: the endpoint name, whether
 * the request already carries the endpoint, whether the page is an entry
 * point, the ratio and the cookie lifetime. The browser side is a
 * `Document`: the cookie jar `document.cookie` reads, every assignment to
 * `document.cookie`, `document.location.search` and `document.referrer`.
 */
module BucketingScript {
  import opened Maybe
  import opened Strings
  import opened QueryArgs

  // ---------------------------------------------------------------------
  // The cookie jar

  /** One `name=value` pair as `document.cookie` shows it. */
  function Pair(c: (string, string)): string
  {
    c.0 + "=" + c.1
  }

  /** What reading `document.cookie` gives: the pairs joined by "; ". */
  function CookieText(jar: seq<(string, string)>): string
    decreases |jar|
  {
    if jar == [] then ""
    else if |jar| == 1 then Pair(jar[0])
    else Pair(jar[0]) + "; " + CookieText(jar[1..])
  }

  /** Storing cookie `name`: its pair is replaced, or added at the end when
      the jar has none by that name. */
  function Put(jar: seq<(string, string)>, name: string, value: string): (r: seq<(string, string)>)
    ensures (name, value) in r
    ensures forall c :: c in jar && c.0 != name ==> c in r
    ensures forall c :: c in r ==> c == (name, value) || c in jar
    decreases |jar|
  {
    if jar == [] then [(name, value)]
    else if jar[0].0 == name then [(name, value)] + jar[1..]
    else [jar[0]] + Put(jar[1..], name, value)
  }

  /** Every stored pair shows in the text `document.cookie` reads. */
  lemma {:induction false} PairVisible(jar: seq<(string, string)>, c: (string, string))
    requires c in jar
    ensures Contains(CookieText(jar), Pair(c))
    decreases |jar|
  {
    if |jar| == 1 {
      ContainsSelf(Pair(c));
    } else if jar[0] == c {
      ContainsSelf(Pair(c));
      ContainsInLeft(Pair(c), "; " + CookieText(jar[1..]), Pair(c));
      assert Pair(jar[0]) + "; " + CookieText(jar[1..]) == Pair(c) + ("; " + CookieText(jar[1..]));
    } else {
      PairVisible(jar[1..], c);
      ContainsInRight(Pair(jar[0]) + "; ", CookieText(jar[1..]), Pair(c));
    }
  }

  /** Text that avoids ';' and ' ' and is found in the cookie text lies
      within one pair: it cannot run across a "; " separator. */
  lemma {:induction false} VisibleInSomePair(jar: seq<(string, string)>, p: string)
    requires p != [] && ';' !in p && ' ' !in p
    ensures Contains(CookieText(jar), p) ==> exists c :: c in jar && Contains(Pair(c), p)
    decreases |jar|
  {
    if !Contains(CookieText(jar), p) {
    } else if |jar| == 1 {
      assert jar[0] in jar;
    } else if |jar| > 1 {
      var head := Pair(jar[0]);
      var rest := CookieText(jar[1..]);
      var s := head + "; " + rest;
      ContainsIff(s, p);
      var i :| OccursAt(s, p, i);
      // the match avoids the separator's two characters
      forall j | i <= j < i + |p|
        ensures s[j] != ';' && s[j] != ' '
      {
        assert s[j] == s[i..i + |p|][j - i];
      }
      assert s[|head|] == ';' && s[|head| + 1] == ' ';
      if i + |p| <= |head| {
        assert s[i..i + |p|] == head[i..i + |p|];
        assert OccursAt(head, p, i);
        ContainsIff(head, p);
        assert jar[0] in jar;
      } else {
        assert i >= |head| + 2;
        assert s[i..i + |p|] == rest[i - |head| - 2..i - |head| - 2 + |p|];
        assert OccursAt(rest, p, i - |head| - 2);
        ContainsIff(rest, p);
        VisibleInSomePair(jar[1..], p);
        var c :| c in jar[1..] && Contains(Pair(c), p);
        assert c in jar;
      }
    }
  }

  // ---------------------------------------------------------------------
  // The decision table

  /** The cookie test at the top of `use_alternate_theme`: an assignment
      cookie reading `=true` is found first, then one reading `=false`. */
  function CookieDecision(text: string, name: string): Option<bool>
  {
    if |text| > 0 then
      if Contains(text, name + "=true") then Some(true)
      else if Contains(text, name + "=false") then Some(false)
      else None
    else None
  }

  /** The bucket drawn when no cookie decides: on an entry point without the
      endpoint, B for a draw below the ratio; on an entry point with the
      endpoint, B; elsewhere A. */
  function Sampled(validEntrypoint: bool, hasEndpoint: bool, draw: int, ratio: int): bool
  {
    if validEntrypoint && !hasEndpoint then draw < ratio
    else validEntrypoint && hasEndpoint
  }

  /** What `use_alternate_theme` returns. */
  function Choice(text: string, name: string, validEntrypoint: bool, hasEndpoint: bool, draw: int, ratio: int): bool
  {
    match CookieDecision(text, name)
    case Some(b) => b
    case None => Sampled(validEntrypoint, hasEndpoint, draw, ratio)
  }

  /** `has_cookie`: the jar text is not empty and names the cookie. */
  function HasCookieIn(text: string, name: string): bool
  {
    |text| > 0 && Contains(text, name + "=")
  }

  /** A JavaScript boolean concatenated into a string. */
  function ShowBool(b: bool): string
  {
    if b then "true" else "false"
  }

  /** The expiry attribute of `set_cookie`, present only for a positive
      lifetime; `expiryDate` is the `toGMTString()` text of the date
      `expiry` days ahead. */
  function Expires(expiry: int, expiryDate: string): string
  {
    if expiry > 0 then "; expires=" + expiryDate else ""
  }

  /** The jar after `use_alternate_theme`: a bucket drawn without a cookie
      deciding is stored when the browser accepts cookies. */
  function JarAfter(jar: seq<(string, string)>, name: string, accepts: bool, b: bool): seq<(string, string)>
  {
    if CookieDecision(CookieText(jar), name).None? && accepts then Put(jar, name, ShowBool(b)) else jar
  }

  /** `substr(1)`. */
  function Substr1(s: string): string
  {
    if s == [] then [] else s[1..]
  }

  /** The value `do_redirect` assigns to `document.location.search`: the
      current query with the endpoint appended as one more parameter, or
      `?endpoint` when the query is empty. */
  function RedirectSearch(search: string, endpoint: string): string
  {
    var query := Substr1(search);
    if query == [] then "?" + endpoint else query + "&" + endpoint
  }

  /** The query the browser navigates to when `search` is assigned (it adds
      the '?' itself when the value lacks one). */
  function NavigatedQuery(search: string): string
  {
    if |search| > 0 && search[0] == '?' then search[1..] else search
  }

  // ---------------------------------------------------------------------
  // The browser

  class Document {
    /** The cookies the page can read, in the order `document.cookie` lists them. */
    var jar: seq<(string, string)>
    /** Whether the browser stores the cookies the page writes. */
    const accepts: bool
    /** Every assignment to `document.cookie`, in order. */
    var written: seq<string>
    /** `document.location.search`. */
    const search: string
    /** The value assigned to `document.location.search`, if any; assigning
        it navigates to the same page with that query. */
    var navigation: Option<string>
    /** `document.referrer`. */
    const referrer: string

    constructor (jar0: seq<(string, string)>, accepts0: bool, search0: string, referrer0: string)
      ensures jar == jar0 && accepts == accepts0 && search == search0 && referrer == referrer0
      ensures written == [] && navigation == None
    {
      jar := jar0;
      accepts := accepts0;
      search := search0;
      referrer := referrer0;
      written := [];
      navigation := None;
    }

    /** `document.cookie` read. */
    function Cookie(): string
      reads this
    {
      CookieText(jar)
    }

    /** `document.cookie = name + "=" + value + attributes`. */
    method AssignCookie(name: string, value: string, attributes: string)
      modifies this`jar, this`written
      ensures written == old(written) + [name + "=" + value + attributes]
      ensures jar == if accepts then Put(old(jar), name, value) else old(jar)
    {
      written := written + [name + "=" + value + attributes];
      if accepts {
        jar := Put(jar, name, value);
      }
    }

    /** `document.location.search = s`. */
    method AssignSearch(s: string)
      modifies this`navigation
      ensures navigation == Some(s)
    {
      navigation := Some(s);
    }
  }

  // ---------------------------------------------------------------------
  // The script object

  class Script {
    const referrerCookieName: string
    const cookieName: string
    const endpoint: string
    /** `_has_endpoint`: the request's query carries the endpoint. */
    const hasEndpoint: bool
    /** `_is_valid_entrypoint`. */
    const validEntrypoint: bool
    /** The ratio option as the script reads it. */
    const ratio: int
    /** The cookie lifetime option as `set_cookie` receives it, in days. */
    const cookieTtl: int
    const siteUrl: string
    const cookiePath: string
    const cookieDomain: string
    /** Whether an analytics plugin is active, so that a redirect first
        stores the referrer. */
    const trackReferrer: bool
    const doc: Document

    constructor (referrerCookieName: string, cookieName: string, endpoint: string,
                 hasEndpoint: bool, validEntrypoint: bool, ratio: int, cookieTtl: int,
                 siteUrl: string, cookiePath: string, cookieDomain: string,
                 trackReferrer: bool, doc: Document)
      ensures this.referrerCookieName == referrerCookieName && this.cookieName == cookieName
      ensures this.endpoint == endpoint && this.hasEndpoint == hasEndpoint
      ensures this.validEntrypoint == validEntrypoint && this.ratio == ratio && this.cookieTtl == cookieTtl
      ensures this.siteUrl == siteUrl && this.cookiePath == cookiePath && this.cookieDomain == cookieDomain
      ensures this.trackReferrer == trackReferrer && this.doc == doc
    {
      this.referrerCookieName := referrerCookieName;
      this.cookieName := cookieName;
      this.endpoint := endpoint;
      this.hasEndpoint := hasEndpoint;
      this.validEntrypoint := validEntrypoint;
      this.ratio := ratio;
      this.cookieTtl := cookieTtl;
      this.siteUrl := siteUrl;
      this.cookiePath := cookiePath;
      this.cookieDomain := cookieDomain;
      this.trackReferrer := trackReferrer;
      this.doc := doc;
    }

    /** The attributes every cookie the script writes carries. */
    function Scope(): string
    {
      "; path=" + cookiePath + "; domain=" + cookieDomain
    }

    /** The text `set_cookie(value, expiry)` assigns. */
    function CookieLine(value: bool, expiry: int, expiryDate: string): string
    {
      cookieName + "=" + ShowBool(value) + Expires(expiry, expiryDate) + Scope()
    }

    /** The referrer value `set_referrer_cookie` stores: empty for a
        referrer on the same site. `encodedReferrer` is
        `encodeURIComponent(document.referrer)`. */
    function ReferrerValue(encodedReferrer: string): string
      reads doc
    {
      if Contains(doc.referrer, siteUrl) then "" else encodedReferrer
    }

    /** `has_cookie`. */
    function HasCookie(): bool
      reads doc
    {
      HasCookieIn(doc.Cookie(), cookieName)
    }

    /** `set_cookie(value, expiry)`. */
    method SetCookie(value: bool, expiry: int, expiryDate: string)
      modifies doc`jar, doc`written
      ensures doc.written == old(doc.written) + [CookieLine(value, expiry, expiryDate)]
      ensures doc.jar == if doc.accepts then Put(old(doc.jar), cookieName, ShowBool(value)) else old(doc.jar)
    {
      var expires := "";
      if expiry > 0 {
        expires := "; expires=" + expiryDate;
      }
      assert expires == Expires(expiry, expiryDate);
      doc.AssignCookie(cookieName, ShowBool(value), expires + Scope());
      assert cookieName + "=" + ShowBool(value) + (expires + Scope()) == CookieLine(value, expiry, expiryDate);
    }

    /** `set_referrer_cookie`. */
    method SetReferrerCookie(encodedReferrer: string)
      modifies doc`jar, doc`written
      ensures doc.written == old(doc.written) + [referrerCookieName + "=" + ReferrerValue(encodedReferrer) + Scope()]
      ensures doc.jar == if doc.accepts then Put(old(doc.jar), referrerCookieName, ReferrerValue(encodedReferrer)) else old(doc.jar)
    {
      var referrerValue := encodedReferrer;
      if Contains(doc.referrer, siteUrl) {
        referrerValue := "";
      }
      doc.AssignCookie(referrerCookieName, referrerValue, "; path=" + cookiePath + "; domain=" + cookieDomain);
    }

    /** `do_redirect`: splits the query on '&', appends the endpoint as one
        more parameter and joins it back. */
    method DoRedirect()
      modifies doc`navigation
      ensures doc.navigation == Some(RedirectSearch(doc.search, endpoint))
    {
      var query := Substr1(doc.search);
      var params := Split(query, '&');
      JoinSplit(query, '&');
      SplitSingle(query, '&');
      // `"" == params` compares the array's string form, the parts joined by ","
      if params == [""] {
        doc.AssignSearch("?" + endpoint);
        return;
      }
      JoinAppend(params, endpoint, "&");
      params := params + [endpoint];
      doc.AssignSearch(Join(params, "&"));
    }

    /** `use_alternate_theme`: the cookie decides when it reads `=true` or
        `=false`; otherwise the bucket is drawn and stored in the cookie. */
    method UseAlternateTheme(draw: int, expiryDate: string) returns (b: bool)
      modifies doc`jar, doc`written
      ensures b == Choice(old(doc.Cookie()), cookieName, validEntrypoint, hasEndpoint, draw, ratio)
      ensures CookieDecision(old(doc.Cookie()), cookieName).Some? ==>
        doc.written == old(doc.written) && doc.jar == old(doc.jar)
      ensures CookieDecision(old(doc.Cookie()), cookieName).None? ==>
        && doc.written == old(doc.written) + [CookieLine(b, cookieTtl, expiryDate)]
        && doc.jar == if doc.accepts then Put(old(doc.jar), cookieName, ShowBool(b)) else old(doc.jar)
    {
      var cookie := doc.Cookie();
      if |cookie| > 0 {
        if Contains(cookie, cookieName + "=true") {
          return true;
        } else if Contains(cookie, cookieName + "=false") {
          return false;
        }
      }
      b := false;
      if validEntrypoint && !hasEndpoint {
        if draw < ratio {
          b := true;
        }
      } else if validEntrypoint && hasEndpoint {
        b := true;
      }
      SetCookie(b, cookieTtl, expiryDate);
    }

    /** `run`: one call of `use_alternate_theme`, then a redirect for B
        without the endpoint (storing the referrer first when an analytics
        plugin is active), or a `true` cookie for a visitor who arrived with
        the endpoint, got A and still has no assignment cookie. The fourth
        branch compares `false` with the function `has_cookie` itself, which
        never holds, so it does nothing and is not written out. */
    method Run(draw: int, expiryDate: string, encodedReferrer: string)
      modifies doc`jar, doc`written, doc`navigation
      ensures var text := old(doc.Cookie());
        var b := Choice(text, cookieName, validEntrypoint, hasEndpoint, draw, ratio);
        var first := if CookieDecision(text, cookieName).None? then [CookieLine(b, cookieTtl, expiryDate)] else [];
        var jar1 := JarAfter(old(doc.jar), cookieName, doc.accepts, b);
        var redirect := !hasEndpoint && b;
        var referrer := redirect && trackReferrer;
        var keep := hasEndpoint && !b && !HasCookieIn(CookieText(jar1), cookieName);
        && doc.navigation == (if redirect then Some(RedirectSearch(doc.search, endpoint)) else old(doc.navigation))
        && doc.written == old(doc.written) + first
             + (if referrer then [referrerCookieName + "=" + ReferrerValue(encodedReferrer) + Scope()] else [])
             + (if keep then [CookieLine(true, cookieTtl, expiryDate)] else [])
        && doc.jar == (if referrer && doc.accepts then Put(jar1, referrerCookieName, ReferrerValue(encodedReferrer))
                       else if keep && doc.accepts then Put(jar1, cookieName, "true")
                       else jar1)
    {
      if hasEndpoint {
        var b := UseAlternateTheme(draw, expiryDate);
        if b {
          return;
        }
        if !HasCookie() {
          // the visitor arrived on B: keep them there
          SetCookie(true, cookieTtl, expiryDate);
        }
      } else {
        var b := UseAlternateTheme(draw, expiryDate);
        if b {
          if trackReferrer {
            SetReferrerCookie(encodedReferrer);
          }
          DoRedirect();
        }
      }
    }
  }

  // ---------------------------------------------------------------------
  // Properties

  /** A cookie name the jar text shows unambiguously. */
  predicate PlainName(name: string)
  {
    name != [] && ';' !in name && ' ' !in name && '=' !in name
  }

  /** Cookie precedence: a visitor holding `name=true` gets B, whatever the
      draw, the endpoint or the entry point. */
  lemma TrueCookieDecides(jar: seq<(string, string)>, name: string, validEntrypoint: bool, hasEndpoint: bool, draw: int, ratio: int)
    requires (name, "true") in jar
    ensures Choice(CookieText(jar), name, validEntrypoint, hasEndpoint, draw, ratio)
  {
    PairVisible(jar, (name, "true"));
    assert Pair((name, "true")) == name + "=true";
  }

  /** Cookie precedence: a visitor holding `name=false`, and no cookie that
      reads `name=true`, gets A, whatever the draw, the endpoint or the entry
      point. */
  lemma FalseCookieDecides(jar: seq<(string, string)>, name: string, validEntrypoint: bool, hasEndpoint: bool, draw: int, ratio: int)
    requires PlainName(name)
    requires (name, "false") in jar
    requires forall c :: c in jar ==> !Contains(Pair(c), name + "=true")
    ensures !Choice(CookieText(jar), name, validEntrypoint, hasEndpoint, draw, ratio)
  {
    PairVisible(jar, (name, "false"));
    assert Pair((name, "false")) == name + "=false";
    VisibleInSomePair(jar, name + "=true");
  }

  lemma FalseIsNotTrue(name: string)
    ensures !Contains(name + "=false", name + "=true")
  {
    var s := name + "=false";
    var p := name + "=true";
    ContainsIff(s, p);
    forall i ensures !OccursAt(s, p, i) {
      if 0 <= i && i + |p| <= |s| {
        assert |s| == |name| + 6 && |p| == |name| + 5;
        assert s[|name| + 1] == 'f' && p[|name|] == '=' && p[|name| + 1] == 't';
        var k := if i == 0 then |name| + 1 else |name|;
        assert s[i..i + |p|][k] == s[|name| + 1];
        assert s[i..i + |p|] != p;
      }
    }
  }

  /** Stickiness: when a visitor without an assignment cookie is given
      bucket `b` and the browser stores cookies, every later visit decides
      `b` again, whatever its draw, endpoint or entry point. */
  lemma AssignmentSticks(jar: seq<(string, string)>, name: string, b: bool)
    requires PlainName(name)
    requires !Contains(CookieText(jar), name + "=")
    ensures CookieDecision(CookieText(Put(jar, name, ShowBool(b))), name) == Some(b)
    ensures forall valid, hasEndpoint, draw, ratio ::
      Choice(CookieText(Put(jar, name, ShowBool(b))), name, valid, hasEndpoint, draw, ratio) == b
  {
    var r := Put(jar, name, ShowBool(b));
    PairVisible(r, (name, ShowBool(b)));
    assert Pair((name, ShowBool(b))) == name + "=" + ShowBool(b);
    if b {
      assert name + "=" + ShowBool(b) == name + "=true";
    } else {
      assert name + "=" + ShowBool(b) == name + "=false";
      forall c | c in r
        ensures !Contains(Pair(c), name + "=true")
      {
        if c in jar {
          PairVisible(jar, c);
          ContainsTrans(CookieText(jar), Pair(c), name + "=");
          ContainsPrefixOf(Pair(c), name + "=", "true");
          assert name + "=" + "true" == name + "=true";
        } else {
          assert Pair(c) == name + "=false";
          FalseIsNotTrue(name);
        }
      }
      VisibleInSomePair(r, name + "=true");
    }
  }

  /** The `true` cookie `run` writes for a visitor who arrived with the
      endpoint and got A: `has_cookie` is already true after
      `use_alternate_theme` unless no cookie decided and the browser
      refused the cookie just written, in which case it refuses this one as
      well. */
  lemma KeepBranchOnlyWhenRefused(jar: seq<(string, string)>, name: string, accepts: bool, b: bool)
    requires PlainName(name)
    ensures !HasCookieIn(CookieText(JarAfter(jar, name, accepts, b)), name) ==>
      !accepts && CookieDecision(CookieText(jar), name).None?
  {
    var text := CookieText(jar);
    if CookieDecision(text, name).Some? {
      ContainsPrefixOf(text, name + "=", "true");
      ContainsPrefixOf(text, name + "=", "false");
      assert name + "=" + "true" == name + "=true";
      assert name + "=" + "false" == name + "=false";
    } else if accepts {
      var r := Put(jar, name, ShowBool(b));
      PairVisible(r, (name, ShowBool(b)));
      ContainsPrefixOf(CookieText(r), name + "=", ShowBool(b));
      assert Pair((name, ShowBool(b))) == name + "=" + ShowBool(b);
    }
  }

  /** The query a redirect navigates to: the current parameters, then the
      endpoint as one more bare parameter, which is what the server's
      `isset($_GET[endpoint])` finds on the next request. */
  lemma RedirectAddsEndpoint(search: string, endpoint: string)
    requires ValidKey(endpoint)
    requires Substr1(search) == [] || Substr1(search)[0] != '?'
    ensures Split(NavigatedQuery(RedirectSearch(search, endpoint)), '&') ==
      (if Substr1(search) == [] then [] else Split(Substr1(search), '&')) + [endpoint]
    ensures HasParam(Split(NavigatedQuery(RedirectSearch(search, endpoint)), '&'), endpoint)
  {
    var query := Substr1(search);
    ParamNameOfKey(endpoint);
    if query == [] {
      assert NavigatedQuery("?" + endpoint) == endpoint;
      SplitSingle(endpoint, '&');
    } else {
      assert RedirectSearch(search, endpoint) == query + ['&'] + endpoint;
      SplitAppend(query, '&', endpoint);
    }
    var parts := Split(NavigatedQuery(RedirectSearch(search, endpoint)), '&');
    assert parts[|parts| - 1] == endpoint;
  }

  function Clamp(x: int, lo: int, hi: int): int
  {
    if x < lo then lo else if x > hi then hi else x
  }

  /** How many of the draws 0 .. n - 1 give B when sampling. */
  function SampledCount(n: nat, ratio: int): nat
  {
    if n == 0 then 0
    else SampledCount(n - 1, ratio) + (if Sampled(true, false, n - 1, ratio) then 1 else 0)
  }

  lemma {:induction false} SampledCountIsRatio(n: nat, ratio: int)
    ensures SampledCount(n, ratio) == Clamp(ratio, 0, n)
  {
    if n > 0 {
      SampledCountIsRatio(n - 1, ratio);
    }
  }

  /** Sampling without a cookie or the endpoint: of the 101 equally likely
      values of `Math.floor(Math.random() * 101)`, 0 to 100, exactly the
      ratio (clamped to 0..101) give B. */
  lemma SampledShare(ratio: int)
    ensures SampledCount(101, ratio) == Clamp(ratio, 0, 101)
  {
    SampledCountIsRatio(101, ratio);
  }

  /** As written, a ratio of 100 still leaves one draw in 101, the draw
      100, with A. */
  lemma FullRatioLeavesOneDrawInA()
    ensures SampledCount(101, 100) == 100
    ensures !Sampled(true, false, 100, 100)
  {
    SampledCountIsRatio(101, 100);
  }

  /** With the draw a whole number from 0 to 99, as a percentage ratio
      calls for, exactly the ratio (clamped to 0..100) of the 100 draws give
      B, so a ratio of 100 sends every sampled visitor to B. */
  lemma PercentSampledShare(ratio: int)
    ensures SampledCount(100, ratio) == Clamp(ratio, 0, 100)
    ensures ratio >= 100 ==> forall d :: 0 <= d < 100 ==> Sampled(true, false, d, ratio)
  {
    SampledCountIsRatio(100, ratio);
  }
}
