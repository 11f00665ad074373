/**
 * `Mint_AB_Testing`, the per-request object: the enable gate, the
 * variant-B selection from the endpoint in the query, the memo fields its
 * getters fill, the mode the constructor chooses, the `request` filter,
 * the theme filters and the URL filters, and the values it bakes into the
 * bucketing script.
 *
 * The host is given, not called: `$_GET` is the set of query keys present,
 * `get_theme` is a table from theme name to template and stylesheet, the
 * page predicates are a `Page`, and `home_url()`, `content_url()` and
 * `get_admin_url()` are strings.
 */
module AbTesting {
  import opened Maybe
  import opened PhpValues
  import opened Strings
  import opened QueryArgs
  import opened UrlRewriter
  import opened Entrypoints
  import opened AbOptions
  import BucketingScript

  /** What `get_theme` reports for an installed theme. */
  datatype Theme = Theme(template: string, stylesheet: string)

  /** The endpoint as the code uses it: the `endpoint` option as a string,
      the key looked up in `$_GET` and the query argument added to URLs. */
  function Endpoint(opts: map<string, Value>): string
  {
    ToPhpString(Lookup(opts, "endpoint"))
  }

  /** The enable gate: the `enable` option is exactly the string "yes". */
  predicate Enabled(opts: map<string, Value>)
  {
    Lookup(opts, "enable") == Str("yes")
  }

  /** The name `get_theme` is asked for. */
  function AlternateName(opts: map<string, Value>): string
  {
    ToPhpString(Lookup(opts, "alternate_theme"))
  }

  /** `isset($_GET[endpoint])`. `$_GET` holds strings only, so a key that is
      present is set. */
  predicate EndpointInQuery(opts: map<string, Value>, getKeys: set<string>)
  {
    Endpoint(opts) in getKeys
  }

  /** Variant B on the server: the endpoint is in the query and the
      alternate theme is installed. No cookie is read. */
  predicate ServesAlternate(opts: map<string, Value>, getKeys: set<string>, themes: map<string, Theme>)
  {
    EndpointInQuery(opts, getKeys) && AlternateName(opts) in themes
  }

  /** The values `javascript_redirect` prints into the bucketing script.
      `ratio` and `cookieTtl` are the integers the script reads where the
      options are echoed, None when the echoed text is not an integer. */
  datatype ScriptSettings = ScriptSettings(
    endpoint: string,
    hasEndpoint: bool,
    validEntrypoint: bool,
    ratio: Option<int>,
    cookieTtl: Option<int>)

  /** `javascript_redirect` reads `$_GET` afresh rather than the memo. */
  function Settings(opts: map<string, Value>, getKeys: set<string>, page: Page): (s: ScriptSettings)
    ensures s.hasEndpoint <==> Endpoint(opts) in getKeys
    ensures s.validEntrypoint ==> !page.preview
    ensures Lookup(opts, "ratio").Int? ==> s.ratio == Some(Lookup(opts, "ratio").i)
    ensures Lookup(opts, "cookie_ttl").Int? ==> s.cookieTtl == Some(Lookup(opts, "cookie_ttl").i)
  {
    ScriptSettings(
      Endpoint(opts),
      EndpointInQuery(opts, getKeys),
      IsValidEntrypoint(page, Lookup(opts, "entrypoints")),
      EchoedInteger(Lookup(opts, "ratio")),
      EchoedInteger(Lookup(opts, "cookie_ttl")))
  }

  /** With the defaults, the script samples half of the draws below 50
      (ratio 50), sets session cookies (lifetime 0), uses the endpoint `v02`,
      and treats every non-preview home, singular, archive, search or 404
      page as an entry point. */
  lemma DefaultSettings(getKeys: set<string>, page: Page)
    ensures var s := Settings(Defaults(), getKeys, page);
      && s.endpoint == "v02" && s.ratio == Some(50) && s.cookieTtl == Some(0)
      && (s.hasEndpoint <==> "v02" in getKeys)
      && (s.validEntrypoint <==> !page.preview && (page.home || page.singular || page.archive || page.search || page.notFound))
    ensures !Enabled(Defaults())
  {
    DefaultsTable();
    DefaultLookups(Defaults());
    DefaultEntrypointsCoverAllTypes(page);
    assert Endpoint(Defaults()) == "v02";
  }

  lemma DefaultLookups(opts: map<string, Value>)
    requires opts == map[
      "enable" := Str("no"), "ratio" := Int(50), "alternate_theme" := Str("Twenty Ten"),
      "cookie_ttl" := Int(0), "endpoint" := Str("v02"),
      "entrypoints" := Arr([("home", Bool(true)), ("singular", Bool(true)), ("archive", Bool(true)),
                            ("search", Bool(true)), ("404", Bool(true))])]
    ensures Lookup(opts, "endpoint") == Str("v02") && Lookup(opts, "ratio") == Int(50)
    ensures Lookup(opts, "cookie_ttl") == Int(0) && Lookup(opts, "enable") == Str("no")
    ensures Lookup(opts, "entrypoints") == Arr([("home", Bool(true)), ("singular", Bool(true)),
      ("archive", Bool(true)), ("search", Bool(true)), ("404", Bool(true))])
  {
  }

  /** The keys of `$_GET` for a query string: the parameter names. */
  function QueryKeys(query: string): set<string>
  {
    set p | p in Split(query, '&') :: ParamName(p)
  }

  /** The round trip through the browser: after the bucketing script
      redirects, the next request's query carries the endpoint, so the
      server serves variant B when the alternate theme is installed. */
  lemma RedirectedRequestServesAlternate(opts: map<string, Value>, search: string, themes: map<string, Theme>)
    requires ValidKey(Endpoint(opts)) && AlternateName(opts) in themes
    requires BucketingScript.Substr1(search) == [] || BucketingScript.Substr1(search)[0] != '?'
    ensures ServesAlternate(opts,
      QueryKeys(BucketingScript.NavigatedQuery(BucketingScript.RedirectSearch(search, Endpoint(opts)))), themes)
  {
    var query := BucketingScript.NavigatedQuery(BucketingScript.RedirectSearch(search, Endpoint(opts)));
    BucketingScript.RedirectAddsEndpoint(search, Endpoint(opts));
    var i :| 0 <= i < |Split(query, '&')| && ParamName(Split(query, '&')[i]) == Endpoint(opts);
    assert Split(query, '&')[i] in Split(query, '&');
  }

  /** `request`: the endpoint key is set to true when the query vars already
      carry it, and to the result of `has_endpoint()` otherwise; every other
      query var is kept. */
  function RequestVars(qv: map<string, Value>, key: string, hasEndpoint: bool): (r: map<string, Value>)
    ensures key in r && r[key] == Bool((key in qv && qv[key] != Null) || hasEndpoint)
    ensures forall k :: k != key ==> (k in r <==> k in qv)
    ensures forall k :: k != key && k in qv ==> r[k] == qv[k]
  {
    if key in qv && qv[key] != Null then qv[key := Bool(true)]
    else qv[key := Bool(hasEndpoint)]
  }

  class AbTester {
    /** `_has_endpoint`. */
    var hasEndpointMemo: bool
    /** `_can_view_alternate_theme`, null until first asked. */
    var canViewMemo: Option<bool>
    /** `_use_alternate_theme`, null until first asked. */
    var useAlternateMemo: Option<bool>
    /** `_theme_template`. */
    var themeTemplate: Option<string>
    /** `_theme_stylesheet`. */
    var themeStylesheet: Option<string>

    /** The mode the constructor chose: the `request` filter and the
        `wp_head` script are registered, the template, stylesheet and URL
        filters are registered, or the alternate theme's `functions.php` is
        loaded. */
    var requestFilter: bool
    var redirectScript: bool
    var alternateFilters: bool
    var loadsAlternateFunctions: bool

    const options: Options
    const getKeys: set<string>
    const themes: map<string, Theme>
    const page: Page
    const homeUrl: string
    const contentUrl: string
    const adminUrl: string

    /** `__construct`: with the gate open, the request filter and the script
        are registered and, when variant B is served, the theme and URL
        filters as well; the alternate `functions.php` is loaded exactly
        when variant B is not served. */
    constructor (options: Options, getKeys: set<string>, themes: map<string, Theme>, page: Page,
                 homeUrl: string, contentUrl: string, adminUrl: string)
      ensures this.options == options && this.getKeys == getKeys && this.themes == themes && this.page == page
      ensures this.homeUrl == homeUrl && this.contentUrl == contentUrl && this.adminUrl == adminUrl
      ensures requestFilter == redirectScript == Enabled(options.options)
      ensures alternateFilters == (Enabled(options.options) && ServesAlternate(options.options, getKeys, themes))
      ensures loadsAlternateFunctions == !alternateFilters
      ensures canViewMemo == Some(Enabled(options.options))
      ensures useAlternateMemo == if Enabled(options.options) then Some(alternateFilters) else None
      ensures alternateFilters ==>
        && themeTemplate == Some(themes[AlternateName(options.options)].template)
        && themeStylesheet == Some(themes[AlternateName(options.options)].stylesheet)
      ensures !alternateFilters ==> themeTemplate == None && themeStylesheet == None
      ensures hasEndpointMemo == (Enabled(options.options) && EndpointInQuery(options.options, getKeys))
    {
      this.options := options;
      this.getKeys := getKeys;
      this.themes := themes;
      this.page := page;
      this.homeUrl := homeUrl;
      this.contentUrl := contentUrl;
      this.adminUrl := adminUrl;
      hasEndpointMemo := false;
      canViewMemo := None;
      useAlternateMemo := None;
      themeTemplate := None;
      themeStylesheet := None;
      requestFilter := false;
      redirectScript := false;
      alternateFilters := false;
      loadsAlternateFunctions := false;
      new;
      var loadAlternateFunctions := true;
      var canView := GetCanViewAlternateTheme();
      if canView {
        requestFilter := true;
        redirectScript := true;
        var useAlternate := GetUseAlternateTheme();
        if useAlternate {
          alternateFilters := true;
          loadAlternateFunctions := false;
        }
      }
      loadsAlternateFunctions := loadAlternateFunctions;
    }

    /** `has_endpoint`: a `true` memo is kept; a `false` one is recomputed
        from the current endpoint option. */
    method HasEndpoint() returns (b: bool)
      modifies this`hasEndpointMemo
      ensures b == (old(hasEndpointMemo) || EndpointInQuery(options.options, getKeys))
      ensures hasEndpointMemo == b
    {
      if !hasEndpointMemo {
        hasEndpointMemo := Endpoint(options.options) in getKeys;
      }
      b := hasEndpointMemo;
    }

    /** `get_can_view_alternate_theme`: decided on the first call from the
        `enable` option and fixed afterwards. */
    method GetCanViewAlternateTheme() returns (b: bool)
      modifies this`canViewMemo
      ensures old(canViewMemo).Some? ==> b == old(canViewMemo).value && canViewMemo == old(canViewMemo)
      ensures old(canViewMemo).None? ==> b == Enabled(options.options) && canViewMemo == Some(b)
    {
      if canViewMemo.None? {
        canViewMemo := Some(false);
        if Lookup(options.options, "enable") == Str("yes") {
          canViewMemo := Some(true);
        }
      }
      b := canViewMemo.value;
    }

    /** `get_use_alternate_theme`: decided on the first call, true exactly
        when the endpoint is in the query and the alternate theme is
        installed, in which case its template and stylesheet are kept for
        the theme filters; fixed afterwards. */
    method GetUseAlternateTheme() returns (b: bool)
      modifies this`useAlternateMemo, this`themeTemplate, this`themeStylesheet, this`hasEndpointMemo
      ensures old(useAlternateMemo).Some? ==>
        && b == old(useAlternateMemo).value
        && useAlternateMemo == old(useAlternateMemo)
        && themeTemplate == old(themeTemplate) && themeStylesheet == old(themeStylesheet)
        && hasEndpointMemo == old(hasEndpointMemo)
      ensures old(useAlternateMemo).None? ==>
        && b == ((old(hasEndpointMemo) || EndpointInQuery(options.options, getKeys)) && AlternateName(options.options) in themes)
        && useAlternateMemo == Some(b)
        && (b ==> themeTemplate == Some(themes[AlternateName(options.options)].template)
                  && themeStylesheet == Some(themes[AlternateName(options.options)].stylesheet))
        && (!b ==> themeTemplate == old(themeTemplate) && themeStylesheet == old(themeStylesheet))
        && hasEndpointMemo == (old(hasEndpointMemo) || EndpointInQuery(options.options, getKeys))
    {
      if useAlternateMemo.None? {
        useAlternateMemo := Some(false);
        var hasEndpoint := HasEndpoint();
        if hasEndpoint {
          var name := AlternateName(options.options);
          if name in themes {
            useAlternateMemo := Some(true);
            themeTemplate := Some(themes[name].template);
            themeStylesheet := Some(themes[name].stylesheet);
          }
        }
      }
      b := useAlternateMemo.value;
    }

    /** `is_valid_entrypoint` for this request's page. */
    function IsValidEntrypointNow(): (r: bool)
      reads options
      ensures page.preview ==> !r
    {
      IsValidEntrypoint(page, Lookup(options.options, "entrypoints"))
    }

    /** The `template` filter: the stored template, whatever it is given
        (null before `get_use_alternate_theme` found the theme). */
    function GetTemplate(template: string): (r: Option<string>)
      reads this
      ensures r == themeTemplate
    {
      themeTemplate
    }

    /** The `stylesheet` filter. */
    function GetStylesheet(stylesheet: string): (r: Option<string>)
      reads this
      ensures r == themeStylesheet
    {
      themeStylesheet
    }

    /** `request`. */
    method Request(qv: map<string, Value>) returns (r: map<string, Value>)
      modifies this`hasEndpointMemo
      ensures r == RequestVars(qv, Endpoint(options.options), old(hasEndpointMemo) || EndpointInQuery(options.options, getKeys))
      ensures var key := Endpoint(options.options);
        if key in qv && qv[key] != Null then hasEndpointMemo == old(hasEndpointMemo)
        else hasEndpointMemo == (old(hasEndpointMemo) || EndpointInQuery(options.options, getKeys))
    {
      var key := Endpoint(options.options);
      if key in qv && qv[key] != Null {
        r := qv[key := Bool(true)];
      } else {
        var hasEndpoint := HasEndpoint();
        r := qv[key := Bool(hasEndpoint)];
      }
    }

    /** `add_endpoint_to_url`: the endpoint becomes a bare query parameter;
        base and fragment are kept. */
    function AddEndpointToUrl(url: string): (r: string)
      reads options
      ensures ValidKey(Endpoint(options.options)) ==>
        var p := Parse(r);
        && p.query.Some? && HasParam(Split(p.query.value, '&'), Endpoint(options.options))
        && p.base == Parse(url).base && p.fragment == Parse(url).fragment
    {
      var key := Endpoint(options.options);
      if ValidKey(key) then AddQueryArgHasParam(key, url); AddQueryArg(key, url)
      else AddQueryArg(key, url)
    }

    /** `remove_endpoint`, the canonical-URL filter: no parameter named by
        the endpoint is left; base and fragment are kept. */
    function RemoveEndpoint(url: string): (r: string)
      reads options
      ensures var p := Parse(r);
        && (p.query.Some? ==> !HasParam(Split(p.query.value, '&'), Endpoint(options.options)))
        && p.base == Parse(url).base && p.fragment == Parse(url).fragment
    {
      var key := Endpoint(options.options);
      RemoveQueryArgDrops(key, url);
      RemoveQueryArg(key, url)
    }

    /** `remove_endpoint_from_url`, the same operation under its second name. */
    function RemoveEndpointFromUrl(url: string): (r: string)
      reads options
      ensures var p := Parse(r);
        && (p.query.Some? ==> !HasParam(Split(p.query.value, '&'), Endpoint(options.options)))
        && p.base == Parse(url).base && p.fragment == Parse(url).fragment
    {
      RemoveEndpoint(url)
    }

    /** `fix_url_syntax` with the current endpoint. */
    function FixUrl(url: string): (r: string)
      reads options
      ensures !Contains(url, MangledCheck(Endpoint(options.options))) ==> r == url
    {
      FixUrlSyntax(url, Endpoint(options.options))
    }

    /** `rewrite_urls`: the single-URL shortcut, then `preg_match_all` and
        the replacement loop, each pass working on the content the previous
        pass left. It computes the corrected `RewriteUrls`, which quotes the
        home URL and paths so that a '~' in them is matched literally. */
    method RewriteUrlsIn(content: string) returns (r: string)
      ensures r == RewriteUrls(content, homeUrl, contentUrl, adminUrl, Endpoint(options.options))
    {
      var endpoint := Endpoint(options.options);
      if StartsWith(content, homeUrl) {
        r := AddQueryArg(endpoint, content);
        return;
      }
      var relativeContentUrl := RelativeTo(contentUrl, homeUrl);
      var relativeAdminUrl := RelativeTo(adminUrl, homeUrl);
      var matches := MatchesFrom(content, 0, homeUrl, relativeContentUrl, relativeAdminUrl);
      r := content;
      var i := 0;
      while i < |matches|
        invariant 0 <= i <= |matches|
        invariant ApplyMatches(r, content, matches[i..], endpoint) == ApplyMatches(content, content, matches, endpoint)
      {
        var find := MatchText(content, matches[i]);
        assert matches[i..][0] == matches[i] && matches[i..][1..] == matches[i + 1..];
        if Contains(find, "/feed/") {
          i := i + 1;
          continue;
        }
        var replaceBase := MatchUrl(content, matches[i]);
        var replace := AddQueryArg(endpoint, replaceBase);
        replace := ReplaceAll(find, replaceBase, replace);
        r := ReplaceAll(r, find, replace);
        i := i + 1;
      }
    }
  }
}
