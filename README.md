# Mint A/B Theme Testing — a verified model

This project models the decision logic of the WordPress plugin "Mint A/B
Theme Testing". The plugin splits visitors between the active theme
(variant A) and an alternate theme (variant B).

- A visitor sees variant B when the request's query carries the
  *endpoint* (the option `endpoint`, `v02` by default) and the alternate
  theme is installed.
- A bucketing script in the page head puts each visitor in a bucket. It reads
  the assignment cookie `mint_alternate_theme`, or draws a bucket and stores
  it. It sends a visitor drawn into B to the same page with the endpoint
  added to the query.
- While B is served, the plugin adds the endpoint to same-site links in the
  content, so the visitor stays on B. It also removes the endpoint from
  canonical URLs. It repairs one mangled comment-page link shape.

The modules follow the plugin's structure:

| module | file | models |
|---|---|---|
| `Strings` | strings.dfy | containment, `str_replace`, explode/split and implode/join |
| `PhpValues` | php_values.dfy | PHP values in options, truthiness, the string cast, integers echoed into the script |
| `AbOptions` | options.dfy | `Mint_AB_Testing_Options`: defaults, `_setup_options`, getters, setter, `instance()` |
| `Entrypoints` | entrypoints.dfy | `is_valid_entrypoint` |
| `QueryArgs` | query_args.dfy | a stated model of WordPress `add_query_arg(key, '', url)` and `remove_query_arg(key, url)` |
| `UrlRewriter` | url_rewriter.dfy | `fix_url_syntax`, the `href=` pattern of `rewrite_urls` matched by hand, and the replacement loop |
| `BucketingScript` | bucketing_script.dfy | the `mint_ab_test` script: the cookie jar, `run`, `use_alternate_theme`, `set_cookie`, `set_referrer_cookie`, `do_redirect`, `has_cookie` |
| `AbTesting` | ab_testing.dfy | `Mint_AB_Testing`: memo fields, the constructor's mode choice, `request`, the theme filters, the URL filters and the values baked into the script |

The host is modelled as inputs:

- `$_GET` is a set of query keys.
- `get_theme` is a table from theme name to template and stylesheet.
- The page predicates `is_preview()`, `is_home()` and the others are a record of booleans.
- `home_url()`, `content_url()` and `get_admin_url()` are strings.
- The stored WordPress option is a value.

The browser is modelled as a `Document`:

- the cookie jar (the pairs `document.cookie` lists);
- whether the browser accepts cookies;
- the log of cookie assignments;
- `location.search`, the navigation the script triggers, and `document.referrer`.

`Math.random()` becomes the draw argument. The expiry date text and
`encodeURIComponent(document.referrer)` are also arguments.

Where the intent the source states and what its code does differ, the
model follows the code:

- **Admin links are not excluded.** The comments in `rewrite_urls`
  (class-mint-ab-testing.php:248 and class-mint-ab-testing.php:252) name the
  relative `wp-admin` and `wp-content` URLs as sub-patterns to exclude. The
  code excludes only absolute links of the form home URL followed by that
  path. For a root-relative link the look-ahead runs after the leading `/`
  has been consumed. So it compares `wp-admin/...` with `/wp-admin/` and
  never excludes it. `UrlRewriter.RootRelativeAdminLinkRewritten` shows
  that `href="/wp-admin/"` becomes `href="/wp-admin/?v02"`.
- **The draw runs from 0 to 100.** The `ratio` option defaults to 50
  (class-mint-ab-testing-options.php:76) and the draw is compared with
  `< ratio`, which reads as a percentage of visitors sent to B. The script
  draws `Math.floor(Math.random()*101)`, which runs from 0 to 100, so the
  share is ratio/101 rather than ratio/100. See Findings.

## Model

| member | source | states |
|---|---|---|
| AbOptions.DefaultsTable | class-mint-ab-testing-options.php:74-88 | the defaults are enable `no`, ratio 50, alternate theme `Twenty Ten`, cookie lifetime 0 and endpoint `v02`, with all five entry points enabled |
| AbOptions.ToMap | class-mint-ab-testing-options.php:74-88 | a PHP array literal as a table: its keys, each mapped to the value of its last occurrence |
| AbOptions.SetupSeedsDefaults | class-mint-ab-testing-options.php:120-129 | an empty or falsy stored option gives the defaults as the live table, and the defaults are what gets written to storage |
| AbOptions.SetupMergesStored | class-mint-ab-testing-options.php:131 | a stored array merges shallowly: a stored key wins, a missing key takes its default, extra stored keys are kept, and a stored `entrypoints` replaces the default array whole |
| AbOptions.Lookup | class-mint-ab-testing-options.php:184-190 | `isset` lookup: null for a missing key, the stored value otherwise (a stored null reads as null) |
| AbOptions.Options.constructor | class-mint-ab-testing-options.php:109-111 | the live table is the merge of the persisted option, and the persisted option is seeded when it was empty |
| AbOptions.Options.SetupOptions | class-mint-ab-testing-options.php:120-133 | the new live table is `Merged(stored)`, and the new persisted value is the seeded one |
| AbOptions.Options.GetOption | class-mint-ab-testing-options.php:184-190 | null for a key that is not set, else its value |
| AbOptions.Options.GetOptionDefault | class-mint-ab-testing-options.php:169-175 | the defaults table's value, or null; it reads no field, so neither storage nor `set_option` affects it |
| AbOptions.Options.SetOption | class-mint-ab-testing-options.php:199-201 | only key `k` changes; a following get returns a non-null `v`; every other key reads as before |
| AbOptions.Registry.Instance | class-mint-ab-testing-options.php:150-160 | the first call creates and sets up the object; every later call returns that same object |
| PhpValues.EchoedInteger | class-mint-ab-testing.php:407 | the integer the script reads where an option is echoed: an integer option as itself, `true` as 1, a digit string without a leading zero as its value, anything else as no integer |
| Entrypoints.FirstSelectingIff | class-mint-ab-testing.php:497-540 | the early-return `foreach` finds an entry exactly when some entry is truthy and its page predicate holds |
| Entrypoints.ValidEntrypointIff | class-mint-ab-testing.php:494-543 | a preview is never an entry point; otherwise the page is one exactly when some truthy entry's key names a page predicate that holds; a non-array option gives false |
| Entrypoints.UnknownKeyIgnored | class-mint-ab-testing.php:532-535 | inserting an entry with an unknown key anywhere never changes the answer |
| Entrypoints.DefaultEntrypointsCoverAllTypes | class-mint-ab-testing-options.php:80-86 | with the default entry points, the non-preview home, singular, archive, search and 404 pages are entry points, and no other page is |
| QueryArgs.ParseUnparse | class-mint-ab-testing.php:299 | splitting a URL into base, query and fragment and joining the parts gives the URL back |
| QueryArgs.UnparseParse | class-mint-ab-testing.php:299 | parts of the shape the split produces survive the join-then-split round trip |
| QueryArgs.AddQueryArgInserts | class-mint-ab-testing.php:299 | adding an absent key inserts it just before the fragment: after a new `?`, directly into an empty query, or after `&` |
| QueryArgs.AddQueryArgHasParam | class-mint-ab-testing.php:299 | after adding, the URL has a parameter of that name, every such parameter is bare, and base and fragment are kept |
| QueryArgs.AddQueryArgIdempotent | class-mint-ab-testing.php:299 | adding the endpoint twice is the same as adding it once |
| QueryArgs.RemoveQueryArgDrops | class-mint-ab-testing.php:202 | removing keeps the base, the fragment and exactly the parameters with another name, in order; the `?` goes when no parameter is left (also before a fragment, where WordPress keeps it) |
| QueryArgs.RemoveAfterAdd | class-mint-ab-testing.php:296-316 | removing the endpoint after adding it gives the URL back, except when the URL ended in an empty query (WordPress also differs on a URL with a fragment and no query) |
| QueryArgs.Without | class-mint-ab-testing.php:314 | the kept parameters contain none with the removed name and come from the original list |
| UrlRewriter.FixUrlSyntaxUnchanged | class-mint-ab-testing.php:219 | a URL without `/?endpoint/` is returned unchanged |
| UrlRewriter.FixUrlSyntaxRepairs | class-mint-ab-testing.php:215-229 | in a URL with one `/?endpoint/`, no other `?` and no `&`, that text becomes `/` and the endpoint is added back as a query before the fragment |
| UrlRewriter.FixUrlSyntaxBeforeFragment | class-mint-ab-testing.php:215-229 | the same repair with the fragment written out: the endpoint goes between the repaired path and the fragment |
| UrlRewriter.FixUrlSyntaxAmpersand | class-mint-ab-testing.php:222-223 | with one `&` after the repair, that `&` becomes `?endpoint&` |
| UrlRewriter.FixUrlSyntaxDocumentedExample | class-mint-ab-testing.php:210 | the documented URL `.../page-with-comments/?v02/comment-page-1/#comments` becomes `.../page-with-comments/comment-page-1/?v02#comments` |
| UrlRewriter.ExtensionAheadIff | class-mint-ab-testing.php:253 | the extension look-ahead fails exactly when a `.` and two characters of `[a-z0-9]` follow on the same line, even past the URL |
| UrlRewriter.RunEnd | class-mint-ab-testing.php:258 | the greedy URL group ends at the first quote, angle bracket or white space |
| UrlRewriter.AfterLead | class-mint-ab-testing.php:254-258 | after the lead, a match needs both path look-aheads and the extension look-ahead to pass, and at least one URL character |
| UrlRewriter.MatchAt | class-mint-ab-testing.php:258 | every match it returns satisfies the pattern, read piece by piece |
| UrlRewriter.MatchAtComplete | class-mint-ab-testing.php:258 | whenever the pattern can match at a position, the hand matcher finds a match there |
| UrlRewriter.MatchesFrom | class-mint-ab-testing.php:260 | the scan returns matches of the pattern, in order and not overlapping |
| UrlRewriter.NoMatchesIff | class-mint-ab-testing.php:260 | the scan is empty exactly when the pattern matches at no position |
| UrlRewriter.FirstMatchLeftmost | class-mint-ab-testing.php:260 | the first match is the leftmost one, and the scan goes on from its end |
| UrlRewriter.NoHrefNoMatches | class-mint-ab-testing.php:258-260 | content without `href=` has no match |
| UrlRewriter.BareRootHrefNotMatched | class-mint-ab-testing.php:258 | a bare `href="/"` is not matched |
| UrlRewriter.AbsolutePathLinkNotMatched | class-mint-ab-testing.php:254-258 | an absolute link straight into the content or admin path is not matched |
| UrlRewriter.ReplaceInMatchText | class-mint-ab-testing.php:277 | inside the match text only the URL is replaced; `href=` and the quotes are kept |
| UrlRewriter.StepRewritesHref | class-mint-ab-testing.php:263-280 | one pass replaces every occurrence of the match text by the same text with the endpoint added to its URL |
| UrlRewriter.FeedMatchesSkipped | class-mint-ab-testing.php:268-270 | matches whose text contains `/feed/` cause no replacement |
| UrlRewriter.RewriteSingleUrl | class-mint-ab-testing.php:243-246 | content that starts with the home URL is one URL and gets the endpoint as a query parameter, keeping base and fragment |
| UrlRewriter.RewriteWithoutHrefUnchanged | class-mint-ab-testing.php:258-284 | content without `href=` that does not start with the home URL is returned unchanged |
| UrlRewriter.RewriteOneMatch | class-mint-ab-testing.php:260-283 | with a single match, the result is that match's pass |
| UrlRewriter.SingleLinkScan | class-mint-ab-testing.php:258-260 | the scan of content whose only `href=` is a quoted root-relative link finds exactly that link |
| UrlRewriter.RewriteSingleLink | class-mint-ab-testing.php:241-285 | content with one quoted link that passes the pattern gets the endpoint added to that link's URL, and nothing else changes |
| UrlRewriter.SingleLinkRewrite | class-mint-ab-testing.php:241-285 | every occurrence of that one link's text is replaced by the text with the endpoint added |
| UrlRewriter.RewriteRootRelativeLink | class-mint-ab-testing.php:241-285 | with the usual content and admin URLs, a quoted root-relative link without a query gets `?endpoint` appended |
| UrlRewriter.DocumentedLinkExample | class-mint-ab-testing.php:258-280 | `<a href="/2024/my-post/">link</a>` becomes `<a href="/2024/my-post/?v02">link</a>` |
| UrlRewriter.RootRelativeAdminLinkRewritten | class-mint-ab-testing.php:254-258 | `<a href="/wp-admin/">link</a>` is rewritten to `/wp-admin/?v02`, because the admin look-ahead follows the leading `/` |
| UrlRewriter.AsWrittenAgreesWithoutTilde | class-mint-ab-testing.php:241-258 | without a `~` in the home URL or in the relative paths, the code as written and the corrected definition agree |
| UrlRewriter.TildeHomeUrlNotRewritten | class-mint-ab-testing.php:243 | with a `~` in the home URL, a single site URL comes back unchanged as written, where the corrected definition adds the endpoint |
| UrlRewriter.TildeHomeExample | class-mint-ab-testing.php:243-246 | for the site `http://example.com/~site`, `http://example.com/~site/about/` is unchanged as written and gets `?v02` when corrected |
| BucketingScript.Put | class-mint-ab-testing.php:427 | storing a cookie puts its pair in the jar, keeps every cookie with another name, and adds nothing else |
| BucketingScript.PairVisible | class-mint-ab-testing.php:385-400 | every stored pair shows in the text `document.cookie` reads |
| BucketingScript.VisibleInSomePair | class-mint-ab-testing.php:396-400 | text without `;` or space found in the cookie text lies within one pair |
| BucketingScript.Document.AssignCookie | class-mint-ab-testing.php:419-428 | a cookie assignment is logged, and it is stored only when the browser accepts cookies |
| BucketingScript.Script.SetCookie | class-mint-ab-testing.php:419-428 | writes `cookie_name=value`, then the expiry attribute only for a positive lifetime, then path and domain |
| BucketingScript.Script.SetReferrerCookie | class-mint-ab-testing.php:364-370 | writes the referrer cookie; its value is empty when the referrer is on the site |
| BucketingScript.Script.DoRedirect | class-mint-ab-testing.php:372-383 | the new search is `?endpoint` for an empty query, else the old query plus `&endpoint` |
| BucketingScript.Script.UseAlternateTheme | class-mint-ab-testing.php:393-417 | returns the cookie's bucket without writing when the cookie decides; otherwise returns the drawn bucket and writes it |
| BucketingScript.Script.Run | class-mint-ab-testing.php:340-362 | one call of `use_alternate_theme`; a redirect exactly when there is no endpoint and the bucket is B; the referrer cookie only then and only with analytics; the `true` cookie for an endpoint visitor who got A and has no cookie; the whole new cookie log and jar |
| BucketingScript.TrueCookieDecides | class-mint-ab-testing.php:395-398 | a visitor holding `name=true` gets B whatever the draw, the endpoint and the entry point |
| BucketingScript.FalseCookieDecides | class-mint-ab-testing.php:395-401 | a visitor holding `name=false`, and no cookie reading `name=true`, gets A whatever the draw |
| BucketingScript.AssignmentSticks | class-mint-ab-testing.php:404-415 | after a first visit without a cookie in a browser that stores cookies, every later visit decides the same bucket whatever its draw |
| BucketingScript.KeepBranchOnlyWhenRefused | class-mint-ab-testing.php:355-357 | the `true` cookie of `run`'s third branch is written only when no cookie decided and the browser refused the first cookie |
| BucketingScript.RedirectAddsEndpoint | class-mint-ab-testing.php:372-383 | the redirect's query is the old parameters plus the endpoint as a bare parameter |
| BucketingScript.SampledCountIsRatio | class-mint-ab-testing.php:406-409 | of the draws 0 to n-1, exactly the ratio (clamped to 0..n) give B |
| BucketingScript.SampledShare | class-mint-ab-testing.php:406-409 | of the 101 possible draws, exactly the ratio (clamped to 0..101) give B |
| BucketingScript.FullRatioLeavesOneDrawInA | class-mint-ab-testing.php:407 | as written, a ratio of 100 gives B for 100 of 101 draws; the draw 100 gives A |
| BucketingScript.PercentSampledShare | class-mint-ab-testing.php:407 | with draws from 0 to 99, exactly the ratio of 100 draws give B, so a ratio of 100 gives B for every draw |
| AbTesting.Settings | class-mint-ab-testing.php:334-338 | the script gets the endpoint read fresh from `$_GET`, never true on a preview page, and the integer ratio and lifetime |
| AbTesting.DefaultSettings | class-mint-ab-testing-options.php:74-88 | with the defaults: endpoint `v02`, ratio 50, lifetime 0, every listed page type an entry point, and the gate closed |
| AbTesting.RedirectedRequestServesAlternate | class-mint-ab-testing.php:372-383 | after the script's redirect, the next request carries the endpoint, so the server serves B when the theme is installed |
| AbTesting.RequestVars | class-mint-ab-testing.php:615-625 | the endpoint key is present afterwards; it is true if it was set before, else `has_endpoint()`; every other key is unchanged |
| AbTesting.AbTester.constructor | class-mint-ab-testing.php:68-89 | the request filter and the script are registered exactly when enable is `yes`; the theme filters only when B is also served; the alternate `functions.php` loads exactly when B is not served; the `has_endpoint` memo ends as gate open and endpoint in the query |
| AbTesting.AbTester.HasEndpoint | class-mint-ab-testing.php:552-560 | a `true` memo is kept; a `false` one is recomputed from the current endpoint option |
| AbTesting.AbTester.GetCanViewAlternateTheme | class-mint-ab-testing.php:446-458 | decided on the first call as enable being exactly `yes`, and fixed afterwards |
| AbTesting.AbTester.GetUseAlternateTheme | class-mint-ab-testing.php:467-485 | decided on the first call as endpoint present and theme installed; template and stylesheet are set only then; the first call leaves the `has_endpoint` memo recomputed from the query; fixed afterwards |
| AbTesting.AbTester.IsValidEntrypointNow | class-mint-ab-testing.php:494-498 | false on a preview |
| AbTesting.AbTester.GetTemplate | class-mint-ab-testing.php:589-593 | the stored template, whatever the filter is given |
| AbTesting.AbTester.GetStylesheet | class-mint-ab-testing.php:602-606 | the stored stylesheet, whatever the filter is given |
| AbTesting.AbTester.Request | class-mint-ab-testing.php:615-625 | the result is `RequestVars` with the fresh `has_endpoint()`; the memo is unchanged when the query vars already carry the key and recomputed otherwise |
| AbTesting.AbTester.AddEndpointToUrl | class-mint-ab-testing.php:296-302 | the URL gets the endpoint as a query parameter, keeping base and fragment |
| AbTesting.AbTester.RemoveEndpoint | class-mint-ab-testing.php:199-205 | no parameter named by the endpoint is left; base and fragment are kept |
| AbTesting.AbTester.RemoveEndpointFromUrl | class-mint-ab-testing.php:311-317 | the same as `RemoveEndpoint` |
| AbTesting.AbTester.FixUrl | class-mint-ab-testing.php:215-229 | a URL without the mangled shape is returned unchanged |
| AbTesting.AbTester.RewriteUrlsIn | class-mint-ab-testing.php:241-285 | the shortcut, the scan and the replacement loop compute `UrlRewriter.RewriteUrls` |

## Left out

- WordPress hook registration and the loader file. The model keeps only the
  flags the constructor computes. The host dispatches the hooks.
- `load_alternate_functions`: its `get_theme`, `file_exists` and `include_once` are file I/O. The model keeps only the flag that it runs.
- `remove_referrer_cookie` and `javascript_track_referrer`: these dispatch on `class_exists` and print analytics text. The script models analytics presence as a boolean.
- `Math.random`, the `Date` expiry arithmetic and `toGMTString`, and `encodeURIComponent`: randomness, time and an encoding library. They are arguments.
- The cookie jar is a list of name and value pairs in the order `document.cookie` lists them. Path and domain scoping, expiry and the browser's ordering rules are not modelled.
- A general regular-expression engine. Only the one pattern of `rewrite_urls` is matched, by hand.
- WordPress `add_query_arg` and `remove_query_arg` internals: query normalisation by `parse_str`/`build_query`, URL encoding, treating a URL with `=` but no `?` as a bare query, and the trailing `?` kept before a fragment (see QueryArgs.RemoveQueryArgDrops).
- The stored option as a truthy non-array (a string or number): `wp_parse_args` would parse it as a query string. The model treats it as contributing nothing.
- Floats and objects among PHP values.
- Array-key conversion: `$_GET[...]` and `$query_vars[...]` are keyed by the endpoint's string cast. PHP turns `false` into key 0, not "".
- AbTesting.Settings: the ratio or lifetime is an integer only when the option is an integer, `true`, or a string of decimal digits without a leading zero. Every other echoed text is reported as no integer, and what JavaScript then does is not modelled: empty text leaves the script unparsable, a fraction, sign, exponent or leading zero (possibly read as octal) is a number the model does not evaluate, other text is a name that fails only when the script runs, and an array echoes as the name `Array`, against which `<` is false.
- PhpValues.EchoedInteger: same gap as AbTesting.Settings; a string with a leading zero, a sign, a fraction or an exponent gives no integer although JavaScript reads a number.
- Entrypoints.KeyHolds: the `switch` in `is_valid_entrypoint` compares keys as PHP 8 does, where the integer key 0 (from a key "0" or an unkeyed entry) matches none of the names. Before PHP 8, `0 == 'home'` holds, so such an entry would act as the `home` case; that is not modelled.
- Entrypoints.UnknownKeyIgnored: holds under the PHP 8 comparison only; before PHP 8 an entry with integer key 0 is not ignored (see Entrypoints.KeyHolds).
- BucketingScript.RedirectAddsEndpoint: stated only for a current query that does not itself start with `?`. The browser would strip such a `?` when the search is assigned.
- AbTesting.AbTester.RewriteUrlsIn: computes the corrected `RewriteUrls`, not the `~` behaviour. That behaviour is `UrlRewriter.RewriteUrlsAsWritten`.
- QueryArgs.RemoveQueryArgDrops: when no parameter is left the model drops the `?` even when a fragment follows. WordPress trims a trailing `?` only after the fragment is appended, so it gives `http://x/a/?#c` for `remove_query_arg('v02', 'http://x/a/?v02#c')`; that `?` before `#` is not modelled.
- QueryArgs.RemoveQueryArg: same gap as QueryArgs.RemoveQueryArgDrops for a URL with a fragment.
- QueryArgs.RemoveAfterAdd: excludes a URL ending in an empty query (`...?`), whose `?` the removal drops. It also does not hold for WordPress itself on a URL with a fragment and no query (`http://x/a/#c` comes back as `http://x/a/?#c`), because of the `?` described under QueryArgs.RemoveQueryArgDrops.
- `set_cookie`'s `null` and `isNaN` checks of the lifetime. The lifetime is an integer here.

## Findings

| source | as written | input that shows it | evidently intended | confidence | as-written member | corrected member |
|---|---|---|---|---|---|---|
| class-mint-ab-testing.php:241-258 | `preg_quote` is called without the pattern delimiter `~`, so a `~` in the home URL or the relative paths ends the pattern early; PHP rejects the pattern and content comes back unchanged | home `http://example.com/~site`, content `http://example.com/~site/about/` | the home URL quoted with the delimiter, so the URL gets `?v02` | high, not executed | UrlRewriter.TildeHomeExample | UrlRewriter.RewriteUrls |
| class-mint-ab-testing.php:407 | the draw is `Math.floor(Math.random()*101)`, a number from 0 to 100, compared with `< ratio` | ratio 100 and draw 100 give A, so one sampled visitor in 101 gets A | the draw `Math.floor(Math.random()*100)`, so the ratio is a percentage | medium, not executed | BucketingScript.FullRatioLeavesOneDrawInA | BucketingScript.PercentSampledShare |
