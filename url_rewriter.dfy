/**
 * The plugin's URL rewriting: the repair of mangled comment-page links
 * (`fix_url_syntax`) and the rewriting of same-site `href=` targets in
 * content (`rewrite_urls`), which scans the content with one fixed pattern
 * and appends the endpoint to every matched URL.
 *
 * The pattern built at class-mint-ab-testing.php:258 is
 *   href=['"]?(/|HOME)(?!CREL)(?!AREL)(?!.*\.([a-z0-9]{2,4}))([^'"<>\s]+)['"]?
 * with HOME, CREL and AREL the quoted home URL and the content and admin
 * paths relative to it. It is matched here by hand, in the order a
 * backtracking matcher tries the alternatives.
 */
module UrlRewriter {
  import opened Maybe
  import opened Strings
  import opened QueryArgs

  // ---------------------------------------------------------------------
  // fix_url_syntax

  /** The mangled shape comment-page links take: "/?" + endpoint + "/". */
  function MangledCheck(endpoint: string): string
  {
    "/?" + endpoint + "/"
  }

  /** `fix_url_syntax`: when the mangled shape occurs, every occurrence of it
      becomes "/", and then either every '&' becomes "?" + endpoint + "&" or,
      when there is no '&', the endpoint is added as a query argument. */
  function FixUrlSyntax(url: string, endpoint: string): string
  {
    var check := MangledCheck(endpoint);
    if !Contains(url, check) then url
    else
      var repaired := ReplaceAll(url, check, "/");
      if Contains(repaired, "&") then ReplaceAll(repaired, "&", "?" + endpoint + "&")
      else AddQueryArg(endpoint, repaired)
  }

  /** A URL without the mangled shape is passed through. */
  lemma FixUrlSyntaxUnchanged(url: string, endpoint: string)
    requires !Contains(url, MangledCheck(endpoint))
    ensures FixUrlSyntax(url, endpoint) == url
  {
  }

  /** Nothing before index |a| of `a + find + b` starts an occurrence of
      `find`, when `a` lacks a character that `find` has at index 1 and that
      differs from the first character of `find`. */
  lemma NoEarlyOccurrence(a: string, find: string, b: string)
    requires |find| >= 2 && find[1] !in a && find[1] != find[0]
    ensures forall i :: 0 <= i < |a| ==> !OccursAt(a + find + b, find, i)
  {
    var s := a + find + b;
    forall i | 0 <= i < |a| ensures !OccursAt(s, find, i) {
      if i + |find| <= |s| {
        assert s[i + 1] != find[1] by {
          if i + 1 < |a| {
            assert s[i + 1] == a[i + 1];
          } else {
            assert s[i + 1] == find[0];
          }
        }
        assert s[i..i + |find|][1] == s[i + 1];
      }
    }
  }

  /** The mangled shape occurs once, between `a` and `b`, and is replaced by "/". */
  lemma ReplaceMangledOnce(a: string, endpoint: string, b: string)
    requires '?' !in a && '?' !in b
    ensures Contains(a + MangledCheck(endpoint) + b, MangledCheck(endpoint))
    ensures ReplaceAll(a + MangledCheck(endpoint) + b, MangledCheck(endpoint), "/") == a + "/" + b
  {
    var check := MangledCheck(endpoint);
    var url := a + check + b;
    assert OccursAt(url, check, |a|) by {
      assert url[|a|..|a| + |check|] == check;
    }
    ContainsIff(url, check);
    NoEarlyOccurrence(a, check, b);
    ReplaceAllFirst(a, check, b, "/");
    MissingCharNotContained(b, check, '?');
    ReplaceAllAbsent(b, check, "/");
  }

  /** A character that occurs once, between `a` and `b`, is replaced by `rep`. */
  lemma ReplaceCharOnce(a: string, ch: char, b: string, rep: string)
    requires ch !in a && ch !in b
    ensures Contains(a + [ch] + b, [ch])
    ensures ReplaceAll(a + [ch] + b, [ch], rep) == a + rep + b
  {
    var s := a + [ch] + b;
    assert OccursAt(s, [ch], |a|) by {
      assert s[|a|..|a| + 1] == [ch];
    }
    ContainsIff(s, [ch]);
    forall i | 0 <= i < |a| ensures !OccursAt(s, [ch], i) {
      assert s[i] == a[i];
      assert s[i..i + 1][0] == s[i];
    }
    ReplaceAllFirst(a, [ch], b, rep);
    MissingCharNotContained(b, [ch], ch);
    ReplaceAllAbsent(b, [ch], rep);
  }

  /** The one mangled shape the repair is for: a URL `a + "/?" + endpoint +
      "/" + b` with no other '?' and no '&'. The shape is replaced by "/" and
      the endpoint is put back as a query argument before the fragment. */
  lemma FixUrlSyntaxRepairs(a: string, endpoint: string, b: string)
    requires '?' !in a && '?' !in b && '&' !in a && '&' !in b
    ensures var repaired := a + "/" + b;
      var h := IndexOf(repaired, '#');
      FixUrlSyntax(a + MangledCheck(endpoint) + b, endpoint) == repaired[..h] + "?" + endpoint + repaired[h..]
  {
    ReplaceMangledOnce(a, endpoint, b);
    var repaired := a + "/" + b;
    assert '&' !in repaired;
    MissingCharNotContained(repaired, "&", '&');
    var h := IndexOf(repaired, '#');
    assert '?' !in repaired[..h];
    InsertsWithoutQuery(endpoint, repaired);
  }

  /** The repair with the fragment spelled out: the endpoint goes between
      the repaired path and the fragment. */
  lemma FixUrlSyntaxBeforeFragment(a: string, endpoint: string, path: string, fragment: string)
    requires '?' !in a && '?' !in path && '?' !in fragment
    requires '&' !in a && '&' !in path && '&' !in fragment
    requires '#' !in a && '#' !in path && fragment != [] && fragment[0] == '#'
    ensures FixUrlSyntax(a + MangledCheck(endpoint) + path + fragment, endpoint)
      == a + "/" + path + "?" + endpoint + fragment
  {
    assert a + MangledCheck(endpoint) + path + fragment == a + MangledCheck(endpoint) + (path + fragment);
    FixUrlSyntaxRepairs(a, endpoint, path + fragment);
    var beforeHash := a + "/" + path;
    assert a + "/" + (path + fragment) == beforeHash + fragment;
    assert '#' !in beforeHash;
    SplitAtFirst(beforeHash, '#', fragment);
  }

  /** The example the source documents:
      "http://wordpress.local/page-with-comments/?v02/comment-page-1/#comments"
      is repaired to
      "http://wordpress.local/page-with-comments/comment-page-1/?v02#comments"
      (written here in pieces). */
  lemma FixUrlSyntaxDocumentedExample(url: string)
    requires url == "http://wordpress.local/page-with-comments" + "/?v02/" + "comment-page-1/" + "#comments"
    ensures FixUrlSyntax(url, "v02")
      == "http://wordpress.local/page-with-comments" + "/" + "comment-page-1/" + "?" + "v02" + "#comments"
  {
    var a := "http://wordpress.local/page-with-comments";
    assert MangledCheck("v02") == "/?v02/";
    PlainPage(a);
    CommentPagePieces("comment-page-1/", "#comments");
    FixUrlSyntaxBeforeFragment(a, "v02", "comment-page-1/", "#comments");
  }

  /** With exactly one '&', after the repair the endpoint lands in front of
      that '&' as the start of a query. */
  lemma FixUrlSyntaxAmpersand(a: string, endpoint: string, b1: string, b2: string)
    requires '?' !in a && '?' !in b1 && '?' !in b2
    requires '&' !in a && '&' !in b1 && '&' !in b2
    ensures FixUrlSyntax(a + MangledCheck(endpoint) + b1 + "&" + b2, endpoint)
      == a + "/" + b1 + "?" + endpoint + "&" + b2
  {
    var b := b1 + "&" + b2;
    assert '?' !in b;
    assert a + MangledCheck(endpoint) + b1 + "&" + b2 == a + MangledCheck(endpoint) + b;
    ReplaceMangledOnce(a, endpoint, b);
    var pre := a + "/" + b1;
    assert a + "/" + b == pre + ['&'] + b2;
    assert '&' !in pre;
    ReplaceCharOnce(pre, '&', b2, "?" + endpoint + "&");
  }

  // ---------------------------------------------------------------------
  // The href pattern

  predicate Quote(ch: char)
  {
    ch == '\'' || ch == '"'
  }

  /** PCRE's `\s` on byte-sized characters: space, tab, line feed, vertical
      tab, form feed and carriage return. */
  predicate Space(ch: char)
  {
    ch == ' ' || ch == '\t' || ch == '\n' || ch == 11 as char || ch == 12 as char || ch == '\r'
  }

  /** The class `[^'"<>\s]` of the URL group. */
  predicate UrlChar(ch: char)
  {
    !Quote(ch) && ch != '<' && ch != '>' && !Space(ch)
  }

  /** The class `[a-z0-9]` of the extension look-ahead. */
  predicate ExtChar(ch: char)
  {
    ('a' <= ch <= 'z') || ('0' <= ch <= '9')
  }

  /** `\.([a-z0-9]{2,4})` matches at index `j`; two characters suffice. */
  predicate ExtensionAt(c: string, j: int)
  {
    0 <= j && j + 3 <= |c| && c[j] == '.' && ExtChar(c[j + 1]) && ExtChar(c[j + 2])
  }

  /** `.*\.([a-z0-9]{2,4})` matches at `p`: `.` matches anything but a
      line feed, so the search runs to the end of the line, past the URL. */
  predicate ExtensionAhead(c: string, p: int)
    decreases |c| - p
  {
    0 <= p < |c| && (ExtensionAt(c, p) || (c[p] != '\n' && ExtensionAhead(c, p + 1)))
  }

  /** The extension look-ahead fails at `p` exactly when some extension-like
      text follows on the same line. */
  lemma {:induction false} ExtensionAheadIff(c: string, p: int)
    requires 0 <= p <= |c|
    ensures ExtensionAhead(c, p) <==> exists j :: p <= j <= |c| && ExtensionAt(c, j) && '\n' !in c[p..j]
    decreases |c| - p
  {
    if p < |c| {
      ExtensionAheadIff(c, p + 1);
      if ExtensionAhead(c, p) {
        if ExtensionAt(c, p) {
          assert c[p..p] == [];
        } else {
          var j :| p + 1 <= j <= |c| && ExtensionAt(c, j) && '\n' !in c[p + 1..j];
          assert c[p..j] == [c[p]] + c[p + 1..j];
        }
      }
      forall j | p <= j <= |c| && ExtensionAt(c, j) && '\n' !in c[p..j]
        ensures ExtensionAhead(c, p)
      {
        if j > p {
          assert c[p..j] == [c[p]] + c[p + 1..j];
          assert c[p] != '\n';
          assert '\n' !in c[p + 1..j];
        }
      }
    } else {
      forall j | p <= j <= |c| ensures !ExtensionAt(c, j) { }
    }
  }

  /** End of the run of URL characters starting at `p`: the greedy
      `([^'"<>\s]+)`. */
  function RunEnd(c: string, p: int): (e: int)
    requires 0 <= p <= |c|
    ensures p <= e <= |c|
    ensures forall k :: p <= k < e ==> UrlChar(c[k])
    ensures e < |c| ==> !UrlChar(c[e])
    decreases |c| - p
  {
    if p == |c| || !UrlChar(c[p]) then p else RunEnd(c, p + 1)
  }

  /** One match of the pattern, as positions in the scanned content: it
      starts at `start` ("href="), the URL (groups 1 and 3) runs from
      `leadStart` to `urlEnd`, group 3 starts at `urlStart`, and the whole
      match ends at `end`. */
  datatype Match = Match(start: int, leadStart: int, urlStart: int, urlEnd: int, end: int)

  /** The text the match covers (`$find`). */
  function MatchText(c: string, m: Match): string
    requires 0 <= m.start <= m.end <= |c|
  {
    c[m.start..m.end]
  }

  /** The URL the match captured, group 1 followed by group 3 (`$replace_base`). */
  function MatchUrl(c: string, m: Match): string
    requires 0 <= m.leadStart <= m.urlEnd <= |c|
  {
    c[m.leadStart..m.urlEnd]
  }

  /** `m` is a match of the pattern in `c`, read off the pattern piece by piece. */
  predicate IsMatch(c: string, m: Match, home: string, crel: string, arel: string)
  {
    && 0 <= m.start && m.start + 5 <= m.leadStart <= |c|
    // href=
    && OccursAt(c, "href=", m.start)
    // ['"]?
    && (m.leadStart == m.start + 5 || (m.leadStart == m.start + 6 && Quote(c[m.start + 5])))
    && MatchesAfterHref(c, m, home, crel, arel)
  }

  /** The part of the pattern after `href=['"]?`, from the lead on. */
  predicate MatchesAfterHref(c: string, m: Match, home: string, crel: string, arel: string)
  {
    && 0 <= m.leadStart <= m.urlStart < m.urlEnd <= m.end <= |c|
    // (/|HOME)
    && (c[m.leadStart..m.urlStart] == "/" || c[m.leadStart..m.urlStart] == home)
    // (?!CREL)(?!AREL)(?!.*\.([a-z0-9]{2,4}))
    && !StartsWith(c[m.urlStart..], crel) && !StartsWith(c[m.urlStart..], arel)
    && !ExtensionAhead(c, m.urlStart)
    // ([^'"<>\s]+), greedy
    && (forall k :: m.urlStart <= k < m.urlEnd ==> UrlChar(c[k]))
    && (m.urlEnd == |c| || !UrlChar(c[m.urlEnd]))
    // ['"]?, greedy
    && m.end == (if m.urlEnd < |c| && Quote(c[m.urlEnd]) then m.urlEnd + 1 else m.urlEnd)
  }

  /** The rest of the pattern once the lead `lead` has matched at `j`:
      the three look-aheads, the URL run and the optional closing quote. */
  function AfterLead(c: string, i: int, j: int, lead: string, crel: string, arel: string): (r: Option<Match>)
    requires 0 <= i && OccursAt(c, lead, j)
    ensures r.Some? ==> r.value == (var p := j + |lead|; var e := RunEnd(c, p);
      Match(i, j, p, e, if e < |c| && Quote(c[e]) then e + 1 else e))
    ensures r.Some? <==> (var p := j + |lead|;
      !StartsWith(c[p..], crel) && !StartsWith(c[p..], arel) && !ExtensionAhead(c, p) && RunEnd(c, p) > p)
  {
    var p := j + |lead|;
    if StartsWith(c[p..], crel) || StartsWith(c[p..], arel) || ExtensionAhead(c, p) then None
    else
      var e := RunEnd(c, p);
      if e == p then None
      else Some(Match(i, j, p, e, if e < |c| && Quote(c[e]) then e + 1 else e))
  }

  /** The alternation `(/|HOME)` at `j`: "/" is tried first, then the home URL. */
  function LeadAt(c: string, i: int, j: int, home: string, crel: string, arel: string): (r: Option<Match>)
    requires 0 <= i && 0 <= j <= |c|
    ensures r.Some? ==> r.value.start == i && r.value.leadStart == j && MatchesAfterHref(c, r.value, home, crel, arel)
  {
    var slash := if OccursAt(c, "/", j) then AfterLead(c, i, j, "/", crel, arel) else None;
    if slash.Some? then slash
    else if OccursAt(c, home, j) then AfterLead(c, i, j, home, crel, arel)
    else None
  }

  /** The pattern anchored at `i`, trying the alternatives in a backtracking
      matcher's order: with the opening quote consumed first, then without. */
  function MatchAt(c: string, i: int, home: string, crel: string, arel: string): (r: Option<Match>)
    requires 0 <= i <= |c|
    ensures r.Some? ==> r.value.start == i && IsMatch(c, r.value, home, crel, arel)
  {
    if !OccursAt(c, "href=", i) then None
    else
      var j := i + 5;
      var quoted := if j < |c| && Quote(c[j]) then LeadAt(c, i, j + 1, home, crel, arel) else None;
      if quoted.Some? then quoted else LeadAt(c, i, j, home, crel, arel)
  }

  /** Whenever the pattern can match at `i` at all, `MatchAt` finds a match. */
  lemma MatchAtComplete(c: string, m: Match, home: string, crel: string, arel: string)
    requires IsMatch(c, m, home, crel, arel)
    ensures MatchAt(c, m.start, home, crel, arel).Some?
  {
    var i := m.start;
    var lead := c[m.leadStart..m.urlStart];
    assert OccursAt(c, lead, m.leadStart);
    assert AfterLead(c, i, m.leadStart, lead, crel, arel).Some?;
    assert LeadAt(c, i, m.leadStart, home, crel, arel).Some? by {
      if lead == "/" {
      } else {
        assert lead == home;
      }
    }
  }

  /** `preg_match_all` from offset `from`: the leftmost match, then the scan
      goes on at its end. */
  function MatchesFrom(c: string, from: int, home: string, crel: string, arel: string): (ms: seq<Match>)
    requires 0 <= from <= |c|
    ensures forall k :: 0 <= k < |ms| ==> IsMatch(c, ms[k], home, crel, arel) && from <= ms[k].start
    ensures forall k :: 0 <= k < |ms| - 1 ==> ms[k].end <= ms[k + 1].start
    decreases |c| - from
  {
    if from == |c| then []
    else match MatchAt(c, from, home, crel, arel)
      case Some(m) => [m] + MatchesFrom(c, m.end, home, crel, arel)
      case None => MatchesFrom(c, from + 1, home, crel, arel)
  }

  /** The scan finds nothing exactly when the pattern matches nowhere from
      `from` on. */
  lemma {:induction false} NoMatchesIff(c: string, from: int, home: string, crel: string, arel: string)
    requires 0 <= from <= |c|
    ensures MatchesFrom(c, from, home, crel, arel) == [] <==>
      forall i :: from <= i < |c| ==> MatchAt(c, i, home, crel, arel).None?
    decreases |c| - from
  {
    if from < |c| && MatchAt(c, from, home, crel, arel).None? {
      NoMatchesIff(c, from + 1, home, crel, arel);
      if MatchesFrom(c, from, home, crel, arel) == [] {
        forall i | from <= i < |c| ensures MatchAt(c, i, home, crel, arel).None? {
          if i > from {
            assert from + 1 <= i;
          }
        }
      }
    }
  }

  /** The first match of a scan is the leftmost one, and the scan goes on
      from that match's end. */
  lemma {:induction false} FirstMatchLeftmost(c: string, from: int, home: string, crel: string, arel: string)
    requires 0 <= from <= |c|
    requires MatchesFrom(c, from, home, crel, arel) != []
    ensures var ms := MatchesFrom(c, from, home, crel, arel);
      && MatchAt(c, ms[0].start, home, crel, arel) == Some(ms[0])
      && (forall i :: from <= i < ms[0].start ==> MatchAt(c, i, home, crel, arel).None?)
      && ms[1..] == MatchesFrom(c, ms[0].end, home, crel, arel)
    decreases |c| - from
  {
    var ms := MatchesFrom(c, from, home, crel, arel);
    var r := MatchAt(c, from, home, crel, arel);
    if r.Some? {
      assert ms == [r.value] + MatchesFrom(c, r.value.end, home, crel, arel);
      assert ms[1..] == MatchesFrom(c, r.value.end, home, crel, arel);
    } else {
      assert ms == MatchesFrom(c, from + 1, home, crel, arel);
      FirstMatchLeftmost(c, from + 1, home, crel, arel);
      forall i | from <= i < ms[0].start ensures MatchAt(c, i, home, crel, arel).None? {
        if i > from {
          assert from + 1 <= i;
        }
      }
    }
  }

  /** Content without "href=" after `from` has no match there. */
  lemma NoHrefNoMatches(c: string, from: int, home: string, crel: string, arel: string)
    requires 0 <= from <= |c|
    requires forall i :: from <= i < |c| ==> !OccursAt(c, "href=", i)
    ensures MatchesFrom(c, from, home, crel, arel) == []
  {
    NoMatchesIff(c, from, home, crel, arel);
  }

  /** One pass of the replacement loop: a match whose text contains "/feed/"
      is skipped; otherwise the endpoint is added to the match's URL, the
      URL is replaced by that inside the match text, and every occurrence of
      the match text in the current content is replaced by the result. */
  function Step(content: string, c: string, m: Match, endpoint: string): string
    requires 0 <= m.start <= m.leadStart <= m.urlEnd <= m.end <= |c|
  {
    var find := MatchText(c, m);
    if Contains(find, "/feed/") then content
    else
      var base := MatchUrl(c, m);
      ReplaceAll(content, find, ReplaceAll(find, base, AddQueryArg(endpoint, base)))
  }

  predicate InBounds(c: string, ms: seq<Match>)
  {
    forall k :: 0 <= k < |ms| ==> 0 <= ms[k].start <= ms[k].leadStart <= ms[k].urlEnd <= ms[k].end <= |c|
  }

  /** The replacement loop over the matches found in the original content `c`,
      each step working on the content the previous step left. */
  function ApplyMatches(content: string, c: string, ms: seq<Match>, endpoint: string): string
    requires InBounds(c, ms)
    decreases |ms|
  {
    if ms == [] then content
    else ApplyMatches(Step(content, c, ms[0], endpoint), c, ms[1..], endpoint)
  }

  /** `str_replace(home_url(), '', url)`: a URL made relative to the home URL. */
  function RelativeTo(url: string, home: string): string
  {
    ReplaceAll(url, home, "")
  }

  /** `rewrite_urls`: content that starts with the home URL is one URL and
      gets the endpoint; otherwise every match of the href pattern, with the
      content and admin paths made relative to the home URL, is rewritten. */
  function RewriteUrls(content: string, home: string, contentUrl: string, adminUrl: string, endpoint: string): string
  {
    if StartsWith(content, home) then AddQueryArg(endpoint, content)
    else
      var ms := MatchesFrom(content, 0, home, RelativeTo(contentUrl, home), RelativeTo(adminUrl, home));
      ApplyMatches(content, content, ms, endpoint)
  }

  /** Content that starts with the home URL is treated as a single URL: the
      endpoint becomes one of its query parameters and its base and
      fragment are kept. */
  lemma RewriteSingleUrl(content: string, home: string, contentUrl: string, adminUrl: string, endpoint: string)
    requires ValidKey(endpoint)
    requires StartsWith(content, home)
    ensures var r := RewriteUrls(content, home, contentUrl, adminUrl, endpoint);
      && r == AddQueryArg(endpoint, content)
      && Parse(r).query.Some? && HasParam(Split(Parse(r).query.value, '&'), endpoint)
      && Parse(r).base == Parse(content).base && Parse(r).fragment == Parse(content).fragment
  {
    AddQueryArgHasParam(endpoint, content);
  }

  /** Content without any "href=" (and not starting with the home URL) is
      returned unchanged. */
  lemma RewriteWithoutHrefUnchanged(content: string, home: string, contentUrl: string, adminUrl: string, endpoint: string)
    requires !StartsWith(content, home)
    requires !Contains(content, "href=")
    ensures RewriteUrls(content, home, contentUrl, adminUrl, endpoint) == content
  {
    ContainsIff(content, "href=");
    NoHrefNoMatches(content, 0, home, RelativeTo(contentUrl, home), RelativeTo(adminUrl, home));
  }

  /** Matches whose text contains "/feed/" cause no replacement at all. */
  lemma {:induction false} FeedMatchesSkipped(content: string, c: string, ms: seq<Match>, endpoint: string)
    requires InBounds(c, ms)
    requires forall k :: 0 <= k < |ms| ==> Contains(MatchText(c, ms[k]), "/feed/")
    ensures ApplyMatches(content, c, ms, endpoint) == content
    decreases |ms|
  {
    if ms != [] {
      assert Step(content, c, ms[0], endpoint) == content;
      FeedMatchesSkipped(content, c, ms[1..], endpoint);
    }
  }

  /** The greedy run ends at the first non-URL character. */
  lemma {:induction false} RunEndAt(c: string, p: int, e: int)
    requires 0 <= p <= e <= |c|
    requires forall k :: p <= k < e ==> UrlChar(c[k])
    requires e == |c| || !UrlChar(c[e])
    ensures RunEnd(c, p) == e
    decreases e - p
  {
    if p < e {
      RunEndAt(c, p + 1, e);
    }
  }

  /** A bare `href="/"` (or `href='/'`) is not matched: after the "/" lead
      the URL group needs at least one more character. The home URL is a
      real one here: not empty and not starting with '/' or a quote. */
  lemma BareRootHrefNotMatched(c: string, i: int, q: char, home: string, crel: string, arel: string)
    requires 0 <= i <= |c|
    requires Quote(q) && OccursAt(c, "href=" + [q] + "/" + [q], i)
    requires |home| > 0 && home[0] != '/' && !Quote(home[0])
    ensures MatchAt(c, i, home, crel, arel) == None
  {
    var t := "href=" + [q] + "/" + [q];
    assert c[i..i + 8] == t;
    assert c[i..i + 5] == "href=" by {
      assert c[i..i + 5] == c[i..i + 8][..5];
    }
    var j := i + 5;
    assert c[j] == q && c[j + 1] == '/' && c[j + 2] == q by {
      assert c[j] == t[5] && c[j + 1] == t[6] && c[j + 2] == t[7];
    }
    assert OccursAt(c, "/", j + 1) by {
      assert c[j + 1..j + 2] == [c[j + 1]];
    }
    RunEndAt(c, j + 2, j + 2);
    assert AfterLead(c, i, j + 1, "/", crel, arel) == None;
    assert !OccursAt(c, home, j + 1);
    assert !OccursAt(c, "/", j);
    assert !OccursAt(c, home, j);
  }

  /** An absolute link straight into the admin (or content) path, that is
      the home URL followed by that relative path, is never matched. */
  lemma AbsolutePathLinkNotMatched(c: string, i: int, q: char, home: string, crel: string, arel: string, path: string)
    requires 0 <= i <= |c|
    requires Quote(q) && OccursAt(c, "href=" + [q] + home + path, i)
    requires path == crel || path == arel
    requires |home| > 0 && home[0] != '/' && !Quote(home[0])
    ensures MatchAt(c, i, home, crel, arel) == None
  {
    var j := i + 5;
    AbsoluteLinkPieces(c, i, q, home, path);
    assert AfterLead(c, i, j + 1, home, crel, arel) == None;
    assert !OccursAt(c, "/", j + 1);
    assert !OccursAt(c, "/", j);
    assert !OccursAt(c, home, j);
  }

  /** The pieces of `href=` + quote + home URL + path at `i`. */
  lemma AbsoluteLinkPieces(c: string, i: int, q: char, home: string, path: string)
    requires 0 <= i <= |c|
    requires OccursAt(c, "href=" + [q] + home + path, i)
    requires |home| > 0
    ensures OccursAt(c, "href=", i) && c[i + 5] == q && c[i + 6] == home[0]
    ensures OccursAt(c, home, i + 6) && StartsWith(c[i + 6 + |home|..], path)
  {
    var t := "href=" + [q] + home + path;
    assert c[i..i + |t|] == t;
    assert c[i..i + 5] == "href=" by {
      assert c[i..i + 5] == c[i..i + |t|][..5];
    }
    var j := i + 5;
    assert c[j] == q by { assert c[j] == t[5]; }
    assert c[j + 1] == home[0] by { assert c[j + 1] == t[6]; }
    var p := j + 1 + |home|;
    assert OccursAt(c, home, j + 1) by {
      assert t[6..6 + |home|] == home;
      forall k | 0 <= k < |home| ensures c[j + 1 + k] == home[k] {
        assert c[j + 1 + k] == c[i..i + |t|][6 + k] == t[6 + k];
      }
      assert c[j + 1..p] == home;
    }
    assert StartsWith(c[p..], path) by {
      assert c[p..][..|path|] == c[p..p + |path|] == t[6 + |home|..];
    }
  }

  /** Inside the match text, only the URL is replaced: the text before it
      ("href=" and the optional quote) cannot hold an occurrence of a URL
      that starts with "/" or "ht", and the closing quote is too short to. */
  lemma ReplaceInMatchText(prefix: string, url: string, suffix: string, newUrl: string)
    requires prefix == "href=" || (|prefix| == 6 && prefix[..5] == "href=" && Quote(prefix[5]))
    requires |suffix| <= 1
    requires |url| >= 2 && (url[0] == '/' || (url[0] == 'h' && url[1] == 't'))
    ensures ReplaceAll(prefix + url + suffix, url, newUrl) == prefix + newUrl + suffix
  {
    var s := prefix + url + suffix;
    forall i | 0 <= i < |prefix| ensures !OccursAt(s, url, i) {
      if i + |url| <= |s| {
        assert s[i..i + |url|][0] == s[i] == prefix[i];
        assert s[i..i + |url|][1] == s[i + 1];
        assert prefix[..5] == "href=";
        if i < 5 {
          assert prefix[i] == "href="[i];
        }
        if i == 0 {
          assert s[1] == 'r';
        }
      }
    }
    ReplaceAllFirst(prefix, url, suffix, newUrl);
  }

  /** What one step does to a match that is not a feed URL: the match text
      is the text before the URL, the URL and the closing quote, and every
      occurrence of it becomes the same text with the endpoint added to the
      URL. */
  lemma StepRewritesHref(content: string, c: string, m: Match, home: string, crel: string, arel: string, endpoint: string)
    requires IsMatch(c, m, home, crel, arel)
    requires StartsWith(home, "ht")
    requires !Contains(MatchText(c, m), "/feed/")
    ensures var prefix := c[m.start..m.leadStart];
      var suffix := c[m.urlEnd..m.end];
      && MatchText(c, m) == prefix + MatchUrl(c, m) + suffix
      && Step(content, c, m, endpoint) ==
           ReplaceAll(content, MatchText(c, m), prefix + AddQueryArg(endpoint, MatchUrl(c, m)) + suffix)
  {
    var prefix := c[m.start..m.leadStart];
    var url := MatchUrl(c, m);
    var suffix := c[m.urlEnd..m.end];
    MatchPieces(c, m, home, crel, arel);
    ReplaceInMatchText(prefix, url, suffix, AddQueryArg(endpoint, url));
  }

  /** The pieces of a match's text: "href=" with the optional opening quote,
      a URL that starts with "/" or with the home URL, and the optional
      closing quote. */
  lemma MatchPieces(c: string, m: Match, home: string, crel: string, arel: string)
    requires IsMatch(c, m, home, crel, arel)
    requires StartsWith(home, "ht")
    ensures var prefix := c[m.start..m.leadStart];
      var url := MatchUrl(c, m);
      var suffix := c[m.urlEnd..m.end];
      && MatchText(c, m) == prefix + url + suffix
      && (prefix == "href=" || (|prefix| == 6 && prefix[..5] == "href=" && Quote(prefix[5])))
      && |suffix| <= 1
      && |url| >= 2 && (url[0] == '/' || (url[0] == 'h' && url[1] == 't'))
  {
    var prefix := c[m.start..m.leadStart];
    var url := MatchUrl(c, m);
    var suffix := c[m.urlEnd..m.end];
    assert MatchText(c, m) == prefix + url + suffix;
    assert prefix[..5] == c[m.start..m.start + 5];
    var lead := c[m.leadStart..m.urlStart];
    assert url == lead + c[m.urlStart..m.urlEnd];
    if lead == home {
      assert url[..2] == home[..2];
    }
  }

  /** Positions without "href=" are skipped by the scan. */
  lemma {:induction false} SkipNoHref(c: string, from: int, upto: int, home: string, crel: string, arel: string)
    requires 0 <= from <= upto <= |c|
    requires forall i :: from <= i < upto ==> !OccursAt(c, "href=", i)
    ensures MatchesFrom(c, from, home, crel, arel) == MatchesFrom(c, upto, home, crel, arel)
    decreases upto - from
  {
    if from < upto {
      assert MatchAt(c, from, home, crel, arel) == None;
      SkipNoHref(c, from + 1, upto, home, crel, arel);
    }
  }

  /** The match of a quoted root-relative link `href="/..."`. */
  lemma QuotedLinkMatch(c: string, i: int, q: char, url: string, home: string, crel: string, arel: string)
    requires 0 <= i && i + 7 + |url| <= |c|
    requires c[i..i + 6] == "href=" + [q]
    requires c[i + 6..i + 6 + |url|] == url
    requires c[i + 6 + |url|] == q
    requires Quote(q)
    requires |url| >= 2 && url[0] == '/'
    requires forall k :: 0 <= k < |url| ==> UrlChar(url[k])
    requires !StartsWith(c[i + 7..], crel) && !StartsWith(c[i + 7..], arel)
    requires !ExtensionAhead(c, i + 7)
    ensures MatchAt(c, i, home, crel, arel) ==
      Some(Match(i, i + 6, i + 7, i + 6 + |url|, i + 7 + |url|))
  {
    var j := i + 5;
    assert c[i..i + 5] == "href=" by {
      assert c[i..i + 5] == c[i..i + 6][..5];
    }
    assert c[j] == q by {
      assert c[j] == c[i..i + 6][5];
    }
    assert c[j + 1] == '/' by {
      assert c[j + 1] == c[i + 6..i + 6 + |url|][0];
    }
    assert OccursAt(c, "/", j + 1) by {
      assert c[j + 1..j + 2] == [c[j + 1]];
    }
    forall k | i + 7 <= k < i + 6 + |url| ensures UrlChar(c[k]) {
      assert c[k] == c[i + 6..i + 6 + |url|][k - i - 6] == url[k - i - 6];
    }
    RunEndAt(c, i + 7, i + 6 + |url|);
  }

  /** The scan of a content whose only "href=" is that of a quoted
      root-relative link finds exactly that link. */
  lemma SingleLinkScan(c: string, i: int, q: char, url: string, home: string, crel: string, arel: string)
    requires 0 <= i && i + 7 + |url| <= |c|
    requires c[i..i + 6] == "href=" + [q]
    requires c[i + 6..i + 6 + |url|] == url
    requires c[i + 6 + |url|] == q
    requires Quote(q)
    requires forall n :: 0 <= n < |c| && n != i ==> !OccursAt(c, "href=", n)
    requires |url| >= 2 && url[0] == '/'
    requires forall k :: 0 <= k < |url| ==> UrlChar(url[k])
    requires !StartsWith(c[i + 7..], crel) && !StartsWith(c[i + 7..], arel)
    requires !ExtensionAhead(c, i + 7)
    ensures MatchesFrom(c, 0, home, crel, arel) ==
      [Match(i, i + 6, i + 7, i + 6 + |url|, i + 7 + |url|)]
  {
    QuotedLinkMatch(c, i, q, url, home, crel, arel);
    var m := Match(i, i + 6, i + 7, i + 6 + |url|, i + 7 + |url|);
    SkipNoHref(c, 0, i, home, crel, arel);
    NoHrefNoMatches(c, m.end, home, crel, arel);
  }

  /** Replacing a text that starts with "href=" and occurs nowhere else
      replaces it at that one place. */
  lemma ReplaceOnlyHref(c: string, a: string, t: string, b: string, t2: string)
    requires c == a + t + b
    requires StartsWith(t, "href=")
    requires forall i :: 0 <= i < |c| && i != |a| ==> !OccursAt(c, "href=", i)
    ensures ReplaceAll(c, t, t2) == a + t2 + b
  {
    var r := t[5..];
    assert t == "href=" + r;
    forall i | 0 <= i < |a| ensures !OccursAt(c, t, i) {
      if OccursAt(c, t, i) {
        OccursAtPrefix(c, "href=", r, i);
      }
    }
    ReplaceAllFirst(a, t, b, t2);
    assert !Contains(b, t) by {
      ContainsIff(b, t);
      forall k | OccursAt(b, t, k) ensures false {
        OccursInSuffix(a + t, b, t, k);
        OccursAtPrefix(c, "href=", r, |a + t| + k);
      }
    }
    ReplaceAllAbsent(b, t, t2);
  }

  /** `RewriteUrls` on a content that does not start with the home URL and
      whose scan finds the single match `m` is that match's step. */
  lemma RewriteOneMatch(content: string, home: string, contentUrl: string, adminUrl: string, endpoint: string, m: Match)
    requires !StartsWith(content, home)
    requires MatchesFrom(content, 0, home, RelativeTo(contentUrl, home), RelativeTo(adminUrl, home)) == [m]
    ensures IsMatch(content, m, home, RelativeTo(contentUrl, home), RelativeTo(adminUrl, home))
    ensures RewriteUrls(content, home, contentUrl, adminUrl, endpoint) == Step(content, content, m, endpoint)
  {
    var ms := MatchesFrom(content, 0, home, RelativeTo(contentUrl, home), RelativeTo(adminUrl, home));
    assert ms[0] == m;
    assert IsMatch(content, m, home, RelativeTo(contentUrl, home), RelativeTo(adminUrl, home));
    assert ms[1..] == [];
    assert ApplyMatches(content, content, ms, endpoint) == ApplyMatches(Step(content, content, m, endpoint), content, [], endpoint);
  }

  /** A content with one quoted root-relative link: the endpoint is added to
      that link's URL and nothing else changes. The link's URL must pass the
      pattern (URL characters only, none of the excluded paths after the
      leading "/", no extension-like text on the rest of the line) and not
      be a feed URL. */
  lemma RewriteSingleLink(c: string, a: string, q: char, url: string, b: string,
                          home: string, contentUrl: string, adminUrl: string, endpoint: string)
    requires c == a + "href=" + [q] + url + [q] + b
    requires Quote(q)
    requires StartsWith(home, "ht") && !StartsWith(c, home)
    requires forall i :: 0 <= i < |c| && i != |a| ==> !OccursAt(c, "href=", i)
    requires |url| >= 2 && url[0] == '/'
    requires forall k :: 0 <= k < |url| ==> UrlChar(url[k])
    requires var rest := url[1..] + [q] + b;
      !StartsWith(rest, RelativeTo(contentUrl, home)) && !StartsWith(rest, RelativeTo(adminUrl, home))
    requires !ExtensionAhead(c, |a| + 7)
    requires !Contains("href=" + [q] + url + [q], "/feed/")
    ensures RewriteUrls(c, home, contentUrl, adminUrl, endpoint) ==
      a + "href=" + [q] + AddQueryArg(endpoint, url) + [q] + b
  {
    var t := "href=" + [q] + url + [q];
    var t2 := "href=" + [q] + AddQueryArg(endpoint, url) + [q];
    SingleLinkReplaced(c, a, q, url, b, home, contentUrl, adminUrl, endpoint);
    LinkAssoc(a, q, AddQueryArg(endpoint, url), b);
    LinkParts(c, a, q, url, b);
    ReplaceOnlyHref(c, a, t, b, t2);
  }

  /** `SingleLinkRewrite` with the link at |a|. */
  lemma SingleLinkReplaced(c: string, a: string, q: char, url: string, b: string,
                           home: string, contentUrl: string, adminUrl: string, endpoint: string)
    requires c == a + "href=" + [q] + url + [q] + b
    requires Quote(q)
    requires StartsWith(home, "ht") && !StartsWith(c, home)
    requires forall i :: 0 <= i < |c| && i != |a| ==> !OccursAt(c, "href=", i)
    requires |url| >= 2 && url[0] == '/'
    requires forall k :: 0 <= k < |url| ==> UrlChar(url[k])
    requires var rest := url[1..] + [q] + b;
      !StartsWith(rest, RelativeTo(contentUrl, home)) && !StartsWith(rest, RelativeTo(adminUrl, home))
    requires !ExtensionAhead(c, |a| + 7)
    requires !Contains("href=" + [q] + url + [q], "/feed/")
    ensures RewriteUrls(c, home, contentUrl, adminUrl, endpoint) ==
      ReplaceAll(c, "href=" + [q] + url + [q], "href=" + [q] + AddQueryArg(endpoint, url) + [q])
  {
    LinkParts(c, a, q, url, b);
    SingleLinkRewrite(c, |a|, q, url, home, contentUrl, adminUrl, endpoint);
  }

  /** `RewriteUrls` on a content whose only "href=" starts a quoted
      root-relative link at `i`: every occurrence of that link's text is
      replaced by the text with the endpoint added to the URL. */
  lemma SingleLinkRewrite(c: string, i: int, q: char, url: string,
                          home: string, contentUrl: string, adminUrl: string, endpoint: string)
    requires Quote(q)
    requires 0 <= i && i + 7 + |url| <= |c| && c[i + 6 + |url|] == q
    requires c[i..i + 6] == "href=" + [q]
    requires c[i + 6..i + 6 + |url|] == url
    requires c[i + 6 + |url|..i + 7 + |url|] == [q]
    requires StartsWith(home, "ht") && !StartsWith(c, home)
    requires forall n :: 0 <= n < |c| && n != i ==> !OccursAt(c, "href=", n)
    requires |url| >= 2 && url[0] == '/'
    requires forall k :: 0 <= k < |url| ==> UrlChar(url[k])
    requires !StartsWith(c[i + 7..], RelativeTo(contentUrl, home)) && !StartsWith(c[i + 7..], RelativeTo(adminUrl, home))
    requires !ExtensionAhead(c, i + 7)
    requires !Contains("href=" + [q] + url + [q], "/feed/")
    ensures RewriteUrls(c, home, contentUrl, adminUrl, endpoint) ==
      ReplaceAll(c, "href=" + [q] + url + [q], "href=" + [q] + AddQueryArg(endpoint, url) + [q])
  {
    var crel := RelativeTo(contentUrl, home);
    var arel := RelativeTo(adminUrl, home);
    SingleLinkScan(c, i, q, url, home, crel, arel);
    var m := Match(i, i + 6, i + 7, i + 6 + |url|, i + 7 + |url|);
    RewriteOneMatch(c, home, contentUrl, adminUrl, endpoint, m);
    LinkStep(c, q, url, m, endpoint, home, crel, arel);
  }

  /** The step of a match of a quoted link `href="url"`. */
  lemma LinkStep(c: string, q: char, url: string, m: Match, endpoint: string, home: string, crel: string, arel: string)
    requires IsMatch(c, m, home, crel, arel)
    requires StartsWith(home, "ht")
    requires c[m.start..m.leadStart] == "href=" + [q]
    requires c[m.leadStart..m.urlEnd] == url
    requires c[m.urlEnd..m.end] == [q]
    requires !Contains("href=" + [q] + url + [q], "/feed/")
    ensures Step(c, c, m, endpoint) ==
      ReplaceAll(c, "href=" + [q] + url + [q], "href=" + [q] + AddQueryArg(endpoint, url) + [q])
  {
    assert MatchText(c, m) == c[m.start..m.leadStart] + c[m.leadStart..m.urlEnd] + c[m.urlEnd..m.end];
    StepRewritesHref(c, c, m, home, crel, arel, endpoint);
  }

  /** The pieces of a content holding one quoted link. */
  lemma LinkParts(c: string, a: string, q: char, url: string, b: string)
    requires c == a + "href=" + [q] + url + [q] + b
    requires |url| >= 1
    ensures c == a + ("href=" + [q] + url + [q]) + b
    ensures StartsWith("href=" + [q] + url + [q], "href=")
    ensures c[|a|..|a| + 6] == "href=" + [q]
    ensures c[|a| + 6..|a| + 6 + |url|] == url
    ensures c[|a| + 6 + |url|..|a| + 7 + |url|] == [q]
    ensures |a| + 7 + |url| <= |c| && c[|a| + 6 + |url|] == q
    ensures c[|a|..|a| + 7 + |url|] == "href=" + [q] + url + [q]
    ensures c[|a| + 7..] == url[1..] + [q] + b
  {
  }

  lemma LinkAssoc(a: string, q: char, x: string, b: string)
    ensures a + ("href=" + [q] + x + [q]) + b == a + "href=" + [q] + x + [q] + b
  {
  }

  /** A URL on the site made relative to the home URL. */
  lemma RelativeToSitePath(home: string, path: string)
    requires home != [] && !Contains(path, home)
    ensures RelativeTo(home + path, home) == path
  {
    ReplaceAllAtStart(home, path, "");
    ReplaceAllAbsent(path, home, "");
    assert "" + path == path;
  }

  /** With no '.' in the content, the extension look-ahead never fails. */
  lemma NoDotNoExtension(c: string, p: int)
    requires 0 <= p <= |c| && '.' !in c
    ensures !ExtensionAhead(c, p)
  {
    ExtensionAheadIff(c, p);
  }

  /** The only "href=" of `a + "href=" + [q] + url + [q] + b` is at |a| when
      no other part holds an '='. */
  lemma OnlyHrefAt(c: string, a: string, q: char, url: string, b: string)
    requires c == a + "href=" + [q] + url + [q] + b
    requires '=' !in a && '=' !in url && '=' !in b && q != '='
    ensures forall i :: 0 <= i < |c| && i != |a| ==> !OccursAt(c, "href=", i)
  {
    forall i | 0 <= i < |c| && i != |a| ensures !OccursAt(c, "href=", i) {
      if i + 5 <= |c| {
        var e := i + 4;
        if e < |a| {
          assert c[e] == a[e];
        } else if e < |a| + 4 {
          assert c[e] == "href="[e - |a|];
        } else if |a| + 4 < e < |a| + 6 {
          assert c[e] == q;
        } else if |a| + 6 <= e < |a| + 6 + |url| {
          assert c[e] == url[e - |a| - 6];
        } else if e == |a| + 6 + |url| {
          assert c[e] == q;
        } else if e > |a| + 6 + |url| {
          assert c[e] == b[e - |a| - 7 - |url|];
        }
        assert c[i..i + 5][4] == c[e];
      }
    }
  }

  /** A string without quotes, angle brackets or white space is made of URL
      characters. */
  lemma UrlCharsOf(s: string)
    requires '"' !in s && '\'' !in s && '<' !in s && '>' !in s
    requires ' ' !in s && '\t' !in s && '\n' !in s && '\r' !in s && (11 as char) !in s && (12 as char) !in s
    ensures forall k :: 0 <= k < |s| ==> UrlChar(s[k])
  {
    forall k | 0 <= k < |s| ensures UrlChar(s[k]) {
      assert s[k] in s;
    }
  }

  /** A quoted root-relative link in a page with the usual content and
      admin URLs under the home URL: when no other text of the page holds an
      '=' or a '.', the link gets `?endpoint` appended and nothing else moves. */
  lemma RewriteRootRelativeLink(c: string, a: string, q: char, url: string, b: string, home: string, endpoint: string)
    requires c == a + "href=" + [q] + url + [q] + b
    requires Quote(q)
    requires |home| >= 2 && home[0] == 'h' && home[1] == 't'
    requires |a| > 0 && a[0] != 'h'
    requires '=' !in a && '=' !in url && '=' !in b
    requires '.' !in a && '.' !in url && '.' !in b
    requires forall k :: 0 <= k < |url| ==> UrlChar(url[k])
    requires |url| >= 2 && url[0] == '/' && url[1] != '/'
    requires '?' !in url && '#' !in url
    requires !Contains("href=" + [q] + url + [q], "/feed/")
    ensures RewriteUrls(c, home, home + "/wp-content", home + "/wp-admin/", endpoint) ==
      a + "href=" + [q] + (url + "?" + endpoint) + [q] + b
  {
    SitePaths(home);
    LinkPage(c, a, q, url, b, home);
    RewriteSingleLink(c, a, q, url, b, home, home + "/wp-content", home + "/wp-admin/", endpoint);
    AddQueryArgToPlainUrl(endpoint, url);
  }

  /** The usual content and admin URLs, made relative to a home URL. */
  lemma SitePaths(home: string)
    requires |home| >= 2 && home[0] == 'h' && home[1] == 't'
    ensures StartsWith(home, "ht")
    ensures RelativeTo(home + "/wp-content", home) == "/wp-content"
    ensures RelativeTo(home + "/wp-admin/", home) == "/wp-admin/"
  {
    assert home[..2] == [home[0], home[1]];
    SitePath(home, "/wp-content");
    SitePath(home, "/wp-admin/");
  }

  /** A path without an 'h', under a home URL that starts with one. */
  lemma SitePath(home: string, path: string)
    requires |home| >= 1 && home[0] == 'h'
    requires path == "/wp-content" || path == "/wp-admin/"
    ensures RelativeTo(home + path, home) == path
  {
    assert 'h' !in path;
    MissingCharNotContained(path, home, 'h');
    RelativeToSitePath(home, path);
  }

  /** Facts about a page holding one quoted root-relative link that the
      scan relies on. */
  lemma LinkPage(c: string, a: string, q: char, url: string, b: string, home: string)
    requires c == a + "href=" + [q] + url + [q] + b
    requires Quote(q)
    requires |home| >= 1 && home[0] == 'h'
    requires |a| > 0 && a[0] != 'h'
    requires '=' !in a && '=' !in url && '=' !in b
    requires '.' !in a && '.' !in url && '.' !in b
    requires |url| >= 2 && url[1] != '/'
    ensures !StartsWith(c, home)
    ensures forall i :: 0 <= i < |c| && i != |a| ==> !OccursAt(c, "href=", i)
    ensures !StartsWith(url[1..] + [q] + b, "/wp-content") && !StartsWith(url[1..] + [q] + b, "/wp-admin/")
    ensures !ExtensionAhead(c, |a| + 7)
  {
    assert c[0] == a[0];
    OnlyHrefAt(c, a, q, url, b);
    RestNotExcluded(url[1..] + [q] + b, url[1]);
    NoDotInLink(c, a, q, url, b);
    NoDotNoExtension(c, |a| + 7);
  }

  lemma RestNotExcluded(rest: string, first: char)
    requires |rest| > 0 && rest[0] == first && first != '/'
    ensures !StartsWith(rest, "/wp-content") && !StartsWith(rest, "/wp-admin/")
  {
    assert "/wp-content"[0] == '/' && "/wp-admin/"[0] == '/';
  }

  lemma NoDotInLink(c: string, a: string, q: char, url: string, b: string)
    requires c == a + "href=" + [q] + url + [q] + b
    requires '.' !in a && '.' !in url && '.' !in b && q != '.'
    ensures '.' !in c
  {
    assert '.' !in "href=";
  }

  /** A quoted link whose URL has no 'f' is not a feed URL: the only 'f' of
      `href="..."` is the one of "href", which follows an 'e', not a '/'. */
  lemma NoFeedWithoutF(q: char, url: string)
    requires q != 'f' && 'f' !in url
    ensures !Contains("href=" + [q] + url + [q], "/feed/")
  {
    var t := "href=" + [q] + url + [q];
    ContainsIff(t, "/feed/");
    forall i | 0 <= i && i + 6 <= |t| ensures !OccursAt(t, "/feed/", i) {
      assert t[i] != '/' || t[i + 1] != 'f' by {
        if i + 1 < 5 {
          assert t[i + 1] == "href="[i + 1] && t[i] == "href="[i];
        } else if i + 1 == 5 || i + 1 == |t| - 1 {
          assert t[i + 1] == q;
        } else {
          assert t[i + 1] == url[i - 5];
        }
      }
      assert t[i..i + 6][0] == t[i] && t[i..i + 6][1] == t[i + 1];
    }
  }

  /** The documented behaviour of `rewrite_urls` on a root-relative link:
      `<a href="/2024/my-post/">link</a>` becomes
      `<a href="/2024/my-post/?v02">link</a>` (the content and admin URLs are
      the usual ones under the home URL). */
  lemma DocumentedLinkExample(c: string, a: string, url: string, b: string, home: string)
    requires a == "<a " && url == "/2024/my-post/" && b == ">link</a>" && home == "http://example.com"
    requires c == a + "href=" + "\"" + url + "\"" + b
    ensures RewriteUrls(c, home, home + "/wp-content", home + "/wp-admin/", "v02") ==
      a + "href=" + "\"" + (url + "?v02") + "\"" + b
  {
    LinkExamplePieces(a, b, home);
    LinkExampleUrl(url);
    LinkExampleUrlChars(url);
    NoFeedWithoutF('"', url);
    RewriteRootRelativeLink(c, a, '"', url, b, home, "v02");
    EndpointQuery(url);
  }

  /** A root-relative link into the admin area is rewritten like any other:
      the admin look-ahead is tried after the leading "/" has been consumed,
      so it compares "wp-admin/" with "/wp-admin/" and does not exclude it.
      `<a href="/wp-admin/">link</a>` becomes `<a href="/wp-admin/?v02">link</a>`. */
  lemma RootRelativeAdminLinkRewritten(c: string, a: string, url: string, b: string, home: string)
    requires a == "<a " && url == "/wp-admin/" && b == ">link</a>" && home == "http://example.com"
    requires c == a + "href=" + "\"" + url + "\"" + b
    ensures RewriteUrls(c, home, home + "/wp-content", home + "/wp-admin/", "v02") ==
      a + "href=" + "\"" + (url + "?v02") + "\"" + b
  {
    LinkExamplePieces(a, b, home);
    AdminLinkExampleUrl(url);
    AdminLinkExampleUrlChars(url);
    NoFeedWithoutF('"', url);
    RewriteRootRelativeLink(c, a, '"', url, b, home, "v02");
    EndpointQuery(url);
  }

  /** `rewrite_urls` as written. Both patterns quote the home URL (and the
      second one the relative content and admin paths) with `preg_quote`
      without naming the pattern delimiter '~', so a '~' in any of them
      ends the pattern early; PHP then rejects the pattern and the match
      functions return false. With a '~' in the home URL the single-URL test
      fails and so does the scan, and the content comes back unchanged; with
      a '~' only in a relative path the scan fails. */
  function RewriteUrlsAsWritten(content: string, home: string, contentUrl: string, adminUrl: string, endpoint: string): string
  {
    var crel := RelativeTo(contentUrl, home);
    var arel := RelativeTo(adminUrl, home);
    if '~' in home then content
    else if StartsWith(content, home) then AddQueryArg(endpoint, content)
    else if '~' in crel || '~' in arel then content
    else ApplyMatches(content, content, MatchesFrom(content, 0, home, crel, arel), endpoint)
  }

  /** Without a '~' in the quoted strings the code as written computes
      `RewriteUrls`. */
  lemma AsWrittenAgreesWithoutTilde(content: string, home: string, contentUrl: string, adminUrl: string, endpoint: string)
    requires '~' !in home && '~' !in RelativeTo(contentUrl, home) && '~' !in RelativeTo(adminUrl, home)
    ensures RewriteUrlsAsWritten(content, home, contentUrl, adminUrl, endpoint) ==
      RewriteUrls(content, home, contentUrl, adminUrl, endpoint)
  {
  }

  /** With a '~' in the home URL, a single URL on the site is returned as
      it is, where the endpoint should have been added to it. */
  lemma TildeHomeUrlNotRewritten(content: string, home: string, contentUrl: string, adminUrl: string, endpoint: string)
    requires '~' in home && StartsWith(content, home)
    requires ValidKey(endpoint) && !HasParam(Split(QueryOf(content), '&'), endpoint)
    ensures RewriteUrlsAsWritten(content, home, contentUrl, adminUrl, endpoint) == content
    ensures RewriteUrls(content, home, contentUrl, adminUrl, endpoint) != content
  {
    AddQueryArgLonger(endpoint, content);
  }

  /** The site `http://example.com/~site`: the URL
      `http://example.com/~site/about/` passes through the code as written
      unchanged, where the corrected version gives
      `http://example.com/~site/about/?v02`. */
  lemma TildeHomeExample(content: string, home: string, path: string)
    requires home == "http://example.com/~site" && path == "/about/" && content == home + path
    ensures RewriteUrlsAsWritten(content, home, home + "/wp-content", home + "/wp-admin/", "v02") == content
    ensures RewriteUrls(content, home, home + "/wp-content", home + "/wp-admin/", "v02") == content + "?v02"
  {
    TildeExamplePieces(home, path);
    assert content[..|home|] == home;
    AddQueryArgToPlainUrl("v02", content);
  }

  // Literal-string facts used by the example lemmas above: which
  // characters a fixed string of an example holds, and how its pieces
  // concatenate. Each is a separate lemma so that the example that uses it
  // sees the fact as a hypothesis rather than recomputing it from the
  // literal inside a larger proof.

  lemma CommentPagePieces(path: string, fragment: string)
    requires path == "comment-page-1/" && fragment == "#comments"
    ensures '?' !in path && '&' !in path && '#' !in path
    ensures '?' !in fragment && '&' !in fragment && fragment != [] && fragment[0] == '#'
  {
  }

  lemma PlainPage(a: string)
    requires a == "http://wordpress.local/page-with-comments"
    ensures '?' !in a && '&' !in a && '#' !in a
  {
    NoQuestionMark(a);
    NoAmpersand(a);
    NoHash(a);
  }

  lemma NoQuestionMark(a: string)
    requires a == "http://wordpress.local/page-with-comments"
    ensures '?' !in a
  {
  }

  lemma NoAmpersand(a: string)
    requires a == "http://wordpress.local/page-with-comments"
    ensures '&' !in a
  {
  }

  lemma NoHash(a: string)
    requires a == "http://wordpress.local/page-with-comments"
    ensures '#' !in a
  {
  }

  /** Character facts about the page around the link examples. */
  lemma LinkExamplePieces(a: string, b: string, home: string)
    requires a == "<a " && b == ">link</a>" && home == "http://example.com"
    ensures '=' !in a && '=' !in b && '.' !in a && '.' !in b
    ensures |a| > 0 && a[0] != 'h'
    ensures |home| >= 2 && home[0] == 'h' && home[1] == 't'
    ensures Quote('"')
  {
  }

  lemma LinkExampleUrl(url: string)
    requires url == "/2024/my-post/"
    ensures '?' !in url && '#' !in url && '=' !in url && '.' !in url && 'f' !in url
    ensures |url| >= 2 && url[0] == '/' && url[1] != '/'
  {
  }

  lemma LinkExampleUrlChars(url: string)
    requires url == "/2024/my-post/"
    ensures forall k :: 0 <= k < |url| ==> UrlChar(url[k])
  {
  }

  /** Appending "?" and then "v02" appends "?v02". */
  lemma EndpointQuery(url: string)
    ensures url + "?" + "v02" == url + "?v02"
  {
    assert "?" + "v02" == "?v02";
  }

  lemma AdminLinkExampleUrl(url: string)
    requires url == "/wp-admin/"
    ensures '?' !in url && '#' !in url && '=' !in url && '.' !in url && 'f' !in url
    ensures |url| >= 2 && url[0] == '/' && url[1] != '/'
  {
  }

  lemma AdminLinkExampleUrlChars(url: string)
    requires url == "/wp-admin/"
    ensures forall k :: 0 <= k < |url| ==> UrlChar(url[k])
  {
  }

  lemma TildeExamplePieces(home: string, path: string)
    requires home == "http://example.com/~site" && path == "/about/"
    ensures '~' in home && '?' !in home && '#' !in home && '?' !in path && '#' !in path
  {
  }
}
