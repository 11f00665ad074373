/**
 * The eligibility test `is_valid_entrypoint`: a request is a candidate for
 * the test when it is not a preview and some enabled entry point of the
 * `entrypoints` option names a page type the current page has.
 */
module Entrypoints {
  import opened PhpValues

  /** The host's page classification for the current request: `is_preview()`,
      `is_home()`, `is_singular()`, `is_archive()`, `is_search()`, `is_404()`.
      The predicates are independent booleans, as WordPress's are. */
  datatype Page = Page(
    preview: bool,
    home: bool,
    singular: bool,
    archive: bool,
    search: bool,
    notFound: bool)

  /** The page predicate a known entry-point key stands for; unknown keys
      (the `default` branch of the switch) stand for none. */
  predicate KeyHolds(key: string, page: Page)
  {
    if key == "home" then page.home
    else if key == "singular" then page.singular
    else if key == "archive" then page.archive
    else if key == "search" then page.search
    else if key == "404" then page.notFound
    else false
  }

  predicate KnownKey(key: string)
  {
    key == "home" || key == "singular" || key == "archive" || key == "search" || key == "404"
  }

  /** One entry of the `foreach`: its value is truthy and its page predicate holds. */
  predicate Selects(entry: (string, Value), page: Page)
  {
    Truthy(entry.1) && KeyHolds(entry.0, page)
  }

  /** The `foreach` over the entry points, returning at the first entry that
      selects the page. */
  function FirstSelecting(es: seq<(string, Value)>, page: Page): bool
    decreases |es|
  {
    if es == [] then false
    else if Selects(es[0], page) then true
    else FirstSelecting(es[1..], page)
  }

  /** `is_valid_entrypoint`. A missing or non-array `entrypoints` option makes
      the `foreach` iterate nothing. */
  function IsValidEntrypoint(page: Page, entrypoints: Value): bool
  {
    if page.preview then false
    else match entrypoints
      case Arr(es) => FirstSelecting(es, page)
      case _ => false
  }

  /** The search finds an entry exactly when one exists. */
  lemma {:induction false} FirstSelectingIff(es: seq<(string, Value)>, page: Page)
    ensures FirstSelecting(es, page) <==> exists i :: 0 <= i < |es| && Selects(es[i], page)
    decreases |es|
  {
    if es != [] {
      FirstSelectingIff(es[1..], page);
      if exists i :: 0 <= i < |es| && Selects(es[i], page) {
        var i :| 0 <= i < |es| && Selects(es[i], page);
        if i > 0 { assert es[1..][i - 1] == es[i]; }
      }
      forall i | 0 <= i < |es[1..]| && Selects(es[1..][i], page)
        ensures Selects(es[i + 1], page) { }
    }
  }

  /** Previews are never entry points; otherwise the page is an entry point
      exactly when some truthy entry's key names a page predicate that holds. */
  lemma ValidEntrypointIff(page: Page, entrypoints: Value)
    ensures page.preview ==> !IsValidEntrypoint(page, entrypoints)
    ensures !entrypoints.Arr? ==> !IsValidEntrypoint(page, entrypoints)
    ensures entrypoints.Arr? ==>
      (IsValidEntrypoint(page, entrypoints) <==>
        !page.preview && exists i :: 0 <= i < |entrypoints.entries| && Selects(entrypoints.entries[i], page))
  {
    if entrypoints.Arr? {
      FirstSelectingIff(entrypoints.entries, page);
    }
  }

  /** An entry with an unknown key never makes a page an entry point: inserting
      one anywhere leaves the answer unchanged. */
  lemma UnknownKeyIgnored(page: Page, before: seq<(string, Value)>, key: string, v: Value, after: seq<(string, Value)>)
    requires !KnownKey(key)
    ensures IsValidEntrypoint(page, Arr(before + [(key, v)] + after)) == IsValidEntrypoint(page, Arr(before + after))
  {
    var withKey := before + [(key, v)] + after;
    var without := before + after;
    FirstSelectingIff(withKey, page);
    FirstSelectingIff(without, page);
    if exists i :: 0 <= i < |withKey| && Selects(withKey[i], page) {
      var i :| 0 <= i < |withKey| && Selects(withKey[i], page);
      if i < |before| {
        assert without[i] == withKey[i];
      } else {
        assert i > |before|;
        assert without[i - 1] == withKey[i];
      }
    }
    if exists i :: 0 <= i < |without| && Selects(without[i], page) {
      var i :| 0 <= i < |without| && Selects(without[i], page);
      if i < |before| {
        assert withKey[i] == without[i];
      } else {
        assert withKey[i + 1] == without[i];
      }
    }
  }

  /** With the default table (every key enabled), any non-preview page that is
      home, singular, archive, search or a 404 is an entry point, and no other. */
  lemma DefaultEntrypointsCoverAllTypes(page: Page)
    ensures IsValidEntrypoint(page, Arr([("home", Bool(true)), ("singular", Bool(true)),
      ("archive", Bool(true)), ("search", Bool(true)), ("404", Bool(true))]))
      <==> !page.preview && (page.home || page.singular || page.archive || page.search || page.notFound)
  {
  }
}
