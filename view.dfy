/** `I18n.get`: finds the catalogs, merges them, discovers the plural rule and
    renders the JavaScript source the view serves. */
module View {
  import opened Types
  import opened Text
  import opened Templates
  import opened Paths
  import opened Merge
  import opened PluralDiscovery
  import opened JsCatalog

  /** `I18n.domains`: djangojs catalogs are read after, and so override, djsgettext ones. */
  const Domains: seq<string> := ["djsgettext", "djangojs"]

  /** `I18n.packages` */
  const Packages: seq<string> := []

  /** What the view reads from outside: the package locator, the gettext loader,
      `javascript_quote`, `settings.LOCALE_PATHS`, and the default and active locales
      already converted by `to_locale`. */
  datatype Setup = Setup(
    locate: string -> string,
    load: Loader,
    quote: Quote,
    localePaths: seq<string>,
    defaultLocale: string,
    locale: string)

  /** The search path and the merge request the view builds from its setup. */
  function RequestOf(s: Setup, packages: seq<string>): Request {
    Request(s.load, SearchPath(s.locate, EffectivePackages(packages), s.localePaths), s.locale, s.defaultLocale)
  }

  /** `t`, the merged table */
  function Table(s: Setup, domains: seq<string>, packages: seq<string>): Catalog {
    MergeAll(RequestOf(s, packages), domains).t
  }

  /** `"".join([template_head, maincatalog, catalog, template_body, plural_template, template_footer])` */
  function Assemble(declarations: string, assignments: string, pluralTemplate: string): string {
    TemplateHead + declarations + assignments + TemplateBody + pluralTemplate + TemplateFooter
  }

  /** The text built from the results of plural discovery and `make_js_catalog`, or
      the exception raised first: plural discovery runs first, so its IndexError wins
      over the TypeError of `make_js_catalog`. */
  function Combine(pluralTemplate: Result<string>, catalogs: Result<(string, string)>): Result<string> {
    match pluralTemplate
    case Err(e) => Err(e)
    case Ok(p) =>
      match catalogs
      case Err(e) => Err(e)
      case Ok(c) => Ok(Assemble(c.1, c.0, p))
  }

  /** What the view serves once the table `t` is merged, for the iteration order
      `items` of `t`: the text, or the exception it raises. */
  function Serve(quote: Quote, t: Catalog, items: seq<Item>): Result<string> {
    Combine(PluralTemplate(t), Rendered(quote, t, items))
  }

  /** The response of the view for its setup, domains and packages. */
  function Response(s: Setup, domains: seq<string>, packages: seq<string>, items: seq<Item>): Result<string> {
    Serve(s.quote, Table(s, domains, packages), items)
  }

  /** `t.items()`: some order that lists every entry of `t` once. */
  method ItemsOf(t: Catalog) returns (items: seq<Item>)
    ensures Enumerates(items, t)
  {
    items := [];
    var rest := t.Keys;
    while rest != {}
      invariant rest <= t.Keys
      invariant forall i :: 0 <= i < |items| ==> items[i].0 in t && t[items[i].0] == items[i].1
      invariant forall i :: 0 <= i < |items| ==> items[i].0 !in rest
      invariant forall i, j :: 0 <= i < j < |items| ==> items[i].0 != items[j].0
      invariant forall k :: k in t ==> k in rest || exists i :: 0 <= i < |items| && items[i].0 == k
      decreases |rest|
    {
      var k :| k in rest;
      ghost var before := items;
      items := items + [(k, t[k])];
      rest := rest - {k};
      assert forall i :: 0 <= i < |before| ==> items[i] == before[i];
      assert items[|items| - 1].0 == k;
    }
  }

  /** `I18n.get` for a view with the given `domains` and `packages`. */
  method Get(s: Setup, domains: seq<string>, packages: seq<string>) returns (r: Result<string>)
    ensures exists items :: Enumerates(items, Table(s, domains, packages)) && r == Response(s, domains, packages, items)
  {
    var pkgs := packages;
    if |pkgs| == 0 {
      pkgs := [DefaultPackage];
    }
    var paths := GetPaths(s.locate, pkgs, s.localePaths);
    assert Request(s.load, paths, s.locale, s.defaultLocale) == RequestOf(s, packages);
    var t := GetCatalog(s.load, domains, paths, s.locale, s.defaultLocale);
    assert t == Table(s, domains, packages);
    var items := ItemsOf(t);
    var pluralTemplate := DiscoverPluralTemplate(t);
    if pluralTemplate.Err? {
      r := Err(pluralTemplate.error);
      assert r == Response(s, domains, packages, items);
      return;
    }
    var catalogs := MakeJsCatalog(s.quote, t, items);
    if catalogs.Err? {
      r := Err(catalogs.error);
      assert r == Response(s, domains, packages, items);
      return;
    }
    var (catalog, maincatalog) := catalogs.value;
    r := Ok(Assemble(maincatalog, catalog, pluralTemplate.value));
    assert r == Response(s, domains, packages, items);
  }
}
