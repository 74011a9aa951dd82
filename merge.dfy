/** `I18n.get_catalog`: merges the catalogs of every domain found along the search
    path, for the default locale and then for the requested one. */
module Merge {
  import opened Types
  import opened Text

  /** `gettext.translation(domain, path, [lang])._catalog`, or `None` where it raises
      IOError. The loader's own locale fallbacks and .mo parsing live behind it. */
  type Loader = (string, string, string) -> Option<Catalog>

  /** The fixed inputs of one merge: the loader, the search path, the requested
      locale and the configured default locale. */
  datatype Request = Request(load: Loader, paths: seq<string>, locale: string, defaultLocale: string)

  /** The English catalogs are probed only when the requested locale starts with 'en'. */
  predicate EnSelected(locale: string) {
    StartsWith(locale, "en")
  }

  /** The table a probe contributes: nothing when the catalog is missing. */
  function Found(c: Option<Catalog>): Catalog {
    if c.Some? then c.value else map[]
  }

  /** The catalog of `domain` for `lang` at the `j`-th search path */
  function At(rq: Request, domain: string, lang: string, j: int): Catalog
    requires 0 <= j < |rq.paths|
  {
    Found(rq.load(domain, rq.paths[j], lang))
  }

  /** What successive `update` calls with the catalogs of `domain` for `lang` at the
      first `n` search paths accumulate, starting from an empty table. */
  function Gathered(rq: Request, domain: string, lang: string, n: nat): Catalog
    requires n <= |rq.paths|
  {
    if n == 0 then map[] else Gathered(rq, domain, lang, n - 1) + At(rq, domain, lang, n - 1)
  }

  /** Some search path holds an English catalog of `domain`. */
  predicate EnglishFound(rq: Request, domain: string) {
    exists j :: 0 <= j < |rq.paths| && rq.load(domain, rq.paths[j], "en").Some?
  }

  /** The accumulator `t` and the flag `en_catalog_missing`, carried from domain to domain. */
  datatype MergeState = MergeState(t: Catalog, enMissing: bool)

  /** What one domain adds when no reset happens: its default-locale catalogs, then its
      requested-locale catalogs over them. Each pass runs only when its guard holds. */
  function Contribution(rq: Request, domain: string): Catalog {
    var n := |rq.paths|;
    (if rq.defaultLocale != "en" then Gathered(rq, domain, rq.defaultLocale, n) else map[])
    + (if rq.locale != rq.defaultLocale then Gathered(rq, domain, rq.locale, n) else map[])
  }

  /** One turn of the domain loop. */
  function Step(rq: Request, st: MergeState, domain: string): MergeState {
    var missing := st.enMissing && !(EnSelected(rq.locale) && EnglishFound(rq, domain));
    var n := |rq.paths|;
    var t1 := if rq.defaultLocale != "en" then st.t + Gathered(rq, domain, rq.defaultLocale, n) else st.t;
    var t2 :=
      if rq.locale == rq.defaultLocale then t1
      else if EnSelected(rq.locale) && missing then map[]
      else t1 + Gathered(rq, domain, rq.locale, n);
    MergeState(t2, missing)
  }

  /** The state after the domain loop has run over `domains`. */
  function MergeAll(rq: Request, domains: seq<string>): MergeState {
    if |domains| == 0 then MergeState(map[], true)
    else Step(rq, MergeAll(rq, domains[..|domains| - 1]), domains[|domains| - 1])
  }

  /** The probe loop over the search path: the flag drops once an English catalog of
      `domain` turns up while English is selected. */
  method ProbeEnglish(load: Loader, domain: string, paths: seq<string>, enSelected: bool, missing: bool)
    returns (enCatalogMissing: bool)
    ensures enCatalogMissing
      == (missing && !(enSelected && EnglishFound(Request(load, paths, "", ""), domain)))
  {
    enCatalogMissing := missing;
    var i := 0;
    while i < |paths|
      invariant 0 <= i <= |paths|
      invariant enCatalogMissing
        == (missing && !(enSelected && exists j :: 0 <= j < i && load(domain, paths[j], "en").Some?))
    {
      var catalog := load(domain, paths[i], "en");
      if catalog.Some? && enSelected {
        enCatalogMissing := false;
      }
      i := i + 1;
    }
  }

  /** A pass over the search path that `update`s `t` with every catalog of `domain`
      for `lang` it finds. */
  method UpdateAlongPaths(load: Loader, domain: string, paths: seq<string>, lang: string, t0: Catalog)
    returns (t: Catalog)
    ensures t == t0 + Gathered(Request(load, paths, "", ""), domain, lang, |paths|)
  {
    ghost var rq := Request(load, paths, "", "");
    t := t0;
    var i := 0;
    while i < |paths|
      invariant 0 <= i <= |paths|
      invariant t == t0 + Gathered(rq, domain, lang, i)
    {
      var catalog := load(domain, paths[i], lang);
      UnionAssociative(t0, Gathered(rq, domain, lang, i), At(rq, domain, lang, i));
      if catalog.Some? {
        t := t + catalog.value;
      }
      i := i + 1;
    }
  }

  lemma UnionAssociative(a: Catalog, b: Catalog, c: Catalog)
    ensures (a + b) + c == a + (b + c)
  {
  }

  lemma UnionWithEmpty(m: Catalog)
    ensures map[] + m == m && m + map[] == m
  {
  }

  /** Only the loader and the search path matter to what a pass gathers. */
  lemma {:induction false} GatheredOnlyReadsPaths(rq: Request, rq': Request, domain: string, lang: string, n: nat)
    requires rq.load == rq'.load && rq.paths == rq'.paths && n <= |rq.paths|
    ensures Gathered(rq, domain, lang, n) == Gathered(rq', domain, lang, n)
  {
    if n > 0 {
      GatheredOnlyReadsPaths(rq, rq', domain, lang, n - 1);
    }
  }

  /** One turn of the domain loop: the English probe, the default-locale pass, then
      the reset or the requested-locale pass. */
  method MergeDomain(rq: Request, domain: string, enSelected: bool, t0: Catalog, missing0: bool)
    returns (t: Catalog, enCatalogMissing: bool)
    requires enSelected == EnSelected(rq.locale)
    ensures MergeState(t, enCatalogMissing) == Step(rq, MergeState(t0, missing0), domain)
  {
    ghost var bare := Request(rq.load, rq.paths, "", "");
    assert EnglishFound(bare, domain) == EnglishFound(rq, domain);
    GatheredOnlyReadsPaths(rq, bare, domain, rq.defaultLocale, |rq.paths|);
    GatheredOnlyReadsPaths(rq, bare, domain, rq.locale, |rq.paths|);
    enCatalogMissing := ProbeEnglish(rq.load, domain, rq.paths, enSelected, missing0);
    t := t0;
    if rq.defaultLocale != "en" {
      t := UpdateAlongPaths(rq.load, domain, rq.paths, rq.defaultLocale, t);
    }
    if rq.locale != rq.defaultLocale {
      if enSelected && enCatalogMissing {
        t := map[];
      } else {
        var localeT := UpdateAlongPaths(rq.load, domain, rq.paths, rq.locale, map[]);
        UnionWithEmpty(Gathered(rq, domain, rq.locale, |rq.paths|));
        if localeT != map[] {
          t := t + localeT;
        } else {
          UnionWithEmpty(t);
        }
      }
    }
  }

  /** `I18n.get_catalog`, with the locale settings passed in. */
  method GetCatalog(load: Loader, domains: seq<string>, paths: seq<string>, locale: string, defaultLocale: string)
    returns (t: Catalog)
    ensures t == MergeAll(Request(load, paths, locale, defaultLocale), domains).t
  {
    var rq := Request(load, paths, locale, defaultLocale);
    var enSelected := StartsWith(locale, "en");
    var enCatalogMissing := true;
    t := map[];
    var d := 0;
    while d < |domains|
      invariant 0 <= d <= |domains|
      invariant MergeState(t, enCatalogMissing) == MergeAll(rq, domains[..d])
    {
      t, enCatalogMissing := MergeDomain(rq, domains[d], enSelected, t, enCatalogMissing);
      assert domains[..d + 1][..d] == domains[..d];
      d := d + 1;
    }
    assert domains[..|domains|] == domains;
  }
}
