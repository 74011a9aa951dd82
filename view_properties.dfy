/** What the response of `I18n.get` looks like: where the catalogs are searched, which
    exception wins, how the text is laid out, and how little the iteration order of
    the merged table matters. */
module ViewProperties {
  import opened Types
  import opened Text
  import opened Sorting
  import opened Lists
  import opened Templates
  import opened Paths
  import opened Merge
  import opened MergeProperties
  import opened PluralDiscovery
  import opened JsCatalog
  import opened JsCatalogProperties
  import opened View

  /** The view's own `packages = []` searches the locale directory of django.conf
      first, then the configured ones, last-declared first. */
  lemma DefaultPackageSearched(s: Setup)
    ensures RequestOf(s, Packages).paths == [s.locate(DefaultPackage)] + Reversed(s.localePaths)
  {
    var paths := RequestOf(s, Packages).paths;
    assert |paths| == 1 + |s.localePaths|;
    assert paths[0] == s.locate(DefaultPackage);
    assert paths[1..] == Reversed(s.localePaths);
  }

  /** A view with packages searches their directories, in order, before the configured
      ones. */
  lemma PackagesSearchedFirst(s: Setup, packages: seq<string>)
    requires |packages| > 0
    ensures |RequestOf(s, packages).paths| == |packages| + |s.localePaths|
    ensures forall i :: 0 <= i < |packages| ==> RequestOf(s, packages).paths[i] == s.locate(packages[i])
  {
  }

  /** With the view's own domains a djangojs entry overrides the djsgettext entry
      for the same key, unless the English reset fires at djangojs. */
  lemma DjangojsWins(rq: Request, k: Key)
    requires !ResetAt(rq, Domains, 1)
    requires k in Contribution(rq, "djangojs")
    ensures k in MergeAll(rq, Domains).t
    ensures MergeAll(rq, Domains).t[k] == Contribution(rq, "djangojs")[k]
  {
    LaterDomainWins(rq, Domains, 1, k);
  }

  /** Plural discovery fails only with IndexError. */
  lemma PluralFailureIsIndexError(t: Catalog)
    ensures PluralTemplate(t).Err? ==> PluralTemplate(t).error == IndexError
  {
    if PluralForms(t).Some? {
      var segments := Split(PluralForms(t).value, ';');
      assert PluralRule(PluralForms(t).value) == ClauseRule(segments);
    }
  }

  /** The view fails exactly when plural discovery fails or the table has a key of the
      wrong kind; the IndexError of plural discovery comes first. */
  lemma ServeErrors(quote: Quote, t: Catalog, items: seq<Item>)
    ensures Serve(quote, t, items).Err? <==> PluralTemplate(t).Err? || Other in t
    ensures PluralTemplate(t).Err? ==> Serve(quote, t, items) == Err(IndexError)
    ensures PluralTemplate(t).Ok? && Other in t ==> Serve(quote, t, items) == Err(TypeError)
  {
    PluralFailureIsIndexError(t);
  }

  /** Six pieces joined start with the first and end with the last. */
  lemma Enclosed(h: string, d: string, a: string, b: string, p: string, f: string)
    ensures StartsWith(h + d + a + b + p + f, h) && EndsWith(h + d + a + b + p + f, f)
  {
    assert h + d + a + b + p + f == h + (d + a + b + p) + f;
    Framed(h, d + a + b + p, f);
  }

  /** Whatever the catalogs, the text opens with the head and closes with the footer. */
  lemma AssembleFramed(declarations: string, assignments: string, pluralTemplate: string)
    ensures StartsWith(Assemble(declarations, assignments, pluralTemplate), TemplateHead)
    ensures EndsWith(Assemble(declarations, assignments, pluralTemplate), TemplateFooter)
  {
    Enclosed(TemplateHead, declarations, assignments, TemplateBody, pluralTemplate, TemplateFooter);
  }

  /** A text is served only when both stages succeed, and it is their results
      assembled. */
  lemma CombineOk(pluralTemplate: Result<string>, catalogs: Result<(string, string)>)
    requires Combine(pluralTemplate, catalogs).Ok?
    ensures pluralTemplate.Ok? && catalogs.Ok?
    ensures Combine(pluralTemplate, catalogs).value
         == Assemble(catalogs.value.1, catalogs.value.0, pluralTemplate.value)
  {
  }

  /** The served text: the head, then the array declarations, then the sorted
      assignments, then the body and the plural function, then the footer. */
  lemma ServeLayout(quote: Quote, t: Catalog, items: seq<Item>)
    requires Serve(quote, t, items).Ok?
    ensures Serve(quote, t, items).value
         == Assemble(Concat(Declarations(quote, items)), Concat(Sort(EntryLines(quote, items))), PluralTemplate(t).value)
  {
    CombineOk(PluralTemplate(t), Rendered(quote, t, items));
    RenderedParts(quote, t, items);
  }

  /** The served text opens with the head and closes with the footer. */
  lemma ServeFramed(quote: Quote, t: Catalog, items: seq<Item>)
    requires Serve(quote, t, items).Ok?
    ensures StartsWith(Serve(quote, t, items).value, TemplateHead)
    ensures EndsWith(Serve(quote, t, items).value, TemplateFooter)
  {
    var pt, c := PluralTemplate(t), Rendered(quote, t, items);
    CombineOk(pt, c);
    AssembleFramed(c.value.1, c.value.0, pt.value);
  }

  /** The table has plural forms of at most one message. */
  predicate OnePluralMessage(t: Catalog) {
    forall k1, k2 :: k1 in t && k2 in t && k1.Plural? && k2.Plural? ==> k1.base == k2.base
  }

  /** With at most one plural message `pdict` has at most one key. */
  lemma OnePluralKey(t: Catalog, items: seq<Item>, x: string, y: string)
    requires Enumerates(items, t) && OnePluralMessage(t)
    requires x in PluralMax(items) && y in PluralMax(items)
    ensures x == y
  {
    DeclaredSize(t, items, x);
    DeclaredSize(t, items, y);
    var n :| Plural(x, n) in t;
    var m :| Plural(y, m) in t;
    assert Plural(x, n).base == Plural(y, m).base;
  }

  /** With at most one plural message there is one declaration list, whatever the
      iteration order. */
  lemma SinglePluralBase(t: Catalog, items1: seq<Item>, items2: seq<Item>)
    requires Enumerates(items1, t) && Enumerates(items2, t)
    requires OnePluralMessage(t)
    ensures PluralBases(items1) == PluralBases(items2)
  {
    var b1, b2 := PluralBases(items1), PluralBases(items2);
    var m := PluralMax(items1);
    PluralMaxIndependentOfOrder(t, items1, items2);
    assert forall y :: y in b1 <==> y in m;
    assert forall y :: y in b2 <==> y in m;
    assert |b2| == 0 || b2[0] in b1;
    if |b1| > 0 {
      var x := b1[0];
      forall y | y in m
        ensures y == x
      {
        OnePluralKey(t, items1, x, y);
      }
      PluralBasesDistinct(items1);
      PluralBasesDistinct(items2);
      OnlyElement(b1, x);
      OnlyElement(b2, x);
    }
  }

  /** With at most one plural message the response is the same for every iteration
      order of the table. */
  lemma ServeIndependentOfOrder(quote: Quote, t: Catalog, items1: seq<Item>, items2: seq<Item>)
    requires Enumerates(items1, t) && Enumerates(items2, t)
    requires OnePluralMessage(t)
    ensures Serve(quote, t, items1) == Serve(quote, t, items2)
  {
    SinglePluralBase(t, items1, items2);
    RenderedIndependentOfOrder(quote, t, items1, items2);
  }

  /** The declaration of a message with two forms. */
  lemma TwoFormDeclaration(quote: Quote, base: string)
    ensures Declaration(quote, base, 1) == "    catalog['" + quote(base) + "'] = ['',''];\n"
  {
    var q := quote(base);
    TwoSlots();
    assert "'] = [" + "'',''" + "];\n" == "'] = ['',''];\n";
    assert "    catalog['" + q + "'] = [" + "'',''" + "];\n" == "    catalog['" + q + ("'] = [" + "'',''" + "];\n");
  }

  /** The table of the example: forms 0 and 1 of `apple`. */
  const AppleTable: Catalog := map[Plural("apple", 0) := "pomme", Plural("apple", 1) := "pommes"]

  /** In the example `pdict` holds `apple` with largest index 1. */
  lemma AppleMax(items: seq<Item>)
    requires Enumerates(items, AppleTable)
    ensures "apple" in PluralMax(items) && PluralMax(items)["apple"] == 1
  {
    DeclaredSize(AppleTable, items, "apple");
    assert Plural("apple", 1) in AppleTable;
    assert Plural("apple", PluralMax(items)["apple"]) in AppleTable;
  }

  /** In the example `pdict`'s only key is `apple`. */
  lemma AppleBases(items: seq<Item>)
    requires Enumerates(items, AppleTable)
    ensures PluralBases(items) == ["apple"]
  {
    var bases := PluralBases(items);
    AppleMax(items);
    PluralBasesDistinct(items);
    forall b | b in bases
      ensures b == "apple"
    {
      DeclaredSize(AppleTable, items, b);
      var n :| Plural(b, n) in AppleTable;
    }
    OnlyElement(bases, "apple");
  }

  /** Two forms of one message are declared as an array of exactly two empty strings,
      in every iteration order. */
  lemma AppleExample(quote: Quote, items: seq<Item>)
    requires Enumerates(items, AppleTable)
    ensures Declarations(quote, items) == ["    catalog['" + quote("apple") + "'] = ['',''];\n"]
  {
    AppleMax(items);
    AppleBases(items);
    DeclarationsExactly(quote, items);
    assert Declarations(quote, items) == [Declaration(quote, "apple", 1)];
    TwoFormDeclaration(quote, "apple");
  }
}
