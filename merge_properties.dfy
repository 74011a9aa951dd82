/** What the merge of `I18n.get_catalog` guarantees: which catalog a value comes
    from, when the English reset empties the table, and which passes are skipped. */
module MergeProperties {
  import opened Types
  import opened Text
  import opened Merge

  /** A pass holds exactly the keys of the catalogs it probed, each with the value of
      one of them. */
  lemma {:induction false} GatheredSource(rq: Request, domain: string, lang: string, n: nat, k: Key)
    requires n <= |rq.paths|
    ensures k in Gathered(rq, domain, lang, n) <==> exists j :: 0 <= j < n && k in At(rq, domain, lang, j)
    ensures k in Gathered(rq, domain, lang, n) ==>
      exists j :: 0 <= j < n && k in At(rq, domain, lang, j)
                 && Gathered(rq, domain, lang, n)[k] == At(rq, domain, lang, j)[k]
  {
    if n > 0 {
      GatheredSource(rq, domain, lang, n - 1, k);
    }
  }

  /** Within a pass, the value of a key is the one at the last path that defines it. */
  lemma {:induction false} LastPathWins(rq: Request, domain: string, lang: string, n: nat, j: nat, k: Key)
    requires j < n <= |rq.paths|
    requires k in At(rq, domain, lang, j)
    requires forall j' :: j < j' < n ==> k !in At(rq, domain, lang, j')
    ensures k in Gathered(rq, domain, lang, n)
    ensures Gathered(rq, domain, lang, n)[k] == At(rq, domain, lang, j)[k]
  {
    if j < n - 1 {
      LastPathWins(rq, domain, lang, n - 1, j, k);
    }
  }

  /** The flag `en_catalog_missing` is true exactly while English is selected and no
      domain seen so far has an English catalog anywhere (when English is not selected
      it never drops). */
  lemma {:induction false} EnMissingExactly(rq: Request, ds: seq<string>)
    ensures MergeAll(rq, ds).enMissing
      == !(EnSelected(rq.locale) && exists m :: 0 <= m < |ds| && EnglishFound(rq, ds[m]))
  {
    if |ds| > 0 {
      var pre := ds[..|ds| - 1];
      EnMissingExactly(rq, pre);
      assert forall m :: 0 <= m < |pre| ==> pre[m] == ds[m];
    }
  }

  /** Once an English catalog has been seen the flag never returns to true. */
  lemma EnMissingStaysFalse(rq: Request, ds: seq<string>, more: seq<string>)
    requires !MergeAll(rq, ds).enMissing
    ensures !MergeAll(rq, ds + more).enMissing
  {
    EnMissingExactly(rq, ds);
    EnMissingExactly(rq, ds + more);
    var m :| 0 <= m < |ds| && EnglishFound(rq, ds[m]);
    assert (ds + more)[m] == ds[m];
  }

  /** The reset of djsgettext/views.py:143-144 fires for the `i`-th domain. */
  predicate ResetAt(rq: Request, ds: seq<string>, i: nat)
    requires i < |ds|
  {
    && rq.locale != rq.defaultLocale
    && EnSelected(rq.locale)
    && forall m :: 0 <= m <= i ==> !EnglishFound(rq, ds[m])
  }

  /** The English reset: while English is requested, differs from the default and no
      domain so far has an English catalog, the table is empty after each domain. */
  lemma EnglishReset(rq: Request, ds: seq<string>)
    requires |ds| > 0 && ResetAt(rq, ds, |ds| - 1)
    ensures MergeAll(rq, ds).t == map[]
    ensures MergeAll(rq, ds).enMissing
  {
    EnMissingExactly(rq, ds);
  }

  /** When the reset fires at a domain it has fired at every earlier one, so the table
      that domain starts from is already empty: `t = {}` only discards that domain's
      own default-locale entries. */
  lemma ResetFindsEmpty(rq: Request, ds: seq<string>, i: nat)
    requires i < |ds| && ResetAt(rq, ds, i)
    ensures MergeAll(rq, ds[..i]).t == map[]
  {
    if i > 0 {
      var pre := ds[..i];
      assert forall m :: 0 <= m < |pre| ==> pre[m] == ds[m];
      assert ResetAt(rq, pre, i - 1);
      EnglishReset(rq, pre);
    }
  }

  /** Without the reset a domain lays its contribution over the table. */
  lemma StepAdds(rq: Request, st: MergeState, domain: string)
    requires !(rq.locale != rq.defaultLocale && EnSelected(rq.locale) && Step(rq, st, domain).enMissing)
    ensures Step(rq, st, domain).t == st.t + Contribution(rq, domain)
  {
  }

  /** Later domains win: a key takes its value from the last domain that contributes
      it, once no reset can happen any more. */
  lemma {:induction false} LaterDomainWins(rq: Request, ds: seq<string>, i: nat, k: Key)
    requires i < |ds|
    requires !ResetAt(rq, ds, i)
    requires k in Contribution(rq, ds[i])
    requires forall m :: i < m < |ds| ==> k !in Contribution(rq, ds[m])
    ensures k in MergeAll(rq, ds).t
    ensures MergeAll(rq, ds).t[k] == Contribution(rq, ds[i])[k]
  {
    var last := |ds| - 1;
    var pre := ds[..last];
    EnMissingExactly(rq, ds);
    assert !(rq.locale != rq.defaultLocale && EnSelected(rq.locale) && MergeAll(rq, ds).enMissing) by {
      if rq.locale != rq.defaultLocale && EnSelected(rq.locale) {
        var m :| 0 <= m <= i && EnglishFound(rq, ds[m]);
      }
    }
    StepAdds(rq, MergeAll(rq, pre), ds[last]);
    if i < last {
      assert forall m :: 0 <= m < |pre| ==> pre[m] == ds[m];
      assert !ResetAt(rq, pre, i);
      LaterDomainWins(rq, pre, i, k);
    }
  }

  /** Requested-locale entries beat default-locale ones for the same key. */
  lemma RequestedLocaleWins(rq: Request, ds: seq<string>, k: Key)
    requires |ds| > 0 && rq.locale != rq.defaultLocale
    requires !ResetAt(rq, ds, |ds| - 1)
    requires k in Gathered(rq, ds[|ds| - 1], rq.locale, |rq.paths|)
    ensures k in MergeAll(rq, ds).t
    ensures MergeAll(rq, ds).t[k] == Gathered(rq, ds[|ds| - 1], rq.locale, |rq.paths|)[k]
  {
    LaterDomainWins(rq, ds, |ds| - 1, k);
  }

  /** With 'en' as the default locale every value comes from a catalog of the
      requested locale: no default-locale pass ever runs. */
  lemma {:induction false} EnglishDefaultAddsNothing(rq: Request, ds: seq<string>, k: Key)
    requires rq.defaultLocale == "en"
    requires k in MergeAll(rq, ds).t
    ensures exists m, j :: 0 <= m < |ds| && 0 <= j < |rq.paths| && k in At(rq, ds[m], rq.locale, j)
                           && MergeAll(rq, ds).t[k] == At(rq, ds[m], rq.locale, j)[k]
  {
    var last := |ds| - 1;
    var pre := ds[..last];
    var t := MergeAll(rq, ds).t;
    var g := Gathered(rq, ds[last], rq.locale, |rq.paths|);
    if k in g && rq.locale != rq.defaultLocale {
      GatheredSource(rq, ds[last], rq.locale, |rq.paths|, k);
      var j :| 0 <= j < |rq.paths| && k in At(rq, ds[last], rq.locale, j) && g[k] == At(rq, ds[last], rq.locale, j)[k];
      assert t[k] == At(rq, ds[last], rq.locale, j)[k];
    } else {
      assert k in MergeAll(rq, pre).t && t[k] == MergeAll(rq, pre).t[k];
      EnglishDefaultAddsNothing(rq, pre, k);
      var m, j :| 0 <= m < |pre| && 0 <= j < |rq.paths| && k in At(rq, pre[m], rq.locale, j)
                  && MergeAll(rq, pre).t[k] == At(rq, pre[m], rq.locale, j)[k];
      assert pre[m] == ds[m];
    }
  }

  /** When both locales are 'en' no catalog is read into the table at all. */
  lemma {:induction false} EnglishOnlyIsEmpty(rq: Request, ds: seq<string>)
    requires rq.locale == "en" && rq.defaultLocale == "en"
    ensures MergeAll(rq, ds).t == map[]
  {
    if |ds| > 0 {
      EnglishOnlyIsEmpty(rq, ds[..|ds| - 1]);
    }
  }

  /** The default-locale passes alone, domain after domain. */
  function DefaultAccumulation(rq: Request, ds: seq<string>): Catalog {
    if |ds| == 0 || rq.defaultLocale == "en" then map[]
    else DefaultAccumulation(rq, ds[..|ds| - 1]) + Gathered(rq, ds[|ds| - 1], rq.defaultLocale, |rq.paths|)
  }

  /** When the requested locale is the default one, the requested-locale pass and the
      English reset never run: the table is the default-locale accumulation exactly. */
  lemma {:induction false} SameLocaleIsDefaultAccumulation(rq: Request, ds: seq<string>)
    requires rq.locale == rq.defaultLocale
    ensures MergeAll(rq, ds).t == DefaultAccumulation(rq, ds)
  {
    if |ds| > 0 {
      SameLocaleIsDefaultAccumulation(rq, ds[..|ds| - 1]);
    }
  }
}
