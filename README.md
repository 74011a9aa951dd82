# djsgettext JavaScript catalog view, modelled in Dafny

`djsgettext` serves the gettext translations of a Django project to the browser as
one JavaScript module. Its view `I18n` (djsgettext/views.py) does four things per
request:

1. **Search path** (`get_paths`): the `locale` directory of each package
   (`django.conf` when the view names none), then `settings.LOCALE_PATHS`
   last-declared first.
2. **Fallback merge** (`get_catalog`): for each domain (`djsgettext`, then
   `djangojs`) it probes for English catalogs. It then `update`s the table `t` with
   the default locale's catalogs along the path, and then with the requested
   locale's. When English is requested, differs from the default locale and no
   English catalog has turned up yet, it resets `t = {}` instead.
3. **Plural discovery**: the last `Plural-Forms:` line of the metadata entry (key
   `''`) gives the rule after `plural=`. The rule goes into the `pluralidx`
   template. Without such a line the simple two-form function is used.
4. **Serialisation** (`make_js_catalog` and the final join): one assignment line
   per entry, sorted, plus one array declaration per plural message, sized by its
   largest form index. These are joined between the fixed head, body and footer.

The model follows the source's imperative shape. The loops of the source are the
loops of the methods `GetPaths`, `UpdateAlongPaths`, `ProbeEnglish`, `GetCatalog`,
`ScanHeader`, `CollectEntries`, `DeclareArrays` and `ItemsOf`. The methods
`MergeDomain`, `CollectEntry`, `DiscoverPluralTemplate`, `MakeJsCatalog` and `Get`
have no loop of their own and call those. Each method but `ItemsOf` is proved equal
to a specification function (`ItemsOf` is proved to return some enumeration of the
table, see below):

- `SearchPath`;
- `MergeAll`, which folds `Step` over the domains, where `Step` uses `Gathered`
  for a pass along the path;
- `LastPluralForms` and `PluralTemplate`;
- `EntryLines`, `PluralMax`, `PluralBases`, `DeclarationLines` and `Rendered`;
- `Response`, built from `Serve`, `Combine` and `Assemble`.

The lemmas state what the view promises about those functions.

Keys are `Scalar(id)` for a string key, `Plural(base, index)` for a `(msgid, n)`
tuple, and `Other` for any other kind of key, which `make_js_catalog` rejects with
TypeError. The metadata entry is `Scalar("")`. Exceptions are values of
`Result`: `IndexError` from plural discovery and `TypeError` from
`make_js_catalog`.

The following outside pieces are parameters:

- the gettext loader (`Loader`, one optional table per domain, path and locale,
  with `None` for IOError);
- the package locator (`locate`);
- `javascript_quote` (`Quote`);
- `settings.LOCALE_PATHS`, the default locale and the active locale (fields of
  `View.Setup`).

Dictionary iteration order is never fixed. Wherever the source iterates `t.items()`,
the model takes any sequence `items` that lists every pair of `t` exactly once
(`Enumerates`), and `Get` promises its result for some such order.

## Model

| member | source | states |
|---|---|---|
| Paths.EffectivePackages | djsgettext/views.py:186-188 | a non-empty package list is kept; an empty one becomes `['django.conf']` |
| Paths.Reversed | djsgettext/views.py:111 | same length; element `i` is element `len-1-i` of the input |
| Paths.SearchPath | djsgettext/views.py:103-112 | length is packages plus locale paths; package directories first, in order; then the locale paths reversed |
| Paths.GetPaths | djsgettext/views.py:103-112 | the appending loop builds exactly `SearchPath` |
| Merge.ProbeEnglish | djsgettext/views.py:118-130 | the flag ends false exactly when it was false, or English is selected and some path has an English catalog of the domain |
| Merge.UpdateAlongPaths | djsgettext/views.py:133-140 | the `update` loop leaves `t0` overlaid, path by path, with every catalog found (`Gathered`) |
| Merge.MergeDomain | djsgettext/views.py:123-157 | one pass of the domain loop: the English probe, the default-locale pass, then the reset or the requested-locale pass, is one `Step` |
| Merge.GetCatalog | djsgettext/views.py:114-158 | the nested domain and path loops, with the reset and the non-empty test on `locale_t`, compute `MergeAll(...).t` |
| MergeProperties.GatheredSource | djsgettext/views.py:133-140 | a key is in a pass exactly when some probed catalog has it, and its value comes from one of them |
| MergeProperties.LastPathWins | djsgettext/views.py:133-140 | a key defined at path `j` and at no later path takes path `j`'s value: the last path probed wins |
| MergeProperties.EnMissingExactly | djsgettext/views.py:118-130 | after any prefix of domains, `en_catalog_missing` is true exactly when English is not selected or no domain so far has an English catalog |
| MergeProperties.EnMissingStaysFalse | djsgettext/views.py:119-130 | once the flag is false, later domains never make it true again |
| MergeProperties.EnglishReset | djsgettext/views.py:142-144 | while the reset condition holds, `t` is empty after the domain and the flag is still set |
| MergeProperties.ResetFindsEmpty | djsgettext/views.py:119-144 | when the reset fires at a domain, the table it enters with is already empty, so only that domain's default-locale entries are discarded |
| MergeProperties.StepAdds | djsgettext/views.py:132-157 | without the reset, a domain lays its default-locale then requested-locale catalogs over `t` |
| MergeProperties.LaterDomainWins | djsgettext/views.py:122-157 | a key takes its value from the last domain that contributes it, once the reset cannot fire |
| MergeProperties.RequestedLocaleWins | djsgettext/views.py:146-157 | a key found in the requested locale's catalogs of the last domain keeps that value over any default-locale value |
| MergeProperties.EnglishDefaultAddsNothing | djsgettext/views.py:132-140 | with default locale `en`, every value of `t` comes from a requested-locale catalog |
| MergeProperties.EnglishOnlyIsEmpty | djsgettext/views.py:132-142 | with both locales `en`, no catalog is read into `t` |
| MergeProperties.SameLocaleIsDefaultAccumulation | djsgettext/views.py:132-142 | when the locale is the default one, `t` is exactly the default-locale accumulation over the domains |
| PluralDiscovery.HeaderValue | djsgettext/views.py:199-200 | the value after the first `:` of a `Plural-Forms:` line, stripped |
| PluralDiscovery.FirstPluralClause | djsgettext/views.py:205 | a clause it returns starts with `plural=` |
| PluralDiscovery.RuleOfClause | djsgettext/views.py:205 | for a clause starting with `plural=`, everything after its first `=` is the text after `plural=` |
| PluralDiscovery.ScanHeader | djsgettext/views.py:197-200 | the line loop that overwrites `plural` yields `LastPluralForms` of the lines |
| PluralDiscovery.DiscoverPluralTemplate | djsgettext/views.py:194-206 | the discovery code computes `PluralTemplate(t)` |
| PluralDiscovery.NoPluralFormsExactly | djsgettext/views.py:197-200 | the loop leaves `plural` unset exactly when no line starts with `Plural-Forms:` |
| PluralDiscovery.LastPluralFormsWins | djsgettext/views.py:197-200 | the loop leaves in `plural` the header value of the last `Plural-Forms:` line |
| PluralDiscovery.SimpleTemplateWithoutHeader | djsgettext/views.py:195-202 | with no `''` entry or no `Plural-Forms:` line, the simple template is used |
| PluralDiscovery.LastHeaderLineWins | djsgettext/views.py:198-200 | of several matching header lines, the last one gives the forms |
| PluralDiscovery.NoPluralClauseExactly | djsgettext/views.py:205 | the comprehension is empty exactly when no stripped segment starts with `plural=` |
| PluralDiscovery.FirstPluralClauseAt | djsgettext/views.py:205 | its first element is the first segment that starts with `plural=` once stripped, stripped |
| PluralDiscovery.PluralRule | djsgettext/views.py:205 | the rule of a `Plural-Forms:` value, taken from its `;`-segments; it fails only with IndexError (ClauseRuleExactly and ClauseRuleAt give its value) |
| PluralDiscovery.ClauseRuleExactly | djsgettext/views.py:205 | the rule fails exactly when no segment is a `plural=` clause, and then with IndexError |
| PluralDiscovery.ClauseRuleAt | djsgettext/views.py:205 | otherwise the rule is what follows `plural=` in the first clause, stripped |
| PluralDiscovery.StandardClause | djsgettext/views.py:205 | of the segments `nplurals=N`, ` plural=E` and the empty tail the second is the clause, with rule `E` |
| PluralDiscovery.StandardRule | djsgettext/views.py:205 | `nplurals=N; plural=E;` gives the rule `E` |
| PluralDiscovery.StandardLineValue | djsgettext/views.py:199-200 | the line `Plural-Forms: F` is a header line and the text after its colon, stripped, is `F` |
| PluralDiscovery.StandardLine | djsgettext/views.py:198-200 | a metadata entry that is the one line `Plural-Forms: F` yields the forms `F` |
| PluralDiscovery.StandardHeaderLine | djsgettext/views.py:199-200 | the line `Plural-Forms: nplurals=N; plural=E;` has the value `nplurals=N; plural=E;` |
| PluralDiscovery.StandardHeader | djsgettext/views.py:197-206 | metadata of any number of lines whose last `Plural-Forms:` line is `Plural-Forms: nplurals=N; plural=E;` gives the `pluralidx` template around `E` |
| PluralDiscovery.EnglishStyleHeader | djsgettext/views.py:197-206 | metadata of any number of lines whose last `Plural-Forms:` line is `Plural-Forms: nplurals=2; plural=(n != 1);` gives the template around exactly `(n != 1)` |
| PluralDiscovery.TypicalEnglishLines | djsgettext/views.py:198 | the entry `Content-Type: text/plain; charset=UTF-8\nPlural-Forms: nplurals=2; plural=(n != 1);\n` splits into those two lines and the empty piece after the final newline |
| PluralDiscovery.TypicalEnglishMetadata | djsgettext/views.py:197-206 | a catalog with that metadata entry gives the template around `(n != 1)` |
| PluralDiscovery.DiscoveryFailsExactly | djsgettext/views.py:203-206 | once a `Plural-Forms:` value is kept, discovery fails exactly when none of its `;`-segments is a `plural=` clause, and then with IndexError |
| PluralDiscovery.MissingClause | djsgettext/views.py:205 | `nplurals=N;` with no `plural=` clause gives IndexError |
| PluralDiscovery.MissingClauseHeader | djsgettext/views.py:197-205 | metadata of any number of lines whose last `Plural-Forms:` line is `Plural-Forms: nplurals=N;` makes discovery raise IndexError (DiscoveryFailsExactly covers every clause-less value) |
| PluralDiscovery.NoClauseIsIndexError | djsgettext/views.py:205 | a catalog whose metadata entry is `Plural-Forms: nplurals=1;` raises IndexError |
| Templates.FormatOne | djsgettext/views.py:206 | `template % arg` for a template with one `%s` conversion (FormatOneAt gives its value) |
| Templates.FormatOneAt | djsgettext/views.py:206 | for a template `head + '%s' + tail` with no `%` in `head`, the argument takes the place of `%s` |
| Templates.PluralIdx | djsgettext/views.py:206 | `plural_idx_template % rule` is the template's text before `%s`, the rule, then the text after it |
| Text.StartsWith | djsgettext/views.py:199 | `s.startswith(p)`: the first `len(p)` characters of `s` are `p`, as also used at lines 118 and 205 |
| Text.JoinWith | djsgettext/views.py:180 | `sep.join(xs)`: the pieces with `sep` between neighbours (SplitJoin splits a join of separator-free pieces back into them) |
| Text.Concat | djsgettext/views.py:182 | `"".join(xs)`, as also used at line 213 |
| Text.Strip | djsgettext/views.py:200 | the result neither starts nor ends with whitespace |
| Text.StripIsTrimmedSlice | djsgettext/views.py:200 | the stripped string is a slice with only whitespace cut from both ends |
| Text.AfterFirst | djsgettext/views.py:200 | the text after the first occurrence of the separator |
| Text.Split | djsgettext/views.py:198 | at least one piece, and no piece holds the separator |
| Text.JoinSplit | djsgettext/views.py:198 | joining the pieces with the separator gives the string back |
| Text.SplitJoin | djsgettext/views.py:180 | splitting a join of separator-free pieces gives the pieces back |
| Text.Repeat | djsgettext/views.py:180 | `[x] * n` has `n` copies of `x` |
| Text.Decimal | djsgettext/views.py:174 | `%d` of a non-negative integer: digits only, no leading zero |
| Text.DecimalRoundTrip | djsgettext/views.py:174 | reading the digits back gives the number |
| Sorting.LexLe | djsgettext/views.py:177 | Python's `<=` on `str`: code-point lexicographic order, a total order by LexLeReflexive, LexLeTotal, LexLeAntisymmetric and LexLeTransitive |
| Sorting.Sort | djsgettext/views.py:177 | `list.sort()` on strings: the result is ordered by code point and is a permutation of the input |
| Sorting.SortPermutationInvariant | djsgettext/views.py:177 | two permutations of one list sort to the same list |
| JsCatalog.ScalarLine | djsgettext/views.py:168 | renders `    catalog['K'] = 'V';` and a newline, with `K` and `V` the quoted key and value |
| JsCatalog.PluralLine | djsgettext/views.py:174 | renders `    catalog['K'][N] = 'V';` and a newline, with `K` the quoted msgid, `N` the index in decimal (`Decimal`) and `V` the quoted value |
| JsCatalog.Slots | djsgettext/views.py:180 | `','.join(["''"] * (v + 1))` (SlotCount: exactly `v + 1` entries `''`) |
| JsCatalog.Declaration | djsgettext/views.py:180 | renders `    catalog['K'] = [S];` and a newline, with `K` the quoted msgid and `S` its `Slots` |
| JsCatalog.EntryLine | djsgettext/views.py:165-176 | what one pair appends to `items`: at most one line, and none exactly for the key `''` and for a key of another kind |
| JsCatalog.PdictStep | djsgettext/views.py:170-173 | one tuple key's update of `pdict`: its msgid joins the keys, other values are unchanged, and the msgid's value is the larger of its index and the old value |
| JsCatalog.PluralBases | djsgettext/views.py:170-173 | `pdict`'s keys in insertion order are exactly the keys of `PluralMax` |
| JsCatalog.CollectEntry | djsgettext/views.py:165-176 | one pass of the loop: TypeError exactly for a key of another kind; otherwise the entry's line and `pdict` update extend what the earlier entries built |
| JsCatalog.CollectEntries | djsgettext/views.py:164-176 | TypeError exactly when some key is of another kind; otherwise the lines, `pdict` and its key order equal their specifications |
| JsCatalog.DeclareArrays | djsgettext/views.py:179-180 | the declaration loop over `pdict` builds `DeclarationLines` |
| JsCatalog.MakeJsCatalog | djsgettext/views.py:160-182 | the method computes `Rendered`: TypeError, or the sorted assignments and the declarations |
| JsCatalogProperties.EntriesAssigned | djsgettext/views.py:164-174 | every string key but `''` and every tuple key of `t` has its assignment line |
| JsCatalogProperties.OnlyEntriesAssigned | djsgettext/views.py:164-174 | every line is the assignment of some entry of `t` other than `''` |
| JsCatalogProperties.OneLinePerEntry | djsgettext/views.py:164-176 | exactly one line per entry, the metadata entry apart |
| JsCatalogProperties.AssignmentCount | djsgettext/views.py:164-176 | the number of lines is the number of entries, less one when `''` is present |
| JsCatalogProperties.SameItems | djsgettext/views.py:164 | two iteration orders of `t` are permutations of each other |
| JsCatalogProperties.AssignmentsIndependentOfOrder | djsgettext/views.py:177 | the sorted assignments are the same for every iteration order |
| JsCatalogProperties.PluralMaxExactly | djsgettext/views.py:170-173 | `pdict` has `b` exactly when a tuple key with base `b` occurs; `pdict[b]` is one of their indices and no index is larger |
| JsCatalogProperties.DeclaredSize | djsgettext/views.py:170-173 | the same, stated of the table `t` |
| JsCatalogProperties.PluralBasesDistinct | djsgettext/views.py:170-173 | each key of `pdict` is listed once |
| JsCatalogProperties.PluralBasesInFirstAppearanceOrder | djsgettext/views.py:170-173 | `pdict`'s keys are listed in order of first appearance: a form of an earlier key occurs before every form of a later one |
| JsCatalogProperties.DeclarationLinesExactly | djsgettext/views.py:179-180 | one declaration per key, in key order, each sized by its `pdict` value |
| JsCatalogProperties.DeclarationsExactly | djsgettext/views.py:179-180 | the declarations of an iteration order: one per `PluralBases` entry, in that order, sized by its `PluralMax` value |
| JsCatalogProperties.SlotCount | djsgettext/views.py:180 | a declared array lists exactly `max + 1` entries `''` |
| JsCatalogProperties.TwoSlots | djsgettext/views.py:180 | with largest index 1 the array is `'',''` |
| JsCatalogProperties.PluralIndexHasSlot | djsgettext/views.py:170-180 | every tuple key `(b, n)` has a declaration for `b` whose array has more than `n` slots |
| JsCatalogProperties.PluralMaxIndependentOfOrder | djsgettext/views.py:170-173 | `pdict` is the same for every iteration order |
| JsCatalogProperties.DeclarationsIndependentOfOrder | djsgettext/views.py:179-180 | the declarations of two iteration orders are the same lines, up to order |
| JsCatalogProperties.RenderedIndependentOfOrder | djsgettext/views.py:160-182 | two iteration orders that first meet the plural messages in one order give the same result |
| View.ItemsOf | djsgettext/views.py:164 | `t.items()` yields some order listing every pair of `t` once |
| View.Get | djsgettext/views.py:185-213 | the view returns `Response` for the merged table and some iteration order of it |
| ViewProperties.DefaultPackageSearched | djsgettext/views.py:186-190 | with the view's own empty `packages` (line 97), django.conf's locale directory is searched first, then the reversed locale paths |
| ViewProperties.PackagesSearchedFirst | djsgettext/views.py:186-190 | with packages, their directories come first, in order |
| ViewProperties.DjangojsWins | djsgettext/views.py:96 | a djangojs entry overrides the djsgettext one for the same key unless the reset fires |
| ViewProperties.PluralFailureIsIndexError | djsgettext/views.py:205 | plural discovery can fail only with IndexError |
| ViewProperties.ServeErrors | djsgettext/views.py:193-208 | the view fails exactly when discovery fails or a key is of another kind; discovery's IndexError comes first |
| View.Assemble | djsgettext/views.py:210-213 | `"".join(src)`: head, `maincatalog` (the declarations), `catalog` (the assignments), body, plural template and footer, in that order (AssembleFramed and ServeLayout state what it gives) |
| ViewProperties.AssembleFramed | djsgettext/views.py:210-213 | the joined text starts with the head and ends with the footer |
| ViewProperties.CombineOk | djsgettext/views.py:208-213 | text is served only when both stages succeed, and it is their results joined |
| ViewProperties.ServeLayout | djsgettext/views.py:208-213 | served text: head, declarations, sorted assignments, body, plural function, footer in that order |
| ViewProperties.ServeFramed | djsgettext/views.py:208-213 | served text starts with the head and ends with the footer |
| ViewProperties.SinglePluralBase | djsgettext/views.py:179 | with at most one plural message, the order of `pdict`'s keys is the same in every iteration order |
| ViewProperties.ServeIndependentOfOrder | djsgettext/views.py:164-213 | with at most one plural message, the served text is the same in every iteration order |
| ViewProperties.TwoFormDeclaration | djsgettext/views.py:180 | a message with largest index 1 is declared as `['','']` |
| ViewProperties.AppleMax | djsgettext/views.py:170-173 | for forms 0 and 1 of `apple`, `pdict['apple']` is 1 in every order |
| ViewProperties.AppleBases | djsgettext/views.py:170-173 | for forms 0 and 1 of `apple`, `pdict` has the one key `apple` |
| ViewProperties.AppleExample | djsgettext/views.py:170-180 | forms 0 and 1 of `apple` give exactly one declaration, `catalog['apple'] = ['',''];`, in every order |

## Left out

- Package import and `os.path` are the parameter `locate`. The ImportError of an
  unknown package is not modelled.
- `gettext.translation` and `.mo` parsing are the parameter `load`. Any IOError it
  raises is `None`. Its own locale fallbacks happen behind it.
- `javascript_quote` is the uninterpreted parameter `quote`. No property relies on
  what it escapes.
- `settings.LANGUAGE_CODE`, `get_language()` and `to_locale` are not modelled. The
  model starts from the converted locales, which are fields of `View.Setup`.
- `View.dispatch`, the cache decorator and `HttpResponse` are not modelled: the
  model returns the response body. The content type is not modelled.
- djsgettext/management/commands/jsgettext_makemessages.py is not part of this
  model. It drives `xgettext` and `msgmerge` and rewrites files.
- The emitted JavaScript is opaque text: the model neither runs `gettext`,
  `interpolate` or `pluralidx` nor evaluates the plural rule. The templates are
  kept verbatim, including their text `var ngettext =(singular, plural, count)`
  and `var pluralidx function(count)`.
- `six.string_types` (byte versus text strings) is not distinguished: every string
  key is `Scalar`.
- ViewProperties.ServeIndependentOfOrder: proved only for tables with at most one
  plural message. `pitems` follows `pdict`'s iteration order and is not sorted, so
  with several plural messages the declaration order is that of first appearance.
  RenderedIndependentOfOrder covers the general case when the plural messages
  meet in one order.
- JsCatalog.PluralBases: `pdict.items()` is modelled in insertion order. The module
  imports `django.utils.importlib`, `javascript_quote` and `six`
  (djsgettext/views.py:7-11), which ties it to old Django releases and to Python 2,
  where dictionaries iterate in hash order. So the order the code most likely meets
  is hash order, which the model does not compute. DeclarationsIndependentOfOrder
  states what holds for any order. `Get` promises its response only for some
  iteration order of `t`. That this contract admits every order `pdict` may
  list the ids in rests on an argument, not on a lemma: reordering `t` so that the
  plural ids first appear in a chosen order gives an iteration order whose
  first-appearance order is that one.
- The index of a tuple key is a natural number (`Plural(base, index: nat)`).
  gettext never makes a negative plural index, and the model does not render one.

## Notes on the code

- Only `items` is sorted (djsgettext/views.py:177). `pitems` keeps the order of
  `pdict.items()` (179-180).
- `en_catalog_missing` is set to true once, before the domain loop (119), and the
  probe can only turn it false (123-130). So the reset condition at 143 can only
  stop holding from one domain to the next. When `t = {}` runs for a domain, the
  table that domain started from is already empty (`ResetFindsEmpty`). What the
  reset discards is that domain's own default-locale entries (132-140).
- The simple plural template is used only when no `Plural-Forms:` line exists
  (195-202). A `Plural-Forms:` value without a `plural=` clause makes `[0]` of the
  empty list at 205 raise IndexError, which the model returns as `Err(IndexError)`.
  This happens before `make_js_catalog` runs (208), so it wins over that method's
  TypeError.
- The requested-locale catalogs are merged only when `locale_t` is non-empty
  (156-157). This is the same as merging them unconditionally, since merging an
  empty table changes nothing.
