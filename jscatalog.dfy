/** `I18n.make_js_catalog`: the JavaScript assignments for every entry of the merged
    table, sorted, and one array declaration per plural message. */
module JsCatalog {
  import opened Types
  import opened Text
  import opened Sorting
  import opened Lists

  /** `javascript_quote`: escapes a string for a single-quoted JavaScript literal. */
  type Quote = string -> string

  /** One `(k, v)` pair of `t.items()` */
  type Item = (Key, string)

  /** `items` is an iteration order of `t.items()`: every pair of `t` exactly once. */
  predicate Enumerates(items: seq<Item>, t: Catalog) {
    && (forall i :: 0 <= i < |items| ==> items[i].0 in t && t[items[i].0] == items[i].1)
    && (forall i, j :: 0 <= i < j < |items| ==> items[i].0 != items[j].0)
    && (forall k :: k in t ==> exists i :: 0 <= i < |items| && items[i].0 == k)
  }

  /** `"    catalog['%s'] = '%s';\n"` */
  function ScalarLine(quote: Quote, id: string, v: string): string {
    "    catalog['" + quote(id) + "'] = '" + quote(v) + "';\n"
  }

  /** `"    catalog['%s'][%d] = '%s';\n"` */
  function PluralLine(quote: Quote, base: string, n: nat, v: string): string {
    "    catalog['" + quote(base) + "'][" + Decimal(n) + "] = '" + quote(v) + "';\n"
  }

  /** `','.join(["''"] * (max + 1))`: one empty string per plural form. */
  function Slots(max: nat): string {
    JoinWith(Repeat("''", max + 1), ",")
  }

  /** `"    catalog['%s'] = [%s];\n"` */
  function Declaration(quote: Quote, base: string, max: nat): string {
    "    catalog['" + quote(base) + "'] = [" + Slots(max) + "];\n"
  }

  /** What one pair appends to `items`: nothing for the metadata entry. A key of any
      other kind raises TypeError instead, which is handled by the caller. */
  function EntryLine(quote: Quote, kv: Item): (r: seq<string>)
    ensures |r| <= 1
    ensures r == [] <==> kv.0 == Metadata || kv.0 == Other
  {
    match kv.0
    case Scalar(id) => if id == "" then [] else [ScalarLine(quote, id, kv.1)]
    case Plural(base, n) => [PluralLine(quote, base, n, kv.1)]
    case Other => []
  }

  /** `items` before it is sorted */
  function EntryLines(quote: Quote, items: seq<Item>): seq<string> {
    FlatMap((kv: Item) => EntryLine(quote, kv), items)
  }

  function Max(a: nat, b: nat): nat {
    if a >= b then a else b
  }

  /** What key `k` does to `pdict` `m`. */
  function PdictStep(m: map<string, nat>, k: Key): (r: map<string, nat>)
    ensures forall b :: b in r <==> b in m || (k.Plural? && b == k.base)
    ensures forall b :: b in m && !(k.Plural? && b == k.base) ==> r[b] == m[b]
    ensures k.Plural? ==> r[k.base] >= k.index && (k.base in m ==> r[k.base] >= m[k.base])
    ensures k.Plural? ==> r[k.base] == k.index || (k.base in m && r[k.base] == m[k.base])
  {
    match k
    case Plural(base, n) => if base !in m then m[base := n] else m[base := Max(n, m[base])]
    case _ => m
  }

  /** What key `k` does to the insertion order `keys` of `pdict` `m`. */
  function BasesStep(m: map<string, nat>, keys: seq<string>, k: Key): seq<string> {
    match k
    case Plural(base, _) => if base !in m then keys + [base] else keys
    case _ => keys
  }

  /** `pdict`: for each plural message id, the largest form index seen. */
  function PluralMax(items: seq<Item>): map<string, nat> {
    if |items| == 0 then map[]
    else PdictStep(PluralMax(items[..|items| - 1]), items[|items| - 1].0)
  }

  /** The keys of `pdict` in insertion order: each plural message id where it first
      appears. They are exactly the keys of `PluralMax`. */
  function PluralBases(items: seq<Item>): (r: seq<string>)
    ensures forall b :: b in r <==> b in PluralMax(items)
  {
    if |items| == 0 then []
    else BasesStep(PluralMax(items[..|items| - 1]), PluralBases(items[..|items| - 1]), items[|items| - 1].0)
  }

  /** What the loop over `t.items()` has built after the entries `items`: their
      assignment lines, `pdict` and its keys in insertion order. */
  predicate Collected(quote: Quote, items: seq<Item>, lines: seq<string>, pdict: map<string, nat>, pkeys: seq<string>) {
    lines == EntryLines(quote, items) && pdict == PluralMax(items) && pkeys == PluralBases(items)
  }

  /** Every key of the entries is a string or a tuple. */
  predicate Keyed(items: seq<Item>) {
    |items| == 0 || (Keyed(items[..|items| - 1]) && items[|items| - 1].0 != Other)
  }

  lemma {:induction false} KeyedExactly(items: seq<Item>)
    ensures Keyed(items) <==> forall j :: 0 <= j < |items| ==> items[j].0 != Other
  {
    if |items| > 0 {
      var pre := items[..|items| - 1];
      KeyedExactly(pre);
      assert forall j :: 0 <= j < |pre| ==> pre[j] == items[j];
    }
  }

  lemma KeyedStep(items: seq<Item>, i: nat)
    requires i < |items| && Keyed(items[..i]) && items[i].0 != Other
    ensures Keyed(items[..i + 1])
  {
    var seen := items[..i + 1];
    assert seen[..i] == items[..i] && seen[i] == items[i];
  }

  /** One more entry extends what was built by that entry's line and step. */
  lemma CollectedStep(quote: Quote, items: seq<Item>, i: nat, lines: seq<string>, pdict: map<string, nat>, pkeys: seq<string>)
    requires i < |items| && Collected(quote, items[..i], lines, pdict, pkeys)
    ensures Collected(quote, items[..i + 1], lines + EntryLine(quote, items[i]),
                      PdictStep(pdict, items[i].0), BasesStep(pdict, pkeys, items[i].0))
  {
    var seen := items[..i + 1];
    assert seen[..i] == items[..i] && seen[i] == items[i];
  }

  /** What one key of `pdict` appends to `pitems`. */
  function DeclarationOf(quote: Quote, m: map<string, nat>, base: string): seq<string> {
    if base in m then [Declaration(quote, base, m[base])] else []
  }

  /** `pitems` for the keys `bases` of `m` */
  function DeclarationLines(quote: Quote, m: map<string, nat>, bases: seq<string>): seq<string> {
    FlatMap((b: string) => DeclarationOf(quote, m, b), bases)
  }

  function Declarations(quote: Quote, items: seq<Item>): seq<string> {
    DeclarationLines(quote, PluralMax(items), PluralBases(items))
  }

  /** The pair `make_js_catalog` returns for the iteration order `items` of `t`: the
      sorted assignments and the declarations, or the TypeError a key that is
      neither a string nor a tuple raises. */
  function Rendered(quote: Quote, t: Catalog, items: seq<Item>): Result<(string, string)> {
    if Other in t then Err(TypeError)
    else Ok((Concat(Sort(EntryLines(quote, items))), Concat(Declarations(quote, items))))
  }

  /** The two parts of a rendered catalog. */
  lemma RenderedParts(quote: Quote, t: Catalog, items: seq<Item>)
    requires Rendered(quote, t, items).Ok?
    ensures Rendered(quote, t, items).value.0 == Concat(Sort(EntryLines(quote, items)))
    ensures Rendered(quote, t, items).value.1 == Concat(Declarations(quote, items))
  {
  }

  /** The loop over `pdict.items()`, with `bases` the keys of `m` in insertion order. */
  method DeclareArrays(quote: Quote, m: map<string, nat>, bases: seq<string>) returns (pitems: seq<string>)
    requires forall b :: b in bases ==> b in m
    ensures pitems == DeclarationLines(quote, m, bases)
  {
    pitems := [];
    var j := 0;
    while j < |bases|
      invariant 0 <= j <= |bases|
      invariant pitems == DeclarationLines(quote, m, bases[..j])
    {
      var base := bases[j];
      assert bases[..j + 1][..j] == bases[..j];
      pitems := pitems + [Declaration(quote, base, m[base])];
      j := j + 1;
    }
    assert bases[..|bases|] == bases;
  }

  /** One pass of the loop over `t.items()`, for its entry `items[i]`: the entry's
      assignment line and its update of `pdict` extend what the earlier entries
      built, or `false` where its key is neither a string nor a tuple and raises
      TypeError. */
  method CollectEntry(quote: Quote, items: seq<Item>, i: nat, lines: seq<string>, pdict: map<string, nat>, pkeys: seq<string>)
    returns (ok: bool, lines': seq<string>, pdict': map<string, nat>, pkeys': seq<string>)
    requires i < |items| && Collected(quote, items[..i], lines, pdict, pkeys)
    ensures ok <==> items[i].0 != Other
    ensures ok ==> Collected(quote, items[..i + 1], lines', pdict', pkeys')
  {
    CollectedStep(quote, items, i, lines, pdict, pkeys);
    var (k, v) := items[i];
    lines', pdict', pkeys' := lines, pdict, pkeys;
    match k {
      case Scalar(id) =>
        if id != "" {
          lines' := lines + [ScalarLine(quote, id, v)];
        }
      case Plural(base, n) =>
        if base !in pdict {
          pdict' := pdict[base := n];
          pkeys' := pkeys + [base];
        } else {
          pdict' := pdict[base := Max(n, pdict[base])];
        }
        lines' := lines + [PluralLine(quote, base, n, v)];
      case Other =>
        return false, lines, pdict, pkeys;
    }
    ok := true;
  }

  /** The loop over `t.items()`: the assignment lines and `pdict`, or `false` where a
      key that is neither a string nor a tuple raises TypeError. */
  method CollectEntries(quote: Quote, items: seq<Item>)
    returns (ok: bool, lines: seq<string>, pdict: map<string, nat>, pkeys: seq<string>)
    ensures ok <==> forall j :: 0 <= j < |items| ==> items[j].0 != Other
    ensures ok ==> Collected(quote, items, lines, pdict, pkeys)
  {
    lines, pdict, pkeys := [], map[], [];
    var i := 0;
    while i < |items|
      invariant 0 <= i <= |items|
      invariant Collected(quote, items[..i], lines, pdict, pkeys)
      invariant Keyed(items[..i])
    {
      var entryOk;
      entryOk, lines, pdict, pkeys := CollectEntry(quote, items, i, lines, pdict, pkeys);
      if !entryOk {
        return false, lines, pdict, pkeys;
      }
      KeyedStep(items, i);
      i := i + 1;
    }
    assert items[..|items|] == items;
    KeyedExactly(items);
    ok := true;
  }

  /** `I18n.make_js_catalog`, iterating over `t.items()` in the order `items`. */
  method MakeJsCatalog(quote: Quote, t: Catalog, items: seq<Item>) returns (r: Result<(string, string)>)
    requires Enumerates(items, t)
    ensures r == Rendered(quote, t, items)
  {
    var ok, lines, pdict, pkeys := CollectEntries(quote, items);
    if !ok {
      return Err(TypeError);
    }
    assert Other !in t;
    lines := Sort(lines);
    var pitems := DeclareArrays(quote, pdict, pkeys);
    return Ok((Concat(lines), Concat(pitems)));
  }
}
