/** What `make_js_catalog` guarantees: one assignment per entry, an array declared for
    every plural message that is large enough for every index used, and an output
    that does not depend on the order in which the table is iterated. */
module JsCatalogProperties {
  import opened Types
  import opened Text
  import opened Sorting
  import opened Lists
  import opened JsCatalog

  /** Every translated message of `t` is assigned. */
  lemma EntriesAssigned(quote: Quote, t: Catalog, items: seq<Item>)
    requires Enumerates(items, t)
    ensures forall id :: Scalar(id) in t && id != "" ==>
              ScalarLine(quote, id, t[Scalar(id)]) in EntryLines(quote, items)
    ensures forall b, n :: Plural(b, n) in t ==>
              PluralLine(quote, b, n, t[Plural(b, n)]) in EntryLines(quote, items)
  {
    forall id | Scalar(id) in t && id != ""
      ensures ScalarLine(quote, id, t[Scalar(id)]) in EntryLines(quote, items)
    {
      var i :| 0 <= i < |items| && items[i].0 == Scalar(id);
      FlatMapMembers((kv: Item) => EntryLine(quote, kv), items, ScalarLine(quote, id, t[Scalar(id)]));
    }
    forall b, n | Plural(b, n) in t
      ensures PluralLine(quote, b, n, t[Plural(b, n)]) in EntryLines(quote, items)
    {
      var i :| 0 <= i < |items| && items[i].0 == Plural(b, n);
      FlatMapMembers((kv: Item) => EntryLine(quote, kv), items, PluralLine(quote, b, n, t[Plural(b, n)]));
    }
  }

  /** Nothing else is assigned: each line is the assignment of one entry of `t`, and
      the metadata entry has none. */
  lemma OnlyEntriesAssigned(quote: Quote, t: Catalog, items: seq<Item>, line: string)
    requires Enumerates(items, t)
    requires line in EntryLines(quote, items)
    ensures || (exists id :: Scalar(id) in t && id != "" && line == ScalarLine(quote, id, t[Scalar(id)]))
            || (exists b, n :: Plural(b, n) in t && line == PluralLine(quote, b, n, t[Plural(b, n)]))
  {
    FlatMapMembers((kv: Item) => EntryLine(quote, kv), items, line);
    var i :| 0 <= i < |items| && line in EntryLine(quote, items[i]);
    var (k, v) := items[i];
    assert k in t && t[k] == v;
    match k
    case Scalar(id) =>
      assert line == ScalarLine(quote, id, t[Scalar(id)]);
    case Plural(b, n) =>
      assert line == PluralLine(quote, b, n, t[Plural(b, n)]);
  }

  /** One line per entry of an order without TypeError keys, the metadata entry apart. */
  lemma {:induction false} OneLinePerEntry(quote: Quote, items: seq<Item>)
    requires forall i :: 0 <= i < |items| ==> items[i].0 != Other
    requires forall i, j :: 0 <= i < j < |items| ==> items[i].0 != items[j].0
    ensures |EntryLines(quote, items)|
         == |items| - (if exists i :: 0 <= i < |items| && items[i].0 == Metadata then 1 else 0)
  {
    if |items| > 0 {
      var pre := items[..|items| - 1];
      var last := items[|items| - 1];
      assert forall i :: 0 <= i < |pre| ==> pre[i] == items[i];
      OneLinePerEntry(quote, pre);
      if last.0 == Metadata {
        assert !exists i :: 0 <= i < |pre| && pre[i].0 == Metadata;
      } else {
        assert |EntryLine(quote, last)| == 1;
        assert (exists i :: 0 <= i < |items| && items[i].0 == Metadata)
            == (exists i :: 0 <= i < |pre| && pre[i].0 == Metadata);
      }
    }
  }

  /** The assignment lines of a table without TypeError keys: one per entry but the
      metadata entry. */
  lemma AssignmentCount(quote: Quote, t: Catalog, items: seq<Item>)
    requires Enumerates(items, t) && Other !in t
    ensures |EntryLines(quote, items)| == |items| - (if Metadata in t then 1 else 0)
  {
    OneLinePerEntry(quote, items);
  }

  /** Two iteration orders of one table list the same pairs. */
  lemma SameItems(t: Catalog, items1: seq<Item>, items2: seq<Item>)
    requires Enumerates(items1, t) && Enumerates(items2, t)
    ensures multiset(items1) == multiset(items2)
  {
    forall x | x in items1
      ensures x in items2
    {
      var i :| 0 <= i < |items1| && items1[i] == x;
      var j :| 0 <= j < |items2| && items2[j].0 == x.0;
    }
    forall x | x in items2
      ensures x in items1
    {
      var j :| 0 <= j < |items2| && items2[j] == x;
      var i :| 0 <= i < |items1| && items1[i].0 == x.0;
    }
    DistinctSameElements(items1, items2);
  }

  /** The sorted assignments do not depend on the order in which `t` is iterated. */
  lemma AssignmentsIndependentOfOrder(quote: Quote, t: Catalog, items1: seq<Item>, items2: seq<Item>)
    requires Enumerates(items1, t) && Enumerates(items2, t)
    ensures Sort(EntryLines(quote, items1)) == Sort(EntryLines(quote, items2))
  {
    SameItems(t, items1, items2);
    FlatMapPermutation((kv: Item) => EntryLine(quote, kv), items1, items2);
    SortPermutationInvariant(EntryLines(quote, items1), EntryLines(quote, items2));
  }

  /** `pdict` holds the plural message ids that occur, each with the largest index it
      occurs with. */
  lemma {:induction false} PluralMaxExactly(items: seq<Item>, b: string)
    ensures b in PluralMax(items)
      <==> exists i :: 0 <= i < |items| && items[i].0.Plural? && items[i].0.base == b
    ensures b in PluralMax(items) ==>
      exists i :: 0 <= i < |items| && items[i].0 == Plural(b, PluralMax(items)[b])
    ensures b in PluralMax(items) ==>
      forall i :: 0 <= i < |items| && items[i].0.Plural? && items[i].0.base == b ==>
        items[i].0.index <= PluralMax(items)[b]
  {
    if |items| > 0 {
      var pre := items[..|items| - 1];
      assert forall i :: 0 <= i < |pre| ==> pre[i] == items[i];
      PluralMaxExactly(pre, b);
      var last := items[|items| - 1];
      if last.0.Plural? && last.0.base == b && b in PluralMax(pre) {
        var i :| 0 <= i < |pre| && pre[i].0 == Plural(b, PluralMax(pre)[b]);
        assert items[i].0 == Plural(b, PluralMax(pre)[b]);
      }
    }
  }

  /** The same, said of the table: an array is declared for `b` exactly when `t` has a
      plural form of `b`, and its size comes from the largest index of one. */
  lemma DeclaredSize(t: Catalog, items: seq<Item>, b: string)
    requires Enumerates(items, t)
    ensures b in PluralMax(items) <==> exists n :: Plural(b, n) in t
    ensures b in PluralMax(items) ==>
      && Plural(b, PluralMax(items)[b]) in t
      && forall n :: Plural(b, n) in t ==> n <= PluralMax(items)[b]
  {
    PluralMaxExactly(items, b);
    if exists n :: Plural(b, n) in t {
      var n :| Plural(b, n) in t;
      var i :| 0 <= i < |items| && items[i].0 == Plural(b, n);
    }
    if b in PluralMax(items) {
      forall n | Plural(b, n) in t
        ensures n <= PluralMax(items)[b]
      {
        var i :| 0 <= i < |items| && items[i].0 == Plural(b, n);
      }
    }
  }

  /** `pdict`'s keys are listed once each. */
  lemma {:induction false} PluralBasesDistinct(items: seq<Item>)
    ensures Distinct(PluralBases(items))
  {
    if |items| > 0 {
      PluralBasesDistinct(items[..|items| - 1]);
    }
  }

  /** `pdict`'s keys are listed in order of first appearance: some plural form of an
      earlier key comes before every plural form of a later one. */
  lemma {:induction false} PluralBasesInFirstAppearanceOrder(items: seq<Item>, j1: nat, j2: nat)
    requires j1 < j2 < |PluralBases(items)|
    ensures exists i1 :: 0 <= i1 < |items| && items[i1].0.Plural? && items[i1].0.base == PluralBases(items)[j1]
              && forall i2 :: 0 <= i2 <= i1 && items[i2].0.Plural? ==> items[i2].0.base != PluralBases(items)[j2]
  {
    var n := |items|;
    var pre := items[..n - 1];
    var bp := PluralBases(pre);
    var bases := PluralBases(items);
    assert forall i :: 0 <= i < |pre| ==> pre[i] == items[i];
    assert bases == BasesStep(PluralMax(pre), bp, items[n - 1].0);
    if j2 < |bp| {
      assert bases[j1] == bp[j1] && bases[j2] == bp[j2];
      PluralBasesInFirstAppearanceOrder(pre, j1, j2);
      var i1 :| 0 <= i1 < |pre| && pre[i1].0.Plural? && pre[i1].0.base == bp[j1]
                && forall i2 :: 0 <= i2 <= i1 && pre[i2].0.Plural? ==> pre[i2].0.base != bp[j2];
      assert items[i1].0.Plural? && items[i1].0.base == bases[j1];
    } else {
      var b1, b2 := bp[j1], items[n - 1].0.base;
      assert bases == bp + [b2] && b2 !in PluralMax(pre);
      assert b1 in PluralMax(pre);
      PluralMaxExactly(pre, b1);
      PluralMaxExactly(pre, b2);
      var i1 :| 0 <= i1 < |pre| && pre[i1].0.Plural? && pre[i1].0.base == b1;
      assert items[i1].0.Plural? && items[i1].0.base == bases[j1];
    }
  }

  /** `pitems` holds one declaration per key, in the order of the keys. */
  lemma {:induction false} DeclarationLinesExactly(quote: Quote, m: map<string, nat>, bases: seq<string>)
    requires forall b :: b in bases ==> b in m
    ensures |DeclarationLines(quote, m, bases)| == |bases|
    ensures forall j :: 0 <= j < |bases| ==>
              DeclarationLines(quote, m, bases)[j] == Declaration(quote, bases[j], m[bases[j]])
  {
    if |bases| > 0 {
      var pre := bases[..|bases| - 1];
      DeclarationLinesExactly(quote, m, pre);
      assert forall j :: 0 <= j < |pre| ==> pre[j] == bases[j];
    }
  }

  /** The declarations of a table: one per plural message id, in order of first
      appearance, each sized by that id's largest index. */
  lemma DeclarationsExactly(quote: Quote, items: seq<Item>)
    ensures |Declarations(quote, items)| == |PluralBases(items)|
    ensures forall j :: 0 <= j < |PluralBases(items)| ==>
              Declarations(quote, items)[j]
              == Declaration(quote, PluralBases(items)[j], PluralMax(items)[PluralBases(items)[j]])
  {
    DeclarationLinesExactly(quote, PluralMax(items), PluralBases(items));
  }

  /** The declared array lists `max + 1` empty strings. */
  lemma SlotCount(max: nat)
    ensures Split(Slots(max), ',') == Repeat("''", max + 1)
  {
    SplitJoin(Repeat("''", max + 1), ',');
  }

  /** Two forms give `['','']`. */
  lemma TwoSlots()
    ensures Slots(1) == "'',''"
  {
    assert Repeat("''", 2) == ["''", "''"];
  }

  /** Every plural index used by an assignment lies inside the array declared for its
      message. */
  lemma PluralIndexHasSlot(quote: Quote, t: Catalog, items: seq<Item>, b: string, n: nat)
    requires Enumerates(items, t)
    requires Plural(b, n) in t
    ensures b in PluralMax(items)
    ensures Declaration(quote, b, PluralMax(items)[b]) in Declarations(quote, items)
    ensures n < |Split(Slots(PluralMax(items)[b]), ',')|
  {
    DeclaredSize(t, items, b);
    DeclarationsExactly(quote, items);
    var j :| 0 <= j < |PluralBases(items)| && PluralBases(items)[j] == b;
    assert Declarations(quote, items)[j] == Declaration(quote, b, PluralMax(items)[b]);
    SlotCount(PluralMax(items)[b]);
  }

  /** `pdict` does not depend on the iteration order. */
  lemma PluralMaxIndependentOfOrder(t: Catalog, items1: seq<Item>, items2: seq<Item>)
    requires Enumerates(items1, t) && Enumerates(items2, t)
    ensures PluralMax(items1) == PluralMax(items2)
  {
    forall b
      ensures b in PluralMax(items1) <==> b in PluralMax(items2)
      ensures b in PluralMax(items1) ==> PluralMax(items1)[b] == PluralMax(items2)[b]
    {
      DeclaredSize(t, items1, b);
      DeclaredSize(t, items2, b);
    }
  }

  /** The declarations of two iteration orders are the same lines, possibly in another
      order. */
  lemma DeclarationsIndependentOfOrder(quote: Quote, t: Catalog, items1: seq<Item>, items2: seq<Item>)
    requires Enumerates(items1, t) && Enumerates(items2, t)
    ensures multiset(Declarations(quote, items1)) == multiset(Declarations(quote, items2))
  {
    PluralMaxIndependentOfOrder(t, items1, items2);
    PluralBasesDistinct(items1);
    PluralBasesDistinct(items2);
    DistinctSameElements(PluralBases(items1), PluralBases(items2));
    var m := PluralMax(items1);
    FlatMapPermutation((b: string) => DeclarationOf(quote, m, b), PluralBases(items1), PluralBases(items2));
  }

  /** `make_js_catalog`'s result for two iteration orders that list the plural
      messages in the same order is the same. */
  lemma RenderedIndependentOfOrder(quote: Quote, t: Catalog, items1: seq<Item>, items2: seq<Item>)
    requires Enumerates(items1, t) && Enumerates(items2, t)
    requires PluralBases(items1) == PluralBases(items2)
    ensures Rendered(quote, t, items1) == Rendered(quote, t, items2)
  {
    AssignmentsIndependentOfOrder(quote, t, items1, items2);
    PluralMaxIndependentOfOrder(t, items1, items2);
    assert Declarations(quote, items1) == Declarations(quote, items2);
  }
}
