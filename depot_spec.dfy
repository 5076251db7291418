/**
 * The product depot seen as a value: for each known type, the sequence of
 * (product, used-flag) entries its two parallel lists hold, and the order
 * in which types became known (the key order of a Python dict).
 *
 * `load` is specified in two phases, as the source performs it: appending
 * every admitted parse outcome in enumeration order (AppendAll), then
 * stably re-sorting every type's entries by product order (SortTable).
 */
module DepotSpec {
  import opened Products
  import opened StableSort

  /** One position of a type's two parallel lists. */
  datatype Entry = Entry(product: Product, used: bool)

  function EntryRank(e: Entry): int { e.product.rank }

  function Zip(ps: seq<Product>, us: seq<bool>): (es: seq<Entry>)
    requires |ps| == |us|
    ensures |es| == |ps|
    ensures forall i :: 0 <= i < |es| ==> es[i].product == ps[i] && es[i].used == us[i]
  {
    seq(|ps|, i requires 0 <= i < |ps| => Entry(ps[i], us[i]))
  }

  function ProductsOf(es: seq<Entry>): (ps: seq<Product>)
    ensures |ps| == |es|
    ensures forall i :: 0 <= i < |es| ==> ps[i] == es[i].product
  {
    seq(|es|, i requires 0 <= i < |es| => es[i].product)
  }

  function FlagsOf(es: seq<Entry>): (us: seq<bool>)
    ensures |us| == |es|
    ensures forall i :: 0 <= i < |es| ==> us[i] == es[i].used
  {
    seq(|es|, i requires 0 <= i < |es| => es[i].used)
  }

  /** Fresh entries: newly loaded products start unused. */
  function Fresh(ps: seq<Product>): (es: seq<Entry>)
    ensures |es| == |ps|
    ensures forall i :: 0 <= i < |ps| ==> es[i] == Entry(ps[i], false)
  {
    seq(|ps|, i requires 0 <= i < |ps| => Entry(ps[i], false))
  }

  /** The products of `ps` whose type is `t`, in order. */
  function OfType(ps: seq<Product>, t: string): seq<Product> {
    if |ps| == 0 then []
    else OfType(ps[..|ps| - 1], t) + (if ps[|ps| - 1].ptype == t then [ps[|ps| - 1]] else [])
  }

  /** The products of the successfully parsed outcomes, in order. */
  function ParsedOf(os: seq<ParseOutcome>): seq<Product> {
    if |os| == 0 then []
    else ParsedOf(os[..|os| - 1]) + (if os[|os| - 1].Parsed? then [os[|os| - 1].product] else [])
  }

  datatype Registry = Registry(table: map<string, seq<Entry>>, order: seq<string>)

  /** `order` lists every key once, and nothing else. */
  predicate Enumerates(order: seq<string>, keys: set<string>) {
    && (forall t :: t in keys ==> t in order)
    && (forall i :: 0 <= i < |order| ==> order[i] in keys)
    && (forall i, j :: 0 <= i < j < |order| ==> order[i] != order[j])
  }

  /** Walking an enumeration: the next key is new, and the walked prefix grows by it. */
  lemma EnumerationStep(order: seq<string>, keys: set<string>, i: nat)
    requires Enumerates(order, keys) && i < |order|
    ensures order[i] !in order[..i]
    ensures forall x :: x in order[..i + 1] <==> x in order[..i] || x == order[i]
    ensures order[..i + 1][..i] == order[..i]
  {
    assert order[..i + 1] == order[..i] + [order[i]];
    forall j | 0 <= j < i ensures order[..i][j] != order[i] {
      assert order[..i][j] == order[j];
    }
  }

  /** The walked prefix of an enumeration ends as all of it. */
  lemma EnumerationEnd(order: seq<string>, keys: set<string>)
    requires Enumerates(order, keys)
    ensures order[..|order|] == order
    ensures forall x :: x in keys ==> x in order[..|order|]
  {
    assert order[..|order|] == order;
  }

  /** Every product is stored under its own type. */
  predicate Tagged(table: map<string, seq<Entry>>) {
    forall t, i :: t in table && 0 <= i < |table[t]| ==> table[t][i].product.ptype == t
  }

  predicate WellFormed(r: Registry) {
    Enumerates(r.order, r.table.Keys) && Tagged(r.table)
  }

  predicate SortedTable(table: map<string, seq<Entry>>) {
    forall t :: t in table ==> Sorted(table[t], EntryRank)
  }

  /** A type's entries; a type never seen has none. */
  function Stored(r: Registry, t: string): seq<Entry> {
    if t in r.table then r.table[t] else []
  }

  /** The duplicate test of `load`: the type is known and the product is in its list. */
  predicate Holds(r: Registry, p: Product) {
    p.ptype in r.table && Contains(ProductsOf(r.table[p.ptype]), p)
  }

  /** Whether `load` appends the product of this outcome. */
  predicate Admits(r: Registry, o: ParseOutcome, reject: bool) {
    o.Parsed? && !(reject && Holds(r, o.product))
  }

  /** Appends `p`, unused, to its type's list, creating the type if new. */
  function Add(r: Registry, p: Product): Registry {
    Registry(r.table[p.ptype := Stored(r, p.ptype) + [Entry(p, false)]],
             if p.ptype in r.table then r.order else r.order + [p.ptype])
  }

  function Step(r: Registry, o: ParseOutcome, reject: bool): Registry {
    if Admits(r, o, reject) then Add(r, o.product) else r
  }

  /** The append phase of `load` over the outcomes in enumeration order. */
  function AppendAll(r: Registry, os: seq<ParseOutcome>, reject: bool): Registry {
    if |os| == 0 then r
    else Step(AppendAll(r, os[..|os| - 1], reject), os[|os| - 1], reject)
  }

  /** The products the append phase appends, in order. */
  function Added(r: Registry, os: seq<ParseOutcome>, reject: bool): seq<Product> {
    if |os| == 0 then []
    else
      var init, o := os[..|os| - 1], os[|os| - 1];
      Added(r, init, reject) + (if Admits(AppendAll(r, init, reject), o, reject) then [o.product] else [])
  }

  /** The co-sort phase: every type's entries stably sorted by product order. */
  function SortTable(table: map<string, seq<Entry>>): (sorted: map<string, seq<Entry>>)
    ensures sorted.Keys == table.Keys
    ensures SortedTable(sorted)
  {
    map t | t in table :: Sort(table[t], EntryRank)
  }

  /** The whole of `load` over the concatenated outcomes of its directories. */
  function Loaded(r: Registry, os: seq<ParseOutcome>, reject: bool): Registry {
    var a := AppendAll(r, os, reject);
    Registry(SortTable(a.table), a.order)
  }

  /** The number of products stored, over all types. */
  function Total(r: Registry): nat {
    SumLengths(r.table, r.order)
  }

  function SumLengths(table: map<string, seq<Entry>>, order: seq<string>): nat {
    if |order| == 0 then 0
    else
      var t := order[|order| - 1];
      SumLengths(table, order[..|order| - 1]) + (if t in table then |table[t]| else 0)
  }

  // ---------------------------------------------------------------------
  // The append phase

  lemma OfTypeSnoc(ps: seq<Product>, p: Product, t: string)
    ensures OfType(ps + [p], t) == OfType(ps, t) + (if p.ptype == t then [p] else [])
  {
    assert (ps + [p])[..|ps|] == ps;
  }

  lemma {:induction false} OfTypeAppend(a: seq<Product>, b: seq<Product>, t: string)
    ensures OfType(a + b, t) == OfType(a, t) + OfType(b, t)
  {
    if |b| > 0 {
      var b', p := b[..|b| - 1], b[|b| - 1];
      assert a + b == (a + b') + [p];
      OfTypeSnoc(a + b', p, t);
      OfTypeAppend(a, b', t);
      assert b == b' + [p];
      OfTypeSnoc(b', p, t);
    } else {
      assert a + b == a;
    }
  }

  lemma AppendAllSnoc(r: Registry, os: seq<ParseOutcome>, o: ParseOutcome, reject: bool)
    ensures AppendAll(r, os + [o], reject) == Step(AppendAll(r, os, reject), o, reject)
    ensures Added(r, os + [o], reject)
         == Added(r, os, reject) + (if Admits(AppendAll(r, os, reject), o, reject) then [o.product] else [])
  {
    assert (os + [o])[..|os|] == os;
  }

  lemma StepStored(r: Registry, o: ParseOutcome, reject: bool, t: string)
    ensures Stored(Step(r, o, reject), t)
         == Stored(r, t) + (if Admits(r, o, reject) && o.product.ptype == t then [Entry(o.product, false)] else [])
  {
  }

  lemma StepKeys(r: Registry, o: ParseOutcome, reject: bool, t: string)
    ensures t in Step(r, o, reject).table <==> t in r.table || (Admits(r, o, reject) && o.product.ptype == t)
  {
  }

  lemma StepWellFormed(r: Registry, o: ParseOutcome, reject: bool)
    requires WellFormed(r)
    ensures WellFormed(Step(r, o, reject))
    ensures r.order <= Step(r, o, reject).order
  {
    if Admits(r, o, reject) {
      var r', t := Add(r, o.product), o.product.ptype;
      if t !in r.table {
        forall i, j | 0 <= i < j < |r'.order| ensures r'.order[i] != r'.order[j] {
          if j == |r.order| {
            assert r.order[i] in r.table;
          }
        }
      }
    }
  }

  lemma FreshAppend(a: seq<Product>, b: seq<Product>)
    ensures Fresh(a + b) == Fresh(a) + Fresh(b)
  {
  }

  /** The append phase keeps the registry well formed and only extends the type order. */
  lemma {:induction false} AppendAllWellFormed(r: Registry, os: seq<ParseOutcome>, reject: bool)
    requires WellFormed(r)
    ensures WellFormed(AppendAll(r, os, reject))
    ensures r.order <= AppendAll(r, os, reject).order
  {
    if |os| > 0 {
      AppendAllWellFormed(r, os[..|os| - 1], reject);
      StepWellFormed(AppendAll(r, os[..|os| - 1], reject), os[|os| - 1], reject);
    }
  }

  /** A type is known after the append phase iff it was before or a product of it was appended. */
  lemma {:induction false} AppendAllKeys(r: Registry, os: seq<ParseOutcome>, reject: bool, t: string)
    ensures t in AppendAll(r, os, reject).table <==> t in r.table || OfType(Added(r, os, reject), t) != []
  {
    if |os| > 0 {
      var init, o := os[..|os| - 1], os[|os| - 1];
      AppendAllKeys(r, init, reject, t);
      var mid := AppendAll(r, init, reject);
      StepKeys(mid, o, reject, t);
      if Admits(mid, o, reject) {
        assert Added(r, os, reject) == Added(r, init, reject) + [o.product];
        OfTypeSnoc(Added(r, init, reject), o.product, t);
      } else {
        assert Added(r, os, reject) == Added(r, init, reject);
      }
    }
  }

  /**
   * The append phase adds to each type exactly the admitted products of
   * that type, in order and each flagged unused, after what was stored.
   */
  lemma {:induction false} AppendAllStored(r: Registry, os: seq<ParseOutcome>, reject: bool, t: string)
    ensures Stored(AppendAll(r, os, reject), t) == Stored(r, t) + Fresh(OfType(Added(r, os, reject), t))
  {
    if |os| > 0 {
      var init, o := os[..|os| - 1], os[|os| - 1];
      AppendAllStored(r, init, reject, t);
      var mid := AppendAll(r, init, reject);
      StepStored(mid, o, reject, t);
      var added := Added(r, init, reject);
      if Admits(mid, o, reject) {
        OfTypeSnoc(added, o.product, t);
        FreshAppend(OfType(added, t), if o.product.ptype == t then [o.product] else []);
      } else {
        assert Added(r, os, reject) == added;
      }
    }
  }

  /**
   * Only successfully parsed products are ever appended, so the count
   * `load` returns never includes unsupported or malformed files; without
   * duplicate rejection every parsed product is appended.
   */
  lemma {:induction false} AddedAreParsed(r: Registry, os: seq<ParseOutcome>, reject: bool)
    ensures |Added(r, os, reject)| <= |ParsedOf(os)|
    ensures forall p :: p in Added(r, os, reject) ==> p in ParsedOf(os)
    ensures !reject ==> Added(r, os, reject) == ParsedOf(os)
  {
    if |os| > 0 {
      AddedAreParsed(r, os[..|os| - 1], reject);
    }
  }

  /** Appending never makes a stored product disappear. */
  lemma StepKeepsDuplicates(r: Registry, o: ParseOutcome, reject: bool, p: Product)
    requires Holds(r, p)
    ensures Holds(Step(r, o, reject), p)
  {
    if Admits(r, o, reject) {
      var t := o.product.ptype;
      if t == p.ptype {
        var old_ := ProductsOf(r.table[t]);
        var new_ := ProductsOf(Step(r, o, reject).table[t]);
        var j := IndexOf(old_, p).value;
        assert new_[j] == old_[j];
      }
    }
  }

  /** After an append, the appended product counts as a duplicate. */
  lemma StepMakesDuplicate(r: Registry, o: ParseOutcome, reject: bool)
    requires o.Parsed?
    ensures Holds(Step(r, o, reject), o.product)
  {
    var p := o.product;
    if Admits(r, o, reject) {
      var new_ := ProductsOf(Step(r, o, reject).table[p.ptype]);
      assert new_[|new_| - 1] == p;
    }
  }

  /**
   * With duplicate rejection, after the append phase every parsed product
   * is stored under its type.
   */
  lemma {:induction false} RejectLeavesAllStored(r: Registry, os: seq<ParseOutcome>)
    ensures forall i :: 0 <= i < |os| && os[i].Parsed? ==> Holds(AppendAll(r, os, true), os[i].product)
  {
    if |os| > 0 {
      var init, o := os[..|os| - 1], os[|os| - 1];
      RejectLeavesAllStored(r, init);
      var mid := AppendAll(r, init, true);
      forall i | 0 <= i < |os| && os[i].Parsed? ensures Holds(AppendAll(r, os, true), os[i].product) {
        if i < |init| {
          assert init[i] == os[i];
          StepKeepsDuplicates(mid, o, true, os[i].product);
        } else {
          StepMakesDuplicate(mid, o, true);
        }
      }
    }
  }

  /**
   * With duplicate rejection, outcomes whose products are all stored
   * already append nothing and leave the registry as it was.
   */
  lemma {:induction false} RejectSkipsStored(r: Registry, os: seq<ParseOutcome>)
    requires forall i :: 0 <= i < |os| && os[i].Parsed? ==> Holds(r, os[i].product)
    ensures Added(r, os, true) == []
    ensures AppendAll(r, os, true) == r
  {
    if |os| > 0 {
      var init := os[..|os| - 1];
      forall i | 0 <= i < |init| && init[i].Parsed? ensures Holds(r, init[i].product) {
        assert init[i] == os[i];
      }
      RejectSkipsStored(r, init);
    }
  }

  lemma {:induction false} AppendAllConcat(r: Registry, a: seq<ParseOutcome>, b: seq<ParseOutcome>, reject: bool)
    ensures AppendAll(r, a + b, reject) == AppendAll(AppendAll(r, a, reject), b, reject)
    ensures Added(r, a + b, reject) == Added(r, a, reject) + Added(AppendAll(r, a, reject), b, reject)
  {
    if |b| == 0 {
      assert a + b == a;
    } else {
      var b', o := b[..|b| - 1], b[|b| - 1];
      assert a + b == (a + b') + [o];
      AppendAllConcat(r, a, b', reject);
      AppendAllSnoc(r, a + b', o, reject);
      assert b == b' + [o];
      AppendAllSnoc(AppendAll(r, a, reject), b', o, reject);
    }
  }

  // ---------------------------------------------------------------------
  // The co-sort phase

  /** Sorting entries neither adds nor drops a product. */
  lemma SortKeepsContains(es: seq<Entry>, p: Product)
    ensures Contains(ProductsOf(Sort(es, EntryRank)), p) <==> Contains(ProductsOf(es), p)
  {
    var s := Sort(es, EntryRank);
    if Contains(ProductsOf(es), p) {
      var j := IndexOf(ProductsOf(es), p).value;
      assert es[j] in multiset(s);
      var k :| 0 <= k < |s| && s[k] == es[j];
      assert ProductsOf(s)[k].lid == p.lid;
    }
    if Contains(ProductsOf(s), p) {
      var j := IndexOf(ProductsOf(s), p).value;
      assert s[j] in multiset(es);
      var k :| 0 <= k < |es| && es[k] == s[j];
      assert ProductsOf(es)[k].lid == p.lid;
    }
  }

  /** Two registries whose types hold the same entries, perhaps in another order. */
  predicate Permuted(r: Registry, r': Registry) {
    && r.order == r'.order
    && r.table.Keys == r'.table.Keys
    && forall t :: t in r.table ==> multiset(r.table[t]) == multiset(r'.table[t])
  }

  lemma PermutedDuplicates(r: Registry, r': Registry, p: Product)
    requires Permuted(r, r')
    ensures Holds(r, p) <==> Holds(r', p)
  {
    var t := p.ptype;
    if t in r.table {
      var es, es' := r.table[t], r'.table[t];
      if Contains(ProductsOf(es), p) {
        var j := IndexOf(ProductsOf(es), p).value;
        assert es[j] in multiset(es');
        var k :| 0 <= k < |es'| && es'[k] == es[j];
        assert ProductsOf(es')[k].lid == p.lid;
      }
      if Contains(ProductsOf(es'), p) {
        var j := IndexOf(ProductsOf(es'), p).value;
        assert es'[j] in multiset(es);
        var k :| 0 <= k < |es| && es[k] == es'[j];
        assert ProductsOf(es)[k].lid == p.lid;
      }
    }
  }

  /**
   * The append phase only asks whether a product is stored, so it appends
   * the same products to registries that differ in the order of entries.
   */
  lemma {:induction false} PermutedAppend(r: Registry, r': Registry, os: seq<ParseOutcome>, reject: bool)
    requires Permuted(r, r')
    ensures Added(r, os, reject) == Added(r', os, reject)
    ensures Permuted(AppendAll(r, os, reject), AppendAll(r', os, reject))
  {
    if |os| > 0 {
      var init, o := os[..|os| - 1], os[|os| - 1];
      PermutedAppend(r, r', init, reject);
      var m, m' := AppendAll(r, init, reject), AppendAll(r', init, reject);
      if o.Parsed? {
        PermutedDuplicates(m, m', o.product);
      }
    }
  }

  lemma SortedIsPermuted(r: Registry)
    ensures Permuted(r, Registry(SortTable(r.table), r.order))
  {
  }

  // ---------------------------------------------------------------------
  // Properties of load

  /** `load` keeps every type's list sorted, keeps types known, and keeps entries by their types. */
  lemma LoadedWellFormed(r: Registry, os: seq<ParseOutcome>, reject: bool)
    requires WellFormed(r)
    ensures WellFormed(Loaded(r, os, reject))
    ensures SortedTable(Loaded(r, os, reject).table)
    ensures r.order <= Loaded(r, os, reject).order
  {
    var a := AppendAll(r, os, reject);
    AppendAllWellFormed(r, os, reject);
    var s: map<string, seq<Entry>> := SortTable(a.table);
    forall t: string, i: int | t in s && 0 <= i < |s[t]| ensures s[t][i].product.ptype == t {
      assert s[t][i] in multiset(a.table[t]);
    }
  }

  /**
   * After `load`, each type holds its previous entries plus the newly
   * appended products (flagged unused), as a permutation: no
   * (product, flag) pair is lost or split by the co-sort.
   */
  lemma LoadedEntries(r: Registry, os: seq<ParseOutcome>, reject: bool, t: string)
    ensures multiset(Stored(Loaded(r, os, reject), t))
         == multiset(Stored(r, t)) + multiset(Fresh(OfType(Added(r, os, reject), t)))
  {
    AppendAllStored(r, os, reject, t);
  }

  lemma SortTableOfSorted(table: map<string, seq<Entry>>)
    requires SortedTable(table)
    ensures SortTable(table) == table
  {
    forall t | t in table ensures Sort(table[t], EntryRank) == table[t] {
      SortOfSorted(table[t], EntryRank);
    }
  }

  /**
   * Loading the same outcomes twice with duplicate rejection: the second
   * load appends nothing (it returns 0) and leaves the depot unchanged.
   */
  lemma LoadTwice(r: Registry, os: seq<ParseOutcome>)
    ensures Added(Loaded(r, os, true), os, true) == []
    ensures Loaded(Loaded(r, os, true), os, true) == Loaded(r, os, true)
  {
    var a := AppendAll(r, os, true);
    var r1 := Loaded(r, os, true);
    RejectLeavesAllStored(r, os);
    SortedIsPermuted(a);
    forall i | 0 <= i < |os| && os[i].Parsed? ensures Holds(r1, os[i].product) {
      PermutedDuplicates(a, r1, os[i].product);
    }
    RejectSkipsStored(r1, os);
    SortTableOfSorted(r1.table);
  }

  lemma LoadInTwoCallsAt(r: Registry, a: seq<ParseOutcome>, b: seq<ParseOutcome>, reject: bool, t: string)
    requires Added(Loaded(r, a, reject), b, reject) == Added(AppendAll(r, a, reject), b, reject)
    ensures Sort(Stored(AppendAll(Loaded(r, a, reject), b, reject), t), EntryRank)
         == Sort(Stored(AppendAll(AppendAll(r, a, reject), b, reject), t), EntryRank)
  {
    var mid, r1 := AppendAll(r, a, reject), Loaded(r, a, reject);
    AppendAllStored(r1, b, reject, t);
    AppendAllStored(mid, b, reject, t);
    assert Stored(r1, t) == Sort(Stored(mid, t), EntryRank);
    SortMerge(Stored(mid, t), Fresh(OfType(Added(mid, b, reject), t)), EntryRank);
  }

  /**
   * Loading `a` and then `b` leaves the depot exactly as loading `a` and
   * `b` in one call does, and the two returned counts add up to the one.
   */
  lemma LoadInTwoCalls(r: Registry, a: seq<ParseOutcome>, b: seq<ParseOutcome>, reject: bool)
    ensures Loaded(Loaded(r, a, reject), b, reject) == Loaded(r, a + b, reject)
    ensures |Added(r, a, reject)| + |Added(Loaded(r, a, reject), b, reject)| == |Added(r, a + b, reject)|
  {
    var mid := AppendAll(r, a, reject);
    var r1 := Loaded(r, a, reject);
    SortedIsPermuted(mid);
    PermutedAppend(mid, r1, b, reject);
    AppendAllConcat(r, a, b, reject);
    var x, y := AppendAll(r1, b, reject), AppendAll(mid, b, reject);
    forall t | t in x.table ensures Sort(x.table[t], EntryRank) == Sort(y.table[t], EntryRank) {
      LoadInTwoCallsAt(r, a, b, reject, t);
    }
    assert SortTable(x.table) == SortTable(y.table);
  }

  lemma {:induction false} SumLengthsUpdate(table: map<string, seq<Entry>>, order: seq<string>, t: string, s: seq<Entry>)
    requires forall i, j :: 0 <= i < j < |order| ==> order[i] != order[j]
    ensures t !in order ==> SumLengths(table[t := s], order) == SumLengths(table, order)
    ensures t in order && t in table ==> SumLengths(table[t := s], order) + |table[t]| == SumLengths(table, order) + |s|
  {
    if |order| > 0 {
      var init := order[..|order| - 1];
      SumLengthsUpdate(table, init, t, s);
      if t == order[|order| - 1] {
        assert t !in init;
      }
    }
  }

  lemma {:induction false} SumLengthsSorted(table: map<string, seq<Entry>>, order: seq<string>)
    ensures SumLengths(SortTable(table), order) == SumLengths(table, order)
  {
    if |order| > 0 {
      SumLengthsSorted(table, order[..|order| - 1]);
    }
  }

  lemma {:induction false} AppendAllGrowth(r: Registry, os: seq<ParseOutcome>, reject: bool)
    requires WellFormed(r)
    ensures Total(AppendAll(r, os, reject)) == Total(r) + |Added(r, os, reject)|
  {
    if |os| > 0 {
      var init, o := os[..|os| - 1], os[|os| - 1];
      AppendAllGrowth(r, init, reject);
      var m := AppendAll(r, init, reject);
      AppendAllWellFormed(r, init, reject);
      if Admits(m, o, reject) {
        var t := o.product.ptype;
        var s := Stored(m, t) + [Entry(o.product, false)];
        SumLengthsUpdate(m.table, m.order, t, s);
        if t !in m.table {
          assert t !in m.order;
          assert SumLengths(m.table[t := s], m.order + [t]) == SumLengths(m.table[t := s], m.order) + 1 by {
            assert (m.order + [t])[..|m.order|] == m.order;
          }
        }
      }
    }
  }

  /**
   * Conservation: after `load` the depot holds, over all types, exactly
   * as many products as before plus the count `load` returns.
   */
  lemma LoadConservation(r: Registry, os: seq<ParseOutcome>, reject: bool)
    requires WellFormed(r)
    ensures Total(Loaded(r, os, reject)) == Total(r) + |Added(r, os, reject)|
  {
    AppendAllGrowth(r, os, reject);
    SumLengthsSorted(AppendAll(r, os, reject).table, AppendAll(r, os, reject).order);
  }

  // ---------------------------------------------------------------------
  // The two parallel dictionaries and the registry they represent

  /** `_products` and `_used` have the same keys and equally long lists. */
  predicate ParallelMaps(ps: map<string, seq<Product>>, us: map<string, seq<bool>>) {
    ps.Keys == us.Keys && forall t :: t in ps ==> |ps[t]| == |us[t]|
  }

  function ViewOf(ps: map<string, seq<Product>>, us: map<string, seq<bool>>, order: seq<string>): (r: Registry)
    requires ParallelMaps(ps, us)
    ensures r.table.Keys == ps.Keys && r.order == order
    ensures forall t :: t in ps ==> r.table[t] == Zip(ps[t], us[t])
  {
    Registry(map t | t in ps :: Zip(ps[t], us[t]), order)
  }

  /** The invariant of the depot: well formed, and every type's list sorted. */
  predicate Ordered(r: Registry) {
    WellFormed(r) && SortedTable(r.table)
  }

  lemma ZipUnzip(es: seq<Entry>)
    ensures Zip(ProductsOf(es), FlagsOf(es)) == es
  {
  }

  lemma UnzipZip(ps: seq<Product>, us: seq<bool>)
    requires |ps| == |us|
    ensures ProductsOf(Zip(ps, us)) == ps && FlagsOf(Zip(ps, us)) == us
  {
  }

  /** Replacing one type's two lists replaces that type's entries. */
  lemma ViewOfUpdate(ps: map<string, seq<Product>>, us: map<string, seq<bool>>, order: seq<string>,
                     t: string, ps': seq<Product>, us': seq<bool>, order': seq<string>)
    requires ParallelMaps(ps, us) && |ps'| == |us'|
    ensures ParallelMaps(ps[t := ps'], us[t := us'])
    ensures ViewOf(ps[t := ps'], us[t := us'], order') == Registry(ViewOf(ps, us, order).table[t := Zip(ps', us')], order')
  {
  }

  /** The depot's invariant stated on the product lists alone. */
  predicate SortedLists(ps: map<string, seq<Product>>, order: seq<string>) {
    && Enumerates(order, ps.Keys)
    && (forall t, i :: t in ps && 0 <= i < |ps[t]| ==> ps[t][i].ptype == t)
    && (forall t :: t in ps ==> Sorted(ps[t], Rank))
  }

  /** The flags play no part in the depot's invariant. */
  lemma OrderedView(ps: map<string, seq<Product>>, us: map<string, seq<bool>>, order: seq<string>)
    requires ParallelMaps(ps, us)
    ensures Ordered(ViewOf(ps, us, order)) <==> SortedLists(ps, order)
  {
    var r := ViewOf(ps, us, order);
    forall t | t in ps ensures Sorted(r.table[t], EntryRank) <==> Sorted(ps[t], Rank) {
      assert forall i :: 0 <= i < |ps[t]| ==> EntryRank(r.table[t][i]) == Rank(ps[t][i]);
    }
  }

  // ---------------------------------------------------------------------
  // release

  /**
   * `release` of a stored product: its first occurrence is removed from
   * its type's entries (the product and its flag together); the type
   * stays known.
   */
  function Remove(r: Registry, p: Product): Registry
    requires Holds(r, p)
  {
    var es := r.table[p.ptype];
    Registry(r.table[p.ptype := RemoveAt(es, IndexOf(ProductsOf(es), p).value)], r.order)
  }

  lemma RemoveAtSorted<T>(s: seq<T>, i: nat, key: T -> int)
    requires i < |s| && Sorted(s, key)
    ensures Sorted(RemoveAt(s, i), key)
  {
    var r := RemoveAt(s, i);
    forall a, b | 0 <= a < b < |r| ensures key(r[a]) <= key(r[b]) {
      var a' := if a < i then a else a + 1;
      var b' := if b < i then b else b + 1;
      assert r[a] == s[a'] && r[b] == s[b'];
    }
  }

  lemma RemoveTagged(r: Registry, p: Product)
    requires Tagged(r.table) && Holds(r, p)
    ensures Tagged(Remove(r, p).table)
  {
    var es := r.table[p.ptype];
    var i := IndexOf(ProductsOf(es), p).value;
    var r' := Remove(r, p);
    forall t, j | t in r'.table && 0 <= j < |r'.table[t]| ensures r'.table[t][j].product.ptype == t {
      if t == p.ptype {
        assert r'.table[t][j] == es[if j < i then j else j + 1];
      }
    }
  }

  /** `release` keeps the depot's invariant and its types. */
  lemma RemoveOrdered(r: Registry, p: Product)
    requires Ordered(r) && Holds(r, p)
    ensures Ordered(Remove(r, p))
    ensures Remove(r, p).table.Keys == r.table.Keys && Remove(r, p).order == r.order
  {
    var es := r.table[p.ptype];
    RemoveAtSorted(es, IndexOf(ProductsOf(es), p).value, EntryRank);
    RemoveTagged(r, p);
  }

  /**
   * `release` leaves one occurrence of the product fewer in its type's
   * list; when the list held the product once, the product is gone, so a
   * second `release` of it finds nothing.
   */
  lemma RemoveOccurrence(r: Registry, p: Product)
    requires Holds(r, p)
    ensures Occurrences(ProductsOf(Remove(r, p).table[p.ptype]), p) == Occurrences(ProductsOf(r.table[p.ptype]), p) - 1
    ensures DistinctLids(ProductsOf(r.table[p.ptype])) ==> !Holds(Remove(r, p), p)
  {
    var es := r.table[p.ptype];
    var i := IndexOf(ProductsOf(es), p).value;
    assert ProductsOf(RemoveAt(es, i)) == RemoveAt(ProductsOf(es), i);
    RemoveFirstOccurrence(ProductsOf(es), p);
  }

  /** Once every type's two lists hold its sorted entries, the view is the co-sorted table. */
  lemma CoSortedView(a: Registry, ps: map<string, seq<Product>>, us: map<string, seq<bool>>)
    requires ps.Keys == a.table.Keys && us.Keys == a.table.Keys
    requires forall t :: t in ps ==> ps[t] == ProductsOf(SortTable(a.table)[t])
    requires forall t :: t in ps ==> us[t] == FlagsOf(SortTable(a.table)[t])
    ensures ParallelMaps(ps, us)
    ensures ViewOf(ps, us, a.order) == Registry(SortTable(a.table), a.order)
  {
    forall t | t in ps ensures |ps[t]| == |us[t]| && Zip(ps[t], us[t]) == SortTable(a.table)[t] {
      ZipUnzip(SortTable(a.table)[t]);
    }
  }

  /**
   * `release` on the two dictionaries: KeyError for a type never loaded;
   * otherwise whether the product is stored, and when it is, its first
   * occurrence popped from its type's products and, at the same position,
   * from its flags.
   */
  function Released(ps: map<string, seq<Product>>, us: map<string, seq<bool>>, p: Product)
    : (r: (Result<bool>, map<string, seq<Product>>, map<string, seq<bool>>))
    requires ParallelMaps(ps, us)
    ensures p.ptype !in ps ==> r == (Err(KeyError(p.ptype)), ps, us)
    ensures p.ptype in ps ==> r.0 == Ok(Contains(ps[p.ptype], p))
    ensures r.0 != Ok(true) ==> r.1 == ps && r.2 == us
    ensures r.1.Keys == ps.Keys && ParallelMaps(r.1, r.2)
    ensures forall t :: t in ps && t != p.ptype ==> r.1[t] == ps[t] && r.2[t] == us[t]
  {
    var t := p.ptype;
    if t !in ps then (Err(KeyError(t)), ps, us)
    else match IndexOf(ps[t], p)
      case None => (Ok(false), ps, us)
      case Some(i) => (Ok(true), ps[t := RemoveAt(ps[t], i)], us[t := RemoveAt(us[t], i)])
  }

  /** Popping position `i` from both lists of a type removes that entry from the view. */
  lemma RemoveView(ps: map<string, seq<Product>>, us: map<string, seq<bool>>, order: seq<string>, p: Product)
    requires ParallelMaps(ps, us) && p.ptype in ps && IndexOf(ps[p.ptype], p).Some?
    ensures Holds(ViewOf(ps, us, order), p)
    ensures var t, i := p.ptype, IndexOf(ps[p.ptype], p).value;
      && ParallelMaps(ps[t := RemoveAt(ps[t], i)], us[t := RemoveAt(us[t], i)])
      && ViewOf(ps[t := RemoveAt(ps[t], i)], us[t := RemoveAt(us[t], i)], order) == Remove(ViewOf(ps, us, order), p)
  {
    var t, i := p.ptype, IndexOf(ps[p.ptype], p).value;
    var r := ViewOf(ps, us, order);
    UnzipZip(ps[t], us[t]);
    ViewOfUpdate(ps, us, order, t, RemoveAt(ps[t], i), RemoveAt(us[t], i), order);
    assert Zip(RemoveAt(ps[t], i), RemoveAt(us[t], i)) == RemoveAt(r.table[t], i);
  }

  /** Popping one position from both lists of a type keeps them parallel and the invariant. */
  lemma PopKeepsSortedLists(ps: map<string, seq<Product>>, us: map<string, seq<bool>>, order: seq<string>, t: string, i: nat)
    requires ParallelMaps(ps, us) && SortedLists(ps, order) && t in ps && i < |ps[t]|
    ensures ps[t := RemoveAt(ps[t], i)].Keys == ps.Keys
    ensures ParallelMaps(ps[t := RemoveAt(ps[t], i)], us[t := RemoveAt(us[t], i)])
    ensures SortedLists(ps[t := RemoveAt(ps[t], i)], order)
  {
    RemoveAtSorted(ps[t], i, Rank);
    var ps': map<string, seq<Product>> := ps[t := RemoveAt(ps[t], i)];
    forall t': string, j: int | t' in ps' && 0 <= j < |ps'[t']| ensures ps'[t'][j].ptype == t' {
      if t' == t {
        assert ps'[t'][j] == ps[t][if j < i then j else j + 1];
      }
    }
  }

  /** A release keeps the depot's invariant. */
  lemma ReleasedSortedLists(ps: map<string, seq<Product>>, us: map<string, seq<bool>>, order: seq<string>, p: Product)
    requires ParallelMaps(ps, us) && SortedLists(ps, order)
    ensures SortedLists(Released(ps, us, p).1, order)
  {
    if p.ptype in ps && Contains(ps[p.ptype], p) {
      PopKeepsSortedLists(ps, us, order, p.ptype, IndexOf(ps[p.ptype], p).value);
    }
  }

  /** In registry terms, a successful release is Remove on the view; any other leaves the view as it was. */
  lemma ReleasedIsRemove(ps: map<string, seq<Product>>, us: map<string, seq<bool>>, order: seq<string>, p: Product)
    requires ParallelMaps(ps, us)
    ensures var (r, ps', us') := Released(ps, us, p);
      && (r == Ok(true) <==> Holds(ViewOf(ps, us, order), p))
      && (r == Ok(true) ==> ViewOf(ps', us', order) == Remove(ViewOf(ps, us, order), p))
      && (r != Ok(true) ==> ViewOf(ps', us', order) == ViewOf(ps, us, order))
  {
    if p.ptype in ps {
      UnzipZip(ps[p.ptype], us[p.ptype]);
      if Contains(ps[p.ptype], p) {
        RemoveView(ps, us, order, p);
      }
    }
  }

  /**
   * A successful release leaves one occurrence of the product fewer; in a
   * list without repetitions it is then gone, so a second release of the
   * same product answers False and changes nothing.
   */
  lemma ReleaseTwice(ps: map<string, seq<Product>>, us: map<string, seq<bool>>, p: Product)
    requires ParallelMaps(ps, us) && Released(ps, us, p).0 == Ok(true)
    ensures var (_, ps', us') := Released(ps, us, p);
      && Occurrences(ps'[p.ptype], p) == Occurrences(ps[p.ptype], p) - 1
      && (DistinctLids(ps[p.ptype]) ==> Released(ps', us', p) == (Ok(false), ps', us'))
  {
    RemoveFirstOccurrence(ps[p.ptype], p);
  }

  /**
   * In a depot whose view repeats no product, which every depot loaded
   * with duplicate rejection is (LoadedDistinct, RemoveDistinct), a second
   * release of the same product answers False and changes nothing.
   */
  lemma ReleaseTwiceDistinct(ps: map<string, seq<Product>>, us: map<string, seq<bool>>, order: seq<string>, p: Product)
    requires ParallelMaps(ps, us) && DistinctTable(ViewOf(ps, us, order)) && Released(ps, us, p).0 == Ok(true)
    ensures var (_, ps', us') := Released(ps, us, p);
      Released(ps', us', p) == (Ok(false), ps', us')
  {
    UnzipZip(ps[p.ptype], us[p.ptype]);
    ReleaseTwice(ps, us, p);
  }

  // ---------------------------------------------------------------------
  // The co-sort as written

  /**
   * How many types of `order` the co-sort passes before it meets a known
   * type with no entries; all of them when there is none.
   */
  function FirstEmpty(table: map<string, seq<Entry>>, order: seq<string>): (k: nat)
    ensures k <= |order|
    ensures forall i :: 0 <= i < k ==> !(order[i] in table && table[order[i]] == [])
    ensures k < |order| ==> order[k] in table && table[order[k]] == []
  {
    if |order| == 0 then 0
    else if order[0] in table && table[order[0]] == [] then 0
    else 1 + FirstEmpty(table, order[1..])
  }

  /** What the co-sort loop leaves behind, and the exception it raised, if any. */
  datatype CoSortOutcome = CoSortOutcome(raised: Option<Error>, table: map<string, seq<Entry>>)

  /**
   * The co-sort loop exactly as the source writes it: types in key order,
   * each sorted in place; unpacking the two columns of an empty zip (a
   * type whose products were all released) raises ValueError and leaves
   * the types after it as they were. It raises exactly when a listed type
   * is empty, and it keeps the keys.
   */
  function CoSortAsWritten(table: map<string, seq<Entry>>, order: seq<string>): (r: CoSortOutcome)
    ensures r.raised.Some? <==> FirstEmpty(table, order) < |order|
    ensures r.raised.Some? ==> r.raised.value == ValueError
    ensures r.table.Keys == table.Keys
  {
    if |order| == 0 then CoSortOutcome(None, table)
    else if order[0] in table && table[order[0]] == [] then CoSortOutcome(Some(ValueError), table)
    else
      var table' := if order[0] in table then table[order[0] := Sort(table[order[0]], EntryRank)] else table;
      FirstEmptySame(table, table', order[1..]);
      CoSortAsWritten(table', order[1..])
  }

  /** Tables with the same keys and the same empty types have the same first empty type. */
  lemma {:induction false} FirstEmptySame(table: map<string, seq<Entry>>, table': map<string, seq<Entry>>, order: seq<string>)
    requires table'.Keys == table.Keys
    requires forall t :: t in table ==> (table'[t] == []) == (table[t] == [])
    ensures FirstEmpty(table', order) == FirstEmpty(table, order)
  {
    if |order| > 0 {
      FirstEmptySame(table, table', order[1..]);
    }
  }

  /** Every type's entries, sorted when the type is listed in `order`. */
  function SortListed(table: map<string, seq<Entry>>, order: seq<string>): map<string, seq<Entry>> {
    map t | t in table :: if t in order then Sort(table[t], EntryRank) else table[t]
  }

  /**
   * Over a list of distinct types, the co-sort as written leaves exactly
   * the types before the first empty one sorted, and every other type's
   * entries as they were.
   */
  lemma {:induction false} CoSortAsWrittenState(table: map<string, seq<Entry>>, order: seq<string>)
    requires forall i, j :: 0 <= i < j < |order| ==> order[i] != order[j]
    ensures CoSortAsWritten(table, order).table == SortListed(table, order[..FirstEmpty(table, order)])
  {
    var k := FirstEmpty(table, order);
    if k == 0 {
      assert order[..k] == [];
      assert SortListed(table, order[..k]) == table;
    } else {
      var o := order[0];
      var table' := if o in table then table[o := Sort(table[o], EntryRank)] else table;
      DistinctTail(order);
      FirstEmptySame(table, table', order[1..]);
      CoSortAsWrittenState(table', order[1..]);
      SortListedStep(table, order, k);
    }
  }

  /** The tail of a list of distinct types is distinct and misses the head. */
  lemma DistinctTail(order: seq<string>)
    requires |order| > 0
    requires forall i, j :: 0 <= i < j < |order| ==> order[i] != order[j]
    ensures forall i, j :: 0 <= i < j < |order[1..]| ==> order[1..][i] != order[1..][j]
    ensures order[0] !in order[1..]
  {
    forall i, j | 0 <= i < j < |order[1..]| ensures order[1..][i] != order[1..][j] {
      assert order[1..][i] == order[i + 1] && order[1..][j] == order[j + 1];
    }
    forall i | 0 <= i < |order[1..]| ensures order[1..][i] != order[0] {
      assert order[1..][i] == order[i + 1];
    }
  }

  /** Sorting the head type first, then the next `k - 1` types, sorts the first `k`. */
  lemma SortListedStep(table: map<string, seq<Entry>>, order: seq<string>, k: nat)
    requires 0 < k <= |order| && order[0] !in order[1..]
    ensures var o := order[0];
      var table' := if o in table then table[o := Sort(table[o], EntryRank)] else table;
      SortListed(table', order[1..][..k - 1]) == SortListed(table, order[..k])
  {
    var o, rest := order[0], order[1..];
    var table' := if o in table then table[o := Sort(table[o], EntryRank)] else table;
    var l, r := SortListed(table', rest[..k - 1]), SortListed(table, order[..k]);
    assert order[..k] == [o] + rest[..k - 1];
    assert o !in rest[..k - 1];
    forall t | t in table ensures l[t] == r[t] {
      assert t in order[..k] <==> t == o || t in rest[..k - 1];
    }
    assert l == r;
  }

  /** Sorting every listed type sorts the whole table when every type is listed. */
  lemma SortListedAll(table: map<string, seq<Entry>>, order: seq<string>)
    requires forall t :: t in table ==> t in order
    ensures SortListed(table, order) == SortTable(table)
  {
  }

  /** Over an enumeration of the keys, a listed type is empty exactly when some type is. */
  lemma FirstEmptyKeys(table: map<string, seq<Entry>>, order: seq<string>)
    requires Enumerates(order, table.Keys)
    ensures FirstEmpty(table, order) < |order| <==> exists t :: t in table && table[t] == []
  {
    if exists t :: t in table && table[t] == [] {
      var t :| t in table && table[t] == [];
      var i :| 0 <= i < |order| && order[i] == t;
    }
  }

  /**
   * Over an enumeration of the keys, the co-sort as written raises exactly
   * when some type is empty; otherwise it sorts every type, as SortTable.
   */
  lemma CoSortAgrees(table: map<string, seq<Entry>>, order: seq<string>)
    requires Enumerates(order, table.Keys)
    ensures CoSortAsWritten(table, order).raised.Some? <==> exists t :: t in table && table[t] == []
    ensures CoSortAsWritten(table, order).raised.None? ==> CoSortAsWritten(table, order).table == SortTable(table)
    ensures CoSortAsWritten(table, order).table == SortListed(table, order[..FirstEmpty(table, order)])
  {
    FirstEmptyKeys(table, order);
    CoSortAsWrittenState(table, order);
    if FirstEmpty(table, order) == |order| {
      assert order[..|order|] == order;
      SortListedAll(table, order);
    }
  }

  /** What `load` returns or raises, and the depot it leaves either way. */
  datatype LoadOutcome = LoadOutcome(result: Result<nat>, depot: Registry)

  /**
   * `load` as written: the append phase, then the co-sort loop. When the
   * co-sort raises, the count is lost and the depot keeps what the append
   * phase and the types sorted so far left in it.
   */
  function LoadAsWritten(r: Registry, os: seq<ParseOutcome>, reject: bool): (res: LoadOutcome)
    ensures res.result.Err? ==> res.result.error == ValueError
    ensures res.result.Ok? ==> res.result.value == |Added(r, os, reject)|
    ensures res.depot.order == AppendAll(r, os, reject).order
    ensures res.depot.table.Keys == AppendAll(r, os, reject).table.Keys
  {
    var a := AppendAll(r, os, reject);
    var c := CoSortAsWritten(a.table, a.order);
    LoadOutcome(if c.raised.Some? then Err(c.raised.value) else Ok(|Added(r, os, reject)|), Registry(c.table, a.order))
  }

  /**
   * The as-written `load` differs from the intended one only by raising:
   * on a well-formed depot it raises ValueError exactly when some type
   * holds no entries after the append phase; otherwise it returns the
   * intended count and leaves the intended depot (Loaded). Either way the
   * depot it leaves has exactly the types before the first empty one
   * sorted.
   */
  lemma LoadAsWrittenAgrees(r: Registry, os: seq<ParseOutcome>, reject: bool)
    requires WellFormed(r)
    ensures var a, res := AppendAll(r, os, reject), LoadAsWritten(r, os, reject);
      && (res.result.Err? <==> exists t :: t in a.table && a.table[t] == [])
      && (res.result.Ok? ==> res.depot == Loaded(r, os, reject))
      && res.depot == Registry(SortListed(a.table, a.order[..FirstEmpty(a.table, a.order)]), a.order)
  {
    var a := AppendAll(r, os, reject);
    AppendAllWellFormed(r, os, reject);
    CoSortAgrees(a.table, a.order);
  }

  /**
   * The depot a failed `load` leaves behind: the type that raised is
   * known and empty; no appended entry is lost, so the new products stay
   * stored and unused; the types before the failing one are sorted; the
   * failing type and those after it keep their appended, unsorted lists.
   */
  lemma FailedLoadLeaves(r: Registry, os: seq<ParseOutcome>, reject: bool)
    requires WellFormed(r) && LoadAsWritten(r, os, reject).result.Err?
    ensures var a, d := AppendAll(r, os, reject), LoadAsWritten(r, os, reject).depot;
      var k := FirstEmpty(a.table, a.order);
      && k < |a.order| && a.order[k] in a.table && a.table[a.order[k]] == []
      && d.table.Keys == a.table.Keys
      && (forall i :: 0 <= i < |a.order| ==> a.order[i] in a.table)
      && (forall t :: t in a.table ==> multiset(d.table[t]) == multiset(a.table[t]))
      && (forall i :: 0 <= i < k ==> d.table[a.order[i]] == Sort(a.table[a.order[i]], EntryRank))
      && (forall i :: k <= i < |a.order| ==> d.table[a.order[i]] == a.table[a.order[i]])
  {
    var a := AppendAll(r, os, reject);
    LoadAsWrittenAgrees(r, os, reject);
    AppendAllWellFormed(r, os, reject);
    var k := FirstEmpty(a.table, a.order);
    forall i | k <= i < |a.order| ensures a.order[i] !in a.order[..k] {
      forall j | 0 <= j < k ensures a.order[..k][j] != a.order[i] {
        assert a.order[..k][j] == a.order[j];
      }
    }
    forall i | 0 <= i < k ensures a.order[i] in a.order[..k] {
      assert a.order[..k][i] == a.order[i];
    }
  }

  // ---------------------------------------------------------------------
  // Distinct products under duplicate rejection

  /** No type lists the same product twice. */
  predicate DistinctTable(r: Registry) {
    forall t :: t in r.table ==> DistinctLids(ProductsOf(r.table[t]))
  }

  /** On a list without repeated products, no entry occurs twice. */
  lemma {:induction false} DistinctOnce(es: seq<Entry>, x: Entry)
    requires DistinctLids(ProductsOf(es))
    ensures multiset(es)[x] <= 1
  {
    if |es| > 0 {
      var init := es[..|es| - 1];
      assert es == init + [es[|es| - 1]];
      assert DistinctLids(ProductsOf(init)) by {
        forall i, j | 0 <= i < j < |init| ensures ProductsOf(init)[i].lid != ProductsOf(init)[j].lid {
          assert ProductsOf(es)[i] == init[i].product && ProductsOf(es)[j] == init[j].product;
        }
      }
      DistinctOnce(init, x);
      if x == es[|es| - 1] {
        forall i | 0 <= i < |init| ensures init[i] != x {
          assert ProductsOf(es)[i] == init[i].product;
        }
        assert x !in multiset(init);
      }
    }
  }

  /** Reordering the entries of a list without repeated products repeats none. */
  lemma PermutedDistinct(es: seq<Entry>, es': seq<Entry>)
    requires multiset(es) == multiset(es') && DistinctLids(ProductsOf(es))
    ensures DistinctLids(ProductsOf(es'))
  {
    forall i, j | 0 <= i < j < |es'| ensures ProductsOf(es')[i].lid != ProductsOf(es')[j].lid {
      if es'[i] == es'[j] {
        assert es' == es'[..j] + es'[j..];
        assert es'[i] in multiset(es'[..j]) && es'[j] in multiset(es'[j..]);
        DistinctOnce(es, es'[i]);
      } else {
        assert es'[i] in multiset(es) && es'[j] in multiset(es);
        var k :| 0 <= k < |es| && es[k] == es'[i];
        var l :| 0 <= l < |es| && es[l] == es'[j];
        assert ProductsOf(es)[k] == es[k].product && ProductsOf(es)[l] == es[l].product;
      }
    }
  }

  /** With duplicate rejection, one appended label never repeats a product. */
  lemma StepDistinct(r: Registry, o: ParseOutcome)
    requires DistinctTable(r)
    ensures DistinctTable(Step(r, o, true))
  {
    if Admits(r, o, true) {
      var p := o.product;
      var es := Stored(r, p.ptype) + [Entry(p, false)];
      forall i, j | 0 <= i < j < |es| ensures ProductsOf(es)[i].lid != ProductsOf(es)[j].lid {
        if j == |es| - 1 {
          assert ProductsOf(es)[i] == ProductsOf(r.table[p.ptype])[i];
        } else {
          assert ProductsOf(es)[i] == ProductsOf(r.table[p.ptype])[i];
          assert ProductsOf(es)[j] == ProductsOf(r.table[p.ptype])[j];
        }
      }
    }
  }

  /**
   * A `load` with duplicate rejection keeps every type free of repeated
   * products, whatever the directories hold; so in a depot only ever
   * loaded that way, a second `release` of a product returns False.
   */
  lemma {:induction false} LoadedDistinct(r: Registry, os: seq<ParseOutcome>)
    requires DistinctTable(r)
    ensures DistinctTable(AppendAll(r, os, true))
    ensures DistinctTable(Loaded(r, os, true))
  {
    if |os| > 0 {
      LoadedDistinct(r, os[..|os| - 1]);
      StepDistinct(AppendAll(r, os[..|os| - 1], true), os[|os| - 1]);
    }
    var a := AppendAll(r, os, true);
    forall t | t in a.table ensures DistinctLids(ProductsOf(SortTable(a.table)[t])) {
      PermutedDistinct(a.table[t], SortTable(a.table)[t]);
    }
  }

  /** A release never repeats a product either. */
  lemma RemoveDistinct(r: Registry, p: Product)
    requires DistinctTable(r) && Holds(r, p)
    ensures DistinctTable(Remove(r, p))
  {
    var es := r.table[p.ptype];
    var i := IndexOf(ProductsOf(es), p).value;
    var es' := RemoveAt(es, i);
    forall a, b | 0 <= a < b < |es'| ensures ProductsOf(es')[a].lid != ProductsOf(es')[b].lid {
      var a' := if a < i then a else a + 1;
      var b' := if b < i then b else b + 1;
      assert ProductsOf(es')[a] == ProductsOf(es)[a'] && ProductsOf(es')[b] == ProductsOf(es)[b'];
    }
  }

  /** Loading one product into an empty depot. */
  lemma LoadOne(p: Product)
    ensures Loaded(Registry(map[], []), [Parsed(p)], true) == Registry(map[p.ptype := [Entry(p, false)]], [p.ptype])
  {
    var e := Entry(p, false);
    var r0 := Registry(map[], []);
    var os := [Parsed(p)];
    assert os[..0] == [];
    assert AppendAll(r0, os[..0], true) == r0;
    assert Admits(r0, Parsed(p), true);
    assert Stored(r0, p.ptype) + [Entry(p, false)] == [e];
    assert r0.order + [p.ptype] == [p.ptype];
    assert AppendAll(r0, os, true) == Registry(map[p.ptype := [e]], [p.ptype]);
    assert Sort([e], EntryRank) == [e] by {
      assert [e][..0] == [];
    }
  }

  /** Releasing the only product of a type leaves the type known with no entries. */
  lemma ReleaseOnly(p: Product)
    ensures var r1 := Registry(map[p.ptype := [Entry(p, false)]], [p.ptype]);
      Holds(r1, p) && Remove(r1, p) == Registry(map[p.ptype := []], [p.ptype])
  {
    assert ProductsOf([Entry(p, false)]) == [p];
  }

  /**
   * Load one product, release it, then load nothing: the source raises
   * ValueError from the co-sort, whereas the corrected `load` (Loaded)
   * succeeds, appends nothing and leaves the depot as it was.
   */
  lemma ReloadAfterReleasingAll(p: Product)
    ensures var r1 := Loaded(Registry(map[], []), [Parsed(p)], true);
      && Holds(r1, p)
      && LoadAsWritten(Remove(r1, p), [], true) == LoadOutcome(Err(ValueError), Remove(r1, p))
      && Loaded(Remove(r1, p), [], true) == Remove(r1, p)
      && Added(Remove(r1, p), [], true) == []
  {
    LoadOne(p);
    ReleaseOnly(p);
    var r1 := Loaded(Registry(map[], []), [Parsed(p)], true);
    var r2 := Registry(map[p.ptype := []], [p.ptype]);
    assert Remove(r1, p) == r2;
    EmptiedTypeFails(p.ptype);
  }

  /** A known type with no entries: the as-written load fails, the intended one changes nothing. */
  lemma EmptiedTypeFails(t: string)
    ensures var r := Registry(map[t := []], [t]);
      && LoadAsWritten(r, [], true) == LoadOutcome(Err(ValueError), r)
      && Loaded(r, [], true) == r
      && Added(r, [], true) == []
  {
    var r := Registry(map[t := []], [t]);
    assert AppendAll(r, [], true) == r;
    assert FirstEmpty(r.table, r.order) == 0;
    assert SortTable(r.table) == r.table by {
      assert Sort([], EntryRank) == [];
    }
  }
}
