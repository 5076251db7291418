/**
 * The product depot: loaded products grouped by type, with a "used" flag
 * per product recording whether it was handed out, kept as two
 * dictionaries of parallel lists. Every operation is specified against
 * the registry view (DepotSpec) or the reference queries (Queries).
 */
module Depot {
  import opened Products
  import opened StableSort
  import opened Queries
  import opened DepotSpec

  /** What `retrieve` returns: one type's list, or a dictionary of lists by type. */
  datatype Retrieval = OfType(products: seq<Product>) | ByType(selection: map<string, seq<Product>>)

  /**
   * The dictionary `retrieve` builds over the types `ts`: a type appears
   * only when something of it was selected (keys of a defaultdict are
   * created by the first append).
   */
  function SelectAll(ps: map<string, seq<Product>>, us: map<string, seq<bool>>, ts: seq<string>,
                     filter: Option<Product -> bool>, unused: bool, used: bool): map<string, seq<Product>>
    requires ParallelMaps(ps, us) && forall i :: 0 <= i < |ts| ==> ts[i] in ps
  {
    if |ts| == 0 then map[]
    else
      var t := ts[|ts| - 1];
      var s := Selection(ps[t], us[t], filter, unused, used);
      var m := SelectAll(ps, us, ts[..|ts| - 1], filter, unused, used);
      if s == [] then m else m[t := s]
  }

  /**
   * Without a type, `retrieve` maps exactly the types among `ts` with a
   * non-empty selection, each to its selection.
   */
  lemma {:induction false} SelectAllMembers(ps: map<string, seq<Product>>, us: map<string, seq<bool>>, ts: seq<string>,
                                            filter: Option<Product -> bool>, unused: bool, used: bool, t: string)
    requires ParallelMaps(ps, us) && forall i :: 0 <= i < |ts| ==> ts[i] in ps
    ensures t in SelectAll(ps, us, ts, filter, unused, used)
        <==> t in ts && Selection(ps[t], us[t], filter, unused, used) != []
    ensures t in SelectAll(ps, us, ts, filter, unused, used)
        ==> SelectAll(ps, us, ts, filter, unused, used)[t] == Selection(ps[t], us[t], filter, unused, used)
  {
    if |ts| > 0 {
      var init := ts[..|ts| - 1];
      SelectAllMembers(ps, us, init, filter, unused, used, t);
      assert ts == init + [ts[|ts| - 1]];
    }
  }

  /** The flags after `retrieve` without a type: every type's flags marked. */
  function MarkAll(ps: map<string, seq<Product>>, us: map<string, seq<bool>>,
                   filter: Option<Product -> bool>, unused: bool, used: bool, mark: bool): (m: map<string, seq<bool>>)
    requires ParallelMaps(ps, us)
    ensures ParallelMaps(ps, m)
    ensures forall t :: t in us ==> m[t] == Marked(ps[t], us[t], filter, unused, used, mark)
  {
    map t | t in us :: Marked(ps[t], us[t], filter, unused, used, mark)
  }

  /** One type's products after the co-sort: its entries stably sorted, products column. */
  function SortedProducts(ps: seq<Product>, us: seq<bool>): seq<Product>
    requires |ps| == |us|
  {
    ProductsOf(Sort(Zip(ps, us), EntryRank))
  }

  /** One type's flags after the co-sort: its entries stably sorted, flags column. */
  function SortedFlags(ps: seq<Product>, us: seq<bool>): seq<bool>
    requires |ps| == |us|
  {
    FlagsOf(Sort(Zip(ps, us), EntryRank))
  }

  /** The co-sort loop's invariant: the first `i` types are co-sorted, the others untouched. */
  ghost predicate CoSortedUpTo(ps: map<string, seq<Product>>, us: map<string, seq<bool>>, types: seq<string>, i: nat,
                               ps': map<string, seq<Product>>, us': map<string, seq<bool>>)
    requires ParallelMaps(ps, us) && i <= |types|
  {
    && ps'.Keys == ps.Keys && us'.Keys == us.Keys
    && forall t :: t in ps ==>
      if t in types[..i] then ps'[t] == SortedProducts(ps[t], us[t]) && us'[t] == SortedFlags(ps[t], us[t])
      else ps'[t] == ps[t] && us'[t] == us[t]
  }

  lemma CoSortStep(ps: map<string, seq<Product>>, us: map<string, seq<bool>>, types: seq<string>, i: nat,
                   ps': map<string, seq<Product>>, us': map<string, seq<bool>>)
    requires ParallelMaps(ps, us) && Enumerates(types, ps.Keys) && i < |types|
    requires CoSortedUpTo(ps, us, types, i, ps', us')
    ensures types[i] in ps' && types[i] in us' && |ps'[types[i]]| == |us'[types[i]]|
    ensures var t := types[i];
      CoSortedUpTo(ps, us, types, i + 1, ps'[t := SortedProducts(ps'[t], us'[t])], us'[t := SortedFlags(ps'[t], us'[t])])
  {
    EnumerationStep(types, ps.Keys, i);
  }

  lemma CoSortEnd(ps: map<string, seq<Product>>, us: map<string, seq<bool>>, types: seq<string>,
                  ps': map<string, seq<Product>>, us': map<string, seq<bool>>)
    requires ParallelMaps(ps, us) && Enumerates(types, ps.Keys)
    requires CoSortedUpTo(ps, us, types, |types|, ps', us')
    ensures ps'.Keys == ps.Keys && us'.Keys == us.Keys
    ensures forall t :: t in ps ==> ps'[t] == SortedProducts(ps[t], us[t]) && us'[t] == SortedFlags(ps[t], us[t])
  {
    EnumerationEnd(types, ps.Keys);
  }

  /**
   * The co-sort loop of `load`: for each type in key order, its products
   * and flags are zipped, stably sorted by product, and unzipped back.
   */
  method CoSortLists(ps: map<string, seq<Product>>, us: map<string, seq<bool>>, types: seq<string>)
    returns (ps': map<string, seq<Product>>, us': map<string, seq<bool>>)
    requires ParallelMaps(ps, us) && Enumerates(types, ps.Keys)
    ensures ps'.Keys == ps.Keys && us'.Keys == us.Keys
    ensures forall t :: t in ps ==> ps'[t] == SortedProducts(ps[t], us[t]) && us'[t] == SortedFlags(ps[t], us[t])
  {
    ps', us' := ps, us;
    for i := 0 to |types|
      invariant CoSortedUpTo(ps, us, types, i, ps', us')
    {
      var t := types[i];
      CoSortStep(ps, us, types, i, ps', us');
      var sorted := Sort(Zip(ps'[t], us'[t]), EntryRank);
      ps', us' := ps'[t := ProductsOf(sorted)], us'[t := FlagsOf(sorted)];
    }
    CoSortEnd(ps, us, types, ps', us');
  }

  /**
   * The selection loop of `retrieve` over one type: walks the type's
   * flags in order, skips products whose side was not asked for or that
   * the filter rejects, returns the rest and marks those not yet used.
   */
  method SelectFrom(ps: seq<Product>, us: seq<bool>, filter: Option<Product -> bool>, mark: bool, unused: bool, used: bool)
    returns (sel: seq<Product>, us': seq<bool>)
    requires |ps| == |us|
    ensures sel == Selection(ps, us, filter, unused, used)
    ensures us' == Marked(ps, us, filter, unused, used, mark)
  {
    sel, us' := [], us;
    for i := 0 to |ps|
      invariant |us'| == |us|
      invariant forall j :: 0 <= j < i ==> us'[j] == Marked(ps, us, filter, unused, used, mark)[j]
      invariant forall j :: i <= j < |us| ==> us'[j] == us[j]
      invariant sel == Selection(ps[..i], us[..i], filter, unused, used)
    {
      assert ps[..i + 1][..i] == ps[..i] && us[..i + 1][..i] == us[..i];
      var flag := us'[i];
      if (!flag && !unused) || (flag && !used) {
        // the product's side was not asked for
      } else if filter.Some? && !filter.value(ps[i]) {
        // rejected by the filter
      } else {
        sel := sel + [ps[i]];
        if !flag && mark {
          us' := us'[i := true];
        }
      }
    }
    assert ps[..|ps|] == ps && us[..|ps|] == us;
  }

  /**
   * Half of the loop invariant of `retrieve` without a type: the flags of
   * the first `k` types are marked, the other types' flags untouched.
   */
  ghost predicate MarkedUpTo(ps: map<string, seq<Product>>, us: map<string, seq<bool>>, types: seq<string>, k: nat,
                             filter: Option<Product -> bool>, mark: bool, unused: bool, used: bool, us': map<string, seq<bool>>)
    requires ParallelMaps(ps, us) && k <= |types|
  {
    && us'.Keys == us.Keys
    && forall t :: t in us ==>
      us'[t] == if t in types[..k] then Marked(ps[t], us[t], filter, unused, used, mark) else us[t]
  }

  lemma MarkStep(ps: map<string, seq<Product>>, us: map<string, seq<bool>>, types: seq<string>, k: nat,
                 filter: Option<Product -> bool>, mark: bool, unused: bool, used: bool, us': map<string, seq<bool>>)
    requires ParallelMaps(ps, us) && Enumerates(types, ps.Keys) && k < |types|
    requires MarkedUpTo(ps, us, types, k, filter, mark, unused, used, us')
    ensures types[k] in ps && us'[types[k]] == us[types[k]]
    ensures var t := types[k];
      MarkedUpTo(ps, us, types, k + 1, filter, mark, unused, used, us'[t := Marked(ps[t], us[t], filter, unused, used, mark)])
  {
    EnumerationStep(types, ps.Keys, k);
  }

  lemma MarkEnd(ps: map<string, seq<Product>>, us: map<string, seq<bool>>, types: seq<string>,
                filter: Option<Product -> bool>, mark: bool, unused: bool, used: bool, us': map<string, seq<bool>>)
    requires ParallelMaps(ps, us) && Enumerates(types, ps.Keys)
    requires MarkedUpTo(ps, us, types, |types|, filter, mark, unused, used, us')
    ensures us' == MarkAll(ps, us, filter, unused, used, mark)
  {
    EnumerationEnd(types, ps.Keys);
  }

  /** Extending the walked prefix by one type adds that type's selection when it is not empty. */
  lemma SelectAllStep(ps: map<string, seq<Product>>, us: map<string, seq<bool>>, types: seq<string>, k: nat,
                      filter: Option<Product -> bool>, unused: bool, used: bool)
    requires ParallelMaps(ps, us) && Enumerates(types, ps.Keys) && k < |types|
    ensures var t, m := types[k], SelectAll(ps, us, types[..k], filter, unused, used);
      var s := Selection(ps[t], us[t], filter, unused, used);
      SelectAll(ps, us, types[..k + 1], filter, unused, used) == if s == [] then m else m[t := s]
  {
    EnumerationStep(types, ps.Keys, k);
  }

  /** `retrieve` without a type: the selection loop over every type, in key order. */
  method SelectEach(ps: map<string, seq<Product>>, us: map<string, seq<bool>>, types: seq<string>,
                    filter: Option<Product -> bool>, mark: bool, unused: bool, used: bool)
    returns (sel: map<string, seq<Product>>, us': map<string, seq<bool>>)
    requires ParallelMaps(ps, us) && Enumerates(types, ps.Keys)
    ensures sel == SelectAll(ps, us, types, filter, unused, used)
    ensures us' == MarkAll(ps, us, filter, unused, used, mark)
  {
    sel, us' := map[], us;
    for k := 0 to |types|
      invariant sel == SelectAll(ps, us, types[..k], filter, unused, used)
      invariant MarkedUpTo(ps, us, types, k, filter, mark, unused, used, us')
    {
      var t := types[k];
      MarkStep(ps, us, types, k, filter, mark, unused, used, us');
      SelectAllStep(ps, us, types, k, filter, unused, used);
      var s, flags := SelectFrom(ps[t], us'[t], filter, mark, unused, used);
      if s != [] {
        sel := sel[t := s];
      }
      us' := us'[t := flags];
    }
    MarkEnd(ps, us, types, filter, mark, unused, used, us');
    EnumerationEnd(types, ps.Keys);
  }

  class ProductDepot {
    /** Each loaded type's products, sorted by their type's order. */
    var products: map<string, seq<Product>>
    /** Each product's used flag, at the same position as the product. */
    var usage: map<string, seq<bool>>
    /** The key order of both dictionaries: types in the order they were first loaded. */
    var order: seq<string>

    ghost predicate Parallel()
      reads this
    {
      ParallelMaps(products, usage)
    }

    /** The registry the two dictionaries represent. */
    ghost function View(): Registry
      reads this
      requires Parallel()
    {
      ViewOf(products, usage, order)
    }

    /** Parallel lists, each type's products sorted and stored under their type. */
    ghost predicate Valid()
      reads this
    {
      Parallel() && SortedLists(products, order)
    }

    constructor ()
      ensures Valid()
      ensures View() == Registry(map[], [])
    {
      products := map[];
      usage := map[];
      order := [];
    }

    /** The `types` property: every loaded type once, in first-load order. */
    function Types(): (ts: seq<string>)
      reads this
      requires Valid()
      ensures forall t :: t in ts <==> t in products
      ensures forall i, j :: 0 <= i < j < |ts| ==> ts[i] != ts[j]
    {
      order
    }

    /**
     * `load`, after parsing: `dirs` holds, per directory in the order
     * given, the outcome of parsing each candidate file in enumeration
     * order. Admitted products are appended unused, then every type's
     * two lists are stably co-sorted by product order.
     */
    method Load(dirs: seq<seq<ParseOutcome>>, rejectDuplicates: bool) returns (n: nat)
      requires Valid()
      modifies this
      ensures Valid()
      ensures View() == Loaded(old(View()), Flatten(dirs), rejectDuplicates)
      ensures n == |Added(old(View()), Flatten(dirs), rejectDuplicates)|
    {
      ghost var r0 := View();
      n := 0;
      var k := 0;
      while k < |dirs|
        invariant 0 <= k <= |dirs|
        invariant Parallel()
        invariant View() == AppendAll(r0, Flatten(dirs[..k]), rejectDuplicates)
        invariant n == |Added(r0, Flatten(dirs[..k]), rejectDuplicates)|
      {
        ghost var done := Flatten(dirs[..k]);
        var j := 0;
        SliceStep(done, dirs[k], 0);
        while j < |dirs[k]|
          invariant 0 <= j <= |dirs[k]|
          invariant Parallel()
          invariant View() == AppendAll(r0, done + dirs[k][..j], rejectDuplicates)
          invariant n == |Added(r0, done + dirs[k][..j], rejectDuplicates)|
        {
          AppendAllSnoc(r0, done + dirs[k][..j], dirs[k][j], rejectDuplicates);
          SliceStep(done, dirs[k], j + 1);
          var added := Admit(dirs[k][j], rejectDuplicates);
          if added {
            n := n + 1;
          }
          j := j + 1;
        }
        SliceStep(done, dirs[k], |dirs[k]|);
        FlattenStep(dirs, k);
        k := k + 1;
      }
      FlattenStep(dirs, |dirs|);
      OrderedView(old(products), old(usage), old(order));
      CoSort(r0, Flatten(dirs), rejectDuplicates);
    }

    /**
     * One parse outcome of `load`: a parsed product is appended unless
     * duplicates are rejected and it is already stored; the answer says
     * whether it was appended.
     */
    method Admit(o: ParseOutcome, rejectDuplicates: bool) returns (added: bool)
      requires Parallel()
      modifies this
      ensures Parallel()
      ensures added == Admits(old(View()), o, rejectDuplicates)
      ensures View() == Step(old(View()), o, rejectDuplicates)
    {
      if !o.Parsed? {
        return false;
      }
      var p := o.product;
      var t := p.ptype;
      if t in products {
        UnzipZip(products[t], usage[t]);
      }
      if rejectDuplicates && t in products && Contains(products[t], p) {
        return false;
      }
      AppendProduct(p);
      added := true;
    }

    /** `products[type_].append(product)` and `used[type_].append(False)`. */
    method AppendProduct(p: Product)
      requires Parallel()
      modifies this
      ensures Parallel()
      ensures View() == Add(old(View()), p)
    {
      var t := p.ptype;
      var ps := if t in products then products[t] else [];
      var us := if t in usage then usage[t] else [];
      var order' := if t in products then order else order + [t];
      ViewOfUpdate(products, usage, order, t, ps + [p], us + [false], order');
      assert Zip(ps + [p], us + [false]) == Stored(View(), t) + [Entry(p, false)];
      products := products[t := ps + [p]];
      usage := usage[t := us + [false]];
      order := order';
    }

    /** The co-sort phase of `load`, on the dictionaries the append phase left. */
    method CoSort(ghost r0: Registry, ghost os: seq<ParseOutcome>, ghost reject: bool)
      requires Parallel() && Ordered(r0) && View() == AppendAll(r0, os, reject)
      modifies this
      ensures Valid()
      ensures View() == Loaded(r0, os, reject)
    {
      AppendAllWellFormed(r0, os, reject);
      ghost var a := View();
      products, usage := CoSortLists(products, usage, order);
      CoSortedView(a, products, usage);
      LoadedWellFormed(r0, os, reject);
      OrderedView(products, usage, order);
    }

    /**
     * `retrieve`: ValueError when neither side is asked for (checked
     * first), KeyError for an unknown type; otherwise the selection of the
     * given type, or of every type, with the selected unused products
     * marked used when `markUsed`.
     */
    method Retrieve(ptype: Option<string>, filter: Option<Product -> bool>, markUsed: bool, unused: bool, used: bool)
      returns (r: Result<Retrieval>)
      requires Valid()
      modifies this
      ensures Valid()
      ensures products == old(products) && order == old(order)
      ensures !unused && !used ==> r == Err(ValueError) && usage == old(usage)
      ensures (unused || used) && ptype.Some? && ptype.value !in old(products)
          ==> r == Err(KeyError(ptype.value)) && usage == old(usage)
      ensures (unused || used) && ptype.Some? && ptype.value in old(products) ==>
        var t := ptype.value;
        && r == Ok(OfType(Selection(old(products)[t], old(usage)[t], filter, unused, used)))
        && usage == old(usage)[t := Marked(old(products)[t], old(usage)[t], filter, unused, used, markUsed)]
      ensures (unused || used) && ptype.None? ==>
        && r == Ok(ByType(SelectAll(old(products), old(usage), old(order), filter, unused, used)))
        && usage == MarkAll(old(products), old(usage), filter, unused, used, markUsed)
    {
      if !unused && !used {
        return Err(ValueError);
      }
      if ptype.Some? {
        var t := ptype.value;
        if t !in products {
          return Err(KeyError(t));
        }
        var s, flags := SelectFrom(products[t], usage[t], filter, markUsed, unused, used);
        usage := usage[t := flags];
        return Ok(OfType(s));
      }
      var sel, flags := SelectEach(products, usage, order, filter, markUsed, unused, used);
      usage := flags;
      r := Ok(ByType(sel));
    }

    /**
     * `count`: KeyError for an unknown type (checked first), ValueError
     * when neither side is asked for; otherwise how many products a
     * retrieval of that type without filter would return.
     */
    function Count(t: string, unused: bool, used: bool): (r: Result<nat>)
      reads this
      requires Parallel()
      ensures t !in products ==> r == Err(KeyError(t))
      ensures t in products && !unused && !used ==> r == Err(ValueError)
      ensures t in products && (unused || used) ==> r == Ok(|Selection(products[t], usage[t], None, unused, used)|)
    {
      if t !in products then Err(KeyError(t))
      else if !unused && !used then Err(ValueError)
      else
        CountIsSelectionSize(products[t], usage[t], unused, used);
        if unused && used then Ok(|usage[t]|)
        else Ok(CountFlag(usage[t], used))
    }

    /**
     * `next`: KeyError for an unknown type; otherwise the first unused
     * product of the type, now marked used, or None when all are used.
     */
    method Next(t: string) returns (r: Result<Option<Product>>)
      requires Valid()
      modifies this
      ensures Valid()
      ensures products == old(products) && order == old(order)
      ensures t !in old(products) ==> r == Err(KeyError(t)) && usage == old(usage)
      ensures t in old(products) && FirstUnused(old(usage)[t]).None? ==> r == Ok(None) && usage == old(usage)
      ensures t in old(products) && FirstUnused(old(usage)[t]).Some? ==>
        var i := FirstUnused(old(usage)[t]).value;
        && r == Ok(Some(old(products)[t][i]))
        && usage == old(usage)[t := old(usage)[t][i := true]]
        && CountFlag(usage[t], false) == CountFlag(old(usage)[t], false) - 1
    {
      if t !in products {
        return Err(KeyError(t));
      }
      match FirstUnused(usage[t]) {
        case None =>
          r := Ok(None);
        case Some(i) =>
          CountFlagSet(usage[t], i);
          usage := usage[t := usage[t][i := true]];
          r := Ok(Some(products[t][i]));
      }
    }

    /**
     * `match`: KeyError for an unknown type; otherwise the first product
     * of the type, in stored order, that matches `target`, now marked
     * used whatever its flag was, or None.
     */
    method Match(t: string, target: Product, matches: (Product, Product) -> bool) returns (r: Result<Option<Product>>)
      requires Valid()
      modifies this
      ensures Valid()
      ensures products == old(products) && order == old(order)
      ensures t !in old(products) ==> r == Err(KeyError(t)) && usage == old(usage)
      ensures t in old(products) && FirstWhere(old(products)[t], matches, target).None? ==> r == Ok(None) && usage == old(usage)
      ensures t in old(products) && FirstWhere(old(products)[t], matches, target).Some? ==>
        var i := FirstWhere(old(products)[t], matches, target).value;
        && r == Ok(Some(old(products)[t][i]))
        && usage == old(usage)[t := old(usage)[t][i := true]]
    {
      if t !in products {
        return Err(KeyError(t));
      }
      var found := FindFirst(products[t], matches, target);
      if found.None? {
        return Ok(None);
      }
      var i := found.value;
      usage := usage[t := usage[t][i := true]];
      r := Ok(Some(products[t][i]));
    }

    /**
     * `release`: KeyError for an unknown type; otherwise removes the
     * first stored occurrence of the product together with its flag and
     * answers whether there was one. The type stays known.
     */
    method Release(p: Product) returns (r: Result<bool>)
      requires Valid()
      modifies this
      ensures Valid() && order == old(order)
      ensures (r, products, usage) == Released(old(products), old(usage), p)
    {
      var t := p.ptype;
      if t !in products {
        return Err(KeyError(t));
      }
      var idx := IndexOf(products[t], p);
      if idx.None? {
        return Ok(false);
      }
      ReleasedSortedLists(products, usage, order, p);
      var i := idx.value;
      products := products[t := RemoveAt(products[t], i)];
      usage := usage[t := RemoveAt(usage[t], i)];
      r := Ok(true);
    }
  }

  /**
   * Repeated `match` calls with the same target and nothing in between
   * return the same product: the usage flags play no part in the search.
   */
  method MatchTwice(d: ProductDepot, t: string, target: Product, matches: (Product, Product) -> bool)
    returns (first: Result<Option<Product>>, second: Result<Option<Product>>)
    requires d.Valid()
    modifies d
    ensures first == second
  {
    first := d.Match(t, target, matches);
    second := d.Match(t, target, matches);
  }

  /**
   * Every product is either unused or used: counting each side and
   * adding gives the count of both.
   */
  lemma CountSplit(d: ProductDepot, t: string)
    requires d.Parallel() && t in d.products
    ensures d.Count(t, true, false).Ok? && d.Count(t, false, true).Ok? && d.Count(t, true, true).Ok?
    ensures d.Count(t, true, false).value + d.Count(t, false, true).value == d.Count(t, true, true).value
  {
    CountFlagSplit(d.usage[t]);
  }
}
