/**
 * The product loader: the older registry. One list of products per type
 * and one list of used flags per type; every load appends without
 * rejecting duplicates, sorts each list and resets every flag. Queries
 * before the first load are refused.
 */
module Loader {
  import opened Products
  import opened StableSort
  import opened Queries
  import opened DepotSpec

  /** The product dictionary with its key order (a dictionary iterates in insertion order). */
  datatype Catalog = Catalog(lists: map<string, seq<Product>>, order: seq<string>)

  /** A type's list, empty for a type never seen. */
  function ListOf(c: Catalog, t: string): seq<Product> {
    if t in c.lists then c.lists[t] else []
  }

  /**
   * The append loop of `load_products`: every parsed product is appended
   * to its type's list, a new type being created at the end of the key
   * order; nothing is rejected as a duplicate.
   */
  function Gather(c: Catalog, os: seq<ParseOutcome>): Catalog {
    if |os| == 0 then c
    else
      var g := Gather(c, os[..|os| - 1]);
      var o := os[|os| - 1];
      if o.Parsed? then
        var t := o.product.ptype;
        Catalog(g.lists[t := ListOf(g, t) + [o.product]], if t in g.lists then g.order else g.order + [t])
      else g
  }

  /** Every list sorted in its type's order. */
  function SortAll(m: map<string, seq<Product>>): (r: map<string, seq<Product>>)
    ensures r.Keys == m.Keys
    ensures forall t :: t in m ==> Sorted(r[t], Rank) && multiset(r[t]) == multiset(m[t])
  {
    map t | t in m :: Sort(m[t], Rank)
  }

  /** The catalog after `load_products`: gathered, then every list sorted. */
  function LoadedCatalog(c: Catalog, os: seq<ParseOutcome>): Catalog {
    var g := Gather(c, os);
    Catalog(SortAll(g.lists), g.order)
  }

  /** The usage map `load_products` rebuilds: for every type, one False flag per product. */
  function ResetUsage(m: map<string, seq<Product>>): (um: map<string, seq<bool>>)
    ensures ParallelMaps(m, um)
    ensures forall t, i :: t in um && 0 <= i < |um[t]| ==> !um[t][i]
  {
    map t | t in m :: seq(|m[t]|, _ => false)
  }

  /** `[True] * n`, what `all` writes over a type's flags. */
  function AllUsed(n: nat): (us: seq<bool>)
    ensures |us| == n && forall i :: 0 <= i < n ==> us[i]
  {
    seq(n, _ => true)
  }

  /** The lids of a list of products, in order. */
  function Lids(ps: seq<Product>): (ls: seq<string>)
    ensures |ls| == |ps| && forall i :: 0 <= i < |ps| ==> ls[i] == ps[i].lid
  {
    seq(|ps|, i requires 0 <= i < |ps| => ps[i].lid)
  }

  /** What `log_unused` reports: the lids of unused products, type by type in key order, each type in stored order. */
  function UnusedLids(pm: map<string, seq<Product>>, um: map<string, seq<bool>>, order: seq<string>): seq<string>
    requires ParallelMaps(pm, um) && forall i :: 0 <= i < |order| ==> order[i] in pm
  {
    if |order| == 0 then []
    else
      var t := order[|order| - 1];
      UnusedLids(pm, um, order[..|order| - 1]) + Lids(Selection(pm[t], um[t], None, true, false))
  }

  // ---------------------------------------------------------------------
  // Properties of a load

  /** After gathering, a type's list is its old list followed by the new parsed products of that type. */
  lemma {:induction false} GatherLists(c: Catalog, os: seq<ParseOutcome>, t: string)
    ensures ListOf(Gather(c, os), t) == ListOf(c, t) + OfType(ParsedOf(os), t)
    ensures t in Gather(c, os).lists <==> t in c.lists || OfType(ParsedOf(os), t) != []
  {
    if |os| > 0 {
      var init, o := os[..|os| - 1], os[|os| - 1];
      GatherLists(c, init, t);
      if o.Parsed? {
        assert ParsedOf(os) == ParsedOf(init) + [o.product];
        OfTypeSnoc(ParsedOf(init), o.product, t);
        if o.product.ptype == t {
          assert ListOf(c, t) + OfType(ParsedOf(os), t) == (ListOf(c, t) + OfType(ParsedOf(init), t)) + [o.product];
        }
      } else {
        assert ParsedOf(os) == ParsedOf(init);
      }
    }
  }

  /** Gathering keeps the key order an enumeration of the keys, extends it, and files products under their type. */
  lemma {:induction false} GatherWellFormed(c: Catalog, os: seq<ParseOutcome>)
    requires Enumerates(c.order, c.lists.Keys)
    requires forall t, i :: t in c.lists && 0 <= i < |c.lists[t]| ==> c.lists[t][i].ptype == t
    ensures var g := Gather(c, os);
      && Enumerates(g.order, g.lists.Keys)
      && c.lists.Keys <= g.lists.Keys
      && c.order <= g.order
      && forall t, i :: t in g.lists && 0 <= i < |g.lists[t]| ==> g.lists[t][i].ptype == t
  {
    if |os| > 0 {
      GatherWellFormed(c, os[..|os| - 1]);
    }
  }

  /**
   * After a load, each type's list is sorted and holds exactly its old
   * products and the new parsed products of that type.
   */
  lemma LoadedLists(c: Catalog, os: seq<ParseOutcome>, t: string)
    ensures t in LoadedCatalog(c, os).lists <==> t in c.lists || OfType(ParsedOf(os), t) != []
    ensures Sorted(ListOf(LoadedCatalog(c, os), t), Rank)
    ensures multiset(ListOf(LoadedCatalog(c, os), t)) == multiset(ListOf(c, t)) + multiset(OfType(ParsedOf(os), t))
  {
    GatherLists(c, os, t);
  }

  /** A load keeps the loader's invariant on its product dictionary and extends the key order. */
  lemma LoadedSortedLists(c: Catalog, os: seq<ParseOutcome>)
    requires SortedLists(c.lists, c.order)
    ensures SortedLists(LoadedCatalog(c, os).lists, LoadedCatalog(c, os).order)
    ensures c.order <= LoadedCatalog(c, os).order && c.lists.Keys <= LoadedCatalog(c, os).lists.Keys
  {
    GatherWellFormed(c, os);
    var g: Catalog := Gather(c, os);
    var m: map<string, seq<Product>> := SortAll(g.lists);
    forall t: string, i: int | t in m && 0 <= i < |m[t]| ensures m[t][i].ptype == t {
      assert m[t][i] in multiset(g.lists[t]);
    }
  }

  /**
   * Nothing is rejected as a duplicate: loading the same outcomes twice
   * into a fresh loader stores every parsed product twice.
   */
  lemma LoadTwiceDoubles(os: seq<ParseOutcome>, t: string)
    ensures var once := LoadedCatalog(Catalog(map[], []), os);
      var twice := LoadedCatalog(once, os);
      && multiset(ListOf(twice, t)) == multiset(OfType(ParsedOf(os), t)) + multiset(OfType(ParsedOf(os), t))
      && |ListOf(twice, t)| == 2 * |ListOf(once, t)|
  {
    var once := LoadedCatalog(Catalog(map[], []), os);
    LoadedLists(Catalog(map[], []), os, t);
    LoadedLists(once, os, t);
    assert ListOf(Catalog(map[], []), t) == [];
    assert |ListOf(once, t)| == |multiset(ListOf(once, t))|;
    assert |ListOf(LoadedCatalog(once, os), t)| == |multiset(ListOf(LoadedCatalog(once, os), t))|;
  }

  /** After `all`, no product of the type is unused: `next` finds nothing. */
  lemma {:induction false} AllUsedExhausted(n: nat)
    ensures FirstUnused(AllUsed(n)).None?
    ensures CountFlag(AllUsed(n), false) == 0
  {
    if n > 0 {
      AllUsedExhausted(n - 1);
      assert AllUsed(n)[..n - 1] == AllUsed(n - 1);
    }
  }

  /**
   * `log_unused` reports a lid exactly when some loaded type holds, at an
   * unused position, a product with that lid.
   */
  lemma {:induction false} UnusedLidsMembers(pm: map<string, seq<Product>>, um: map<string, seq<bool>>, order: seq<string>, x: string)
    requires ParallelMaps(pm, um) && forall i :: 0 <= i < |order| ==> order[i] in pm
    ensures x in UnusedLids(pm, um, order)
        <==> exists k, i :: 0 <= k < |order| && 0 <= i < |pm[order[k]]| && !um[order[k]][i] && pm[order[k]][i].lid == x
  {
    if |order| > 0 {
      var n := |order| - 1;
      var t := order[n];
      UnusedLidsMembers(pm, um, order[..n], x);
      var sel := Selection(pm[t], um[t], None, true, false);
      if x in Lids(sel) {
        var j :| 0 <= j < |sel| && Lids(sel)[j] == x;
        SelectionMembers(pm[t], um[t], None, true, false, sel[j]);
        var i :| 0 <= i < |pm[t]| && pm[t][i] == sel[j] && Picked(pm[t][i], um[t][i], None, true, false);
        assert 0 <= n < |order| && !um[order[n]][i] && pm[order[n]][i].lid == x;
      }
      if exists k, i :: 0 <= k < |order| && 0 <= i < |pm[order[k]]| && !um[order[k]][i] && pm[order[k]][i].lid == x {
        var k, i :| 0 <= k < |order| && 0 <= i < |pm[order[k]]| && !um[order[k]][i] && pm[order[k]][i].lid == x;
        if k < n {
          assert order[..n][k] == order[k];
        } else {
          SelectionMembers(pm[t], um[t], None, true, false, pm[t][i]);
          var j :| 0 <= j < |sel| && sel[j] == pm[t][i];
          assert Lids(sel)[j] == x;
        }
      }
    }
  }

  // ---------------------------------------------------------------------
  // The loops of `load_products` and `log_unused`

  /** The append loop of `load_products` over one directory's parse outcomes. */
  method GatherOutcomes(pm: map<string, seq<Product>>, order: seq<string>, os: seq<ParseOutcome>)
    returns (pm': map<string, seq<Product>>, order': seq<string>)
    ensures Catalog(pm', order') == Gather(Catalog(pm, order), os)
  {
    pm', order' := pm, order;
    for i := 0 to |os|
      invariant Catalog(pm', order') == Gather(Catalog(pm, order), os[..i])
    {
      assert os[..i + 1][..i] == os[..i];
      if os[i].Parsed? {
        var p := os[i].product;
        var t := p.ptype;
        if t !in pm' {
          pm' := pm'[t := []];
          order' := order' + [t];
        }
        pm' := pm'[t := pm'[t] + [p]];
      }
    }
    assert os[..|os|] == os;
  }

  /** The sort loop's invariant: the lists of the first `i` types are sorted, the others untouched. */
  ghost predicate SortedUpTo(pm: map<string, seq<Product>>, types: seq<string>, i: nat, pm': map<string, seq<Product>>)
    requires i <= |types|
  {
    && pm'.Keys == pm.Keys
    && forall t :: t in pm ==> pm'[t] == if t in types[..i] then Sort(pm[t], Rank) else pm[t]
  }

  lemma SortStep(pm: map<string, seq<Product>>, types: seq<string>, i: nat, pm': map<string, seq<Product>>)
    requires Enumerates(types, pm.Keys) && i < |types| && SortedUpTo(pm, types, i, pm')
    ensures types[i] in pm' && pm'[types[i]] == pm[types[i]]
    ensures SortedUpTo(pm, types, i + 1, pm'[types[i] := Sort(pm'[types[i]], Rank)])
  {
    EnumerationStep(types, pm.Keys, i);
  }

  /** `for products in self._product_map.values(): products.sort()`. */
  method SortEach(pm: map<string, seq<Product>>, types: seq<string>) returns (pm': map<string, seq<Product>>)
    requires Enumerates(types, pm.Keys)
    ensures pm' == SortAll(pm)
  {
    pm' := pm;
    for i := 0 to |types|
      invariant SortedUpTo(pm, types, i, pm')
    {
      var t := types[i];
      SortStep(pm, types, i, pm');
      pm' := pm'[t := Sort(pm'[t], Rank)];
    }
    EnumerationEnd(types, pm.Keys);
  }

  /** The usage loop of `load_products`: every type's flags replaced by `[False] * len(products)`. */
  method ResetEach(pm: map<string, seq<Product>>, um: map<string, seq<bool>>, types: seq<string>)
    returns (um': map<string, seq<bool>>)
    requires Enumerates(types, pm.Keys) && um.Keys <= pm.Keys
    ensures um' == ResetUsage(pm)
  {
    um' := um;
    for i := 0 to |types|
      invariant um'.Keys <= pm.Keys
      invariant forall t :: t in types[..i] ==> t in um' && um'[t] == seq(|pm[t]|, _ => false)
    {
      var t := types[i];
      EnumerationStep(types, pm.Keys, i);
      um' := um'[t := seq(|pm[t]|, _ => false)];
    }
    EnumerationEnd(types, pm.Keys);
  }

  /** The reporting loop of `log_unused`: type by type in key order, the lids at unused positions. */
  method CollectUnused(pm: map<string, seq<Product>>, um: map<string, seq<bool>>, order: seq<string>)
    returns (lids: seq<string>)
    requires ParallelMaps(pm, um) && Enumerates(order, pm.Keys)
    ensures lids == UnusedLids(pm, um, order)
  {
    lids := [];
    for k := 0 to |order|
      invariant lids == UnusedLids(pm, um, order[..k])
    {
      var t := order[k];
      EnumerationStep(order, pm.Keys, k);
      var ps, us := pm[t], um[t];
      ghost var before := lids;
      for i := 0 to |us|
        invariant lids == before + Lids(Selection(ps[..i], us[..i], None, true, false))
      {
        assert ps[..i + 1][..i] == ps[..i] && us[..i + 1][..i] == us[..i];
        if !us[i] {
          lids := lids + [ps[i].lid];
        }
        assert Lids(Selection(ps[..i + 1], us[..i + 1], None, true, false))
            == Lids(Selection(ps[..i], us[..i], None, true, false)) + (if us[i] then [] else [ps[i].lid]);
      }
      assert ps[..|us|] == ps && us[..|us|] == us;
    }
    EnumerationEnd(order, pm.Keys);
  }

  class ProductLoader {
    /** Whether `load_products` has run at least once. */
    var initialised: bool
    /** Each loaded type's products, sorted by their type's order. */
    var productMap: map<string, seq<Product>>
    /** Each product's used flag, at the same position as the product. */
    var usageMap: map<string, seq<bool>>
    /** The key order of both dictionaries: types in the order they were first loaded. */
    var typeOrder: seq<string>

    /** Parallel lists, sorted and filed under their type; nothing is stored before the first load. */
    ghost predicate Valid()
      reads this
    {
      && ParallelMaps(productMap, usageMap)
      && SortedLists(productMap, typeOrder)
      && (!initialised ==> productMap == map[])
    }

    constructor ()
      ensures Valid() && !initialised
      ensures productMap == map[] && usageMap == map[] && typeOrder == []
    {
      initialised := false;
      productMap := map[];
      usageMap := map[];
      typeOrder := [];
    }

    /**
     * `load_products`, after parsing: `dir` holds the outcome of parsing
     * each candidate file in enumeration order. Every parsed product is
     * appended, every list sorted, and every type's flags reset to unused.
     */
    method LoadProducts(dir: seq<ParseOutcome>)
      requires Valid()
      modifies this
      ensures Valid() && initialised
      ensures Catalog(productMap, typeOrder) == LoadedCatalog(Catalog(old(productMap), old(typeOrder)), dir)
      ensures usageMap == ResetUsage(productMap)
    {
      ghost var c0 := Catalog(productMap, typeOrder);
      LoadedSortedLists(c0, dir);
      productMap, typeOrder := GatherOutcomes(productMap, typeOrder, dir);
      productMap := SortEach(productMap, typeOrder);
      usageMap := ResetEach(productMap, usageMap, typeOrder);
      initialised := true;
    }

    /**
     * `all`: KeyError for a type never loaded; otherwise every product of
     * the type, all now marked used.
     */
    method All(t: string) returns (r: Result<seq<Product>>)
      requires Valid()
      modifies this
      ensures Valid()
      ensures productMap == old(productMap) && typeOrder == old(typeOrder) && initialised == old(initialised)
      ensures t !in old(productMap) ==> r == Err(KeyError(t)) && usageMap == old(usageMap)
      ensures t in old(productMap) ==>
        && r == Ok(old(productMap)[t])
        && usageMap == old(usageMap)[t := AllUsed(|old(usageMap)[t]|)]
    {
      if t !in productMap {
        return Err(KeyError(t));
      }
      usageMap := usageMap[t := AllUsed(|usageMap[t]|)];
      r := Ok(productMap[t]);
    }

    /**
     * `next`: the type is checked before initialisation, so an unknown
     * type raises KeyError; since nothing is stored before the first load,
     * the RuntimeError check after it can never fire. Otherwise the first
     * unused product, now marked used, or None when all are used.
     */
    method Next(t: string) returns (r: Result<Option<Product>>)
      requires Valid()
      modifies this
      ensures Valid()
      ensures productMap == old(productMap) && typeOrder == old(typeOrder) && initialised == old(initialised)
      ensures r != Err(RuntimeError)
      ensures t !in old(productMap) ==> r == Err(KeyError(t)) && usageMap == old(usageMap)
      ensures t in old(productMap) && FirstUnused(old(usageMap)[t]).None? ==> r == Ok(None) && usageMap == old(usageMap)
      ensures t in old(productMap) && FirstUnused(old(usageMap)[t]).Some? ==>
        var i := FirstUnused(old(usageMap)[t]).value;
        && r == Ok(Some(old(productMap)[t][i]))
        && usageMap == old(usageMap)[t := old(usageMap)[t][i := true]]
        && CountFlag(usageMap[t], false) == CountFlag(old(usageMap)[t], false) - 1
    {
      if t !in productMap {
        return Err(KeyError(t));
      }
      if !initialised {
        return Err(RuntimeError);
      }
      match FirstUnused(usageMap[t]) {
        case None =>
          r := Ok(None);
        case Some(i) =>
          CountFlagSet(usageMap[t], i);
          usageMap := usageMap[t := usageMap[t][i := true]];
          r := Ok(Some(productMap[t][i]));
      }
    }

    /**
     * `find_applicable`: RuntimeError before the first load (checked
     * first), KeyError for an unknown type; otherwise the first candidate,
     * in sorted order, applicable to `target`, now marked used, or None.
     */
    method FindApplicable(t: string, target: Product, isApplicable: (Product, Product) -> bool)
      returns (r: Result<Option<Product>>)
      requires Valid()
      modifies this
      ensures Valid()
      ensures productMap == old(productMap) && typeOrder == old(typeOrder) && initialised == old(initialised)
      ensures !initialised ==> r == Err(RuntimeError) && usageMap == old(usageMap)
      ensures initialised && t !in old(productMap) ==> r == Err(KeyError(t)) && usageMap == old(usageMap)
      ensures initialised && t in old(productMap) && FirstWhere(old(productMap)[t], isApplicable, target).None? ==>
        r == Ok(None) && usageMap == old(usageMap)
      ensures initialised && t in old(productMap) && FirstWhere(old(productMap)[t], isApplicable, target).Some? ==>
        var i := FirstWhere(old(productMap)[t], isApplicable, target).value;
        && r == Ok(Some(old(productMap)[t][i]))
        && usageMap == old(usageMap)[t := old(usageMap)[t][i := true]]
    {
      if !initialised {
        return Err(RuntimeError);
      }
      if t !in productMap {
        return Err(KeyError(t));
      }
      var found := FindFirst(productMap[t], isApplicable, target);
      if found.None? {
        return Ok(None);
      }
      var i := found.value;
      usageMap := usageMap[t := usageMap[t][i := true]];
      r := Ok(Some(productMap[t][i]));
    }

    /**
     * `log_unused`, with the report returned instead of logged:
     * RuntimeError before the first load; otherwise the lids of the unused
     * products. Nothing changes.
     */
    method LogUnused() returns (r: Result<seq<string>>)
      requires Valid()
      ensures !initialised ==> r == Err(RuntimeError)
      ensures initialised ==> r == Ok(UnusedLids(productMap, usageMap, typeOrder))
    {
      if !initialised {
        return Err(RuntimeError);
      }
      var lids := CollectUnused(productMap, usageMap, typeOrder);
      r := Ok(lids);
    }
  }

  /**
   * On a loader that was never loaded, `next` reports the unknown type
   * while `find_applicable` reports the missing load: the two check in
   * opposite orders.
   */
  method CheckOrder(t: string, target: Product, isApplicable: (Product, Product) -> bool)
    returns (viaNext: Result<Option<Product>>, viaFind: Result<Option<Product>>)
    ensures viaNext == Err(KeyError(t))
    ensures viaFind == Err(RuntimeError)
  {
    var loader := new ProductLoader();
    viaNext := loader.Next(t);
    viaFind := loader.FindApplicable(t, target, isApplicable);
  }
}
