/**
 * Reference definitions of the queries both registries answer over one
 * type's two parallel lists: the products `ps` and their "used" flags
 * `us` (same length, same positions).
 */
module Queries {
  import opened Products

  /** A flag is admitted when its side (unused or used) is asked for. */
  predicate Admitted(flag: bool, unused: bool, used: bool) {
    if flag then used else unused
  }

  /** An absent filter lets every product through. */
  predicate Passes(filter: Option<Product -> bool>, p: Product) {
    filter.None? || filter.value(p)
  }

  predicate Picked(p: Product, flag: bool, filter: Option<Product -> bool>, unused: bool, used: bool) {
    Admitted(flag, unused, used) && Passes(filter, p)
  }

  /** The picked products of one type, in stored order. */
  function Selection(ps: seq<Product>, us: seq<bool>, filter: Option<Product -> bool>, unused: bool, used: bool): seq<Product>
    requires |ps| == |us|
  {
    if |ps| == 0 then []
    else
      var n := |ps| - 1;
      Selection(ps[..n], us[..n], filter, unused, used)
        + (if Picked(ps[n], us[n], filter, unused, used) then [ps[n]] else [])
  }

  /**
   * The flags after a retrieval: a picked product becomes used when
   * marking is asked for; every other flag is kept.
   */
  function Marked(ps: seq<Product>, us: seq<bool>, filter: Option<Product -> bool>, unused: bool, used: bool, mark: bool): (r: seq<bool>)
    requires |ps| == |us|
    ensures |r| == |us|
  {
    seq(|us|, i requires 0 <= i < |us| => us[i] || (mark && Picked(ps[i], us[i], filter, unused, used)))
  }

  /** Python's `us.count(b)`. */
  function CountFlag(us: seq<bool>, b: bool): (n: nat)
    ensures n <= |us|
  {
    if |us| == 0 then 0
    else CountFlag(us[..|us| - 1], b) + (if us[|us| - 1] == b then 1 else 0)
  }

  /** Python's `us.index(False)`, None where it raises ValueError. */
  function FirstUnused(us: seq<bool>): (r: Option<nat>)
    ensures r.Some? ==> r.value < |us| && !us[r.value]
    ensures r.Some? ==> forall j :: 0 <= j < r.value ==> us[j]
    ensures r.None? <==> forall j :: 0 <= j < |us| ==> us[j]
  {
    if |us| == 0 then None
    else if !us[0] then Some(0)
    else match FirstUnused(us[1..])
      case None => None
      case Some(k) => Some(k + 1)
  }

  /**
   * The first position whose candidate satisfies `rel` towards `target`:
   * the search of `match` (with `matches`) and of `find_applicable`
   * (with `is_applicable`).
   */
  function FirstWhere(ps: seq<Product>, rel: (Product, Product) -> bool, target: Product): (r: Option<nat>)
    ensures r.Some? ==> r.value < |ps| && rel(ps[r.value], target)
    ensures r.Some? ==> forall j :: 0 <= j < r.value ==> !rel(ps[j], target)
    ensures r.None? <==> forall j :: 0 <= j < |ps| ==> !rel(ps[j], target)
  {
    if |ps| == 0 then None
    else if rel(ps[0], target) then Some(0)
    else match FirstWhere(ps[1..], rel, target)
      case None => None
      case Some(k) => Some(k + 1)
  }

  /** FirstWhere is the one position its contract describes. */
  lemma FirstWhereIs(ps: seq<Product>, rel: (Product, Product) -> bool, target: Product, r: Option<nat>)
    requires r.Some? ==> r.value < |ps| && rel(ps[r.value], target) && forall j :: 0 <= j < r.value ==> !rel(ps[j], target)
    requires r.None? ==> forall j :: 0 <= j < |ps| ==> !rel(ps[j], target)
    ensures r == FirstWhere(ps, rel, target)
  {
  }

  /**
   * The search loop of `match` and of `find_applicable`: the first
   * candidate, in stored order, that stands in `rel` to `target`.
   */
  method FindFirst(ps: seq<Product>, rel: (Product, Product) -> bool, target: Product) returns (r: Option<nat>)
    ensures r == FirstWhere(ps, rel, target)
  {
    var i := 0;
    while i < |ps| && !rel(ps[i], target)
      invariant 0 <= i <= |ps|
      invariant forall j :: 0 <= j < i ==> !rel(ps[j], target)
    {
      i := i + 1;
    }
    r := if i == |ps| then None else Some(i);
    FirstWhereIs(ps, rel, target, r);
  }

  /**
   * A product is retrieved exactly when it is stored at a picked position.
   */
  lemma {:induction false} SelectionMembers(ps: seq<Product>, us: seq<bool>, filter: Option<Product -> bool>, unused: bool, used: bool, p: Product)
    requires |ps| == |us|
    ensures p in Selection(ps, us, filter, unused, used)
        <==> exists i :: 0 <= i < |ps| && ps[i] == p && Picked(ps[i], us[i], filter, unused, used)
  {
    if |ps| > 0 {
      var n := |ps| - 1;
      SelectionMembers(ps[..n], us[..n], filter, unused, used, p);
      if p in Selection(ps, us, filter, unused, used) && p !in Selection(ps[..n], us[..n], filter, unused, used) {
        assert ps[n] == p && Picked(ps[n], us[n], filter, unused, used);
      }
      if exists i :: 0 <= i < |ps| && ps[i] == p && Picked(ps[i], us[i], filter, unused, used) {
        var i :| 0 <= i < |ps| && ps[i] == p && Picked(ps[i], us[i], filter, unused, used);
        if i < n {
          assert ps[..n][i] == p && us[..n][i] == us[i];
        }
      }
    }
  }

  /**
   * Without a filter, the number of products a retrieval returns is what
   * `count` computes: the list length when both sides are asked for,
   * otherwise the number of flags equal to `used`.
   */
  lemma {:induction false} CountIsSelectionSize(ps: seq<Product>, us: seq<bool>, unused: bool, used: bool)
    requires |ps| == |us| && (unused || used)
    ensures |Selection(ps, us, None, unused, used)| == if unused && used then |us| else CountFlag(us, used)
  {
    if |ps| > 0 {
      var n := |ps| - 1;
      CountIsSelectionSize(ps[..n], us[..n], unused, used);
    }
  }

  /** Every product is either unused or used. */
  lemma {:induction false} CountFlagSplit(us: seq<bool>)
    ensures CountFlag(us, false) + CountFlag(us, true) == |us|
  {
    if |us| > 0 {
      CountFlagSplit(us[..|us| - 1]);
    }
  }

  /** Setting one unused flag leaves exactly one unused flag fewer. */
  lemma {:induction false} CountFlagSet(us: seq<bool>, i: nat)
    requires i < |us| && !us[i]
    ensures CountFlag(us[i := true], false) == CountFlag(us, false) - 1
    ensures CountFlag(us[i := true], true) == CountFlag(us, true) + 1
  {
    var n := |us| - 1;
    if i < n {
      CountFlagSet(us[..n], i);
      assert us[i := true][..n] == us[..n][i := true];
    } else {
      assert us[i := true][..n] == us[..n];
    }
  }

  /**
   * Retrieving unused products with marking, then retrieving unused
   * products again with the same filter, returns nothing: every product
   * selected the first time is now used.
   */
  lemma {:induction false} UnusedRetrievalExhausts(ps: seq<Product>, us: seq<bool>, filter: Option<Product -> bool>)
    requires |ps| == |us|
    ensures Selection(ps, Marked(ps, us, filter, true, false, true), filter, true, false) == []
  {
    if |ps| > 0 {
      var n := |ps| - 1;
      UnusedRetrievalExhausts(ps[..n], us[..n], filter);
      assert Marked(ps, us, filter, true, false, true)[..n] == Marked(ps[..n], us[..n], filter, true, false, true);
    }
  }

  /** Without marking, a retrieval leaves every flag as it was. */
  lemma NoMarkNoChange(ps: seq<Product>, us: seq<bool>, filter: Option<Product -> bool>, unused: bool, used: bool)
    requires |ps| == |us|
    ensures Marked(ps, us, filter, unused, used, false) == us
  {
  }
}
