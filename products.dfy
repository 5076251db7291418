/**
 * The product abstraction shared by the depot and the loader: a parsed
 * data product, the outcome of parsing one label file, the errors the
 * registries raise, and the identity search behind Python's `in` and
 * `list.index` on product lists.
 */
module Products {

  datatype Option<T> = None | Some(value: T)

  /** The exceptions the depot and the loader raise to their callers. */
  datatype Error =
    | KeyError(ptype: string)   // a type the registry has never been loaded with
    | ValueError                // both `unused` and `used` switched off
    | RuntimeError              // the loader was queried before any load

  datatype Result<T> = Ok(value: T) | Err(error: Error)

  /**
   * A data product: its declared type tag, its logical identifier (its
   * identity: two products are the same product when their lids agree)
   * and its rank in the order its type defines (by default the order of
   * lids, for observational products the acquisition start time).
   */
  datatype Product = Product(ptype: string, lid: string, rank: int)

  /** What parsing one candidate label file yields. */
  datatype ParseOutcome =
    | Parsed(product: Product)
    | UnsupportedType          // no type declared, or no registered class for it
    | Malformed                // the label is not a well-formed document

  /** The sort key of a product: its rank in its type's order. */
  function Rank(p: Product): int { p.rank }

  /**
   * The outcomes of a list of directories, one directory after the
   * other, each in its own enumeration order.
   */
  function Flatten(dirs: seq<seq<ParseOutcome>>): (r: seq<ParseOutcome>)
    ensures |dirs| == 0 ==> r == []
  {
    if |dirs| == 0 then [] else Flatten(dirs[..|dirs| - 1]) + dirs[|dirs| - 1]
  }

  /** The outcomes of the first `k + 1` directories extend those of the first `k`. */
  lemma FlattenStep(dirs: seq<seq<ParseOutcome>>, k: nat)
    requires k <= |dirs|
    ensures k < |dirs| ==> Flatten(dirs[..k + 1]) == Flatten(dirs[..k]) + dirs[k]
    ensures k == |dirs| ==> Flatten(dirs[..k]) == Flatten(dirs)
  {
    if k < |dirs| {
      assert dirs[..k + 1][..k] == dirs[..k];
    } else {
      assert dirs[..k] == dirs;
    }
  }

  /** Walking a directory's outcomes one at a time. */
  lemma SliceStep(done: seq<ParseOutcome>, dir: seq<ParseOutcome>, j: nat)
    requires j <= |dir|
    ensures j == 0 ==> done + dir[..j] == done
    ensures 0 < j ==> done + dir[..j] == (done + dir[..j - 1]) + [dir[j - 1]]
    ensures j == |dir| ==> done + dir[..j] == done + dir
  {
    if 0 < j {
      assert dir[..j] == dir[..j - 1] + [dir[j - 1]];
    }
    assert dir[..|dir|] == dir;
  }

  /**
   * Python's `s.index(p)`: the first position holding the same product
   * as `p`, or None where `list.index` raises ValueError.
   */
  function IndexOf(s: seq<Product>, p: Product): (r: Option<nat>)
    ensures r.Some? ==> r.value < |s| && s[r.value].lid == p.lid
    ensures r.Some? ==> forall j :: 0 <= j < r.value ==> s[j].lid != p.lid
    ensures r.None? <==> forall j :: 0 <= j < |s| ==> s[j].lid != p.lid
  {
    if |s| == 0 then None
    else if s[0].lid == p.lid then Some(0)
    else match IndexOf(s[1..], p)
      case None => None
      case Some(k) => Some(k + 1)
  }

  /** Python's `p in s` on a list of products. */
  predicate Contains(s: seq<Product>, p: Product) {
    IndexOf(s, p).Some?
  }

  /** How many entries of `s` are the same product as `p`. */
  function Occurrences(s: seq<Product>, p: Product): (n: nat)
    ensures n <= |s|
    ensures n == 0 <==> !Contains(s, p)
  {
    if |s| == 0 then 0
    else Occurrences(s[..|s| - 1], p) + (if s[|s| - 1].lid == p.lid then 1 else 0)
  }

  /** `s` without the element at position `i`: Python's `s.pop(i)`. */
  function RemoveAt<T>(s: seq<T>, i: nat): (r: seq<T>)
    requires i < |s|
    ensures |r| == |s| - 1
    ensures forall j :: 0 <= j < i ==> r[j] == s[j]
    ensures forall j :: i <= j < |r| ==> r[j] == s[j + 1]
  {
    s[..i] + s[i + 1..]
  }

  /** No product occurs twice in `s`. */
  predicate DistinctLids(s: seq<Product>) {
    forall i, j :: 0 <= i < j < |s| ==> s[i].lid != s[j].lid
  }

  /**
   * Removing the first occurrence of `p` leaves one occurrence fewer;
   * so on a list without repetitions, `p` is gone afterwards.
   */
  lemma RemoveFirstOccurrence(s: seq<Product>, p: Product)
    requires Contains(s, p)
    ensures Occurrences(RemoveAt(s, IndexOf(s, p).value), p) == Occurrences(s, p) - 1
    ensures DistinctLids(s) ==> !Contains(RemoveAt(s, IndexOf(s, p).value), p)
  {
    var i := IndexOf(s, p).value;
    RemoveAtOccurrences(s, i, p);
    if DistinctLids(s) {
      var r := RemoveAt(s, i);
      forall j | 0 <= j < |r| ensures r[j].lid != p.lid {
        if j >= i {
          assert r[j] == s[j + 1];
        }
      }
      OccurrencesNone(r, p);
    }
  }

  /** Popping position `i` takes away the occurrence at `i`, if any, and no other. */
  lemma RemoveAtOccurrences(s: seq<Product>, i: nat, p: Product)
    requires i < |s|
    ensures Occurrences(RemoveAt(s, i), p) + (if s[i].lid == p.lid then 1 else 0) == Occurrences(s, p)
  {
    var a, b := s[..i], s[i + 1..];
    assert s == (a + [s[i]]) + b;
    assert RemoveAt(s, i) == a + b;
    OccurrencesAppend(a + [s[i]], b, p);
    OccurrencesAppend(a, [s[i]], p);
    OccurrencesAppend(a, b, p);
    assert [s[i]][..0] == [];
  }

  lemma {:induction false} OccurrencesAppend(a: seq<Product>, b: seq<Product>, p: Product)
    ensures Occurrences(a + b, p) == Occurrences(a, p) + Occurrences(b, p)
  {
    if |b| == 0 {
      assert a + b == a;
    } else {
      assert (a + b)[..|a + b| - 1] == a + b[..|b| - 1];
      OccurrencesAppend(a, b[..|b| - 1], p);
    }
  }

  /** In a list without repetitions, no product other than at its own position. */
  lemma OccurrencesNone(s: seq<Product>, p: Product)
    requires forall j :: 0 <= j < |s| ==> s[j].lid != p.lid
    ensures Occurrences(s, p) == 0
  {
  }
}
