# proctools product registries and exit codes, in Dafny

This project models three parts of `proctools`, the ExoMars PanCam
processing toolkit, and proves their properties:

- **`ProductDepot`** (`src/proctools/products/depot.py`). The registry the
  processing tools load PDS4 data products into. It does four things:
  - groups products by type;
  - keeps each type's list sorted in the type's own order;
  - keeps a parallel list of "used" flags;
  - answers `retrieve`, `count`, `next`, `match` and `release` over those lists.
- **`ProductLoader`** (`src/proctools/products/loader.py`). The older registry with the same idea. It differs in four ways:
  - a load never rejects duplicates;
  - a load resets every usage flag;
  - it tracks whether any load happened;
  - it answers `all`, `next`, `find_applicable` and `log_unused`.
- **`ExitCode` / `ExitCodes`** (`src/proctools/cli/status.py`). An exit code prints as `"<code> (<name>)"`. `ExitCodes` is an extensible enumeration of exit codes. When a subclass is defined, the ancestry walk in `__init_subclass__` checks the whole class tree. The enumeration classes refuse instantiation.

Files:

- `products.dfy` (module `Products`):
  - the product record (type tag, lid, rank in its type's order);
  - the outcome of parsing one label;
  - the exceptions the registries raise;
  - Python's `in`, `list.index` and `list.pop(i)` on product lists.
- `sorting.dfy` (module `StableSort`): Python's stable sort as a function, with these proofs:
  - it sorts and permutes;
  - it is stable;
  - sorting a sorted list changes nothing;
  - sorting a sorted prefix plus new elements equals sorting everything.
- `queries.dfy` (module `Queries`): reference definitions of what both registries compute over one type's lists:
  - selection by usage and filter;
  - marking;
  - `count`;
  - the first unused position;
  - the first matching position.
- `depot_spec.dfy` (module `DepotSpec`): the depot as an abstract value, a table from type to `(product, used)` entries plus the type order. It defines what a load, a co-sort and a release do to it, and proves their properties.
- `depot.dfy` (module `Depot`): the `ProductDepot` class, with fields `products`, `usage` (the two defaultdicts) and `order` (their key order). `load` and `release` are proved against the `DepotSpec` functions (`Loaded`, `Released`). `retrieve`, `count`, `next` and `match` are proved against the `Queries` functions (`Selection`, `Marked`, `FirstUnused`, `FirstWhere`).
- `loader.dfy` (module `Loader`): the `ProductLoader` class, with fields `initialised`, `productMap`, `usageMap` and `typeOrder`. It comes with the functions that specify a load and `log_unused`.
- `status.dfy` (module `Status`) models three things:
  - exit codes and their printed form, with a parser that reads the form back;
  - classes as records in a hierarchy map;
  - the `__init_subclass__` walk as an imperative method. The method is proved to accept exactly the hierarchies that satisfy a declarative validity predicate.

Both registries raise `KeyError` for a type they were never loaded with. The depot's `_ensure_loaded` (depot.py:227-231) and the loader's `_ensure_valid_type` (loader.py:147-149) are modelled by the `KeyError` branches of every method that calls them. The loader's `_ensure_initialised` (loader.py:143-145) is modelled by the `RuntimeError` branches.

Two orders of checks follow the code exactly:

- `count` checks the type before the `unused`/`used` arguments.
- `retrieve` checks the arguments first.

The code and its documentation disagree in one place. The docstring of `ProductLoader.all` lists a `RuntimeError` when nothing was loaded, but the code checks only the type. Before any load the product map is empty, so the code raises `KeyError`, and the model follows the code. In `ProductLoader.next`, the initialised check comes after the type check. For every load that completes, a known type implies a load happened, so that check can never raise, and `Loader.ProductLoader.Next` proves it. A load that an unexpected exception aborts half-way is not modelled (see "Left out").

## Model

| member | source | states |
|---|---|---|
| Products.IndexOf | src/proctools/products/depot.py:219-222 | the first position holding the same product (same lid); None exactly when the product is absent, where `list.index` raises |
| Products.RemoveFirstOccurrence | src/proctools/products/depot.py:220-224 | popping the first occurrence leaves one occurrence fewer; in a list without repeated lids the product is then gone |
| StableSort.Sort | src/proctools/products/loader.py:43-44 | the result is sorted by rank, has the same length, and is a permutation (same multiset) of the input |
| StableSort.SortStable | src/proctools/products/depot.py:77-85 | for every key, the elements with that key keep their input order (Python's sort is stable) |
| StableSort.SortedUnique | src/proctools/products/depot.py:77-85 | two sorted sequences with the same elements per key, in the same order, are equal |
| StableSort.SortOfSorted | src/proctools/products/depot.py:74-85 | sorting an already sorted list changes nothing |
| StableSort.SortMerge | src/proctools/products/depot.py:74-85 | sorting (sorted old products + new ones) gives the same list as sorting all of them at once |
| Queries.FirstUnused | src/proctools/products/depot.py:168-171 | `usage.index(False)`: the first unused position, with every earlier one used; None exactly when all are used |
| Queries.FirstWhere | src/proctools/products/depot.py:197-201 | the first position whose candidate satisfies the relation, all earlier ones failing it; None exactly when none does |
| Queries.FindFirst | src/proctools/products/depot.py:197-201 | the `for`/`break`/`else` search loop returns exactly FirstWhere |
| Queries.SelectionMembers | src/proctools/products/depot.py:119-125 | a product is retrieved from a type exactly when it sits at a position whose flag is asked for and that passes the filter |
| Queries.CountIsSelectionSize | src/proctools/products/depot.py:145-150 | `count` equals the number of products an unfiltered retrieval with the same flags returns |
| Queries.CountFlagSplit | src/proctools/products/depot.py:148-150 | the unused count plus the used count is the list length |
| Queries.CountFlagSet | src/proctools/products/depot.py:172 | marking one unused product moves exactly one product from the unused count to the used count |
| Queries.UnusedRetrievalExhausts | src/proctools/products/depot.py:119-127 | after a marking retrieval of unused products, the same retrieval again returns nothing |
| Queries.NoMarkNoChange | src/proctools/products/depot.py:126-127 | with `mark_used` off a retrieval leaves every flag unchanged |
| DepotSpec.AppendAllStored | src/proctools/products/depot.py:54-73 | after the append phase, each type's entries are its old entries followed by the admitted products of that type, unused, in enumeration order |
| DepotSpec.AddedAreParsed | src/proctools/products/depot.py:58-73 | only parsed products are admitted, at most one per parsed label; without duplicate rejection every parsed product is |
| DepotSpec.RejectLeavesAllStored | src/proctools/products/depot.py:64-72 | with duplicate rejection, every parsed product is in the depot afterwards (loaded now or already present) |
| DepotSpec.RejectSkipsStored | src/proctools/products/depot.py:64-70 | with duplicate rejection, outcomes whose products are all present add nothing and leave the depot unchanged |
| DepotSpec.SortKeepsContains | src/proctools/products/depot.py:77-85 | co-sorting neither adds nor loses a product of a type |
| DepotSpec.LoadedWellFormed | src/proctools/products/depot.py:54-85 | a load keeps every type listed once in key order, each entry under its own type and each list sorted; the old type order is a prefix of the new one |
| DepotSpec.LoadedEntries | src/proctools/products/depot.py:71-85 | after a load each type holds its old entries plus its admitted products, unused (as multisets) |
| DepotSpec.LoadTwice | src/proctools/products/depot.py:64-70 | loading the same outcomes again with duplicate rejection admits nothing and changes nothing |
| DepotSpec.LoadInTwoCalls | src/proctools/products/depot.py:74-85 | loading `a` then `b` gives the same depot, and admits the same number of products, as loading `a + b` at once |
| DepotSpec.LoadConservation | src/proctools/products/depot.py:71-86 | the number of stored products grows by exactly the count `load` returns |
| DepotSpec.Released | src/proctools/products/depot.py:217-225 | `release`: KeyError for an unknown type; otherwise the result is whether the product is present; nothing changes unless it is; other types never change |
| DepotSpec.ReleasedIsRemove | src/proctools/products/depot.py:205-225 | release succeeds exactly when the depot holds the product; it then removes the product's first entry and its flag together, else the depot is unchanged |
| DepotSpec.ReleasedSortedLists | src/proctools/products/depot.py:223-224 | a release keeps every list sorted, every entry under its own type and the type order intact |
| DepotSpec.ReleaseTwice | src/proctools/products/depot.py:219-225 | a release removes one occurrence; without repeated lids a second release of the same product returns False and changes nothing |
| DepotSpec.RemoveOrdered | src/proctools/products/depot.py:223-224 | removing an entry from an ordered depot keeps it ordered, with the same types and type order |
| DepotSpec.ReloadAfterReleasingAll | src/proctools/products/depot.py:74-85 | after a product is loaded and released, the as-written load raises ValueError (leaving the depot as it was), while the intended load leaves the depot unchanged |
| DepotSpec.CoSortAsWritten | src/proctools/products/depot.py:74-85 | the co-sort loop as written raises, always ValueError, exactly when some listed type holds no entries, and returns the table it leaves behind with the same keys |
| DepotSpec.FirstEmpty | src/proctools/products/depot.py:74-85 | the number of types the co-sort passes before the first known type with no entries: all earlier ones are non-empty, and the one it stops at is empty |
| DepotSpec.CoSortAsWrittenState | src/proctools/products/depot.py:74-85 | the table the as-written co-sort leaves has exactly the types before the first empty one sorted and every other type as it was |
| DepotSpec.CoSortAgrees | src/proctools/products/depot.py:74-85 | over the key order, the as-written co-sort raises exactly when some type is empty and otherwise sorts every type, as SortTable does; either way it leaves the types before the first empty one sorted |
| DepotSpec.LoadAsWritten | src/proctools/products/depot.py:54-86 | `load` as written, with the depot it leaves: it can raise only ValueError, returns the admitted count when it does not, and keeps the keys and key order of the append phase |
| DepotSpec.LoadAsWrittenAgrees | src/proctools/products/depot.py:54-86 | on a well-formed depot the as-written `load` raises exactly when some type is empty after the append phase, and otherwise leaves the intended depot (Loaded); either way the depot it leaves is the appended one with the types before the first empty one sorted |
| DepotSpec.FailedLoadLeaves | src/proctools/products/depot.py:71-85 | after a raising `load`, the type that raised is empty; every appended entry is still stored, unused; the types before it are sorted; it and the types after it keep their appended, unsorted lists; no count is returned |
| DepotSpec.EmptiedTypeFails | src/proctools/products/depot.py:74-86 | for a known type with no entries, the as-written load of nothing raises ValueError and leaves the depot as it was, while the intended load adds nothing and changes nothing |
| DepotSpec.LoadedDistinct | src/proctools/products/depot.py:64-72 | a load with duplicate rejection into a depot that repeats no product keeps every type free of repeated products, through the append phase and the co-sort |
| DepotSpec.RemoveDistinct | src/proctools/products/depot.py:223-224 | a release keeps every type free of repeated products |
| DepotSpec.ReleaseTwiceDistinct | src/proctools/products/depot.py:217-225 | in a depot that repeats no product, a second release of the same product returns False and changes nothing |
| Depot.ProductDepot.constructor | src/proctools/products/depot.py:20-23 | a new depot is empty and valid |
| Depot.ProductDepot.Types | src/proctools/products/depot.py:25-27 | the loaded types, each once, exactly the keys of the product map |
| Depot.ProductDepot.Load | src/proctools/products/depot.py:29-86 | the new depot is the Loaded specification of the old one over the flattened directories; the return value is the number of products admitted |
| Depot.ProductDepot.Admit | src/proctools/products/depot.py:58-73 | one label: appends the product and an unused flag exactly when it is parsed and not a rejected duplicate |
| Depot.ProductDepot.AppendProduct | src/proctools/products/depot.py:71-72 | appending a product and an unused flag to its type's two lists is Add on the view: the type's entries gain the product at the end, and a new type joins the key order |
| Depot.ProductDepot.CoSort | src/proctools/products/depot.py:74-85 | co-sorting the appended lists yields the Loaded specification and restores the depot invariant |
| Depot.CoSortLists | src/proctools/products/depot.py:74-85 | every type's products and flags are sorted together by product rank |
| Depot.ProductDepot.Retrieve | src/proctools/products/depot.py:88-128 | ValueError when both flags are off; KeyError for an unknown type; else the Selection of one type or of every type with a selection, and the flags Marked; products never change |
| Depot.SelectFrom | src/proctools/products/depot.py:119-127 | the loop over one type returns its Selection and its Marked flags |
| Depot.SelectEach | src/proctools/products/depot.py:117-128 | the loop over all types returns SelectAll and MarkAll |
| Depot.SelectAllMembers | src/proctools/products/depot.py:117-128 | a type appears in a whole-depot retrieval exactly when something of it was selected, with its Selection as value |
| Depot.ProductDepot.Count | src/proctools/products/depot.py:130-150 | KeyError for an unknown type (checked first); ValueError when both flags are off; else the number of products with an asked-for flag |
| Depot.CountSplit | src/proctools/products/depot.py:145-150 | unused count plus used count equals the count of both |
| Depot.ProductDepot.Next | src/proctools/products/depot.py:152-173 | KeyError for an unknown type; else the first unused product, now marked used (one unused fewer), or None with nothing changed |
| Depot.ProductDepot.Match | src/proctools/products/depot.py:175-203 | KeyError for an unknown type; else the first candidate that matches, marked used whatever its flag, or None with nothing changed |
| Depot.MatchTwice | src/proctools/products/depot.py:181-183 | two `match` calls with the same target return the same result |
| Depot.ProductDepot.Release | src/proctools/products/depot.py:205-225 | the result and the new lists are exactly Released of the old lists; the depot invariant and type order are kept |
| Loader.GatherLists | src/proctools/products/loader.py:34-42 | after the append loop, each type's list is its old list plus the parsed products of that type in enumeration order; no duplicate is rejected |
| Loader.GatherWellFormed | src/proctools/products/loader.py:40-42 | a new type enters the map (and the type order) once, at the end; entries stay under their own type |
| Loader.LoadedLists | src/proctools/products/loader.py:22-47 | after a load each type's list is sorted and holds its old products plus the new parsed ones (as multisets) |
| Loader.LoadedSortedLists | src/proctools/products/loader.py:40-46 | a load keeps every list sorted and every type listed once, extending the type order |
| Loader.LoadTwiceDoubles | src/proctools/products/loader.py:40-42 | starting from a fresh loader, loading the same directory twice stores each parsed product twice, doubling every type's list |
| Loader.GatherOutcomes | src/proctools/products/loader.py:34-42 | the append loop computes Gather |
| Loader.SortEach | src/proctools/products/loader.py:43-44 | the sort loop sorts every list in place: the result is SortAll |
| Loader.ResetEach | src/proctools/products/loader.py:45-46 | the usage loop gives every type `[False] * len(products)`, for old and new products alike |
| Loader.ProductLoader.constructor | src/proctools/products/loader.py:16-20 | a new loader is empty and not initialised |
| Loader.ProductLoader.LoadProducts | src/proctools/products/loader.py:22-47 | the new lists are the loaded catalogue of the old ones; every usage flag is reset to False; the loader is initialised |
| Loader.ProductLoader.All | src/proctools/products/loader.py:49-65 | KeyError for an unknown type; else the whole list, with every flag of the type set to True |
| Loader.AllUsedExhausted | src/proctools/products/loader.py:63-65 | after `all`, `next` finds no unused product and the unused count is zero |
| Loader.ProductLoader.Next | src/proctools/products/loader.py:67-89 | KeyError for an unknown type, never RuntimeError; else the first unused product marked used, or None with nothing changed |
| Loader.ProductLoader.FindApplicable | src/proctools/products/loader.py:91-121 | RuntimeError before any load (checked first); KeyError for an unknown type; else the first applicable candidate marked used, or None |
| Loader.ProductLoader.LogUnused | src/proctools/products/loader.py:128-141 | RuntimeError before any load; else the lids of the unused products, type by type and position by position, with no state change |
| Loader.CollectUnused | src/proctools/products/loader.py:136-141 | the nested reporting loop computes UnusedLids |
| Loader.UnusedLidsMembers | src/proctools/products/loader.py:136-141 | a lid is reported exactly when some product carrying it is unused |
| Loader.CheckOrder | src/proctools/products/loader.py:143-149 | on a fresh loader `next` raises KeyError (type checked first) while `find_applicable` raises RuntimeError (initialisation checked first) |
| Status.Digits | src/proctools/cli/status.py:11 | the decimal digits of a natural number, at least one, with no leading zero, reading back as the number |
| Status.Decimal | src/proctools/cli/status.py:11 | Python's `str` of the code: a leading minus exactly for negative numbers, no spaces, and the text reads back as the same integer |
| Status.Text | src/proctools/cli/status.py:10-11 | `__str__`: the printed form `"<code> (<name>)"` reads back as the same code and name, whatever the name holds |
| Status.TextInjective | src/proctools/cli/status.py:10-11 | two exit codes print alike only when they are equal |
| Status.BaseClass | src/proctools/cli/status.py:24-27 | the `ExitCodes` class body: an ExitCodes class whose only base is `object`, whose entries at positions 2 to 4 are SUCCESS, INTERNAL_ERROR and CLI_ERROR with their codes, and which has no other public entry |
| Status.BaseClassValid | src/proctools/cli/status.py:24-27 | `ExitCodes` on its own is well formed and passes every check of the walk: its three codes have distinct names and numbers |
| Status.AncestryWithin | src/proctools/cli/status.py:101-104 | a set holding the class and the bases of its members holds the whole ancestry |
| Status.ExplainsInvalid | src/proctools/cli/status.py:69-99 | each refusal reason (impure ancestor, non-ExitCode attribute, repeated name, repeated code) contradicts validity |
| Status.Reserved | src/proctools/cli/status.py:25-27 | in a valid definition deriving from `ExitCodes`, no other class uses SUCCESS, INTERNAL_ERROR, CLI_ERROR or the codes 0, 1, 2 |
| Status.RecordedValid | src/proctools/cli/status.py:85-99 | when the walk has recorded every public entry of exactly the ancestry, names and codes are unique and all entries are exit codes |
| Status.CheckAttributes | src/proctools/cli/status.py:76-99 | skips private names; refuses a non-ExitCode, an already defined name or an already used code, naming the classes involved; else records every public entry |
| Status.WalkEnd | src/proctools/cli/status.py:60-104 | when the stack empties, the walk has examined exactly the ancestry and the definition is valid |
| Status.InitSubclass | src/proctools/cli/status.py:29-104 | accepts exactly when Valid; every refusal is justified by classes of the ancestry; each class is examined at most once, `object` never, and the whole ancestry on acceptance |
| Status.Instantiate | src/proctools/cli/status.py:106-113 | no enumeration class yields an instance: asking for one is refused (RuntimeError) |

## Left out

- Filesystem search (`glob`/`rglob`, the `recursive` flag, `expanduser`) and label parsing are not modelled. A directory is given as the sequence of parse outcomes in enumeration order: a parsed product, an unsupported type (TypeError) or a malformed label (ExpatError).
- The order of a product type (`DataProduct.__lt__`, by lid or acquisition time) is an abstract integer rank. `matches`, `is_applicable` and the retrieval filter are function parameters assumed to have no side effects. The concrete product classes, `LabelMeta`, `MultiData` and `KeyTable` are not part of this model.
- Product identity: Python compares product objects by identity in `in` and `list.index`, because the product classes define no `__eq__`. The model identifies a product by its logical identifier, so two objects loaded from labels with the same lid count as the same product.
- Logging (warnings, debug records) and the text of every exception message are left out. `log_unused` returns the lids it would log, and its `warning` level argument is dropped.
- `ProductLoader.find_all_applicable` only raises NotImplementedError, so it is not modelled.
- Aliasing is not modelled. The loader's `all` returns the stored list itself, but the model returns a value, so changes made later through the returned list are not captured.
- Loader.ProductLoader.LogUnused: iterates the product map's type order. The usage map's key order is the same in the code, because both maps gain a type in the same load.
- Status.InitSubclass: does not state which violation is reported when several exist. That depends on the order of the stack walk, and the model proves only that the reason is justified.
- Status.InitSubclass: `issubclass(cls, ExitCodes)` is taken from a flag in each class record, not computed from the hierarchy. Class identities are numbers, and classes are plain records, not Python class objects.
- Depot.ProductDepot.Load: a load is modelled as all-or-nothing. In the code, an exception from `DataProduct.from_file` other than TypeError or ExpatError (an OSError while reading, say) leaves the loop half-way, with the products so far appended to unsorted lists. The model covers only loads that complete.
- Loader.ProductLoader.LoadProducts: modelled as all-or-nothing for the same reason. In the code, an exception from `from_file` other than TypeError or ExpatError leaves products in the map while the loader is still uninitialised. After that, `next` would raise RuntimeError and `all` would return products. The model's invariant that an uninitialised loader is empty holds only for loads that complete.
- Depot.ProductDepot.Retrieve: the result for all types is a map from type to products, which drops the key order of the dict the code returns. That order is the depot's type order, restricted to types with a selection.
- The tests' usage-summary and marking helpers are not part of the depot code and are not modelled. Neither are the command-line runners, MD5 checks, package metadata and the XPath table.

## Findings

| source | as written | input that shows it | evidently intended | confidence | as-written member | corrected member |
|---|---|---|---|---|---|---|
| src/proctools/products/depot.py:74-85 | the co-sort unpacks `zip(*sorted(zip(products, used)))` into two lists; for a type whose list is empty the unpacking receives no values and raises ValueError; the types before it are already sorted, the products this load appended stay stored (the types after it unsorted), and the count is lost | load one product, `release` it, then call `load` again (even on an empty directory) | a type left with no products keeps two empty lists and the load succeeds | high, not executed | DepotSpec.ReloadAfterReleasingAll | Depot.ProductDepot.Load |
