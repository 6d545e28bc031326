# Stock catalog: sorted, name-keyed item list (Dafny model)

This project models the in-memory stock catalog of an inventory tracker, the class
`StockManager` of `domain/stock_manager.py`. The catalog keeps two parallel lists:

- `estoque`, the item records, in ascending name order;
- `nomes_itens`, their names.

The constructor builds both lists by inserting each input item at the lower bound
of its name. `busca_binaria` is that lower-bound binary search over the names.
`buscar_por_nome` is an exact-match binary search over the items. `adicionar_item`
inserts a new item into the item list only.

Files:

- `lexicographic.dfy` (module `Lexicographic`): Python's `<` on strings. It is a
  lexicographic comparison by code point, in which a proper prefix is the smaller
  string. The module defines it as `Less` and proves that it is a strict total order.
- `catalog.dfy` (module `Catalog`): the value-level specification. It defines the
  item record, the names of a list of items, sortedness, and `CountLess`, the number
  of names less than a query, which is the reference definition of the lower bound.
  It also defines `InsertAt` (Python's `list.insert`), one step of sorted insertion,
  and `Build`, the catalog that the constructor builds. The lemmas say that the
  built catalog is sorted, is a permutation of the input, and holds equal-named
  items in reverse input order.
- `stock.dfy` (module `Stock`): the class `StockManager`. Its two `seq` fields are
  reassigned in place, and its methods are `while` loops proved against the
  `Catalog` functions.

Python compares names with `<` and `==`. The model uses `Less` and sequence
equality on `string`. Dafny's `char` is a Unicode scalar value, so `Less` compares
code points as Python does. The integer arithmetic of the searches (`//` on
non-negative indices) matches Dafny's `/`.

## Model

| member | source | states |
|---|---|---|
| `Lexicographic.LessIrreflexive` | domain/stock_manager.py:27 | no name is less than itself |
| `Lexicographic.LessTransitive` | domain/stock_manager.py:27 | the string order used by the searches is transitive |
| `Lexicographic.LessTotal` | domain/stock_manager.py:46-53 | two names are equal or one is less than the other, so the three-way branch of the exact search is exhaustive |
| `Lexicographic.LessIsStrictTotalOrder` | domain/stock_manager.py:27 | the name order is a strict total order (irreflexive, transitive, connected) |
| `Catalog.SplitIsCountLess` | domain/stock_manager.py:17-32 | any position that separates the names less than the query from the rest is the number of names less than the query, sorted or not |
| `Catalog.SortedSplitsAtCountLess` | domain/stock_manager.py:17-32 | in a sorted names list the number of names less than the query is such a separating position: the leftmost insertion point |
| `Catalog.InsertAt` | domain/stock_manager.py:62 | `list.insert(k, x)` gives a list one longer, with `x` at `k`, the items before `k` unchanged and the items from `k` on shifted one place right |
| `Catalog.NamesInsertAt` | domain/stock_manager.py:12-13 | inserting an item at `k` and its name at `k` keeps the names list equal to the items' names |
| `Catalog.InsertAtSplitKeepsOrder` | domain/stock_manager.py:11-13 | inserting a name at its separating position keeps a sorted names list sorted |
| `Catalog.SortedInsertPlacement` | domain/stock_manager.py:9-13 | on a sorted catalog one insertion step puts the item after every item whose name is less and before every other, and the catalog stays sorted |
| `Catalog.SortedInsertMultiset` | domain/stock_manager.py:12 | an insertion step adds exactly the new item to the catalog's multiset of items |
| `Catalog.Build` | domain/stock_manager.py:5-13 | the built catalog has as many items as the input |
| `Catalog.BuildSorted` | domain/stock_manager.py:5-13 | the built catalog is sorted by name |
| `Catalog.BuildPermutation` | domain/stock_manager.py:8-13 | the built catalog is a permutation of the input list |
| `Catalog.InsertAtWithName` | domain/stock_manager.py:12 | the items with a given name after an insertion are those before the position, the new item if it has that name, and those after, in that order |
| `Catalog.BeforeLowerBound` | domain/stock_manager.py:27-31 | in a sorted catalog no item before the lower bound of a name has that name |
| `Catalog.SortedInsertWithName` | domain/stock_manager.py:11-12 | a new item is inserted in front of all items already present with the same name, and the other names' items keep their order |
| `Catalog.BuildReversesEqualNames` | domain/stock_manager.py:8-13 | for every name, the built catalog's items with that name are the input's items with that name in reverse order |
| `Catalog.AdicionarItemLosesOrder` | domain/stock_manager.py:57-62 | from the catalog of one item "b", adding "c" and then "d" gives the item list b, d, c, which is not sorted |
| `Stock.StockManager.constructor` | domain/stock_manager.py:2-13 | both lists have the input's length, the names list mirrors the items' names, the catalog is sorted, is a permutation of the input, and holds equal-named items in reverse input order |
| `Stock.StockManager.BuscaBinaria` | domain/stock_manager.py:17-32 | the result lies in `0..len(nomes_itens)`; the loop terminates because the window shrinks; on a sorted names list every name before the result is less than the query and every name from it on is not, so the result is the number of names less than the query; neither list changes |
| `Stock.StockManager.BuscarPorNome` | domain/stock_manager.py:34-55 | the loop terminates because the window shrinks; a returned item is in the catalog and has the queried name; on a catalog sorted by name an item is returned exactly when some item has the queried name; neither list changes |
| `Stock.StockManager.InserirOrdenado` | domain/stock_manager.py:9-13 | one iteration of the constructor's loop inserts the item and its name at the lower bound, so the two lists stay in step and sorted |
| `Stock.StockManager.AdicionarItem` | domain/stock_manager.py:57-62 | the item list grows by one, with the new item at the lower bound of its name in the names list and the other items in their old order; the names list is unchanged; if the names list mirrored the items before the call, the item list is still sorted afterwards |

The class invariant `Valid()` says that the names list is sorted and no longer than
the item list. The constructor establishes it, and every method that changes the
state preserves it. `AdicionarItem` requires it. `BuscaBinaria` and `BuscarPorNome`
require nothing, and state their lower-bound and completeness results under a
sortedness hypothesis.

## Left out

- `mostrar_estoque` (domain/stock_manager.py:64-83) and the messages that the
  constructor and `adicionar_item` write to the console: console output only.
- The interactive menu in `app.py`: console input and output, loading the initial
  items from a JSON file, parsing prices and budgets, and validating dates. It is
  input/output glue around the catalog.
- The operations that `app.py` calls but that are not in `domain/stock_manager.py`:
  critical items, the replenishment queue, the expiry stack, sequential search,
  merge sort and quicksort, and the replenishment optimizer. Their code is not part
  of this model.
- The item fields other than `itemName` (id, category, quantity, location, expiry
  date, unit price, ideal quantity). They are carried in `Catalog.Item`, and nothing
  in the catalog reads them. The price is a Python float and is modelled as a `real`.
- Aliasing: Python stores the same dictionary object in the input list and in
  `estoque`. The model treats items as values.
- Python's `list.insert` with an index past the end of the list appends at the end.
  That case cannot arise here: the insertion index is at most the length of the
  names list, and `Valid()` keeps that no longer than the item list.

## Findings

| source | as written | input that shows it | evidently intended | confidence | as-written member | corrected member |
|---|---|---|---|---|---|---|
| domain/stock_manager.py:57-62 | `adicionar_item` inserts the new item into `estoque` at the lower bound found in `nomes_itens`, but does not insert its name into `nomes_itens`. Later additions therefore search a stale names list, and the item list can lose its order. `buscar_por_nome` is then no longer sure to find an item that is present. | Build the catalog from one item named "b", then add "c", then "d": the item list becomes b, d, c. | Insert the name into `nomes_itens` at the same position, as the constructor's loop does, so that the catalog stays sorted after every insertion. | high, not executed | `Catalog.AdicionarItemLosesOrder` | `Stock.StockManager.InserirOrdenado` |

`Stock.StockManager.AdicionarItem` keeps the behaviour as written. The constructor
calls `Stock.StockManager.InserirOrdenado`, the corrected insertion. That method
keeps both lists in step and sorted.
