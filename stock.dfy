/** The stock manager: a catalog of items kept in ascending name order, with a
    separate list of their names that the binary searches probe. */
module Stock {
  import opened Lexicographic
  import opened Catalog

  class StockManager {
    /** The item records, in catalog order. */
    var estoque: seq<Item>
    /** The names the lower-bound search probes; filled alongside `estoque` while
        the catalog is built and not updated by `AdicionarItem`. */
    var nomesItens: seq<string>

    /** Holds from construction on: the names list is sorted and never longer than
        the item list. */
    ghost predicate Valid()
      reads this
    {
      Sorted(nomesItens) && |nomesItens| <= |estoque|
    }

    /** The names list is exactly the list of the items' names. */
    ghost predicate Mirrors()
      reads this
    {
      Names(estoque) == nomesItens
    }

    /** Builds the catalog by inserting each item of `listaDeItens`, in input order,
        at the lower bound of its name. */
    constructor (listaDeItens: seq<Item>)
      ensures Valid() && Mirrors()
      ensures estoque == Build(listaDeItens)
      ensures |estoque| == |listaDeItens| && |nomesItens| == |listaDeItens|
      ensures forall i :: 0 <= i < |estoque| ==> nomesItens[i] == estoque[i].itemName
      ensures SortedByName(estoque)
      ensures multiset(estoque) == multiset(listaDeItens)
      ensures forall n :: WithName(estoque, n) == Reverse(WithName(listaDeItens, n))
    {
      estoque := [];
      nomesItens := [];
      new;
      var i := 0;
      while i < |listaDeItens|
        invariant i <= |listaDeItens|
        invariant Valid() && Mirrors()
        invariant estoque == Build(listaDeItens[..i])
      {
        assert listaDeItens[..i + 1][..i] == listaDeItens[..i];
        InserirOrdenado(listaDeItens[i]);
        i := i + 1;
      }
      assert listaDeItens[..i] == listaDeItens;
      BuildPermutation(listaDeItens);
      forall n {
        BuildReversesEqualNames(listaDeItens, n);
      }
    }

    /** The lower-bound binary search over `nomesItens`: the leftmost position whose
        name is not less than `nomeItem`. */
    method BuscaBinaria(nomeItem: string) returns (pos: nat)
      ensures pos <= |nomesItens|
      ensures Sorted(nomesItens) ==> SplitsAt(nomesItens, nomeItem, pos)
      ensures Sorted(nomesItens) ==> pos == CountLess(nomesItens, nomeItem)
    {
      var esquerda, direita := 0, |nomesItens|;
      while esquerda < direita
        invariant 0 <= esquerda <= direita <= |nomesItens|
        invariant Sorted(nomesItens) ==>
          forall i :: 0 <= i < esquerda ==> Less(nomesItens[i], nomeItem)
        invariant Sorted(nomesItens) ==>
          forall i :: direita <= i < |nomesItens| ==> !Less(nomesItens[i], nomeItem)
        decreases direita - esquerda
      {
        var meio := (esquerda + direita) / 2;
        if Less(nomesItens[meio], nomeItem) {
          if Sorted(nomesItens) {
            forall i | esquerda <= i < meio
              ensures Less(nomesItens[i], nomeItem)
            {
              AtMostThenLess(nomesItens[i], nomesItens[meio], nomeItem);
            }
          }
          esquerda := meio + 1;
        } else {
          if Sorted(nomesItens) {
            forall i | meio < i < direita
              ensures !Less(nomesItens[i], nomeItem)
            {
              AtMostTransitive(nomeItem, nomesItens[meio], nomesItens[i]);
            }
          }
          direita := meio;
        }
      }
      pos := esquerda;
      if Sorted(nomesItens) {
        SplitIsCountLess(nomesItens, nomeItem, pos);
      }
    }

    /** The exact-match binary search over `estoque`: an item named `nomeItem`, or
        `None`. On a catalog sorted by name, `None` means no item has that name. */
    method BuscarPorNome(nomeItem: string) returns (r: Option<Item>)
      ensures r.Some? ==> r.value in estoque && r.value.itemName == nomeItem
      ensures SortedByName(estoque) ==> (r.Some? <==> nomeItem in Names(estoque))
    {
      var esquerda, direita := 0, |estoque| - 1;
      while esquerda <= direita
        invariant 0 <= esquerda <= direita + 1 <= |estoque|
        invariant SortedByName(estoque) ==>
          forall i :: 0 <= i < esquerda ==> Less(estoque[i].itemName, nomeItem)
        invariant SortedByName(estoque) ==>
          forall i :: direita < i < |estoque| ==> Less(nomeItem, estoque[i].itemName)
        decreases direita - esquerda
      {
        var meio := (esquerda + direita) / 2;
        var nomeMeio := estoque[meio].itemName;
        if nomeMeio == nomeItem {
          assert Names(estoque)[meio] == nomeItem;
          return Some(estoque[meio]);
        } else if Less(nomeMeio, nomeItem) {
          if SortedByName(estoque) {
            forall i | esquerda <= i < meio
              ensures Less(estoque[i].itemName, nomeItem)
            {
              assert Names(estoque)[i] == estoque[i].itemName;
              AtMostThenLess(estoque[i].itemName, nomeMeio, nomeItem);
            }
          }
          esquerda := meio + 1;
        } else {
          if SortedByName(estoque) {
            LessTotal(nomeMeio, nomeItem);
            forall i | meio < i <= direita
              ensures Less(nomeItem, estoque[i].itemName)
            {
              assert Names(estoque)[i] == estoque[i].itemName;
              LessThenAtMost(nomeItem, nomeMeio, estoque[i].itemName);
            }
          }
          direita := meio - 1;
        }
      }
      if SortedByName(estoque) {
        forall i | 0 <= i < |estoque|
          ensures Names(estoque)[i] != nomeItem
        {
          LessIrreflexive(nomeItem);
        }
      }
      return None;
    }

    /** One step of the constructor's loop: insert `item` into both lists at the
        lower bound of its name, so that they stay in step and sorted. */
    method InserirOrdenado(item: Item)
      requires Valid() && Mirrors()
      modifies this
      ensures Valid() && Mirrors()
      ensures estoque == SortedInsert(old(estoque), item)
      ensures SortedByName(estoque)
    {
      var nome := item.itemName;
      var pos := BuscaBinaria(nome);
      NamesInsertAt(estoque, pos, item);
      SortedInsertPlacement(estoque, item);
      estoque := InsertAt(estoque, pos, item);
      nomesItens := InsertAt(nomesItens, pos, nome);
    }

    /** Inserts `novoItem` into `estoque` at the lower bound of its name in
        `nomesItens`, and leaves `nomesItens` as it was. */
    method AdicionarItem(novoItem: Item)
      requires Valid()
      modifies this
      ensures Valid()
      ensures nomesItens == old(nomesItens)
      ensures estoque == AddUnsynced(old(estoque), nomesItens, novoItem)
      ensures |estoque| == |old(estoque)| + 1
      ensures old(Mirrors()) ==> estoque == SortedInsert(old(estoque), novoItem)
      ensures old(Mirrors()) ==> SortedByName(estoque)
    {
      var pos := BuscaBinaria(novoItem.itemName);
      if Mirrors() {
        SortedInsertPlacement(estoque, novoItem);
      }
      estoque := InsertAt(estoque, pos, novoItem);
    }
  }
}
