/** The value-level vocabulary of the stock catalog: item records, the name order,
    the lower-bound position of a name, insertion into a list, and the catalog that
    repeated sorted insertion builds from a list of items. */
module Catalog {
  import opened Lexicographic

  datatype Option<T> = None | Some(value: T)

  /** An item record. Only `itemName` is read by the catalog; the other fields are
      carried along unchanged. */
  datatype Item = Item(
    id: int,
    itemName: string,
    category: string,
    quantity: int,
    location: string,
    expiryDate: Option<string>,
    unityPrice: real,
    idealQuantity: int)

  /** The names of a list of items, position by position. */
  function Names(s: seq<Item>): (r: seq<string>)
    ensures |r| == |s|
    ensures forall i :: 0 <= i < |s| ==> r[i] == s[i].itemName
  {
    seq(|s|, i requires 0 <= i < |s| => s[i].itemName)
  }

  /** Ascending with duplicates allowed: no name is less than one before it. */
  ghost predicate Sorted(names: seq<string>) {
    forall i, j :: 0 <= i < j < |names| ==> !Less(names[j], names[i])
  }

  ghost predicate SortedByName(s: seq<Item>) {
    Sorted(Names(s))
  }

  /** Reference definition of the lower bound: how many names are less than `q`. */
  function CountLess(names: seq<string>, q: string): (n: nat)
    ensures n <= |names|
  {
    if names == [] then 0
    else CountLess(names[..|names| - 1], q) + (if Less(names[|names| - 1], q) then 1 else 0)
  }

  /** Position `k` separates the names less than `q` from the names not less than `q`. */
  ghost predicate SplitsAt(names: seq<string>, q: string, k: nat) {
    && k <= |names|
    && (forall i :: 0 <= i < k ==> Less(names[i], q))
    && (forall i :: k <= i < |names| ==> !Less(names[i], q))
  }

  /** A split position, when there is one, is the number of names less than `q`,
      whether or not the list is sorted. */
  lemma {:induction false} SplitIsCountLess(names: seq<string>, q: string, k: nat)
    requires SplitsAt(names, q, k)
    ensures k == CountLess(names, q)
  {
    if names != [] {
      var init := names[..|names| - 1];
      if k == |names| {
        SplitIsCountLess(init, q, k - 1);
      } else {
        SplitIsCountLess(init, q, k);
      }
    }
  }

  /** In a sorted list the number of names less than `q` is a split position:
      the leftmost place where `q` can go. */
  lemma {:induction false} SortedSplitsAtCountLess(names: seq<string>, q: string)
    requires Sorted(names)
    ensures SplitsAt(names, q, CountLess(names, q))
  {
    if names != [] {
      var n := |names|;
      var init := names[..n - 1];
      var last := names[n - 1];
      assert Sorted(init);
      SortedSplitsAtCountLess(init, q);
      if Less(last, q) {
        forall i | 0 <= i < n - 1
          ensures Less(names[i], q)
        {
          AtMostThenLess(names[i], last, q);
        }
        SplitIsCountLess(init, q, n - 1);
      }
    }
  }

  /** Python's `list.insert(k, x)` for an index within the list. */
  function InsertAt<T>(s: seq<T>, k: nat, x: T): (r: seq<T>)
    requires k <= |s|
    ensures |r| == |s| + 1
    ensures r[k] == x
    ensures r[..k] == s[..k] && r[k + 1..] == s[k..]
  {
    s[..k] + [x] + s[k..]
  }

  lemma NamesInsertAt(s: seq<Item>, k: nat, x: Item)
    requires k <= |s|
    ensures Names(InsertAt(s, k, x)) == InsertAt(Names(s), k, x.itemName)
  {
  }

  /** Inserting `q` at its split position keeps a sorted list sorted. */
  lemma InsertAtSplitKeepsOrder(names: seq<string>, q: string, k: nat)
    requires Sorted(names) && SplitsAt(names, q, k)
    ensures Sorted(InsertAt(names, k, q))
  {
    var r := InsertAt(names, k, q);
    forall i, j | 0 <= i < j < |r|
      ensures !Less(r[j], r[i])
    {
      if j == k {
        LessAsymmetric(r[i], q);
      } else if i != k {
        var i' := if i < k then i else i - 1;
        var j' := if j < k then j else j - 1;
        assert r[i] == names[i'] && r[j] == names[j'];
      }
    }
  }

  /** One step of building the catalog: put `x` before the first item whose name
      is not less than its own. */
  function SortedInsert(s: seq<Item>, x: Item): (r: seq<Item>)
  {
    InsertAt(s, CountLess(Names(s), x.itemName), x)
  }

  /** The catalog built from `xs` by inserting its items one after another. */
  function Build(xs: seq<Item>): (r: seq<Item>)
    ensures |r| == |xs|
  {
    if xs == [] then []
    else SortedInsert(Build(xs[..|xs| - 1]), xs[|xs| - 1])
  }

  /** The item `x` lands in front of every item whose name is not less than its own,
      after every item whose name is less, and the order stays sorted. */
  lemma SortedInsertPlacement(s: seq<Item>, x: Item)
    requires SortedByName(s)
    ensures var k := CountLess(Names(s), x.itemName);
      && SortedInsert(s, x) == InsertAt(s, k, x)
      && SplitsAt(Names(s), x.itemName, k)
      && SortedByName(SortedInsert(s, x))
  {
    var k := CountLess(Names(s), x.itemName);
    SortedSplitsAtCountLess(Names(s), x.itemName);
    InsertAtSplitKeepsOrder(Names(s), x.itemName, k);
    NamesInsertAt(s, k, x);
  }

  lemma SortedInsertMultiset(s: seq<Item>, x: Item)
    ensures multiset(SortedInsert(s, x)) == multiset(s) + multiset{x}
  {
    var k := CountLess(Names(s), x.itemName);
    assert s == s[..k] + s[k..];
  }

  lemma {:induction false} BuildSorted(xs: seq<Item>)
    ensures SortedByName(Build(xs))
  {
    if xs != [] {
      BuildSorted(xs[..|xs| - 1]);
      SortedInsertPlacement(Build(xs[..|xs| - 1]), xs[|xs| - 1]);
    }
  }

  /** The built catalog holds exactly the input items, each as often as in the input. */
  lemma {:induction false} BuildPermutation(xs: seq<Item>)
    ensures multiset(Build(xs)) == multiset(xs)
  {
    if xs != [] {
      var init := xs[..|xs| - 1];
      BuildPermutation(init);
      SortedInsertMultiset(Build(init), xs[|xs| - 1]);
      assert xs == init + [xs[|xs| - 1]];
    }
  }

  /** The items of `s` named `n`, in their order in `s`. */
  function WithName(s: seq<Item>, n: string): (r: seq<Item>)
  {
    if s == [] then []
    else WithName(s[..|s| - 1], n) + (if s[|s| - 1].itemName == n then [s[|s| - 1]] else [])
  }

  function Reverse<T>(s: seq<T>): (r: seq<T>)
  {
    if s == [] then [] else [s[|s| - 1]] + Reverse(s[..|s| - 1])
  }

  lemma {:induction false} WithNameAppend(a: seq<Item>, b: seq<Item>, n: string)
    ensures WithName(a + b, n) == WithName(a, n) + WithName(b, n)
  {
    if b == [] {
      assert a + b == a;
    } else {
      var b' := b[..|b| - 1];
      var last := b[|b| - 1];
      var tail := if last.itemName == n then [last] else [];
      assert (a + b)[..|a + b| - 1] == a + b';
      assert (a + b)[|a + b| - 1] == last;
      WithNameAppend(a, b', n);
      calc {
        WithName(a + b, n);
        WithName(a + b', n) + tail;
        WithName(a, n) + WithName(b', n) + tail;
        WithName(a, n) + (WithName(b', n) + tail);
        WithName(a, n) + WithName(b, n);
      }
    }
  }

  lemma {:induction false} WithNameNone(s: seq<Item>, n: string)
    requires forall i :: 0 <= i < |s| ==> s[i].itemName != n
    ensures WithName(s, n) == []
  {
    if s != [] {
      WithNameNone(s[..|s| - 1], n);
    }
  }

  lemma WithNameSingle(x: Item, n: string)
    ensures WithName([x], n) == if x.itemName == n then [x] else []
  {
    assert [x][..0] == [];
  }

  lemma InsertAtWithName(s: seq<Item>, k: nat, x: Item, n: string)
    requires k <= |s|
    ensures WithName(InsertAt(s, k, x), n)
         == WithName(s[..k], n) + (if x.itemName == n then [x] else []) + WithName(s[k..], n)
    ensures WithName(s, n) == WithName(s[..k], n) + WithName(s[k..], n)
  {
    var s1, s2 := s[..k], s[k..];
    assert s == s1 + s2;
    assert InsertAt(s, k, x) == (s1 + [x]) + s2;
    WithNameAppend(s1, s2, n);
    WithNameAppend(s1 + [x], s2, n);
    WithNameAppend(s1, [x], n);
    WithNameSingle(x, n);
  }

  /** No item before the lower bound of `n` is named `n`. */
  lemma BeforeLowerBound(s: seq<Item>, n: string)
    requires SortedByName(s)
    ensures WithName(s[..CountLess(Names(s), n)], n) == []
  {
    var k := CountLess(Names(s), n);
    SortedSplitsAtCountLess(Names(s), n);
    forall i | 0 <= i < k
      ensures s[..k][i].itemName != n
    {
      assert Names(s)[i] == s[i].itemName;
      LessIrreflexive(n);
    }
    WithNameNone(s[..k], n);
  }

  /** A new item goes in front of the items already there with the same name. */
  lemma SortedInsertWithName(s: seq<Item>, x: Item, n: string)
    requires SortedByName(s)
    ensures WithName(SortedInsert(s, x), n)
         == (if x.itemName == n then [x] else []) + WithName(s, n)
  {
    var k := CountLess(Names(s), x.itemName);
    InsertAtWithName(s, k, x, n);
    if x.itemName == n {
      BeforeLowerBound(s, n);
    }
  }

  /** Items with equal names end up in the reverse of their input order, because
      each one is inserted in front of those with the same name already present. */
  lemma {:induction false} BuildReversesEqualNames(xs: seq<Item>, n: string)
    ensures WithName(Build(xs), n) == Reverse(WithName(xs, n))
  {
    if xs != [] {
      var init := xs[..|xs| - 1];
      var x := xs[|xs| - 1];
      var w := WithName(init, n);
      var wx := if x.itemName == n then [x] else [];
      BuildReversesEqualNames(init, n);
      BuildSorted(init);
      SortedInsertWithName(Build(init), x, n);
      assert WithName(Build(xs), n) == wx + Reverse(w);
      assert WithName(xs, n) == w + wx;
      if x.itemName == n {
        assert (w + [x])[..|w|] == w;
        assert Reverse(w + [x]) == [x] + Reverse(w);
      } else {
        assert w + wx == w;
      }
    }
  }

  /** What `adicionar_item` does to the item list: insert `x` at the lower bound
      of its name in the separately kept list of names `nomes`. */
  function AddUnsynced(estoque: seq<Item>, nomes: seq<string>, x: Item): (r: seq<Item>)
    requires |nomes| <= |estoque|
  {
    InsertAt(estoque, CountLess(nomes, x.itemName), x)
  }

  /** Two additions after the names list has been built are enough to break the order
      of the item list: starting from the catalog of one item "b", adding "c" and then
      "d" gives b, d, c, because the name list still only holds "b". */
  lemma AdicionarItemLosesOrder(b: Item, c: Item, d: Item)
    requires b.itemName == "b" && c.itemName == "c" && d.itemName == "d"
    ensures var e0 := Build([b]);
      && Names(e0) == ["b"]
      && AddUnsynced(AddUnsynced(e0, Names(e0), c), Names(e0), d) == [b, d, c]
      && !SortedByName([b, d, c])
  {
    var e0 := Build([b]);
    assert e0 == [b];
    assert Names(e0) == ["b"];
    assert Less("b", "c") && Less("b", "d");
    assert CountLess(["b"], "c") == 1 by { assert ["b"][..0] == []; }
    assert CountLess(["b"], "d") == 1 by { assert ["b"][..0] == []; }
    var e1 := AddUnsynced(e0, Names(e0), c);
    assert e1 == [b, c];
    var names := Names([b, d, c]);
    assert names[1] == "d" && names[2] == "c";
    assert Less("c", "d");
  }
}
