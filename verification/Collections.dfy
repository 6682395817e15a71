/** Notions about lists and maps that several parts of the model share. */
module Collections {
  function Min(a: int, b: int): int {
    if a < b then a else b
  }

  predicate Distinct<T(==)>(list: seq<T>) {
    forall i, j :: 0 <= i < j < |list| ==> list[i] != list[j]
  }

  /** The list has every element of the set once. */
  predicate Enumerates<T(==)>(list: seq<T>, elements: set<T>) {
    && Distinct(list)
    && (forall x :: x in list ==> x in elements)
    && (forall x :: x in elements ==> x in list)
  }

  lemma {:induction false} EnumerationSize<T>(list: seq<T>, elements: set<T>)
    requires Enumerates(list, elements)
    ensures |list| == |elements|
  {
    if list == [] {
      assert elements == {};
    } else {
      var n := |list| - 1;
      assert list == list[..n] + [list[n]];
      EnumerationSize(list[..n], elements - {list[n]});
    }
  }

  /** The lists one after the other. */
  function Flatten<T>(lists: seq<seq<T>>): seq<T> {
    if lists == [] then [] else Flatten(lists[..|lists| - 1]) + lists[|lists| - 1]
  }

  /** The keys of a store, or the names in a directory, each once, in some order. */
  method Keys<V>(m: map<string, V>) returns (keys: seq<string>)
    ensures Enumerates(keys, m.Keys)
  {
    keys := [];
    var left := m.Keys;
    while left != {}
      invariant left <= m.Keys
      invariant forall k :: k in keys <==> k in m.Keys && k !in left
      invariant Distinct(keys)
      decreases left
    {
      var k :| k in left;
      keys := keys + [k];
      left := left - {k};
    }
  }

  /** Flattening a list of lists is appending them. */
  lemma {:induction false} FlattenIs<T>(a: seq<seq<T>>, b: seq<seq<T>>, x: seq<T>)
    ensures Flatten<T>([]) == [] && Flatten([x]) == x
    ensures Flatten(a + b) == Flatten(a) + Flatten(b)
  {
    assert [x][..0] == [];
    if b == [] {
      assert a + b == a;
    } else {
      FlattenIs(a, b[..|b| - 1], x);
      assert (a + b)[..|a + b| - 1] == a + b[..|b| - 1];
    }
  }
}
