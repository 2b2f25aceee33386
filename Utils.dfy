/** `unique` (asfsmd/_utils.py): order-preserving de-duplication. */
module Utils {
  import opened Seqs

  /** Position of the first occurrence of `x` in `s` (Python's `s.index(x)`). */
  function FirstIndex<T(==)>(s: seq<T>, x: T): (k: nat)
    requires x in s
    ensures k < |s| && s[k] == x
    ensures forall j :: 0 <= j < k ==> s[j] != x
  {
    if s[0] == x then 0 else 1 + FirstIndex(s[1..], x)
  }

  /** Every item of `r` comes from `s`, and `r` lists them in the order of their
      first occurrence in `s`. */
  predicate InFirstOccurrenceOrder<T(==)>(r: seq<T>, s: seq<T>) {
    && (forall i :: 0 <= i < |r| ==> r[i] in s)
    && (forall i, j :: 0 <= i < j < |r| ==> FirstIndex(s, r[i]) < FirstIndex(s, r[j]))
  }

  /** The reference value of `unique(s)`: the result for the prefix without the
      last item, extended by that item unless it was already kept. */
  function Dedup<T(==)>(s: seq<T>): seq<T>
    decreases |s|
  {
    if s == [] then []
    else
      var kept := Dedup(s[..|s| - 1]);
      if s[|s| - 1] in kept then kept else kept + [s[|s| - 1]]
  }

  /** The result keeps each item of the input once, and nothing else. */
  lemma {:induction false} DedupItems<T>(s: seq<T>)
    ensures NoDuplicates(Dedup(s))
    ensures forall x :: x in Dedup(s) <==> x in s
    ensures |Dedup(s)| <= |s|
    decreases |s|
  {
    if s != [] {
      var init := s[..|s| - 1];
      DedupItems(init);
      assert s == init + [s[|s| - 1]];
    }
  }

  /** The result lists the items in the order of their first occurrence. */
  lemma {:induction false} DedupOrder<T>(s: seq<T>)
    ensures InFirstOccurrenceOrder(Dedup(s), s)
    decreases |s|
  {
    if s != [] {
      var n := |s| - 1;
      var init := s[..n];
      DedupOrder(init);
      DedupItems(init);
      assert s == init + [s[n]];
      var r := Dedup(s);
      var kept := Dedup(init);
      forall i | 0 <= i < |kept|
        ensures kept[i] in init && FirstIndex(s, kept[i]) == FirstIndex(init, kept[i]) < n
      {
        var k := FirstIndex(init, kept[i]);
        assert s[k] == kept[i];
        assert forall j :: 0 <= j < k ==> s[j] == init[j];
      }
      if s[n] !in kept {
        assert s[n] !in init;
        assert FirstIndex(s, s[n]) == n;
      }
    }
  }

  /** Input that holds no duplicate comes back unchanged. */
  lemma {:induction false} DedupOfUnique<T>(s: seq<T>)
    requires NoDuplicates(s)
    ensures Dedup(s) == s
    decreases |s|
  {
    if s != [] {
      var init := s[..|s| - 1];
      DedupOfUnique(init);
      DedupItems(init);
      assert s[|s| - 1] !in init;
      assert s == init + [s[|s| - 1]];
    }
  }

  /** `unique(data)`: walks the input once, keeping a list of the items seen so
      far and a set that shadows it for membership tests. */
  method Unique<T(==)>(data: seq<T>) returns (items: seq<T>)
    ensures items == Dedup(data)
    ensures NoDuplicates(items)
    ensures forall x :: x in items <==> x in data
    ensures InFirstOccurrenceOrder(items, data)
    ensures |items| <= |data|
    ensures NoDuplicates(data) ==> items == data
  {
    items := [];
    var seen: set<T> := {};
    for i := 0 to |data|
      invariant items == Dedup(data[..i])
      invariant seen == set x | x in items
    {
      assert data[..i + 1][..i] == data[..i];
      if data[i] !in seen {
        items := items + [data[i]];
        seen := seen + {data[i]};
      }
    }
    assert data[..|data|] == data;
    DedupItems(data);
    DedupOrder(data);
    if NoDuplicates(data) {
      DedupOfUnique(data);
    }
  }

  /** Repeated items are dropped and the first occurrences keep their order. */
  lemma DedupExamples()
    ensures Dedup(["a", "b", "c", "b"]) == ["a", "b", "c"]
    ensures Dedup([1, 2, 2, 3, 1, 2]) == [1, 2, 3]
  {
    DedupLetters();
    DedupNumbers();
  }

  lemma DedupLetters()
    ensures Dedup(["a", "b", "c", "b"]) == ["a", "b", "c"]
  {
    var s := ["a", "b", "c", "b"];
    assert s[..3] == ["a", "b", "c"] && s[..3][..2] == ["a", "b"] && s[..3][..2][..1] == ["a"];
    assert ["a"][..0] == [];
    assert Dedup(["a"]) == ["a"];
    assert Dedup(["a", "b"]) == ["a", "b"];
    assert Dedup(["a", "b", "c"]) == ["a", "b", "c"];
  }

  lemma DedupNumbers()
    ensures Dedup([1, 2, 2, 3, 1, 2]) == [1, 2, 3]
  {
    DedupNumbersPrefix();
    var t := [1, 2, 2, 3, 1, 2];
    assert t[..5] == [1, 2, 2, 3, 1] && t[..5][..4] == [1, 2, 2, 3];
    assert Dedup([1, 2, 2, 3, 1]) == [1, 2, 3];
  }

  lemma DedupNumbersPrefix()
    ensures Dedup([1, 2, 2, 3]) == [1, 2, 3]
  {
    assert [1, 2, 2, 3][..3] == [1, 2, 2] && [1, 2, 2][..2] == [1, 2] && [1, 2][..1] == [1] && [1][..0] == [];
    assert Dedup([1]) == [1];
    assert Dedup([1, 2]) == [1, 2];
    assert Dedup([1, 2, 2]) == [1, 2];
  }
}
