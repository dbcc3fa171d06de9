/** The storage tab's item order: the LINQ OrderBy/ThenBy chain is a stable
    sort by the five-part key, modelled here as an insertion sort over a
    sequence, with its permutation, ordering and stability laws, and the
    division-by-zero failure of the health key. */
module StableSort {
  import opened Options
  import opened Items
  import opened Ordering

  /** Every key of the sequence can be computed: no thing has a zero maximum
      hit points (the health key divides by it). */
  predicate Sortable(s: seq<Item>)
  {
    forall it | it in s :: it.maxHitPoints != 0
  }

  /** `a` may precede `b` in the sorted output. */
  ghost predicate Le(a: Item, b: Item)
    requires a.maxHitPoints != 0 && b.maxHitPoints != 0
  {
    CompareKeys(Key(a), Key(b)) <= 0
  }

  ghost predicate Sorted(s: seq<Item>)
    requires Sortable(s)
  {
    forall i, j | 0 <= i < j < |s| :: Le(s[i], s[j])
  }

  /** The things of `s` whose sort key is `k`, in their order in `s`. */
  function KeyClass(s: seq<Item>, k: SortKey): seq<Item>
    requires Sortable(s)
  {
    if s == [] then []
    else (if Key(s[0]) == k then [s[0]] else []) + KeyClass(s[1..], k)
  }

  /** The two sequences list every group of equal-keyed things in the same
      order. */
  ghost predicate SameKeyGroups(s1: seq<Item>, s2: seq<Item>)
    requires Sortable(s1) && Sortable(s2)
  {
    forall k :: KeyClass(s1, k) == KeyClass(s2, k)
  }

  /** Stability: every group of equal-keyed things keeps its input order. */
  ghost predicate Stable(input: seq<Item>, output: seq<Item>)
    requires Sortable(input) && Sortable(output)
  {
    SameKeyGroups(output, input)
  }

  /** Inserts `x` in front of the first thing it does not sort after. */
  function Insert(x: Item, s: seq<Item>): (r: seq<Item>)
    requires x.maxHitPoints != 0 && Sortable(s)
    ensures multiset(r) == multiset(s) + multiset{x}
    ensures Sortable(r)
  {
    if s == [] then [x]
    else if CompareKeys(Key(x), Key(s[0])) <= 0 then [x] + s
    else
      assert s == [s[0]] + s[1..];
      [s[0]] + Insert(x, s[1..])
  }

  function InsertionSort(s: seq<Item>): (r: seq<Item>)
    requires Sortable(s)
    ensures multiset(r) == multiset(s)
    ensures Sortable(r)
  {
    if s == [] then []
    else
      assert s == [s[0]] + s[1..];
      Insert(s[0], InsertionSort(s[1..]))
  }

  // ---------------------------------------------------------------------
  // Ordering.

  lemma SortedCons(a: Item, s: seq<Item>)
    requires a.maxHitPoints != 0 && Sortable(s) && Sorted(s)
    requires forall y | y in s :: Le(a, y)
    ensures Sortable([a] + s) && Sorted([a] + s)
  {
    var r := [a] + s;
    forall i, j | 0 <= i < j < |r| ensures Le(r[i], r[j]) {
      if i > 0 {
        assert r[i] == s[i - 1] && r[j] == s[j - 1];
      } else {
        assert r[j] in s;
      }
    }
  }

  lemma {:induction false} InsertSorted(x: Item, s: seq<Item>)
    requires x.maxHitPoints != 0 && Sortable(s) && Sorted(s)
    ensures Sorted(Insert(x, s))
  {
    if s == [] {
    } else if CompareKeys(Key(x), Key(s[0])) <= 0 {
      forall y | y in s ensures Le(x, y) {
        var j :| 0 <= j < |s| && s[j] == y;
        if j > 0 {
          CompareKeysTransitive(Key(x), Key(s[0]), Key(y));
        }
      }
      SortedCons(x, s);
    } else {
      var t := Insert(x, s[1..]);
      InsertSorted(x, s[1..]);
      forall y | y in t ensures Le(s[0], y) {
        assert y in multiset(t);
        if y == x {
          CompareKeysAntisymmetric(Key(x), Key(s[0]));
        } else {
          assert y in multiset(s[1..]);
          var j :| 0 <= j < |s[1..]| && s[1..][j] == y;
          assert s[j + 1] == y;
        }
      }
      SortedCons(s[0], t);
    }
  }

  lemma {:induction false} InsertionSortSorted(s: seq<Item>)
    requires Sortable(s)
    ensures Sorted(InsertionSort(s))
  {
    if s != [] {
      InsertionSortSorted(s[1..]);
      InsertSorted(s[0], InsertionSort(s[1..]));
    }
  }

  // ---------------------------------------------------------------------
  // Stability.

  lemma KeyClassAppend(a: seq<Item>, b: seq<Item>, k: SortKey)
    requires Sortable(a) && Sortable(b)
    ensures Sortable(a + b)
    ensures KeyClass(a + b, k) == KeyClass(a, k) + KeyClass(b, k)
  {
    if a == [] {
      assert a + b == b;
    } else {
      assert (a + b)[1..] == a[1..] + b;
      KeyClassAppend(a[1..], b, k);
    }
  }

  /** Inserting `x` adds it at the front of its own key group and leaves
      every other group alone. */
  lemma {:induction false} InsertKeyClass(x: Item, s: seq<Item>, k: SortKey)
    requires x.maxHitPoints != 0 && Sortable(s)
    ensures KeyClass(Insert(x, s), k)
         == (if Key(x) == k then [x] else []) + KeyClass(s, k)
  {
    if s == [] {
    } else if CompareKeys(Key(x), Key(s[0])) <= 0 {
      KeyClassAppend([x], s, k);
    } else {
      var t := Insert(x, s[1..]);
      var r := Insert(x, s);
      assert r == [s[0]] + t;
      assert r[0] == s[0] && r[1..] == t;
      var head := if Key(s[0]) == k then [s[0]] else [];
      var own := if Key(x) == k then [x] else [];
      assert KeyClass(r, k) == head + KeyClass(t, k);
      assert KeyClass(s, k) == head + KeyClass(s[1..], k);
      InsertKeyClass(x, s[1..], k);
      assert Key(x) != Key(s[0]);
      assert head == [] || own == [];
    }
  }

  lemma {:induction false} InsertionSortStable(s: seq<Item>)
    requires Sortable(s)
    ensures Stable(s, InsertionSort(s))
  {
    forall k ensures KeyClass(InsertionSort(s), k) == KeyClass(s, k) {
      InsertionSortKeyClass(s, k);
    }
  }

  lemma {:induction false} InsertionSortKeyClass(s: seq<Item>, k: SortKey)
    requires Sortable(s)
    ensures KeyClass(InsertionSort(s), k) == KeyClass(s, k)
  {
    if s != [] {
      InsertionSortKeyClass(s[1..], k);
      InsertKeyClass(s[0], InsertionSort(s[1..]), k);
    }
  }

  // ---------------------------------------------------------------------
  // Uniqueness: a sorted sequence is fixed by its key groups.

  lemma KeyClassMembers(s: seq<Item>, k: SortKey)
    requires Sortable(s)
    ensures forall y | y in KeyClass(s, k) :: y in s && Key(y) == k
  {
    if s != [] {
      KeyClassMembers(s[1..], k);
    }
  }

  lemma {:induction false} KeyClassContains(s: seq<Item>, x: Item)
    requires Sortable(s) && x in s
    ensures x in KeyClass(s, Key(x))
  {
    if s[0] != x {
      KeyClassContains(s[1..], x);
    }
  }

  lemma SortedTail(s: seq<Item>)
    requires Sortable(s) && Sorted(s) && s != []
    ensures Sortable(s[1..]) && Sorted(s[1..])
  {
    forall i, j | 0 <= i < j < |s[1..]| ensures Le(s[1..][i], s[1..][j]) {
      assert s[1..][i] == s[i + 1] && s[1..][j] == s[j + 1];
    }
  }

  /** The head of a sorted sequence may precede everything in it. */
  lemma SortedHeadFirst(s: seq<Item>, y: Item)
    requires Sortable(s) && Sorted(s) && s != [] && y in s
    ensures Le(s[0], y)
  {
    var j :| 0 <= j < |s| && s[j] == y;
    if j == 0 {
      CompareKeysZero(Key(y), Key(y));
    }
  }

  /** Two sorted sequences with the same key groups start with things of
      the same key. */
  lemma SortedHeadsShareKey(r1: seq<Item>, r2: seq<Item>)
    requires Sortable(r1) && Sortable(r2) && Sorted(r1) && Sorted(r2)
    requires r1 != [] && r2 != []
    requires forall k :: KeyClass(r1, k) == KeyClass(r2, k)
    ensures Key(r1[0]) == Key(r2[0])
  {
    var a, b := r1[0], r2[0];
    KeyClassContains(r2, b);
    KeyClassMembers(r1, Key(b));
    assert KeyClass(r1, Key(b)) == KeyClass(r2, Key(b));
    SortedHeadFirst(r1, b);
    KeyClassContains(r1, a);
    KeyClassMembers(r2, Key(a));
    assert KeyClass(r1, Key(a)) == KeyClass(r2, Key(a));
    SortedHeadFirst(r2, a);
    CompareKeysAntisymmetric(Key(a), Key(b));
    CompareKeysZero(Key(a), Key(b));
  }

  /** Two sorted sequences with the same key groups are the same sequence. */
  lemma {:induction false} SortedUnique(r1: seq<Item>, r2: seq<Item>)
    requires Sortable(r1) && Sortable(r2) && Sorted(r1) && Sorted(r2)
    requires forall k :: KeyClass(r1, k) == KeyClass(r2, k)
    ensures r1 == r2
    decreases |r1|
  {
    if r1 != [] && r2 != [] {
      SortedHeadsShareKey(r1, r2);
      var k0 := Key(r1[0]);
      assert KeyClass(r1, k0) == [r1[0]] + KeyClass(r1[1..], k0);
      assert KeyClass(r2, k0) == [r2[0]] + KeyClass(r2[1..], k0);
      assert KeyClass(r1, k0)[0] == r1[0] && KeyClass(r2, k0)[0] == r2[0];
      assert r1[0] == r2[0];
      forall k ensures KeyClass(r1[1..], k) == KeyClass(r2[1..], k) {
        var head := if k0 == k then [r1[0]] else [];
        assert KeyClass(r1, k) == head + KeyClass(r1[1..], k);
        assert KeyClass(r2, k) == head + KeyClass(r2[1..], k);
        assert KeyClass(r1[1..], k) == KeyClass(r1, k)[|head|..];
        assert KeyClass(r2[1..], k) == KeyClass(r2, k)[|head|..];
      }
      SortedTail(r1);
      SortedTail(r2);
      SortedUnique(r1[1..], r2[1..]);
      assert r1 == [r1[0]] + r1[1..] && r2 == [r2[0]] + r2[1..];
    } else if r1 != [] {
      assert KeyClass(r2, Key(r1[0])) == [];
    } else if r2 != [] {
      assert KeyClass(r1, Key(r2[0])) == [];
    }
  }

  // ---------------------------------------------------------------------
  // The tab's ordering step.

  /** The exception the health key raises when a maximum hit points is 0. */
  datatype SortError = DivideByZero

  /** The ordered list `DoItemsLists` builds from the container's contents:
      a stable sort by the five keys, or the division-by-zero failure when
      some thing has no maximum hit points. */
  function OrderItems(items: seq<Item>): (r: Result<seq<Item>, SortError>)
    ensures r.Failure? <==> exists it | it in items :: it.maxHitPoints == 0
    ensures r.Success? ==>
      && Sortable(items) && Sortable(r.value)
      && multiset(r.value) == multiset(items)
      && |r.value| == |items|
      && Sorted(r.value)
      && Stable(items, r.value)
  {
    if Sortable(items) then
      InsertionSortSorted(items);
      InsertionSortStable(items);
      assert |InsertionSort(items)| == |multiset(InsertionSort(items))| == |items|;
      Success(InsertionSort(items))
    else
      Failure(DivideByZero)
  }

  /** The result is the only sorted arrangement of the input that keeps each
      key group in input order. */
  lemma OrderItemsUnique(items: seq<Item>, r: seq<Item>)
    requires Sortable(items) && Sortable(r) && Sorted(r) && Stable(items, r)
    ensures OrderItems(items) == Success(r)
  {
    var sorted := OrderItems(items).value;
    forall k ensures KeyClass(sorted, k) == KeyClass(r, k) {
      assert KeyClass(sorted, k) == KeyClass(items, k);
      assert KeyClass(r, k) == KeyClass(items, k);
    }
    SortedUnique(sorted, r);
  }

  lemma SameKeyGroupsSameSort(s1: seq<Item>, s2: seq<Item>)
    requires Sortable(s1) && Sortable(s2)
    requires forall k :: KeyClass(s1, k) == KeyClass(s2, k)
    ensures InsertionSort(s1) == InsertionSort(s2)
  {
    var r1, r2 := InsertionSort(s1), InsertionSort(s2);
    forall k ensures KeyClass(r1, k) == KeyClass(r2, k) {
      InsertionSortKeyClass(s1, k);
      InsertionSortKeyClass(s2, k);
    }
    InsertionSortSorted(s1);
    InsertionSortSorted(s2);
    SortedUnique(r1, r2);
  }

  /** Two inputs get the same order exactly when they list every key group
      in the same order: reordering things whose keys differ never changes
      the output, reordering different things with equal keys does. */
  lemma SameOrderIffSameKeyGroups(s1: seq<Item>, s2: seq<Item>)
    requires Sortable(s1) && Sortable(s2)
    ensures OrderItems(s1) == OrderItems(s2)
        <==> SameKeyGroups(s1, s2)
  {
    assert OrderItems(s1) == Success(InsertionSort(s1));
    assert OrderItems(s2) == Success(InsertionSort(s2));
    if InsertionSort(s1) == InsertionSort(s2) {
      forall k ensures KeyClass(s1, k) == KeyClass(s2, k) {
        InsertionSortKeyClass(s1, k);
        InsertionSortKeyClass(s2, k);
      }
    } else if SameKeyGroups(s1, s2) {
      SameKeyGroupsSameSort(s1, s2);
    }
  }

  /** A thing whose key is lexicographically smaller appears earlier. */
  lemma KeyBeforeMeansEarlier(r: seq<Item>, i: int, j: int)
    requires Sortable(r) && Sorted(r)
    requires 0 <= i < |r| && 0 <= j < |r|
    requires KeyBefore(Key(r[i]), Key(r[j]))
    ensures i < j
  {
    CompareKeysBefore(Key(r[i]), Key(r[j]));
    CompareKeysZero(Key(r[i]), Key(r[j]));
    if j < i {
      CompareKeysAntisymmetric(Key(r[j]), Key(r[i]));
    }
  }

  /** With category and label equal, the higher quality rank comes first. */
  lemma HigherQualityFirst(items: seq<Item>, r: seq<Item>, i: int, j: int)
    requires OrderItems(items) == Success(r)
    requires 0 <= i < |r| && 0 <= j < |r|
    requires r[i].category == r[j].category && r[i].labelText == r[j].labelText
    requires QualityKey(r[i]) > QualityKey(r[j])
    ensures i < j
  {
    KeyBeforeMeansEarlier(r, i, j);
  }

  /** With category and label equal, a thing without quality ranks as
      Normal: it comes after Good and better things and before Poor and
      Awful ones. */
  lemma QualityVersusUnqualified(items: seq<Item>, r: seq<Item>, i: int, j: int)
    requires OrderItems(items) == Success(r)
    requires 0 <= i < |r| && 0 <= j < |r|
    requires r[i].category == r[j].category && r[i].labelText == r[j].labelText
    requires r[i].quality.Some? && r[j].quality.None?
    ensures Rank(r[i].quality.value) > Rank(Normal) ==> i < j
    ensures Rank(r[i].quality.value) < Rank(Normal) ==> j < i
  {
    if Rank(r[i].quality.value) > Rank(Normal) {
      HigherQualityFirst(items, r, i, j);
    } else if Rank(r[i].quality.value) < Rank(Normal) {
      HigherQualityFirst(items, r, j, i);
    }
  }

  /** With the first three keys equal, a thing that cannot rot comes before
      every thing that can (a null rot key sorts first). */
  lemma RotlessBeforePerishable(items: seq<Item>, r: seq<Item>, i: int, j: int)
    requires OrderItems(items) == Success(r)
    requires 0 <= i < |r| && 0 <= j < |r|
    requires r[i].category == r[j].category && r[i].labelText == r[j].labelText
    requires QualityKey(r[i]) == QualityKey(r[j])
    requires r[i].rotTicks.None? && r[j].rotTicks.Some?
    ensures i < j
  {
    KeyBeforeMeansEarlier(r, i, j);
  }

  /** With the first three keys equal, the thing that rots sooner comes
      first, whatever the health of either. */
  lemma SoonerRotFirst(items: seq<Item>, r: seq<Item>, i: int, j: int)
    requires OrderItems(items) == Success(r)
    requires 0 <= i < |r| && 0 <= j < |r|
    requires r[i].category == r[j].category && r[i].labelText == r[j].labelText
    requires QualityKey(r[i]) == QualityKey(r[j])
    requires r[i].rotTicks.Some? && r[j].rotTicks.Some?
    requires r[i].rotTicks.value < r[j].rotTicks.value
    ensures i < j
  {
    KeyBeforeMeansEarlier(r, i, j);
  }

  /** With the first four keys equal, an undamaged thing comes before a
      damaged one. */
  lemma FullHealthBeforeDamaged(items: seq<Item>, r: seq<Item>, i: int, j: int)
    requires OrderItems(items) == Success(r)
    requires 0 <= i < |r| && 0 <= j < |r|
    requires r[i].category == r[j].category && r[i].labelText == r[j].labelText
    requires QualityKey(r[i]) == QualityKey(r[j]) && r[i].rotTicks == r[j].rotTicks
    requires 0 < r[i].hitPoints == r[i].maxHitPoints
    requires 0 <= r[j].hitPoints < r[j].maxHitPoints
    ensures i < j
  {
    HealthKeyFullOrDamaged(r[i]);
    HealthKeyFullOrDamaged(r[j]);
    KeyBeforeMeansEarlier(r, i, j);
  }
}
