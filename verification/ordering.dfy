/** The comparator behind the storage tab's sort chain
      OrderBy(category).ThenBy(label).ThenByDescending(quality)
        .ThenBy(ticks until rot).ThenByDescending(hit points / max),
    written as a three-way comparison on sort keys (negative: first argument
    sorts earlier), together with an independent, declarative statement of
    the same lexicographic order and the total-order laws a stable sort
    relies on. */
module Ordering {
  import opened Options
  import opened Items

  /** .NET's default comparison of two integers, as a sign. */
  function CompareInt(a: int, b: int): int
  {
    if a < b then -1 else if a > b then 1 else 0
  }

  /** Ordinal comparison of two labels: character by character, and a proper
      prefix sorts before the longer label. */
  function CompareLabel(a: string, b: string): (c: int)
    ensures -1 <= c <= 1
    ensures a == b ==> c == 0
  {
    if |a| == 0 then (if |b| == 0 then 0 else -1)
    else if |b| == 0 then 1
    else if a[0] < b[0] then -1
    else if a[0] > b[0] then 1
    else CompareLabel(a[1..], b[1..])
  }

  /** `Comparer<int?>.Default`: null sorts before every value. */
  function CompareRot(a: Option<int>, b: Option<int>): (r: int)
    ensures -1 <= r <= 1
    ensures r == 0 <==> a == b
    ensures r < 0 <==> RotBefore(a, b)
  {
    match (a, b)
    case (None, None) => 0
    case (None, Some(_)) => -1
    case (Some(_), None) => 1
    case (Some(x), Some(y)) => CompareInt(x, y)
  }

  /** The whole chain: each later key only breaks ties of the earlier ones;
      quality and health are compared with the arguments swapped because the
      source sorts them descending. */
  function CompareKeys(a: SortKey, b: SortKey): (r: int)
    ensures -1 <= r <= 1
    ensures a == b ==> r == 0
    ensures a.category != b.category ==> (r < 0 <==> a.category < b.category)
    ensures a.category == b.category && a.labelText == b.labelText && a.quality != b.quality
      ==> (r < 0 <==> a.quality > b.quality)
    ensures a.category == b.category && a.labelText == b.labelText && a.quality == b.quality
              && a.rot != b.rot
      ==> (r < 0 <==> RotBefore(a.rot, b.rot))
    ensures a.category == b.category && a.labelText == b.labelText && a.quality == b.quality
              && a.rot == b.rot
      ==> (r < 0 <==> a.health > b.health)
  {
    var byCategory := CompareInt(a.category, b.category);
    if byCategory != 0 then byCategory else
    var byLabel := CompareLabel(a.labelText, b.labelText);
    if byLabel != 0 then byLabel else
    var byQuality := CompareInt(b.quality, a.quality);
    if byQuality != 0 then byQuality else
    var byRot := CompareRot(a.rot, b.rot);
    if byRot != 0 then byRot else
    CompareInt(b.health, a.health)
  }

  // ---------------------------------------------------------------------
  // Reference definition of the order, stated without the comparator.

  /** `a` sorts strictly before `b` in ordinal order: it is a proper prefix
      of `b`, or at the first position where they differ its character is
      smaller. */
  ghost predicate LabelBefore(a: string, b: string)
  {
    || (|a| < |b| && forall i | 0 <= i < |a| :: a[i] == b[i])
    || exists k | 0 <= k < |a| && k < |b| ::
         a[k] < b[k] && forall i | 0 <= i < k :: a[i] == b[i]
  }

  /** A missing rot timer sorts before every finite one; finite timers sort
      soonest first. */
  ghost predicate RotBefore(a: Option<int>, b: Option<int>)
  {
    || (a.None? && b.Some?)
    || (a.Some? && b.Some? && a.value < b.value)
  }

  /** The five-key lexicographic order: category ascending, label ascending,
      quality descending, rot ascending, health descending. */
  ghost predicate KeyBefore(a: SortKey, b: SortKey)
  {
    || a.category < b.category
    || (a.category == b.category && LabelBefore(a.labelText, b.labelText))
    || (a.category == b.category && a.labelText == b.labelText && a.quality > b.quality)
    || (a.category == b.category && a.labelText == b.labelText && a.quality == b.quality
        && RotBefore(a.rot, b.rot))
    || (a.category == b.category && a.labelText == b.labelText && a.quality == b.quality
        && a.rot == b.rot && a.health > b.health)
  }

  // ---------------------------------------------------------------------
  // Labels.

  lemma LabelBeforeTail(a: string, b: string)
    requires |a| > 0 && |b| > 0 && a[0] == b[0]
    ensures LabelBefore(a, b) <==> LabelBefore(a[1..], b[1..])
  {
    var a', b' := a[1..], b[1..];
    if exists k | 0 <= k < |a| && k < |b| :: a[k] < b[k] && forall i | 0 <= i < k :: a[i] == b[i] {
      var k :| 0 <= k < |a| && k < |b| && a[k] < b[k] && forall i | 0 <= i < k :: a[i] == b[i];
      assert a'[k - 1] < b'[k - 1] && forall i | 0 <= i < k - 1 :: a'[i] == b'[i];
    }
    if exists k | 0 <= k < |a'| && k < |b'| :: a'[k] < b'[k] && forall i | 0 <= i < k :: a'[i] == b'[i] {
      var k :| 0 <= k < |a'| && k < |b'| && a'[k] < b'[k] && forall i | 0 <= i < k :: a'[i] == b'[i];
      assert a[k + 1] < b[k + 1];
      forall i | 0 <= i < k + 1 ensures a[i] == b[i] {
        if i > 0 {
          assert a[i] == a'[i - 1];
        }
      }
    }
    if |a'| < |b'| && forall i | 0 <= i < |a'| :: a'[i] == b'[i] {
      forall i | 0 <= i < |a| ensures a[i] == b[i] {
        if i > 0 {
          assert a[i] == a'[i - 1];
        }
      }
    }
  }

  /** The comparator on labels decides exactly the ordinal order. */
  lemma {:induction false} CompareLabelBefore(a: string, b: string)
    ensures CompareLabel(a, b) < 0 <==> LabelBefore(a, b)
    decreases |a|
  {
    if |a| == 0 {
    } else if |b| == 0 {
    } else if a[0] < b[0] {
    } else if a[0] > b[0] {
    } else {
      CompareLabelBefore(a[1..], b[1..]);
      LabelBeforeTail(a, b);
    }
  }

  lemma {:induction false} CompareLabelZero(a: string, b: string)
    ensures CompareLabel(a, b) == 0 <==> a == b
    decreases |a|
  {
    if |a| > 0 && |b| > 0 && a[0] == b[0] {
      CompareLabelZero(a[1..], b[1..]);
      assert a == [a[0]] + a[1..];
      assert b == [b[0]] + b[1..];
    }
  }

  lemma {:induction false} CompareLabelAntisymmetric(a: string, b: string)
    ensures CompareLabel(a, b) == -CompareLabel(b, a)
    decreases |a|
  {
    if |a| > 0 && |b| > 0 && a[0] == b[0] {
      CompareLabelAntisymmetric(a[1..], b[1..]);
    }
  }

  lemma {:induction false} CompareLabelTransitive(a: string, b: string, c: string)
    requires CompareLabel(a, b) <= 0 && CompareLabel(b, c) <= 0
    ensures CompareLabel(a, c) <= 0
    decreases |a|
  {
    if |a| > 0 && |b| > 0 && |c| > 0 && a[0] == b[0] && b[0] == c[0] {
      CompareLabelTransitive(a[1..], b[1..], c[1..]);
    }
  }

  // ---------------------------------------------------------------------
  // Whole keys.

  /** The comparator decides exactly the lexicographic reference order. */
  lemma CompareKeysBefore(a: SortKey, b: SortKey)
    ensures CompareKeys(a, b) < 0 <==> KeyBefore(a, b)
  {
    CompareLabelBefore(a.labelText, b.labelText);
    CompareLabelZero(a.labelText, b.labelText);
  }

  /** Two keys compare equal exactly when all five parts agree. */
  lemma CompareKeysZero(a: SortKey, b: SortKey)
    ensures CompareKeys(a, b) == 0 <==> a == b
  {
    CompareLabelZero(a.labelText, b.labelText);
  }

  lemma CompareKeysAntisymmetric(a: SortKey, b: SortKey)
    ensures CompareKeys(a, b) == -CompareKeys(b, a)
  {
    CompareLabelAntisymmetric(a.labelText, b.labelText);
  }

  lemma CompareKeysTransitive(a: SortKey, b: SortKey, c: SortKey)
    requires CompareKeys(a, b) <= 0 && CompareKeys(b, c) <= 0
    ensures CompareKeys(a, c) <= 0
  {
    CompareLabelZero(a.labelText, b.labelText);
    CompareLabelZero(b.labelText, c.labelText);
    CompareLabelZero(a.labelText, c.labelText);
    CompareLabelAntisymmetric(a.labelText, b.labelText);
    CompareLabelAntisymmetric(b.labelText, c.labelText);
    if CompareLabel(a.labelText, b.labelText) <= 0 && CompareLabel(b.labelText, c.labelText) <= 0 {
      CompareLabelTransitive(a.labelText, b.labelText, c.labelText);
    }
  }
}
