/**
 * The list of entities the formatter renders: the parent formatter's list,
 * sorted with the comparator when a sort field is configured.
 */
module EntitiesToView {
  import opened Wrappers
  import Php
  import opened FormatterSettings
  import opened EntitySort

  /** No entity of `s` compares after an entity that follows it. */
  ghost predicate Sorted(settings: Settings, s: seq<Entity>) {
    forall i, j :: 0 <= i < j < |s| ==> Compare(settings, s[i], s[j]) <= 0
  }

  /** `x` comes no later than `y` in the requested direction. */
  ghost predicate InDirection(settings: Settings, x: string, y: string) {
    x == y || if SortAscending(settings) then Php.Less(x, y) else Php.Less(y, x)
  }

  /**
   * The order a sorted view is meant to have: every entity with a value
   * precedes every entity without one, and the values that are present
   * run in the requested direction.
   */
  ghost predicate DisplayOrder(settings: Settings, s: seq<Entity>) {
    && (forall i, j :: 0 <= i < |s| && 0 <= j < |s| && SortValue(settings, s[i]).Some? && SortValue(settings, s[j]).None? ==> i < j)
    && (forall i, j :: 0 <= i < j < |s| && SortValue(settings, s[i]).Some? && SortValue(settings, s[j]).Some? ==>
          InDirection(settings, SortValue(settings, s[i]).value, SortValue(settings, s[j]).value))
  }

  /** Being sorted by the comparator is exactly having the display order. */
  lemma SortedIffDisplayOrder(settings: Settings, s: seq<Entity>)
    ensures Sorted(settings, s) <==> DisplayOrder(settings, s)
  {
    if Sorted(settings, s) {
      forall i, j | 0 <= i < |s| && 0 <= j < |s| && SortValue(settings, s[i]).Some? && SortValue(settings, s[j]).None?
        ensures i < j
      {
      }
      forall i, j | 0 <= i < j < |s| && SortValue(settings, s[i]).Some? && SortValue(settings, s[j]).Some?
        ensures InDirection(settings, SortValue(settings, s[i]).value, SortValue(settings, s[j]).value)
      {
        CompareSign(settings, s[i], s[j]);
        Php.LessTrichotomous(SortValue(settings, s[i]).value, SortValue(settings, s[j]).value);
      }
    }
    if DisplayOrder(settings, s) {
      forall i, j | 0 <= i < j < |s|
        ensures Compare(settings, s[i], s[j]) <= 0
      {
        CompareSign(settings, s[i], s[j]);
        if SortValue(settings, s[i]).Some? && SortValue(settings, s[j]).Some? {
          Php.LessAsymmetric(SortValue(settings, s[i]).value, SortValue(settings, s[j]).value);
        }
      }
    }
  }

  /**
   * `usort($entities, [$this, 'entitySort'])`: sorts `a` in place (here by
   * insertion) so that it is a permutation of what it held and is sorted
   * by the comparator. Entities that compare equal may end up in any order.
   */
  method Usort(settings: Settings, a: array<Entity>)
    modifies a
    ensures Sorted(settings, a[..])
    ensures multiset(a[..]) == multiset(old(a[..]))
  {
    var i := 0;
    while i < a.Length
      invariant 0 <= i <= a.Length
      invariant Sorted(settings, a[..i])
      invariant multiset(a[..]) == multiset(old(a[..]))
    {
      Insert(settings, a, i);
      i := i + 1;
    }
    assert a[..] == a[..a.Length];
  }

  /** One step of the insertion sort: moves `a[i]` down into the sorted prefix `a[..i]`. */
  method Insert(settings: Settings, a: array<Entity>, i: nat)
    requires i < a.Length
    requires Sorted(settings, a[..i])
    modifies a
    ensures Sorted(settings, a[..i + 1])
    ensures a[i + 1..] == old(a[i + 1..])
    ensures multiset(a[..]) == multiset(old(a[..]))
  {
    var j := i;
    while j > 0 && Compare(settings, a[j - 1], a[j]) > 0
      invariant 0 <= j <= i
      invariant SortedAround(settings, a[..i + 1], j)
      invariant a[i + 1..] == old(a[i + 1..])
      invariant multiset(a[..]) == multiset(old(a[..]))
    {
      ghost var before := a[..i + 1];
      SwapDown(settings, before, j);
      a[j - 1], a[j] := a[j], a[j - 1];
      assert a[..i + 1] == before[j - 1 := before[j]][j := before[j - 1]];
      j := j - 1;
    }
    SortedAroundDone(settings, a[..i + 1], j);
  }

  /**
   * `s` is sorted once the element at `j` is set aside, and that element
   * compares no later than everything after it.
   */
  ghost predicate SortedAround(settings: Settings, s: seq<Entity>, j: nat) {
    && j < |s|
    && (forall k, l :: 0 <= k < l < |s| && k != j && l != j ==> Compare(settings, s[k], s[l]) <= 0)
    && (forall l :: j < l < |s| ==> Compare(settings, s[j], s[l]) <= 0)
  }

  /** Swapping the set-aside element with a predecessor that compares after it keeps the shape. */
  lemma SwapDown(settings: Settings, s: seq<Entity>, j: nat)
    requires SortedAround(settings, s, j)
    requires 0 < j && Compare(settings, s[j - 1], s[j]) > 0
    ensures SortedAround(settings, s[j - 1 := s[j]][j := s[j - 1]], j - 1)
  {
    CompareAntisymmetric(settings, s[j - 1], s[j]);
  }

  /** Once the set-aside element is not before its predecessor, the whole of `s` is sorted. */
  lemma SortedAroundDone(settings: Settings, s: seq<Entity>, j: nat)
    requires SortedAround(settings, s, j)
    requires j == 0 || Compare(settings, s[j - 1], s[j]) <= 0
    ensures Sorted(settings, s)
  {
    forall k, l | 0 <= k < l < |s|
      ensures Compare(settings, s[k], s[l]) <= 0
    {
      if l == j && k < j - 1 {
        CompareTransitive(settings, s[k], s[j - 1], s[j]);
      }
    }
  }

  /**
   * The entities to render, given the list the parent formatter returns:
   * that list untouched when no sort field is set, and otherwise the same
   * entities rearranged into display order.
   */
  method GetEntitiesToView(settings: Settings, parentEntities: seq<Entity>) returns (entities: seq<Entity>)
    ensures !SortEnabled(settings) ==> entities == parentEntities
    ensures SortEnabled(settings) ==> multiset(entities) == multiset(parentEntities)
    ensures SortEnabled(settings) ==> Sorted(settings, entities) && DisplayOrder(settings, entities)
  {
    entities := parentEntities;
    if SortEnabled(settings) {
      var a := new Entity[|entities|](k requires 0 <= k < |entities| => entities[k]);
      assert a[..] == entities;
      Usort(settings, a);
      entities := a[..];
      SortedIffDisplayOrder(settings, entities);
    }
  }

  /** The sort values of `s`, in order. */
  function SortValues(settings: Settings, s: seq<Entity>): (vs: seq<Option<string>>)
    ensures |vs| == |s|
  {
    seq(|s|, k requires 0 <= k < |s| => SortValue(settings, s[k]))
  }

  /** `x` may be shown no later than `y`: a value before no value, values in the requested direction. */
  ghost predicate ValueNotAfter(settings: Settings, x: Option<string>, y: Option<string>) {
    match (x, y)
    case (Some(u), Some(w)) => InDirection(settings, u, w)
    case (Some(_), None) => true
    case (None, None) => true
    case (None, Some(_)) => false
  }

  /** The values run in display order. */
  ghost predicate ValuesInOrder(settings: Settings, vs: seq<Option<string>>) {
    forall i, j :: 0 <= i < j < |vs| ==> ValueNotAfter(settings, vs[i], vs[j])
  }

  /** Two values each shown no later than the other are the same value. */
  lemma ValueNotAfterAntisymmetric(settings: Settings, x: Option<string>, y: Option<string>)
    requires ValueNotAfter(settings, x, y) && ValueNotAfter(settings, y, x)
    ensures x == y
  {
    if x.Some? && y.Some? {
      Php.LessAsymmetric(x.value, y.value);
    }
  }

  /** Taking out the element at `q` takes exactly one copy of it out of the multiset. */
  lemma RemoveAt<T>(s: seq<T>, q: nat)
    requires q < |s|
    ensures multiset(s) == multiset(s[..q] + s[q + 1..]) + multiset{s[q]}
    ensures multiset(s[..q] + s[q + 1..]) == multiset(s) - multiset{s[q]}
  {
    assert s == s[..q] + [s[q]] + s[q + 1..];
  }

  /** A non-empty sequence is its head followed by its tail. */
  lemma Tail<T>(s: seq<T>)
    requires s != []
    ensures multiset(s[1..]) == multiset(s) - multiset{s[0]}
    ensures s == [s[0]] + s[1..]
  {
    RemoveAt(s, 0);
    assert s[..0] + s[1..] == s[1..];
  }

  /** The sort values of `t` with the entity at `q` taken out. */
  lemma SortValuesRemoveAt(settings: Settings, t: seq<Entity>, q: nat)
    requires q < |t|
    ensures multiset(SortValues(settings, t)) == multiset(SortValues(settings, t[..q] + t[q + 1..])) + multiset{SortValue(settings, t[q])}
  {
    var vt := SortValues(settings, t);
    RemoveAt(vt, q);
    assert vt[..q] + vt[q + 1..] == SortValues(settings, t[..q] + t[q + 1..]);
  }

  /** The sort values of `s` are its head's value and the sort values of its tail. */
  lemma SortValuesTail(settings: Settings, s: seq<Entity>)
    requires s != []
    ensures multiset(SortValues(settings, s)) == multiset(SortValues(settings, s[1..])) + multiset{SortValue(settings, s[0])}
  {
    SortValuesRemoveAt(settings, s, 0);
    assert s[..0] + s[1..] == s[1..];
  }

  /** Rearranging the entities rearranges their sort values. */
  lemma {:induction false} SortValuesPreserveMultiset(settings: Settings, s: seq<Entity>, t: seq<Entity>)
    requires multiset(s) == multiset(t)
    ensures multiset(SortValues(settings, s)) == multiset(SortValues(settings, t))
    decreases |s|
  {
    if s == [] {
      assert |t| == |multiset(t)| == 0;
    } else {
      assert s[0] in multiset(t);
      var q :| 0 <= q < |t| && t[q] == s[0];
      var rest := t[..q] + t[q + 1..];
      Tail(s);
      RemoveAt(t, q);
      SortValuesPreserveMultiset(settings, s[1..], rest);
      SortValuesTail(settings, s);
      SortValuesRemoveAt(settings, t, q);
    }
  }

  /** Two ordered arrangements of the same values start with the same value. */
  lemma FirstValuesAgree(settings: Settings, vs: seq<Option<string>>, ws: seq<Option<string>>)
    requires multiset(vs) == multiset(ws) && vs != []
    requires ValuesInOrder(settings, vs) && ValuesInOrder(settings, ws)
    ensures ws != [] && vs[0] == ws[0]
  {
    assert vs[0] in multiset(ws);
    var q :| 0 <= q < |ws| && ws[q] == vs[0];
    assert ws[0] in multiset(vs);
    var p :| 0 <= p < |vs| && vs[p] == ws[0];
    if q > 0 && p > 0 {
      assert ValueNotAfter(settings, vs[0], vs[p]);
      assert ValueNotAfter(settings, ws[0], ws[q]);
      ValueNotAfterAntisymmetric(settings, vs[0], ws[0]);
    }
  }

  /** Dropping the first value keeps the rest in display order. */
  lemma ValuesInOrderTail(settings: Settings, vs: seq<Option<string>>)
    requires vs != [] && ValuesInOrder(settings, vs)
    ensures ValuesInOrder(settings, vs[1..])
  {
  }

  /** Two arrangements of the same values that are both in display order are equal. */
  lemma {:induction false} OrderedValuesUnique(settings: Settings, vs: seq<Option<string>>, ws: seq<Option<string>>)
    requires multiset(vs) == multiset(ws)
    requires ValuesInOrder(settings, vs) && ValuesInOrder(settings, ws)
    ensures vs == ws
    decreases |vs|
  {
    if vs == [] {
      assert |ws| == |multiset(ws)| == 0;
    } else {
      FirstValuesAgree(settings, vs, ws);
      Tail(vs);
      Tail(ws);
      ValuesInOrderTail(settings, vs);
      ValuesInOrderTail(settings, ws);
      OrderedValuesUnique(settings, vs[1..], ws[1..]);
    }
  }

  /** The values of a sorted list run in display order. */
  lemma SortedValuesInOrder(settings: Settings, s: seq<Entity>)
    requires Sorted(settings, s)
    ensures ValuesInOrder(settings, SortValues(settings, s))
  {
    SortedIffDisplayOrder(settings, s);
  }

  /**
   * Any two sorted arrangements of the same entities show the same
   * sequence of values: an unstable sort can only reorder entities that
   * compare equal.
   */
  lemma SortedArrangementsAgree(settings: Settings, s: seq<Entity>, t: seq<Entity>)
    requires multiset(s) == multiset(t)
    requires Sorted(settings, s) && Sorted(settings, t)
    ensures SortValues(settings, s) == SortValues(settings, t)
  {
    SortValuesPreserveMultiset(settings, s, t);
    SortedValuesInOrder(settings, s);
    SortedValuesInOrder(settings, t);
    OrderedValuesUnique(settings, SortValues(settings, s), SortValues(settings, t));
  }
}
