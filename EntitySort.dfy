/**
 * The formatter's comparator: referenced entities are ordered by the value
 * of the configured sort field, in the configured direction, and entities
 * without a value go after every entity that has one.
 */
module EntitySort {
  import opened Wrappers
  import Php
  import opened FormatterSettings

  /**
   * A referenced entity as the comparator sees it: its id and the value of
   * each of its fields. A field missing from `fields` and a field whose
   * value is `None` are alike: neither passes `isset`.
   */
  datatype Entity = Entity(id: int, fields: map<string, Option<string>>)

  /** The value of `field` on `e`, if it is set. */
  function FieldValue(e: Entity, field: string): Option<string> {
    if field in e.fields then e.fields[field] else None
  }

  /** The value `e` is sorted by under `settings`. */
  function SortValue(settings: Settings, e: Entity): Option<string> {
    FieldValue(e, SortFieldName(settings))
  }

  /** Three-way comparison of `a` and `b`: negative puts `a` first, positive puts `b` first. */
  function Compare(settings: Settings, a: Entity, b: Entity): (r: int)
    ensures -1 <= r <= 1
  {
    var sortAsc := if SortAscending(settings) then 1 else -1;
    var sortField := SortFieldName(settings);
    var va := FieldValue(a, sortField);
    var vb := FieldValue(b, sortField);
    if va.Some? && vb.Some? then
      if va.value == vb.value then 0
      else if Php.Less(va.value, vb.value) then -sortAsc else sortAsc
    else if va.Some? then -1
    else if vb.Some? then 1
    else 0
  }

  /**
   * The display order the comparator is meant to produce, stated on its
   * own: `a` goes strictly before `b` when only `a` has a value, or when
   * both have one and `a`'s comes first in the requested direction.
   */
  ghost predicate Before(settings: Settings, a: Entity, b: Entity) {
    match (SortValue(settings, a), SortValue(settings, b))
    case (Some(x), Some(y)) => if SortAscending(settings) then Php.Less(x, y) else Php.Less(y, x)
    case (Some(_), None) => true
    case (None, _) => false
  }

  /**
   * The sign of the comparison: negative exactly when `a` goes before `b`,
   * positive exactly when `b` goes before `a`, and zero exactly when the
   * two have the same value or both lack one.
   */
  lemma CompareSign(settings: Settings, a: Entity, b: Entity)
    ensures Compare(settings, a, b) < 0 <==> Before(settings, a, b)
    ensures Compare(settings, a, b) > 0 <==> Before(settings, b, a)
    ensures Compare(settings, a, b) == 0 <==> SortValue(settings, a) == SortValue(settings, b)
  {
    var va, vb := SortValue(settings, a), SortValue(settings, b);
    if va.Some? && vb.Some? {
      Php.LessIrreflexive(va.value);
      Php.LessAsymmetric(va.value, vb.value);
      Php.LessTrichotomous(va.value, vb.value);
    }
  }

  /** Swapping the arguments negates the result. */
  lemma CompareAntisymmetric(settings: Settings, a: Entity, b: Entity)
    ensures Compare(settings, a, b) == -Compare(settings, b, a)
  {
    CompareSign(settings, a, b);
    CompareSign(settings, b, a);
  }

  /** Every entity compares equal to itself. */
  lemma CompareReflexive(settings: Settings, a: Entity)
    ensures Compare(settings, a, a) == 0
  {
  }

  /** "Not after" is total: of any two entities, one may go first. */
  lemma CompareTotal(settings: Settings, a: Entity, b: Entity)
    ensures Compare(settings, a, b) <= 0 || Compare(settings, b, a) <= 0
  {
    CompareAntisymmetric(settings, a, b);
  }

  /** "Not after" is transitive, so the comparator is a total preorder. */
  lemma CompareTransitive(settings: Settings, a: Entity, b: Entity, c: Entity)
    requires Compare(settings, a, b) <= 0 && Compare(settings, b, c) <= 0
    ensures Compare(settings, a, c) <= 0
  {
    var va, vb, vc := SortValue(settings, a), SortValue(settings, b), SortValue(settings, c);
    if va.Some? && vb.Some? && vc.Some? && va.value != vb.value && vb.value != vc.value {
      Php.LessTrichotomous(va.value, vb.value);
      Php.LessTrichotomous(vb.value, vc.value);
      if SortAscending(settings) {
        Php.LessTransitive(va.value, vb.value, vc.value);
      } else {
        Php.LessTransitive(vc.value, vb.value, va.value);
        Php.LessAsymmetric(vc.value, va.value);
      }
      Php.LessIrreflexive(va.value);
    }
  }

  /**
   * When both entities have a value, turning `sort_asc` around reverses
   * their comparison; where one of them lacks a value it does not.
   */
  lemma DirectionFlipsSign(settings: Settings, a: Entity, b: Entity)
    ensures var flipped := settings[SORT_ASC := Php.Bool(!SortAscending(settings))];
            if SortValue(settings, a).Some? && SortValue(settings, b).Some?
            then Compare(flipped, a, b) == -Compare(settings, a, b)
            else Compare(flipped, a, b) == Compare(settings, a, b)
  {
  }
}
