# Sorted entity-reference formatter, modelled in Dafny

This project models the one piece of logic in the `entity_reference_sorted`
Drupal module: the field formatter `EntityReferenceSorted`, which renders the
entities an entity-reference field points to and, when a sort field is
configured, first sorts them by the value of that field.

The model has five modules:

- `Wrappers`: the `Option` type used for a field value that may be missing.
- `Php`: the parts of PHP the formatter relies on. These are scalar setting
  values, truthiness, the `(string)` cast, the `strcmp` order that `<` gives
  two non-numeric strings, and `+` on arrays. The string order is proved to be
  a strict total order.
- `FormatterSettings`: reading `sort_field` and `sort_asc`, the formatter's
  defaults laid over the parent's, the line added to the settings summary,
  and the sort-field options collected over all bundles.
- `EntitySort`: the comparator `entitySort`. Entities that have a value come
  first, ordered by that value up or down. The comparator is proved
  antisymmetric, total and transitive. Its sign is tied to an independent
  "goes before" relation.
- `EntitiesToView`: `getEntitiesToView`. It returns the parent's list
  untouched when sorting is off. Otherwise it sorts the list in place, which
  models `usort`. The sorted result is a permutation of the input and is
  ordered by the comparator. Being ordered by the comparator is proved to be
  exactly the display order: present values first, in the requested
  direction. Two sorted arrangements of the same entities are proved to show
  the same sequence of values, so the sort's instability can only reorder ties.

The host framework's inputs become parameters: the parent formatter's
defaults, summary and entity list, and each bundle's field definitions. The
formatter's settings are a map from key to PHP scalar.

## Model

| member | source | states |
|---|---|---|
| `Php.NatToString` | entity_reference_sorted/src/Plugin/Field/FieldFormatter/EntityReferenceSorted.php:62 | Casting a number to string gives a non-empty run of decimal digits that spells the number. It has no leading zero, so it is `"0"` exactly for zero. |
| `Php.LessIrreflexive` | entity_reference_sorted/src/Plugin/Field/FieldFormatter/EntityReferenceSorted.php:85 | No string is `<` itself. |
| `Php.LessAsymmetric` | entity_reference_sorted/src/Plugin/Field/FieldFormatter/EntityReferenceSorted.php:85 | `a < b` and `b < a` never both hold. |
| `Php.LessTransitive` | entity_reference_sorted/src/Plugin/Field/FieldFormatter/EntityReferenceSorted.php:85 | `<` on strings is transitive. |
| `Php.LessTrichotomous` | entity_reference_sorted/src/Plugin/Field/FieldFormatter/EntityReferenceSorted.php:82-85 | Two strings are equal or one is `<` the other, so the `==` and `<` tests cover every pair. |
| `Php.Union` | entity_reference_sorted/src/Plugin/Field/FieldFormatter/EntityReferenceSorted.php:29-32 | Array `+` keeps every key of either side. Where both have a key, the left value wins. |
| `FormatterSettings.DefaultSettings` | entity_reference_sorted/src/Plugin/Field/FieldFormatter/EntityReferenceSorted.php:28-33 | The defaults have exactly the parent's keys plus `sort_field` and `sort_asc`. They are `'title'` and `1` whatever the parent says. Every other parent key keeps its value. |
| `FormatterSettings.DefaultsSortByTitleAscending` | entity_reference_sorted/src/Plugin/Field/FieldFormatter/EntityReferenceSorted.php:30-31 | Under the defaults sorting is on, by the field `title`, ascending. |
| `FormatterSettings.SettingsSummary` | entity_reference_sorted/src/Plugin/Field/FieldFormatter/EntityReferenceSorted.php:60-65 | The summary is the parent's summary, unchanged, followed by exactly one line. |
| `FormatterSettings.SummaryFieldTruthy` | entity_reference_sorted/src/Plugin/Field/FieldFormatter/EntityReferenceSorted.php:62 | The field shown in the summary is never `""` or `"0"`. A falsy `sort_field` shows as `NONE`, and a truthy one casts to a truthy string. |
| `FormatterSettings.SummaryDescribesSorting` | entity_reference_sorted/src/Plugin/Field/FieldFormatter/EntityReferenceSorted.php:62 | Reading the added line back gives two things. The field shown is the one the comparator sorts by, or `NONE` when sorting is off. The direction is `ASC` exactly when `sort_asc` is truthy. |
| `FormatterSettings.GetFieldOptions` | entity_reference_sorted/src/Plugin/Field/FieldFormatter/EntityReferenceSorted.php:101-109 | The options' keys are exactly the field names defined on some bundle. Each name maps to itself. |
| `EntitySort.Compare` | entity_reference_sorted/src/Plugin/Field/FieldFormatter/EntityReferenceSorted.php:78-96 | The comparator, branch for branch as written. Its result is always -1, 0 or 1. |
| `EntitySort.CompareSign` | entity_reference_sorted/src/Plugin/Field/FieldFormatter/EntityReferenceSorted.php:78-96 | Negative exactly when `a` goes before `b`: only `a` has a value, or both do and `a`'s comes first in the requested direction. Positive exactly when `b` goes before `a`. Zero exactly when the values are equal or both missing. |
| `EntitySort.CompareAntisymmetric` | entity_reference_sorted/src/Plugin/Field/FieldFormatter/EntityReferenceSorted.php:78-96 | `entitySort(a, b) == -entitySort(b, a)`. |
| `EntitySort.CompareReflexive` | entity_reference_sorted/src/Plugin/Field/FieldFormatter/EntityReferenceSorted.php:82-84 | An entity compares equal to itself. |
| `EntitySort.CompareTotal` | entity_reference_sorted/src/Plugin/Field/FieldFormatter/EntityReferenceSorted.php:78-96 | Of any two entities, at least one compares not after the other. |
| `EntitySort.CompareTransitive` | entity_reference_sorted/src/Plugin/Field/FieldFormatter/EntityReferenceSorted.php:78-96 | "Compares not after" is transitive, so the comparator is a total preorder. |
| `EntitySort.DirectionFlipsSign` | entity_reference_sorted/src/Plugin/Field/FieldFormatter/EntityReferenceSorted.php:79-92 | Flipping `sort_asc` negates the result when both values are present. It leaves the result alone when one or both are missing. |
| `EntitiesToView.SortedIffDisplayOrder` | entity_reference_sorted/src/Plugin/Field/FieldFormatter/EntityReferenceSorted.php:72-96 | A list is sorted by the comparator exactly when two things hold. Every entity with a value precedes every entity without one. The present values are non-decreasing when ascending and non-increasing when descending. |
| `EntitiesToView.Usort` | entity_reference_sorted/src/Plugin/Field/FieldFormatter/EntityReferenceSorted.php:73 | Sorting in place leaves a permutation of the old contents that is sorted by the comparator. |
| `EntitiesToView.Insert` | entity_reference_sorted/src/Plugin/Field/FieldFormatter/EntityReferenceSorted.php:73 | One insertion step extends the sorted prefix by one. It keeps the rest of the array and the multiset of contents. |
| `EntitiesToView.GetEntitiesToView` | entity_reference_sorted/src/Plugin/Field/FieldFormatter/EntityReferenceSorted.php:70-76 | With a falsy `sort_field` the parent's list is returned unchanged. Otherwise the result is a permutation of it, sorted by the comparator and in display order. |
| `EntitiesToView.SortedArrangementsAgree` | entity_reference_sorted/src/Plugin/Field/FieldFormatter/EntityReferenceSorted.php:72-73 | Any two sorted permutations of the same entities have the same sequence of sort values. |
| `EntitiesToView.SortValuesPreserveMultiset` | entity_reference_sorted/src/Plugin/Field/FieldFormatter/EntityReferenceSorted.php:73 | Permuting the entities permutes their sort values. |
| `EntitiesToView.OrderedValuesUnique` | entity_reference_sorted/src/Plugin/Field/FieldFormatter/EntityReferenceSorted.php:78-96 | Within one multiset of values, only one sequence is in display order. |

## Left out

- `settingsForm` (lines 38-55) builds a form render array. `t()` translates, and its `@` placeholders HTML-escape. Both are user-interface plumbing; the summary line is modelled untranslated and unescaped.
- The framework's own calls are represented by their results, passed in as inputs. These are the parent formatter's `defaultSettings`, `settingsSummary` and `getEntitiesToView`, the bundle-info service, and `getFieldDefinitions`.
- `getSetting` merges the defaults lazily. The model takes the settings as already merged, and a missing key reads as `null`.
- Field values are strings compared as PHP compares two non-numeric strings, by `strcmp`. PHP's numeric comparison of numeric strings, and integer or float field values, are not modelled; PHP's loose comparison of mixed types is not a total order.
- A field's value is its first item's `value`. Multi-valued fields are not modelled beyond that. A missing field and a `null` value are the same to `isset`, and the model treats them alike.
- Setting values of float or array type are not modelled.
- EntitiesToView.Usort: models `usort`'s promise, a sorted permutation, by an insertion sort. PHP's own hybrid sort may order equal elements differently. The model promises no stability. `SortedArrangementsAgree` shows that only ties can differ. `usort` is not stable before PHP 8.0, so entities with equal values may change relative order.
- EntitiesToView.GetEntitiesToView: the entity list is a sequence, so the model keeps only the order of the entities, not the array's keys. On the sorted path `usort` renumbers the keys 0 to n-1; on the unsorted path the parent's keys are returned as they were.
- FormatterSettings.GetFieldOptions: the result is a map, so the order of the options in the select list is not modelled. Per bundle, later definitions of a name replace earlier ones; only the names reach the result.
