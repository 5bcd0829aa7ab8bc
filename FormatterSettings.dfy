/**
 * The settings of the sorted entity-reference formatter: how its two
 * settings are read, the defaults it declares, the line it adds to the
 * settings summary, and the options offered for the sort field.
 */
module FormatterSettings {
  import opened Wrappers
  import opened Php

  /** A formatter's settings, already merged with its defaults. */
  type Settings = map<string, Value>

  const SORT_FIELD: string := "sort_field"
  const SORT_ASC: string := "sort_asc"

  /** The stored value of `key`, or `null` when there is none. */
  function GetSetting(settings: Settings, key: string): Value {
    if key in settings then settings[key] else Null
  }

  /** Sorting is switched on by a truthy `sort_field`. */
  predicate SortEnabled(settings: Settings) {
    Truthy(GetSetting(settings, SORT_FIELD))
  }

  /** The name of the field whose value orders the entities. */
  function SortFieldName(settings: Settings): string {
    ToString(GetSetting(settings, SORT_FIELD))
  }

  /** A truthy `sort_asc` asks for ascending order, anything else for descending. */
  predicate SortAscending(settings: Settings) {
    Truthy(GetSetting(settings, SORT_ASC))
  }

  /** The formatter's own defaults, laid over those of its parent formatter. */
  function DefaultSettings(parentDefaults: Settings): (r: Settings)
    ensures r.Keys == parentDefaults.Keys + {SORT_FIELD, SORT_ASC}
    ensures r[SORT_FIELD] == Str("title") && r[SORT_ASC] == Int(1)
    ensures forall k :: k in parentDefaults && k != SORT_FIELD && k != SORT_ASC ==> r[k] == parentDefaults[k]
  {
    Union(map[SORT_FIELD := Str("title"), SORT_ASC := Int(1)], parentDefaults)
  }

  /** Out of the box the formatter sorts by title, ascending. */
  lemma DefaultsSortByTitleAscending(parentDefaults: Settings)
    ensures SortEnabled(DefaultSettings(parentDefaults))
    ensures SortFieldName(DefaultSettings(parentDefaults)) == "title"
    ensures SortAscending(DefaultSettings(parentDefaults))
  {
  }

  const SUMMARY_PREFIX: string := "Sort by: "
  const ASC_SUFFIX: string := " , ASC"
  const DESC_SUFFIX: string := " , DESC"

  /** What the summary shows for the sort field: its value, or NONE when sorting is off. */
  function SummaryField(settings: Settings): string {
    var sortField := GetSetting(settings, SORT_FIELD);
    if Truthy(sortField) then ToString(sortField) else "NONE"
  }

  /** The field shown is never empty or `"0"`: a falsy `sort_field` shows as NONE. */
  lemma SummaryFieldTruthy(settings: Settings)
    ensures Truthy(Str(SummaryField(settings)))
  {
    TruthyAgreesWithString(GetSetting(settings, SORT_FIELD));
  }

  /** The line the formatter adds to the settings summary. */
  function SummaryLine(settings: Settings): string {
    SUMMARY_PREFIX + SummaryField(settings) + (if SortAscending(settings) then ASC_SUFFIX else DESC_SUFFIX)
  }

  /** The parent formatter's summary with the sort line appended. */
  function SettingsSummary(settings: Settings, parentSummary: seq<string>): (summary: seq<string>)
    ensures |summary| == |parentSummary| + 1
    ensures summary[..|parentSummary|] == parentSummary
    ensures summary[|parentSummary|] == SummaryLine(settings)
  {
    parentSummary + [SummaryLine(settings)]
  }

  /** Recovers the field shown and the direction from a summary line. */
  function ReadSummaryLine(line: string): Option<(string, bool)> {
    if |line| < |SUMMARY_PREFIX| || line[..|SUMMARY_PREFIX|] != SUMMARY_PREFIX then None
    else
      var rest := line[|SUMMARY_PREFIX|..];
      if |rest| >= |ASC_SUFFIX| && rest[|rest| - |ASC_SUFFIX|..] == ASC_SUFFIX then
        Some((rest[..|rest| - |ASC_SUFFIX|], true))
      else if |rest| >= |DESC_SUFFIX| && rest[|rest| - |DESC_SUFFIX|..] == DESC_SUFFIX then
        Some((rest[..|rest| - |DESC_SUFFIX|], false))
      else None
  }

  /**
   * The appended summary line names the field the entities are sorted by
   * (NONE when they are not sorted) and the direction of the sort.
   */
  lemma SummaryDescribesSorting(settings: Settings, parentSummary: seq<string>)
    ensures ReadSummaryLine(SettingsSummary(settings, parentSummary)[|parentSummary|])
         == Some((if SortEnabled(settings) then SortFieldName(settings) else "NONE", SortAscending(settings)))
  {
    var field := SummaryField(settings);
    var line := SummaryLine(settings);
    var suffix := if SortAscending(settings) then ASC_SUFFIX else DESC_SUFFIX;
    assert line == SUMMARY_PREFIX + (field + suffix);
    assert line[..|SUMMARY_PREFIX|] == SUMMARY_PREFIX;
    var rest := line[|SUMMARY_PREFIX|..];
    assert rest == field + suffix;
    assert rest[..|rest| - |suffix|] == field;
    if !SortAscending(settings) {
      assert rest[|rest| - |ASC_SUFFIX|] == ',';
      assert rest[|rest| - |ASC_SUFFIX|..] != ASC_SUFFIX;
    }
  }

  /**
   * The sort-field options: every field name defined on any bundle of the
   * target entity type, mapped to itself. `bundleFields` holds, bundle by
   * bundle, the field definitions keyed by field name.
   */
  method GetFieldOptions<D>(bundleFields: seq<map<string, D>>) returns (fieldOptions: map<string, string>)
    ensures forall name :: name in fieldOptions <==> exists b :: 0 <= b < |bundleFields| && name in bundleFields[b]
    ensures forall name :: name in fieldOptions ==> fieldOptions[name] == name
  {
    var fields: map<string, D> := map[];
    var b := 0;
    while b < |bundleFields|
      invariant 0 <= b <= |bundleFields|
      invariant forall name :: name in fields <==> exists c :: 0 <= c < b && name in bundleFields[c]
    {
      fields := fields + bundleFields[b];
      b := b + 1;
    }
    fieldOptions := map[];
    var todo := fields.Keys;
    while todo != {}
      invariant todo <= fields.Keys
      invariant fieldOptions.Keys == fields.Keys - todo
      invariant forall name :: name in fieldOptions ==> fieldOptions[name] == name
      decreases todo
    {
      var name :| name in todo;
      fieldOptions := fieldOptions[name := name];
      todo := todo - {name};
    }
  }
}
