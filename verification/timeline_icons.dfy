/**
 The icon choices of icon_implementation_examples.js: a fixed lookup table with
 a fallback, and a preference-first choice whose theme branch is moot.
 */
module TimelineIcons {
  import opened Optional

  /** The own keys of `iconMap` in `getTimelineIcon` and their icons. */
  const IconMap: map<string, string> := map[
    "chronological" := "clock",
    "project" := "tasks",
    "historical" := "history",
    "event" := "calendar-alt",
    "process" := "stream",
    "default" := "stream"
  ]

  /** The icon `getTimelineIcon` falls back to: `iconMap.default`. */
  const DefaultIcon: string := "stream"

  /** `getTimelineIcon(timelineType)`. `None` is a call without an argument,
      which JavaScript's default parameter turns into `'default'`. A lookup
      that misses yields `undefined`, which `||` replaces by the default. */
  function GetTimelineIcon(timelineType: Option<string>): (r: string)
    ensures r in {"clock", "tasks", "history", "calendar-alt", "stream"}
    ensures timelineType.None? ==> r == DefaultIcon
    ensures timelineType.Some? && timelineType.value in IconMap ==> r == IconMap[timelineType.value]
    ensures timelineType.Some? && timelineType.value !in IconMap ==> r == DefaultIcon
  {
    var key := if timelineType.Some? then timelineType.value else "default";
    if key in IconMap && IconMap[key] != "" then IconMap[key] else IconMap["default"]
  }

  /** The six table entries, one by one; `process` and `default` share `stream`. */
  lemma IconTableEntries()
    ensures GetTimelineIcon(Some("chronological")) == "clock"
    ensures GetTimelineIcon(Some("project")) == "tasks"
    ensures GetTimelineIcon(Some("historical")) == "history"
    ensures GetTimelineIcon(Some("event")) == "calendar-alt"
    ensures GetTimelineIcon(Some("process")) == GetTimelineIcon(Some("default")) == "stream"
    ensures GetTimelineIcon(None) == "stream"
  {
  }

  /** `getAdaptiveTimelineIcon()`, with the dark-mode class test and the stored
      preference (`localStorage.getItem`, `null` as `None`) as parameters. */
  function GetAdaptiveTimelineIcon(isDarkMode: bool, preference: Option<string>): (r: string)
    ensures r != ""
    ensures preference.Some? && preference.value != "" ==> r == preference.value
    ensures preference.None? || preference.value == "" ==> r == DefaultIcon
  {
    if preference.Some? && preference.value != "" then preference.value
    else if isDarkMode then "stream" else "stream"
  }

  /** The theme never changes the adaptive choice. */
  lemma AdaptiveIconIgnoresTheme(preference: Option<string>)
    ensures GetAdaptiveTimelineIcon(true, preference) == GetAdaptiveTimelineIcon(false, preference)
  {
  }

  /** Without a stored preference, the adaptive choice is the table's default. */
  lemma AdaptiveIconDefaultsLikeTable(isDarkMode: bool)
    ensures GetAdaptiveTimelineIcon(isDarkMode, None) == GetTimelineIcon(None)
    ensures GetAdaptiveTimelineIcon(isDarkMode, Some("")) == GetTimelineIcon(None)
  {
  }
}
