# fess-kopf core, modelled in Dafny

This project models the small, self-contained parts of the fess-kopf web console for OpenSearch that hold real logic:

- **`Version`** (`ElasticVersion`, version.dfy) is the value built from a cluster's version string. The constructor finds the leftmost match of the unanchored pattern `(\d+)\.(\d+)\.(\d+)\.*`. It keeps the three numbers of that match and the distribution name, which defaults to `elasticsearch`. It also provides the lexicographic comparison `isGreater` and the OpenSearch 2.x and 3.x gates. The pattern is modelled by position: a match starts at a maximal digit run followed by a dot, then a second non-empty run, a dot, and a third run. Greedy `\d+` cannot give back digits before a dot, so the runs are always maximal.
- **`ExternalSettingsService`** (`ExternalSettings`, external_settings.dfy) is a class holding the settings map, which starts out null. The map is loaded lazily from the external settings file and then overlaid with the user preferences from local storage. The service has getters for the host, the root path (the new key falling back to the legacy key), credentials, refresh rate and theme, and setters that save preferences. Only `refresh_rate` and `theme` ever pass between the settings and storage.
- **The version manager script** (`SetVersionScript`, set_version.dfy) dispatches on its arguments:
  - `release` removes `-SNAPSHOT`.
  - `snapshot` bumps the minor number, resets the patch number and appends `-SNAPSHOT`.
  - Any other argument sets the version outright.
  - No argument prints the usage text.

  The script then writes the result to package.json, but only if it matches `^\d+\.\d+\.\d+(-SNAPSHOT)?$`.
- **`PageService`** (`PageTitle`, page.dfy) keeps the page title in step with the connected cluster's name.
- **`NodesController`** (`NodesView`, nodes.dfy) holds the node list's sort column and direction, and the list of nodes that pass the current filter.

Shared pieces:

- `Wrappers` provides `Option` and `Result`.
- `Digits` provides digit runs, decimal values and the decimal rendering of a number.

JavaScript's `undefined` is `None` wherever the source can produce it:

- a version's numbers when it does not parse;
- a missing setting (the `Undefined` value);
- an absent command-line argument;
- an absent cluster.

In JavaScript, `undefined == undefined` holds, but every `>` or `>=` involving `undefined` is false. The model writes out these comparisons as `JsEq`, `JsGt` and `JsGe`.

## Model

| member | source | states |
|---|---|---|
| ElasticVersion.MatchAt | src/kopf/elastic/version.js:2-12 | A match found at a position consists of three non-empty digit runs joined by two dots, and its third run is maximal. |
| ElasticVersion.FindMatch | src/kopf/elastic/version.js:2-12 | The search returns a position where a match starts and no match starts before it. When it finds nothing, no position holds a match. |
| ElasticVersion.NewVersion | src/kopf/elastic/version.js:1-16 | The constructed version keeps the input string as its value and records the given name as its distribution, `elasticsearch` when the name is missing or empty. Its three numbers are defined exactly when it is valid. |
| ElasticVersion.ValidIffContainsTriple | src/kopf/elastic/version.js:2-11 | A version is valid iff its string contains, anywhere, three non-empty digit runs joined by two dots. |
| ElasticVersion.FindMatchIsLeftmost | src/kopf/elastic/version.js:2-12 | The match search succeeds iff such a substring exists. What it finds is the leftmost match, with each digit run maximal. |
| ElasticVersion.MatchStartsAtRun | src/kopf/elastic/version.js:2-12 | The leftmost match starts at the beginning of the string or right after a non-digit, that is, at the start of a whole digit run. |
| ElasticVersion.FindMatchFindsLeftmost | src/kopf/elastic/version.js:10-12 | Any leftmost, maximal match of the pattern is the one the search returns. |
| ElasticVersion.NumbersOfLeftmostMatch | src/kopf/elastic/version.js:10-16 | For the leftmost match, major, minor and patch are the decimal values of its first, second and third digit runs. |
| ElasticVersion.NoDigitsInvalid | src/kopf/elastic/version.js:10-16 | A string without digits gives an invalid version. |
| ElasticVersion.ParseExample | src/kopf/elastic/version.js:10-16 | `2.11.1` for OpenSearch parses to 2, 11 and 1. It passes the 2.x gate but not the 3.x gate. |
| ElasticVersion.DistributionOf | src/kopf/elastic/version.js:8 | A missing or empty name gives `elasticsearch`. Any other name is kept. |
| ElasticVersion.DistributionExamples | src/kopf/elastic/version.js:42-48 | Without a name a version is an Elasticsearch one. No version is both Elasticsearch and OpenSearch. |
| ElasticVersion.Version.IsElasticsearch | src/kopf/elastic/version.js:42-44 | True iff the distribution is `elasticsearch`. Then it is not `opensearch`. |
| ElasticVersion.Version.IsOpenSearch | src/kopf/elastic/version.js:46-48 | True iff the distribution is `opensearch`. Then the version is not an Elasticsearch one. |
| ElasticVersion.Version.IsGreater | src/kopf/elastic/version.js:50-59 | When it holds, the first of major, minor and patch where the two versions differ is defined on both sides and larger here. If all three agree, the patch numbers are defined. |
| ElasticVersion.IsGreaterIsLexGe | src/kopf/elastic/version.js:50-59 | `isGreater` holds iff both versions are valid and (major, minor, patch) is lexicographically at least the other's. |
| ElasticVersion.IsGreaterReflexive | src/kopf/elastic/version.js:50-59 | Every valid version is greater than or equal to itself. |
| ElasticVersion.IsGreaterTotal | src/kopf/elastic/version.js:50-59 | For two valid versions, at least one direction holds. Both hold iff the triples are equal. |
| ElasticVersion.IsGreaterTransitive | src/kopf/elastic/version.js:50-59 | The comparison is transitive. |
| ElasticVersion.InvalidNeverCompares | src/kopf/elastic/version.js:50-59 | If either version is invalid, `isGreater` is false: the comparisons with `undefined` all fail. |
| ElasticVersion.Version.IsOpenSearch2OrLater | src/kopf/elastic/version.js:62-64 | The gate holds iff the distribution is `opensearch` and the major number is defined and at least 2. |
| ElasticVersion.Version.IsOpenSearch3OrLater | src/kopf/elastic/version.js:66-68 | The gate holds iff the distribution is `opensearch` and the major number is defined and at least 3. It implies the 2.x gate. |
| ElasticVersion.OpenSearchGatesNeedOpenSearch | src/kopf/elastic/version.js:62-68 | A version whose distribution is not `opensearch` passes neither gate. |
| ExternalSettings.Persisted | src/kopf/services/external_settings.js:117-123 | The saved object has exactly the whitelisted keys present in the settings, with the same values. |
| ExternalSettings.Serialized | src/kopf/services/external_settings.js:124-132 | What storage gives back after `JSON.stringify` and `JSON.parse` has exactly the entries whose value is not `undefined`, with the same values. |
| ExternalSettings.Merged | src/kopf/services/external_settings.js:140-148 | Updating copies the whitelisted entries of the argument. Every other key is unchanged, and no key is removed. |
| ExternalSettings.RootPath | src/kopf/services/external_settings.js:81-88 | The root path is `opensearch_root_path` when that key is neither null nor undefined. Otherwise it is `elasticsearch_root_path`, possibly undefined. |
| ExternalSettings.EmptyRootPathWins | src/kopf/services/external_settings.js:84-85 | An empty `opensearch_root_path` is still returned: only null and undefined fall back. |
| ExternalSettings.SaveLoadRoundTrip | src/kopf/services/external_settings.js:117-148 | Updating the settings with what saving them stores and loading reads back leaves them unchanged, also when a whitelisted entry is `undefined` and is not written. |
| ExternalSettings.MergeIdempotent | src/kopf/services/external_settings.js:140-148 | Applying the same update twice equals applying it once. |
| ExternalSettings.PersistedAfterMerge | src/kopf/services/external_settings.js:117-148 | After an update, the saved object is the earlier saved object overwritten by the update's whitelisted entries. |
| ExternalSettings.PersistedAdd | src/kopf/services/external_settings.js:119-122 | Adding one entry adds it to the saved object exactly when its key is whitelisted. |
| ExternalSettings.SettingsService.constructor | src/kopf/services/external_settings.js:19 | A new service holds no settings. |
| ExternalSettings.SettingsService.GetSettings | src/kopf/services/external_settings.js:21-28 | The first call builds the settings from the file and the stored preferences. Later calls return the held settings unchanged. Storage is untouched. |
| ExternalSettings.SettingsService.LoadLocalSettings | src/kopf/services/external_settings.js:127-138 | Returns the stored object, or `{}` when there is none. |
| ExternalSettings.SettingsService.UpdateSettings | src/kopf/services/external_settings.js:140-148 | A loop over the argument's keys leaves the settings equal to `Merged`. A null argument changes nothing. While the settings are still null, the call throws iff the argument has a whitelisted key, and nothing changes. |
| ExternalSettings.SettingsService.SaveSettings | src/kopf/services/external_settings.js:117-125 | A loop over the settings' keys builds exactly `Persisted(settings)`, and storage holds it as `JSON.stringify` writes it (`Serialized`). The settings are unchanged. |
| ExternalSettings.SettingsService.GetOpenSearchHost | src/kopf/services/external_settings.js:65-67 | Returns the `location` setting, `undefined` when absent. |
| ExternalSettings.SettingsService.GetElasticsearchHost | src/kopf/services/external_settings.js:69-72 | Returns exactly what `GetOpenSearchHost` returns. |
| ExternalSettings.SettingsService.GetOpenSearchRootPath | src/kopf/services/external_settings.js:81-88 | Returns `RootPath` of the settings. |
| ExternalSettings.SettingsService.GetElasticsearchRootPath | src/kopf/services/external_settings.js:90-93 | Returns exactly what `GetOpenSearchRootPath` returns. |
| ExternalSettings.SettingsService.WithCredentials | src/kopf/services/external_settings.js:95-97 | Returns the `with_credentials` setting. |
| ExternalSettings.SettingsService.GetRefreshRate | src/kopf/services/external_settings.js:99-101 | Returns the `refresh_rate` setting. |
| ExternalSettings.SettingsService.SetRefreshRate | src/kopf/services/external_settings.js:103-106 | Sets only `refresh_rate`, then stores the whitelisted part of the new settings without its `undefined` entries. |
| ExternalSettings.SettingsService.GetTheme | src/kopf/services/external_settings.js:108-110 | Returns the `theme` setting. |
| ExternalSettings.SettingsService.SetTheme | src/kopf/services/external_settings.js:112-115 | Sets only `theme`, then stores the whitelisted part of the new settings without its `undefined` entries. |
| ExternalSettings.PreferenceSurvivesReload | src/kopf/services/external_settings.js:103-106 | A refresh rate that was set is seen by a fresh service over the same file and the storage just written. An `undefined` rate is not written, and the fresh service sees the file's rate instead. |
| SetVersionScript.IndexFrom | scripts/set-version.js:27-31 | Finds the first occurrence at or after a position, or reports that there is none. |
| SetVersionScript.Contains | scripts/set-version.js:27 | `includes` can only hold for a pattern no longer than the string. |
| SetVersionScript.ContainsIffOccurs | scripts/set-version.js:27 | `includes` holds iff the pattern occurs at some position. |
| SetVersionScript.ReplaceFirst | scripts/set-version.js:31-34 | A string without the pattern is returned unchanged. |
| SetVersionScript.ReplaceFirstOccurrence | scripts/set-version.js:31-34 | A string with the pattern has its first occurrence, and only that one, replaced. Everything before and after it is kept. |
| SetVersionScript.Split | scripts/set-version.js:34 | `split('.')` yields at least one part, and no part holds the separator. |
| SetVersionScript.JoinSplit | scripts/set-version.js:34-41 | Joining the parts of a split gives back the string. |
| SetVersionScript.SplitJoin | scripts/set-version.js:34-41 | Splitting the join of separator-free parts gives back the parts. |
| SetVersionScript.SplitCount | scripts/set-version.js:34-35 | A split yields one more part than there are separators. |
| SetVersionScript.Join | scripts/set-version.js:41 | The join starts with the first part, followed by the separator when there is a second part. |
| SetVersionScript.TrimStart | scripts/set-version.js:39 | `parseInt` skips leading white space: what remains is a suffix that does not start with white space. |
| SetVersionScript.TrimStartDropsOnlySpace | scripts/set-version.js:39 | Every character skipped is ECMAScript white space or a line terminator. |
| SetVersionScript.Unsigned | scripts/set-version.js:39 | Dropping the sign leaves a suffix of the text. |
| SetVersionScript.ParseInt | scripts/set-version.js:39 | `parseInt(s, 10)`: skip leading white space, read one optional sign, then take the leading digit run, or NaN when that run is empty. Its meaning is stated by `ParseIntNaN`, `ParseIntDigits`, `ParseIntNegative`, `ParseIntPositive`, `ParseIntSkipsSpace` and `ParseIntShowInt`. |
| SetVersionScript.ParseSigned | scripts/set-version.js:39 | The step after the white space: the sign, then the digit run. `ParseSignedSign` states that the sign decides the sign of the result. |
| SetVersionScript.ParseIntNaN | scripts/set-version.js:39 | `parseInt` is NaN iff no digit follows the white space and the optional sign. |
| SetVersionScript.ParseSignedSign | scripts/set-version.js:39 | A number read after `-` is never positive. One read without it is never negative. |
| SetVersionScript.ParseIntDigits | scripts/set-version.js:39 | A digit string followed by a non-digit (or by nothing) is read as its decimal value. |
| SetVersionScript.ParseIntDecimal | scripts/set-version.js:39 | `parseInt` of a digit string is its decimal value. |
| SetVersionScript.ParseIntNoDigits | scripts/set-version.js:39 | A text without digits is NaN. |
| SetVersionScript.ParseIntSkipsSpace | scripts/set-version.js:39 | A leading white-space character does not change the result. |
| SetVersionScript.ParseIntNegative | scripts/set-version.js:39 | A `-` before the digits negates the value. |
| SetVersionScript.ParseIntPositive | scripts/set-version.js:39 | A `+` before the digits is read past. |
| SetVersionScript.ParseIntMinus | scripts/set-version.js:39 | A `-` followed by digits only is read as the negated value. |
| SetVersionScript.ParseIntShowInt | scripts/set-version.js:39-41 | `parseInt` reads back the decimal text of every integer, negative ones included. |
| SetVersionScript.BumpText | scripts/set-version.js:39-41 | `parseInt(part, 10) + 1` as `join` prints it. `BumpTextNaN`, `BumpTextOfDecimal` and `BumpTextReadsBack` state its meaning: `NaN` iff the part is NaN, M + 1 in decimal for a digit string, and text that parses back to the number plus one. |
| SetVersionScript.Bumped | scripts/set-version.js:39-41 | The text is `NaN` iff `parseInt` gave NaN. |
| SetVersionScript.BumpTextNaN | scripts/set-version.js:39-41 | The bumped part is `NaN` iff `parseInt` of the part is NaN. |
| SetVersionScript.BumpTextOfDecimal | scripts/set-version.js:39-41 | The bumped minor part of a digit string is the decimal text, without a leading zero, of its value plus one. |
| SetVersionScript.BumpTextReadsBack | scripts/set-version.js:39-41 | When the part parses to a number, the bumped text parses to that number plus one, signs and leading white space included. |
| SetVersionScript.BumpTextNoDigits | scripts/set-version.js:39-41 | A part without digits bumps to `NaN`. |
| SetVersionScript.IsVersion | scripts/set-version.js:66-67 | An accepted text is at least five characters long and starts with a digit. |
| SetVersionScript.IsVersionIff | scripts/set-version.js:66-67 | The format check accepts exactly the texts `N.M.X` and `N.M.X-SNAPSHOT` with N, M and X non-empty digit strings. |
| SetVersionScript.PiecesOfAccepted | scripts/set-version.js:66-67 | An accepted text splits back into its three digit strings and its optional suffix. |
| SetVersionScript.AcceptsVersionText | scripts/set-version.js:66-67 | Every text built from three digit strings, with or without `-SNAPSHOT`, is accepted. |
| SetVersionScript.StripSnapshot | scripts/set-version.js:27-34 | A version text holds `-SNAPSHOT` iff it is a snapshot. Removing the first `-SNAPSHOT` leaves `N.M.X`. |
| SetVersionScript.Release | scripts/set-version.js:25-31 | `release` fails iff the version does not contain `-SNAPSHOT`, and it then fails as not a snapshot. Otherwise it returns the version with the first `-SNAPSHOT` removed, which `ReplaceFirstOccurrence` characterises. |
| SetVersionScript.ReleaseOfVersion | scripts/set-version.js:25-31 | `release` turns `N.M.X-SNAPSHOT` into `N.M.X` and refuses `N.M.X` as not a snapshot. |
| SetVersionScript.Snapshot | scripts/set-version.js:32-41 | `snapshot` can only fail with the format error. What it returns ends with `-SNAPSHOT`. |
| SetVersionScript.SnapshotOfVersion | scripts/set-version.js:32-41 | `snapshot` turns `N.M.X` and `N.M.X-SNAPSHOT` into `N.M'.0-SNAPSHOT`, where M' is M + 1 in decimal. |
| SetVersionScript.SnapshotFailsOnFewDots | scripts/set-version.js:34-38 | `snapshot` fails, with the format error, exactly when the stripped version has fewer than two dots, that is, fewer than three parts. |
| SetVersionScript.TransformsPreserveFormat | scripts/set-version.js:25-70 | On an accepted version, `snapshot` succeeds with an accepted version. A successful `release` also yields an accepted version. |
| SetVersionScript.ExitCode | scripts/set-version.js:29-69 | Among the ways the script stops early, exit status 0 belongs to the usage text alone. Every error stop exits with 1. |
| SetVersionScript.Choose | scripts/set-version.js:25-63 | The branch chosen never fails with the final format error. It stops with the usage text iff neither argument is a non-empty string. |
| SetVersionScript.Run | scripts/set-version.js:25-70 | A chosen version is written iff it passes the format check; one that fails it stops with the format error. A failure of `release` or `snapshot` (or the usage stop) comes out unchanged. |
| SetVersionScript.RunSnapshot | scripts/set-version.js:32-70 | Run on an accepted `N.M.X` or `N.M.X-SNAPSHOT`, `snapshot` yields `N.M'.0-SNAPSHOT`, which passes the check. |
| SetVersionScript.RunRelease | scripts/set-version.js:25-70 | Run on `N.M.X-SNAPSHOT`, `release` yields `N.M.X`, which passes the check. On `N.M.X` it stops as not a snapshot. |
| SetVersionScript.DispatchOrder | scripts/set-version.js:15-63 | `release` and `snapshot` win whatever follows them. Otherwise a single non-empty argument is the version. Otherwise a non-empty second argument is. With neither, the usage text is printed. |
| SetVersionScript.SetAcceptsOnlyVersions | scripts/set-version.js:42-70 | A version given as the sole argument is written exactly when it passes the check. |
| SetVersionScript.SetVersion | scripts/set-version.js:15-74 | The script body returns `Run` of its arguments and the old version. package.json's version becomes the new version on success and is untouched on every error. |
| Digits.Value | scripts/set-version.js:39 | A single digit is worth its digit value. |
| Digits.ValueZero | scripts/set-version.js:39 | A digit string is worth zero iff all its digits are `0`. |
| Digits.ValueLeadingZero | scripts/set-version.js:39 | A leading zero does not change the value. |
| Digits.Show | scripts/set-version.js:39-41 | The decimal text of a number is a non-empty digit string without a leading zero whose value is the number. |
| Digits.ShowInt | scripts/set-version.js:39-41 | The text of a negative number is `-` followed by the digits of its magnitude, without a leading zero. Others print as `Show` does. |
| PageTitle.Retitled | src/kopf/services/page.js:31-40 | After a call the remembered name is the argument. An unchanged name leaves everything alone. A new truthy name gives `kopf[name]`. A new falsy name gives `kopf - no connection`. |
| PageTitle.RetitledIdempotent | src/kopf/services/page.js:31-40 | Calling twice with the same name equals calling once. |
| PageTitle.TitleDeterminedByName | src/kopf/services/page.js:31-40 | After a change of name, the new state depends on that name alone. |
| PageTitle.ReconnectRestoresTitle | src/kopf/services/page.js:31-40 | Losing the connection and reconnecting to a named cluster shows that cluster's title. |
| PageTitle.WatchedName | src/kopf/services/page.js:17-24 | The watcher passes the cluster's name when there is a cluster, and `undefined` otherwise. |
| PageTitle.PageService.constructor | src/kopf/services/page.js:7 | The service starts with no cluster name. |
| PageTitle.PageService.SetPageTitle | src/kopf/services/page.js:31-40 | Updates the name and the title as `Retitled` says. |
| PageTitle.PageService.OnClusterChange | src/kopf/services/page.js:17-24 | A change of cluster retitles the page with the watched name. |
| NodesView.Toggled | src/kopf/controllers/nodes.js:9-14 | The sort column becomes the field. The direction flips when the field was already the column, and stays otherwise. |
| NodesView.ToggleTwiceRestores | src/kopf/controllers/nodes.js:9-14 | Clicking the current column twice restores the original direction. |
| NodesView.NewColumnTwiceFlips | src/kopf/controllers/nodes.js:9-14 | Clicking a new column twice sorts by it in the opposite of the old direction. |
| NodesView.Filtered | src/kopf/controllers/nodes.js:41-43 | The result holds only kept nodes, every kept node, and no more nodes than the input. |
| NodesView.FilteredConcat | src/kopf/controllers/nodes.js:41-43 | Filtering distributes over concatenation. |
| NodesView.FilteredCounts | src/kopf/controllers/nodes.js:41-43 | Each kept node appears as often as in the input. Every other node is absent. |
| NodesView.FilteredIsSubsequence | src/kopf/controllers/nodes.js:41-43 | The filtered list keeps the input's order: it is a subsequence of it. |
| NodesView.NodesController.constructor | src/kopf/controllers/nodes.js:6-22 | The controller starts sorted by `name`, not reversed, with no nodes. |
| NodesView.NodesController.SetSortBy | src/kopf/controllers/nodes.js:9-14 | The sort state becomes `Toggled`. The node list is unchanged. |
| NodesView.NodesController.Refresh | src/kopf/controllers/nodes.js:39-44 | The node list becomes the filtered cluster node list. The sort state is unchanged. |

## Left out

- The `$.ajax` fetch of kopf_external_settings.json (external_settings.js:30-58) is network I/O. Its result is the service's `remote` map, and the exceptions thrown when the fetch fails or the data cannot be read are not modelled.
- `localStorage` and `JSON.parse`/`JSON.stringify` are browser storage and a foreign parser. Storage holds the parsed object directly. An absent, empty or unreadable entry is `None`, which loads as `{}`. `Serialized` drops the entries `JSON.stringify` leaves out (`undefined` values). A stored `null` parses to `null`, whose update is a no-op, and the model treats it like an absent entry, which has the same effect.
- ExternalSettings.SettingsService.UpdateSettings: the TypeError it throws while the settings are still null is a `thrown` result, not an exception that unwinds the caller.
- `isDefined` comes from the console's util helpers, which are not part of this model. It is taken to mean neither `null` nor `undefined`.
- `DebugService` logging in `loadLocalSettings` is left out, since it is output only.
- The file read and write of package.json, the `console` output and `process.exit` in set-version.js are I/O. Stopping is modelled as a `Failure` carrying the reason, with its exit status given by `ExitCode`.
- SetVersionScript.ParseInt: leading white space, the sign and the leading digit run are modelled, but the value is an exact integer for any number of digits. JavaScript numbers are IEEE doubles and round above 2^53.
- SetVersionScript.BumpText: the bumped number is printed as an exact decimal. In JavaScript, `parseInt(part) + 1` is a double: above 2^53 it is rounded, and from 10^21 on `join` prints it in exponent form, such as `1e+21`.
- SetVersionScript.TransformsPreserveFormat: holds for the model's exact numbers only. In the source, a minor number of 10^21 - 1 or more bumps to a text such as `1e+21`, which fails the final check, so `snapshot` stops with the format error.
- ElasticVersion.NewVersion: the numbers are exact integers. In the source, `parseInt` rounds above 2^53, so `9007199254740993.0.0` and `9007199254740992.0.0` get the same major number and each `isGreater` the other, unlike in `IsGreaterTotal`.
- The favicon lookup and `$document` handling in page.js (lines 9-15), and the dependency injection and `$watch` registration, are Angular glue. The watcher's body is modelled as `OnClusterChange`.
- `showNodeStats` in nodes.js (lines 46-55) is an asynchronous network callback with alert output.
- The `filter` watcher and `AppState` lookup in nodes.js (lines 16-37) are Angular glue. `Refresh` receives the node list and the filter's `matches` as arguments.
- The cluster-state model (Paginator, IndexFilter, NodeFilter, Node, Index, Shard, ClusterChanges) and the navbar, cat, hotthreads, cluster_settings and cluster_stats controllers are not part of this model.
- The tests assert that the deprecated accessors `getElasticsearchHost` and `getElasticsearchRootPath` are absent. The source defines them, and the model follows the source.
