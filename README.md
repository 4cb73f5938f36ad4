# tfs cache core, in Dafny

`tfs` keeps a local cache of Terraform binaries, one file per release, named by a
configurable prefix followed by the release's version (`terraform_1.10.2`). A
symbolic link `terraform` in the user's bin directory points to the active one. This
project models the core of the tool:

- **Constraint expansion** (`pkg/tfs/util.go`). `expandPessimistic` rewrites every
  `~> X[.Y[.Z]]` operand into the clause pair `>=lower, <upper`. The model follows the
  code's own mechanics: the regular expression's leftmost non-overlapping matches, the
  `strconv.Atoi` loop, the `switch` and the `strings.Replace(out, full, repl, 1)`
  rebinding of `out`. It proves that this loop produces the in-place rewrite.
  `newConstraintExtended` hands the result to a model of `version.NewConstraint`.
  `versionFromFileName` strips the prefix and parses what remains.
- **Version extraction** (`pkg/tfs/terraform.go`). `parseVersionConstraint` takes the
  first dotted number of a `required_version` text, pads it to three parts and cuts it
  there. `GetTfVersion` tries an exact version first and falls back to that extraction.
- **The cache** (`pkg/tfs/cache.go`). `localCache` is the class `Cache.LocalCache`,
  with `Load`, `isEmpty`, `Size`, `Prune`, `PruneUntil` and `AutoClean`. Its
  operations work on an abstract `Disk.FileSystem`: a map from paths to file sizes,
  plus the optional target of the `terraform` link.
- **Releases** (`pkg/tfs/release.go`). A release is a value: its version, the text the
  version was parsed from, its directory and its file name. `SameAs` is
  `reflect.DeepEqual`, so it compares that text too. `SameAs`, `Size` and `Remove` work
  on the disk alone. `Init`, `Install`
  and `Activate` also set the global cache's fields, so they are methods of
  `LocalCache`.

Versions are `(major, minor, patch)` triples, ordered lexicographically and printed as
`X.Y.Z`. Each imperative operation is a method whose `ensures` ties the new disk and
cache state to a specification function: `Loaded`, `Removed`, `Victims`, `Older`,
`Rewrite`/`Expand` or `ConstraintVersion`. The properties the code and its tests
promise are proved about those functions as lemmas.

`AutoClean` orders the minor-line keys and, in default mode, the release keys with
`sort.Strings`, that is as strings. So `"1.10.0"` sorts before `"1.9.0"`. The
description of the tool and its tests expect version order. The model follows the
code, and `Cache.LocalCache.AutoClean` is proved against the string order. The
version-ordered retention lives apart, in module `IntendedRetention`, with its
"oldest first" guarantees proved. Both outcomes are worked out on the tests' caches
(see "Findings").

Go's version values keep the text they were parsed from, and `SameAs` compares whole
values. In the rows below, "except the current release" therefore means "except a
release `SameAs` the current one": the same version, read from the same text, in the
same file. A current release made from `required_version = "1.2"` is not `SameAs` the
1.2.0 that `Load` reads back from `terraform_1.2.0`, so `AutoClean` may remove it. The
model keeps this behaviour. The comparison by version lives in `IntendedRetention`
(see "Findings").

A dropped minor line `X.Y` removes what the constraint `~X.Y.0` matches. The semver
library reads `~0.0.0`, which has no wildcard, as `>= 0.0.0`. So when line 0.0 is
dropped, every release except the current one goes. The model keeps this behaviour too
(see "Findings").

## Model

| member | source | states |
|---|---|---|
| Util.VersionFromFileNameOf | pkg/tfs/util.go:15-17 | A file named prefix + printed version reads back as exactly that version, provided the prefix holds a character a printed version never holds. |
| Util.NewConstraintWithoutOperator | pkg/tfs/util.go:85-91 | Follows from the definitions: a text without `~>` reaches `version.NewConstraint` untouched. |
| Util.PessimisticRange | pkg/tfs/util.go:85-91 | `~> ` followed by one to three numerals parses to the pair `>=lower, <upper`. That pair holds for `v` exactly when lower <= v < upper. |
| Util.PessimisticMajor | pkg/tfs/util.go:61-63 | The constraint from `~> X` holds exactly for X.0.0 <= v < (X+1).0.0. |
| Util.PessimisticMinor | pkg/tfs/util.go:64-67 | The constraint from `~> X.Y` holds exactly for X.Y.0 <= v < X.(Y+1).0. |
| Util.PessimisticPatch | pkg/tfs/util.go:68-72 | The constraint from `~> X.Y.Z` holds exactly for X.Y.Z <= v < X.(Y+1).0. |
| Constraints.ExpandPessimistic | pkg/tfs/util.go:35-82 | Input without `~>` comes back unchanged with no error. An error returns the input itself. A success never contains `~>`. The outcome equals the specification `Expand`. |
| Constraints.ReplaceMatches | pkg/tfs/util.go:40-76 | Replacing each match found with `strings.Replace(out, full, repl, 1)` gives the in-place rewrite of every match. Each replacement lands on its own match and on no earlier occurrence of the same text. |
| Constraints.ClausePair | pkg/tfs/util.go:50-74 | The `Atoi` loop and the `switch` produce the clause pair of the numerals: `>=X.0.0, <X+1.0.0`, `>=X.Y.0, <X.Y+1.0` or `>=X.Y.Z, <X.Y+1.0`. |
| Constraints.ReplacementHasNoTilde | pkg/tfs/util.go:74 | A clause pair holds no `~`, so a replacement can neither contain nor create a match. |
| Expansion.ExpandWithoutOperator | pkg/tfs/util.go:36-38 | Text without `~>`, the empty text included, is its own rewrite and its own expansion: the early return agrees with the loop. |
| Expansion.ExpandOutcome | pkg/tfs/util.go:77-81 | A rewrite without `~` is the result. A rewrite that still holds `~>` makes the error that names the whole input. |
| Expansion.ExpandSingle | pkg/tfs/util.go:40-76 | A lone operand between texts without `~` becomes its clause pair, in place. The text around it is kept verbatim. |
| Expansion.ExpandTwo | pkg/tfs/util.go:41-76 | Two operands are both expanded, each in its own place, with the text between and after them kept. |
| Expansion.ExpandDangling | pkg/tfs/util.go:77-80 | A `~>` that no version follows survives the rewrite, so the input is rejected with the error naming it. |
| Expansion.ExpandDanglingAfter | pkg/tfs/util.go:77-80 | An expanded operand does not save a later dangling `~>`: the whole input is rejected. |
| Expansion.ExpandMajor | pkg/tfs/util.go:61-63 | `~> X` becomes `>=X.0.0, <(X+1).0.0`, and the text after the operand is kept after it. |
| Expansion.ExpandMinor | pkg/tfs/util.go:64-67 | `~> X.Y` becomes `>=X.Y.0, <X.(Y+1).0`. |
| Expansion.ExpandPatch | pkg/tfs/util.go:68-72 | `~> X.Y.Z` becomes `>=X.Y.Z, <X.(Y+1).0`. |
| Comparators.ParseConstraintText | pkg/tfs/util.go:90 | Printing clauses separated by `", "` and parsing the text with the `NewConstraint` model gives back the same clauses. |
| Comparators.ParseEachMeaning | pkg/tfs/util.go:90 | The constraint parses exactly when every comma-separated clause does. It then holds one clause per piece, in order. |
| Comparators.CheckRange | pkg/tfs/util.go:74 | The pair `>=lo, <hi` holds for `v` exactly when lo <= v < hi. |
| Comparators.ParseClauseText | pkg/tfs/util.go:90 | A printed clause, after any spaces, parses back to that clause. |
| Versions.LessStrictTotalOrder | pkg/tfs/cache.go:212 | Follows from the definitions: version precedence is irreflexive, transitive and total, so sorting versions is well defined. |
| Versions.ParseToString | pkg/tfs/cache.go:53 | Parsing a printed version gives back the version. |
| Versions.ToStringInjective | pkg/tfs/cache.go:53 | Different versions print differently, so the printed version can be the map key. |
| Versions.ParseWithV | pkg/tfs/terraform.go:52 | A leading `v` is accepted by the exact-version parse. |
| Versions.ParseMajorOnly | pkg/tfs/terraform.go:52 | A lone numeral parses with minor and patch zero. |
| Versions.ParseMajorMinor | pkg/tfs/terraform.go:52 | `X.Y` parses with patch zero. |
| Versions.ParseAlphabet | pkg/tfs/terraform.go:52 | Only non-empty text of digits and dots, after an optional `v`, parses as a version. |
| Versions.ParseTriple | pkg/tfs/terraform.go:79-81 | Three numerals joined by dots parse to their decimal values. |
| Terraform.ParseVersionConstraint | pkg/tfs/terraform.go:63-82 | The padding loop and the parse yield exactly `ConstraintVersion`: the error naming the constraint, or the first dotted number padded with zeros and cut to three parts. The version is read from the normalized text it returns. |
| Terraform.PaddedParse | pkg/tfs/terraform.go:76-81 | The first three parts after padding with `"0"` parse to the token's numerals, zero where missing and the fourth part onwards dropped. |
| Terraform.NoVersionFound | pkg/tfs/terraform.go:67-70 | Follows from `FindIgnoresTrim`: extraction fails exactly when the constraint holds no digit. The error then names the constraint as given. |
| Terraform.VersionAfter | pkg/tfs/terraform.go:65-79 | Whatever precedes the first number is ignored. The number and its `.digits` groups are taken whole, then padded or cut to three parts. |
| Terraform.FindIgnoresTrim | pkg/tfs/terraform.go:67 | Trimming white space changes neither what is found nor whether a digit is present. |
| Terraform.ExactVersion | pkg/tfs/terraform.go:52-59 | When the text parses as an exact version, the extraction would find the same version, so the fallback never contradicts the short-cut. |
| Terraform.GetTfVersion | pkg/tfs/terraform.go:40-61 | No entries give no version and no error. Otherwise only the first entry counts: it is returned as an exact version when it parses, else its extracted version. The call fails exactly when that entry holds no digit. The version's source text is the entry itself when it parses exactly, else a text that parses to the version. |
| Disk.FileSystem.Resolved | pkg/tfs/release.go:32 | The link resolves exactly when it exists and its target file exists, and then to that target. |
| Disk.Matching | pkg/tfs/cache.go:38 | The names the glob returns are exactly the names in the directory that start with the prefix. |
| Disk.RemovedNothing | pkg/tfs/release.go:151-174 | Removing no file changes neither the files nor the link. |
| Disk.RemovedTwice | pkg/tfs/release.go:151-174 | Removing two sets of files in turn is removing their union, so the order of removals does not matter. |
| Releases.SameAsLaws | pkg/tfs/release.go:196-198 | Follows from the definition: `SameAs` is reflexive and symmetric, compares all four fields (the version's source text included), and is false against nil. |
| Releases.SameAsSeesText | pkg/tfs/release.go:196-198 | Two releases of one version in one file are not `SameAs` when their versions were read from different texts. |
| Releases.ReleaseSize | pkg/tfs/release.go:177-193 | The size is the length of the file under the cache's directory. It is an error exactly when that file is absent. |
| Releases.SizeIgnoresRecordedDirectory | pkg/tfs/release.go:178 | Follows from the definition: the size does not depend on the directory recorded in the release. |
| Releases.Remove | pkg/tfs/release.go:151-174 | The file is gone afterwards. The link goes only when it resolved to this file, so a link to another release stays. The call errs exactly when the file was missing. |
| Cache.LocalCache.constructor | pkg/tfs/cache.go:16-22 | A fresh cache for a directory has no releases and no last, current or active release. |
| Cache.LocalCache.InitRelease | pkg/tfs/release.go:24-47 | The release keeps the text its version was read from. Its file is prefix + printed version in the cache directory. It becomes the active release exactly when the link resolves to that file. Nothing else changes. |
| Cache.LocalCache.Install | pkg/tfs/release.go:51-97 | An existing file is left untouched and no download happens. A missing file is written from the download, or the download's error is returned with the disk unchanged. The release becomes current exactly on success. |
| Cache.LocalCache.Activate | pkg/tfs/release.go:101-148 | A `mkdir` failure changes nothing. An already active release changes nothing, so a second call is a no-op. Otherwise the old link goes and the new one points to the release's file, which becomes active. If creating the link fails, no link is left. |
| Cache.LocalCache.IsEmpty | pkg/tfs/cache.go:68-70 | True exactly when the cache holds no release. |
| Cache.LocalCache.Load | pkg/tfs/cache.go:31-66 | Afterwards the map holds, keyed by printed version, one release per glob name before the first that is not a version. Each release keeps the text after the prefix of the last name read under its key. The last release has the greatest version, or is nil when there are none; a later name of that version replaces the map entry but not the last release. The active release is the one the link resolves to, else unchanged. The current release is unchanged. The error is the first bad name's. |
| Cache.LocalCache.LoadNames | pkg/tfs/cache.go:44-62 | The same, for the names in the order given. |
| Cache.LoadStep | pkg/tfs/cache.go:53 | Taking one more parsed name keeps the loop invariant: keys, well-formed releases, active release. |
| Cache.LastStep | pkg/tfs/cache.go:53-61 | Taking one more parsed name keeps the last release the greatest one. |
| Cache.TextStep | pkg/tfs/cache.go:46-53 | A later name of the same version replaces the release and the text it was read from. |
| Cache.LocalCache.AddRelease | pkg/tfs/cache.go:52-61 | One turn of the loop: the initialised release of the version, read from the given text, is stored under the printed version. It becomes the last release exactly when there was none or the version is greater. It becomes active when the link resolves to its file. The current release is unchanged. |
| Cache.LoadIteration | pkg/tfs/cache.go:46-61 | One turn of the loop on a name that is a version keeps the whole loop invariant: keys, well-formed releases, active release, last release and source texts. |
| Cache.LoadDone | pkg/tfs/cache.go:44-65 | Where the loop stops (the end of the names or the first name that is not a version), the loop invariant gives exactly what `Load` promises. |
| Cache.LocalCache.Size | pkg/tfs/cache.go:98-116 | Reloads. The result is the sum of the loaded releases' file sizes, and an error with size 0 exactly when one file is missing. |
| Cache.LocalCache.SumSizes | pkg/tfs/cache.go:106-113 | Summing in map order gives the total of all file sizes, whatever the order. Any missing file gives (0, error). |
| Sums.TotalRemove | pkg/tfs/cache.go:106-113 | A map's total is the same whichever key is added first. |
| Sums.TotalAdd | pkg/tfs/cache.go:112 | Adding a new key's size adds to the total. |
| Cache.LocalCache.Prune | pkg/tfs/cache.go:119-151 | Only loaded releases' files are removed, and earlier removals stand after an error. An error in the loop returns before any reload, with the map, last and active releases unchanged. Otherwise every loaded release's file is gone, the cache is reloaded, and the call fails exactly when a reloaded release's file is missing. When every release lies in the cache directory, its file is on the disk and no two share a file, the loop does not fail and the cache is reloaded. |
| Cache.LocalCache.PruneUntil | pkg/tfs/cache.go:154-192 | The same, for the releases strictly older than `v`: an error in the loop leaves the map unchanged; otherwise exactly those are removed, the cache is reloaded, and the call fails exactly when a reloaded release's file is missing. When those releases lie in the cache directory, their files are on the disk and no two share a file, the loop does not fail and the cache is reloaded. |
| Cache.LocalCache.RemoveWhere | pkg/tfs/cache.go:164-176 | The shared loop removes a subset of the chosen releases, stops at the first error, and on success removes exactly the chosen ones. It does not fail when the chosen releases are `Removable`: in the cache directory, on the disk, no two sharing a file. |
| Cache.LocalCache.RemoveIfChosen | pkg/tfs/cache.go:165-175 | Removes at most the release's own file, and on success a chosen release's file is gone. It fails exactly when the release is chosen and either the file its size is read from (its name in the cache directory) or its own file is missing. |
| Cache.WellFormedRemovable | pkg/tfs/cache.go:52 | Releases as `Load` builds them (in the cache directory, each under prefix + key) are `Removable` whenever all their files are on the disk, since distinct keys give distinct files. |
| Cache.LocalCache.AutoClean | pkg/tfs/cache.go:194-270 | Disabled or empty: nothing changes. Otherwise it reloads, then removes exactly the files of `Victims` of the reloaded map: the grouped mode when both limits are non-zero, else the default mode. A release is spared only when it is `SameAs` the current release, its source text included. |
| Cache.LocalCache.DefaultClean | pkg/tfs/cache.go:253-269 | Removes the first `len - history` keys in `sort.Strings` order, except one `SameAs` the current release. Nothing is removed when that count is not positive. |
| Cache.LocalCache.EvictFirst | pkg/tfs/cache.go:263-268 | Removes the releases of the first `n` keys, skipping one `SameAs` the current release. |
| Cache.LocalCache.RemoveUnlessCurrent | pkg/tfs/cache.go:265-267 | Removes the release's file unless it is `SameAs` the current release. The error is ignored. |
| Cache.LocalCache.GroupedClean | pkg/tfs/cache.go:204-250 | Removes exactly `GroupVictims`: every release `~g` matches for the first `lines - minorLimit` minor lines `g` in string order (every release when line 0.0 is among them), plus all but the newest `patchLimit` of each remaining line, never one `SameAs` the current release. |
| Cache.LocalCache.CollectGroups | pkg/tfs/cache.go:206-213 | One entry per minor line `X.Y.0`, holding that line's versions in version order. |
| Cache.LocalCache.SortEach | pkg/tfs/cache.go:211-213 | Each line's list becomes its versions in version order. |
| Cache.LocalCache.DropLines | pkg/tfs/cache.go:220-236 | The first `n` lines are removed from disk, except one `SameAs` the current release, and deleted from the groups. The other groups are kept as they were. |
| Cache.LocalCache.DropGroup | pkg/tfs/cache.go:223-234 | Dropping one line removes every release `~X.Y.0` matches except one `SameAs` the current release: the releases on the line, or every release for line 0.0. |
| Cache.LocalCache.DropMatching | pkg/tfs/cache.go:227-232 | The loop over the releases removes those that `~X.Y.0` matches, except one `SameAs` the current release. |
| Cache.LocalCache.RemoveIfOnLine | pkg/tfs/cache.go:228-231 | One release is removed exactly when `~X.Y.0` matches it and it is not `SameAs` the current release. |
| Cache.LineBase | pkg/tfs/cache.go:225 | The key of a minor line parses back to the line's first version. |
| Cache.TildeLine | pkg/tfs/cache.go:224-228 | For a line other than 0.0, `~X.Y.0` matches a version exactly when the version lies on line `X.Y`; `~0.0.0` matches every version. |
| Retention.TildeIsDrop | pkg/tfs/cache.go:222-234 | Follows from the definitions: when line 0.0 is not dropped, the releases `~g` matches are those on the dropped lines. |
| Retention.ZeroLineTakesAll | pkg/tfs/cache.go:222-234 | Follows from the definitions: when line 0.0 is dropped, every release but the current one is removed. |
| Cache.LocalCache.TrimGroups | pkg/tfs/cache.go:238-249 | Every remaining line is trimmed, in map order; the removals are the trim victims of all those lines. |
| Cache.LocalCache.TrimGroup | pkg/tfs/cache.go:239-248 | On one line, all but its newest `patchLimit` versions are removed, except one `SameAs` the current release. |
| Cache.LocalCache.TrimFirst | pkg/tfs/cache.go:242-247 | The releases of the first `n` versions of the sorted line are removed, except one `SameAs` the current release. |
| Cache.Enumerate | pkg/tfs/cache.go:216-218 | A Go map's keys, in some order, each once. |
| Cache.SortedStrings | pkg/tfs/cache.go:219 | `sort.Strings` of a set's elements is its unique strictly increasing listing in string order. |
| Strings.LexStrictTotalOrder | pkg/tfs/cache.go:219 | Go's string comparison is a strict total order. |
| Ordering.SortIsListing | pkg/tfs/cache.go:212 | Sorting any enumeration of a set gives the set's unique sorted listing, whatever the enumeration order. |
| Ordering.SortSorted | pkg/tfs/cache.go:239 | The sort returns an increasing permutation of its distinct input. |
| Ordering.SortedUnique | pkg/tfs/cache.go:239 | Two increasing sequences with the same elements are equal. |
| Retention.StringOrder | pkg/tfs/cache.go:262 | The keys in `sort.Strings` order: increasing as strings, each key exactly once. |
| Retention.VersionOrder | pkg/tfs/cache.go:212 | The versions in `semver.Collection` order: increasing, each exactly once. |
| Retention.VersionOnLine | pkg/tfs/cache.go:244 | Follows from the definitions: a version collected for line `g` belongs to the release keyed by its printed form, so `c.Releases[version.String()]` exists. |
| Strings.ReplaceFirst | pkg/tfs/util.go:75 | `strings.Replace(s, pat, repl, 1)`: the first occurrence is replaced, and the text is unchanged when there is none. |
| Strings.DeletePrefix | pkg/tfs/util.go:16 | `strings.ReplaceAll(prefix + rest, prefix, "")` is `rest` when the prefix does not occur in `rest`. |
| Strings.JoinSplit | pkg/tfs/terraform.go:75-79 | Joining the split pieces with the separator gives the text back. |
| Strings.SplitJoin | pkg/tfs/terraform.go:75-79 | Splitting joined pieces that lack the separator gives the pieces back. |
| Strings.DecimalRoundTrip | pkg/tfs/util.go:52-72 | `Atoi` of what `%d` prints is the number printed. |
| Strings.DecimalOfCanonical | pkg/tfs/util.go:52 | A numeral without a leading zero is what `%d` prints for its value. |
| IntendedRetention.Line | pkg/tfs/cache.go:208 | The minor line as a version: its printed form is the group key, and it is no newer than the version. |
| IntendedRetention.OldestVictimsAreOlder | pkg/tfs/cache.go:253-269 | In default mode ordered by version, every removed release is older than every kept release that is not current. |
| IntendedRetention.DroppedLinesAreOlder | pkg/tfs/cache.go:214-236 | In grouped mode ordered by version, a dropped minor line lies below every kept line, and so do all its releases. |
| IntendedRetention.KeptLinesOnlyTrimmed | pkg/tfs/cache.go:222-249 | In grouped mode as intended, a release of a kept minor line is removed exactly when it is not current and lies among all but the newest `patchLimit` versions of its line. |
| IntendedRetention.SpareByVersion | pkg/tfs/cache.go:244-245 | Handing `SameAs` the cached release of the current version makes it compare by version, for every key of a cache keyed by version. |
| IntendedRetention.CurrentVersionKept | pkg/tfs/cache.go:228-266 | Compared by version, no release of the current release's version is removed, in either mode. |
| RetentionCases.CurrentRemovedAsWritten | pkg/tfs/cache.go:265-266 | With 1.2.0, 1.3.0, 1.4.0 cached, history 1, and a current 1.2.0 read from "1.2", the code removes 1.2.0 and 1.3.0; the current release's own file is among them. |
| RetentionCases.CurrentKeptIntended | pkg/tfs/cache.go:265-266 | Compared by version, the same cache loses only 1.3.0. |
| RetentionCases.PruneUntilCase | pkg/tfs/cache_test.go:94-126 | For {1.9.0, 1.10.0, 1.11.0} and 1.10.0, only 1.9.0 is older. |
| RetentionCases.ThreeStringOrder | pkg/tfs/cache.go:262 | `sort.Strings` puts `1.10.0` and `1.11.0` before `1.9.0`. |
| RetentionCases.DefaultConfigAsWritten | pkg/tfs/cache.go:256-268 | With history 2 the code removes 1.10.0 from {1.9.0, 1.10.0, 1.11.0}. |
| RetentionCases.DefaultConfigKeepsOlder | pkg/tfs/cache_test.go:128-151 | The code keeps 1.9.0 while removing the newer 1.10.0. |
| RetentionCases.DefaultConfigIntended | pkg/tfs/cache_test.go:128-151 | Ordered by version, the same configuration removes 1.9.0, as the test expects. |
| RetentionCases.GroupStringOrder | pkg/tfs/cache.go:219 | `sort.Strings` orders the lines as 1.10.0, 1.6.0, 1.8.0, 1.9.0. |
| RetentionCases.DroppedAsWritten | pkg/tfs/cache.go:219-222 | With minor limit 2 the code drops lines 1.10.0 and 1.6.0. |
| RetentionCases.MinorLimitAsWritten | pkg/tfs/cache.go:204-250 | On the test's seven releases the code removes 1.6.5, 1.6.6, 1.10.1 and 1.10.2. |
| RetentionCases.MinorLimitKeepsOlder | pkg/tfs/cache_test.go:153-194 | The code keeps 1.8.1 while removing the newer 1.10.1. |
| RetentionCases.DroppedIntended | pkg/tfs/cache_test.go:175-177 | Ordered by version, the dropped lines are 1.6 and 1.8. |
| RetentionCases.MinorLimitIntended | pkg/tfs/cache_test.go:153-194 | Ordered by version, exactly 1.6.5, 1.6.6 and 1.8.1 go, as the test expects. |
| RetentionCases.FiveTrimmed | pkg/tfs/cache.go:238-248 | On line 1.10 with patch limit 2, the trimmed versions are 1.10.0, 1.10.1 and 1.10.2. |
| RetentionCases.ZeroLineAsWritten | pkg/tfs/cache.go:222-234 | With 0.0.1, 1.5.0 and 1.6.0 cached, minor limit 2 and patch limit 99, the code drops line 0.0 and removes all three releases. |
| RetentionCases.ZeroLineIntended | pkg/tfs/cache.go:222-234 | Dropping only the releases on the dropped line, the same cache loses 0.0.1 alone. |
| RetentionCases.PatchLimitCase | pkg/tfs/cache_test.go:196-236 | With minor limit 99 and patch limit 2, exactly 1.10.0, 1.10.1 and 1.10.2 go, so 1.10.3 and 1.10.4 remain. The code agrees with the test here. |
| ConstraintCases.NoOpCase | pkg/tfs/constraint_test.go:9-18 | `>=1.2.3, <2.0.0` is unchanged. |
| ConstraintCases.MajorCase | pkg/tfs/constraint_test.go:20-29 | `~> 1` becomes `>=1.0.0, <2.0.0`. |
| ConstraintCases.MajorCheckCase | pkg/tfs/constraint_test.go:30-36 | The `~> 1` constraint admits 1.5.0 and rejects 2.0.0. |
| ConstraintCases.MinorCase | pkg/tfs/constraint_test.go:39-48 | `~> 1.2` becomes `>=1.2.0, <1.3.0`. |
| ConstraintCases.MinorCheckCase | pkg/tfs/constraint_test.go:49-52 | The `~> 1.2` constraint admits 1.2.5 and rejects 1.3.0. |
| ConstraintCases.PatchCase | pkg/tfs/constraint_test.go:55-64 | `~> 1.2.3` becomes `>=1.2.3, <1.3.0`. |
| ConstraintCases.PatchCheckCase | pkg/tfs/constraint_test.go:65-68 | The `~> 1.2.3` constraint admits 1.2.3 and 1.2.9 and rejects 1.3.0. |
| ConstraintCases.CompositeCase | pkg/tfs/constraint_test.go:71-80 | `~> 1.2, >=1.2.5` becomes `>=1.2.0, <1.3.0, >=1.2.5`. |
| ConstraintCases.BadSuffixCase | pkg/tfs/constraint_test.go:87-98 | `~> 1.bad` becomes `>=1.0.0, <2.0.0.bad`, without an error. |
| ConstraintCases.NoSpaceCase | pkg/tfs/constraint_test.go:100-110 | `~>1.2` becomes `>=1.2.0, <1.3.0`. |
| ConstraintCases.MultipleCase | pkg/tfs/constraint_test.go:112-122 | `~> 1.2, ~>1.3.4` becomes `>=1.2.0, <1.3.0, >=1.3.4, <1.4.0`. |
| ConstraintCases.InvalidDoubleCase | pkg/tfs/constraint_test.go:124-130 | `~> ~> 1.2` fails with the error naming the input. |
| ConstraintCases.TrailingCharsCase | pkg/tfs/constraint_test.go:132-144 | `~>1.2alpha` becomes `>=1.2.0, <1.3.0alpha`. |
| ConstraintCases.PreReleaseCase | pkg/tfs/constraint_test.go:146-157 | `~> 1.2.3-beta` becomes `>=1.2.3, <1.3.0-beta`. |
| ConstraintCases.BuildMetadataCase | pkg/tfs/constraint_test.go:159-170 | `~> 1.2.3+meta` becomes `>=1.2.3, <1.3.0+meta`. |
| ConstraintCases.FourSegmentsCase | pkg/tfs/constraint_test.go:172-183 | `~> 1.2.3.4` becomes `>=1.2.3, <1.3.0.4`. |
| ConstraintCases.LeadingZerosCase | pkg/tfs/constraint_test.go:185-195 | `~> 1.02.3` becomes `>=1.2.3, <1.3.0`. |
| ConstraintCases.MixedValidInvalidCase | pkg/tfs/constraint_test.go:197-204 | `~> 1.2, >=2.0.0, ~> bad` fails with the error naming the input. |
| ConstraintCases.EmptyCase | pkg/tfs/constraint_test.go:206-215 | The empty text is unchanged. |
| ConstraintCases.OnlyRegularCase | pkg/tfs/constraint_test.go:217-227 | `>=1.0.0, <2.0.0, !=1.5.0` is unchanged. |
| ConstraintCases.MinorBoundaryCase | pkg/tfs/terraform_test.go:147-173 | The `~> 1.12` constraint admits 1.12.9 and rejects 1.13.0. |

## Left out

- The command line (`cmd/tfs/*.go`, `main.go`) and the configuration defaults (`pkg/tfs/config.go`) are not part of this model. The file-name prefix, the cache directory, the auto-clean switch and the three retention limits are parameters.
- `pkg/tfs/fs.go`, the filesystem adapter used by the tests, is not part of this model. The disk is the abstract `Disk.FileSystem`.
- `List` and `formatSize` only display; they are not modelled.
- The download itself (hc-install, reading the downloaded file, writing the target) is the parameter `download` of `Cache.LocalCache.Install`: the file's size or an error.
- The outcomes of `os.MkdirAll` and `os.Symlink` are the parameters `mkdir` and `symlink` of `Cache.LocalCache.Activate`. Whether the bin directory already exists is folded into `mkdir`.
- `os.Getwd` and the loading of the Terraform module are left out. `Terraform.GetTfVersion` starts from the module's `required_version` entries.
- The version libraries are modelled only as far as the core uses them. A version is a `(major, minor, patch)` triple; pre-release and build metadata are not modelled, and `Versions.Parse` refuses them. Constraints are the six comparison operators, each on one version.
- Terraform.GetTfVersion: `version.NewVersion` also accepts a version with more than three parts or with a pre-release or metadata suffix (`1.2.3.4`, `1.2.3-beta`), and the code returns it as it is. `Versions.Parse` refuses such text, so the model falls back to the extraction and returns `1.2.3`.
- Cache.LocalCache.Load: for the same reason, a cached name such as `terraform_1.6.0-beta1` or `terraform_1.2.3.4` loads in the code (`Install` writes such a name after `required_version = "1.6.0-beta1"`), while the model stops there with a parse error and leaves every later name unloaded.
- Cache.LocalCache.AutoClean: `history`, `minorLimit` and `patchLimit` are natural numbers here. The code reads them with `viper.GetInt` without checking them. A negative history makes `n` exceed the number of keys, so `keys[0:n]` at cache.go:263 yields empty keys or panics; a negative limit also switches grouped mode on and overruns the slices at cache.go:222 and cache.go:242. None of this is modelled.
- The release's version is a go-version value in `release.go` and is read through Masterminds semver in `cache.go`. Both become the same triple here.
- A symbolic link is a single optional target path. Chains of links and a link to a directory are not modelled.
- Errors of `filepath.Glob` (a malformed pattern) and of `os.Stat` other than a missing file are not modelled.
- Go's `int` and `uint64` are unbounded here: `strconv.Atoi` overflow, `major+1` wrap-around and a size sum beyond 2^64 are not modelled.
- The counters `removed` and `reclaimed` of `Prune` and `PruneUntil`, and every log line, only feed the log; they are left out.
- Map iteration order is left open: each loop over a Go map runs over an arbitrary enumeration (`Cache.Enumerate`). Where the order could matter (the first error in `Prune`), the contracts hold for every order.
- Cache.LocalCache.Prune: on an error inside the loop, the contract says only that a subset of the releases was removed, not which subset, because that depends on the map order.
- Cache.LocalCache.PruneUntil: the same, for the releases older than the argument.
- Cache.LocalCache.AutoClean: the contract is stated for the map as reloaded at its start. The reload's own error is ignored, as in the code.
- Cache.LocalCache.Size: a reload error is ignored, as in the code, and the contract speaks of the reloaded map only.

## Findings

| source | as written | input that shows it | evidently intended | confidence | as-written member | corrected member |
|---|---|---|---|---|---|---|
| pkg/tfs/cache.go:262 | Default mode sorts the release keys with `sort.Strings` and removes the first `len - history` of them, so it removes by string order | Releases 1.9.0, 1.10.0, 1.11.0 with history 2: 1.10.0 is removed and 1.9.0 kept (the test at cache_test.go:128-151 expects 1.9.0 removed) | Remove the `len - history` oldest releases by version | not executed | RetentionCases.DefaultConfigKeepsOlder | IntendedRetention.OldestVictimsAreOlder |
| pkg/tfs/cache.go:265 | The current release is spared with `SameAs`, which is `reflect.DeepEqual` and so also compares the text each version was parsed from | Cached 1.2.0, 1.3.0, 1.4.0, history 1, and a current release made from `required_version = "1.2"`: the cached 1.2.0 (read from "1.2.0") is not `SameAs` it, so the just-installed binary is removed | Spare the release of the current version, whatever text either was read from | not executed | RetentionCases.CurrentRemovedAsWritten | IntendedRetention.CurrentVersionKept |
| pkg/tfs/cache.go:219 | Grouped mode sorts the minor-line keys with `sort.Strings` and drops the first `lines - minorLimit`, so line 1.10 sorts before 1.6 | Releases 1.6.5, 1.6.6, 1.8.1, 1.9.2, 1.9.8, 1.10.1, 1.10.2 with minor limit 2 and patch limit 99: 1.6.x and 1.10.x are removed and 1.8.1 kept (the test at cache_test.go:153-194 expects 1.6.x and 1.8.1 removed) | Drop the oldest minor lines by version | not executed | RetentionCases.MinorLimitKeepsOlder | IntendedRetention.DroppedLinesAreOlder |
| pkg/tfs/cache.go:225 | A dropped line `g` removes what the constraint `"~" + g` matches; the semver library reads `~0.0.0`, which has no wildcard, as `>= 0.0.0` | Releases 0.0.1, 1.5.0, 1.6.0 with minor limit 2 and patch limit 99: line 0.0 is dropped and all three releases are removed | Drop only the releases on the dropped line | not executed | RetentionCases.ZeroLineAsWritten | IntendedRetention.KeptLinesOnlyTrimmed |

In the first and third rows the model's `Cache.LocalCache.AutoClean` keeps the code's behaviour:
`Retention.Victims` orders keys as strings. The corrected retention is
`IntendedRetention.OldestVictims` and `IntendedRetention.LineVictims`. The "older
first" lemmas above are proved about them, and `RetentionCases.DefaultConfigIntended`
and `RetentionCases.MinorLimitIntended` show that they give what the tests expect. The
full outcomes on the tests' caches are in `RetentionCases.DefaultConfigAsWritten` and
`RetentionCases.MinorLimitAsWritten`. The patch trim sorts by version and agrees with
its test (`RetentionCases.PatchLimitCase`).

For the current-release row, the model's `AutoClean` again keeps the code's behaviour.
The comparison by version is `IntendedRetention.VersionSpared`: the same retention,
with `SameAs` handed the cached release of the current version, which
`IntendedRetention.SpareByVersion` shows is the comparison by version.
`RetentionCases.CurrentKeptIntended` works it out on the same cache.

For the line-0.0 row, the model's `AutoClean` again keeps the code's behaviour, through
`Retention.TildeVictims`. `IntendedRetention.LineVictims` drops only the releases on
each dropped line: `IntendedRetention.KeptLinesOnlyTrimmed` shows that a kept line loses
releases only to the patch trim, and `RetentionCases.ZeroLineIntended` shows that 1.5.0
and 1.6.0 stay on the same cache.
