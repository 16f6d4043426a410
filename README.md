# Q-Paks: a Dafny model of its flatpak output parsing

Q-Paks is a small Qt front end for `flatpak`. It runs `flatpak` commands,
turns their text output into records, and shows them: search hits with
a "Verified" / "FOSS" label, and the installed apps sorted by name. It
also ensures four Flathub remotes at startup. This project models the
text-to-record logic of both copies of the program:

- `sources/main.py`, the current front end, in module `QPaks`
  (`qpaks.dfy`). It covers:
  - `valid_package`;
  - the remote-name parsing and `remote-add` command building in
    `add_flatpak_remotes`;
  - the query normalisation and per-line parse of `SearchThread.run`,
    and `get_label`;
  - the label filter of `SearchDialog.search_results`;
  - the `get_installed_apps` dictionary, and the sorted listing of
    `InstalledApps.update`.
- `packages/fedora/q-paks-0.2/main.py`, the older packaged variant, in
  module `QPaksLegacy` (`qpaks_legacy.dfy`). It covers:
  - its `valid_package`;
  - its whitespace-token search parser;
  - the two-stage `get_installed_apps`: ids from `flatpak list`, then
    one `flatpak info` block per id, read into a details dictionary and
    stored under the app's final `Name`;
  - the sorted listing.

The Python built-ins these use are modelled once and shared:

- `py_str.dfy` (`PyStr`): `str.strip`, ASCII `lower`, `in`,
  `startswith`, `index`, `split(sep)`, `split()`, `join` and slicing.
- `sorting.dfy` (`Sorting`): `<` on `str` and `sorted()`.
- `py_dict.dfy` (`PyDict`): an insertion-ordered `dict` with string keys.

Command output is an input to the model. In `sources/main.py` a command
that fails raises `CalledProcessError`, which the program catches; the
model writes that as `Captured.Failed`. Each loop of the modelled
functions is a `method` with a `while` loop. The loop is proved equal to
a recursive function over the prefix it has processed so far: lines of
output, configured remotes, search results, or installed ids. The
properties are then proved as lemmas about that function. The one
exception is the lookup of each sorted name (`PyDict.ValuesAt`), which
is proved element by element.

## Model

| member | source | states |
|---|---|---|
| QPaks.ValidPackage | sources/main.py:58-66 | `valid_package(app_id)`; its meaning is stated by `QPaks.ValidPackageExactly` |
| QPaks.ValidPackageExactly | sources/main.py:58-66 | an id is refused exactly when it is empty or starts with one of the three reserved runtime prefixes |
| QPaks.ReservedFamilyRefused | sources/main.py:59-62 | every id in the `org.freedesktop.` / `org.gnome.` / `org.kde.` families is refused, whatever follows the prefix |
| QPaks.PrefixNeedsTheDot | sources/main.py:60-62 | the prefixes include their dot: `org.kdevelop.KDevelop` and `org.gnomeish.App` are valid, `org.kde.kate` is not |
| QPaks.GetLabel | sources/main.py:108-116 | the label is always one of the four label texts the dialog knows |
| QPaks.LabelIsStrongestTag | sources/main.py:108-116 | the label is the one for the strongest remote tag present (verified-floss over verified over floss), whatever the order of the tags |
| QPaks.LabelRankInjective | sources/main.py:108-116 | the four label texts are told apart by their rank |
| QPaks.LabelOfConcat | sources/main.py:108-116 | the label of two tag lists together is the stronger of their two labels |
| QPaks.ConfiguredRemotesNeverVerifiedFoss | sources/main.py:108-110 | tags drawn only from the four configured remote names never earn "Verified & FOSS": line 17 adds the remote `flathub-verified_floss`, while the label test looks for `flathub-verified-floss` |
| QPaks.AllConfiguredRemotesLabelVerified | sources/main.py:108-116 | a row listed in all four configured remotes is labelled "Verified" |
| QPaks.ExistingRemotes | sources/main.py:21-33 | the remote names read from the listing are non-empty words without whitespace; a failed listing gives none |
| QPaks.RemoteNameOf | sources/main.py:27-29 | a `flatpak remotes` line gives a name if and only if it is not all whitespace, and that name is a non-empty word without whitespace |
| QPaks.RemoteNames | sources/main.py:26-29 | the names read are non-empty words, at most one per line |
| QPaks.ReadExistingRemotes | sources/main.py:21-33 | the collected names equal `ExistingRemotes(out)`: the first word of each non-blank line of the stripped output, and none when the listing command fails |
| QPaks.RemoteNameOfRow | sources/main.py:27-29 | a row `name<TAB>options` yields `name` |
| QPaks.ExistingRemotesRoundTrip | sources/main.py:23-29 | listing output with one name per line reads back as exactly those names, in order |
| QPaks.RemoteNamesOfWords | sources/main.py:26-29 | lines that are single words read back unchanged |
| QPaks.ListInsert | sources/main.py:47 | `list.insert(i, x)`: `x` lands at index `i` with the prefix and suffix kept, or at the end when `i` is past it |
| QPaks.RemoteAddCommand | sources/main.py:42-47 | the command is `flatpak remote-add --if-not-exists --user`, then the subset option when there is one, then name and URL |
| QPaks.PlanRemotes | sources/main.py:36-47 | at most one command per configured remote |
| QPaks.AddFlatpakRemotes | sources/main.py:13-54 | the commands run are those the plan gives for the four configured remotes and the names listed |
| QPaks.PlanAddsExactlyMissing | sources/main.py:36-39 | a remote is added if and only if it is configured and not already listed |
| QPaks.PlanWithNothingPresent | sources/main.py:36-47 | with nothing listed, every configured remote gets its own command, in order |
| QPaks.PlanIdempotent | sources/main.py:37-39 | once every configured remote is listed, nothing is added |
| QPaks.StartupAfterFailedListing | sources/main.py:31-47 | when listing the remotes fails, all four `remote-add` commands are issued, with the exact argument vectors shown |
| QPaks.NormalizeQuery | sources/main.py:74 | the stored query is no longer than the typed one, has no surrounding whitespace and no upper-case letter |
| QPaks.QueryMatches | sources/main.py:98 | the query is in the lower-cased name or the lower-cased id; `PyStr.ContainsIffOccurs` states what `in` means |
| QPaks.SearchLine | sources/main.py:90-99 | the record of one line; `QPaks.RowRoundTrip` and `QPaks.ShortLineSkipped` state when it exists and what it holds |
| QPaks.SearchResults | sources/main.py:76-105 | every record emitted has stripped fields, a known label, and matches the query |
| QPaks.SearchLines | sources/main.py:89-99 | every record kept has a stripped name and id, a known label, and matches the query in name or id; at most one per line |
| QPaks.Search | sources/main.py:74-105 | the records equal `SearchResults(NormalizeQuery(query), out)`: none on failure or when the sentinel appears, else `SearchLines` of the stripped output's lines, in order |
| QPaks.SentinelEmptiesSearch | sources/main.py:84-86 | "No matches found" anywhere in the output yields no records, whatever else is printed |
| QPaks.SearchLinesAppend | sources/main.py:89-99 | lines are parsed independently; the records of two blocks are the records of each, concatenated |
| QPaks.SearchLinesMembership | sources/main.py:89-99 | a record is in the result if and only if some line yields it |
| QPaks.SearchLinesSound | sources/main.py:89-99 | every record comes from some line |
| QPaks.SearchLinesComplete | sources/main.py:89-99 | every record a line yields is kept |
| QPaks.ShortLineSkipped | sources/main.py:90-91 | a line with fewer than three tab fields yields nothing |
| QPaks.EmptyQueryKeepsAll | sources/main.py:98 | a blank query keeps every line that has three fields |
| QPaks.RowRoundTrip | sources/main.py:90-99 | a printed row parses back into its own id, name and label, kept exactly when the query matches |
| QPaks.RowFields | sources/main.py:90 | a printed row splits into its three columns |
| QPaks.TagsRoundTrip | sources/main.py:94 | comma-joined remote names strip to themselves and split back into the same names |
| QPaks.SearchRoundTrip | sources/main.py:84-99 | printed rows, one per line, parse back into the matching rows' records, in row order |
| QPaks.PrintedRowsUnpadded | sources/main.py:89 | the whole printed block has no surrounding whitespace, so the outer strip changes nothing |
| QPaks.SearchLinesOfRows | sources/main.py:89-99 | the per-line parse of printed rows is the per-row record list |
| QPaks.RuntimeListedBySearch | sources/main.py:89-99 | the search does not apply `valid_package`: a matching `org.freedesktop.` row is refused by the rule but still listed |
| QPaks.FilterByLabel | sources/main.py:197-199 | the filter never adds records; with a filter set, every record kept has that label |
| QPaks.ShowSearchResults | sources/main.py:191-201 | no records shows "App not found"; otherwise the records that pass the filter, in order |
| QPaks.FilterAllKeepsAll | sources/main.py:198 | the "All Apps" filter (empty) keeps every record |
| QPaks.FilterKeepsExactlyLabel | sources/main.py:198-199 | with a filter set, a record is shown if and only if it was found and carries that label |
| QPaks.FilterAppend | sources/main.py:197-199 | the filter works record by record |
| QPaks.FilteredOutShowsNothing | sources/main.py:194-199 | a non-empty result can still show nothing: an unlabelled hit under the "FOSS" filter |
| QPaks.InstalledLine | sources/main.py:357-365 | a line that stores an entry is exactly `id<TAB>name`: a valid id, a tab, and a name, with no other tab |
| QPaks.InstalledLines | sources/main.py:356-365 | the dictionary is well formed, each entry sits under its own name, and each id is a valid package |
| QPaks.Installed | sources/main.py:349-370 | the same holds for the result of `get_installed_apps`, which is empty when the command fails |
| QPaks.GetInstalledApps | sources/main.py:349-370 | the dictionary built equals `Installed(out)`: `InstalledLines` of the stripped output's lines, or empty when the command fails |
| QPaks.InstalledStep | sources/main.py:357-365 | one more line stores its entry, or leaves the dictionary as it was |
| QPaks.InstalledMembership | sources/main.py:356-365 | a name is present if and only if some accepted line carries it |
| QPaks.InstalledSound | sources/main.py:356-365 | every stored name comes from an accepted line |
| QPaks.InstalledComplete | sources/main.py:356-365 | every accepted line's name is stored |
| QPaks.LastLineWins | sources/main.py:362-365 | the last accepted line with a given name decides that name's entry |
| QPaks.InstalledRowRoundTrip | sources/main.py:357-361 | a row `id<TAB>name` with a valid id and no other tab is stored as that id under that name |
| QPaks.ThreeFieldsRefused | sources/main.py:358-359 | a row with three tab fields stores nothing, whatever its id |
| QPaks.DuplicateNameOverwrites | sources/main.py:362-365 | two apps with the same display name keep only the later one |
| QPaks.Update | sources/main.py:313-334 | shows the no-apps label if and only if nothing is installed; otherwise every installed entry exactly once, in strictly ascending name order |
| QPaks.ShownInNameOrder | sources/main.py:330-331 | entries listed in sorted-name order are strictly ascending and are exactly the dictionary's values |
| QPaksLegacy.ValidPackage | packages/fedora/q-paks-0.2/main.py:13-21 | this file's `valid_package`; `QPaksLegacy.SameRuleAsFrontEnd` states that it accepts the same ids as the front end's |
| QPaksLegacy.SameRuleAsFrontEnd | packages/fedora/q-paks-0.2/main.py:13-21 | the packaged variant's package rule accepts exactly what the front end's does |
| QPaksLegacy.SearchLine | packages/fedora/q-paks-0.2/main.py:157-163 | a line yields a record if and only if the whole stripped line passes the package rule |
| QPaksLegacy.AcceptedLineHasToken | packages/fedora/q-paks-0.2/main.py:159-161 | an accepted stripped line has a first token, and that token is its leading word |
| QPaksLegacy.LineTestIsIdTest | packages/fedora/q-paks-0.2/main.py:158-161 | testing the whole non-blank line decides the same as testing its first token |
| QPaksLegacy.FirstWordTest | packages/fedora/q-paks-0.2/main.py:159 | a string passes the rule exactly when its leading word does |
| QPaksLegacy.HitIdIsValid | packages/fedora/q-paks-0.2/main.py:159-161 | every record's id is a valid, non-empty, whitespace-free package id |
| QPaksLegacy.NameColumnCollapsed | packages/fedora/q-paks-0.2/main.py:160-162 | the name column comes back with each whitespace run turned into one space |
| QPaksLegacy.SearchRowRoundTrip | packages/fedora/q-paks-0.2/main.py:157-163 | a row of an id and single-spaced words parses back into that id and name |
| QPaksLegacy.BlankLineSkipped | packages/fedora/q-paks-0.2/main.py:158-159 | a blank line yields nothing |
| QPaksLegacy.SearchLines | packages/fedora/q-paks-0.2/main.py:157-163 | at most one record per line |
| QPaksLegacy.RunSearch | packages/fedora/q-paks-0.2/main.py:141-165 | the records equal `SearchHits(out)`: none when the sentinel appears, else `SearchLines` of the unstripped output's lines, in order |
| QPaksLegacy.SearchHits | packages/fedora/q-paks-0.2/main.py:153-163 | the records emitted; `QPaksLegacy.SentinelEmptiesSearch` and `QPaksLegacy.SearchLinesMembership` state what they are |
| QPaksLegacy.SentinelEmptiesSearch | packages/fedora/q-paks-0.2/main.py:153-155 | "No matches found" anywhere in the output yields no records |
| QPaksLegacy.SearchLinesAppend | packages/fedora/q-paks-0.2/main.py:157-163 | lines are parsed independently, in order |
| QPaksLegacy.SearchLinesMembership | packages/fedora/q-paks-0.2/main.py:157-163 | a record is in the result if and only if some line yields it |
| QPaksLegacy.SearchLinesSound | packages/fedora/q-paks-0.2/main.py:157-163 | every record comes from some line |
| QPaksLegacy.SearchLinesComplete | packages/fedora/q-paks-0.2/main.py:157-163 | every record a line yields is kept |
| QPaksLegacy.InstalledIds | packages/fedora/q-paks-0.2/main.py:256-259 | every id kept is valid and stripped, at most one per line |
| QPaksLegacy.ListInstalledIds | packages/fedora/q-paks-0.2/main.py:252-259 | the collected ids equal `InstalledIds` of the output's lines |
| QPaksLegacy.InstalledIdsExactly | packages/fedora/q-paks-0.2/main.py:256-259 | an id is listed if and only if it is valid and some line strips to it |
| QPaksLegacy.InstalledIdSound | packages/fedora/q-paks-0.2/main.py:256-259 | every listed id is valid and comes from some line |
| QPaksLegacy.InstalledIdComplete | packages/fedora/q-paks-0.2/main.py:256-259 | every line that strips to a valid id is listed |
| QPaksLegacy.InstalledIdsAppend | packages/fedora/q-paks-0.2/main.py:256-259 | the ids keep the order of their lines |
| QPaksLegacy.InfoName | packages/fedora/q-paks-0.2/main.py:272 | the initial `Name`; `QPaksLegacy.InfoNameFacts` and `QPaksLegacy.InfoNameFromTitle` state what it is |
| QPaksLegacy.InfoNameFacts | packages/fedora/q-paks-0.2/main.py:272 | the initial name has no surrounding whitespace and no `-` |
| QPaksLegacy.InfoNameFromTitle | packages/fedora/q-paks-0.2/main.py:271-272 | for a blank first line and a title `name - summary`, the initial name is `name` |
| QPaksLegacy.InfoEntry | packages/fedora/q-paks-0.2/main.py:274-280 | a line gives a key and value if and only if it has a colon |
| QPaksLegacy.InfoEntrySkipsOneChar | packages/fedora/q-paks-0.2/main.py:275-277 | the value starts two characters after the first colon, so one character after it is dropped whatever it is |
| QPaksLegacy.InfoEntryBareColon | packages/fedora/q-paks-0.2/main.py:275-277 | a line ending at its colon gives an empty value |
| QPaksLegacy.InfoFieldRoundTrip | packages/fedora/q-paks-0.2/main.py:275-278 | `key: value` with a colon-free key reads back as that key and value |
| QPaksLegacy.InfoFields | packages/fedora/q-paks-0.2/main.py:273-280 | the details stay a well-formed dictionary and keep every key they started with |
| QPaksLegacy.ParseInfo | packages/fedora/q-paks-0.2/main.py:271-280 | the details always carry a `Name` |
| QPaksLegacy.ReadInfo | packages/fedora/q-paks-0.2/main.py:271-280 | the details built equal `ParseInfo(out)` |
| QPaksLegacy.InfoStep | packages/fedora/q-paks-0.2/main.py:274-280 | one more line stores its key and value, or is skipped when it has no colon |
| QPaksLegacy.InfoLastWins | packages/fedora/q-paks-0.2/main.py:278 | the last line with a given key decides its value |
| QPaksLegacy.InfoUntouched | packages/fedora/q-paks-0.2/main.py:272-280 | a key no line sets keeps its initial value |
| QPaksLegacy.InfoKeys | packages/fedora/q-paks-0.2/main.py:272-280 | a key is present if and only if it was there at the start or some line sets it |
| QPaksLegacy.InfoKeySound | packages/fedora/q-paks-0.2/main.py:273-280 | every added key comes from some line |
| QPaksLegacy.InfoKeyComplete | packages/fedora/q-paks-0.2/main.py:273-280 | every key a line sets is present |
| QPaksLegacy.NameFromTitleUnlessOverridden | packages/fedora/q-paks-0.2/main.py:271-282 | unless a later `Name:` line overrides it, the `Name` is the one cut from the first three lines |
| QPaksLegacy.DetailsOf | packages/fedora/q-paks-0.2/main.py:263-280 | the details of every id carry a `Name` |
| QPaksLegacy.InstalledApps | packages/fedora/q-paks-0.2/main.py:261-284 | the dictionary of details is well formed |
| QPaksLegacy.GetInstalledApps | packages/fedora/q-paks-0.2/main.py:251-284 | both loops together build `InstalledApps(InstalledIds(lines), DetailsOf(info))`: the listed ids' `flatpak info` details, each stored under its `Name` |
| QPaksLegacy.AppsStep | packages/fedora/q-paks-0.2/main.py:282 | one more id stores its details under their `Name` |
| QPaksLegacy.AppsKeyedByName | packages/fedora/q-paks-0.2/main.py:282 | every entry sits under its own `Name` |
| QPaksLegacy.AppsMembership | packages/fedora/q-paks-0.2/main.py:262-282 | a name is present if and only if the details of some listed id carry it |
| QPaksLegacy.AppsSound | packages/fedora/q-paks-0.2/main.py:262-282 | every stored name is that of some listed id |
| QPaksLegacy.AppsComplete | packages/fedora/q-paks-0.2/main.py:262-282 | every listed id's name is stored |
| QPaksLegacy.LastIdWins | packages/fedora/q-paks-0.2/main.py:282 | the last id with a given name decides that name's details |
| QPaksLegacy.Update | packages/fedora/q-paks-0.2/main.py:218-239 | shows the no-apps label if and only if the dictionary is empty; otherwise every entry exactly once, in strictly ascending `Name` order |
| QPaksLegacy.Present | packages/fedora/q-paks-0.2/main.py:231-239 | the same, for any dictionary keyed by `Name` |
| QPaksLegacy.ShownInNameOrder | packages/fedora/q-paks-0.2/main.py:235-236 | details listed in sorted-name order carry those names, are strictly ascending, and are exactly the dictionary's values |
| PyStr.Strip | sources/main.py:92-94 | `strip()` never lengthens a string and leaves no whitespace at either end |
| PyStr.StripPadded | sources/main.py:92-94 | what `strip()` keeps is a slice of its argument with only whitespace around it |
| PyStr.StripUnpadded | sources/main.py:92-94 | a string with no whitespace at either end strips to itself |
| PyStr.StripAround | packages/fedora/q-paks-0.2/main.py:272 | whitespace added around an unpadded string is exactly what `strip()` removes |
| PyStr.StripIdempotent | packages/fedora/q-paks-0.2/main.py:257-259 | stripping twice is stripping once |
| PyStr.StripEmptyIffAllSpace | packages/fedora/q-paks-0.2/main.py:158-159 | a string strips to empty if and only if it is all whitespace |
| PyStr.Lower | sources/main.py:98 | `lower()` keeps the length |
| PyStr.LowerAt | sources/main.py:98 | `lower()` maps each character on its own |
| PyStr.LowerNormalizes | sources/main.py:98 | the result has no upper-case letter, and lowering it again changes nothing |
| PyStr.StartsWith | sources/main.py:60-62 | `s.startswith(prefix)`: the prefix is the first `len(prefix)` characters; `PyStr.FirstWordPrefix` relates it to the leading word |
| PyStr.Contains | sources/main.py:98 | `needle in hay`; its meaning is stated by `PyStr.ContainsIffOccurs` |
| PyStr.ContainsIffOccurs | sources/main.py:98 | `needle in hay` holds if and only if the needle occurs at some position |
| PyStr.ContainsInfix | sources/main.py:84 | a string contains anything placed inside it |
| PyStr.EmptyContained | sources/main.py:98 | the empty string is in every string |
| PyStr.Index | packages/fedora/q-paks-0.2/main.py:275 | `index(c)` fails if and only if `c` is absent; otherwise it is the first position of `c` |
| PyStr.SliceFrom | packages/fedora/q-paks-0.2/main.py:277 | `s[i:]` is the suffix, or empty when `i` is past the end |
| PyStr.SliceTo | packages/fedora/q-paks-0.2/main.py:272-273 | `s[:n]` is the prefix, or the whole when `n` is past the end |
| PyStr.Join | packages/fedora/q-paks-0.2/main.py:162 | `sep.join(parts)`; `PyStr.SplitJoin`, `PyStr.JoinSplit` and `PyStr.SplitWsJoin` state that split undoes it |
| PyStr.Concat | packages/fedora/q-paks-0.2/main.py:272 | `"".join(parts)`; `QPaksLegacy.InfoNameFromTitle` uses it on the first three lines |
| PyStr.Split | sources/main.py:89-90 | `split(sep)` always gives at least one field |
| PyStr.SplitFieldsFree | sources/main.py:89-90 | no field contains the separator |
| PyStr.JoinSplit | sources/main.py:89-90 | joining the fields with the separator gives back the string |
| PyStr.SplitJoin | sources/main.py:89-94 | splitting separator-free fields joined by the separator gives back the fields |
| PyStr.SplitNoSep | sources/main.py:90 | a string without the separator is one field |
| PyStr.SplitPrepend | sources/main.py:90 | a leading field before a separator is split off as the first field |
| PyStr.SplitFirstField | packages/fedora/q-paks-0.2/main.py:272 | the first field ends at the first separator, or is the whole string when there is none |
| PyStr.WordLength | sources/main.py:27-29 | the leading word is whitespace-free and stops at whitespace or the end |
| PyStr.SplitWs | packages/fedora/q-paks-0.2/main.py:160 | `s.split()`; `PyStr.SplitWsTokens`, `PyStr.SplitWsEmpty` and `PyStr.SplitWsJoin` state its meaning |
| PyStr.SplitWsTokens | packages/fedora/q-paks-0.2/main.py:160 | `split()` gives non-empty whitespace-free tokens |
| PyStr.SplitWsEmpty | sources/main.py:27-28 | `split()` gives no tokens if and only if the string is all whitespace |
| PyStr.SplitWsPrepend | packages/fedora/q-paks-0.2/main.py:160 | a word followed by whitespace is split off as the first token |
| PyStr.WordLengthOf | packages/fedora/q-paks-0.2/main.py:160-161 | the leading word of `word + space + tail` is `word` |
| PyStr.SplitWsWord | packages/fedora/q-paks-0.2/main.py:160 | a single word splits into itself |
| PyStr.SplitWsJoin | packages/fedora/q-paks-0.2/main.py:160-162 | words joined by single spaces split back into the same words |
| PyStr.WordLengthAtLeast | packages/fedora/q-paks-0.2/main.py:160-161 | a whitespace-free prefix lies within the leading word |
| PyStr.FirstWordPrefix | packages/fedora/q-paks-0.2/main.py:159-161 | a whitespace-free prefix starts a string if and only if it starts its leading word |
| PyStr.FirstToken | packages/fedora/q-paks-0.2/main.py:160-161 | a string that starts with a non-space has its leading word as first token |
| Sorting.Less | sources/main.py:330 | Python's `<` on `str`; the lemmas below prove it is a strict total order that runs from smaller to larger code points |
| Sorting.LessExamples | sources/main.py:330 | `"Firefox" < "GIMP" < "GIMP 2" < "gedit"`, and not the other way round: upper case sorts before lower case, and a proper prefix comes first |
| Sorting.LessIrreflexive | sources/main.py:330 | no string is less than itself |
| Sorting.LessAsymmetric | sources/main.py:330 | `<` on strings is asymmetric |
| Sorting.LessTransitive | sources/main.py:330 | `<` on strings is transitive |
| Sorting.LessTotal | sources/main.py:330 | two different strings are always ordered one way or the other |
| Sorting.Insert | sources/main.py:330 | inserting into an ascending list keeps it ascending and adds exactly that element |
| Sorting.Sort | sources/main.py:330 | `sorted()` is ascending and a permutation of its input |
| Sorting.SortDistinct | sources/main.py:330 | sorting distinct keys gives a strictly ascending list of the same keys |
| Sorting.DuplicateInPermutation | sources/main.py:330 | a permutation of a list without repeats has no repeats |
| PyDict.Empty | sources/main.py:350 | `{}` is a well-formed empty dictionary |
| PyDict.Put | sources/main.py:362-365 | `d[k] = v` maps `k` to `v`, leaves other keys alone, appends a new key to the key order and keeps an existing key where it was |
| PyDict.PutOverwrites | sources/main.py:362-365 | a second store under the same key replaces the first |
| PyDict.Len | sources/main.py:326 | `len(d)` is the number of keys |
| PyDict.SortedKeys | sources/main.py:330 | `sorted(list(d))` lists every key once, in strictly ascending order |
| PyDict.ValuesAt | sources/main.py:330-331 | looking up each sorted name gives that name's value, in the same order |

## Left out

- The Qt widgets, the worker threads and signals, JSON encoding of the
  results, icons and desktop files, the SIGINT handler, and running apps.
  They are user-interface or process plumbing, and no parsing happens there.
- The `install`, `uninstall` and `update` commands run in a terminal.
  They produce no output that the program parses.
- The commands themselves are not run. Each command's output is an input
  of the model. Failure is modelled only where `sources/main.py` catches
  it, as `Captured.Failed`.
- `subprocess.run` in `add_flatpak_remotes`: only the argument vectors
  are modelled. A `remote-add` that fails only prints a message.
- Messages printed with `print` are not modelled.
- Byte decoding is not modelled: output is taken as already decoded text.
- `lower()` is modelled for ASCII letters only. Python lower-cases every
  Unicode cased letter.
- `isspace()` is modelled by its fixed set of whitespace code points.
- Python's string `<` compares code points. Here it compares Dafny `char`
  values, which are the same thing for the scalar values a decoded string
  can hold.
- The packaged variant catches no `CalledProcessError`: a failing command
  there raises out of the thread or the widget, and the model does not
  represent that.
- The packaged variant's `InstalledApp` widget (packages/fedora/q-paks-0.2/main.py line 179) reads
  `app_details["Installed"]`, which raises `KeyError` when `flatpak info`
  prints no `Installed:` line. Widgets are outside the model.
- The packaged variant passes the query to `flatpak search` and never
  uses it again, so its search parse has no query argument.
- QPaksLegacy.InstalledApps: the dictionary is specified over an abstract
  per-id details function that always carries a `Name`.
  `QPaksLegacy.GetInstalledApps` ties it to `flatpak info` by using
  `DetailsOf(info)`, which applies `ParseInfo` to each id's output.
- The search in `sources/main.py` never calls `valid_package`, so rows
  with a reserved prefix are listed (`QPaks.RuntimeListedBySearch`).
- Neither search parser drops records with an empty id or name.
- `sources/main.py` stores only `ID` and `Name` for an installed app.
- The remote is added as `flathub-verified_floss`, but `get_label` looks
  for `flathub-verified-floss`. Both literals are kept as written, and
  `QPaks.ConfiguredRemotesNeverVerifiedFoss` states the consequence: no
  row listed only in the configured remotes gets "Verified & FOSS". The
  code does not show which spelling the authors meant, so it is not
  corrected here.
