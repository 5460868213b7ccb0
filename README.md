# DosyaYoneticisi list and string rules, in Dafny

DosyaYoneticisi is a React Native file manager. It has a file explorer with category views (images, videos, audio, apps, downloads, trash), a duplicate finder, favourites, notes and a light/dark theme. This project models the rules those screens apply to lists and names, and proves what they promise. The device file system is an abstract snapshot (`FileStore.Store`): the paths that exist, whether each is a directory and its size, the ordered child names of every readable directory, and the paths whose `getInfoAsync` throws. Key-value storage is a field holding the last value written. Whether a write, read or delete succeeds is a boolean parameter. `Date.now()` and the system colour scheme are also parameters.

Modules, one per file:

- `Wrappers`: `Option` and `Result`.
- `Strings`: `split`/`pop`, ASCII `toLowerCase`/`toUpperCase`, `includes`, `trim`, `lastIndexOf` and decimal `toString`, with their lemmas.
- `Seqs`: `filter`, and the order-preserving subsequence relation.
- `Sorting`: the stable `Array.prototype.sort`.
  - The reference definition is insertion sort on sequences.
  - `SortInPlace` is the in-place array algorithm, proved to produce it.
- `FileStore`: the file-system snapshot and the `expo-file-system` calls the core makes.
- `FileHelpers`: `getFileIcon` reduced to the category it picks, and `getFileExtension`.
- `Explorer`: `matchType`, the depth-first category scan, the `loadFiles` modes with the hidden-name filter and the directories-first sort, the search effect, and the paths of rename and delete.
  - The screen is a class holding `files` and `filteredFiles`.
- `Duplicates`: the bucketing loop of `scanForDuplicates` and the list filter of `deleteDuplicate`.
  - The bucketing loop is a method over a map.
  - It is proved equal to a reference definition.
- `Favorites`: `toggleFavorite` and `isFavorite` over items keyed by an optional `path` or `id`.
- `Notes`: `saveNote`, `deleteNote`, the newest-first order and `filteredNotes`.
- `Theme`: the dark-mode bit, `loadTheme`, `toggleTheme` and the palette choice.

The model follows the code as written. The comparator of `loadNotes` and `saveNote` is `b.updatedAt - a.updatedAt`, so notes are shown newest first. `matchType` treats a dot-less name as its own extension. The duplicate key keeps the case of the extension. `toggleFavorite` looks favourites up without guarding against a missing key; see "## Findings".

## Model

| member | source | states |
|---|---|---|
| FileStore.ReadDirectory | src/screens/ExplorerScreen.js:165 | `readDirectoryAsync` succeeds exactly on a readable directory and yields its child names |
| FileStore.GetInfo | src/screens/ExplorerScreen.js:174-175 | `getInfoAsync` throws exactly on the failing paths. Otherwise `exists` is whether the path is present, and a directory flag implies a present directory |
| FileStore.MakeDirectory | src/screens/ExplorerScreen.js:175 | creating a missing directory makes it present, a directory, and readable with no children. In this model every other listing is unchanged (the parent's listing is not extended; see "## Left out"), and store validity is kept |
| Strings.SplitLengthAboveOne | src/utils/fileHelpers.js:16-17 | `split('.')` yields more than one piece exactly when the name contains a `.` |
| Strings.LastPieceOfSplit | src/utils/fileHelpers.js:16-17 | `pop()` after `split(sep)` returns the text after the last separator |
| Strings.LastPieceIsSuffix | src/screens/ExplorerScreen.js:149 | the popped piece is a separator-free suffix, preceded by the separator when there is one, and is the whole string when there is none |
| Strings.JoinSplit | src/utils/fileHelpers.js:16 | the pieces of `split` rejoin to the original string |
| Strings.SplitPiecesSeparatorFree | src/utils/fileHelpers.js:16 | no piece of `split(sep)` contains `sep` |
| Strings.LastPieceLower | src/screens/ExplorerScreen.js:149 | lower-casing commutes with taking the last `.` piece and keeps the dots |
| Strings.LowerOfLower | src/screens/ExplorerScreen.js:231 | lower-casing is idempotent and ignores a prior upper-casing |
| Strings.TrimEmptyIffBlank | src/screens/ExplorerScreen.js:227 | `trim()` is empty exactly when every character is ECMAScript white space |
| Strings.LastIndexOf | src/screens/ExplorerScreen.js:249 | `lastIndexOf` is -1 exactly when the character is absent; otherwise it is the index of its last occurrence |
| Strings.NatToStringInjective | src/screens/NotesScreen.js:75 | distinct timestamps give distinct `toString()` texts |
| Seqs.Filter | src/screens/ExplorerScreen.js:230-232 | `filter` keeps an order-preserving subsequence. Every kept element satisfies the predicate, and every element that satisfies it is kept |
| Seqs.FilterMultiplicity | src/screens/DuplicateFinderScreen.js:58 | `filter` keeps each satisfying value as often as it occurs and drops every other value |
| Sorting.SortPermutes | src/screens/ExplorerScreen.js:203-209 | the sort returns a permutation of its input |
| Sorting.SortSorts | src/screens/ExplorerScreen.js:203-209 | under a total preorder the result is sorted |
| Sorting.SortStable | src/screens/ExplorerScreen.js:203-209 | elements the comparator cannot tell apart keep their relative order |
| Sorting.SortIdempotent | src/screens/NotesScreen.js:50 | sorting an already sorted list changes nothing |
| Sorting.SortInPlace | src/screens/ExplorerScreen.js:203-209 | the array ends holding the stable sort of its old contents |
| Sorting.InsertAt | src/screens/ExplorerScreen.js:203-209 | one step of the in-place sort: the prefix grows by the next element in sorted position, and the rest of the array is untouched |
| FileHelpers.IconExtension | src/utils/fileHelpers.js:16-17 | the extension is empty for a dot-less name, otherwise the lower-cased text after the last `.` |
| FileHelpers.ExtensionCategory | src/utils/fileHelpers.js:19-32 | each category is chosen exactly when the extension is in its table, so the tables are disjoint and the order of the checks does not matter. Any other extension is generic |
| FileHelpers.GetFileIcon | src/utils/fileHelpers.js:12-33 | a directory is a folder whatever its name, and a file never is. A missing or empty name is generic. Otherwise each category holds exactly when the lower-cased extension is in its table, so any other extension is generic |
| FileHelpers.DotlessNameIsGeneric | src/utils/fileHelpers.js:16-17 | a file name without `.` gets the generic icon |
| FileHelpers.IconIgnoresCase | src/utils/fileHelpers.js:17 | names equal up to letter case get the same icon |
| FileHelpers.PackagesAreGeneric | src/utils/fileHelpers.js:19-32 | `apk` and `ipa` files get the generic icon |
| FileHelpers.PackageExtension | src/utils/fileHelpers.js:16-17 | the extension of `stem.ext` is `ext` lower-cased, whatever the stem holds |
| FileHelpers.GetFileExtension | src/utils/fileHelpers.js:35-37 | the result is in upper case, holds no `.`, and lower-cases to the icon extension, so it is the upper-cased last `.` piece. With no `.` it is the whole name upper-cased |
| Explorer.MatchType | src/screens/ExplorerScreen.js:148-155 | only the four scan types can match |
| Explorer.MatchesAtMostOneType | src/screens/ExplorerScreen.js:150-154 | the four tables are disjoint, so a name matches at most one category |
| Explorer.DotlessNameIsItsOwnExtension | src/screens/ExplorerScreen.js:149 | a dot-less name is matched as if it were its own extension, like `x.<name>` |
| Explorer.MatchTypeIgnoresCase | src/screens/ExplorerScreen.js:149 | names equal up to letter case match the same types |
| Explorer.MatchTypeAgreesWithIcon | src/screens/ExplorerScreen.js:150-152 | for dotted names the image, video and audio tables agree with the icon tables |
| Explorer.AppMatchesPackages | src/screens/ExplorerScreen.js:149-153 | the `app` view takes `stem.ext` exactly when `ext`, lower-cased, is `apk` or `ipa` |
| Explorer.ChildPath | src/screens/ExplorerScreen.js:121 | the child path starts with the directory and ends with `/` and the entry. It adds a `/` exactly when the directory does not already end in one |
| Explorer.NoHiddenSegmentAppend | src/screens/ExplorerScreen.js:118 | joining two paths free of hidden segments gives a path free of hidden segments |
| Explorer.BeneathChild | src/screens/ExplorerScreen.js:118-121 | a path below a visible child is below the directory, with no hidden segment in between |
| Explorer.ChildIsDeeper | src/screens/ExplorerScreen.js:124-130 | a child directory has strictly fewer deeper paths, so the recursion ends |
| Explorer.Scan | src/screens/ExplorerScreen.js:113-146 | the reference scan of a directory: an unreadable one gives nothing (stated as an `ensures`), and every result is a non-directory of the requested type |
| Explorer.ScanEntries | src/screens/ExplorerScreen.js:117-141 | the reference loop over a listing: every result is a non-directory of the requested type |
| Explorer.ScanOne | src/screens/ExplorerScreen.js:118-140 | the reference turn on one name: `None` for a throw, otherwise only non-directories of the requested type |
| Explorer.ScanRecursively | src/screens/ExplorerScreen.js:113-146 | the loop returns exactly the depth-first reference scan |
| Explorer.ScanEntry | src/screens/ExplorerScreen.js:117-140 | one entry: hidden names and `.trash` (except for type `trash`) add nothing, and a throwing `getInfoAsync` ends the scan. A directory adds its own scan; a file adds itself when its type matches |
| Explorer.ScanOtherTypeIsEmpty | src/screens/ExplorerScreen.js:154 | a category that is none of the four types finds nothing |
| Explorer.ScanEntriesOtherTypeIsEmpty | src/screens/ExplorerScreen.js:154 | the same, for the scan of a directory's remaining entries |
| Explorer.ScanSound | src/screens/ExplorerScreen.js:117-140 | every result is a matching non-directory whose path is below the start, with no hidden segment |
| Explorer.ScanEntriesSound | src/screens/ExplorerScreen.js:117-140 | the same, for the remaining entries of one directory |
| Explorer.ScanStopsAtError | src/screens/ExplorerScreen.js:115-145 | an error at one entry returns the results gathered before it and nothing after |
| Explorer.ScanEntriesComplete | src/screens/ExplorerScreen.js:117-141 | with no throwing `getInfoAsync`, every matching file and every result of a visited subdirectory is returned |
| Explorer.StatNames | src/screens/ExplorerScreen.js:166-170 | the `Promise.all` map returns one entry per name, in order, at its path, carrying the directory flag and size that name's `getInfoAsync` reported. It fails exactly when some `getInfoAsync` throws |
| Explorer.StatEntry | src/screens/ExplorerScreen.js:193-198 | an item keeps the name, path and directory flag it was read with. Its size is the reported one, except that folder mode turns a missing size into 0 |
| Explorer.FolderModeHidesDotNames | src/screens/ExplorerScreen.js:187-199 | folder mode lists exactly the names not starting with `.`, since `category` is falsy there and the `trash` escape never applies |
| Explorer.TrashModeListsEverything | src/screens/ExplorerScreen.js:163-170 | the trash view lists every name of `.trash/`, hidden or not, in order, at `defaultPath + '.trash/' + name` |
| Explorer.LoadItems | src/screens/ExplorerScreen.js:157-200 | the items of the mode: only the Download mode changes the store, store validity is kept, and folder mode lists no hidden name, and a category view other than trash and Download lists exactly the recursive scan of `defaultPath` |
| Explorer.DownloadModeListsEverything | src/screens/ExplorerScreen.js:171-182 | the Download view fails if `getInfoAsync` throws on its directory; a missing directory is created as an empty directory, so the view lists nothing; an existing one leaves the store alone; every name of the directory is listed, hidden or not, in order, at `path + name` |
| Explorer.ListingOrderIsTotalPreorder | src/screens/ExplorerScreen.js:203-209 | the directories-first comparator is a total preorder whenever `localeCompare` is |
| Explorer.SortedListing | src/screens/ExplorerScreen.js:203-209 | the sorted listing is a permutation with every directory before every file, names ordered within each group, and ties in their old order |
| Explorer.ExplorerScreen.LoadFiles | src/screens/ExplorerScreen.js:157-220 | on success both lists hold the sorted items of the mode; any error leaves both as they were. The new store is the one `LoadItems` returns, so Download mode creates its missing directory (`DownloadModeListsEverything`) |
| Explorer.SearchResults | src/screens/ExplorerScreen.js:226-235 | the filtered list keeps the order of `files`; a blank query keeps everything, any other query keeps only names that contain it, ignoring case |
| Explorer.SearchSemantics | src/screens/ExplorerScreen.js:226-235 | a blank query shows the full list. Otherwise exactly the entries whose lower-cased name contains the lower-cased, untrimmed query are kept, in order and with multiplicity |
| Explorer.SearchIgnoresQueryCase | src/screens/ExplorerScreen.js:231 | queries equal up to case give the same results |
| Explorer.ExplorerScreen.ApplySearch | src/screens/ExplorerScreen.js:226-235 | the effect sets `filteredFiles` to the search results and leaves `files` alone |
| Explorer.RenameTarget | src/screens/ExplorerScreen.js:245-249 | a blank-after-trim text performs no move; any other text yields a destination |
| Explorer.ParentPath | src/screens/ExplorerScreen.js:249 | the parent is the text before the last `/`, and is empty when there is no `/` |
| Explorer.ParentOfAppended | src/screens/ExplorerScreen.js:248 | the parent of `parent + '/' + name`, for a `/`-free name, is `parent` |
| Explorer.RenameStaysInDirectory | src/screens/ExplorerScreen.js:245-249 | a `/`-free new name stays in the old parent directory and ends in `/` plus the untrimmed text |
| Explorer.RenameOfListedEntry | src/screens/ExplorerScreen.js:245-249 | renaming a listed entry moves it to the path the listing would give the new name |
| Explorer.DeleteAction | src/screens/ExplorerScreen.js:263-274 | the trash view deletes the selected path; every other view moves it to `.trash/` plus its name |
| Explorer.DeleteDestinations | src/screens/ExplorerScreen.js:263-274 | the trash view deletes the selected path permanently. Any other view moves the file into `.trash/` under its name, at the path the trash view lists it under |
| Duplicates.SizeText | src/screens/DuplicateFinderScreen.js:36 | the size text is never empty and contains no `_` |
| Duplicates.SizeTextInjective | src/screens/DuplicateFinderScreen.js:36 | distinct sizes, or a size and `undefined`, give distinct texts |
| Duplicates.UnderscoreSplit | src/screens/DuplicateFinderScreen.js:36 | the text before the first `_` determines both halves of the key |
| Duplicates.Key | src/screens/DuplicateFinderScreen.js:36 | the key is the size text, then `_`, then the `.`-free last piece of the name |
| Duplicates.SameKey | src/screens/DuplicateFinderScreen.js:36 | two files share a key exactly when they have the same size and the same case-sensitive last `.` piece |
| Duplicates.KeyOfDotted | src/screens/DuplicateFinderScreen.js:36 | the key of `stem.ext` of size n is `n_ext` |
| Duplicates.Candidates | src/screens/DuplicateFinderScreen.js:32-35 | reading the candidates succeeds exactly when no `getInfoAsync` of a listed name throws |
| Duplicates.ReadNext | src/screens/DuplicateFinderScreen.js:32-35 | one turn fails exactly when this or an earlier `getInfoAsync` throws. Otherwise it adds this name's candidate when it is a file and nothing when it is a directory |
| Duplicates.CandidatesListFiles | src/screens/DuplicateFinderScreen.js:32-35 | a successful read holds, in listing order, the candidate of each listed name that is a file, and nothing else |
| Duplicates.CandidatesAreTheFiles | src/screens/DuplicateFinderScreen.js:32-35 | every candidate is a listed name read at `docDir + name` that is not a directory, every listed file is a candidate, and the file names keep the listing order |
| Duplicates.CandidateOf | src/screens/DuplicateFinderScreen.js:33-34 | a file's candidate carries its name, the path `docDir + name` and the size `getInfoAsync` reported |
| Duplicates.Reported | src/screens/DuplicateFinderScreen.js:37-41 | the report has at most as many entries as there are files, and fewer when there is any file. That each entry is a later file named after the first file of its key is `DuplicatesSound`. That every such file is reported once, in listing order, is `ReportIndices` and `DuplicatesComplete` |
| Duplicates.FirstWithKey | src/screens/DuplicateFinderScreen.js:37-41 | `fileMap[key]` is a candidate with that key, and it is absent exactly when no candidate has the key |
| Duplicates.FirstMapAgrees | src/screens/DuplicateFinderScreen.js:37-41 | the map the loop builds holds, for every key seen, the first file with that key |
| Duplicates.FindDuplicates | src/screens/DuplicateFinderScreen.js:25-43 | the loop returns exactly the reference report, or an error when the listing or a `getInfoAsync` fails |
| Duplicates.BucketFiles | src/screens/DuplicateFinderScreen.js:32-43 | the loop over the names equals the reference report of their candidates |
| Duplicates.AddCandidate | src/screens/DuplicateFinderScreen.js:36-41 | one turn either reports the file as a copy of the stored original or stores it as the original |
| Duplicates.CandidatesErrorPersists | src/screens/DuplicateFinderScreen.js:48 | a throw anywhere fails the whole scan |
| Duplicates.FirstWithKeyInKeys | src/screens/DuplicateFinderScreen.js:37 | a key is in the map exactly when some file has it |
| Duplicates.DuplicateCount | src/screens/DuplicateFinderScreen.js:32-43 | the number of reports plus the number of distinct keys is the number of files |
| Duplicates.FirstIndex | src/screens/DuplicateFinderScreen.js:37-41 | the stored original sits at a position no earlier file of its key precedes |
| Duplicates.DuplicatesSound | src/screens/DuplicateFinderScreen.js:37-41 | every report is a later file, copied from its fields, sharing its key with an earlier file that is the first of that key and whose name is `original` |
| Duplicates.ReportIndices | src/screens/DuplicateFinderScreen.js:37-41 | the reported files' positions strictly increase, so each file is reported at most once and in listing order. The report at each position is that file with `original` set to the first earlier file of its key, and every file with an earlier file of its key has its position in the list |
| Duplicates.DuplicatesComplete | src/screens/DuplicateFinderScreen.js:37-41 | every file that has an earlier file with its key is reported, named after the first of those |
| Duplicates.NoDuplicatesIffDistinctKeys | src/screens/DuplicateFinderScreen.js:37-47 | the report is empty exactly when all keys differ |
| Duplicates.ReportOfThree | src/screens/DuplicateFinderScreen.js:37-41 | with keys a, c, a, only the third file is reported, as a copy of the first |
| Duplicates.ExtensionCaseMatters | src/screens/DuplicateFinderScreen.js:36 | `a.TXT` and `b.txt` of equal size are not duplicates |
| Duplicates.SameSizeAndExtensionReported | src/screens/DuplicateFinderScreen.js:36-41 | `b.txt` is reported as a copy of `a.txt`, and `c.jpg` of the same size is not |
| Duplicates.DuplicateFinderScreen.ScanForDuplicates | src/screens/DuplicateFinderScreen.js:23-53 | a successful scan stores the report, with the notice exactly when it is empty; a failed one keeps the old list |
| Duplicates.WithoutUri | src/screens/DuplicateFinderScreen.js:58 | the filtered list keeps, in order, exactly the reports whose `uri` is not the path |
| Duplicates.WithoutUriSemantics | src/screens/DuplicateFinderScreen.js:58 | the filter drops every report at the path and keeps every other one, in order and with multiplicity |
| Duplicates.DuplicateFinderScreen.DeleteDuplicate | src/screens/DuplicateFinderScreen.js:55-63 | a successful delete filters the list by `uri`; a failed one leaves it unchanged |
| Favorites.Find | src/context/FavoritesContext.js:26 | `find` returns the first favourite sharing `path` or `id` under strict equality, and nothing exactly when none shares either |
| Favorites.IsFavorite | src/context/FavoritesContext.js:40-42 | true exactly when some favourite shares a defined `path` or a defined `id`, so an item with neither is never a favourite |
| Favorites.Toggled | src/context/FavoritesContext.js:24-32 | with no shared key the item is appended. Otherwise the result is the order-preserving subsequence of favourites that the removal filter keeps |
| Favorites.ToggleAddsFavorite | src/context/FavoritesContext.js:26-31 | appending a keyed item makes it a favourite |
| Favorites.ToggleRemovalShrinks | src/context/FavoritesContext.js:29 | the removal branch never adds an item |
| Favorites.OneKeyedRemoval | src/context/FavoritesContext.js:26-29 | when every item carries exactly one of `path` and `id`, removal drops exactly the favourites `isFavorite` matches, after which the item is no favourite |
| Favorites.ToggleTwiceRestores | src/context/FavoritesContext.js:26-31 | toggling a new item twice restores a list whose favourites all carry a key |
| Favorites.SecondPathFavoriteIgnored | src/context/FavoritesContext.js:26-29 | toggling a second path-only item onto a path-only favourite leaves the list unchanged |
| Favorites.GuardedToggled | src/context/FavoritesContext.js:24-42 | with the `isFavorite` guard the toggle flips `isFavorite` for every keyed item |
| Favorites.GuardedToggleTwiceRestores | src/context/FavoritesContext.js:24-42 | with the guard, toggling a keyed non-favourite twice restores any list |
| Favorites.FavoritesProvider.ToggleFavorite | src/context/FavoritesContext.js:24-38 | the state becomes the toggled list, which is also stored when the write succeeds. A failed write keeps the new state |
| Favorites.FavoritesProvider.LoadFavorites | src/context/FavoritesContext.js:13-22 | after a successful read a saved list replaces the state. With none saved, or when the read fails, the state is kept |
| Notes.NewestFirstIsTotalPreorder | src/screens/NotesScreen.js:50 | the comparator `b.updatedAt - a.updatedAt` is a total preorder |
| Notes.ByRecency | src/screens/NotesScreen.js:50 | the sorted list holds the same notes, with `updatedAt` never increasing |
| Notes.ByRecencySemantics | src/screens/NotesScreen.js:50 | the sorted notes are a permutation with `updatedAt` never increasing and ties in their old order |
| Notes.Edited | src/screens/NotesScreen.js:67-72 | the edit keeps the length, ids and creation times. Notes with the edited id get the new title, content and `updatedAt`; the others are unchanged |
| Notes.Saved | src/screens/NotesScreen.js:64-82 | an edit keeps the length. A new note with `id = now.toString()` and both times `now` is put first, ahead of the old list |
| Notes.NewNoteOnTop | src/screens/NotesScreen.js:73-85 | a note saved no earlier than every update lands on top of a newest-first list, with the rest in place |
| Notes.NewNoteIdsDiffer | src/screens/NotesScreen.js:75 | notes created at different instants get different ids |
| Notes.SaveOutcomeOf | src/screens/NotesScreen.js:57-91 | nothing happens exactly when both fields are blank after trim; otherwise the save fails exactly when the write fails |
| Notes.WithoutId | src/screens/NotesScreen.js:103 | the filtered list keeps, in order, exactly the notes whose id is not the deleted one |
| Notes.WithoutIdSemantics | src/screens/NotesScreen.js:103 | the delete removes exactly the notes with the id, keeps the rest in order, and repeating it changes nothing |
| Notes.DeletePreservesOrder | src/screens/NotesScreen.js:103 | deleting keeps a newest-first list newest-first |
| Notes.FilteredNotes | src/screens/NotesScreen.js:132-135 | the filter keeps, in order, exactly the notes whose lower-cased title or content contains the lower-cased query |
| Notes.EmptyQueryKeepsNotesWithText | src/screens/NotesScreen.js:132-135 | the empty query keeps exactly the notes with a title or a content |
| Notes.FilterIgnoresQueryCase | src/screens/NotesScreen.js:133-134 | queries equal up to case give the same notes |
| Notes.SortedNewestFirst | src/screens/NotesScreen.js:50 | the in-place sort yields the list newest first |
| Notes.NotesScreen.LoadNotes | src/screens/NotesScreen.js:46-55 | after a successful read a saved list is shown newest first. With none saved, or when the read fails, the state is kept |
| Notes.NotesScreen.SaveNote | src/screens/NotesScreen.js:57-91 | storage gets the unsorted list and the state the same list newest first. A blank or failed save changes neither |
| Notes.NotesScreen.DeleteNote | src/screens/NotesScreen.js:102-105 | a successful write stores and shows the list without the id; a failed write changes nothing |
| Theme.SelectTheme | src/context/ThemeContext.js:85 | the exposed palette is the dark one exactly in dark mode, and its `dark` flag is the mode |
| Theme.ModeString | src/context/ThemeContext.js:79 | the stored string is `dark` exactly for dark mode and `light` otherwise |
| Theme.LoadedMode | src/context/ThemeContext.js:62-69 | a saved value means dark exactly when it is `dark`. With none saved the mode follows the system scheme |
| Theme.ModeRoundTrip | src/context/ThemeContext.js:65-66 | loading the string a toggle stored gives back its mode, whatever the system scheme |
| Theme.OtherStringsAreLight | src/context/ThemeContext.js:66 | any other saved string, `Dark` included, loads as light |
| Theme.ThemeProvider.constructor | src/context/ThemeContext.js:56 | the initial mode is dark exactly when the system scheme is `dark` |
| Theme.ThemeProvider.LoadTheme | src/context/ThemeContext.js:62-73 | a successful read sets the loaded mode; a failed one keeps the mode |
| Theme.ThemeProvider.ToggleTheme | src/context/ThemeContext.js:75-83 | the mode flips. A successful write stores its string, which loads back as the new mode. A failed write keeps the new mode |

## Left out

- Letter case: `Strings.Lower` and `Strings.Upper` map ASCII `A`-`Z` only. Unicode case mapping, such as the Turkish dotted and dotless i, is not modelled.
- `localeCompare`: the collation is a parameter `localeLe`, assumed to be a total preorder. Locale rules are not modelled.
- `Promise.all` in `loadFiles`: it is a sequential map in listing order. Concurrency and the lack of cancellation are not modelled.
- Effects of the file operations: rename and delete compute the `moveAsync` or `deleteAsync` call (`Explorer.RenameTarget`, `Explorer.DeleteAction`). Their effect on the store is not modelled, nor is the reload that follows.
- `FileStore.MakeDirectory` always succeeds. A failing `makeDirectoryAsync` is not modelled.
- `FileStore.MakeDirectory` does not add the new name to its parent's listing, although `makeDirectoryAsync(defaultPath + 'Download/')` makes `Download` appear in the listing of `defaultPath`. So the store after the Download view is not the device's store in that one respect. The store also keys directories by the exact path text, so `p/` and `p` are separate keys for one directory (`ChildPath(root, "Download")` against `root + "Download/"`). Keeping the two in step would need a path normalisation that the application itself never performs.
- The `initFolders` effect (src/screens/ExplorerScreen.js:93-110) is pure I/O sequencing and is not modelled.
- `formatSize` uses floating-point logarithms and `toFixed`. It is not modelled.
- Rendering, styles, icons as components, colours other than the two theme palettes, modals, alerts other than the duplicate finder's, loading flags and navigation are not modelled. Route parameters are a value (`Explorer.RouteParams`).
- Storage encoding: JSON encoding and parsing are not modelled. A stored value is the list or string itself, so malformed JSON is not modelled.
- `Duplicates.Candidate`: `uri` is the path the file was read at (`docDir + name`). The other fields `getInfoAsync` reports and the report copies are dropped.
- `Notes.NotesScreen.SaveNote`: the editor state (`modalVisible`, `editingNote`, `noteTitle`, `noteContent` and `clearNoteState`) is passed in as parameters rather than held as fields. The title and content are strings, so the `trim()` on a missing title of an opened stored note is not modelled.
- `Notes.NotesScreen.DeleteNote` models the confirmed branch of the dialog. Closing the modal when the edited note is deleted is not modelled.
- `Explorer.ScanEntriesComplete`: completeness is stated only for stores where no `getInfoAsync` throws. With throws, `Explorer.ScanStopsAtError` describes the result.
- `Explorer.MatchType`: its own contract says only that the four scan types can match. The lemmas beside it state what each type matches: `Explorer.MatchTypeAgreesWithIcon` for image, video and audio, `Explorer.AppMatchesPackages` for app, and `Explorer.DotlessNameIsItsOwnExtension` for names without a `.`.
- Timestamps from `Date.now()`, the system colour scheme, and the outcome of every storage write or read and of `deleteAsync` are parameters.

## Findings

| source | as written | input that shows it | evidently intended | confidence | as-written member | corrected member |
|---|---|---|---|---|---|---|
| src/context/FavoritesContext.js:26-29 | the existence test compares `path` and `id` with `===` and no `undefined` guard, so two items that both lack an `id` count as the same favourite | favourites `[{path: '/a'}]`, toggle `{path: '/b'}`: the list stays `[{path: '/a'}]` and `/b` never becomes a favourite | the guarded test of `isFavorite` (lines 40-42), which appends `/b` | high; not executed | Favorites.SecondPathFavoriteIgnored | Favorites.GuardedToggled |

`Favorites.FavoritesProvider.ToggleFavorite` keeps the toggle as written. `Favorites.GuardedToggled` and `Favorites.GuardedToggleTwiceRestores` state the intended behaviour beside it.
