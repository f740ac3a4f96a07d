# File manager listing and dashboard state, in Dafny

This project models the logic inside two React views of a Pterodactyl panel
modification:

- **The server file manager** (`FileManagerContainer3.tsx`) covers:
  - the search box, a case-sensitive substring filter on names;
  - `sortFiles`, which runs two chained stable `Array.prototype.sort` calls on the array it is given (by name under the locale collator, then directories before files) and then drops every entry whose name is the same string as the name just before it;
  - the page count `Math.ceil(n / 250)` and the page `slice`;
  - the Previous/Next controls and when they are shown;
  - the select-all checkbox, with its `-1` sentinel for an empty listing.
- **The dashboard** (`DashboardContainer.tsx`) covers:
  - the page read from the `?page=` query and written back to the address bar;
  - the reset to page 1 when a later page comes back empty;
  - the SWR cache key and the admin/non-admin request;
  - the client-side folders (create, "toggle");
  - the drop handler, which only logs.

The modules are:

- **Wrappers**: `Option`.
- **FileObjects**: the listed entry (`key`, `name`, `isFile`) and its names.
- **StableSort**: a stable sort by any three-way comparator.
  - `SortBy` is specified by a back-recursive insertion.
  - `SortInPlace` sorts an `array` in place and is proved to leave exactly `SortBy` of the old contents.
  - The lemmas prove it sorted, a permutation and stable. They also prove that any sorted, stable arrangement is `SortBy`, and that two chained stable sorts are one sort by the lexicographic combination of the two comparators.
- **FileSort**: `sortFiles` as a method on an `array`, with the order, stability and deduplication lemmas.
- **FileSearch**: `String.prototype.includes` and the search filter.
- **FilePages**: `Math.ceil`, JavaScript `slice` semantics (negative indices count from the end), pages and controls.
- **FileManager**: the rendered screen as a function of the fetched listing and the view state. It also holds the `FileManagerView` class over `searchTerm`, `currentPage` and `selectedFiles`, whose `Render` sorts a fresh array with `SortFiles`.
- **JsText**: `trim` (ECMA-262 WhiteSpace and LineTerminator), decimal printing and parsing, and `URLSearchParams.get`.
- **Dashboard**: the pure page, URL and request functions, and the `DashboardView` class over `page`, `folders` and `newFolderName`.

The collator (`Intl.Collator` with `numeric: true, sensitivity: 'base'`) is a
parameter of type `(string, string) -> int`. Lemmas that need a consistent
collator require `TotalPreorder(collator)`: its sign flips with its arguments,
and it is transitive. A fetch result, the `showOnlyAdmin` setting and the
`rootAdmin` flag are parameters too.

Behaviour of the code, as modelled:

- The pagination controls are shown when the *filtered* listing has more than 250 entries. "Page p of n" counts the *deduplicated* listing, so the two can disagree when names repeat (`ScreenControlsShown`).
- The current page is never reset. When a new search leaves at most 250 matches while the view is on page 2 or later, the screen shows no rows and no controls (`NarrowedSearchStrandsLaterPage`).
- Next is disabled only when the page equals the page count exactly. From a page beyond the count it stays enabled (`NextBeyondLastPage`).
- Select-all selects the names of the whole fetched listing, while the box compares the selection count with the *filtered* count. Right after checking it, the box therefore shows checked only when the search hides nothing (`SelectAllThenShownChecked`). The box is a controlled input, so a click always asks for the opposite of what it shows (`ClickSelectAll`). While the search hides part of the listing, the box stays unchecked with everything selected, and every click selects everything again (`SelectAllStuckWhileSearchHides`).
- In `totalPages = sortedFiles ? ... : 0`, `sortedFiles` is always an array, so the `0` branch never runs. The model always computes the ceiling.
- `toggleFolderVisibility` stores an empty list in both branches. An array is truthy even when empty, so the folder always ends up empty (`ToggleFolderVisibility`). The exception is the name `"__proto__"` when it is not already an own entry: the assignment then replaces the object's prototype and adds no folder (`ToggledFolders`). `handleCreateFolder` writes the name as a computed key of an object literal, which always creates an own entry, so it has no such exception.

## Model

| member | source | states |
|---|---|---|
| StableSort.SortBy | FileManagerContainer3.tsx:30-32 | the sorted sequence is as long as the input |
| StableSort.InsertPermutes | FileManagerContainer3.tsx:30-32 | insertion adds the new entry and keeps every old one |
| StableSort.SortByPermutes | FileManagerContainer3.tsx:30-32 | the sorted sequence has the same multiset of entries as the input |
| StableSort.InsertPlaced | FileManagerContainer3.tsx:30-32 | an entry lands right after the last entry not greater than it, with every later entry greater |
| StableSort.InsertInPlace | FileManagerContainer3.tsx:30-32 | after shifting, the first i+1 cells hold the old prefix with the old a[i] inserted by the comparator; later cells are unchanged |
| StableSort.SortInPlace | FileManagerContainer3.tsx:30-32 | an in-place array sort leaves exactly SortBy of the old contents |
| StableSort.InsertSorted | FileManagerContainer3.tsx:30-32 | inserting into a sorted sequence keeps it sorted under a total preorder |
| StableSort.SortBySorted | FileManagerContainer3.tsx:30-32 | the result is sorted by the comparator |
| StableSort.InsertTies | FileManagerContainer3.tsx:30-32 | insertion places the new entry after every entry the comparator ties with it |
| StableSort.SortByStable | FileManagerContainer3.tsx:30-32 | entries the comparator ties keep their input order (stability) |
| StableSort.SortedSameTiesSameLast | FileManagerContainer3.tsx:30-32 | two sorted arrangements that agree on the ties of both last entries end with the same entry |
| StableSort.SortedStableUnique | FileManagerContainer3.tsx:30-32 | two sorted arrangements with the same entries and the same tie order are equal |
| StableSort.SortByIsTheStableSort | FileManagerContainer3.tsx:30-32 | any sorted, stable permutation of the input is SortBy, so every stable sort gives the same array |
| StableSort.LexicographicTotalPreorder | FileManagerContainer3.tsx:31-32 | ordering by one total preorder and then another is a total preorder |
| StableSort.TiesOfLexicographic | FileManagerContainer3.tsx:31-32 | the entries tied with y under the combined order are those tied under the second comparator among those tied under the first |
| StableSort.SortByKeepsTieOrder | FileManagerContainer3.tsx:31-32 | a stable sort keeps, within each tie group, an order that an earlier sort established |
| StableSort.SortTwiceIsLexicographic | FileManagerContainer3.tsx:31-32 | sorting by the second comparator and then stably by the first equals one sort by first-then-second |
| StableSort.SortByKeepsAllPairs | FileManagerContainer3.tsx:30-32 | a relation holding between every two entries of the input holds between every two of the result |
| FileSort.ByName | FileManagerContainer3.tsx:31 | the first comparator looks only at the two names: entries with the same names compare alike |
| FileSort.ByKind | FileManagerContainer3.tsx:32 | a directory ranks below a file, a file above a directory, and two entries of one kind tie |
| FileSort.TwoPassSort | FileManagerContainer3.tsx:30-32 | the two sorts keep the number of entries; TwoPassSortSpec and TwoPassSortIsListingOrder carry the order |
| FileSort.SortedFiles | FileManagerContainer3.tsx:28-34 | `sortFiles` never lengthens the listing and returns nothing exactly for an empty one |
| FileObjects.Names | FileManagerContainer3.tsx:60 | `map` gives one name per entry, in order |
| FileSort.ByKindTotalPreorder | FileManagerContainer3.tsx:32 | the directories-first comparator is a total preorder |
| FileSort.ByNameTotalPreorder | FileManagerContainer3.tsx:31 | the name comparator is a total preorder when the collator is one |
| FileSort.DropRepeatedNames | FileManagerContainer3.tsx:33 | the result is never longer than the sorted list, and empty exactly when it is |
| FileSort.DropRepeatedNamesSubMultiset | FileManagerContainer3.tsx:33 | the kept entries are a sub-multiset of the sorted list |
| FileSort.SortFiles | FileManagerContainer3.tsx:28-34 | the array given is left holding both sorts' result and the returned list is that result deduplicated |
| FileSort.TwoPassSortIsListingOrder | FileManagerContainer3.tsx:30-32 | the two chained sorts equal one stable sort by kind and then name |
| FileSort.TwoPassSortPermutes | FileManagerContainer3.tsx:30-32 | the two sorts together only rearrange the entries |
| FileSort.TwoPassSortSpec | FileManagerContainer3.tsx:30-32 | the sorted array is a permutation of the input, ordered by kind then name, with collator-equal entries of one kind in input order |
| FileSort.DropRepeatedNamesKeepsOrder | FileManagerContainer3.tsx:33 | deduplication keeps the sorted order: any relation between each entry and every later one still holds |
| FileSort.NewNamePositionsExactly | FileManagerContainer3.tsx:33 | the positions starting a new name are increasing and are exactly the first one and those whose name differs from the one before |
| FileSort.DropRepeatedNamesPicksNewNames | FileManagerContainer3.tsx:33 | the kept entries are exactly the sorted entries at positions starting a new name; an entry is dropped only when its name is the same string as its predecessor's |
| FileSort.DropRepeatedNamesLast | FileManagerContainer3.tsx:33 | the last kept entry has the name of the last sorted entry |
| FileSort.DropRepeatedNamesNoRepeats | FileManagerContainer3.tsx:33 | the first entry survives and no kept entry repeats the name of the one before it |
| FileSort.DropRepeatedNamesKeepsNames | FileManagerContainer3.tsx:33 | every name of the sorted list is still present, and no other |
| FileSort.DropRepeatedNamesShortens | FileManagerContainer3.tsx:33 | one adjacent repeated name makes the result shorter |
| FileSort.DropRepeatedNamesNothingToDrop | FileManagerContainer3.tsx:33 | without adjacent repeated names nothing is dropped |
| FileSort.DropRepeatedNamesIdentity | FileManagerContainer3.tsx:33 | nothing is dropped exactly when no entry repeats its predecessor's name |
| FileSort.SortedFilesDirectoriesFirst | FileManagerContainer3.tsx:32-33 | in the result every directory comes before every file |
| FileSort.TwoPassSortNamesInOrder | FileManagerContainer3.tsx:31-32 | within one kind, names are in non-decreasing collator order after both sorts |
| FileSort.SortedFilesNamesInOrder | FileManagerContainer3.tsx:31-33 | within one kind, the names of the result are in non-decreasing collator order |
| FileSort.SortedFilesPermutation | FileManagerContainer3.tsx:28-34 | with distinct names nothing is dropped and the result is a permutation of the input |
| FileSearch.Includes | FileManagerContainer3.tsx:67 | an included term is no longer than the name, and a term that starts the name is included |
| FileSearch.IncludesIffOccurs | FileManagerContainer3.tsx:67 | `includes` holds exactly when the term occurs at some position of the name |
| FileSearch.EmptyTermIncluded | FileManagerContainer3.tsx:67 | the empty term occurs in every name |
| FileSearch.SearchFilter | FileManagerContainer3.tsx:67 | the filter never lengthens the listing |
| FileSearch.SearchFilterCounts | FileManagerContainer3.tsx:67 | an entry is kept exactly as often as it occurs when its name contains the term, and dropped otherwise |
| FileSearch.SearchFilterKeepsOrder | FileManagerContainer3.tsx:67 | the kept entries stay in listing order |
| FileSearch.MatchPositionsExactly | FileManagerContainer3.tsx:67 | the matching positions are increasing and are exactly those whose name contains the term |
| FileSearch.SearchFilterPicksMatches | FileManagerContainer3.tsx:67 | the result is exactly the entries at the matching positions, in listing order, repeated entries included |
| FileSearch.SearchFilterKeepsAll | FileManagerContainer3.tsx:67 | the filter keeps the whole listing exactly when every name contains the term; the empty term keeps everything |
| FileSearch.SearchFilterIdempotent | FileManagerContainer3.tsx:67 | filtering again by the same term changes nothing |
| FilePages.Ceil | FileManagerContainer3.tsx:70 | `Math.ceil` gives the least integer not below its argument |
| FilePages.TotalPages | FileManagerContainer3.tsx:70 | the page count is the fewest pages of 250 that hold the entries, and 0 exactly for none |
| FilePages.RelativeIndex | FileManagerContainer3.tsx:78 | `slice` clamps a non-negative index to the length and counts a negative one back from the end |
| FilePages.JsSlice | FileManagerContainer3.tsx:77-79 | a slice is never longer than the sequence |
| FilePages.PageOf | FileManagerContainer3.tsx:77-79 | a page holds at most 250 entries, for any page number the slice is given |
| FilePages.PageContents | FileManagerContainer3.tsx:77-79 | page p from 1 is the run from (p-1)*250 to p*250, cut at the end, of at most 250 entries |
| FilePages.PageNonEmptyIff | FileManagerContainer3.tsx:70-79 | a page from 1 is non-empty exactly when it is at most the page count |
| FilePages.PagesUpToPrefix | FileManagerContainer3.tsx:77-79 | pages 1 to k together are the first k*250 entries |
| FilePages.AllPagesRebuildListing | FileManagerContainer3.tsx:70-79 | pages 1 to the page count concatenate back to the whole sorted listing |
| FilePages.ShowPagination | FileManagerContainer3.tsx:131 | the controls are shown exactly when the count needs at least two pages of 250 |
| FilePages.PaginationControls | FileManagerContainer3.tsx:161-179 | the controls show the page and the count they are given; Previous is disabled exactly on page 1 and Next exactly when the page equals the count (NavigationStaysInRange is the partner) |
| FilePages.AfterPrevious | FileManagerContainer3.tsx:167-169 | Previous moves one page back, and leaves the page exactly when disabled |
| FilePages.AfterNext | FileManagerContainer3.tsx:177-179 | Next moves one page on, and leaves the page exactly when disabled |
| FilePages.NavigationStaysInRange | FileManagerContainer3.tsx:167-182 | from a page in range both buttons stay in range; Previous is inert exactly on page 1 and Next exactly on the last page |
| FilePages.PreviousNeverBelowOne | FileManagerContainer3.tsx:168-169 | Previous never leads below page 1 |
| FilePages.NextBeyondLastPage | FileManagerContainer3.tsx:178-179 | beyond the last page Next is enabled and leads further out |
| FileManager.FilteredFiles | FileManagerContainer3.tsx:67 | the filtered listing exists exactly when the fetched one does, and is no longer |
| FileManager.SelectAllTarget | FileManagerContainer3.tsx:90 | the compared value is absent while loading, negative (the -1 sentinel) exactly for an empty filtered listing, and otherwise its length |
| FileManager.SelectAllChecked | FileManagerContainer3.tsx:90 | the box is checked exactly when the filtered listing exists, is non-empty and its length equals the selection count |
| FileManager.SelectAllSelection | FileManagerContainer3.tsx:59-61 | checking selects the names of the whole fetched listing, in order; unchecking selects nothing |
| FileManager.SelectAllThenShownChecked | FileManagerContainer3.tsx:60 | right after checking, the box shows checked exactly when the listing is non-empty and the search hides none of it |
| FileManager.SelectAllStuckWhileSearchHides | FileManagerContainer3.tsx:59-91 | while the search hides part of a non-empty listing, the box shows unchecked with everything selected, so a click selects everything again |
| FileManager.SelectAllTogglesWhenNothingHidden | FileManagerContainer3.tsx:59-91 | when the search hides nothing, a click from no selection selects everything and a click from everything clears it |
| FileManager.UncheckedThenShownUnchecked | FileManagerContainer3.tsx:90 | after unchecking, the box never shows checked |
| FileManager.ScreenOf | FileManagerContainer3.tsx:67-149 | the box state follows the selection count and filtered listing; the spinner shows exactly while loading; rows need a match and are at most 250; controls need more than 250 matches |
| FileManager.ScreenLoadingOrEmpty | FileManagerContainer3.tsx:122-127 | the spinner shows exactly while loading, and the empty note exactly when no name contains the term |
| FileManager.SortedFilesMatchSearch | FileManagerContainer3.tsx:67-68 | every entry of the sorted search result is a listing entry whose name contains the term |
| FileManager.PageKeepsEntries | FileManagerContainer3.tsx:77-79 | a page of a matching, directories-first listing holds at most 250 matching entries, directories first |
| FileManager.PageOfSearchResult | FileManagerContainer3.tsx:67-79 | a page holds at most 250 listing entries that match the search, directories before files |
| FileManager.ScreenRowsFromListing | FileManagerContainer3.tsx:122-142 | the rows on screen are at most 250 matching listing entries, directories before files |
| FileManager.ScreenControlsShown | FileManagerContainer3.tsx:131-137 | controls appear exactly when more than 250 entries match, and show the page and the deduplicated page count |
| FileManager.SmallListingShowsEverything | FileManagerContainer3.tsx:131-142 | on page 1 a result of at most 250 entries shows in full, sorted and deduplicated, without controls |
| FileManager.NarrowedSearchStrandsLaterPage | FileManagerContainer3.tsx:77-79 | on a later page a result of at most 250 entries shows no rows and no controls |
| FileManager.FileManagerView.constructor | FileManagerContainer3.tsx:47 | the view starts with an empty search, page 1 and no selection |
| FileManager.FileManagerView.SetSearchTerm | FileManagerContainer3.tsx:100 | typing sets the search term and leaves the page and selection as they are |
| FileManager.FileManagerView.HandlePageChange | FileManagerContainer3.tsx:73-75 | the page becomes the requested one, which a button click always gives as 1 or above |
| FileManager.FileManagerView.ClickPrevious | FileManagerContainer3.tsx:167-169 | Previous moves one page back unless on page 1; the page stays at 1 or above |
| FileManager.FileManagerView.ClickNext | FileManagerContainer3.tsx:177-179 | Next moves one page on unless on the last page |
| FileManager.FileManagerView.OnSelectAllClick | FileManagerContainer3.tsx:59-61 | the selection becomes the select-all selection for the new checked state |
| FileManager.FileManagerView.ClickSelectAll | FileManagerContainer3.tsx:59-91 | a click delivers the opposite of the state the controlled box shows, and the selection becomes the select-all selection for it |
| FileManager.FileManagerView.Render | FileManagerContainer3.tsx:67-79 | the rendered screen, computed by sorting an array in place, is ScreenOf the listing and the view state |
| JsText.IsJsWhitespace | DashboardContainer.tsx:96 | space, tab, line feed and carriage return are white space; no letter, digit or `_` is |
| JsText.TrimStart | DashboardContainer.tsx:96 | what remains after removing leading white space is a suffix of the text |
| JsText.TrimStartStrips | DashboardContainer.tsx:96 | only white space is removed from the front, and what remains does not start with white space |
| JsText.TrimEnd | DashboardContainer.tsx:96 | what remains after removing trailing white space is a prefix of the text |
| JsText.TrimEndStrips | DashboardContainer.tsx:96 | only white space is removed from the end, and what remains does not end with white space |
| JsText.Trim | DashboardContainer.tsx:96 | `trim` keeps a contiguous run of the name that starts after its leading white space |
| JsText.TrimEmptyIffBlank | DashboardContainer.tsx:96 | a name trims to "" exactly when it is all white space |
| JsText.DecimalString | DashboardContainer.tsx:114 | a page number is written as digits without leading zeros |
| JsText.ParseDecimal | DashboardContainer.tsx:60 | a value is read exactly from a non-empty string of digits |
| JsText.DecimalRoundTrip | DashboardContainer.tsx:60 | reading a written number gives the number back |
| JsText.Split | DashboardContainer.tsx:60 | splitting gives at least one piece, and the whole string when the separator is absent |
| JsText.Join | DashboardContainer.tsx:60 | joining a single piece gives that piece |
| JsText.SplitJoin | DashboardContainer.tsx:60 | no piece of a split contains the separator, and joining the pieces with it gives the query string back |
| JsText.SplitCons | DashboardContainer.tsx:60 | a separator-free piece, the separator and the rest split as that piece followed by the rest's pieces |
| JsText.JoinSplit | DashboardContainer.tsx:60 | splitting separator-free pieces joined by the separator gives the pieces back |
| JsText.PairName | DashboardContainer.tsx:60 | a parameter's name is the prefix before its first `=` |
| JsText.PairValue | DashboardContainer.tsx:60 | a pair with an `=` is its name, `=` and value; one without has the empty value |
| JsText.Lookup | DashboardContainer.tsx:60 | there is no value exactly when no non-empty piece has the key as its name, and otherwise it is the value of the first such piece |
| JsText.QueryGet | DashboardContainer.tsx:60 | an empty query string has no parameters; otherwise, after one leading `?` is dropped, the value is the lookup of the key among the `&`-separated pieces |
| JsText.QueryGetOfPairs | DashboardContainer.tsx:60 | a query of several `&`-joined pairs gives the value of the first non-empty pair named by the key, whatever the other pairs are |
| JsText.QueryGetSinglePair | DashboardContainer.tsx:60 | a query of one `key=value` pair gives the value for that key |
| JsText.PairNameOf | DashboardContainer.tsx:60 | `key=value` splits into that key and that value |
| Dashboard.QueryPageNumber | DashboardContainer.tsx:60 | a missing or empty `page` parameter reads as 1; a non-empty one reads as a number exactly when it parses, and then as its value, which is never negative |
| Dashboard.InitialPage | DashboardContainer.tsx:62 | the start page is the read number when it is positive, and 1 otherwise |
| Dashboard.PageSearch | DashboardContainer.tsx:114 | the query part is empty exactly for page 1 and below |
| Dashboard.PageUrl | DashboardContainer.tsx:114 | the address is `/` for page 1 and below, and `/?page=N` otherwise |
| Dashboard.PageSearchCarriesPage | DashboardContainer.tsx:114 | the query written for a page above 1 gives that page's digits as its `page` parameter |
| Dashboard.ReloadKeepsPage | DashboardContainer.tsx:114 | reloading the written address opens the same page |
| Dashboard.ServersCacheKey | DashboardContainer.tsx:69 | the cache key is the endpoint, the admin flag (both settings) and the page |
| Dashboard.ServersQueryFor | DashboardContainer.tsx:70 | the request asks for type admin exactly when showOnlyAdmin and rootAdmin both hold |
| Dashboard.CacheKeyMatchesQuery | DashboardContainer.tsx:68-71 | two cache keys are equal exactly when the requests are equal |
| Dashboard.ResetPage | DashboardContainer.tsx:105-110 | the page becomes 1 exactly when an existing result on a page after 1 has no items; otherwise it is unchanged |
| Dashboard.ResetPageSettles | DashboardContainer.tsx:105-110 | the reset keeps the page at 1 or above and is idempotent |
| Dashboard.DropMessage | DashboardContainer.tsx:92 | the log line names the server and then the folder |
| Dashboard.DashboardView.constructor | DashboardContainer.tsx:60-62 | the view starts on the page read from the query, with no folders and an empty name |
| Dashboard.DashboardView.Url | DashboardContainer.tsx:114 | the address is `/` exactly on page 1 |
| Dashboard.DashboardView.SetNewFolderName | DashboardContainer.tsx:142 | typing sets the folder name and nothing else |
| Dashboard.DashboardView.HandleCreateFolder | DashboardContainer.tsx:95-103 | a blank name changes nothing; any other, untrimmed, maps to an empty folder, the other folders stay and the name is cleared |
| Dashboard.ToggledFolders | DashboardContainer.tsx:77-89 | the folder maps to an empty list whether or not it existed and the others stay, except that `"__proto__"` that is not an own entry adds nothing |
| Dashboard.ToggledFoldersIdempotent | DashboardContainer.tsx:77-89 | toggling a folder a second time changes nothing |
| Dashboard.DashboardView.ToggleFolderVisibility | DashboardContainer.tsx:77-89 | the folders become `ToggledFolders` of the old folders; page and input are unchanged |
| Dashboard.DashboardView.HandleDrop | DashboardContainer.tsx:91-93 | dropping only produces the log line and changes no state |
| Dashboard.DashboardView.OnServersLoaded | DashboardContainer.tsx:105-110 | a fetch result sets the page to its reset value, keeps it at 1 or above and leaves folders and name alone |

## Left out

- Rendering is not modelled: JSX, styling, `CSSTransition`, `Spinner`, breadcrumbs, upload/new-file/new-directory buttons and `MassActionsBar`. They are presentation with no state logic.
- Fetching (`useFileManagerSwr`, `useSWR`, `getServers`) is not modelled. A fetch result is an input value.
- The error screen (`ServerError`, `httpErrorToHuman`) and the `mutate` effect on directory change are not modelled. They are remote I/O.
- The hash effect of the file manager (clear flashes, clear the selection, set the directory) and the router's `useLocation` are not modelled. They are navigation side effects outside the listing logic.
- `window.history.replaceState` is not modelled; only the address string it receives is (`PageUrl`).
- `usePersistedState` and the admin switch are not modelled. `showOnlyAdmin` and `rootAdmin` are parameters.
- The flash messages of the dashboard are not modelled. They go to a store that is not shown.
- Drag and drop (`react-dnd`, `Folder`, `ServerDraggable`) is not modelled; only the drop handler is, and it just logs. Its `console.log` output is returned as a string.
- Locale collation is not modelled. The collator is an abstract comparator, and no natural-order comparator is given.
- `StableSort.SortBy`: the engine's sort algorithm is not modelled. Insertion sort stands for it; `SortByIsTheStableSort` shows every stable sort gives the same result when the comparator is a total preorder. With a comparator that is not one, ECMA-262 leaves the order implementation-defined, and the model gives insertion sort's order.
- `Dashboard.QueryPageNumber`: only strings of decimal digits are read as numbers. Strings that `Number` also accepts (surrounding white space, a sign, fractions, exponents, hexadecimal, `Infinity`) are read as `NaN`. Such pages therefore start at 1 here, and fractional pages are not modelled.
- `Dashboard.DashboardView.ToggleFolderVisibility`: for `"__proto__"` that is not an own entry, the new prototype of the folders object (an empty array) is not modelled; only own entries are, and they are unchanged.
- `JsText.QueryGet`: percent-decoding and `+` as space are not modelled.
- The timing of React effects and hooks is not modelled.
  - `OnServersLoaded` is called for each result. React runs the effect only when the result's `currentPage` changes.
  - The `useState` call after the early error return is a rules-of-hooks violation; it is not logic and is not modelled.
- Fields of `FileObject` other than `key`, `name` and `isFile`, and the rest of the file store, are not modelled; the listing logic does not read them.
- `Dashboard.DropMessage`: strings are sequences of Unicode scalar values, while JavaScript strings are UTF-16 code units. Lone surrogates in a file name, search term or folder name cannot be represented, and the message length counts code points rather than UTF-16 units.
- `Dashboard.PageUrl`: page numbers are unbounded integers, while JavaScript numbers are doubles. `${page}` switches to exponent form from 1e21 and loses integer precision above 2^53; `DecimalString` writes plain digits for every page.
