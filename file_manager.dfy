/**
 * The file manager screen: the search filter, the sorted and paged listing,
 * the pagination controls and the select-all checkbox, as they follow from
 * the fetched directory listing and the view's state (search term, current
 * page, selected names).
 */
module FileManager {

  import opened Wrappers
  import opened StableSort
  import opened FileObjects
  import opened FileSort
  import opened FileSearch
  import opened FilePages

  /** `files?.filter(...)`: `None` while the directory listing has not arrived. */
  function FilteredFiles(files: Option<seq<FileObject>>, searchTerm: string): (filtered: Option<seq<FileObject>>)
    ensures filtered.Some? <==> files.Some?
    ensures filtered.Some? ==> |filtered.value| <= |files.value|
  {
    match files
    case None => None
    case Some(listing) => Some(SearchFilter(listing, searchTerm))
  }

  /**
   * The value the selection count is compared with:
   * `filteredFiles?.length === 0 ? -1 : filteredFiles?.length`, where `None`
   * stands for `undefined`.
   */
  function SelectAllTarget(filtered: Option<seq<FileObject>>): (target: Option<int>)
    ensures target.Some? <==> filtered.Some?
    ensures target.Some? ==> (target.value < 0 <==> filtered.value == [])
    ensures target.Some? && target.value >= 0 ==> target.value == |filtered.value|
  {
    if filtered.None? then None
    else if |filtered.value| == 0 then Some(-1)
    else Some(|filtered.value|)
  }

  /** The select-all box is checked exactly when every entry of a non-empty filtered listing is selected by count. */
  predicate SelectAllChecked(selectedCount: nat, filtered: Option<seq<FileObject>>)
    ensures SelectAllChecked(selectedCount, filtered) <==>
      filtered.Some? && filtered.value != [] && selectedCount == |filtered.value|
  {
    var target := SelectAllTarget(filtered);
    target.Some? && target.value == selectedCount
  }

  /**
   * `onSelectAllClick`: checking selects the names of the whole fetched
   * listing, not only the entries the search shows; unchecking selects nothing.
   */
  function SelectAllSelection(checked: bool, files: Option<seq<FileObject>>): (selection: seq<string>)
    ensures |selection| == if checked && files.Some? then |files.value| else 0
    ensures forall i :: 0 <= i < |selection| ==> files.Some? && selection[i] == files.value[i].name
  {
    if checked then (match files case Some(listing) => Names(listing) case None => []) else []
  }

  /**
   * Right after select-all is checked, the box shows checked exactly when the
   * listing is not empty and the search hides none of it.
   */
  lemma SelectAllThenShownChecked(files: seq<FileObject>, searchTerm: string)
    ensures SelectAllChecked(|SelectAllSelection(true, Some(files))|, FilteredFiles(Some(files), searchTerm))
        <==> files != [] && SearchFilter(files, searchTerm) == files
  {
    SearchFilterKeepsAll(files, searchTerm);
  }

  /**
   * While the search hides part of a non-empty listing, select-all is stuck:
   * once everything is selected the box still shows unchecked, so every
   * further click selects the whole listing again and none clears it.
   */
  lemma SelectAllStuckWhileSearchHides(files: seq<FileObject>, searchTerm: string)
    requires files != [] && SearchFilter(files, searchTerm) != files
    ensures !SelectAllChecked(|Names(files)|, FilteredFiles(Some(files), searchTerm))
    ensures SelectAllSelection(!SelectAllChecked(|Names(files)|, FilteredFiles(Some(files), searchTerm)), Some(files))
      == Names(files)
  {
    SearchFilterKeepsAll(files, searchTerm);
  }

  /** When the search hides nothing, clicks alternate between selecting the whole listing and nothing. */
  lemma SelectAllTogglesWhenNothingHidden(files: seq<FileObject>, searchTerm: string)
    requires files != [] && SearchFilter(files, searchTerm) == files
    ensures SelectAllSelection(!SelectAllChecked(0, FilteredFiles(Some(files), searchTerm)), Some(files)) == Names(files)
    ensures SelectAllSelection(!SelectAllChecked(|Names(files)|, FilteredFiles(Some(files), searchTerm)), Some(files)) == []
  {
  }

  /** After select-all is unchecked the box never shows checked. */
  lemma UncheckedThenShownUnchecked(files: Option<seq<FileObject>>, filtered: Option<seq<FileObject>>)
    ensures !SelectAllChecked(|SelectAllSelection(false, files)|, filtered)
  {
  }

  /** What is below the toolbar: a spinner, the empty-directory note, or rows with optional controls. */
  datatype Body = Loading | EmptyDirectory | Rows(rows: seq<FileObject>, controls: Option<Controls>)

  datatype Screen = Screen(selectAllChecked: bool, body: Body)

  /** The screen rendered for a fetched listing (`None` while loading) and the view's state. */
  function ScreenOf(files: Option<seq<FileObject>>, searchTerm: string, currentPage: int,
                    selectedCount: nat, collator: (string, string) -> int): (screen: Screen)
    ensures screen.selectAllChecked <==> SelectAllChecked(selectedCount, FilteredFiles(files, searchTerm))
    ensures screen.body.Loading? <==> files.None?
    ensures screen.body.Rows? ==> files.Some? && SearchFilter(files.value, searchTerm) != [] && |screen.body.rows| <= FILES_PER_PAGE
    ensures screen.body.Rows? && screen.body.controls.Some? ==> |SearchFilter(files.value, searchTerm)| > FILES_PER_PAGE
  {
    var filtered := FilteredFiles(files, searchTerm);
    var checked := SelectAllChecked(selectedCount, filtered);
    if filtered.None? then Screen(checked, Loading)
    else if filtered.value == [] then Screen(checked, EmptyDirectory)
    else
      var sortedFiles := SortedFiles(filtered.value, collator);
      var totalPages := TotalPages(|sortedFiles|);
      var controls := if ShowPagination(|filtered.value|) then Some(PaginationControls(currentPage, totalPages)) else None;
      Screen(checked, Rows(PageOf(sortedFiles, currentPage), controls))
  }

  /** The spinner shows exactly while loading; the empty note exactly when no name contains the term. */
  lemma ScreenLoadingOrEmpty(files: Option<seq<FileObject>>, searchTerm: string, currentPage: int,
                             selectedCount: nat, collator: (string, string) -> int)
    ensures ScreenOf(files, searchTerm, currentPage, selectedCount, collator).body.Loading? <==> files.None?
    ensures ScreenOf(files, searchTerm, currentPage, selectedCount, collator).body.EmptyDirectory? <==>
      files.Some? && forall i :: 0 <= i < |files.value| ==> !Includes(files.value[i].name, searchTerm)
  {
    if files.Some? {
      forall f
        ensures multiset(SearchFilter(files.value, searchTerm))[f] == if Includes(f.name, searchTerm) then multiset(files.value)[f] else 0
      {
        SearchFilterCounts(files.value, searchTerm, f);
      }
      if SearchFilter(files.value, searchTerm) != [] {
        var f := SearchFilter(files.value, searchTerm)[0];
        assert f in multiset(SearchFilter(files.value, searchTerm));
        var k := InSeqAt(files.value, f);
      } else {
        forall i | 0 <= i < |files.value|
          ensures !Includes(files.value[i].name, searchTerm)
        {
          assert files.value[i] in multiset(files.value);
        }
      }
    }
  }

  /** Entries of the sorted and deduplicated search result come from the listing and match the term. */
  lemma SortedFilesMatchSearch(files: seq<FileObject>, searchTerm: string, collator: (string, string) -> int, f: FileObject)
    requires f in SortedFiles(SearchFilter(files, searchTerm), collator)
    ensures f in files && Includes(f.name, searchTerm)
  {
    var filtered := SearchFilter(files, searchTerm);
    var sorted := TwoPassSort(filtered, collator);
    assert f in multiset(DropRepeatedNames(sorted));
    DropRepeatedNamesSubMultiset(sorted);
    assert f in multiset(sorted);
    TwoPassSortPermutes(filtered, collator);
    SearchFilterCounts(files, searchTerm, f);
  }

  /** A page keeps what holds of every entry of the listing it is cut from, and keeps directories first. */
  lemma {:induction false} PageKeepsEntries(sorted: seq<FileObject>, currentPage: int, files: seq<FileObject>, searchTerm: string)
    requires currentPage >= 1
    requires forall i :: 0 <= i < |sorted| ==> sorted[i] in files && Includes(sorted[i].name, searchTerm)
    requires forall i, j :: 0 <= i < j < |sorted| && sorted[i].isFile ==> sorted[j].isFile
    ensures var rows := PageOf(sorted, currentPage);
      |rows| <= FILES_PER_PAGE &&
      (forall i :: 0 <= i < |rows| ==> rows[i] in files && Includes(rows[i].name, searchTerm)) &&
      (forall i, j :: 0 <= i < j < |rows| && rows[i].isFile ==> rows[j].isFile)
  {
    var rows := PageOf(sorted, currentPage);
    PageContents(sorted, currentPage);
    var a := Min((currentPage - 1) * FILES_PER_PAGE, |sorted|);
    assert rows == sorted[a..Min(currentPage * FILES_PER_PAGE, |sorted|)];
    assert forall i :: 0 <= i < |rows| ==> rows[i] == sorted[a + i];
  }

  /**
   * A page of the sorted and deduplicated search result holds at most 250
   * entries of the listing, each matching the search, with every directory
   * before every file.
   */
  lemma PageOfSearchResult(files: seq<FileObject>, searchTerm: string, currentPage: int, collator: (string, string) -> int)
    requires currentPage >= 1
    ensures var rows := PageOf(SortedFiles(SearchFilter(files, searchTerm), collator), currentPage);
      |rows| <= FILES_PER_PAGE &&
      (forall i :: 0 <= i < |rows| ==> rows[i] in files && Includes(rows[i].name, searchTerm)) &&
      (forall i, j :: 0 <= i < j < |rows| && rows[i].isFile ==> rows[j].isFile)
  {
    var sortedFiles := SortedFiles(SearchFilter(files, searchTerm), collator);
    forall i | 0 <= i < |sortedFiles|
      ensures sortedFiles[i] in files && Includes(sortedFiles[i].name, searchTerm)
    {
      SortedFilesMatchSearch(files, searchTerm, collator, sortedFiles[i]);
    }
    SortedFilesDirectoriesFirst(SearchFilter(files, searchTerm), collator);
    PageKeepsEntries(sortedFiles, currentPage, files, searchTerm);
  }

  /**
   * The rows on screen are at most one page of 250 entries of the listing,
   * each matching the search, with every directory before every file.
   */
  lemma ScreenRowsFromListing(files: Option<seq<FileObject>>, searchTerm: string, currentPage: int,
                              selectedCount: nat, collator: (string, string) -> int)
    requires currentPage >= 1
    ensures var body := ScreenOf(files, searchTerm, currentPage, selectedCount, collator).body;
      body.Rows? ==>
        (files.Some? && |body.rows| <= FILES_PER_PAGE &&
         (forall i :: 0 <= i < |body.rows| ==> body.rows[i] in files.value && Includes(body.rows[i].name, searchTerm)) &&
         (forall i, j :: 0 <= i < j < |body.rows| && body.rows[i].isFile ==> body.rows[j].isFile))
  {
    if files.Some? {
      PageOfSearchResult(files.value, searchTerm, currentPage, collator);
    }
  }

  /** The controls appear exactly when more than 250 entries match, whatever the page count after deduplication. */
  lemma ScreenControlsShown(files: Option<seq<FileObject>>, searchTerm: string, currentPage: int,
                            selectedCount: nat, collator: (string, string) -> int)
    ensures var body := ScreenOf(files, searchTerm, currentPage, selectedCount, collator).body;
      (body.Rows? && body.controls.Some?) <==> files.Some? && |SearchFilter(files.value, searchTerm)| > FILES_PER_PAGE
    ensures var body := ScreenOf(files, searchTerm, currentPage, selectedCount, collator).body;
      body.Rows? && body.controls.Some? ==>
        body.controls.value.currentPage == currentPage &&
        body.controls.value.totalPages == TotalPages(|SortedFiles(SearchFilter(files.value, searchTerm), collator)|)
  {
  }

  /** On page 1, a search result of at most 250 entries shows in full, sorted and deduplicated, without controls. */
  lemma SmallListingShowsEverything(files: seq<FileObject>, searchTerm: string,
                                    selectedCount: nat, collator: (string, string) -> int)
    requires 0 < |SearchFilter(files, searchTerm)| <= FILES_PER_PAGE
    ensures ScreenOf(Some(files), searchTerm, 1, selectedCount, collator).body ==
      Rows(SortedFiles(SearchFilter(files, searchTerm), collator), None)
  {
    var sortedFiles := SortedFiles(SearchFilter(files, searchTerm), collator);
    PageContents(sortedFiles, 1);
    assert sortedFiles[0..|sortedFiles|] == sortedFiles;
  }

  /**
   * The page is not reset when the search narrows: on a page after the first,
   * a search result of at most 250 entries shows no rows and no controls to
   * go back with.
   */
  lemma NarrowedSearchStrandsLaterPage(files: seq<FileObject>, searchTerm: string, currentPage: int,
                                       selectedCount: nat, collator: (string, string) -> int)
    requires currentPage > 1
    requires 0 < |SearchFilter(files, searchTerm)| <= FILES_PER_PAGE
    ensures ScreenOf(Some(files), searchTerm, currentPage, selectedCount, collator).body == Rows([], None)
  {
    var sortedFiles := SortedFiles(SearchFilter(files, searchTerm), collator);
    PageNonEmptyIff(sortedFiles, currentPage);
  }

  /** The file manager's own state: the search box, the current page and the selected names. */
  class FileManagerView {
    var searchTerm: string
    var currentPage: int
    var selectedFiles: seq<string>

    /** The current page is counted from 1; the Previous button keeps it there. */
    ghost predicate Valid()
      reads this
    {
      currentPage >= 1
    }

    constructor()
      ensures Valid()
      ensures searchTerm == "" && currentPage == 1 && selectedFiles == []
    {
      searchTerm := "";
      currentPage := 1;
      selectedFiles := [];
    }

    /** The search input's `onChange`; the page is left where it is. */
    method SetSearchTerm(term: string)
      requires Valid()
      modifies this
      ensures Valid()
      ensures searchTerm == term
      ensures currentPage == old(currentPage) && selectedFiles == old(selectedFiles)
    {
      searchTerm := term;
    }

    /** `handlePageChange`, reached only from an enabled Previous or Next button. */
    method HandlePageChange(newPage: int)
      requires Valid() && newPage >= 1
      modifies this
      ensures Valid()
      ensures currentPage == newPage
      ensures searchTerm == old(searchTerm) && selectedFiles == old(selectedFiles)
    {
      currentPage := newPage;
    }

    /** A click on Previous in controls showing `totalPages`. */
    method ClickPrevious(totalPages: nat)
      requires Valid()
      modifies this
      ensures Valid()
      ensures currentPage == AfterPrevious(PaginationControls(old(currentPage), totalPages))
      ensures searchTerm == old(searchTerm) && selectedFiles == old(selectedFiles)
    {
      var controls := PaginationControls(currentPage, totalPages);
      if !controls.previousDisabled {
        HandlePageChange(controls.currentPage - 1);
      }
    }

    /** A click on Next in controls showing `totalPages`. */
    method ClickNext(totalPages: nat)
      requires Valid()
      modifies this
      ensures Valid()
      ensures currentPage == AfterNext(PaginationControls(old(currentPage), totalPages))
      ensures searchTerm == old(searchTerm) && selectedFiles == old(selectedFiles)
    {
      var controls := PaginationControls(currentPage, totalPages);
      if !controls.nextDisabled {
        HandlePageChange(controls.currentPage + 1);
      }
    }

    /** `onSelectAllClick` with the box's new checked state. */
    method OnSelectAllClick(checked: bool, files: Option<seq<FileObject>>)
      requires Valid()
      modifies this
      ensures Valid()
      ensures selectedFiles == SelectAllSelection(checked, files)
      ensures searchTerm == old(searchTerm) && currentPage == old(currentPage)
    {
      selectedFiles := SelectAllSelection(checked, files);
    }

    /**
     * A click on the select-all box. The box is a controlled input, so the
     * click delivers the opposite of the state it shows for the current
     * selection count and filtered listing.
     */
    method ClickSelectAll(files: Option<seq<FileObject>>)
      requires Valid()
      modifies this
      ensures Valid()
      ensures selectedFiles ==
        SelectAllSelection(!SelectAllChecked(|old(selectedFiles)|, FilteredFiles(files, old(searchTerm))), files)
      ensures searchTerm == old(searchTerm) && currentPage == old(currentPage)
    {
      var shown := SelectAllChecked(|selectedFiles|, FilteredFiles(files, searchTerm));
      OnSelectAllClick(!shown, files);
    }

    /**
     * One render: filters the fetched listing, sorts a fresh array of the
     * matches in place, pages the sorted entries and works out the controls
     * and the select-all box.
     */
    method Render(files: Option<seq<FileObject>>, collator: (string, string) -> int) returns (screen: Screen)
      ensures screen == ScreenOf(files, searchTerm, currentPage, |selectedFiles|, collator)
    {
      var filteredFiles := FilteredFiles(files, searchTerm);
      var checked := SelectAllChecked(|selectedFiles|, filteredFiles);
      if filteredFiles.None? {
        return Screen(checked, Loading);
      }
      var matches := filteredFiles.value;
      if |matches| == 0 {
        return Screen(checked, EmptyDirectory);
      }
      var buffer := new FileObject[|matches|](i requires 0 <= i < |matches| => matches[i]);
      assert buffer[..] == matches;
      var sortedFiles := SortFiles(buffer, collator);
      var totalPages := TotalPages(|sortedFiles|);
      var paginatedFiles := PageOf(sortedFiles, currentPage);
      var controls := if ShowPagination(|matches|) then Some(PaginationControls(currentPage, totalPages)) else None;
      screen := Screen(checked, Rows(paginatedFiles, controls));
    }
  }
}
