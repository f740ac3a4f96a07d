/**
 * The dashboard's view state: the server-list page (read from and written
 * back to the address bar), the client-side folders and the folder-name
 * input. A fetch result is an input value; the fetch itself, the flash
 * messages and the rendering are not part of this model.
 */
module Dashboard {

  import opened Wrappers
  import opened JsText

  datatype Server = Server(uuid: string, name: string)

  /** The paging part of a `PaginatedResult` that the dashboard reads. */
  datatype Pagination = Pagination(currentPage: int, totalPages: int)

  datatype PaginatedResult = PaginatedResult(items: seq<Server>, pagination: Pagination)

  /** The query parameter that holds the page number. */
  const PAGE_PARAM: string := "page"

  /**
   * `Number(new URLSearchParams(search).get('page') || '1')`. A missing or
   * empty parameter reads as "1"; `None` stands for `NaN`.
   */
  function QueryPageNumber(search: string): (n: Option<int>)
    ensures var raw := QueryGet(search, PAGE_PARAM);
      (raw.None? || raw == Some("")) ==> n == Some(1)
    ensures n.Some? ==> n.value >= 0
    ensures var raw := QueryGet(search, PAGE_PARAM);
      raw.Some? && raw.value != "" ==>
        (n.Some? <==> ParseDecimal(raw.value).Some?) &&
        (n.Some? ==> n.value == ParseDecimal(raw.value).value)
  {
    var raw := QueryGet(search, PAGE_PARAM);
    var text := if raw.None? || raw.value == "" then "1" else raw.value;
    match ParseDecimal(text)
    case Some(v) => Some(v)
    case None => None
  }

  /** `!isNaN(defaultPage) && defaultPage > 0 ? defaultPage : 1` */
  function InitialPage(defaultPage: Option<int>): (page: int)
    ensures page >= 1
    ensures defaultPage.Some? && defaultPage.value > 0 ==> page == defaultPage.value
    ensures defaultPage.None? || defaultPage.value <= 0 ==> page == 1
  {
    if defaultPage.Some? && defaultPage.value > 0 then defaultPage.value else 1
  }

  /** The query string the dashboard writes for a page: none for page 1 and below. */
  function PageSearch(page: int): (search: string)
    ensures page <= 1 <==> search == ""
  {
    if page <= 1 then "" else "?" + PAGE_PARAM + "=" + DecimalString(page)
  }

  /** The address written with `replaceState`: `/` for page 1 and below, `/?page=N` otherwise. */
  function PageUrl(page: int): (url: string)
    ensures page <= 1 ==> url == "/"
    ensures page > 1 ==> url == "/?page=" + DecimalString(page)
  {
    "/" + PageSearch(page)
  }

  /** The query string written for a page above 1 carries that page's digits as `page`. */
  lemma PageSearchCarriesPage(page: int)
    requires page > 1
    ensures QueryGet(PageSearch(page), PAGE_PARAM) == Some(DecimalString(page))
  {
    var digits := DecimalString(page);
    assert '&' !in digits by {
      forall i | 0 <= i < |digits|
        ensures digits[i] != '&'
      {
        assert IsDigit(digits[i]);
      }
    }
    QueryGetSinglePair(PAGE_PARAM, digits);
  }

  /** Reloading the written address opens the same page. */
  lemma ReloadKeepsPage(page: int)
    requires page >= 1
    ensures InitialPage(QueryPageNumber(PageSearch(page))) == page
  {
    if page > 1 {
      PageSearchCarriesPage(page);
      DecimalRoundTrip(page);
      assert ParseDecimal(DecimalString(page)) == Some(page);
      assert DecimalString(page) != "";
    }
  }

  const SERVERS_ENDPOINT: string := "/api/client/servers"

  /** The SWR cache key `['/api/client/servers', showOnlyAdmin && rootAdmin, page]`. */
  datatype CacheKey = CacheKey(endpoint: string, adminOnly: bool, page: int)

  /** The arguments passed to `getServers`; `type` is `undefined` unless it is `'admin'`. */
  datatype ServersQuery = ServersQuery(page: int, serverType: Option<string>)

  function ServersCacheKey(showOnlyAdmin: bool, rootAdmin: bool, page: int): (key: CacheKey)
    ensures key.endpoint == SERVERS_ENDPOINT && key.page == page
    ensures key.adminOnly <==> showOnlyAdmin && rootAdmin
  {
    CacheKey(SERVERS_ENDPOINT, showOnlyAdmin && rootAdmin, page)
  }

  /** Only a root administrator who switched to "others' servers" asks for the admin list. */
  function ServersQueryFor(showOnlyAdmin: bool, rootAdmin: bool, page: int): (query: ServersQuery)
    ensures query.page == page
    ensures query.serverType == Some("admin") <==> showOnlyAdmin && rootAdmin
    ensures query.serverType.None? <==> !(showOnlyAdmin && rootAdmin)
  {
    ServersQuery(page, if showOnlyAdmin && rootAdmin then Some("admin") else None)
  }

  /** Two renders share a cached result exactly when they would send the same request. */
  lemma CacheKeyMatchesQuery(showOnlyAdmin1: bool, rootAdmin1: bool, page1: int,
                             showOnlyAdmin2: bool, rootAdmin2: bool, page2: int)
    ensures ServersCacheKey(showOnlyAdmin1, rootAdmin1, page1) == ServersCacheKey(showOnlyAdmin2, rootAdmin2, page2)
        <==> ServersQueryFor(showOnlyAdmin1, rootAdmin1, page1) == ServersQueryFor(showOnlyAdmin2, rootAdmin2, page2)
  {
  }

  /** The page after a fetch result arrives: back to 1 when a later page came back empty. */
  function ResetPage(page: int, servers: Option<PaginatedResult>): (next: int)
    ensures next == page || next == 1
    ensures next != page <==>
      (page != 1 && servers.Some? && servers.value.pagination.currentPage > 1 && servers.value.items == [])
  {
    if servers.Some? && servers.value.pagination.currentPage > 1 && |servers.value.items| == 0 then 1 else page
  }

  /** A reset keeps the page at 1 or above, and a second reset on the same result changes nothing. */
  lemma ResetPageSettles(page: int, servers: Option<PaginatedResult>)
    requires page >= 1
    ensures ResetPage(page, servers) >= 1
    ensures ResetPage(ResetPage(page, servers), servers) == ResetPage(page, servers)
  {
  }

  /** `console.log` text written when a server is dropped on a folder: it names the server and then the folder. */
  function DropMessage(serverUuid: string, folderName: string): (message: string)
    ensures |message| == |serverUuid| + |folderName| + 28
    ensures message[7..7 + |serverUuid|] == serverUuid
    ensures message[|message| - |folderName|..] == folderName
  {
    var message := "Server " + serverUuid + " dropped into folder " + folderName;
    assert message[7..7 + |serverUuid|] == ("Server " + serverUuid)[7..];
    message
  }

  /** The dashboard's own state: the page, the folders and the folder-name input. */
  /** The one key whose plain assignment changes an object's prototype instead of adding an entry. */
  const PROTO_KEY: string := "__proto__"

  /**
   * The folders after `toggleFolderVisibility(folderName)`: the name maps to
   * an empty folder whether or not it existed and the other folders are
   * untouched, except that `"__proto__"`, when it is not already an own
   * entry, adds nothing.
   */
  function ToggledFolders(folders: map<string, seq<Server>>, folderName: string): (result: map<string, seq<Server>>)
    ensures folderName == PROTO_KEY && folderName !in folders ==> result == folders
    ensures folderName != PROTO_KEY || folderName in folders ==>
      folderName in result && result[folderName] == []
    ensures forall g :: g != folderName ==>
      (g in result <==> g in folders) && (g in result ==> result[g] == folders[g])
  {
    if folderName == PROTO_KEY && folderName !in folders then folders else folders[folderName := []]
  }

  /** Toggling the same folder twice leaves it as toggling once did. */
  lemma ToggledFoldersIdempotent(folders: map<string, seq<Server>>, folderName: string)
    ensures ToggledFolders(ToggledFolders(folders, folderName), folderName) == ToggledFolders(folders, folderName)
  {
    var once := ToggledFolders(folders, folderName);
    if folderName != PROTO_KEY || folderName in folders {
      assert once[folderName := []] == once;
    }
  }

  class DashboardView {
    var page: int
    var folders: map<string, seq<Server>>
    var newFolderName: string

    /** The page is always a page counted from 1. */
    ghost predicate Valid()
      reads this
    {
      page >= 1
    }

    /** First render at the address whose query string is `search`. */
    constructor(search: string)
      ensures Valid()
      ensures page == InitialPage(QueryPageNumber(search))
      ensures folders == map[] && newFolderName == ""
    {
      page := InitialPage(QueryPageNumber(search));
      folders := map[];
      newFolderName := "";
    }

    /** The address the page effect writes for the current page. */
    function Url(): (url: string)
      reads this
      requires Valid()
      ensures url == "/" <==> page == 1
    {
      PageUrl(page)
    }

    /** The folder-name input's `onChange`. */
    method SetNewFolderName(name: string)
      requires Valid()
      modifies this
      ensures Valid()
      ensures newFolderName == name
      ensures page == old(page) && folders == old(folders)
    {
      newFolderName := name;
    }

    /**
     * `handleCreateFolder`: a name that is empty or only white space changes
     * nothing; any other name, untrimmed, maps to an empty folder (emptying
     * an existing one) and the input is cleared.
     */
    method HandleCreateFolder()
      requires Valid()
      modifies this
      ensures Valid()
      ensures page == old(page)
      ensures AllWhitespace(old(newFolderName)) ==>
        folders == old(folders) && newFolderName == old(newFolderName)
      ensures !AllWhitespace(old(newFolderName)) ==> newFolderName == ""
      ensures !AllWhitespace(old(newFolderName)) ==>
        old(newFolderName) in folders && folders[old(newFolderName)] == [] &&
        forall g :: g != old(newFolderName) ==>
          (g in folders <==> g in old(folders)) && (g in folders ==> folders[g] == old(folders)[g])
    {
      TrimEmptyIffBlank(newFolderName);
      if Trim(newFolderName) != "" {
        folders := folders[newFolderName := []];
        newFolderName := "";
      }
    }

    /**
     * `toggleFolderVisibility`: both branches of the copied map's update store
     * an empty list, and the method leaves the folders as `ToggledFolders` says.
     */
    method ToggleFolderVisibility(folderName: string)
      requires Valid()
      modifies this
      ensures Valid()
      ensures page == old(page) && newFolderName == old(newFolderName)
      ensures folders == ToggledFolders(old(folders), folderName)
    {
      var updatedFolders := folders;
      if folderName == PROTO_KEY && folderName !in updatedFolders {
        // the read finds the inherited prototype and the write replaces the
        // prototype, so no own entry appears
      } else if folderName in updatedFolders {
        // every array is truthy in JavaScript, an empty one included
        updatedFolders := updatedFolders[folderName := if |updatedFolders[folderName]| == 0 then [] else []];
      } else {
        updatedFolders := updatedFolders[folderName := []];
      }
      folders := updatedFolders;
    }

    /** `handleDrop`: only logs; it changes no state. */
    method HandleDrop(serverUuid: string, folderName: string) returns (message: string)
      ensures message == DropMessage(serverUuid, folderName)
    {
      message := DropMessage(serverUuid, folderName);
    }

    /** The reset effect, run when a fetch result arrives. */
    method OnServersLoaded(servers: Option<PaginatedResult>)
      modifies this
      requires Valid()
      ensures Valid()
      ensures page == ResetPage(old(page), servers)
      ensures folders == old(folders) && newFolderName == old(newFolderName)
    {
      if servers.Some? && servers.value.pagination.currentPage > 1 && |servers.value.items| == 0 {
        page := 1;
      }
    }
  }
}
