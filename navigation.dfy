/** The state of the `App` component (App.tsx:20-26) and how it moves: the links arrive
    once, the search box and the screen width change, and the Kembali / Lanjut buttons
    (App.tsx:145-163) step through the pages. The effect at App.tsx:86-88 sends the page
    back to 1 whenever the query or the screen width actually changes. */
module Navigation {
  import opened Wrappers
  import opened Links
  import opened Search
  import opened Pagination

  /** What the list section shows (App.tsx:134-142). */
  datatype Screen = LoadingMessage | Cards(shown: seq<Link>) | NoLinksMessage

  class LinkHub {
    var links: seq<Link>
    var isLoading: bool
    var searchQuery: string
    var isMobile: bool
    var currentPage: int

    /** `filteredLinks`. */
    function Filtered(): seq<Link>
      reads this
    {
      FilterLinks(links, searchQuery)
    }

    /** `totalPages`. */
    function PageCount(): nat
      reads this
    {
      TotalPages(|Filtered()|, isMobile)
    }

    /** `paginatedLinks`. */
    function Shown(): seq<Link>
      reads this
    {
      PageOf(Filtered(), currentPage, isMobile)
    }

    /** The pager is drawn only on a narrow screen with more than one page. */
    predicate PagerShown()
      reads this
    {
      isMobile && PageCount() > 1
    }

    /** Kembali is drawn and not disabled. */
    predicate CanGoBack()
      reads this
    {
      PagerShown() && currentPage != 1
    }

    /** Lanjut is drawn and not disabled. */
    predicate CanGoForward()
      reads this
    {
      PagerShown() && currentPage != PageCount()
    }

    /** The list section: the loading message, the cards of the current page, or the
        "no links found" message when that page is empty. */
    function View(): (screen: Screen)
      reads this
      ensures screen.Cards? ==> screen.shown == Shown() && screen.shown != []
      ensures screen == LoadingMessage <==> isLoading
      ensures screen == NoLinksMessage <==> !isLoading && Shown() == []
    {
      if isLoading then LoadingMessage
      else if |Shown()| > 0 then Cards(Shown())
      else NoLinksMessage
    }

    /** The page is always a real one: at least 1, and past 1 only while that many pages
        exist. Nothing is loaded while loading is under way. */
    ghost predicate Valid()
      reads this
    {
      && 1 <= currentPage
      && (currentPage == 1 || currentPage <= PageCount())
      && (isLoading ==> links == [])
    }

    /** The first render: no links, loading, an empty query, page 1; the width is the
        caller's `window.innerWidth < 640`. */
    constructor (narrow: bool)
      ensures Valid()
      ensures links == [] && isLoading && searchQuery == "" && currentPage == 1
      ensures isMobile == narrow
    {
      links := [];
      isLoading := true;
      searchQuery := "";
      isMobile := narrow;
      currentPage := 1;
    }

    /** The end of the loading effect: `setLinks` with the parsed links on success,
        nothing on failure (`None`), and `setIsLoading(false)` either way. */
    method FinishLoading(loaded: Option<seq<Link>>)
      requires Valid() && isLoading
      modifies this
      ensures Valid() && !isLoading
      ensures links == (if loaded.Some? then loaded.value else [])
      ensures searchQuery == old(searchQuery) && isMobile == old(isMobile)
      ensures currentPage == old(currentPage) == 1
    {
      if loaded.Some? {
        links := loaded.value;
      }
      isLoading := false;
    }

    /** Typing in the search box, followed by the reset effect: the page goes back to 1
        when the query differs from the previous one, and stays otherwise. */
    method SetSearchQuery(query: string)
      requires Valid()
      modifies this
      ensures Valid()
      ensures searchQuery == query
      ensures currentPage == if query != old(searchQuery) then 1 else old(currentPage)
      ensures links == old(links) && isLoading == old(isLoading) && isMobile == old(isMobile)
    {
      if query != searchQuery {
        searchQuery := query;
        currentPage := 1;
      }
    }

    /** A resize that changes `isMobile`, followed by the reset effect. */
    method SetIsMobile(narrow: bool)
      requires Valid()
      modifies this
      ensures Valid()
      ensures isMobile == narrow
      ensures currentPage == if narrow != old(isMobile) then 1 else old(currentPage)
      ensures links == old(links) && isLoading == old(isLoading) && searchQuery == old(searchQuery)
    {
      if narrow != isMobile {
        isMobile := narrow;
        currentPage := 1;
      }
    }

    /** Kembali: `p => p - 1`, only when the button is there and enabled. */
    method GoBack()
      requires Valid()
      modifies this
      ensures Valid()
      ensures currentPage == if old(CanGoBack()) then old(currentPage) - 1 else old(currentPage)
      ensures links == old(links) && isLoading == old(isLoading)
      ensures searchQuery == old(searchQuery) && isMobile == old(isMobile)
    {
      if CanGoBack() {
        currentPage := currentPage - 1;
      }
    }

    /** Lanjut: `p => p + 1`, only when the button is there and enabled. */
    method GoForward()
      requires Valid()
      modifies this
      ensures Valid()
      ensures currentPage == if old(CanGoForward()) then old(currentPage) + 1 else old(currentPage)
      ensures links == old(links) && isLoading == old(isLoading)
      ensures searchQuery == old(searchQuery) && isMobile == old(isMobile)
    {
      if CanGoForward() {
        currentPage := currentPage + 1;
      }
    }
  }

  /** Every method keeps `Valid`, so from the first render on, whatever the presses,
      queries and resizes, the page lies within `1..totalPages` whenever some link is
      shown, and Lanjut is disabled exactly on the last page. */
  lemma PageInRange(hub: LinkHub)
    requires hub.Valid() && hub.Filtered() != []
    ensures 1 <= hub.currentPage <= hub.PageCount()
    ensures hub.PagerShown() ==> (hub.CanGoForward() <==> hub.currentPage < hub.PageCount())
  {
  }

  /** With a valid page, the section shows cards exactly when some link matches: the
      "no links found" message never hides links that pass the search. */
  lemma CardsIffMatches(filtered: seq<Link>, currentPage: int, isMobile: bool)
    requires 1 <= currentPage
    requires currentPage == 1 || currentPage <= TotalPages(|filtered|, isMobile)
    ensures PageOf(filtered, currentPage, isMobile) != [] <==> filtered != []
  {
    if isMobile {
      PageSize(filtered, currentPage);
      if filtered == [] {
        assert PageOf(filtered, currentPage, isMobile) == [];
      }
    }
  }

  /** The same, for the object: after loading, the view is the card list exactly when the
      search keeps some link. */
  lemma ViewShowsMatches(hub: LinkHub)
    requires hub.Valid() && !hub.isLoading
    ensures hub.View().Cards? <==> hub.Filtered() != []
  {
    CardsIffMatches(hub.Filtered(), hub.currentPage, hub.isMobile);
  }

  /** Lanjut then Kembali brings the user back to the page they were on, and changes
      nothing else. */
  method ForwardThenBack(hub: LinkHub)
    requires hub.Valid() && hub.CanGoForward()
    modifies hub
    ensures hub.Valid()
    ensures hub.currentPage == old(hub.currentPage)
    ensures hub.links == old(hub.links) && hub.searchQuery == old(hub.searchQuery)
    ensures hub.isMobile == old(hub.isMobile) && hub.isLoading == old(hub.isLoading)
  {
    hub.GoForward();
    hub.GoBack();
  }
}
