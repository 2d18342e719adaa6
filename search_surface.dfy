/** The search overlay of `setupSearchFunctionality`: the container and
    overlay `active` flags, the input field and the rendered result list. */
module SearchSurface {
  import opened Page
  import opened Search
  import Navigation

  class Surface {
    /** The page's `.chapter` elements, fixed for the page's lifetime. */
    const chapters: seq<Chapter>
    /** The search container has the `active` class. */
    var containerActive: bool
    /** The dark overlay has the `active` class. */
    var overlayActive: bool
    /** The search input's value. */
    var input: string
    /** The entries of `.search-results`. */
    var panel: seq<Entry>

    /** Container and overlay open and close together, and the list shown
        is always what the current input value searches to. */
    ghost predicate Valid()
      reads this
    {
      containerActive == overlayActive && panel == PanelFor(input, chapters)
    }

    constructor (chapters: seq<Chapter>)
      ensures Valid() && this.chapters == chapters
      ensures !containerActive && input == "" && panel == []
    {
      this.chapters := chapters;
      containerActive, overlayActive := false, false;
      input := "";
      panel := [];
    }

    /** `openSearch`: shows the surface; the query and results are kept. */
    method Open()
      requires Valid()
      modifies this
      ensures Valid() && containerActive
      ensures input == old(input) && panel == old(panel)
    {
      containerActive := true;
      overlayActive := true;
    }

    /** `closeSearch` (also the overlay's click handler): hides the surface
        and empties the query and the results. The new state does not
        depend on the old one, so closing twice is closing once. */
    method Close()
      requires Valid()
      modifies this
      ensures Valid() && !containerActive
      ensures input == "" && panel == []
    {
      containerActive := false;
      overlayActive := false;
      input := "";
      panel := [];
    }

    /** The document `keydown` listener: Ctrl+K or Cmd+K opens, Escape
        closes, any other key changes nothing. */
    method OnKeyDown(ctrlKey: bool, metaKey: bool, key: string)
      requires Valid()
      modifies this
      ensures Valid()
      ensures (ctrlKey || metaKey) && key == "k" ==>
        containerActive && input == old(input) && panel == old(panel)
      ensures key == "Escape" ==> !containerActive && input == "" && panel == []
      ensures !((ctrlKey || metaKey) && key == "k") && key != "Escape" ==>
        containerActive == old(containerActive) && input == old(input) && panel == old(panel)
    {
      if (ctrlKey || metaKey) && key == "k" {
        Open();
      }
      if key == "Escape" {
        Close();
      }
    }

    /** The input listener, after the field's value became `value`: a
        normalised query shorter than 2 clears the list, otherwise the list
        shows the search results. */
    method OnInput(value: string)
      requires Valid()
      modifies this
      ensures Valid()
      ensures input == value && containerActive == old(containerActive)
      ensures panel == PanelFor(value, chapters)
    {
      input := value;
      var query := NormalizeQuery(value);
      if |query| < MinQueryLength {
        panel := [];
        return;
      }
      var results := SearchContent(chapters, query);
      panel := Display(results);
    }

    /** `goToResult`: closes the surface, then scrolls to the chosen
        chapter; `target` is the scroll position requested, if any. */
    method GoToResult(id: string, offsets: map<string, int>, headerHeight: int) returns (target: Option<int>)
      requires Valid()
      modifies this
      ensures Valid() && !containerActive && input == "" && panel == []
      ensures target == Navigation.ScrollToSection(offsets, headerHeight, id)
    {
      Close();
      target := Navigation.ScrollToSection(offsets, headerHeight, id);
    }
  }
}
