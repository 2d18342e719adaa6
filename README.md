# Documentation page script: chapter search and page chrome

This project models the logic of `script.js`, the front-end script of a
static documentation page. The script's core is the in-page chapter search
opened with Ctrl/Cmd+K. The query typed into the search field is lower-cased
and trimmed. A query shorter than two characters clears the result list.
Otherwise every `.chapter` whose lower-cased text contains the query is
listed, in document order. Each entry shows the chapter title and a snippet:
50 characters before the first match, 100 from it, then `...`. When nothing
matches, a single placeholder entry ("Nenhum resultado encontrado") is shown.

Around the search sit small pieces of page state, also modelled here:

- the highlighted navigation link (the last chapter whose activation window
  holds the scroll offset);
- the header's `scrolled` style and its hide-on-scroll-down rule;
- the scroll target used for in-page anchors and search results;
- the mobile menu's `active` flags;
- the dark/light theme toggle with its stored preference.

Layout:

- `page.dfy`: `Option` and the `Chapter` record `(id, title, text, offsetTop, height)`.
- `text.dfy`: `toLowerCase` on ASCII letters, `trim` with ECMAScript's white-space set, `indexOf`, `includes`.
- `search.dfy`: the pure search. It covers normalisation, `extractSnippet`, `searchContent` (a loop method proved against the function `SearchResults`), `displaySearchResults`, and the input handler's result list `PanelFor`.
- `search_surface.dfy`: class `Surface`. It holds the open flags, the input value and the result list. The class invariant is that the list shown is always what the current input value searches to, for pages whose chapters all have a title.
- `navigation.dfy`: `updateActiveNavLink` (loop over chapters, then loop over an array of links), `scrollToSection` and the anchor click handler.
- `header.dfy`, `menu.dfy`, `theme.dfy`: the header, mobile menu and theme toggle as classes with invariants.

Behaviours of the code that a reader might not expect, which the model follows:

- Opening the search surface does not clear the query or the results. Only closing does.
- Matching is against the chapter's whole `textContent`, not a separate title and body.
- The snippet is cut from the lower-cased text.

## Model

| member | source | states |
|---|---|---|
| Text.ToLower | script.js:644 | `toLowerCase` keeps the length and lower-cases each character on its own (`LowerChar`); the query and each chapter's text at script.js:660 go through it |
| Text.Trim | script.js:644 | the trimmed query is a slice of the input with only white space cut off either end, and it neither starts nor ends with white space |
| Text.TrimUnique | script.js:644 | any slice with blank surroundings and no white space at its ends equals `Trim`, so `Trim`'s contract determines it |
| Text.TrimBlank | script.js:644 | a value of white space only trims to the empty query |
| Text.IndexOf | script.js:676 | `indexOf` returns -1 exactly when the query occurs nowhere, and otherwise returns an occurrence with none before it; `includes` (`Contains`, script.js:662) is `indexOf` not returning -1 |
| Text.IndexOfIsFirst | script.js:676 | an occurrence with no occurrence before it is the one `indexOf` returns |
| Search.NormalizeQuery | script.js:644 | the normalised query is the lower-cased raw value with only white space cut from either end; so it has no upper-case letter, no white space at either end, and is no longer than the raw value |
| Search.SnippetBody | script.js:676-679 | for a text containing the query, the body is the text from `max(0, i-50)` to `min(len, i+100)`, where `i` is the first match; it keeps `min(i, 50)` characters before the match and `min(len-i, 100)` from it; it is never longer than 150 |
| Search.ExtractSnippet | script.js:675-680 | the snippet is the window body followed by `"..."`, at most 153 characters |
| Search.SnippetShowsQuery | script.js:676-679 | for a query of at most 100 characters, the snippet body contains the query, and its first match is the text's first match shifted by the window start |
| Search.MatchIndicesExact | script.js:658-662 | the positions listed are exactly those of the chapters whose lower-cased text includes the query, strictly increasing, so each chapter appears at most once |
| Search.SearchIsFilter | script.js:654-673 | the search `SearchResults` (a chapter is kept by `Matches` and turned into a result by `Hit`) returns one result per matching chapter, in document order, carrying that chapter's id, original-case title and snippet |
| Search.SearchContent | script.js:654-673 | the push loop over the chapters returns exactly `SearchResults(chapters, query)` |
| Search.Display | script.js:682-694 | no results render as the single placeholder entry (and only then); otherwise one entry per result, in order |
| Search.DisplayShowsResults | script.js:682-694 | the rendered list shows exactly the results, in order; the placeholder shows none |
| Search.PanelCases | script.js:643-652 | after an input event, the list `PanelFor` is as follows: a normalised query shorter than 2 leaves the list empty; a longer one with no match shows only the placeholder; otherwise one entry per matching chapter in document order |
| SearchSurface.Surface.constructor | script.js:479-488 | the surface starts closed with an empty input and an empty result list, and the invariant holds |
| SearchSurface.Surface.Open | script.js:629-633 | opening activates container and overlay and leaves query and results unchanged |
| SearchSurface.Surface.Close | script.js:635-640 | closing deactivates both and empties query and results, whatever the state before, so closing twice equals closing once |
| SearchSurface.Surface.OnKeyDown | script.js:617-625 | Ctrl/Cmd+K opens, Escape closes, any other key changes nothing |
| SearchSurface.Surface.OnInput | script.js:643-652 | the list becomes `PanelFor(value, chapters)`; the invariant (list == search of the input) is kept |
| SearchSurface.Surface.GoToResult | script.js:696-699 | the surface is closed and cleared, and the scroll target is `scrollToSection`'s for that id |
| Navigation.LastInWindow | script.js:28-34 | the index found is -1 or a chapter whose window `[top-100, top-100+height)` holds the offset, and no later chapter's window holds it |
| Navigation.CurrentSection | script.js:27-34 | the loop's `current` equals `ActiveId`, which is the id of the last chapter whose window holds the offset, or `''` |
| Navigation.UpdateActiveNavLink | script.js:26-42 | afterwards a link is active exactly when its href is `"#" + current`; hrefs are unchanged |
| Navigation.ScrollToSection | script.js:230-241 | there is a target exactly when the id exists, and it leaves the section 20 px plus the header height below the top |
| Navigation.AnchorTarget | script.js:212-226 | an anchor `#id` scrolls like `scrollToSection(id)`; a bare `#` scrolls nowhere |
| HeaderScroll.Header.constructor | script.js:244-246 | the remembered offset starts at 0, with the header neither scrolled nor hidden, and the invariant holds |
| HeaderScroll.Header.OnScroll | script.js:248-265 | `scrolled` is set exactly when the offset exceeds 100; the header hides exactly when the offset grew and exceeds 200; `lastScrollTop` becomes the offset; the invariant relating the look to the last offset is kept |
| MobileMenu.Menu.constructor | script.js:180-184 | the menu starts closed, with both `active` flags equal |
| MobileMenu.Menu.Toggle | script.js:185-188 | both `active` flags flip together and stay equal |
| MobileMenu.Menu.OnLinkClick | script.js:191-197 | a link click closes the menu |
| MobileMenu.Menu.OnDocumentClick | script.js:200-205 | a click outside both the toggle and the menu closes it; any other click leaves it as it was |
| ThemeToggle.Theme.constructor | script.js:459-465 | a stored `dark` turns the dark theme on with its icon and button style; anything else leaves it light |
| ThemeToggle.Theme.Toggle | script.js:467-475 | the theme flips and the stored value is `dark` exactly when dark is now on; icon and button style follow, so two toggles restore the theme |

## Left out

- Text.LowerChar: `toLowerCase` is modelled on the ASCII letters only. Full Unicode lower-casing, which can change a string's length, is not modelled.
- Strings are sequences of Unicode scalar values. JavaScript's UTF-16 code units, and the lengths and indices counted in them, are not modelled.
- The HTML of the result list and its styles are not modelled. That covers the `innerHTML` templates, the missing escaping of titles and snippets, and the injected `<style>` blocks. Entries are the `Entry` datatype.
- Keyboard focus of the search field (`searchInput.focus()`) is a browser effect and is not modelled.
- `window.scrollTo` is not modelled either; only the requested position is returned.
- Navigation.AnchorTarget: the CSS selector lookup `querySelector(href)` is modelled as a lookup of the id after `#`. Selector escaping and other invalid selectors are not modelled.
- Chapters are assumed to have a `.chapter-title` child. For a chapter without one, `querySelector('.chapter-title')` gives `null` and reading its `textContent` throws at script.js:659. That aborts `searchContent` and the input handler, so the result list keeps its previous entries. The surface's invariant (the list is what the input searches to) does not hold for such a page.
- Chapters are assumed to carry an `id` attribute. For a chapter without one, `getAttribute('id')` gives `null` and the link compared would be `#null`.
- Element offsets and heights are integers. Fractional scroll offsets are not modelled.
- Which nav links and chapters exist, and their layout, are inputs. The DOM queries that find them are not modelled.
- Toasts, tooltips, copy-button feedback and `debounce` are left out because they are driven by `setTimeout` timers.
- Scroll animations and lazy image loading are left out because they are driven by `IntersectionObserver`, and the animations use `Math.random`.
- Copy to clipboard is left out because it relies on `document.execCommand`.
- The reading-progress bar is left out because it works in floating point, and its percentage is undefined for a document no taller than the window.
- The Home/End key handlers are left out because they only call `window.scrollTo`.
- Reading and writing `localStorage` are modelled as the `stored` field and the constructor's argument.
