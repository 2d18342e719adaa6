/** `setupNavigation` (active nav-link highlighting) and the scroll targets
    of `setupSmoothScrolling` and `scrollToSection`. */
module Navigation {
  import opened Page

  /** A chapter counts as current from this many pixels above its top. */
  const ActivationOffset := 100
  /** Gap left between the fixed header and a section scrolled to. */
  const HeaderMargin := 20

  /** Scroll offset `y` lies in the chapter's activation window
      `[offsetTop - 100, offsetTop - 100 + height)`. */
  predicate InWindow(c: Chapter, y: int) {
    c.offsetTop - ActivationOffset <= y < c.offsetTop - ActivationOffset + c.height
  }

  /** Index of the last chapter whose window holds `y`, or -1. */
  function LastInWindow(chapters: seq<Chapter>, y: int): (k: int)
    ensures -1 <= k < |chapters|
    ensures k >= 0 ==> InWindow(chapters[k], y)
    ensures forall j :: k < j < |chapters| ==> !InWindow(chapters[j], y)
  {
    if chapters == [] then -1
    else if InWindow(chapters[|chapters| - 1], y) then |chapters| - 1
    else LastInWindow(chapters[..|chapters| - 1], y)
  }

  /** The id `updateActiveNavLink` settles on: that of the last chapter
      whose window holds `y`, or the empty string. */
  function ActiveId(chapters: seq<Chapter>, y: int): string
  {
    var k := LastInWindow(chapters, y);
    if k < 0 then "" else chapters[k].id
  }

  /** The first loop of `updateActiveNavLink`, which reassigns `current`
      for every chapter whose window holds the scroll offset. */
  method CurrentSection(chapters: seq<Chapter>, y: int) returns (current: string)
    ensures current == ActiveId(chapters, y)
  {
    current := "";
    var k := 0;
    while k < |chapters|
      invariant 0 <= k <= |chapters|
      invariant current == ActiveId(chapters[..k], y)
    {
      var sectionTop := chapters[k].offsetTop - ActivationOffset;
      var sectionHeight := chapters[k].height;
      if y >= sectionTop && y < sectionTop + sectionHeight {
        current := chapters[k].id;
      }
      assert chapters[..k + 1][..k] == chapters[..k];
      k := k + 1;
    }
    assert chapters[..k] == chapters;
  }

  /** A `.nav-link`: its `href` and whether it has the `active` class. */
  datatype NavLink = NavLink(href: string, active: bool)

  /** `updateActiveNavLink`: afterwards exactly the links pointing at the
      current chapter are active; hrefs are untouched. */
  method UpdateActiveNavLink(chapters: seq<Chapter>, y: int, links: array<NavLink>)
    modifies links
    ensures forall i :: 0 <= i < links.Length ==>
      links[i].href == old(links[i].href)
      && (links[i].active <==> links[i].href == "#" + ActiveId(chapters, y))
  {
    var current := CurrentSection(chapters, y);
    var i := 0;
    while i < links.Length
      invariant 0 <= i <= links.Length
      invariant forall j :: 0 <= j < i ==>
        links[j].href == old(links[j].href) && (links[j].active <==> links[j].href == "#" + current)
      invariant forall j :: i <= j < links.Length ==> links[j] == old(links[j])
    {
      links[i] := links[i].(active := false);
      if links[i].href == "#" + current {
        links[i] := links[i].(active := true);
      }
      i := i + 1;
    }
  }

  /** `scrollToSection`: the scroll position for the element with id `id`
      (looked up in `offsets`, its `offsetTop`), leaving the section
      `HeaderMargin` pixels below the fixed header; no scroll when there is
      no such element. */
  function ScrollToSection(offsets: map<string, int>, headerHeight: int, id: string): (target: Option<int>)
    ensures target.Some? <==> id in offsets
    ensures target.Some? ==> offsets[id] - target.value == headerHeight + HeaderMargin
  {
    if id in offsets then Some(offsets[id] - headerHeight - HeaderMargin) else None
  }

  /** The click handler on in-page anchors (`a[href^="#"]`): `href` names
      the target by `#id`. A bare `#` is not a valid selector, so the
      lookup throws and nothing scrolls. */
  function AnchorTarget(offsets: map<string, int>, headerHeight: int, href: string): (target: Option<int>)
    requires |href| >= 1 && href[0] == '#'
    ensures href == "#" ==> target == None
    ensures href != "#" ==> target == ScrollToSection(offsets, headerHeight, href[1..])
  {
    if href == "#" then None else ScrollToSection(offsets, headerHeight, href[1..])
  }
}
