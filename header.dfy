/** `setupHeaderScroll`: the header's `scrolled` class and its hide/show
    transform, driven by the closure variable `lastScrollTop`. */
module HeaderScroll {

  /** Beyond this offset the header takes the `scrolled` style. */
  const ScrolledThreshold := 100
  /** Beyond this offset scrolling down hides the header. */
  const HideThreshold := 200

  class Header {
    var lastScrollTop: int
    /** The header has the `scrolled` class. */
    var scrolled: bool
    /** The header is moved out of view (`translateY(-100%)`). */
    var hidden: bool

    /** The header's look always follows the last offset seen: `scrolled`
        exactly past 100, and hidden only past 200. */
    ghost predicate Valid()
      reads this
    {
      (scrolled <==> lastScrollTop > ScrolledThreshold) && (hidden ==> lastScrollTop > HideThreshold)
    }

    constructor ()
      ensures Valid()
      ensures lastScrollTop == 0 && !scrolled && !hidden
    {
      lastScrollTop := 0;
      scrolled := false;
      hidden := false;
    }

    /** The scroll listener. The offset is `pageYOffset`, or the document
        element's `scrollTop` when `pageYOffset` is 0. */
    method OnScroll(pageYOffset: int, documentScrollTop: int)
      requires Valid()
      modifies this
      ensures Valid()
      ensures var scrollTop := if pageYOffset != 0 then pageYOffset else documentScrollTop;
        && scrolled == (scrollTop > ScrolledThreshold)
        && hidden == (scrollTop > old(lastScrollTop) && scrollTop > HideThreshold)
        && lastScrollTop == scrollTop
    {
      var scrollTop := if pageYOffset != 0 then pageYOffset else documentScrollTop;
      if scrollTop > ScrolledThreshold {
        scrolled := true;
      } else {
        scrolled := false;
      }
      if scrollTop > lastScrollTop && scrollTop > HideThreshold {
        hidden := true;
      } else {
        hidden := false;
      }
      lastScrollTop := scrollTop;
    }
  }
}
