/** Page transitions of animations.js (initPageTransitions): a click on a
    same-site link plays a transition overlay before navigating; in-page
    anchors and protocol-relative links navigate as usual. */
module PageTransition {

  /** The links that get a click listener: the selector
      `a[href^="/"], a[href^="#"]:not([href="#"])`. */
  predicate HasListener(href: string)
    ensures HasListener(href) <==> |href| >= 1 && (href[0] == '/' || (href[0] == '#' && |href| >= 2))
  {
    "/" <= href || ("#" <= href && href != "#")
  }

  /** The href starts with "/" but not with "//". */
  function StartsTransition(href: string): (r: bool)
    ensures r <==> |href| >= 1 && href[0] == '/' && (|href| == 1 || href[1] != '/')
  {
    "/" <= href && !("//" <= href)
  }

  /** Every link that starts a transition has a listener, and no in-page
      anchor starts one. */
  lemma TransitionsAreSiteLinks(href: string)
    ensures StartsTransition(href) ==> HasListener(href)
    ensures "#" <= href ==> !StartsTransition(href)
  {
  }
}
