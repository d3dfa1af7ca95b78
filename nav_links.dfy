/** The active navigation link of main.js (updateActiveNavLink, run on every
    scroll): the current section is the last one, in document order, whose
    window reaches 100 pixels above it; then exactly the links pointing at
    "#" + its id are active. */
module NavLinks {
  import opened Options

  /** A `section[id]`: its id, `offsetTop` and `clientHeight`. */
  datatype Section = Section(id: string, offsetTop: int, clientHeight: int)

  /** A `.nav-link`: its `href` attribute and whether it has the `active`
      class. */
  datatype Link = Link(href: Option<string>, active: bool)

  const HeaderOffset := 100

  /** The scroll position lies in the section's window
      [offsetTop - 100, offsetTop - 100 + clientHeight). */
  predicate Covers(s: Section, scrollY: int) {
    var sectionTop := s.offsetTop - HeaderOffset;
    sectionTop <= scrollY < sectionTop + s.clientHeight
  }

  /** The index of the last section covering the scroll position, if any. */
  function LastCovering(sections: seq<Section>, scrollY: int): (r: Option<nat>)
    ensures r.Some? ==>
              && r.value < |sections| && Covers(sections[r.value], scrollY)
              && forall j :: r.value < j < |sections| ==> !Covers(sections[j], scrollY)
    ensures r.None? ==> forall j :: 0 <= j < |sections| ==> !Covers(sections[j], scrollY)
  {
    if sections == [] then None
    else if Covers(sections[|sections| - 1], scrollY) then Some(|sections| - 1)
    else LastCovering(sections[..|sections| - 1], scrollY)
  }

  /** The id the scan settles on: "" when no section covers the position. */
  function CurrentId(sections: seq<Section>, scrollY: int): string {
    match LastCovering(sections, scrollY)
    case None => ""
    case Some(i) => sections[i].id
  }

  /** The scan over the sections in document order. */
  method ScanSections(sections: seq<Section>, scrollY: int) returns (current: string)
    ensures current == CurrentId(sections, scrollY)
  {
    current := "";
    for i := 0 to |sections|
      invariant current == CurrentId(sections[..i], scrollY)
    {
      var sectionTop := sections[i].offsetTop - HeaderOffset;
      var sectionHeight := sections[i].clientHeight;
      assert sections[..i + 1][..i] == sections[..i];
      if scrollY >= sectionTop && scrollY < sectionTop + sectionHeight {
        current := sections[i].id;
      }
    }
    assert sections[..|sections|] == sections;
  }

  /** Whether a link is active for the current id. */
  predicate Targets(link: Link, current: string) {
    link.href == Some("#" + current)
  }

  /** The `.nav-link` elements of the page. */
  class NavMenu {
    var links: seq<Link>

    constructor (links: seq<Link>)
      ensures this.links == links
    {
      this.links := links;
    }

    method UpdateActiveNavLink(sections: seq<Section>, scrollY: int)
      modifies this
      ensures |links| == |old(links)|
      ensures forall i :: 0 <= i < |links| ==>
                links[i] == old(links[i]).(active := Targets(old(links[i]), CurrentId(sections, scrollY)))
      // covered: exactly the links to the last covering section
      ensures forall i :: 0 <= i < |links| ==>
                match LastCovering(sections, scrollY)
                case Some(j) => links[i].active <==> links[i].href == Some("#" + sections[j].id)
                case None => links[i].active <==> links[i].href == Some("#")
    {
      var current := ScanSections(sections, scrollY);
      var i := 0;
      while i < |links|
        invariant 0 <= i <= |links| && |links| == |old(links)|
        invariant forall k :: 0 <= k < i ==> links[k] == old(links[k]).(active := Targets(old(links[k]), current))
        invariant forall k :: i <= k < |links| ==> links[k] == old(links[k])
      {
        links := links[i := links[i].(active := false)];
        if links[i].href == Some("#" + current) {
          links := links[i := links[i].(active := true)];
        }
        i := i + 1;
      }
      assert "#" + "" == "#";
    }
  }
}
