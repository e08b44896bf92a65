/**
 * Scroll-driven view state of the page: the navbar "scrolled" style, the
 * back-to-top button, and the nav-link highlight that follows the section
 * the reader has scrolled to. The two scroll listeners of the page run one
 * after the other on every scroll event, in registration order.
 */
module Scroll {

  datatype Option<T> = None | Some(value: T)

  /** Offset past which the navbar takes its "scrolled" style. */
  const NavbarThreshold: int := 50
  /** Offset past which the back-to-top button is shown. */
  const BackToTopThreshold: int := 500
  /** A section counts as reached this many pixels before its top. */
  const SectionLead: int := 200

  predicate NavbarScrolled(y: int) { y > NavbarThreshold }

  predicate BackToTopVisible(y: int) { y > BackToTopThreshold }

  /** The two thresholds are strict, and the back-to-top button never shows without the scrolled navbar. */
  lemma ThresholdsAreStrict(y: int)
    ensures !NavbarScrolled(NavbarThreshold) && NavbarScrolled(NavbarThreshold + 1)
    ensures !BackToTopVisible(BackToTopThreshold) && BackToTopVisible(BackToTopThreshold + 1)
    ensures BackToTopVisible(y) ==> NavbarScrolled(y)
  {
  }

  /** A `section[id]` element as the scan sees it: its id and its `offsetTop`. */
  datatype Section = Section(id: string, top: int)

  predicate Reached(s: Section, y: int) { y >= s.top - SectionLead }

  /**
   * Index of the last section, in document order, that the offset `y` has
   * reached; None when no section has been reached.
   */
  function LastReached(sections: seq<Section>, y: int): (r: Option<nat>)
    ensures r.None? <==> forall i :: 0 <= i < |sections| ==> !Reached(sections[i], y)
    ensures r.Some? ==> r.value < |sections| && Reached(sections[r.value], y)
    ensures r.Some? ==> forall j :: r.value < j < |sections| ==> !Reached(sections[j], y)
  {
    if |sections| == 0 then None
    else if Reached(sections[|sections| - 1], y) then Some(|sections| - 1)
    else LastReached(sections[..|sections| - 1], y)
  }

  /** The id the scan settles on: that of the last reached section, or "" when none is reached. */
  function CurrentId(sections: seq<Section>, y: int): string
  {
    match LastReached(sections, y)
    case None => ""
    case Some(k) => sections[k].id
  }

  /**
   * The scan over the sections: walks them in document order and keeps the
   * id of every section the offset has reached, so the last one wins.
   */
  method ScanCurrent(sections: seq<Section>, y: int) returns (current: string)
    ensures current == CurrentId(sections, y)
  {
    current := "";
    var i := 0;
    while i < |sections|
      invariant 0 <= i <= |sections|
      invariant current == CurrentId(sections[..i], y)
    {
      assert sections[..i + 1][..i] == sections[..i];
      if y >= sections[i].top - SectionLead {
        current := sections[i].id;
      }
      i := i + 1;
    }
    assert sections[..i] == sections;
  }

  /**
   * Scrolling further down never moves the highlight back up: every section
   * reached at `y1` is still reached at any `y2 >= y1`.
   */
  lemma {:induction false} LastReachedMonotone(sections: seq<Section>, y1: int, y2: int)
    requires y1 <= y2
    ensures LastReached(sections, y1).Some? ==> LastReached(sections, y2).Some?
    ensures LastReached(sections, y1).Some? ==>
              LastReached(sections, y1).value <= LastReached(sections, y2).value
  {
    if LastReached(sections, y1).Some? {
      var k := LastReached(sections, y1).value;
      assert Reached(sections[k], y2);
    }
  }

  /** Sections at tops 0, 800 and 1600 with the page scrolled to 850: the second one is current. */
  lemma ExampleSecondSectionCurrent()
    ensures CurrentId([Section("home", 0), Section("tours", 800), Section("contact", 1600)], 850) == "tours"
  {
  }

  /** The flags the highlight pass leaves on the links: a link is active iff its href is "#" + current. */
  function Highlighted(hrefs: seq<string>, current: string): (r: seq<bool>)
  {
    seq(|hrefs|, i requires 0 <= i < |hrefs| => hrefs[i] == "#" + current)
  }

  /** With distinct hrefs, the highlight pass leaves at most one link active. */
  lemma AtMostOneHighlighted(hrefs: seq<string>, current: string, i: nat, j: nat)
    requires forall a, b :: 0 <= a < b < |hrefs| ==> hrefs[a] != hrefs[b]
    requires i < |hrefs| && j < |hrefs|
    ensures Highlighted(hrefs, current)[i] && Highlighted(hrefs, current)[j] ==> i == j
  {
  }

  /** When no section is reached, a bare "#" link is the one that lights up. */
  lemma NoSectionHighlightsBareHash(sections: seq<Section>, y: int, hrefs: seq<string>, i: nat)
    requires forall k :: 0 <= k < |sections| ==> y < sections[k].top - SectionLead
    requires i < |hrefs|
    ensures Highlighted(hrefs, CurrentId(sections, y))[i] <==> hrefs[i] == "#"
  {
  }

  /** The page's scroll-dependent classes, and the "active" flags of the nav links. */
  class ScrollView {
    var navbarScrolled: bool
    var backToTopVisible: bool
    /**
     * `href` of each link inside the nav-links container, in document order;
     * a link without one is given as "", which no "#" + current can equal.
     */
    const hrefs: seq<string>
    /** The "active" class of each of those links. */
    const linkActive: array<bool>

    ghost predicate Valid()
      reads this
    {
      linkActive.Length == |hrefs|
    }

    constructor (hrefs: seq<string>)
      ensures Valid() && fresh(linkActive)
      ensures this.hrefs == hrefs && !navbarScrolled && !backToTopVisible
      ensures forall i :: 0 <= i < linkActive.Length ==> !linkActive[i]
    {
      this.hrefs := hrefs;
      navbarScrolled, backToTopVisible := false, false;
      linkActive := new bool[|hrefs|](_ => false);
    }

    /** The highlight pass: clears "active" on every link, then sets it on the links whose href matches. */
    method Highlight(current: string)
      requires Valid()
      modifies linkActive
      ensures linkActive[..] == Highlighted(hrefs, current)
    {
      var i := 0;
      while i < linkActive.Length
        invariant 0 <= i <= linkActive.Length
        invariant forall k :: 0 <= k < i ==> linkActive[k] == (hrefs[k] == "#" + current)
      {
        linkActive[i] := false;
        if hrefs[i] == "#" + current {
          linkActive[i] := true;
        }
        i := i + 1;
      }
    }

    /**
     * One scroll event at offset `y`, with the sections' current layout:
     * the threshold listener, then the section scan and highlight pass.
     */
    method OnScroll(y: int, sections: seq<Section>)
      requires Valid()
      modifies this, linkActive
      ensures Valid()
      ensures navbarScrolled == NavbarScrolled(y)
      ensures backToTopVisible == BackToTopVisible(y)
      ensures linkActive[..] == Highlighted(hrefs, CurrentId(sections, y))
    {
      navbarScrolled := y > NavbarThreshold;
      backToTopVisible := y > BackToTopThreshold;
      var current := ScanCurrent(sections, y);
      Highlight(current);
    }
  }
}
