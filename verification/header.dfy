/** The fixed site header and its mobile menu (src/components/Header.tsx).

    Two flags drive the header: `isScrolled`, recomputed on every scroll change from
    the latest vertical scroll offset, and `isMenuOpen`, toggled by the menu button and
    cleared by a click on any mobile link. The desktop navigation shows the link list
    split into a left and a right group. */
module Header {
  import opened Common

  /** Scroll offset, in pixels, past which the header switches to its solid style. */
  const ScrollThreshold: real := 50.0

  datatype Nav = Nav(isScrolled: bool, isMenuOpen: bool)

  const Initial: Nav := Nav(false, false)

  datatype Link = Link(name: string, href: string)

  const NavLinks: seq<Link> := [
    Link("Philosophy", "#philosophy"),
    Link("The Craft", "#craft"),
    Link("Collections", "#collections"),
    Link("Boutiques", "#contact")
  ]

  /** `Array.prototype.slice(start, end)` for non-negative bounds: both are clamped to the
      length and an empty list results when they cross. */
  function Slice<T>(s: seq<T>, start: nat, end: nat): (r: seq<T>)
    ensures start <= end <= |s| ==> r == s[start..end]
    ensures |r| == (if start >= |s| || end <= start then 0 else (if end <= |s| then end else |s|) - start)
    ensures forall k :: 0 <= k < |r| ==> start + k < |s| && r[k] == s[start + k]
  {
    var a := if start <= |s| then start else |s|;
    var b := if end <= |s| then end else |s|;
    if b <= a then [] else s[a..b]
  }

  /** Slicing at any cut point and rejoining the halves gives back the list. */
  lemma SliceSplit<T>(s: seq<T>, cut: nat, end: nat)
    requires cut <= |s| <= end
    ensures Slice(s, 0, cut) + Slice(s, cut, end) == s
  {
    assert s[0..cut] + s[cut..|s|] == s;
  }

  /** The two desktop groups, `slice(0, 2)` and `slice(2, 4)`. */
  function LeftLinks(): seq<Link> {
    Slice(NavLinks, 0, 2)
  }

  function RightLinks(): seq<Link> {
    Slice(NavLinks, 2, 4)
  }

  /** The desktop groups hold two links each and together are the full list, in order. */
  lemma DesktopGroupsPartitionLinks()
    ensures |LeftLinks()| == 2 && |RightLinks()| == 2
    ensures LeftLinks() + RightLinks() == NavLinks
  {
    SliceSplit(NavLinks, 2, 4);
  }

  /** A scroll change with the latest offset. */
  function OnScroll(s: Nav, latest: real): (r: Nav)
    ensures r.isScrolled <==> latest > ScrollThreshold
    ensures r.isMenuOpen == s.isMenuOpen
  {
    s.(isScrolled := latest > ScrollThreshold)
  }

  /** The menu button. */
  function ToggleMenu(s: Nav): (r: Nav)
    ensures r.isMenuOpen != s.isMenuOpen
    ensures r.isScrolled == s.isScrolled
  {
    s.(isMenuOpen := !s.isMenuOpen)
  }

  /** A click on a link in the mobile menu. */
  function MobileLinkClick(s: Nav): (r: Nav)
    ensures !r.isMenuOpen
    ensures r.isScrolled == s.isScrolled
  {
    s.(isMenuOpen := false)
  }

  /** The header uses its solid (light, blurred) style when scrolled or with the menu open. */
  function Solid(s: Nav): (b: bool)
    ensures s.isMenuOpen ==> b
    ensures !s.isMenuOpen ==> (b <==> s.isScrolled)
  {
    s.isScrolled || s.isMenuOpen
  }

  /** The mobile overlay takes pointer events only while the menu is open. */
  function OverlayInteractive(s: Nav): (b: bool)
    ensures b ==> Solid(s)
    ensures b <==> s.isMenuOpen
  {
    s.isMenuOpen
  }

  /** Opening the menu makes the header solid whatever the scroll position; pressing the
      button twice restores the state; after a mobile link the style follows the scroll flag. */
  lemma MenuDrivesHeaderStyle(s: Nav)
    ensures !s.isMenuOpen ==> Solid(ToggleMenu(s))
    ensures ToggleMenu(ToggleMenu(s)) == s
    ensures Solid(MobileLinkClick(s)) == s.isScrolled
  {
  }

  /** The overlay's pointer-event state flips with every press of the menu button, and a
      click on any mobile link leaves it inert. */
  lemma OverlayFollowsMenu(s: Nav)
    ensures OverlayInteractive(ToggleMenu(s)) != OverlayInteractive(s)
    ensures !OverlayInteractive(MobileLinkClick(s))
  {
  }

  /** The header mounts transparent, with the mobile overlay inert. */
  lemma InitialIsTransparent()
    ensures !Solid(Initial) && !OverlayInteractive(Initial)
    ensures Solid(ToggleMenu(Initial)) && !Solid(MobileLinkClick(ToggleMenu(Initial)))
  {
  }

  datatype Event = Scrolled(latest: real) | MenuButton | MobileLink

  function Step(s: Nav, e: Event): Nav {
    match e
    case Scrolled(y) => OnScroll(s, y)
    case MenuButton => ToggleMenu(s)
    case MobileLink => MobileLinkClick(s)
  }

  function Run(s: Nav, es: seq<Event>): Nav
    decreases |es|
  {
    if |es| == 0 then s else Run(Step(s, es[0]), es[1..])
  }

  /** The offset carried by the last scroll event of a sequence, if any. */
  function LastScroll(es: seq<Event>): Option<real>
    decreases |es|
  {
    if |es| == 0 then None
    else if es[|es| - 1].Scrolled? then Some(es[|es| - 1].latest)
    else LastScroll(es[..|es| - 1])
  }

  lemma {:induction false} RunSnoc(s: Nav, es: seq<Event>, e: Event)
    ensures Run(s, es + [e]) == Step(Run(s, es), e)
    decreases |es|
  {
    if |es| > 0 {
      assert (es + [e])[1..] == es[1..] + [e];
      RunSnoc(Step(s, es[0]), es[1..], e);
    }
  }

  /** Whether a mobile link was clicked in `es`, and how many menu presses came after the
      last such click (or since the start when there was none). */
  function LinkSeen(es: seq<Event>): bool
    decreases |es|
  {
    if |es| == 0 then false
    else es[|es| - 1].MobileLink? || LinkSeen(es[..|es| - 1])
  }

  function PressesSinceLink(es: seq<Event>): nat
    decreases |es|
  {
    if |es| == 0 || es[|es| - 1].MobileLink? then 0
    else (if es[|es| - 1].MenuButton? then 1 else 0) + PressesSinceLink(es[..|es| - 1])
  }

  /** After any sequence of events the menu is open exactly when an odd number of presses
      followed the last mobile-link click, counting from the initial flag when no link was
      clicked; scroll events never touch it. */
  lemma {:induction false} MenuFollowsPresses(s: Nav, es: seq<Event>)
    ensures Run(s, es).isMenuOpen ==
              ((if LinkSeen(es) then false else s.isMenuOpen) != (PressesSinceLink(es) % 2 == 1))
    decreases |es|
  {
    if |es| > 0 {
      var init := es[..|es| - 1];
      var e := es[|es| - 1];
      assert es == init + [e];
      RunSnoc(s, init, e);
      MenuFollowsPresses(s, init);
    }
  }

  /** After any sequence of events, the header counts as scrolled exactly when the most
      recent scroll offset exceeds the threshold; menu events never touch the flag. */
  lemma {:induction false} ScrolledFollowsLatestOffset(s: Nav, es: seq<Event>)
    ensures Run(s, es).isScrolled ==
              match LastScroll(es)
              case None => s.isScrolled
              case Some(y) => y > ScrollThreshold
    decreases |es|
  {
    if |es| > 0 {
      var init := es[..|es| - 1];
      var e := es[|es| - 1];
      assert es == init + [e];
      RunSnoc(s, init, e);
      ScrolledFollowsLatestOffset(s, init);
    }
  }
}
