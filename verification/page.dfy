/**
 The page-level interface state of the portfolio: which navigation entry is
 highlighted, whether the mobile menu and the resume viewer are open, and how
 far the page is scrolled.

 The highlighted entry starts as the plain name "about" and, after a jump to
 a section, holds the reference object of that section; a navigation entry is
 highlighted when it holds the same reference.  The component that draws
 that highlight, `NavLink`, is defined by the page but not rendered; the
 navigation bar uses plain anchor links.  A reference is modelled by the
 section it points at, and whether it is attached to a rendered element is a
 flag of it.
 */
module Page {

  import opened Common

  /** The sections the page can jump to. */
  datatype Section = About | Skills | Experience | Projects | Contact

  /** A section reference: which section, and whether it is attached to an element. */
  datatype SectionRef = SectionRef(section: Section, attached: bool)

  /** The highlighted entry: the initial name, or a section reference. */
  datatype Active = Named(name: string) | RefTo(section: Section)

  datatype PageUi = PageUi(active: Active, menuOpen: bool, showResume: bool, scrollPosition: int)

  const InitialPage: PageUi := PageUi(Named("about"), false, false, 0)

  /** Scroll offset past which the fixed navigation bar fades in. */
  const NavbarThreshold: int := 100

  /** `toggleResume`: open the resume viewer if closed, close it if open. */
  function ToggleResume(p: PageUi): (r: PageUi)
    ensures r.showResume != p.showResume
    ensures r.(showResume := p.showResume) == p
  {
    p.(showResume := !p.showResume)
  }

  /** The mobile menu button: open the menu if closed, close it if open. */
  function ToggleMenu(p: PageUi): (r: PageUi)
    ensures r.menuOpen != p.menuOpen
    ensures r.(menuOpen := p.menuOpen) == p
  {
    p.(menuOpen := !p.menuOpen)
  }

  /**
   `scrollToSection`: with a reference attached to an element the page jumps
   there and highlights that reference; with a missing or detached reference
   nothing is highlighted anew.  The mobile menu is closed either way.
   */
  function ScrollToSection(p: PageUi, target: Option<SectionRef>): (r: PageUi)
    ensures !r.menuOpen
    ensures target.Some? && target.value.attached ==> r.active == RefTo(target.value.section)
    ensures !(target.Some? && target.value.attached) ==> r.active == p.active
    ensures r.showResume == p.showResume && r.scrollPosition == p.scrollPosition
  {
    var active := if target.Some? && target.value.attached then RefTo(target.value.section) else p.active;
    p.(active := active, menuOpen := false)
  }

  /** `scrollToWorkExperience`: the hero button jumps to the experience timeline. */
  function ScrollToWorkExperience(p: PageUi, attached: bool): (r: PageUi)
    ensures !r.menuOpen
    ensures attached ==> r.active == RefTo(Experience)
    ensures !attached ==> r.active == p.active
  {
    ScrollToSection(p, Some(SectionRef(Experience, attached)))
  }

  /** The scroll listener: remember the page's vertical offset. */
  function OnScroll(p: PageUi, pageYOffset: int): (r: PageUi)
    ensures r.scrollPosition == pageYOffset
    ensures r.(scrollPosition := p.scrollPosition) == p
  {
    p.(scrollPosition := pageYOffset)
  }

  /** The navigation bar is shown once the page is scrolled past the threshold. */
  predicate NavbarVisible(p: PageUi)
  {
    p.scrollPosition > NavbarThreshold
  }

  /** A navigation entry for `section` is highlighted. */
  predicate NavLinkActive(p: PageUi, section: Section)
  {
    p.active == RefTo(section)
  }

  /** Two presses of the resume button give back the page as it was. */
  lemma ToggleResumeTwice(p: PageUi)
    ensures ToggleResume(ToggleResume(p)) == p
  {
  }

  /** Two presses of the menu button give back the page as it was. */
  lemma ToggleMenuTwice(p: PageUi)
    ensures ToggleMenu(ToggleMenu(p)) == p
  {
  }

  /**
   On first render no navigation entry is highlighted (the initial name is
   never a section reference) and the bar is hidden.
   */
  lemma InitialPageShape(section: Section)
    ensures !NavLinkActive(InitialPage, section)
    ensures !NavbarVisible(InitialPage)
    ensures !InitialPage.menuOpen && !InitialPage.showResume
  {
  }

  /**
   After a jump through an attached reference exactly that section's entry is
   highlighted; the bar's visibility is not affected.
   */
  lemma JumpHighlightsOne(p: PageUi, target: SectionRef, other: Section)
    requires target.attached
    ensures NavLinkActive(ScrollToSection(p, Some(target)), other) <==> other == target.section
    ensures NavbarVisible(ScrollToSection(p, Some(target))) == NavbarVisible(p)
  {
  }

  /** The bar is visible exactly when the last scroll event was past 100. */
  lemma NavbarFollowsScroll(p: PageUi, pageYOffset: int)
    ensures NavbarVisible(OnScroll(p, pageYOffset)) <==> pageYOffset > NavbarThreshold
  {
  }
}
