/**
 * The fixed page header (src/components/Header.tsx): a scrolled flag kept
 * by a window scroll listener, the mobile menu's open flag, and the nav
 * links, each an in-page anchor to one section of the page.
 */
module Header {
  import Hero
  import About
  import Experience
  import Certifications
  import Projects
  import Contact

  const NavItems: seq<string> := ["Home", "About", "Experience", "Certifications", "Projects", "Contact"]

  /** The ids the page's sections declare. */
  const SectionIds: seq<string> := [
    Hero.SectionId, About.SectionId, Experience.SectionId,
    Certifications.SectionId, Projects.SectionId, Contact.SectionId
  ]

  predicate IsAsciiUpper(c: char) {
    'A' <= c <= 'Z'
  }

  /** toLowerCase on ASCII text: upper-case letters become lower-case, everything else is kept. */
  function AsciiLower(s: string): (r: string)
    ensures |r| == |s|
    ensures forall i | 0 <= i < |s| :: !IsAsciiUpper(r[i])
    ensures forall i | 0 <= i < |s| :: !IsAsciiUpper(s[i]) ==> r[i] == s[i]
    ensures forall i | 0 <= i < |s| :: IsAsciiUpper(s[i]) ==> r[i] as int == s[i] as int + 32
  {
    seq(|s|, i requires 0 <= i < |s| =>
      if IsAsciiUpper(s[i]) then (s[i] as int + 32) as char else s[i])
  }

  /** The href of a nav link: "#" and the lower-cased item name. */
  function Href(item: string): (href: string)
    ensures |href| == |item| + 1 && href[0] == '#'
    ensures href[1..] == AsciiLower(item)
  {
    "#" + AsciiLower(item)
  }

  /** The i-th nav link targets the i-th section, so every target is an existing section id. */
  lemma NavTargetsSections()
    ensures |NavItems| == |SectionIds|
    ensures forall i | 0 <= i < |NavItems| :: Href(NavItems[i]) == "#" + SectionIds[i]
  {
    assert AsciiLower("Home") == "home";
    assert AsciiLower("About") == "about";
    assert AsciiLower("Experience") == "experience";
    assert AsciiLower("Certifications") == "certifications";
    assert AsciiLower("Projects") == "projects";
    assert AsciiLower("Contact") == "contact";
  }

  /** No two sections share an id, so each nav link reaches exactly one section. */
  lemma SectionIdsDistinct()
    ensures forall i, j | 0 <= i < j < |SectionIds| :: SectionIds[i] != SectionIds[j]
  {
    assert SectionIds[0][0] == 'h' && SectionIds[1][0] == 'a' && SectionIds[2][0] == 'e';
    assert SectionIds[3][0] == 'c' && SectionIds[4][0] == 'p' && SectionIds[5][0] == 'c';
    assert SectionIds[3][1] != SectionIds[5][1];
  }

  /** The hero's call-to-action targets the contact section. */
  lemma CtaTargetsContact()
    ensures Hero.CtaTarget == "#" + Contact.SectionId
    ensures Hero.CtaTarget == Href(NavItems[5])
  {
    NavTargetsSections();
  }

  /** The header is styled as scrolled exactly when the page is more than 10 pixels down. */
  predicate IsScrolled(scrollY: real) {
    scrollY > 10.0
  }

  class HeaderBar {
    var scrolled: bool
    var mobileMenuOpen: bool
    /** Whether handleScroll is registered as a window scroll listener. */
    var listening: bool

    constructor ()
      ensures !scrolled && !mobileMenuOpen && !listening
      ensures MobileLinks() == []
    {
      scrolled := false;
      mobileMenuOpen := false;
      listening := false;
    }

    /** The effect registers the scroll listener. */
    method Mount()
      modifies this
      ensures listening && scrolled == old(scrolled) && mobileMenuOpen == old(mobileMenuOpen)
    {
      listening := true;
    }

    /** A window scroll event, which reaches handleScroll only while it is registered. */
    method OnScroll(scrollY: real)
      modifies this
      ensures listening ==> (scrolled <==> IsScrolled(scrollY))
      ensures !listening ==> scrolled == old(scrolled)
      ensures listening == old(listening) && mobileMenuOpen == old(mobileMenuOpen)
    {
      if listening {
        scrolled := scrollY > 10.0;
      }
    }

    /** The menu button negates the open flag. */
    method ToggleMenu()
      modifies this
      ensures mobileMenuOpen == !old(mobileMenuOpen)
      ensures old(MobileLinks()) == [] <==> MobileLinks() != []
      ensures scrolled == old(scrolled) && listening == old(listening)
    {
      mobileMenuOpen := !mobileMenuOpen;
    }

    /** A click on a mobile nav link closes the menu. */
    method HandleNavClick()
      modifies this
      ensures !mobileMenuOpen && MobileLinks() == []
      ensures scrolled == old(scrolled) && listening == old(listening)
    {
      mobileMenuOpen := false;
    }

    /** The effect's cleanup removes the scroll listener. */
    method Unmount()
      modifies this
      ensures !listening && scrolled == old(scrolled) && mobileMenuOpen == old(mobileMenuOpen)
    {
      listening := false;
    }

    /**
     * The mobile nav links are rendered exactly while the menu is open, and
     * then the i-th link is the anchor of the i-th section of the page.
     */
    function MobileLinks(): (links: seq<string>)
      reads this
      ensures mobileMenuOpen ==> |links| == |SectionIds| && forall i | 0 <= i < |links| :: links[i] == "#" + SectionIds[i]
      ensures !mobileMenuOpen ==> links == []
    {
      NavTargetsSections();
      if mobileMenuOpen then seq(|NavItems|, i requires 0 <= i < |NavItems| => Href(NavItems[i])) else []
    }
  }

  /** Two presses of the menu button restore the menu's state. */
  method ToggleTwice(bar: HeaderBar)
    modifies bar
    ensures bar.mobileMenuOpen == old(bar.mobileMenuOpen)
    ensures bar.scrolled == old(bar.scrolled) && bar.listening == old(bar.listening)
  {
    bar.ToggleMenu();
    bar.ToggleMenu();
  }
}
