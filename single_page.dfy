/** script.js: the single-page layout whose floating photo cycles through
    the sections on click. The page's mutable state is the section index, the
    photo's applied position, and the class lists of the photo, the nav
    links, the mobile-menu toggle and menu, the navbar and the sections. */
module SinglePageScript {
  import opened Js
  import opened Dom
  import opened SectionIndex

  /** The inline `top`, `left` and `transform` the photo takes in a section. */
  datatype Position = Position(top: string, left: string, transform: string)

  /** `photoPositions`: one entry per section id. */
  const PhotoPositions: map<string, Position> := map[
    "hero" := Position("50%", "75%", "translate(-50%, -50%)"),
    "about" := Position("35%", "15%", "translate(-50%, -50%)"),
    "skills" := Position("25%", "85%", "translate(-50%, -50%)"),
    "projects" := Position("20%", "10%", "translate(-50%, -50%)"),
    "contact" := Position("75%", "85%", "translate(-50%, -50%)")
  ]

  /** The navbar gets `scrolled` once the page is scrolled past this many pixels. */
  const ScrollThreshold: real := 50.0

  /** `photoPositions[section]`: a position exactly for the listed section
      ids; `null`, `undefined` (an index of -1) and unknown ids find none. */
  function PhotoPositionFor(section: JsValue): (p: Option<Position>)
    ensures p.Some? <==> section.Str? && section.s in SectionIds
    ensures p.Some? ==> p.value == PhotoPositions[section.s]
  {
    var key := ToKey(section);
    if key in PhotoPositions then Some(PhotoPositions[key]) else None
  }

  /** One entry handed to the intersection callback. */
  datatype IntersectionEntry = IntersectionEntry(target: Element, isIntersecting: bool)

  /** The id of the last intersecting entry: the one whose write to the
      index and to the nav links survives the callback. */
  function LastVisible(entries: seq<IntersectionEntry>): (r: Option<string>)
    ensures r.None? <==> forall k :: 0 <= k < |entries| ==> !entries[k].isIntersecting
    ensures r.Some? ==> exists k :: 0 <= k < |entries| && entries[k].isIntersecting && entries[k].target.id == r.value
                                 && forall j :: k < j < |entries| ==> !entries[j].isIntersecting
  {
    if entries == [] then None
    else
      var last := entries[|entries| - 1];
      if last.isIntersecting then Some(last.target.id)
      else
        var r := LastVisible(entries[..|entries| - 1]);
        assert forall k :: 0 <= k < |entries| - 1 ==> entries[..|entries| - 1][k] == entries[k];
        r
  }

  /** The sections the callback marks `visible`: the targets of the
      intersecting entries. */
  function Revealed(entries: seq<IntersectionEntry>): set<Element>
  {
    set k | 0 <= k < |entries| && entries[k].isIntersecting :: entries[k].target
  }

  /** The index after the callback: the last intersecting section's
      `indexOf`, or the old index when nothing intersects. */
  function IndexAfterVisible(i: int, entries: seq<IntersectionEntry>): int
  {
    match LastVisible(entries)
    case None => i
    case Some(id) => AfterSectionChange(Str(id))
  }

  /** A nav link's classes after the intersection callback: re-marked for
      the last intersecting section, untouched when nothing intersects. */
  function LinkClassesAfterVisible(classes: set<string>, section: JsValue, last: Option<string>): set<string>
  {
    match last
    case None => classes
    case Some(id) => SetFlag(classes, "active", section == Str(id))
  }

  /** One more entry: an intersecting one becomes the last visible section,
      any other leaves it as it was. */
  lemma LastVisibleStep(entries: seq<IntersectionEntry>, i: int)
    requires 0 <= i < |entries|
    ensures LastVisible(entries[..i + 1])
         == if entries[i].isIntersecting then Some(entries[i].target.id) else LastVisible(entries[..i])
  {
  }

  /** Re-marking a link for a newly visible section overrides whatever the
      earlier entries left on it. */
  lemma LinkStep(classes: set<string>, section: JsValue, was: Option<string>, id: string)
    ensures LinkClassesAfterVisible(classes, section, Some(id))
         == SetFlag(LinkClassesAfterVisible(classes, section, was), "active", section == Str(id))
  {
  }

  lemma RevealedStep(entries: seq<IntersectionEntry>, i: int)
    requires 0 <= i < |entries|
    ensures Revealed(entries[..i + 1])
         == Revealed(entries[..i]) + (if entries[i].isIntersecting then {entries[i].target} else {})
  {
  }

  /** How the page's elements sit: the nav links are distinct, and the
      toggle, the menu, the photo, the links and the sections are different
      elements. */
  ghost predicate WellLaidOut(photo: Element?, navToggle: Element, navMenu: Element,
                              links: seq<Element>, sections: seq<Element>)
  {
    && (forall i, j :: 0 <= i < j < |links| ==> links[i] != links[j])
    && navToggle != navMenu
    && navToggle !in links && navMenu !in links
    && navToggle !in sections && navMenu !in sections
    && (forall s :: s in sections ==> s !in links)
    && (photo != null ==> photo != navToggle && photo != navMenu && photo !in links && photo !in sections)
  }

  class Page {
    /** `currentSectionIndex`. */
    var index: int
    /** The position `movePhotoToSection` last applied to the photo. */
    var photoPosition: Option<Position>
    /** `#floatingPhoto`, which may be missing. */
    const photo: Element?
    const navbar: Element
    const navToggle: Element
    const navMenu: Element
    /** The `.nav-link` elements, in document order. */
    const links: seq<Element>
    /** The `.section` elements the intersection observer watches. */
    const sections: seq<Element>
    /** The ids `document.getElementById` can find; never the empty
        string, which it finds no element for. */
    const documentIds: set<string>

    ghost predicate Valid()
      reads this
    {
      && -1 <= index <= LastIndex
      && WellLaidOut(photo, navToggle, navMenu, links, sections)
      && "" !in documentIds
    }

    /** The page as the script's top level leaves it: index 0, nothing moved yet. */
    constructor (photo: Element?, navbar: Element, navToggle: Element, navMenu: Element,
                 links: seq<Element>, sections: seq<Element>, documentIds: set<string>)
      requires WellLaidOut(photo, navToggle, navMenu, links, sections)
      requires "" !in documentIds
      ensures Valid() && index == 0 && photoPosition == None
      ensures this.photo == photo && this.navbar == navbar && this.navToggle == navToggle
      ensures this.navMenu == navMenu && this.links == links && this.sections == sections
      ensures this.documentIds == documentIds
    {
      index := 0;
      photoPosition := None;
      this.photo := photo;
      this.navbar := navbar;
      this.navToggle := navToggle;
      this.navMenu := navMenu;
      this.links := links;
      this.sections := sections;
      this.documentIds := documentIds;
    }

    /** The position after `movePhotoToSection(section)`: the section's entry
        in `photoPositions` when it has one and the photo exists. */
    function PositionAfterMove(previous: Option<Position>, section: JsValue): Option<Position>
    {
      if PhotoPositionFor(section).Some? && photo != null then PhotoPositionFor(section) else previous
    }

    /** The photo's classes after `movePhotoToSection(section)`: `moving` is
        added only when the move happens. */
    static function ClassesAfterMove(classes: set<string>, section: JsValue): set<string>
    {
      if PhotoPositionFor(section).Some? then classes + {"moving"} else classes
    }

    /** The photo has been moved towards `section`, as `movePhotoToSection`
        does, and nothing else about it changed. */
    twostate predicate PhotoMoved(section: JsValue)
      reads this, photo
    {
      && photoPosition == PositionAfterMove(old(photoPosition), section)
      && (photo != null ==> photo.classes == ClassesAfterMove(old(photo.classes), section)
                            && photo.display == old(photo.display))
    }

    /** Every nav link has `active` exactly when its `data-section` is
        `section`, as `updateActiveNavLink` leaves them. */
    twostate predicate LinksMarked(section: JsValue)
      reads links
    {
      forall k :: 0 <= k < |links| ==>
        && links[k].classes == SetFlag(old(links[k].classes), "active", links[k].Attribute("section") == section)
        && links[k].display == old(links[k].display)
    }

    twostate predicate LinksUnchanged()
      reads links
    {
      forall k :: 0 <= k < |links| ==> links[k].classes == old(links[k].classes) && links[k].display == old(links[k].display)
    }

    /** `movePhotoToSection`: applies the section's position and adds
        `moving` (a timer removes it later); a section without an entry in
        `photoPositions`, or a missing photo, changes nothing. */
    method MovePhotoToSection(section: JsValue)
      modifies `photoPosition, photo
      ensures PhotoMoved(section)
    {
      var position := PhotoPositionFor(section);
      if position.Some? && photo != null {
        photoPosition := position;
        photo.classes := photo.classes + {"moving"};
      }
    }

    /** `updateActiveNavLink`: every link loses `active`, then the links whose
        `data-section` equals `section` get it back. */
    method UpdateActiveNavLink(section: JsValue)
      requires Valid()
      modifies links
      ensures LinksMarked(section)
    {
      var i := 0;
      while i < |links|
        invariant 0 <= i <= |links|
        invariant forall k :: 0 <= k < i ==>
          links[k].classes == SetFlag(old(links[k].classes), "active", links[k].Attribute("section") == section)
        invariant forall k :: i <= k < |links| ==> links[k].classes == old(links[k].classes)
        invariant forall k :: 0 <= k < |links| ==> links[k].display == old(links[k].display)
      {
        var link := links[i];
        link.classes := link.classes - {"active"};
        if link.Attribute("section") == section {
          link.classes := link.classes + {"active"};
        }
        i := i + 1;
      }
    }

    /** The pair every navigation runs: the photo moves to `section` and the
        links are marked for it. */
    method MoveAndMark(section: JsValue)
      requires Valid()
      modifies `photoPosition, photo, links
      ensures PhotoMoved(section) && LinksMarked(section)
    {
      assert photo != null ==> photo !in links;
      MovePhotoToSection(section);
      UpdateActiveNavLink(section);
    }

    /** `toggleMobileMenu`: flips `active` on the toggle and on the menu. */
    method ToggleMobileMenu()
      requires Valid()
      modifies navToggle, navMenu
      ensures navToggle.classes == Toggle(old(navToggle.classes), "active")
      ensures navMenu.classes == Toggle(old(navMenu.classes), "active")
      ensures navToggle.display == old(navToggle.display) && navMenu.display == old(navMenu.display)
    {
      navToggle.classes := Toggle(navToggle.classes, "active");
      navMenu.classes := Toggle(navMenu.classes, "active");
    }

    /** `closeMobileMenu`: clears `active` on the toggle and on the menu. */
    method CloseMobileMenu()
      requires Valid()
      modifies navToggle, navMenu
      ensures navToggle.classes == SetFlag(old(navToggle.classes), "active", false)
      ensures navMenu.classes == SetFlag(old(navMenu.classes), "active", false)
      ensures navToggle.display == old(navToggle.display) && navMenu.display == old(navMenu.display)
    {
      navToggle.classes := navToggle.classes - {"active"};
      navMenu.classes := navMenu.classes - {"active"};
    }

    /** `init`: the photo goes to the hero section and the hero link is
        marked active. */
    method Init()
      requires Valid()
      modifies `photoPosition, photo, links
      ensures Valid() && index == old(index)
      ensures PhotoMoved(Str("hero")) && LinksMarked(Str("hero"))
    {
      if photo != null {
        MovePhotoToSection(Str("hero"));
      }
      UpdateActiveNavLink(Str("hero"));
    }

    /** `handlePhotoClick` (installed only when the photo exists): marks the
        photo `clicked`, advances the index around the cycle, moves the photo
        there and marks that section's link. */
    method HandlePhotoClick()
      requires Valid() && photo != null
      modifies this, photo, links
      ensures Valid()
      ensures index == IndexAfter(old(index), PhotoClick, documentIds)
      ensures photoPosition == Some(PhotoPositions[SectionIds[index]])
      ensures photo.classes == old(photo.classes) + {"clicked", "moving"}
      ensures photo.display == old(photo.display)
      ensures LinksMarked(Str(SectionIds[index]))
    {
      photo.classes := photo.classes + {"clicked"};
      index := AfterPhotoClick(index);
      var target := ElementAt(SectionIds, index);
      MoveAndMark(target);
    }

    /** `handleNavLinkClick` on `link`: when the section the link names
        exists, the index becomes its `indexOf` (possibly -1), the photo moves
        there, the links are re-marked and the menu closes; when it does not
        exist, nothing changes at all. */
    method HandleNavLinkClick(link: Element)
      requires Valid() && link in links
      modifies `index, `photoPosition, photo, links, navToggle, navMenu
      ensures Valid()
      ensures var section := link.Attribute("section");
        if ToKey(section) in documentIds then
          && index == IndexAfter(old(index), NavLinkClick(section), documentIds)
          && PhotoMoved(section) && LinksMarked(section)
          && navToggle.classes == SetFlag(old(navToggle.classes), "active", false)
          && navMenu.classes == SetFlag(old(navMenu.classes), "active", false)
        else
          && index == old(index) && photoPosition == old(photoPosition)
          && (photo != null ==> photo.classes == old(photo.classes))
          && LinksUnchanged()
          && navToggle.classes == old(navToggle.classes) && navMenu.classes == old(navMenu.classes)
      ensures photo != null ==> photo.display == old(photo.display)
      ensures navToggle.display == old(navToggle.display) && navMenu.display == old(navMenu.display)
    {
      var section := link.Attribute("section");
      if ToKey(section) in documentIds {
        assert navToggle !in links && navMenu !in links && navToggle != navMenu;
        assert photo != null ==> photo !in links && photo != navToggle && photo != navMenu;
        index := IndexOf(SectionIds, section);
        MoveAndMark(section);
        CloseMobileMenu();
      }
    }

    /** `handleNavbarScroll`: the navbar has `scrolled` exactly when the page
        is scrolled past the threshold. */
    method HandleNavbarScroll(scrollY: real)
      modifies navbar
      ensures navbar.classes == SetFlag(old(navbar.classes), "scrolled", scrollY > ScrollThreshold)
      ensures "scrolled" in navbar.classes <==> scrollY > ScrollThreshold
      ensures navbar.display == old(navbar.display)
    {
      if scrollY > ScrollThreshold {
        navbar.classes := navbar.classes + {"scrolled"};
      } else {
        navbar.classes := navbar.classes - {"scrolled"};
      }
    }

    /** One entry of `handleIntersection`: an intersecting entry sets the
        index to its section's `indexOf`, re-marks the links for it and adds
        `visible` to the section; a non-intersecting entry changes nothing. */
    method VisitEntry(entry: IntersectionEntry)
      requires Valid() && entry.target in sections
      modifies `index, links, entry.target
      ensures Valid()
      ensures entry.isIntersecting ==>
        && index == AfterSectionChange(Str(entry.target.id))
        && LinksMarked(Str(entry.target.id))
        && entry.target.classes == old(entry.target.classes) + {"visible"}
      ensures !entry.isIntersecting ==>
        index == old(index) && LinksUnchanged() && entry.target.classes == old(entry.target.classes)
      ensures entry.target.display == old(entry.target.display)
    {
      if entry.isIntersecting {
        var id := entry.target.id;
        index := IndexOf(SectionIds, Str(id));
        UpdateActiveNavLink(Str(id));
        entry.target.classes := entry.target.classes + {"visible"};
      }
    }

    /** `handleIntersection`: visits the entries in order. The last
        intersecting entry decides the index and the active link; every
        intersecting section gets `visible`. */
    method HandleIntersection(entries: seq<IntersectionEntry>)
      requires Valid()
      requires forall k :: 0 <= k < |entries| ==> entries[k].target in sections
      modifies `index, links, sections
      ensures Valid()
      ensures index == IndexAfterVisible(old(index), entries)
      ensures forall k :: 0 <= k < |links| ==>
        && links[k].classes == LinkClassesAfterVisible(old(links[k].classes), links[k].Attribute("section"), LastVisible(entries))
        && links[k].display == old(links[k].display)
      ensures forall s :: s in sections ==>
        && s.classes == (if s in Revealed(entries) then old(s.classes) + {"visible"} else old(s.classes))
        && s.display == old(s.display)
    {
      var i := 0;
      while i < |entries|
        invariant 0 <= i <= |entries|
        invariant Valid()
        invariant index == IndexAfterVisible(old(index), entries[..i])
        invariant forall k :: 0 <= k < |links| ==>
          && links[k].classes == LinkClassesAfterVisible(old(links[k].classes), links[k].Attribute("section"), LastVisible(entries[..i]))
          && links[k].display == old(links[k].display)
        invariant forall s :: s in sections ==>
          && s.classes == (if s in Revealed(entries[..i]) then old(s.classes) + {"visible"} else old(s.classes))
          && s.display == old(s.display)
      {
        var entry := entries[i];
        ghost var was := LastVisible(entries[..i]);
        VisitEntry(entry);
        RevealedStep(entries, i);
        LastVisibleStep(entries, i);
        if entry.isIntersecting {
          forall k | 0 <= k < |links|
            ensures links[k].classes == LinkClassesAfterVisible(old(links[k].classes), links[k].Attribute("section"), Some(entry.target.id))
          {
            LinkStep(old(links[k].classes), links[k].Attribute("section"), was, entry.target.id);
          }
        }
        i := i + 1;
      }
      assert entries[..|entries|] == entries;
    }

    /** `navigateToCurrentSection`: when the current index names a section
        present in the document, the photo moves there and its link is
        marked; otherwise nothing changes. */
    method NavigateToCurrentSection()
      requires Valid()
      modifies `photoPosition, photo, links
      ensures Valid() && index == old(index)
      ensures var target := ElementAt(SectionIds, index);
        if ToKey(target) in documentIds then PhotoMoved(target) && LinksMarked(target)
        else photoPosition == old(photoPosition) && (photo != null ==> photo.classes == old(photo.classes)) && LinksUnchanged()
      ensures photo != null ==> photo.display == old(photo.display)
    {
      var target := ElementAt(SectionIds, index);
      if ToKey(target) in documentIds {
        MoveAndMark(target);
      }
    }

    /** `handleKeyboardNav`: the six handled keys move the index and then
        navigate to it; any other key changes nothing. */
    method HandleKeyboardNav(name: string)
      requires Valid()
      modifies this, photo, links
      ensures Valid()
      ensures index == IndexAfter(old(index), KeyDown(name), documentIds)
      ensures var target := ElementAt(SectionIds, index);
        if KeyFromName(name).Handled() && ToKey(target) in documentIds then
          PhotoMoved(target) && LinksMarked(target)
        else
          photoPosition == old(photoPosition) && (photo != null ==> photo.classes == old(photo.classes)) && LinksUnchanged()
      ensures KeyFromName(name).Handled() ==> 0 <= index <= LastIndex
      ensures photo != null ==> photo.display == old(photo.display)
    {
      var key := KeyFromName(name);
      if key.Handled() {
        index := AfterKey(index, key);
        NavigateToCurrentSection();
      }
    }

    /** The body of the debounced resize handler: re-applies the current
        section's position. At index -1 `sectionIds[-1]` is `undefined`,
        which has no position, so nothing happens. */
    method HandleResize()
      requires Valid()
      modifies `photoPosition, photo
      ensures PhotoMoved(ElementAt(SectionIds, index))
      ensures index == -1 ==> photoPosition == old(photoPosition) && (photo != null ==> photo.classes == old(photo.classes))
      ensures 0 <= index && photo != null ==>
        photoPosition == Some(PhotoPositions[SectionIds[index]]) && photo.classes == old(photo.classes) + {"moving"}
      ensures photo != null ==> photo.display == old(photo.display)
    {
      MovePhotoToSection(ElementAt(SectionIds, index));
    }
  }

  /** Toggling the mobile menu twice leaves both class lists as they were. */
  method ToggleTwiceRestores(page: Page)
    requires page.Valid()
    modifies page.navToggle, page.navMenu
    ensures page.navToggle.classes == old(page.navToggle.classes)
    ensures page.navMenu.classes == old(page.navMenu.classes)
  {
    page.ToggleMobileMenu();
    page.ToggleMobileMenu();
    ToggleTwice(old(page.navToggle.classes), "active");
    ToggleTwice(old(page.navMenu.classes), "active");
  }

  /** Closing the mobile menu a second time changes nothing. */
  method CloseIsIdempotent(page: Page)
    requires page.Valid()
    modifies page.navToggle, page.navMenu
    ensures "active" !in page.navToggle.classes && "active" !in page.navMenu.classes
    ensures page.navToggle.classes == SetFlag(old(page.navToggle.classes), "active", false)
    ensures page.navMenu.classes == SetFlag(old(page.navMenu.classes), "active", false)
  {
    page.CloseMobileMenu();
    page.CloseMobileMenu();
    SetFlagLastWins(old(page.navToggle.classes), "active", false, false);
    SetFlagLastWins(old(page.navMenu.classes), "active", false, false);
  }
}
