/** The scroll handlers of scripts/main.js: the navbar's "scrolled" class
    (`handleNavbarScroll`) and the highlighting of the navigation link of the
    section being read (`updateActiveNavLink`).

    The DOM is replaced by values: the navbar by its set of classes (`None`
    when there is no element with id `navbar`), each section by its id and
    `offsetTop`, each navigation link by its `href` attribute and its set of
    classes.  `window.scrollY` is a parameter. */
module Navigation {
  import opened Options

  const ScrolledThreshold: int := 50
  const SectionLookahead: int := 200
  const ScrolledClass: string := "scrolled"
  const ActiveClass: string := "active"

  /** `handleNavbarScroll`: the navbar's classes after a scroll to `scrollY`. */
  function NavbarClasses(navbar: Option<set<string>>, scrollY: int): (r: Option<set<string>>)
    ensures r.Some? <==> navbar.Some?
    ensures r.Some? ==> (ScrolledClass in r.value <==> scrollY > ScrolledThreshold)
    ensures r.Some? ==> r.value - {ScrolledClass} == navbar.value - {ScrolledClass}
  {
    match navbar
    case None => None
    case Some(classes) =>
      if scrollY > ScrolledThreshold then Some(classes + {ScrolledClass})
      else Some(classes - {ScrolledClass})
  }

  /** Only the latest scroll position matters: the handler forgets what any
      earlier call did. */
  lemma NavbarLatestWins(navbar: Option<set<string>>, y1: int, y2: int)
    ensures NavbarClasses(NavbarClasses(navbar, y1), y2) == NavbarClasses(navbar, y2)
  {
    match navbar
    case None =>
    case Some(classes) =>
      var a := NavbarClasses(navbar, y1).value;
      assert a - {ScrolledClass} == classes - {ScrolledClass};
      assert a + {ScrolledClass} == classes + {ScrolledClass} by {
        assert a + {ScrolledClass} == (a - {ScrolledClass}) + {ScrolledClass};
        assert classes + {ScrolledClass} == (classes - {ScrolledClass}) + {ScrolledClass};
      }
  }

  datatype Section = Section(id: string, offsetTop: int)

  /** A section counts as reached once the page has scrolled to within
      200 pixels above its top. */
  predicate Passed(scrollY: int, s: Section) {
    scrollY >= s.offsetTop - SectionLookahead
  }

  /** The `forEach` over the sections: each reached section overwrites
      `current`, in document order. */
  function Scan(scrollY: int, sections: seq<Section>, current: string): string
    decreases |sections|
  {
    if sections == [] then current
    else Scan(scrollY, sections[1..], if Passed(scrollY, sections[0]) then sections[0].id else current)
  }

  /** Section `i` is the last reached section in document order. */
  ghost predicate IsLastPassed(scrollY: int, sections: seq<Section>, i: int) {
    && 0 <= i < |sections|
    && Passed(scrollY, sections[i])
    && forall j :: i < j < |sections| ==> !Passed(scrollY, sections[j])
  }

  /** The scan ends on the id of the last reached section, or keeps its
      starting value when no section is reached. */
  lemma {:induction false} ScanFindsLastPassed(scrollY: int, sections: seq<Section>, current: string)
    ensures (forall i :: 0 <= i < |sections| ==> !Passed(scrollY, sections[i])) ==>
              Scan(scrollY, sections, current) == current
    ensures forall i :: IsLastPassed(scrollY, sections, i) ==> Scan(scrollY, sections, current) == sections[i].id
    decreases |sections|
  {
    if sections != [] {
      var rest := sections[1..];
      var c' := if Passed(scrollY, sections[0]) then sections[0].id else current;
      ScanFindsLastPassed(scrollY, rest, c');
      forall i | IsLastPassed(scrollY, sections, i)
        ensures Scan(scrollY, sections, current) == sections[i].id
      {
        if i > 0 {
          assert IsLastPassed(scrollY, rest, i - 1);
        } else {
          assert forall j :: 0 <= j < |rest| ==> !Passed(scrollY, rest[j]) by {
            forall j | 0 <= j < |rest| ensures !Passed(scrollY, rest[j]) {
              assert rest[j] == sections[j + 1];
            }
          }
        }
      }
      if forall i :: 0 <= i < |sections| ==> !Passed(scrollY, sections[i]) {
        assert !Passed(scrollY, sections[0]);
        assert forall j :: 0 <= j < |rest| ==> !Passed(scrollY, rest[j]) by {
          forall j | 0 <= j < |rest| ensures !Passed(scrollY, rest[j]) {
            assert rest[j] == sections[j + 1];
          }
        }
      }
    }
  }

  /** The `current` of `updateActiveNavLink`: the id of the last section, in
      document order, that the page has scrolled to, or "" when there is none. */
  function CurrentSection(scrollY: int, sections: seq<Section>): (r: string)
    ensures (forall i :: 0 <= i < |sections| ==> !Passed(scrollY, sections[i])) ==> r == ""
    ensures forall i :: IsLastPassed(scrollY, sections, i) ==> r == sections[i].id
  {
    ScanFindsLastPassed(scrollY, sections, "");
    Scan(scrollY, sections, "")
  }

  datatype NavLink = NavLink(href: Option<string>, classes: set<string>)

  /** The `href` a link must carry to be marked active, exactly as the source
      builds it: with a trailing space. */
  function ActiveHref(current: string): string {
    "#" + current + " "
  }

  /** The link loop of `updateActiveNavLink`, for a given target `href`:
      every link loses `active`, and exactly those whose `href` equals the
      target get it back.  A missing `href` (`null`) never equals a string. */
  function MarkLinks(links: seq<NavLink>, target: string): (r: seq<NavLink>)
    ensures |r| == |links|
    ensures forall i :: 0 <= i < |links| ==> r[i].href == links[i].href
    ensures forall i :: 0 <= i < |links| ==> (ActiveClass in r[i].classes <==> links[i].href == Some(target))
    ensures forall i :: 0 <= i < |links| ==> r[i].classes - {ActiveClass} == links[i].classes - {ActiveClass}
    decreases |links|
  {
    if links == [] then []
    else
      var link := links[0];
      var cleared := link.classes - {ActiveClass};
      var marked := if link.href == Some(target) then cleared + {ActiveClass} else cleared;
      [link.(classes := marked)] + MarkLinks(links[1..], target)
  }

  /** `updateActiveNavLink` as written: a link is active exactly when its
      `href` is `'#' + current + ' '`. */
  function UpdateActiveNavLink(scrollY: int, sections: seq<Section>, links: seq<NavLink>): (r: seq<NavLink>)
    ensures |r| == |links|
    ensures forall i :: 0 <= i < |links| ==> r[i].href == links[i].href
    ensures forall i :: 0 <= i < |links| ==>
              (ActiveClass in r[i].classes <==> links[i].href == Some(ActiveHref(CurrentSection(scrollY, sections))))
    ensures forall i :: 0 <= i < |links| ==> r[i].classes - {ActiveClass} == links[i].classes - {ActiveClass}
  {
    MarkLinks(links, ActiveHref(CurrentSection(scrollY, sections)))
  }

  /** Because the target always ends in a space, a link whose `href` does not
      end in a space is never marked active, whatever the scroll position. */
  lemma PlainHrefNeverActive(scrollY: int, sections: seq<Section>, links: seq<NavLink>, i: int)
    requires 0 <= i < |links|
    requires links[i].href.Some? && (links[i].href.value == [] || links[i].href.value[|links[i].href.value| - 1] != ' ')
    ensures ActiveClass !in UpdateActiveNavLink(scrollY, sections, links)[i].classes
  {
    var target := ActiveHref(CurrentSection(scrollY, sections));
    assert target[|target| - 1] == ' ';
  }

  /** A concrete page: one section "about" at the top, one link to it written
      `#about`.  The section is current, yet the link is not marked active. */
  lemma AboutLinkStaysInactive()
    ensures CurrentSection(0, [Section("about", 0)]) == "about"
    ensures ActiveClass !in UpdateActiveNavLink(0, [Section("about", 0)], [NavLink(Some("#about"), {})])[0].classes
  {
    var sections := [Section("about", 0)];
    assert IsLastPassed(0, sections, 0);
    PlainHrefNeverActive(0, sections, [NavLink(Some("#about"), {})], 0);
  }

  /** The `href` of a link to section `current`: `'#' + current`. */
  function SectionHref(current: string): string {
    "#" + current
  }

  /** `updateActiveNavLink` as evidently intended: a link is active exactly
      when it points at the current section. */
  function UpdateActiveNavLinkIntended(scrollY: int, sections: seq<Section>, links: seq<NavLink>): (r: seq<NavLink>)
    ensures |r| == |links|
    ensures forall i :: 0 <= i < |links| ==> r[i].href == links[i].href
    ensures forall i :: 0 <= i < |links| ==> r[i].classes - {ActiveClass} == links[i].classes - {ActiveClass}
    ensures forall i :: 0 <= i < |links| ==>
              (ActiveClass in r[i].classes <==> links[i].href == Some(SectionHref(CurrentSection(scrollY, sections))))
    // a link to the last reached section is active, and every link to any other section is not
    ensures forall i, k :: 0 <= i < |links| && IsLastPassed(scrollY, sections, k) ==>
              (ActiveClass in r[i].classes <==> links[i].href == Some(SectionHref(sections[k].id)))
  {
    MarkLinks(links, SectionHref(CurrentSection(scrollY, sections)))
  }

  /** On the same concrete page, the intended version marks the link. */
  lemma AboutLinkActiveWhenIntended()
    ensures ActiveClass in UpdateActiveNavLinkIntended(0, [Section("about", 0)], [NavLink(Some("#about"), {})])[0].classes
  {
    var sections := [Section("about", 0)];
    assert IsLastPassed(0, sections, 0);
    assert SectionHref(sections[0].id) == "#about";
  }
}
