/**
 * The navigation bar: which section is highlighted as active, and whether the mobile
 * menu is open. The active section follows the browser's intersection batches and
 * navigation clicks.
 */
module Navbar {
  import opened Wrappers
  import opened JsStrings

  datatype NavItem = NavItem(name: string, href: string)

  /** The navigation entries, in display order. */
  const NavItems: seq<NavItem> := [
    NavItem("Home", "#hero"),
    NavItem("About", "#about"),
    NavItem("Skills", "#skills"),
    NavItem("Experience", "#experience"),
    NavItem("Projects", "#projects"),
    NavItem("Certificates", "#certificates"),
    NavItem("Contact", "#contact")
  ]

  /** The section a link points at: `href.substring(1)`. */
  function SectionId(href: string): string {
    if |href| == 0 then "" else href[1..]
  }

  /** The ids of the sections the bar observes and links to, in display order. */
  function NavIds(): (ids: seq<string>)
    ensures |ids| == |NavItems|
    ensures forall i :: 0 <= i < |ids| ==> ids[i] == SectionId(NavItems[i].href)
  {
    seq(|NavItems|, i requires 0 <= i < |NavItems| => SectionId(NavItems[i].href))
  }

  // ---------------------------------------------------------------------------
  // The intersection callback
  // ---------------------------------------------------------------------------

  /** One intersection-observer entry: the observed element's id and its visible fraction. */
  datatype Entry = Entry(targetId: string, intersectionRatio: real)

  /** The adoption threshold: a winner must be more than 10% visible. */
  const MinRatio: real := 0.1

  /**
   * The entry the callback selects, by position in the batch: a left-to-right scan that
   * replaces the current best only when an entry's ratio is strictly greater, starting
   * from a best ratio of 0 and no entry.
   */
  function Winner(entries: seq<Entry>): (w: Option<nat>)
    ensures w.Some? ==> w.value < |entries|
    decreases |entries|
  {
    if |entries| == 0 then None
    else
      var n := |entries| - 1;
      var w := Winner(entries[..n]);
      if entries[n].intersectionRatio > BestRatio(entries, w) then Some(n) else w
  }

  /** The `maxRatio` the scan holds once it has picked `w`. */
  function BestRatio(entries: seq<Entry>, w: Option<nat>): real
    requires w.Some? ==> w.value < |entries|
  {
    if w.Some? then entries[w.value].intersectionRatio else 0.0
  }

  /**
   * The winner has the largest ratio of the batch, and it is positive; every earlier entry
   * has a strictly smaller ratio, so among equal maxima the first one wins. There is no
   * winner exactly when no ratio is positive (in particular for an empty batch).
   */
  lemma {:induction false} WinnerIsFirstMaximum(entries: seq<Entry>)
    ensures Winner(entries).None? <==> forall j :: 0 <= j < |entries| ==> entries[j].intersectionRatio <= 0.0
    ensures Winner(entries).Some? ==>
              var k := Winner(entries).value;
              && entries[k].intersectionRatio > 0.0
              && (forall j :: 0 <= j < |entries| ==> entries[j].intersectionRatio <= entries[k].intersectionRatio)
              && (forall j :: 0 <= j < k ==> entries[j].intersectionRatio < entries[k].intersectionRatio)
    decreases |entries|
  {
    if |entries| > 0 {
      var n := |entries| - 1;
      var p := entries[..n];
      WinnerIsFirstMaximum(p);
      assert forall j :: 0 <= j < n ==> p[j] == entries[j];
    }
  }

  /** The active section after a batch: the winner's id when its ratio exceeds 0.1. */
  function NextSection(active: string, entries: seq<Entry>): string {
    match Winner(entries)
    case Some(k) => if entries[k].intersectionRatio > MinRatio then entries[k].targetId else active
    case None => active
  }

  /** After a batch the active section is unchanged or the id of an entry of that batch. */
  lemma NextSectionFromBatch(active: string, entries: seq<Entry>)
    ensures NextSection(active, entries) == active
            || exists k :: 0 <= k < |entries| && NextSection(active, entries) == entries[k].targetId
  {
  }

  /**
   * The section changes only through a winner above the threshold, and such a winner is
   * always adopted.
   */
  lemma NextSectionAdopts(active: string, entries: seq<Entry>)
    ensures NextSection(active, entries) != active ==>
              Winner(entries).Some? && entries[Winner(entries).value].intersectionRatio > MinRatio
    ensures Winner(entries).Some? && entries[Winner(entries).value].intersectionRatio > MinRatio ==>
              NextSection(active, entries) == entries[Winner(entries).value].targetId
  {
  }

  /** A batch in which no section is more than 10% visible changes nothing. */
  lemma {:induction false} QuietBatchKeepsSection(active: string, entries: seq<Entry>)
    requires forall j :: 0 <= j < |entries| ==> entries[j].intersectionRatio <= MinRatio
    ensures NextSection(active, entries) == active
  {
    WinnerIsFirstMaximum(entries);
  }

  /** When exactly one section is more than 10% visible, that section becomes active. */
  lemma {:induction false} SoleVisibleSectionWins(active: string, entries: seq<Entry>, k: nat)
    requires k < |entries| && entries[k].intersectionRatio > MinRatio
    requires forall j :: 0 <= j < |entries| && j != k ==> entries[j].intersectionRatio <= MinRatio
    ensures NextSection(active, entries) == entries[k].targetId
  {
    WinnerIsFirstMaximum(entries);
    var w := Winner(entries).value;
    assert entries[w].intersectionRatio >= entries[k].intersectionRatio;
  }

  /** A batch that names only navigation sections keeps the active section a navigation section. */
  lemma NextSectionStaysKnown(active: string, entries: seq<Entry>)
    requires active in NavIds()
    requires forall j :: 0 <= j < |entries| ==> entries[j].targetId in NavIds()
    ensures NextSection(active, entries) in NavIds()
  {
  }

  // ---------------------------------------------------------------------------
  // Clicks on `#` links and the active-link test
  // ---------------------------------------------------------------------------

  /**
   * The section a click on a link selects: for an `href` starting with `#` whose target
   * element exists, the `href` minus its first character. `present` stands for the ids
   * `document.getElementById` finds; it never finds the empty id, so a bare `#` selects
   * nothing.
   */
  function ClickTarget(href: Option<string>, present: set<string>): (t: Option<string>)
    ensures t.Some? <==> href.Some? && StartsWith(href.value, "#") && href.value[1..] != "" && href.value[1..] in present
    ensures t.Some? ==> "#" + t.value == href.value
  {
    if href.Some? && StartsWith(href.value, "#") && SectionId(href.value) != "" && SectionId(href.value) in present
    then Some(SectionId(href.value))
    else None
  }

  /** A bare `#` link is prevented but selects no section, whatever the page holds. */
  lemma BareHashSelectsNothing(present: set<string>)
    ensures ClickTarget(Some("#"), present) == None
  {
    assert "#"[1..] == "";
  }

  /** A click on one of the bar's own links, with its section present, selects that section. */
  lemma {:induction false} NavLinkClickSelects(i: nat, present: set<string>)
    requires i < |NavItems| && NavIds()[i] in present
    ensures ClickTarget(Some(NavItems[i].href), present) == Some(NavIds()[i])
  {
    assert NavIds()[i] == SectionId(NavItems[i].href);
  }

  /**
   * The active section stays a navigation section: the observer watches only the
   * navigation sections, and the click handler is attached only to the bar's own links,
   * so from a navigation section neither a batch naming navigation sections nor a click
   * on nav item `i` can leave the navigation sections.
   */
  lemma {:induction false} ActiveSectionStaysNavId(active: string, entries: seq<Entry>, i: nat, present: set<string>)
    requires active in NavIds()
    requires forall j :: 0 <= j < |entries| ==> entries[j].targetId in NavIds()
    requires i < |NavItems|
    ensures NextSection(active, entries) in NavIds()
    ensures var t := ClickTarget(Some(NavItems[i].href), present);
            (if t.Some? then t.value else active) in NavIds()
  {
    NextSectionStaysKnown(active, entries);
    if NavIds()[i] in present {
      NavLinkClickSelects(i, present);
    }
  }

  /** A desktop link is rendered active when the active section is its `href` minus the `#`. */
  predicate IsActiveLink(activeSection: string, item: NavItem) {
    activeSection == SectionId(item.href)
  }

  /** The positions of the desktop links rendered active. */
  function ActiveLinks(activeSection: string): set<nat> {
    set i: nat | i < |NavItems| && IsActiveLink(activeSection, NavItems[i])
  }

  /** The navigation section ids are pairwise distinct. */
  lemma NavIdsDistinct()
    ensures forall i, j :: 0 <= i < j < |NavIds()| ==> NavIds()[i] != NavIds()[j]
  {
    var ids := NavIds();
    assert ids == ["hero", "about", "skills", "experience", "projects", "certificates", "contact"];
  }

  /**
   * At most one desktop link is active, and exactly one when the active section is a
   * navigation section.
   */
  lemma {:induction false} OneActiveLink(activeSection: string)
    ensures |ActiveLinks(activeSection)| <= 1
    ensures |ActiveLinks(activeSection)| == 1 <==> activeSection in NavIds()
  {
    NavIdsDistinct();
    var ids := NavIds();
    if activeSection in ids {
      var k :| 0 <= k < |ids| && ids[k] == activeSection;
      assert ActiveLinks(activeSection) == {k};
    } else {
      assert ActiveLinks(activeSection) == {};
    }
  }

  // ---------------------------------------------------------------------------
  // The component state
  // ---------------------------------------------------------------------------

  /** The bar's state: the highlighted section and whether the mobile menu is open. */
  class Tracker {
    var activeSection: string
    var isOpen: bool

    /** Mounting: the menu is closed and the hero section is active. */
    constructor ()
      ensures activeSection == "hero" && !isOpen
    {
      activeSection := "hero";
      isOpen := false;
    }

    /**
     * The intersection-observer callback: scan the batch for the entry with the strictly
     * largest ratio and adopt its section when that ratio exceeds 0.1.
     */
    method HandleIntersection(entries: seq<Entry>)
      modifies this
      ensures activeSection == NextSection(old(activeSection), entries)
      ensures isOpen == old(isOpen)
    {
      var maxRatio := 0.0;
      var activeEntry: Option<nat> := None;
      var i := 0;
      while i < |entries|
        invariant 0 <= i <= |entries|
        invariant activeEntry == Winner(entries[..i])
        invariant maxRatio == BestRatio(entries, activeEntry)
      {
        assert entries[..i + 1][..i] == entries[..i];
        if entries[i].intersectionRatio > maxRatio {
          maxRatio := entries[i].intersectionRatio;
          activeEntry := Some(i);
        }
        i := i + 1;
      }
      assert entries[..|entries|] == entries;
      if activeEntry.Some? && entries[activeEntry.value].intersectionRatio > MinRatio {
        activeSection := entries[activeEntry.value].targetId;
      }
    }

    /**
     * A click on a navigation link. A `#` link has its default navigation prevented; when
     * its target exists, that section becomes active at once and is scrolled to.
     */
    method HandleNavClick(href: Option<string>, present: set<string>)
      returns (prevented: bool, scrolledTo: Option<string>)
      modifies this
      ensures prevented <==> href.Some? && StartsWith(href.value, "#")
      ensures scrolledTo == ClickTarget(href, present)
      ensures activeSection == (if scrolledTo.Some? then scrolledTo.value else old(activeSection))
      ensures isOpen == old(isOpen)
    {
      prevented, scrolledTo := false, None;
      if href.Some? && StartsWith(href.value, "#") {
        prevented := true;
        var targetId := SectionId(href.value);
        if targetId != "" && targetId in present {
          activeSection := targetId;
          scrolledTo := Some(targetId);
        }
      }
    }

    /** The menu button: flip `isOpen`. */
    method ToggleMenu()
      modifies this
      ensures isOpen == !old(isOpen)
      ensures activeSection == old(activeSection)
    {
      var newState := !isOpen;
      isOpen := newState;
    }

    /**
     * A link of the mobile overlay: it lies inside the bar, so it gets both the `#`-link
     * click handler and its own `onClick` that toggles the menu.
     */
    method HandleMobileLinkClick(href: Option<string>, present: set<string>)
      returns (prevented: bool, scrolledTo: Option<string>)
      modifies this
      ensures prevented <==> href.Some? && StartsWith(href.value, "#")
      ensures scrolledTo == ClickTarget(href, present)
      ensures activeSection == (if scrolledTo.Some? then scrolledTo.value else old(activeSection))
      ensures isOpen == !old(isOpen)
    {
      prevented, scrolledTo := HandleNavClick(href, present);
      ToggleMenu();
    }
  }

  /**
   * The tracker's section stays a navigation section through a batch of navigation
   * sections, a desktop link click and a mobile link click.
   */
  method NavSectionInvariant(t: Tracker, entries: seq<Entry>, i: nat, k: nat, present: set<string>)
    requires t.activeSection in NavIds()
    requires forall j :: 0 <= j < |entries| ==> entries[j].targetId in NavIds()
    requires i < |NavItems| && k < |NavItems|
    modifies t
    ensures t.activeSection in NavIds()
  {
    t.HandleIntersection(entries);
    ActiveSectionStaysNavId(old(t.activeSection), entries, i, present);
    var a := t.activeSection;
    var prevented, scrolledTo := t.HandleNavClick(Some(NavItems[i].href), present);
    ActiveSectionStaysNavId(a, [], i, present);
    var b := t.activeSection;
    prevented, scrolledTo := t.HandleMobileLinkClick(Some(NavItems[k].href), present);
    ActiveSectionStaysNavId(b, [], k, present);
  }

  /** The scenarios the tracker is expected to follow. */
  method TrackerScenarios()
  {
    var t := new Tracker();
    assert t.activeSection == "hero" && !t.isOpen;

    t.HandleIntersection([Entry("hero", 0.05), Entry("about", 0.6), Entry("skills", 0.0)]);
    SoleVisibleSectionWins("hero", [Entry("hero", 0.05), Entry("about", 0.6), Entry("skills", 0.0)], 1);
    assert t.activeSection == "about";

    t.HandleIntersection([Entry("hero", 0.08), Entry("about", 0.09), Entry("skills", 0.05)]);
    QuietBatchKeepsSection("about", [Entry("hero", 0.08), Entry("about", 0.09), Entry("skills", 0.05)]);
    assert t.activeSection == "about";

    var prevented, scrolledTo := t.HandleNavClick(Some("#skills"), {"hero", "about", "skills"});
    assert t.activeSection == "skills" && prevented;

    t.ToggleMenu();
    t.ToggleMenu();
    assert !t.isOpen && t.activeSection == "skills";
  }
}
