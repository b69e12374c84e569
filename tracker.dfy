/** The side-rail navigation tracker: which page section is highlighted
    as the viewport scrolls, and where a click on an indicator scrolls to. */
module Tracker {
  import opened Wrappers

  /** The `offsetTop` and `offsetHeight` of a mounted section element, in pixels. */
  datatype Geometry = Geometry(offsetTop: int, offsetHeight: int)

  /** The rendered document as `document.getElementById` sees it: an id that is
      not a key, or is mapped to None, has no element (not yet mounted). */
  type Layout = map<string, Option<Geometry>>

  /** The section registry, in display order. */
  const Sections: seq<string> := ["intro", "work", "team", "contact"]

  /** Forward bias added to the scroll offset before any comparison. */
  const Lookahead: int := 100

  /** Effective positions below this always highlight "intro". */
  const IntroThreshold: int := 200

  function Lookup(layout: Layout, id: string): Option<Geometry>
  {
    if id in layout then layout[id] else None
  }

  /** The half-open range [offsetTop, offsetTop + offsetHeight) contains `pos`. */
  predicate Contains(g: Geometry, pos: int)
  {
    g.offsetTop <= pos < g.offsetTop + g.offsetHeight
  }

  /** Section `id` has an element and its range contains `pos`. */
  predicate Hit(layout: Layout, id: string, pos: int)
  {
    Lookup(layout, id).Some? && Contains(Lookup(layout, id).value, pos)
  }

  /** Index of the first registry entry at or after `from` that is hit. */
  function FirstHit(layout: Layout, pos: int, from: nat): (r: Option<nat>)
    requires from <= |Sections|
    ensures r.Some? ==> from <= r.value < |Sections| && Hit(layout, Sections[r.value], pos)
    ensures r.Some? ==> forall j :: from <= j < r.value ==> !Hit(layout, Sections[j], pos)
    ensures r.None? ==> forall j :: from <= j < |Sections| ==> !Hit(layout, Sections[j], pos)
    decreases |Sections| - from
  {
    if from == |Sections| then None
    else if Hit(layout, Sections[from], pos) then Some(from)
    else FirstHit(layout, pos, from + 1)
  }

  /** The section highlighted after a scroll event at `scrollY`, given the one
      highlighted before: "intro" near the top, otherwise the first registry entry
      whose range contains the biased position, otherwise no change. */
  function Resolve(previous: string, scrollY: int, layout: Layout): (r: string)
    ensures scrollY + Lookahead < IntroThreshold ==> r == "intro"
    ensures scrollY + Lookahead >= IntroThreshold ==>
      forall i :: (0 <= i < |Sections| && Hit(layout, Sections[i], scrollY + Lookahead) &&
        (forall j :: 0 <= j < i ==> !Hit(layout, Sections[j], scrollY + Lookahead))) ==> r == Sections[i]
    ensures (scrollY + Lookahead >= IntroThreshold &&
      (forall j :: 0 <= j < |Sections| ==> !Hit(layout, Sections[j], scrollY + Lookahead))) ==> r == previous
    ensures r in Sections || r == previous
  {
    var pos := scrollY + Lookahead;
    if pos < IntroThreshold then "intro"
    else match FirstHit(layout, pos, 0)
      case Some(i) => Sections[i]
      case None => previous
  }

  /** A section without an element is never the result of a match: it is
      highlighted afterwards only if it was "intro" near the top or was already highlighted. */
  lemma AbsentNeverChosen(previous: string, scrollY: int, layout: Layout, k: nat)
    requires k < |Sections| && Lookup(layout, Sections[k]).None?
    ensures Resolve(previous, scrollY, layout) == Sections[k] ==>
      (scrollY + Lookahead < IntroThreshold && k == 0) || previous == Sections[k]
  {
    var pos := scrollY + Lookahead;
    if pos >= IntroThreshold {
      match FirstHit(layout, pos, 0)
      case Some(i) =>
        assert Hit(layout, Sections[i], pos);
        assert i != k;
      case None =>
    }
  }

  /** When two ranges overlap, the earlier registry entry wins, and entries after
      it are not examined: replacing their geometry does not change the result. */
  lemma EarlierEntryWins(previous: string, scrollY: int, layout: Layout, other: Layout, i: nat)
    requires scrollY + Lookahead >= IntroThreshold
    requires i < |Sections| && Hit(layout, Sections[i], scrollY + Lookahead)
    requires forall j :: 0 <= j <= i ==> Lookup(other, Sections[j]) == Lookup(layout, Sections[j])
    ensures Resolve(previous, scrollY, layout) == Resolve(previous, scrollY, other)
  {
    var pos := scrollY + Lookahead;
    var w := FirstHit(layout, pos, 0).value;
    assert w <= i;
    assert Hit(other, Sections[w], pos);
    assert FirstHit(other, pos, 0) == Some(w);
  }

  /** Registry ids stay registry ids. */
  lemma ResolveKeepsRegistryId(previous: string, scrollY: int, layout: Layout)
    requires previous in Sections
    ensures Resolve(previous, scrollY, layout) in Sections
  {
  }

  /** `scrollToSection(id)`: no scroll when the element is missing, otherwise
      the scroll target is the element's `offsetTop`. */
  function ScrollTarget(layout: Layout, id: string): (r: Option<int>)
    ensures r.None? <==> Lookup(layout, id).None?
    ensures r.Some? ==> r.value == Lookup(layout, id).value.offsetTop
  {
    match Lookup(layout, id)
    case None => None
    case Some(g) => Some(g.offsetTop)
  }

  /** The sections that are mounted do not overlap (they are stacked vertically). */
  predicate Stacked(layout: Layout)
  {
    forall i, j :: 0 <= i < j < |Sections| && Lookup(layout, Sections[i]).Some? && Lookup(layout, Sections[j]).Some? ==>
      var a, b := Lookup(layout, Sections[i]).value, Lookup(layout, Sections[j]).value;
      a.offsetTop + a.offsetHeight <= b.offsetTop || b.offsetTop + b.offsetHeight <= a.offsetTop
  }

  /** Clicking the indicator of section `k` on a stacked layout, once the scroll
      has settled at the target, highlights section `k` — provided the section is
      taller than the look-ahead and, unless it is "intro", starts far enough down. */
  lemma ScrollToSectionHighlightsIt(previous: string, layout: Layout, k: nat)
    requires Stacked(layout)
    requires k < |Sections| && Lookup(layout, Sections[k]).Some?
    requires Lookup(layout, Sections[k]).value.offsetHeight > Lookahead
    requires k == 0 || Lookup(layout, Sections[k]).value.offsetTop + Lookahead >= IntroThreshold
    ensures ScrollTarget(layout, Sections[k]).Some?
    ensures Resolve(previous, ScrollTarget(layout, Sections[k]).value, layout) == Sections[k]
  {
    var y := ScrollTarget(layout, Sections[k]).value;
    var pos := y + Lookahead;
    assert Hit(layout, Sections[k], pos);
    if pos >= IntroThreshold {
      var w := FirstHit(layout, pos, 0).value;
      assert Hit(layout, Sections[w], pos);
      assert w == k;
    }
  }

  /** The tracker component's state: the highlighted section. */
  class SectionTracker {
    var activeSection: string

    ghost predicate Valid()
      reads this
    {
      activeSection in Sections
    }

    /** `useState("intro")`. */
    constructor ()
      ensures Valid() && activeSection == "intro"
    {
      activeSection := "intro";
    }

    /** `handleScroll`, run on every scroll event and once at mount. A call of
        `setActiveSection` is recorded in `next`; React applies the last one
        when the handler has returned. */
    method HandleScroll(scrollY: int, layout: Layout)
      requires Valid()
      modifies this
      ensures Valid()
      ensures activeSection == Resolve(old(activeSection), scrollY, layout)
    {
      var next := activeSection;
      var scrollPosition := scrollY + Lookahead;
      if scrollPosition < IntroThreshold {
        next := "intro";
        activeSection := next;
        return;
      }
      var foundActive := false;
      var i := 0;
      while i < |Sections|
        invariant 0 <= i <= |Sections|
        invariant !foundActive && next == old(activeSection)
        invariant forall j :: 0 <= j < i ==> !Hit(layout, Sections[j], scrollPosition)
      {
        var element := Lookup(layout, Sections[i]);
        if element.Some? {
          var g := element.value;
          if scrollPosition >= g.offsetTop && scrollPosition < g.offsetTop + g.offsetHeight {
            next := Sections[i];
            foundActive := true;
            break;
          }
        }
        i := i + 1;
      }
      // The `scrollY === 0` fallback is dead code: offset 0 took the early return.
      if !foundActive && scrollY == 0 {
        assert false;
        next := "intro";
      }
      activeSection := next;
    }
  }

  /** Mounting: the state starts at "intro" and the handler runs once on the current offset. */
  method Mount(scrollY: int, layout: Layout) returns (tracker: SectionTracker)
    ensures fresh(tracker) && tracker.Valid()
    ensures tracker.activeSection == Resolve("intro", scrollY, layout)
  {
    tracker := new SectionTracker();
    tracker.HandleScroll(scrollY, layout);
  }

  /** The worked scenario: intro [0,300), work [300,800), team [800,1200). */
  lemma Scenario()
    ensures var layout := map["intro" := Some(Geometry(0, 300)), "work" := Some(Geometry(300, 500)),
                              "team" := Some(Geometry(800, 400))];
      && Resolve("intro", 150, layout) == "intro"
      && Resolve("intro", 250, layout) == "work"
      && Resolve("team", 1150, layout) == "team"
      && Resolve("work", 50, layout) == "intro"
  {
  }
}
