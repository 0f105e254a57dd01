/** The scroll position tracker: on each scroll event the handler scans the
    registered sections in document order and makes the first one whose
    vertical extent contains the reference point the active section; when none
    does, the active section is left as it was. */
module Tracker {
  import opened Sections

  /** A section element's layout measurement: offsetTop and offsetHeight, in whole pixels. */
  datatype Bounds = Bounds(top: int, height: int)

  /** What the document can find by id: an id with no element is absent from the map. */
  type Dom = map<string, Bounds>

  /** How far below the top of the viewport the reference point sits, in pixels. */
  const Lookahead: real := 100.0

  /** The point whose enclosing section becomes active, for a scroll offset. */
  function ReferencePoint(scrollY: real): real {
    scrollY + Lookahead
  }

  /** The half-open extent [top, top + height) contains the point p. */
  predicate Contains(b: Bounds, p: real): (r: bool)
    ensures r ==> b.height > 0
    ensures p == b.top as real ==> (r <==> b.height > 0)
    ensures p >= (b.top + b.height) as real ==> !r
    ensures p < b.top as real ==> !r
  {
    b.top as real <= p < (b.top + b.height) as real
  }

  /** Section `id` has an element and its extent contains p. */
  predicate Hits(dom: Dom, id: string, p: real): (r: bool)
    ensures id !in dom ==> !r
    ensures r ==> id in dom && dom[id].height > 0
  {
    id in dom && Contains(dom[id], p)
  }

  /** Registry position k is where a first-match scan stops for point p. */
  predicate IsFirstHit(dom: Dom, p: real, k: int) {
    && 0 <= k < |Ids|
    && Hits(dom, Ids[k], p)
    && forall j :: 0 <= j < k ==> !Hits(dom, Ids[j], p)
  }

  /** No registered section contains p. */
  predicate NoHit(dom: Dom, p: real) {
    forall k :: 0 <= k < |Ids| ==> !Hits(dom, Ids[k], p)
  }

  /** Position of the first id in `ids` whose section contains p; |ids| when there is none. */
  function FirstHit(ids: seq<string>, dom: Dom, p: real): (k: nat)
    ensures k <= |ids|
    ensures k < |ids| ==> Hits(dom, ids[k], p)
    ensures forall j :: 0 <= j < k ==> !Hits(dom, ids[j], p)
    decreases |ids|
  {
    if |ids| == 0 then 0
    else if Hits(dom, ids[0], p) then 0
    else 1 + FirstHit(ids[1..], dom, p)
  }

  /** One run of the scroll handler: the active section after a scroll event at
      offset scrollY, with the sections measured as in dom, when it was prev before. */
  function Step(prev: string, scrollY: real, dom: Dom): (next: string)
    ensures next == prev || Registered(next)
    ensures !NoHit(dom, ReferencePoint(scrollY)) ==> Registered(next) && Hits(dom, next, ReferencePoint(scrollY))
    ensures NoHit(dom, ReferencePoint(scrollY)) ==> next == prev
  {
    var k := FirstHit(Ids, dom, ReferencePoint(scrollY));
    if k < |Ids| then Ids[k] else prev
  }

  /** The handler as the page writes it: a loop over the registry that stops at the first match. */
  method HandleScroll(prev: string, scrollY: real, dom: Dom) returns (next: string)
    ensures forall k :: IsFirstHit(dom, ReferencePoint(scrollY), k) ==> next == Ids[k]
    ensures NoHit(dom, ReferencePoint(scrollY)) ==> next == prev
    ensures next == Step(prev, scrollY, dom)
  {
    var scrollPosition := scrollY + Lookahead;
    next := prev;
    var i := 0;
    while i < |Ids|
      invariant 0 <= i <= |Ids|
      invariant next == prev
      invariant forall j :: 0 <= j < i ==> !Hits(dom, Ids[j], scrollPosition)
    {
      var section := Ids[i];
      if section in dom && dom[section].top as real <= scrollPosition < (dom[section].top + dom[section].height) as real {
        next := section;
        assert IsFirstHit(dom, scrollPosition, i);
        FirstHitIsUnique(dom, scrollPosition, i);
        StepFirstMatch(prev, scrollY, dom, i);
        return;
      }
      i := i + 1;
    }
  }

  /** At most one registry position is the first hit. */
  lemma FirstHitIsUnique(dom: Dom, p: real, k: int)
    requires IsFirstHit(dom, p, k)
    ensures forall m :: IsFirstHit(dom, p, m) ==> m == k
  {
  }

  /** The scan stops at the first section containing the reference point, whatever
      the previous state and whatever the later sections hold. */
  lemma StepFirstMatch(prev: string, scrollY: real, dom: Dom, k: int)
    requires IsFirstHit(dom, ReferencePoint(scrollY), k)
    ensures Step(prev, scrollY, dom) == Ids[k]
  {
  }

  /** The step lands on section k exactly when k is the first match, or when nothing
      matches and k was already active. */
  lemma StepIsSection(prev: string, scrollY: real, dom: Dom, k: int)
    requires 0 <= k < |Ids|
    ensures Step(prev, scrollY, dom) == Ids[k]
        <==> IsFirstHit(dom, ReferencePoint(scrollY), k) || (NoHit(dom, ReferencePoint(scrollY)) && prev == Ids[k])
  {
    var p := ReferencePoint(scrollY);
    IdsDistinct();
    var m := FirstHit(Ids, dom, p);
    if m < |Ids| {
      assert IsFirstHit(dom, p, m);
      assert !NoHit(dom, p);
      if Step(prev, scrollY, dom) == Ids[k] {
        assert Ids[m] == Ids[k];
        assert m == k;
      }
      if IsFirstHit(dom, p, k) {
        StepFirstMatch(prev, scrollY, dom, k);
      }
    } else {
      assert NoHit(dom, p);
    }
  }

  /** Sections after the first match are never consulted: changing or removing them
      does not change the outcome. */
  lemma StepIgnoresLaterSections(prev: string, scrollY: real, dom1: Dom, dom2: Dom, k: int)
    requires IsFirstHit(dom1, ReferencePoint(scrollY), k)
    requires forall j :: 0 <= j <= k ==> (Ids[j] in dom1 <==> Ids[j] in dom2)
    requires forall j :: 0 <= j <= k && Ids[j] in dom1 ==> dom1[Ids[j]] == dom2[Ids[j]]
    ensures Step(prev, scrollY, dom2) == Ids[k]
  {
    var p := ReferencePoint(scrollY);
    forall j | 0 <= j <= k
      ensures Hits(dom2, Ids[j], p) == Hits(dom1, Ids[j], p)
    {
    }
    assert IsFirstHit(dom2, p, k);
    StepFirstMatch(prev, scrollY, dom2, k);
  }

  /** For a previous value that is not a registered id, the step keeps it exactly when
      no section contains the reference point. */
  lemma StepSticky(prev: string, scrollY: real, dom: Dom)
    ensures !Registered(prev) ==> (Step(prev, scrollY, dom) == prev <==> NoHit(dom, ReferencePoint(scrollY)))
  {
  }

  /** A section with no element is never selected: the step can only end on it if it was already active. */
  lemma MissingNeverSelected(prev: string, scrollY: real, dom: Dom, k: int)
    requires 0 <= k < |Ids|
    requires Ids[k] !in dom
    ensures Step(prev, scrollY, dom) == Ids[k] ==> prev == Ids[k]
  {
    StepIsSection(prev, scrollY, dom, k);
  }

  /** A missing element is skipped exactly like a present one that does not contain the
      reference point: the scan carries on to the following sections. */
  lemma MissingActsAsNonContaining(prev: string, scrollY: real, dom: Dom, k: int, b: Bounds)
    requires 0 <= k < |Ids|
    requires Ids[k] !in dom
    requires !Contains(b, ReferencePoint(scrollY))
    ensures Step(prev, scrollY, dom) == Step(prev, scrollY, dom[Ids[k] := b])
  {
    var p := ReferencePoint(scrollY);
    var dom' := dom[Ids[k] := b];
    forall j | 0 <= j < |Ids|
      ensures Hits(dom', Ids[j], p) == Hits(dom, Ids[j], p)
    {
    }
    FirstHitAgrees(Ids, dom, dom', p);
  }

  /** Two layouts that give every id the same hit/miss answer give the same first hit. */
  lemma {:induction false} FirstHitAgrees(ids: seq<string>, dom1: Dom, dom2: Dom, p: real)
    requires forall j :: 0 <= j < |ids| ==> Hits(dom1, ids[j], p) == Hits(dom2, ids[j], p)
    ensures FirstHit(ids, dom1, p) == FirstHit(ids, dom2, p)
    decreases |ids|
  {
    if |ids| > 0 && !Hits(dom1, ids[0], p) {
      FirstHitAgrees(ids[1..], dom1, dom2, p);
    }
  }

  /** The interval's lower end is inclusive: a reference point exactly at a section's top
      selects it once the sections before it miss. */
  lemma ReferenceAtTopSelects(prev: string, scrollY: real, dom: Dom, k: int)
    requires 0 <= k < |Ids|
    requires Ids[k] in dom && dom[Ids[k]].height > 0
    requires ReferencePoint(scrollY) == dom[Ids[k]].top as real
    requires forall j :: 0 <= j < k ==> !Hits(dom, Ids[j], ReferencePoint(scrollY))
    ensures Step(prev, scrollY, dom) == Ids[k]
  {
    StepFirstMatch(prev, scrollY, dom, k);
  }

  /** The interval's upper end is exclusive: a reference point exactly at top + height never
      selects that section. */
  lemma ReferenceAtBottomSkips(prev: string, scrollY: real, dom: Dom, k: int)
    requires 0 <= k < |Ids|
    requires Ids[k] in dom
    requires ReferencePoint(scrollY) == (dom[Ids[k]].top + dom[Ids[k]].height) as real
    ensures Step(prev, scrollY, dom) == Ids[k] ==> prev == Ids[k]
  {
    StepIsSection(prev, scrollY, dom, k);
  }

  /** Two measured extents share no point (an empty extent shares none). */
  predicate Apart(a: Bounds, b: Bounds) {
    a.height <= 0 || b.height <= 0 || a.top + a.height <= b.top || b.top + b.height <= a.top
  }

  /** No two present sections overlap, which the page's layout is meant to guarantee. */
  predicate NonOverlapping(dom: Dom) {
    forall i, j :: 0 <= i < j < |Ids| && Ids[i] in dom && Ids[j] in dom ==> Apart(dom[Ids[i]], dom[Ids[j]])
  }

  /** When sections do not overlap, the section containing the reference point is
      selected whatever its position in the registry. */
  lemma NonOverlappingSelectsContaining(prev: string, scrollY: real, dom: Dom, k: int)
    requires NonOverlapping(dom)
    requires 0 <= k < |Ids| && Hits(dom, Ids[k], ReferencePoint(scrollY))
    ensures Step(prev, scrollY, dom) == Ids[k]
  {
    var p := ReferencePoint(scrollY);
    forall j | 0 <= j < k
      ensures !Hits(dom, Ids[j], p)
    {
      if Ids[j] in dom {
        assert Apart(dom[Ids[j]], dom[Ids[k]]);
      }
    }
    StepFirstMatch(prev, scrollY, dom, k);
  }

  /** At the top of the page the hero section is selected, provided it is measured at
      the top and is taller than the lookahead. */
  lemma TopOfPageIsHero(prev: string, dom: Dom)
    requires "hero" in dom && dom["hero"].top <= 0 && dom["hero"].top + dom["hero"].height > 100
    ensures Step(prev, 0.0, dom) == "hero"
  {
    assert Hits(dom, Ids[0], ReferencePoint(0.0));
    StepFirstMatch(prev, 0.0, dom, 0);
  }

  /** Repeating a scroll event with the same offset and layout changes nothing more. */
  lemma StepIdempotent(prev: string, scrollY: real, dom: Dom)
    ensures Step(Step(prev, scrollY, dom), scrollY, dom) == Step(prev, scrollY, dom)
  {
  }

  /** A scroll event: the offset and the layout measured while handling it. */
  datatype ScrollEvent = ScrollEvent(scrollY: real, dom: Dom)

  /** The active section after handling a sequence of scroll events in order. */
  function Run(s: string, events: seq<ScrollEvent>): (r: string)
    ensures r == s || Registered(r)
    ensures Registered(s) ==> Registered(r)
    ensures |events| > 0 && !NoHit(events[|events| - 1].dom, ReferencePoint(events[|events| - 1].scrollY)) ==> Registered(r)
    decreases |events|
  {
    if |events| == 0 then s else Run(Step(s, events[0].scrollY, events[0].dom), events[1..])
  }

  /** Handling one more event is one more step from where the earlier events left the state. */
  lemma {:induction false} RunSnoc(s: string, events: seq<ScrollEvent>, e: ScrollEvent)
    ensures Run(s, events + [e]) == Step(Run(s, events), e.scrollY, e.dom)
    decreases |events|
  {
    if |events| == 0 {
      assert events + [e] == [e];
    } else {
      assert (events + [e])[1..] == events[1..] + [e];
      RunSnoc(Step(s, events[0].scrollY, events[0].dom), events[1..], e);
    }
  }

  /** Starting from the initial state, the active section is always one of the registered ids. */
  lemma ReachableIsRegistered(events: seq<ScrollEvent>)
    ensures Registered(Run(InitialSection(), events))
  {
  }

  /** An event whose reference point lies outside every section leaves the state where the
      earlier events put it: there is no reset to a default. */
  lemma RunNoHitKeepsState(s: string, events: seq<ScrollEvent>, e: ScrollEvent)
    requires NoHit(e.dom, ReferencePoint(e.scrollY))
    ensures Run(s, events + [e]) == Run(s, events)
  {
    RunSnoc(s, events, e);
  }
}
