/** The fixed navigation bar: one button per section, highlighted when its
    lower-cased label is the active section, and targeting that section when clicked. */
module Navigation {
  import opened Sections

  /** The highlight test of one navigation button. */
  predicate IsHighlighted(caption: string, active: string): (r: bool)
    ensures forall i :: 0 <= i < |NavLabels| && caption == NavLabels[i] ==> (r <==> active == Ids[i])
  {
    LabelsLowerToIds();
    ToLower(caption) == active
  }

  /** The highlight state of every button, in the order the bar renders them. */
  function Highlights(active: string): (h: seq<bool>)
    ensures |h| == |NavLabels| == |Ids|
    ensures forall i :: 0 <= i < |h| ==> (h[i] <==> Ids[i] == active)
  {
    LabelsLowerToIds();
    seq(|NavLabels|, i requires 0 <= i < |NavLabels| => IsHighlighted(NavLabels[i], active))
  }

  /** The section a click on button i scrolls to. */
  function ClickTarget(i: int): (id: string)
    requires 0 <= i < |NavLabels|
    ensures id == Ids[i]
    ensures Registered(id)
  {
    LabelsLowerToIds();
    ToLower(NavLabels[i])
  }

  /** Number of highlighted buttons. */
  function CountTrue(s: seq<bool>): nat
    decreases |s|
  {
    if |s| == 0 then 0 else (if s[0] then 1 else 0) + CountTrue(s[1..])
  }

  /** A sequence true at exactly one position has exactly one true entry. */
  lemma {:induction false} CountSingle(s: seq<bool>, k: int)
    requires 0 <= k < |s| && s[k]
    requires forall i :: 0 <= i < |s| && i != k ==> !s[i]
    ensures CountTrue(s) == 1
    decreases |s|
  {
    if k == 0 {
      CountNone(s[1..]);
    } else {
      CountSingle(s[1..], k - 1);
    }
  }

  /** A sequence with no true entry counts zero. */
  lemma {:induction false} CountNone(s: seq<bool>)
    requires forall i :: 0 <= i < |s| ==> !s[i]
    ensures CountTrue(s) == 0
    decreases |s|
  {
    if |s| > 0 {
      CountNone(s[1..]);
    }
  }

  /** With a registered active section exactly one button is highlighted, and it is the
      button of that section; with an unregistered value none would be. */
  lemma ExactlyOneHighlighted(active: string)
    ensures Registered(active) ==> CountTrue(Highlights(active)) == 1
    ensures !Registered(active) ==> CountTrue(Highlights(active)) == 0
  {
    var h := Highlights(active);
    IdsDistinct();
    if Registered(active) {
      var k :| 0 <= k < |Ids| && Ids[k] == active;
      CountSingle(h, k);
    } else {
      CountNone(h);
    }
  }
}
