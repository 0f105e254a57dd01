/** The portfolio's section registry: the ordered ids the scroll handler scans,
    the navigation labels that name them, and the lower-casing that links the two. */
module Sections {

  /** The section ids, in document order, as the scroll handler lists them. */
  const Ids: seq<string> := ["hero", "about", "skills", "experience", "education", "projects", "contact"]

  /** The navigation bar's labels, in the order the bar renders them. */
  const NavLabels: seq<string> := ["Hero", "About", "Skills", "Experience", "Education", "Projects", "Contact"]

  /** A value the active-section state may legitimately hold. */
  predicate Registered(id: string) {
    id in Ids
  }

  /** The state the page starts in: the first section of the registry. */
  function InitialSection(): (id: string)
    ensures Registered(id)
    ensures id == Ids[0]
  {
    "hero"
  }

  /** Lower-cases one character; only the ASCII letters A-Z are changed. */
  function LowerChar(c: char): (d: char)
    ensures !('A' <= d <= 'Z')
    ensures ('a' <= d <= 'z') <==> ('a' <= c <= 'z' || 'A' <= c <= 'Z')
    ensures !('A' <= c <= 'Z') ==> d == c
  {
    if 'A' <= c <= 'Z' then (c as int - 'A' as int + 'a' as int) as char else c
  }

  /** String lower-casing, character by character. */
  function ToLower(s: string): (t: string)
    ensures |t| == |s|
    ensures forall i :: 0 <= i < |s| ==> t[i] == LowerChar(s[i])
    ensures forall i :: 0 <= i < |t| ==> !('A' <= t[i] <= 'Z')
    ensures (forall i :: 0 <= i < |s| ==> !('A' <= s[i] <= 'Z')) ==> t == s
  {
    seq(|s|, i requires 0 <= i < |s| => LowerChar(s[i]))
  }

  /** No id appears twice in the registry. */
  lemma IdsDistinct()
    ensures forall i, j :: 0 <= i < j < |Ids| ==> Ids[i] != Ids[j]
  {
  }

  /** The lower-cased navigation labels are exactly the registry's ids, position by position. */
  lemma LabelsLowerToIds()
    ensures |NavLabels| == |Ids|
    ensures forall i :: 0 <= i < |NavLabels| ==> ToLower(NavLabels[i]) == Ids[i]
  {
    assert ToLower("Hero") == "hero";
    assert ToLower("About") == "about";
    assert ToLower("Skills") == "skills";
    assert ToLower("Experience") == "experience";
    assert ToLower("Education") == "education";
    assert ToLower("Projects") == "projects";
    assert ToLower("Contact") == "contact";
  }
}
