# Active-section tracking of a single-page portfolio

The portfolio is one scrolling page with seven sections: hero, about, skills,
experience, education, projects and contact. A fixed navigation bar highlights
the section currently "in view". Its only real logic is the scroll handler in
`app/page.tsx`. On every scroll event the handler computes a reference point
100 pixels below the top of the viewport. It then walks the sections in
document order and makes the first section whose extent `[top, top + height)`
contains that point the active section. When no section contains the point,
the active section is left as it was. The page starts with `hero` active.

This project models that handler as a pure step function, together with the two
small rules next to it:

- `sections.dfy` (module `Sections`): the registry of ids, the navigation labels,
  the initial state, and the lower-casing that maps a label to its id.
- `tracker.dfy` (module `Tracker`): section bounds and the DOM lookup (a map from
  id to bounds; an id with no element is absent), the first-match scan `FirstHit`,
  the step `Step`, the loop-with-break form of the handler `HandleScroll`, and
  sequences of scroll events (`Run`).
- `navigation.dfy` (module `Navigation`): which navigation button is highlighted,
  and which section a button click targets.
- `projects.dfy` (module `Projects`): which project cards show a "View Project"
  button, and the site's literal project list.

Scroll offsets are `real`, because the browser's `scrollY` may be fractional.
`offsetTop` and `offsetHeight` are integers, as the DOM reports them.

Only the first project has a real link (app/page.tsx:213). The other two use
the `"#"` placeholder (app/page.tsx:219, 226), so exactly one "View Project"
button is rendered.

## Model

| member | source | states |
|---|---|---|
| `Sections.InitialSection` | app/page.tsx:11 | The active section starts as the first registered section, `hero`. |
| `Sections.IdsDistinct` | app/page.tsx:21 | No section id is registered twice, so a selected id names one position. |
| `Sections.LowerChar` | app/page.tsx:49 | Lower-casing one character never yields an upper-case ASCII letter, yields a lower-case letter exactly for ASCII letters, and leaves every non-upper-case character alone. |
| `Sections.ToLower` | app/page.tsx:49 | Lower-casing keeps the length, leaves no upper-case ASCII letter in the result, and leaves a string without upper-case letters unchanged. |
| `Sections.LabelsLowerToIds` | app/page.tsx:45-49 | There are as many navigation labels as ids, and label i lower-cases to exactly id i. |
| `Tracker.Contains` | app/page.tsx:26 | A section's extent is half-open: only a section of positive height can contain a point; its top is contained; points at or below top + height and points above its top are not. |
| `Tracker.Hits` | app/page.tsx:25-26 | A section with no element never matches; a matching section has an element of positive height. |
| `Tracker.FirstHit` | app/page.tsx:24-29 | The scan returns the first position whose element exists and whose extent contains the point; every earlier position misses; past the end means no match. |
| `Tracker.Step` | app/page.tsx:20-31 | The next state is either the previous one or a registered id; if any section matches, the next state is a matching registered section; if none matches, the state is unchanged. |
| `Tracker.HandleScroll` | app/page.tsx:20-31 | The loop that breaks at the first match sets the first-matching section, keeps the previous state when nothing matches, and agrees with `Step`. |
| `Tracker.StepFirstMatch` | app/page.tsx:24-28 | When section k is the first match, the step selects section k whatever the previous state. |
| `Tracker.StepIsSection` | app/page.tsx:24-30 | The step ends on section k if and only if k is the first match, or nothing matches and k was already active. |
| `Tracker.StepIgnoresLaterSections` | app/page.tsx:26-28 | Sections after the first match are never consulted: any change to them leaves the result unchanged. |
| `Tracker.StepSticky` | app/page.tsx:24-30 | For a previous value that is not a registered id, the step keeps it exactly when no section contains the reference point. |
| `Tracker.MissingNeverSelected` | app/page.tsx:25-26 | A section whose element is missing is never newly selected. |
| `Tracker.MissingActsAsNonContaining` | app/page.tsx:25-26 | A missing element is skipped exactly like a present section that does not contain the point, so the scan carries on. |
| `Tracker.FirstHitAgrees` | app/page.tsx:24-29 | Two layouts that give every section the same match answer give the same scan result. |
| `Tracker.ReferenceAtTopSelects` | app/page.tsx:22-26 | A reference point exactly at a non-empty section's top selects it when the earlier sections miss. |
| `Tracker.ReferenceAtBottomSkips` | app/page.tsx:26 | A reference point exactly at top + height never newly selects that section. |
| `Tracker.NonOverlappingSelectsContaining` | app/page.tsx:24-28 | When no two present sections overlap, the section containing the reference point is selected whatever its registry position. |
| `Tracker.TopOfPageIsHero` | app/page.tsx:21-27 | At scroll offset 0, a hero section measured at the top and taller than the 100-pixel lookahead is selected. |
| `Tracker.StepIdempotent` | app/page.tsx:20-31 | Handling the same scroll event twice gives the same state as handling it once. |
| `Tracker.Run` | app/page.tsx:20-34 | After a sequence of scroll events the state is the starting one or a registered id; a registered start stays registered, and a final event that matches some section leaves a registered id. |
| `Tracker.RunSnoc` | app/page.tsx:20-34 | Handling one more scroll event applies one more step to the state left by the earlier events. |
| `Tracker.ReachableIsRegistered` | app/page.tsx:11-31 | Starting from the initial state, the active section is always one of the seven ids. |
| `Tracker.RunNoHitKeepsState` | app/page.tsx:24-30 | A scroll event that matches no section leaves the state where the earlier events put it; there is no reset. |
| `Navigation.IsHighlighted` | app/page.tsx:49 | The button labelled with the i-th navigation label is highlighted exactly when the active section is the i-th id. |
| `Navigation.Highlights` | app/page.tsx:45-49 | One highlight flag per registered section, in registry order; flag i is set if and only if id i is the active section. |
| `Navigation.ClickTarget` | app/page.tsx:50 | Clicking button i targets section i, which is a registered section. |
| `Navigation.ExactlyOneHighlighted` | app/page.tsx:45-49 | With a registered active section exactly one button is highlighted; with any other value none is. |
| `Projects.ViewProjectCards` | app/page.tsx:228-247 | The cards that show "View Project" are listed in increasing order; each has a link other than `"#"`, and every such card is listed. |
| `Projects.PortfolioHasOneViewProject` | app/page.tsx:209-243 | For the site's three projects, only the first card shows a "View Project" button. |

## Left out

- Scroll-progress bar and its spring smoothing (app/page.tsx:12-17, 39-42): floating-point animation computed inside framer-motion, whose code is not part of this model.
- Installing and removing the scroll listener (app/page.tsx:33-34): environment I/O. `Run` stands for the sequence of events the listener receives.
- Layout measurement (`getElementById`, `offsetTop`, `offsetHeight`): the measured bounds are an input (`Dom`), taken fresh for each event.
- Smooth scrolling on a click (`scrollIntoView`, app/page.tsx:50, 70-84): only the click's target section is modelled, not the scrolling itself.
- `window.open` and the contact anchor links (app/page.tsx:244, 275-283): side effects with nothing to state.
- The skills and education lists, project descriptions, and all JSX layout, styling and animation variants: static content and presentation.
- Sections.LowerChar, Sections.ToLower: lower-case only the ASCII letters A-Z and keep every other character, whereas JavaScript's `toLowerCase` also maps non-ASCII letters (such as 'À' to 'à'); this cannot change the outcome because every label is ASCII.
- Tracker.ReferencePoint: the page adds 100 to `scrollY` in IEEE double arithmetic, which rounds; the model adds exactly over the reals, so the rounding is not modelled. It can only change the outcome when the reference point lies within half an ulp of a section edge.
- React's state-update scheduling: `setActiveSection` is treated as taking effect before the next scroll event.
