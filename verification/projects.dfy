/** The projects block: one card per project in list order, with a
    "View Project" button only on cards whose link is not the "#" placeholder. */
module Projects {

  /** A project record; its prose description is not carried. */
  datatype Project = Project(title: string, link: string, technologies: seq<string>)

  /** The link value that marks a project as having nothing to open. */
  const Placeholder: string := "#"

  /** The card of p shows a "View Project" button. */
  predicate ShowsViewProject(p: Project) {
    p.link != Placeholder
  }

  /** Positions, in list order, of the cards that show a "View Project" button. */
  function ViewProjectCards(ps: seq<Project>): (r: seq<nat>)
    ensures forall a :: 0 <= a < |r| ==> r[a] < |ps| && ShowsViewProject(ps[r[a]])
    ensures forall i :: 0 <= i < |ps| && ShowsViewProject(ps[i]) ==> i in r
    ensures forall a, b :: 0 <= a < b < |r| ==> r[a] < r[b]
    decreases |ps|
  {
    if |ps| == 0 then []
    else
      var last := |ps| - 1;
      var front := ViewProjectCards(ps[..last]);
      assert forall a :: 0 <= a < |front| ==> ps[..last][front[a]] == ps[front[a]];
      front + (if ShowsViewProject(ps[last]) then [last] else [])
  }

  /** The portfolio's own project list. */
  const Portfolio: seq<Project> := [
    Project("Library Management Web System", "https://nextjs-library-management-2ezx.vercel.app/en",
            ["TypeScript", "MySQL", "React.js", "Express.js", "RazorPay", "Google OAuth"]),
    Project("Bill Splitter", "#", ["React.js", "Node.js", "MongoDB", "Socket.io"]),
    Project("Data Visualization Dashboard", "#", ["D3.js", "React", "Node.js", "Express.js"])
  ]

  /** Of the three listed projects only the first has a real link, so exactly one
      "View Project" button is rendered, on the first card. */
  lemma PortfolioHasOneViewProject()
    ensures ViewProjectCards(Portfolio) == [0]
  {
    var r := ViewProjectCards(Portfolio);
    assert ShowsViewProject(Portfolio[0]);
    assert !ShowsViewProject(Portfolio[1]) && !ShowsViewProject(Portfolio[2]);
    assert 0 in r;
    assert forall a :: 0 <= a < |r| ==> r[a] < 1;
    IncreasingBounded(r, 1);
  }

  /** A strictly increasing sequence of naturals all below n has at most n entries. */
  lemma {:induction false} IncreasingBounded(r: seq<nat>, n: nat)
    requires forall a, b :: 0 <= a < b < |r| ==> r[a] < r[b]
    requires forall a :: 0 <= a < |r| ==> r[a] < n
    ensures |r| <= n
    decreases n
  {
    if |r| > 0 {
      var front := r[..|r| - 1];
      assert forall a :: 0 <= a < |front| ==> front[a] < r[|r| - 1];
      IncreasingBounded(front, r[|r| - 1]);
    }
  }
}
