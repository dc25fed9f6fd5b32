/** The portfolio section: a fixed list of projects, category buttons, and the
    delayed update of the projects on show when the category changes. */
module Portfolio {

  /** A project card (its image and description are left out). */
  datatype Project = Project(id: nat, title: string, category: string)

  /** The category that shows every project. */
  const All: string := "All"

  const Categories: seq<string> := ["All", "PVC Art", "Sign Boards", "Client Works", "3D Lettering"]

  const Projects: seq<Project> := [
    Project(1, "Sayadri The Juice Farm", "Client Works"),
    Project(2, "Neon Coffee Shop Signage", "Sign Boards"),
    Project(3, "Geometric Room Divider", "PVC Art"),
    Project(4, "Corporate Office Branding", "3D Lettering"),
    Project(5, "Backlit Storefront Facade", "Sign Boards"),
    Project(6, "Custom House Nameplate", "PVC Art")
  ]

  /** Whether `a` is `b` with some elements removed, the rest kept in order. */
  predicate IsSubsequence(a: seq<Project>, b: seq<Project>)
    decreases |b|
  {
    if a == [] then true
    else if b == [] then false
    else if a[0] == b[0] then IsSubsequence(a[1..], b[1..])
    else IsSubsequence(a, b[1..])
  }

  /** `projects.filter(p => p.category === category)`. */
  function Filter(projects: seq<Project>, category: string): (r: seq<Project>)
    ensures forall p :: p in r <==> p in projects && p.category == category
  {
    if projects == [] then []
    else
      var rest := Filter(projects[1..], category);
      assert forall p :: p in projects <==> p == projects[0] || p in projects[1..];
      if projects[0].category == category then [projects[0]] + rest else rest
  }

  /** The filter keeps exactly the projects of the category, each as often as
      it occurs, in their original order. */
  lemma {:induction false} FilterExact(projects: seq<Project>, category: string)
    ensures var r := Filter(projects, category);
      && IsSubsequence(r, projects)
      && forall p :: multiset(r)[p] == if p.category == category then multiset(projects)[p] else 0
  {
    if projects != [] {
      FilterExact(projects[1..], category);
      assert projects == [projects[0]] + projects[1..];
    }
  }

  /** The projects on show once the effect for `category` has completed. */
  function VisibleFor(category: string): seq<Project>
  {
    if category == All then Projects else Filter(Projects, category)
  }

  /** Number of entries of `categories` equal to `c`. */
  function CountOf(categories: seq<string>, c: string): nat
  {
    if categories == [] then 0 else (if categories[0] == c then 1 else 0) + CountOf(categories[1..], c)
  }

  /** Whether no category is listed twice. */
  predicate Distinct(categories: seq<string>)
  {
    forall i, j :: 0 <= i < j < |categories| ==> categories[i] != categories[j]
  }

  lemma {:induction false} CountOfDistinct(categories: seq<string>, c: string)
    requires Distinct(categories)
    ensures CountOf(categories, c) == if c in categories then 1 else 0
  {
    if categories != [] {
      CountOfDistinct(categories[1..], c);
    }
  }

  /** Total number of projects the filters of `categories` show. */
  function FilteredCount(projects: seq<Project>, categories: seq<string>): nat
  {
    if categories == [] then 0 else |Filter(projects, categories[0])| + FilteredCount(projects, categories[1..])
  }

  lemma {:induction false} FilteredCountNone(categories: seq<string>)
    ensures FilteredCount([], categories) == 0
  {
    if categories != [] {
      FilteredCountNone(categories[1..]);
    }
  }

  lemma {:induction false} FilteredCountStep(projects: seq<Project>, categories: seq<string>)
    requires projects != []
    ensures FilteredCount(projects, categories)
         == FilteredCount(projects[1..], categories) + CountOf(categories, projects[0].category)
  {
    if categories != [] {
      FilteredCountStep(projects, categories[1..]);
    }
  }

  /** When every project's category is among a list of distinct categories,
      the filters for those categories partition the projects: each project is
      shown by exactly one of them, and together they show as many projects as
      there are. */
  lemma {:induction false} FiltersPartition(projects: seq<Project>, categories: seq<string>)
    requires Distinct(categories)
    requires forall p :: p in projects ==> p.category in categories
    ensures FilteredCount(projects, categories) == |projects|
    ensures forall p :: p in projects ==> CountOf(categories, p.category) == 1
  {
    if projects == [] {
      FilteredCountNone(categories);
    } else {
      FiltersPartition(projects[1..], categories);
      FilteredCountStep(projects, categories);
      CountOfDistinct(categories, projects[0].category);
      forall p | p in projects ensures CountOf(categories, p.category) == 1 {
        CountOfDistinct(categories, p.category);
      }
    }
  }

  /** For the shipped data, the buttons other than "All" partition the
      projects: every project is shown by exactly one of them. */
  lemma ShippedFiltersPartition()
    ensures FilteredCount(Projects, Categories[1..]) == |Projects|
    ensures forall p :: p in Projects ==> CountOf(Categories[1..], p.category) == 1
  {
    var buttons := Categories[1..];
    assert Distinct(buttons);
    assert forall p :: p in Projects ==> p.category in buttons;
    FiltersPartition(Projects, buttons);
  }

  /** For the shipped data, every button shows at least one project, so the
      empty state cannot be reached from the buttons. */
  lemma ShippedCategoriesNonEmpty(i: nat)
    requires i < |Categories|
    ensures |VisibleFor(Categories[i])| >= 1
  {
    if i == 1 {
      assert Projects[2] in VisibleFor(Categories[1]);
    } else if i == 2 {
      assert Projects[1] in VisibleFor(Categories[2]);
    } else if i == 3 {
      assert Projects[0] in VisibleFor(Categories[3]);
    } else if i == 4 {
      assert Projects[3] in VisibleFor(Categories[4]);
    }
  }

  /** The section's state. */
  class PortfolioSection {
    var activeCategory: string
    var visibleProjects: seq<Project>
    var isAnimating: bool
    /** Whether the 300 ms update is scheduled and not cancelled. */
    var timerPending: bool

    /** The cards are animating exactly while an update is pending; once it
        has run, the cards shown are those of the active category. */
    ghost predicate Valid()
      reads this
    {
      isAnimating == timerPending
      && (!timerPending ==> visibleProjects == VisibleFor(activeCategory))
    }

    /** Mounting: the state starts at "All" with every project, and the effect
        runs once, starting the animation and scheduling the update. */
    constructor ()
      ensures Valid()
      ensures activeCategory == All && visibleProjects == Projects && isAnimating && timerPending
    {
      activeCategory := All;
      visibleProjects := Projects;
      isAnimating := true;
      timerPending := true;
    }

    /** A click on a category button. Selecting the active category changes
        no state, so the effect does not run; any other category starts the
        animation and replaces a pending update with a new one. */
    method SelectCategory(category: string)
      requires Valid()
      modifies this
      ensures Valid()
      ensures activeCategory == category && visibleProjects == old(visibleProjects)
      ensures category == old(activeCategory) ==> isAnimating == old(isAnimating) && timerPending == old(timerPending)
      ensures category != old(activeCategory) ==> isAnimating && timerPending
    {
      if category != activeCategory {
        activeCategory := category;
        isAnimating := true;
        timerPending := true;
      }
    }

    /** The scheduled update firing: show the active category's projects and
        end the animation. */
    method UpdateElapsed()
      requires Valid() && timerPending
      modifies this
      ensures Valid()
      ensures activeCategory == old(activeCategory)
      ensures visibleProjects == VisibleFor(activeCategory) && !isAnimating && !timerPending
    {
      if activeCategory == All {
        visibleProjects := Projects;
      } else {
        visibleProjects := Filter(Projects, activeCategory);
      }
      isAnimating := false;
      timerPending := false;
    }
  }
}
