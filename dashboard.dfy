/** What the dashboard shows: the catalog filtered by the active category
    tab, stably sorted by status, the completion count over the whole
    catalog, and the category tabs. */
module Dashboard {
  import opened Catalog
  import opened Status
  import opened Timing
  import opened Sorting

  /** The pseudo-category of the first tab, which shows every set. */
  const AllCategory: string := "すべて"

  // ---------------------------------------------------------------- filter

  /** `allSets.filter(s => s.category === category)` */
  function InCategory(sets: seq<QuestionSet>, category: string): (r: seq<QuestionSet>)
    ensures |r| <= |sets|
    ensures forall s :: multiset(r)[s] == if s.category == category then multiset(sets)[s] else 0
  {
    if sets == [] then []
    else
      assert sets == [sets[0]] + sets[1..];
      if sets[0].category == category then [sets[0]] + InCategory(sets[1..], category)
      else InCategory(sets[1..], category)
  }

  /** Both filters keep input order, so filtering a tab by status is
      filtering the statuses by tab. */
  lemma {:induction false} InCategoryCommutesWithStatus(sets: seq<QuestionSet>, category: string, p: Progress, st: Status)
    ensures WithStatus(InCategory(sets, category), p, st) == InCategory(WithStatus(sets, p, st), category)
  {
    if sets != [] {
      InCategoryCommutesWithStatus(sets[1..], category, p, st);
    }
  }

  /** The sets listed under the active tab. */
  function Filtered(catalog: seq<QuestionSet>, active: string): (r: seq<QuestionSet>)
    ensures active == AllCategory ==> r == catalog
    ensures active != AllCategory ==>
              forall s :: s in r <==> s in catalog && s.category == active
  {
    if active == AllCategory then catalog
    else
      var r := InCategory(catalog, active);
      assert forall s :: s in r <==> multiset(r)[s] > 0;
      r
  }

  // ------------------------------------------------------------------ sort

  /** The comparator's key: `statusOrder[getSetStatus(s)]`. */
  function StatusKey(p: Progress): (key: QuestionSet -> nat)
    ensures forall s :: key(s) <= 2
    ensures forall s :: key(s) == 0 <==> GetSetStatus(s, p) == Unsolved
    ensures forall s :: key(s) == 2 <==> GetSetStatus(s, p) == Solved
  {
    s => Rank(GetSetStatus(s, p))
  }

  /** `[...filteredSets].sort(...)` with the status comparator: a
      permutation of its input in non-decreasing status rank. */
  function SortByStatus(sets: seq<QuestionSet>, p: Progress): (r: seq<QuestionSet>)
    ensures multiset(r) == multiset(sets)
    ensures forall i, j :: 0 <= i < j < |r| ==>
              Rank(GetSetStatus(r[i], p)) <= Rank(GetSetStatus(r[j], p))
  {
    var r := SortBy(sets, StatusKey(p));
    assert SortedBy(r, StatusKey(p));
    r
  }

  /** The sets of one status, in input order (for `Solved` this is
      `allSets.filter(s => getSetStatus(s) === 'solved')`). */
  function WithStatus(sets: seq<QuestionSet>, p: Progress, st: Status): (r: seq<QuestionSet>)
    ensures |r| <= |sets|
    ensures forall i :: 0 <= i < |r| ==> GetSetStatus(r[i], p) == st
    ensures forall s :: multiset(r)[s] == if GetSetStatus(s, p) == st then multiset(sets)[s] else 0
  {
    if sets == [] then []
    else
      assert sets == [sets[0]] + sets[1..];
      if GetSetStatus(sets[0], p) == st then [sets[0]] + WithStatus(sets[1..], p, st)
      else WithStatus(sets[1..], p, st)
  }

  lemma {:induction false} WithStatusIsWithKey(sets: seq<QuestionSet>, p: Progress, st: Status)
    ensures WithStatus(sets, p, st) == WithKey(sets, StatusKey(p), Rank(st))
  {
    if sets != [] {
      WithStatusIsWithKey(sets[1..], p, st);
      assert StatusKey(p)(sets[0]) == Rank(GetSetStatus(sets[0], p));
    }
  }

  /** Stability: the sorted list is the unsolved sets, then the attempted,
      then the solved, each group in catalog order. */
  lemma SortByStatusIsStable(sets: seq<QuestionSet>, p: Progress)
    ensures SortByStatus(sets, p) ==
              WithStatus(sets, p, Unsolved) + WithStatus(sets, p, Attempted) + WithStatus(sets, p, Solved)
  {
    assert forall s :: StatusKey(p)(s) <= 2;
    SortIsStable(sets, StatusKey(p));
    WithStatusIsWithKey(sets, p, Unsolved);
    WithStatusIsWithKey(sets, p, Attempted);
    WithStatusIsWithKey(sets, p, Solved);
  }

  // ---------------------------------------------------------------- count

  /** The solved count is taken over the catalog: it is at least the number
      of solved sets under any tab. */
  lemma {:induction false} SolvedCountCoversTab(catalog: seq<QuestionSet>, category: string, p: Progress)
    ensures |WithStatus(InCategory(catalog, category), p, Solved)| <= |WithStatus(catalog, p, Solved)|
  {
    if catalog != [] {
      SolvedCountCoversTab(catalog[1..], category, p);
    }
  }

  // ----------------------------------------------------------------- tabs

  /** The position of the first occurrence of `x` in `xs`. */
  function FirstIndex(xs: seq<string>, x: string): (k: nat)
    requires x in xs
    ensures k < |xs| && xs[k] == x && x !in xs[..k]
  {
    if xs[0] == x then 0
    else
      var k := FirstIndex(xs[1..], x);
      assert xs[..k + 1] == [xs[0]] + xs[1..][..k];
      k + 1
  }

  /** `[...new Set(xs)]`: each value once, kept where it first appears. */
  function Distinct(xs: seq<string>): (r: seq<string>)
    ensures NoDuplicates(r)
    ensures forall x :: x in r <==> x in xs
  {
    if xs == [] then []
    else
      var init, last := xs[..|xs| - 1], xs[|xs| - 1];
      assert xs == init + [last];
      var d := Distinct(init);
      if last in d then d else d + [last]
  }

  lemma FirstIndexInPrefix(xs: seq<string>, n: nat, x: string)
    requires n <= |xs| && x in xs[..n]
    ensures FirstIndex(xs, x) == FirstIndex(xs[..n], x)
  {
  }

  /** The distinct values come in the order of their first appearance. */
  lemma {:induction false} DistinctKeepsFirstOrder(xs: seq<string>)
    ensures forall i, j :: 0 <= i < j < |Distinct(xs)| ==>
              FirstIndex(xs, Distinct(xs)[i]) < FirstIndex(xs, Distinct(xs)[j])
  {
    if xs != [] {
      var n := |xs| - 1;
      var init, last := xs[..n], xs[n];
      assert xs == init + [last];
      var d := Distinct(init);
      DistinctKeepsFirstOrder(init);
      forall x | x in d ensures FirstIndex(xs, x) == FirstIndex(init, x) {
        FirstIndexInPrefix(xs, n, x);
      }
      if last !in d {
        assert last !in init;
        assert FirstIndex(xs, last) == n;
      }
    }
  }

  /** The category of every set, in catalog order. */
  function Categories(catalog: seq<QuestionSet>): (cs: seq<string>)
    ensures |cs| == |catalog|
    ensures forall i :: 0 <= i < |catalog| ==> cs[i] == catalog[i].category
  {
    seq(|catalog|, i requires 0 <= i < |catalog| => catalog[i].category)
  }

  /** renderCategoryTabs: the "all" tab, then each category once. */
  function CategoryTabs(catalog: seq<QuestionSet>): (tabs: seq<string>)
    ensures |tabs| >= 1 && tabs[0] == AllCategory
    ensures tabs[1..] == Distinct(Categories(catalog))
    ensures NoDuplicates(tabs[1..])
    ensures forall c :: c in tabs[1..] <==> exists i :: 0 <= i < |catalog| && catalog[i].category == c
  {
    var cs := Categories(catalog);
    assert forall c :: c in cs <==> exists i :: 0 <= i < |catalog| && catalog[i].category == c;
    [AllCategory] + Distinct(cs)
  }

  // ------------------------------------------------------------ the view

  /** The content-type tag: triple reading, long passage or single. */
  datatype Kind = Triple | Long | Single

  /** What one dashboard card shows. */
  datatype Card = Card(questionSet: QuestionSet, status: Status, questionCount: nat, kind: Kind, target: Clock)

  function MakeCard(s: QuestionSet, p: Progress): (c: Card)
    ensures c.questionSet == s && c.status == GetSetStatus(s, p)
    ensures c.questionCount == |Questions(s)|
    ensures c.questionCount == (if s.body.Listed? then |s.body.questions| else 1)
    ensures s.targetTimeSec >= 0 ==> c.target.minutes * 60 + c.target.seconds == s.targetTimeSec
                                     && 0 <= c.target.seconds < 60
  {
    Card(s, GetSetStatus(s, p), |Questions(s)|,
         if s.hasPassages then Triple else if s.hasPassage then Long else Single,
         MinSec(s.targetTimeSec))
  }

  datatype View = View(cards: seq<Card>, solvedCount: nat, total: nat)

  /** One card per set, in order. */
  function Cards(sets: seq<QuestionSet>, p: Progress): (cards: seq<Card>)
    ensures |cards| == |sets|
    ensures forall i :: 0 <= i < |sets| ==> cards[i] == MakeCard(sets[i], p)
    ensures forall i :: 0 <= i < |sets| ==>
              cards[i].questionSet == sets[i] && cards[i].status == GetSetStatus(sets[i], p)
  {
    seq(|sets|, i requires 0 <= i < |sets| => MakeCard(sets[i], p))
  }

  /** renderDashboard without the HTML: the cards under the active tab in
      status order, and "solved / total" over the whole catalog. */
  function RenderDashboard(catalog: seq<QuestionSet>, active: string, p: Progress): (v: View)
    ensures |v.cards| == |Filtered(catalog, active)|
    ensures forall i :: 0 <= i < |v.cards| ==> v.cards[i].status == GetSetStatus(v.cards[i].questionSet, p)
    ensures forall i, j :: 0 <= i < j < |v.cards| ==> Rank(v.cards[i].status) <= Rank(v.cards[j].status)
    ensures v.total == |catalog| && v.solvedCount <= v.total
    ensures v.solvedCount == |WithStatus(catalog, p, Solved)|
  {
    var sorted := SortByStatus(Filtered(catalog, active), p);
    assert |sorted| == |multiset(sorted)| == |Filtered(catalog, active)|;
    View(Cards(sorted, p), |WithStatus(catalog, p, Solved)|, |catalog|)
  }

  /** The cards show exactly the sets under the active tab: with the "all"
      tab the whole catalog, otherwise the sets of that category. */
  lemma RenderDashboardShowsTab(catalog: seq<QuestionSet>, active: string, p: Progress, s: QuestionSet)
    ensures (exists i :: 0 <= i < |RenderDashboard(catalog, active, p).cards| &&
                         RenderDashboard(catalog, active, p).cards[i].questionSet == s)
            <==> (s in catalog && (active == AllCategory || s.category == active))
  {
    var shown := Filtered(catalog, active);
    var sorted := SortByStatus(shown, p);
    var cards := RenderDashboard(catalog, active, p).cards;
    assert cards == Cards(sorted, p);
    assert s in sorted <==> s in multiset(sorted);
    assert s in shown <==> s in multiset(shown);
    if s in sorted {
      var i :| 0 <= i < |sorted| && sorted[i] == s;
      assert cards[i].questionSet == s;
    }
  }

  /** The completion count does not depend on which tab is active. */
  lemma SolvedCountIgnoresTab(catalog: seq<QuestionSet>, c1: string, c2: string, p: Progress)
    ensures RenderDashboard(catalog, c1, p).solvedCount == RenderDashboard(catalog, c2, p).solvedCount
  {
  }
}
