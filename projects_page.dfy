/**
 * The logic of the projects page: the category-and-search filter over the
 * catalogue, the class a status pill takes, the chips a project card
 * shows, the filter buttons and the "Clear filters" reset.
 */
module ProjectsPage {
  import opened Optional
  import opened Text
  import opened Catalogue

  // ---------------------------------------------------------------------------
  // The filter
  // ---------------------------------------------------------------------------

  /**
   * The search text as the filter uses it: trimmed, then lower-cased. The
   * order of the two steps does not matter, and the result is empty exactly
   * when the search box holds nothing but whitespace.
   */
  function NormalizeQuery(searchQuery: string): (q: string)
    ensures q == Trim(Lower(searchQuery))
    ensures q == [] <==> AllWhitespace(searchQuery)
  {
    TrimLowerCommute(searchQuery);
    Lower(Trim(searchQuery))
  }

  predicate MatchesCategory(selectedCategory: string, p: Project) {
    selectedCategory == AllCategories || p.category == selectedCategory
  }

  /** `q` is already normalised; only the name and the tagline are searched. */
  predicate MatchesSearch(q: string, p: Project) {
    |q| == 0 || Includes(Lower(p.name), q) || Includes(Lower(p.tagline), q)
  }

  predicate Keep(selectedCategory: string, q: string, p: Project) {
    MatchesCategory(selectedCategory, p) && MatchesSearch(q, p)
  }

  /**
   * The filter's predicate spelled out: "All" or the project's own category
   * is selected, and the query is empty or occurs somewhere in the
   * lower-cased name or the lower-cased tagline.
   */
  lemma KeepMeansBothMatch(selectedCategory: string, q: string, p: Project)
    ensures Keep(selectedCategory, q, p) <==>
      && (selectedCategory == AllCategories || p.category == selectedCategory)
      && (q == [] || (exists i :: OccursAt(Lower(p.name), q, i)) || (exists i :: OccursAt(Lower(p.tagline), q, i)))
  {
  }

  /**
   * Array.prototype.filter with the page's predicate, for a normalised
   * query `q`: the projects kept are exactly those whose category and
   * search both match, and under a selected category every project kept
   * has that category.
   */
  function Filter(ps: seq<Project>, selectedCategory: string, q: string): (r: seq<Project>)
    ensures |r| <= |ps|
    ensures forall p :: p in r <==> p in ps && Keep(selectedCategory, q, p)
    ensures selectedCategory != AllCategories ==> forall p :: p in r ==> p.category == selectedCategory
  {
    if ps == [] then []
    else
      var rest := Filter(ps[1..], selectedCategory, q);
      assert forall p :: p in ps <==> p == ps[0] || p in ps[1..] by {
        assert ps == [ps[0]] + ps[1..];
      }
      if Keep(selectedCategory, q, ps[0]) then [ps[0]] + rest else rest
  }

  /** The memoised list the page renders for a category button and a search box value. */
  function FilteredProjects(ps: seq<Project>, selectedCategory: string, searchQuery: string): (r: seq<Project>)
    ensures |r| <= |ps|
    ensures forall p :: p in r <==>
      (p in ps && MatchesCategory(selectedCategory, p) &&
       (AllWhitespace(searchQuery) || MatchesSearch(Trim(Lower(searchQuery)), p)))
    ensures selectedCategory != AllCategories ==> forall p :: p in r ==> p.category == selectedCategory
  {
    Filter(ps, selectedCategory, NormalizeQuery(searchQuery))
  }

  /** `idx` is a strictly increasing list of positions of `ps` that picks out `r`. */
  ghost predicate PicksOut(ps: seq<Project>, idx: seq<nat>, r: seq<Project>) {
    && |idx| == |r|
    && (forall k :: 0 <= k < |idx| ==> idx[k] < |ps| && ps[idx[k]] == r[k])
    && (forall k, l :: 0 <= k < l < |idx| ==> idx[k] < idx[l])
  }

  /**
   * The filter result is a subsequence of its input (order kept, nothing
   * added), and position `i` of the input is among those picked exactly
   * when `ps[i]` satisfies the predicate: duplicates are kept or dropped
   * one by one, in place.
   */
  lemma {:induction false} FilterIsSubsequence(ps: seq<Project>, selectedCategory: string, q: string)
    returns (idx: seq<nat>)
    ensures PicksOut(ps, idx, Filter(ps, selectedCategory, q))
    ensures forall i :: 0 <= i < |ps| ==> (i in idx <==> Keep(selectedCategory, q, ps[i]))
  {
    if ps == [] {
      idx := [];
    } else {
      var rest := Filter(ps[1..], selectedCategory, q);
      var tail := FilterIsSubsequence(ps[1..], selectedCategory, q);
      var shifted := Shift(tail);
      ShiftedPicksOut(ps, tail, rest);
      assert forall i :: 1 <= i < |ps| ==> ps[i] == ps[1..][i - 1];
      if Keep(selectedCategory, q, ps[0]) {
        idx := [0] + shifted;
        ConsPicksOut(ps, shifted, rest);
      } else {
        idx := shifted;
      }
    }
  }

  /** Every position moved one place to the right. */
  function Shift(idx: seq<nat>): (r: seq<nat>)
    ensures |r| == |idx| && forall k :: 0 <= k < |idx| ==> r[k] == idx[k] + 1
  {
    seq(|idx|, k requires 0 <= k < |idx| => idx[k] + 1)
  }

  /** Positions that pick `r` out of the tail of `ps`, shifted by one, pick `r` out of `ps`. */
  lemma ShiftedPicksOut(ps: seq<Project>, tail: seq<nat>, r: seq<Project>)
    requires ps != [] && PicksOut(ps[1..], tail, r)
    ensures PicksOut(ps, Shift(tail), r)
    ensures 0 !in Shift(tail)
    ensures forall i :: 1 <= i < |ps| ==> (i in Shift(tail) <==> i - 1 in tail)
  {
    var shifted := Shift(tail);
    forall k | 0 <= k < |shifted| ensures shifted[k] < |ps| && ps[shifted[k]] == r[k] {
      assert ps[shifted[k]] == ps[1..][tail[k]];
    }
    forall i | 1 <= i < |ps| ensures i in shifted <==> i - 1 in tail {
      if i - 1 in tail {
        var k :| 0 <= k < |tail| && tail[k] == i - 1;
        assert shifted[k] == i;
      }
    }
  }

  /** Position 0 in front of positions past 0 picks the head of `ps` in front. */
  lemma ConsPicksOut(ps: seq<Project>, idx: seq<nat>, r: seq<Project>)
    requires ps != [] && PicksOut(ps, idx, r) && 0 !in idx
    ensures PicksOut(ps, [0] + idx, [ps[0]] + r)
  {
    var idx' := [0] + idx;
    forall k, l | 0 <= k < l < |idx'| ensures idx'[k] < idx'[l] {
      if k > 0 {
        assert idx'[k] == idx[k - 1] && idx'[l] == idx[l - 1];
      } else {
        assert idx[l - 1] in idx;
      }
    }
  }

  /** A filter that keeps nothing returns nothing. */
  lemma {:induction false} FilterDropsAll(ps: seq<Project>, selectedCategory: string, q: string)
    requires forall p :: p in ps ==> !Keep(selectedCategory, q, p)
    ensures Filter(ps, selectedCategory, q) == []
  {
    if ps != [] {
      assert ps[0] in ps;
      assert forall p :: p in ps[1..] ==> p in ps;
      FilterDropsAll(ps[1..], selectedCategory, q);
    }
  }

  /** Filtering distributes over concatenation. */
  lemma {:induction false} FilterAppend(a: seq<Project>, b: seq<Project>, selectedCategory: string, q: string)
    ensures Filter(a + b, selectedCategory, q) == Filter(a, selectedCategory, q) + Filter(b, selectedCategory, q)
  {
    if a == [] {
      assert a + b == b;
    } else {
      var x, t := a[0], a[1..];
      SplitHead(a, b);
      FilterAppend(t, b, selectedCategory, q);
      FilterCons(x, t, selectedCategory, q);
      FilterCons(x, t + b, selectedCategory, q);
      ConsAppend(x, Filter(t, selectedCategory, q), Filter(b, selectedCategory, q));
    }
  }

  /** A non-empty list is its head followed by its tail, also when something is appended. */
  lemma SplitHead(a: seq<Project>, b: seq<Project>)
    requires a != []
    ensures a == [a[0]] + a[1..] && a + b == [a[0]] + (a[1..] + b)
  {
  }

  /** Consing onto a concatenation is consing onto its first part. */
  lemma ConsAppend(x: Project, u: seq<Project>, v: seq<Project>)
    ensures [x] + (u + v) == [x] + u + v
  {
  }

  /** One step of the filter: the head is kept or dropped, then the tail is filtered. */
  lemma FilterCons(x: Project, t: seq<Project>, selectedCategory: string, q: string)
    ensures Filter([x] + t, selectedCategory, q) ==
      if Keep(selectedCategory, q, x) then [x] + Filter(t, selectedCategory, q)
      else Filter(t, selectedCategory, q)
  {
    assert ([x] + t)[0] == x && ([x] + t)[1..] == t;
  }

  /** A filter that keeps every project returns its input unchanged. */
  lemma {:induction false} FilterKeepsAll(ps: seq<Project>, selectedCategory: string, q: string)
    requires forall p :: p in ps ==> Keep(selectedCategory, q, p)
    ensures Filter(ps, selectedCategory, q) == ps
  {
    if ps != [] {
      assert ps[0] in ps;
      assert forall p :: p in ps[1..] ==> p in ps;
      FilterKeepsAll(ps[1..], selectedCategory, q);
    }
  }

  /** With "All" selected and a blank search box the page shows the whole catalogue. */
  lemma AllAndBlankShowsEverything(ps: seq<Project>, searchQuery: string)
    requires AllWhitespace(searchQuery)
    ensures FilteredProjects(ps, AllCategories, searchQuery) == ps
  {
    var q := NormalizeQuery(searchQuery);
    assert q == [] by {
      assert Trim(searchQuery) == [];
    }
    forall p | p in ps ensures Keep(AllCategories, q, p) {
    }
    FilterKeepsAll(ps, AllCategories, q);
  }

  /** The search ignores case: queries equal up to case give the same list. */
  lemma SearchIgnoresCase(ps: seq<Project>, selectedCategory: string, query: string, query': string)
    requires Lower(query) == Lower(query')
    ensures FilteredProjects(ps, selectedCategory, query) == FilteredProjects(ps, selectedCategory, query')
  {
    TrimLowerCommute(query);
    TrimLowerCommute(query');
  }

  /** In particular typing the query in capitals changes nothing. */
  lemma SearchIgnoresUpperCase(ps: seq<Project>, selectedCategory: string, query: string)
    ensures FilteredProjects(ps, selectedCategory, Upper(query)) == FilteredProjects(ps, selectedCategory, query)
  {
    LowerOfUpper(query);
    SearchIgnoresCase(ps, selectedCategory, Upper(query), query);
  }

  /** The search ignores whitespace typed before or after the query. */
  lemma SearchIgnoresSurroundingWhitespace(
    ps: seq<Project>, selectedCategory: string, before: string, query: string, after: string)
    requires AllWhitespace(before) && AllWhitespace(after)
    ensures FilteredProjects(ps, selectedCategory, before + query + after)
         == FilteredProjects(ps, selectedCategory, query)
  {
    TrimIgnoresPadding(before, query, after);
  }

  /** `p'` differs from `p` at most in its id, status, tech and features. */
  predicate SameSearchFields(p: Project, p': Project) {
    p.name == p'.name && p.tagline == p'.tagline && p.category == p'.category
  }

  /** Position by position, the two lists agree on name, tagline and category. */
  predicate SameSearchColumns(ps: seq<Project>, ps': seq<Project>) {
    |ps| == |ps'| && forall i :: 0 <= i < |ps| ==> SameSearchFields(ps[i], ps'[i])
  }

  /**
   * The search reads only the name and the tagline (and the filter only
   * the category besides): editing every other field of the projects, for
   * instance adding the query to a tech or a feature, keeps and drops the
   * same positions.
   */
  lemma {:induction false} SearchReadsOnlyNameAndTagline(
    ps: seq<Project>, ps': seq<Project>, selectedCategory: string, q: string)
    requires SameSearchColumns(ps, ps')
    ensures forall i :: 0 <= i < |ps| ==> (Keep(selectedCategory, q, ps[i]) <==> Keep(selectedCategory, q, ps'[i]))
    ensures SameSearchColumns(Filter(ps, selectedCategory, q), Filter(ps', selectedCategory, q))
  {
    forall i | 0 <= i < |ps|
      ensures Keep(selectedCategory, q, ps[i]) <==> Keep(selectedCategory, q, ps'[i])
    {
      assert SameSearchFields(ps[i], ps'[i]);
    }
    if ps != [] {
      var tail, tail' := ps[1..], ps'[1..];
      SameSearchColumnsTail(ps, ps');
      SearchReadsOnlyNameAndTagline(tail, tail', selectedCategory, q);
      var f, f' := Filter(tail, selectedCategory, q), Filter(tail', selectedCategory, q);
      assert SameSearchFields(ps[0], ps'[0]);
      if Keep(selectedCategory, q, ps[0]) {
        assert Keep(selectedCategory, q, ps'[0]);
        SameSearchColumnsCons(ps[0], f, ps'[0], f');
      } else {
        assert !Keep(selectedCategory, q, ps'[0]);
      }
    }
  }

  lemma SameSearchColumnsTail(ps: seq<Project>, ps': seq<Project>)
    requires ps != [] && SameSearchColumns(ps, ps')
    ensures SameSearchColumns(ps[1..], ps'[1..])
  {
    forall i | 0 <= i < |ps| - 1 ensures SameSearchFields(ps[1..][i], ps'[1..][i]) {
      assert ps[1..][i] == ps[i + 1] && ps'[1..][i] == ps'[i + 1];
    }
  }

  lemma SameSearchColumnsCons(p: Project, f: seq<Project>, p': Project, f': seq<Project>)
    requires SameSearchFields(p, p') && SameSearchColumns(f, f')
    ensures SameSearchColumns([p] + f, [p'] + f')
  {
    forall i | 0 <= i < |f| + 1 ensures SameSearchFields(([p] + f)[i], ([p'] + f')[i]) {
      if i > 0 { assert ([p] + f)[i] == f[i - 1] && ([p'] + f')[i] == f'[i - 1]; }
    }
  }

  /**
   * Every category button other than "All" shows at least one project
   * while the search box is empty.
   */
  lemma CategoryButtonsNeverEmpty(ps: seq<Project>, category: string)
    requires category in Categories(ps)[1..]
    ensures FilteredProjects(ps, category, "") != []
  {
    var column := CategoryColumn(ps);
    assert Categories(ps)[1..] == Distinct(column);
    assert category in column;
    var i :| 0 <= i < |column| && column[i] == category;
    EmptyQuery();
    assert Keep(category, [], ps[i]);
    assert ps[i] in ps;
  }

  /** An empty search box normalises to the empty query. */
  lemma EmptyQuery()
    ensures NormalizeQuery("") == []
  {
    assert Trim("") == [];
  }

  /** The "Healthcare" button of the shipped catalogue shows its two healthcare projects, in order. */
  lemma CatalogueHealthcare()
    ensures FilteredProjects(ProjectList(), "Healthcare", "") == [Veritas, Synapse]
  {
    EmptyQuery();
    HealthcareFilter();
  }

  /** The "Healthcare" filter on the shipped catalogue, with the empty query. */
  lemma HealthcareFilter()
    ensures Filter(ProjectList(), "Healthcare", "") == [Veritas, Synapse]
  {
    var before := [Galileo, AuroraNav, Brainiac, BioPharma, Orion, Spectra, Sage];
    var healthcare := [Veritas, Synapse];
    assert ProjectList() == before + healthcare + [Patent];
    HealthcareSkipsOthers(before, [Patent]);
    HealthcareKeepsMedical();
    FilterAppend(before, healthcare, "Healthcare", "");
    FilterAppend(before + healthcare, [Patent], "Healthcare", "");
  }

  /** None of the first seven projects nor the last one is filed under "Healthcare". */
  lemma HealthcareSkipsOthers(before: seq<Project>, after: seq<Project>)
    requires before == [Galileo, AuroraNav, Brainiac, BioPharma, Orion, Spectra, Sage]
    requires after == [Patent]
    ensures Filter(before, "Healthcare", "") == [] && Filter(after, "Healthcare", "") == []
  {
    FilterDropsAll(before, "Healthcare", "");
    FilterDropsAll(after, "Healthcare", "");
  }

  /** Veritas and Synapse are both filed under "Healthcare". */
  lemma HealthcareKeepsMedical()
    ensures Filter([Veritas, Synapse], "Healthcare", "") == [Veritas, Synapse]
  {
    FilterKeepsAll([Veritas, Synapse], "Healthcare", "");
  }

  // ---------------------------------------------------------------------------
  // Page state: the category button and the search box
  // ---------------------------------------------------------------------------

  /** The two inputs of the page. */
  datatype PageState = PageState(selectedCategory: string, searchQuery: string)

  /** The projects the page shows in a state. */
  function Visible(ps: seq<Project>, s: PageState): seq<Project> {
    FilteredProjects(ps, s.selectedCategory, s.searchQuery)
  }

  /** The page opens with "All" selected and an empty search box. */
  function InitialState(): (s: PageState)
    ensures s.selectedCategory == AllCategories && s.searchQuery == ""
    ensures forall ps :: Visible(ps, s) == ps
  {
    var s := PageState(AllCategories, "");
    forall ps: seq<Project> ensures Visible(ps, s) == ps {
      AllAndBlankShowsEverything(ps, "");
    }
    s
  }

  /** The "Clear filters" button appears exactly when nothing matches. */
  predicate ShowsClearFilters(ps: seq<Project>, s: PageState) {
    Visible(ps, s) == []
  }

  /** The "Clear filters" button is shown exactly when no project passes the filter's predicate. */
  lemma ShowsClearFiltersWhenNothingMatches(ps: seq<Project>, s: PageState)
    ensures ShowsClearFilters(ps, s) <==>
      forall p :: p in ps ==> !Keep(s.selectedCategory, NormalizeQuery(s.searchQuery), p)
  {
    var r := Visible(ps, s);
    if r != [] {
      assert r[0] in r;
    }
  }

  /**
   * "Clear filters": selects "All" and empties the search box, after which
   * the whole catalogue is shown and, for a non-empty catalogue, the
   * button disappears.
   */
  function ClearFilters(s: PageState): (t: PageState)
    ensures t.selectedCategory == AllCategories && t.searchQuery == ""
    ensures forall ps :: Visible(ps, t) == ps
    ensures forall ps :: ps != [] ==> !ShowsClearFilters(ps, t)
  {
    InitialState()
  }

  /** A category button is highlighted when it is the selected category. */
  predicate IsActive(s: PageState, category: string) {
    s.selectedCategory == category
  }

  /**
   * When no project is itself filed under "All", the category list has no
   * repetition at all, so exactly one button is highlighted whenever the
   * selected category is one of the buttons.
   */
  lemma OneActiveButton(ps: seq<Project>, s: PageState)
    requires forall p :: p in ps ==> p.category != AllCategories
    requires s.selectedCategory in Categories(ps)
    ensures exists i :: 0 <= i < |Categories(ps)| && IsActive(s, Categories(ps)[i])
    ensures forall i, j :: 0 <= i < j < |Categories(ps)| ==>
      !(IsActive(s, Categories(ps)[i]) && IsActive(s, Categories(ps)[j]))
  {
    var cs := Categories(ps);
    CategoriesListEachCategoryOnce(ps);
    assert AllCategories !in cs[1..];
    forall i, j | 0 <= i < j < |cs| ensures cs[i] != cs[j] {
      if i == 0 {
        assert cs[j] in cs[1..];
      } else {
        assert cs[i] == cs[1..][i - 1] && cs[j] == cs[1..][j - 1];
      }
    }
  }

  // ---------------------------------------------------------------------------
  // Status pill and card chips
  // ---------------------------------------------------------------------------

  const ProductionClass: string := "border-emerald-400/30 bg-emerald-400/10 text-emerald-300"
  const ActiveClass: string := "border-cyan-400/30 bg-cyan-400/10 text-cyan-300"
  const BetaClass: string := "border-amber-400/30 bg-amber-400/10 text-amber-300"
  const ResearchClass: string := "border-violet-400/30 bg-violet-400/10 text-violet-300"
  const NeutralClass: string := "border-white/20 bg-white/5 text-atlas-text-secondary"

  /** The statuses that have a colour of their own. */
  const ColouredStatuses: seq<string> := ["Production", "Active", "Beta", "Research"]

  /**
   * The colour classes of a status pill: each coloured status has its own
   * class, and every other status (such as "Private") falls back to the
   * neutral class.
   */
  function StatusClass(status: string): (cls: string)
    ensures cls == NeutralClass <==> status !in ColouredStatuses
    ensures status == "Production" <==> cls == ProductionClass
    ensures status == "Active" <==> cls == ActiveClass
    ensures status == "Beta" <==> cls == BetaClass
    ensures status == "Research" <==> cls == ResearchClass
  {
    if status == "Production" then ProductionClass
    else if status == "Active" then ActiveClass
    else if status == "Beta" then BetaClass
    else if status == "Research" then ResearchClass
    else NeutralClass
  }

  /** What a card shows of a project's feature and tech lists. */
  datatype Chips = Chips(features: seq<string>, overflow: Option<nat>, tech: seq<string>)

  function Min(a: int, b: int): int {
    if a <= b then a else b
  }

  /**
   * A card shows the first three features, a "+N" chip counting the rest
   * when there are more than three, and the first four technologies.
   */
  function CardChips(p: Project): (c: Chips)
    ensures |c.features| == Min(3, |p.features|) && c.features == p.features[..|c.features|]
    ensures c.overflow.Some? <==> |p.features| > 3
    ensures c.overflow.Some? ==> c.overflow.value > 0 && |c.features| + c.overflow.value == |p.features|
    ensures c.overflow.None? ==> c.features == p.features
    ensures |c.tech| == Min(4, |p.tech|) && c.tech == p.tech[..|c.tech|]
  {
    var shown := if |p.features| <= 3 then p.features else p.features[..3];
    var tech := if |p.tech| <= 4 then p.tech else p.tech[..4];
    Chips(shown, if |p.features| > 3 then Some(|p.features| - 3) else None, tech)
  }
}
