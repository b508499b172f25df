/**
 * The static project catalogue of the website and the two tables derived
 * from it: the list of filter categories ("All" followed by the distinct
 * project categories in order of first appearance) and the lookup of a
 * project by its id.
 */
module Catalogue {
  import opened Optional

  /**
   * One entry of the catalogue. The description, colour, icon and
   * repository link are only displayed, so they are not part of the model.
   */
  datatype Project = Project(
    id: string,
    name: string,
    tagline: string,
    category: string,
    status: string,
    tech: seq<string>,
    features: seq<string>)

  /** The category every filter list starts with; selecting it disables the category filter. */
  const AllCategories: string := "All"

  /** The catalogue as the website ships it, in display order. */
  function ProjectList(): seq<Project> {
    [Galileo, AuroraNav, Brainiac, BioPharma, Orion, Spectra, Sage, Veritas, Synapse, Patent]
  }

  const Galileo: Project :=
    Project("galileo", "GALILEO V2.0",
      "Enterprise-Grade AI-Enhanced Space-Based Geophysical Sensing Platform",
      "Space & Geophysics", "Production",
      ["Python", "JAX", "FastAPI", "Next.js", "PostgreSQL", "TimescaleDB"],
      ["Orbit propagation", "Formation flying", "PINN models", "Inversion"])

  const AuroraNav: Project :=
    Project("aurora-nav", "AURORA-NAV",
      "Multi-Sensor Fusion for GPS-Denied Undersea Navigation",
      "Maritime & Defense", "Active",
      ["Python", "FastAPI", "React", "PostgreSQL", "TensorFlow"],
      ["INS/DVL simulation", "EKF fusion", "Acoustic modeling", "Multi-AUV"])

  const Brainiac: Project :=
    Project("brainiac", "BRAINIAC",
      "Brain Connectivity Mapping with Graph Neural Networks",
      "Neuroscience", "Research",
      ["Python", "PyTorch", "PyG", "FastAPI", "PostgreSQL"],
      ["Multi-modal imaging", "GNN suites", "Graph AEs", "3D viz"])

  const BioPharma: Project :=
    Project("biopharma", "P.R.O.M.E.T.H.E.U.S.",
      "AI-Powered Pharmaceutical Research Platform",
      "Biomedical", "Active",
      ["Python", "PyTorch", "RDKit", "FastAPI", "Next.js", "PostgreSQL"],
      ["De novo generation", "SAR prediction", "ADMET", "Trial optimization"])

  const Orion: Project :=
    Project("orion", "O.R.I.O.N.",
      "Computational Materials Research Operating System",
      "Materials Science", "Active",
      ["Python", "FastAPI", "Next.js", "PostgreSQL", "Redis", "Celery"],
      ["DFT/MD", "GNN predictions", "Bayes opt", "Workflows"])

  const Spectra: Project :=
    Project("spectra", "SPECTRA-Lab",
      "Enterprise Semiconductor Characterization Platform",
      "Semiconductor", "Production",
      ["Python", "FastAPI", "Next.js", "PostgreSQL", "Redis", "WebSocket"],
      ["Telemetry", "SPC dashboards", "Predictive maintenance", "Yield ML"])

  const Sage: Project :=
    Project("sage", "SAGE.AI",
      "ML-Powered Academic Integrity Platform",
      "Academic", "Active",
      ["Python", "FastAPI", "Elasticsearch", "PostgreSQL", "Ray"],
      ["Similarity", "Anomaly detection", "Image forensics", "Citations"])

  const Veritas: Project :=
    Project("veritas", "Veritas Medical",
      "AI-Powered Medical Diagnostics Platform",
      "Healthcare", "Beta",
      ["Python", "PyTorch", "FastAPI", "PostgreSQL", "DICOM"],
      ["Imaging", "CDS", "EHR integration", "Audit trails"])

  const Synapse: Project :=
    Project("synapse", "Synapse Medical AI",
      "Real-Time Medical AI Infrastructure",
      "Healthcare", "Private",
      ["Python", "FastAPI", "Triton", "PostgreSQL", "Kubernetes"],
      ["Inference", "Versioning", "FHIR support", "A/B testing"])

  const Patent: Project :=
    Project("patent", "Patent Filing Platform",
      "Streamlined Intellectual Property Management",
      "Legal Tech", "Private",
      ["TypeScript", "Next.js", "Python", "PostgreSQL"],
      ["Drafting", "Prior art", "Claim analysis", "Workflow"])

  // ---------------------------------------------------------------------------
  // Order-preserving de-duplication (a Set filled in sequence order)
  // ---------------------------------------------------------------------------

  predicate NoDuplicates(s: seq<string>) {
    forall i, j :: 0 <= i < j < |s| ==> s[i] != s[j]
  }

  /**
   * The elements of `s` in the order a Set receives them when `s` is
   * inserted front to back: an element already present is skipped.
   */
  function Distinct(s: seq<string>): (d: seq<string>)
    ensures NoDuplicates(d)
    ensures forall x :: x in d <==> x in s
    ensures |d| <= |s|
  {
    if s == [] then []
    else
      var d := Distinct(s[..|s| - 1]);
      var x := s[|s| - 1];
      assert forall y :: y in s <==> y in s[..|s| - 1] || y == x by {
        assert s == s[..|s| - 1] + [x];
      }
      if x in d then d else d + [x]
  }

  /** The position at which `x` first occurs in `s`. */
  function FirstIndex(s: seq<string>, x: string): (i: nat)
    requires x in s
    ensures i < |s| && s[i] == x && x !in s[..i]
  {
    if s[0] == x then 0 else 1 + FirstIndex(s[1..], x)
  }

  /** The first occurrence is the only index with `x` there and nowhere before. */
  lemma FirstIndexUnique(s: seq<string>, x: string, i: nat)
    requires i < |s| && s[i] == x && x !in s[..i]
    ensures FirstIndex(s, x) == i
  {
    var k := FirstIndex(s, x);
    assert forall m :: 0 <= m < i ==> s[..i][m] == s[m];
    assert forall m :: 0 <= m < k ==> s[..k][m] == s[m];
  }

  /** An element of a prefix occurs first in the prefix where it occurs first in the whole. */
  lemma FirstIndexInPrefix(s: seq<string>, n: nat, x: string)
    requires n <= |s| && x in s[..n]
    ensures FirstIndex(s, x) == FirstIndex(s[..n], x)
  {
    var i := FirstIndex(s[..n], x);
    assert s[..n][..i] == s[..i];
    FirstIndexUnique(s, x, i);
  }

  /**
   * Distinct lists the elements of `s` in the order of their first
   * occurrence in `s`. With NoDuplicates and the membership clause of
   * Distinct this determines the result completely (see DistinctUnique).
   */
  lemma {:induction false} DistinctFirstOccurrenceOrder(s: seq<string>)
    ensures forall i, j :: 0 <= i < j < |Distinct(s)| ==>
      FirstIndex(s, Distinct(s)[i]) < FirstIndex(s, Distinct(s)[j])
  {
    if s != [] {
      var n := |s| - 1;
      var s' := s[..n];
      var d' := Distinct(s');
      var x := s[n];
      DistinctFirstOccurrenceOrder(s');
      var d := Distinct(s);
      forall k | 0 <= k < |d'|
        ensures d[k] == d'[k] && FirstIndex(s, d'[k]) == FirstIndex(s', d'[k])
      {
        FirstIndexInPrefix(s, n, d'[k]);
      }
      if x !in d' {
        assert x !in s[..n];
        FirstIndexUnique(s, x, n);
      }
    }
  }

  /** `e` lists its elements strictly in the order of their first occurrence in `s`. */
  ghost predicate InFirstOccurrenceOrder(s: seq<string>, e: seq<string>) {
    && (forall x :: x in e ==> x in s)
    && (forall i, j :: 0 <= i < j < |e| ==> FirstIndex(s, e[i]) < FirstIndex(s, e[j]))
  }

  /**
   * Distinct is the only such listing: any sequence holding exactly the
   * elements of `s`, ordered by first occurrence, is Distinct(s).
   */
  lemma DistinctUnique(s: seq<string>, e: seq<string>)
    requires forall x :: x in e <==> x in s
    requires InFirstOccurrenceOrder(s, e)
    ensures e == Distinct(s)
  {
    DistinctFirstOccurrenceOrder(s);
    SameOrderedListing(s, e, Distinct(s));
  }

  /** Two listings of the same elements, both in first-occurrence order, are equal. */
  lemma {:induction false} SameOrderedListing(s: seq<string>, e: seq<string>, d: seq<string>)
    requires InFirstOccurrenceOrder(s, e) && InFirstOccurrenceOrder(s, d)
    requires forall x :: x in e <==> x in d
    ensures e == d
  {
    assert |d| > 0 ==> d[0] in e;
    if e != [] {
      assert e[0] in d;
      var j :| 0 <= j < |d| && d[j] == e[0];
      assert d[0] in e;
      var i :| 0 <= i < |e| && e[i] == d[0];
      assert FirstIndex(s, e[0]) <= FirstIndex(s, e[i]);
      assert FirstIndex(s, d[0]) <= FirstIndex(s, d[j]);
      assert e[0] == s[FirstIndex(s, e[0])] == s[FirstIndex(s, d[0])] == d[0];
      forall x ensures x in e[1..] <==> x in d[1..] {
        if x in e[1..] {
          var a :| 1 <= a < |e| && e[a] == x;
          assert FirstIndex(s, e[0]) < FirstIndex(s, e[a]);
          assert x in d;
        }
        if x in d[1..] {
          var b :| 1 <= b < |d| && d[b] == x;
          assert FirstIndex(s, d[0]) < FirstIndex(s, d[b]);
          assert x in e;
        }
      }
      SameOrderedListing(s, e[1..], d[1..]);
      assert e == [e[0]] + e[1..] && d == [d[0]] + d[1..];
    }
  }

  // ---------------------------------------------------------------------------
  // The category list: "All" followed by the distinct categories
  // ---------------------------------------------------------------------------

  /** The category of each project, in catalogue order. */
  function CategoryColumn(ps: seq<Project>): (cs: seq<string>)
    ensures |cs| == |ps| && forall i :: 0 <= i < |ps| ==> cs[i] == ps[i].category
  {
    seq(|ps|, i requires 0 <= i < |ps| => ps[i].category)
  }

  /**
   * The filter buttons of the projects page: "All" first, then every
   * project category once.
   */
  function Categories(ps: seq<Project>): (cs: seq<string>)
    ensures |cs| >= 1 && cs[0] == AllCategories
  {
    [AllCategories] + Distinct(CategoryColumn(ps))
  }

  /**
   * After "All" every project category is listed, nothing else is, and
   * nothing is listed twice.
   */
  lemma CategoriesListEachCategoryOnce(ps: seq<Project>)
    ensures NoDuplicates(Categories(ps)[1..])
    ensures forall p :: p in ps ==> p.category in Categories(ps)[1..]
    ensures forall c :: c in Categories(ps)[1..] ==> exists p :: p in ps && p.category == c
    ensures |Categories(ps)| <= |ps| + 1
  {
    var column := CategoryColumn(ps);
    assert Categories(ps)[1..] == Distinct(column);
    forall p | p in ps ensures p.category in column {
      var i :| 0 <= i < |ps| && ps[i] == p;
      assert column[i] == p.category;
    }
  }

  /**
   * The categories after "All" appear in the order in which the catalogue
   * first mentions them, and are the only listing of the categories with
   * that property.
   */
  lemma CategoriesInFirstAppearanceOrder(ps: seq<Project>)
    ensures InFirstOccurrenceOrder(CategoryColumn(ps), Categories(ps)[1..])
    ensures forall e ::
      ((forall c :: c in e <==> c in CategoryColumn(ps)) && InFirstOccurrenceOrder(CategoryColumn(ps), e))
      ==> e == Categories(ps)[1..]
  {
    var column := CategoryColumn(ps);
    assert Categories(ps)[1..] == Distinct(column);
    DistinctFirstOccurrenceOrder(column);
    forall e | (forall c :: c in e <==> c in column) && InFirstOccurrenceOrder(column, e)
      ensures e == Categories(ps)[1..]
    {
      DistinctUnique(column, e);
    }
  }

  /** The shipped catalogue yields exactly these filter buttons; the second "Healthcare" adds none. */
  lemma CatalogueCategories()
    ensures Categories(ProjectList()) == [
      "All", "Space & Geophysics", "Maritime & Defense", "Neuroscience", "Biomedical",
      "Materials Science", "Semiconductor", "Academic", "Healthcare", "Legal Tech"]
  {
    var first := CatalogueFirstCategories();
    assert first[7] == "Healthcare";
    DistinctSkipsRepeat(first, "Healthcare", "Legal Tech");
    CategoriesAfterAll(ProjectList(), first + ["Legal Tech"]);
  }

  /** The category list is "All" followed by the de-duplicated category column. */
  lemma CategoriesAfterAll(ps: seq<Project>, d: seq<string>)
    requires Distinct(CategoryColumn(ps)) == d
    ensures Categories(ps) == ["All"] + d
  {
  }

  /** A repeated element adds nothing to the Set; a new one is appended. */
  lemma DistinctSkipsRepeat(s: seq<string>, x: string, y: string)
    requires NoDuplicates(s) && x in s && y !in s
    ensures Distinct(s + [x] + [y]) == s + [y]
  {
    DistinctOfDuplicateFree(s);
    DistinctSnoc(s, x);
    DistinctSnoc(s + [x], y);
  }

  /** The category column of the catalogue: eight new categories, then "Healthcare" again, then "Legal Tech". */
  lemma CatalogueFirstCategories() returns (first: seq<string>)
    ensures first == ["Space & Geophysics", "Maritime & Defense", "Neuroscience", "Biomedical",
      "Materials Science", "Semiconductor", "Academic", "Healthcare"]
    ensures NoDuplicates(first)
    ensures CategoryColumn(ProjectList()) == first + ["Healthcare"] + ["Legal Tech"]
  {
    first := ["Space & Geophysics", "Maritime & Defense", "Neuroscience", "Biomedical",
      "Materials Science", "Semiconductor", "Academic", "Healthcare"];
  }

  /**
   * The defining step of `Distinct`, stated for `s + [x]`: inserting one
   * more element into the Set either changes nothing or appends it.
   */
  lemma DistinctSnoc(s: seq<string>, x: string)
    ensures Distinct(s + [x]) == if x in Distinct(s) then Distinct(s) else Distinct(s) + [x]
  {
    assert (s + [x])[..|s|] == s;
  }

  /** A sequence without repetitions is its own de-duplication. */
  lemma {:induction false} DistinctOfDuplicateFree(s: seq<string>)
    requires NoDuplicates(s)
    ensures Distinct(s) == s
  {
    if s != [] {
      var n := |s| - 1;
      assert NoDuplicates(s[..n]);
      DistinctOfDuplicateFree(s[..n]);
      assert s == s[..n] + [s[n]];
    }
  }

  // ---------------------------------------------------------------------------
  // Lookup by id
  // ---------------------------------------------------------------------------

  /** The id of each project, in catalogue order. */
  function IdColumn(ps: seq<Project>): (ids: seq<string>)
    ensures |ids| == |ps| && forall i :: 0 <= i < |ps| ==> ids[i] == ps[i].id
  {
    seq(|ps|, i requires 0 <= i < |ps| => ps[i].id)
  }

  /** `ps[i]` is the last project of `ps` with its id. */
  ghost predicate LastWithItsId(ps: seq<Project>, i: int) {
    0 <= i < |ps| && forall j :: i < j < |ps| ==> ps[j].id != ps[i].id
  }

  /**
   * `m` is the id table of `ps`: its keys are exactly the projects' ids,
   * each key maps to a project of `ps` with that id, and the last project
   * with an id is the one stored under it.
   */
  ghost predicate IsIdTable(ps: seq<Project>, m: map<string, Project>) {
    && (forall id :: id in m <==> id in IdColumn(ps))
    && (forall id :: id in m ==> m[id] in ps && m[id].id == id)
    && (forall i :: LastWithItsId(ps, i) ==> ps[i].id in m && m[ps[i].id] == ps[i])
  }

  /**
   * The id table, built as Object.fromEntries builds it: entries are
   * stored front to back, so a later project with the same id replaces an
   * earlier one.
   */
  function ById(ps: seq<Project>): (m: map<string, Project>)
    ensures IsIdTable(ps, m)
  {
    if ps == [] then map[]
    else
      var n := |ps| - 1;
      var m := ById(ps[..n]);
      ByIdExtend(ps, m);
      m[ps[n].id := ps[n]]
  }

  /** Storing the last project over the table of the others gives the table of all. */
  lemma ByIdExtend(ps: seq<Project>, m: map<string, Project>)
    requires ps != [] && IsIdTable(ps[..|ps| - 1], m)
    ensures IsIdTable(ps, m[ps[|ps| - 1].id := ps[|ps| - 1]])
  {
    var n := |ps| - 1;
    var last := ps[n];
    var m' := m[last.id := last];
    assert IdColumn(ps) == IdColumn(ps[..n]) + [last.id];
    ByIdExtendValues(ps, m);
    ByIdExtendLast(ps, m);
  }

  lemma ByIdExtendValues(ps: seq<Project>, m: map<string, Project>)
    requires ps != [] && IsIdTable(ps[..|ps| - 1], m)
    ensures var m' := m[ps[|ps| - 1].id := ps[|ps| - 1]];
      forall id :: id in m' ==> m'[id] in ps && m'[id].id == id
  {
    var n := |ps| - 1;
    var last := ps[n];
    var m' := m[last.id := last];
    forall id | id in m' ensures m'[id] in ps && m'[id].id == id {
      if id != last.id {
        assert m[id] in ps[..n];
      }
    }
  }

  lemma ByIdExtendLast(ps: seq<Project>, m: map<string, Project>)
    requires ps != [] && IsIdTable(ps[..|ps| - 1], m)
    ensures var m' := m[ps[|ps| - 1].id := ps[|ps| - 1]];
      forall i :: LastWithItsId(ps, i) ==> ps[i].id in m' && m'[ps[i].id] == ps[i]
  {
    var n := |ps| - 1;
    var last := ps[n];
    var m' := m[last.id := last];
    forall i | LastWithItsId(ps, i) ensures ps[i].id in m' && m'[ps[i].id] == ps[i] {
      if i < n {
        assert ps[i] == ps[..n][i];
        assert LastWithItsId(ps[..n], i);
      }
    }
  }

  /** No two projects share an id. */
  predicate IdsDistinct(ps: seq<Project>) {
    NoDuplicates(IdColumn(ps))
  }

  /**
   * With distinct ids every project is found under its own id, and the
   * table has exactly one key per project.
   */
  lemma ByIdFindsEveryProject(ps: seq<Project>)
    requires IdsDistinct(ps)
    ensures forall p :: p in ps ==> p.id in ById(ps) && ById(ps)[p.id] == p
    ensures |ById(ps)| == |ps|
  {
    forall p | p in ps ensures p.id in ById(ps) && ById(ps)[p.id] == p {
      var i :| 0 <= i < |ps| && ps[i] == p;
      LastWithDistinctIds(ps, i);
    }
    ByIdSize(ps);
  }

  lemma LastWithDistinctIds(ps: seq<Project>, i: int)
    requires IdsDistinct(ps) && 0 <= i < |ps|
    ensures LastWithItsId(ps, i)
  {
    var ids := IdColumn(ps);
    forall j | i < j < |ps| ensures ps[j].id != ps[i].id {
      assert ids[j] != ids[i];
    }
  }

  lemma ByIdSize(ps: seq<Project>)
    requires IdsDistinct(ps)
    ensures |ById(ps)| == |ps|
  {
    var ids := IdColumn(ps);
    assert ById(ps).Keys == set x | x in ids;
    SizeOfDuplicateFree(ids);
  }

  /** A duplicate-free sequence has as many elements as its set of elements. */
  lemma {:induction false} SizeOfDuplicateFree(s: seq<string>)
    requires NoDuplicates(s)
    ensures |set x | x in s| == |s|
  {
    if s != [] {
      var t := s[1..];
      assert NoDuplicates(t) by {
        forall i, j | 0 <= i < j < |t| ensures t[i] != t[j] {
          assert t[i] == s[i + 1] && t[j] == s[j + 1];
        }
      }
      SizeOfDuplicateFree(t);
      assert (set x | x in s) == (set x | x in t) + {s[0]};
      assert forall j :: 0 <= j < |t| ==> t[j] == s[j + 1] != s[0];
    }
  }

  /** The shipped catalogue has ten projects with pairwise distinct ids. */
  lemma CatalogueIdsDistinct()
    ensures |ProjectList()| == 10 && IdsDistinct(ProjectList())
  {
    var ids := CatalogueIds();
    assert NoDuplicates(ids);
  }

  /** The ids of the shipped catalogue, in order. */
  lemma CatalogueIds() returns (ids: seq<string>)
    ensures ids == ["galileo", "aurora-nav", "brainiac", "biopharma", "orion",
                    "spectra", "sage", "veritas", "synapse", "patent"]
    ensures |ProjectList()| == 10 && IdColumn(ProjectList()) == ids
  {
    ids := IdColumn(ProjectList());
  }

  /**
   * The project detail page: an empty id finds nothing, and so does an id
   * that is not in the table.
   */
  function FindProject(ps: seq<Project>, id: string): (r: Option<Project>)
    ensures r.Some? <==> id != [] && exists p :: p in ps && p.id == id
    ensures r.Some? ==> r.value in ps && r.value.id == id
  {
    var table := ById(ps);
    if id == [] then None
    else if id in table then
      Some(table[id])
    else
      assert forall p :: p in ps ==> p.id in table;
      None
  }

  /** With distinct ids, every project's detail page shows that project. */
  lemma FindProjectByOwnId(ps: seq<Project>, p: Project)
    requires IdsDistinct(ps) && p in ps && p.id != []
    ensures FindProject(ps, p.id) == Some(p)
  {
    ByIdFindsEveryProject(ps);
  }

  /** Every project of the shipped catalogue has a detail page, and the id table has ten keys. */
  lemma CatalogueLookup()
    ensures forall p :: p in ProjectList() ==> FindProject(ProjectList(), p.id) == Some(p)
    ensures |ById(ProjectList())| == 10
  {
    CatalogueIdsDistinct();
    CatalogueIdsNonEmpty();
    EveryProjectFound(ProjectList());
  }

  lemma CatalogueIdsNonEmpty()
    ensures forall i :: 0 <= i < |ProjectList()| ==> ProjectList()[i].id != []
  {
    var ids := CatalogueIds();
    assert forall i :: 0 <= i < |ids| ==> ids[i] != [];
  }

  /** With distinct non-empty ids, every project's detail page shows that project. */
  lemma EveryProjectFound(ps: seq<Project>)
    requires IdsDistinct(ps)
    requires forall i :: 0 <= i < |ps| ==> ps[i].id != []
    ensures forall p :: p in ps ==> FindProject(ps, p.id) == Some(p)
    ensures |ById(ps)| == |ps|
  {
    ByIdFindsEveryProject(ps);
    forall p | p in ps ensures FindProject(ps, p.id) == Some(p) {
      FindProjectByOwnId(ps, p);
    }
  }
}
