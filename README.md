# ATLAS projects catalogue — a Dafny model

The ATLAS website has one piece of real logic: the Projects page. It lists a
static catalogue of ten projects. Visitors narrow the list with a row of
category buttons and a free-text search box. This project models that page
and the catalogue tables behind it, and proves what the page promises.

- `optional.dfy`: the `Option` type, used for a lookup that finds nothing and
  for the overflow chip that may be absent.
- `text.dfy` (module `Text`): the three string operations the search uses.
  They follow JavaScript's `toLowerCase`, `trim` and `includes`. Lower-casing
  folds ASCII letters only. Trimming removes the ECMAScript WhiteSpace and
  LineTerminator characters.
- `catalogue.dfy` (module `Catalogue`): the `Project` record and the shipped
  catalogue. It also holds the category list ("All" followed by the distinct
  categories in order of first appearance), the id table, and the lookup the
  project detail page does with it.
- `projects_page.dfy` (module `ProjectsPage`): the category-and-search filter,
  the page state with its "Clear filters" reset, the highlighted filter
  button, the status pill colour and the chips a project card shows.

Everything in the source is a pure expression over arrays and strings, so the
model is functions and lemmas. There are no classes or loops. The category
list's `new Set(...)` is modelled as `Distinct`, which inserts the categories
front to back and skips any category already present. `Object.fromEntries`
is modelled as `ById`, which stores entries front to back, so a later project
replaces an earlier one with the same id.

## Model

| member | source | states |
|---|---|---|
| Text.Lower | frontend/src/pages/projects.jsx:125 | `toLowerCase` keeps the length and maps each character through ASCII case folding |
| Text.Trim | frontend/src/pages/projects.jsx:125 | `trim` returns the slice of the input that has only whitespace around it and neither starts nor ends with whitespace; it is empty exactly when the input is all whitespace |
| Text.TrimUnique | frontend/src/pages/projects.jsx:125 | any such slice is the result of `trim`, so the contract of Trim determines it |
| Text.TrimIgnoresPadding | frontend/src/pages/projects.jsx:125 | whitespace added before and after a string does not change its trimmed form |
| Text.TrimLowerCommute | frontend/src/pages/projects.jsx:125 | trimming then lower-casing equals lower-casing then trimming |
| Text.LowerIdempotent | frontend/src/pages/projects.jsx:125 | lower-casing twice is the same as lower-casing once |
| Text.LowerOfUpper | frontend/src/pages/projects.jsx:125 | lower-casing forgets the case of the input |
| Text.Includes | frontend/src/pages/projects.jsx:131-132 | `includes` holds exactly when the query occurs at some position of the text; the empty query occurs everywhere |
| Catalogue.Distinct | frontend/src/lib/projects.js:151 | the Set's contents: no element twice, and exactly the elements of the input |
| Catalogue.DistinctFirstOccurrenceOrder | frontend/src/lib/projects.js:151 | the Set lists its elements in the order of their first occurrence in the input |
| Catalogue.DistinctUnique | frontend/src/lib/projects.js:151 | any listing of exactly the input's elements in first-occurrence order is Distinct of the input |
| Catalogue.DistinctSnoc | frontend/src/lib/projects.js:151 | the defining step of `Distinct`, stated as Set insertion: one more element adds nothing when it is already present and is appended otherwise |
| Catalogue.DistinctSkipsRepeat | frontend/src/lib/projects.js:151 | for a duplicate-free list followed by a repeat of one of its elements and then a new element, the Set is the list followed by the new element only; this is the shape of the shipped category column |
| Catalogue.Categories | frontend/src/lib/projects.js:149-152 | the category list starts with "All" |
| Catalogue.CategoriesListEachCategoryOnce | frontend/src/lib/projects.js:149-152 | after "All", every project's category is listed once, nothing is listed twice, and every entry is some project's category |
| Catalogue.CategoriesInFirstAppearanceOrder | frontend/src/lib/projects.js:151 | after "All" the categories follow their first appearance in the catalogue, and no other listing of them does |
| Catalogue.CatalogueCategories | frontend/src/lib/projects.js:149-152 | the shipped catalogue gives "All" and nine categories; the second "Healthcare" (projects.js:123) adds no button |
| Catalogue.ById | frontend/src/lib/projects.js:147 | the id table has exactly the projects' ids as keys, each key maps to a project with that id, and the last project with an id wins |
| Catalogue.ByIdFindsEveryProject | frontend/src/lib/projects.js:147 | with distinct ids each project is stored under its own id, and there is one key per project |
| Catalogue.CatalogueIdsDistinct | frontend/src/lib/projects.js:3-145 | the shipped catalogue has ten projects with pairwise distinct ids |
| Catalogue.CatalogueIdsNonEmpty | frontend/src/lib/projects.js:3-145 | no shipped project has an empty id |
| Catalogue.FindProject | frontend/src/lib/projects.js:147 | the detail page (`pages/projects/[id].jsx`, lines 29-39) finds a project exactly when the id is non-empty and some project has it, and what it finds has that id |
| Catalogue.FindProjectByOwnId | frontend/src/lib/projects.js:147 | with distinct ids, looking up a project's own non-empty id finds that project |
| Catalogue.EveryProjectFound | frontend/src/lib/projects.js:147 | with distinct non-empty ids, every project's page finds it, and the table has one key per project |
| Catalogue.CatalogueLookup | frontend/src/lib/projects.js:147 | every shipped project's detail page shows that project, and the id table has ten keys |
| ProjectsPage.NormalizeQuery | frontend/src/pages/projects.jsx:125 | the query the filter uses is the same whether the text is trimmed first or lower-cased first, and it is empty exactly when the search box holds only whitespace |
| ProjectsPage.KeepMeansBothMatch | frontend/src/pages/projects.jsx:127-133 | a project passes the predicate exactly when "All" or its own category is selected and the normalised query is empty or occurs in its lower-cased name or lower-cased tagline |
| ProjectsPage.FilteredProjects | frontend/src/pages/projects.jsx:124-135 | the memoised list holds exactly the projects whose category matches and which match the trimmed, lower-cased search text, any project passing when that text is blank; with a category selected, everything shown has that category |
| ProjectsPage.Filter | frontend/src/pages/projects.jsx:126-134 | for a query that is already normalised, a project is kept exactly when its category matches and its search matches; with a category selected, everything kept has that category |
| ProjectsPage.FilterIsSubsequence | frontend/src/pages/projects.jsx:126-134 | the result is picked out of the input at increasing positions, and position i is picked exactly when project i satisfies the predicate |
| ProjectsPage.FilterAppend | frontend/src/pages/projects.jsx:126 | filtering two lists joined is filtering each and joining the results |
| ProjectsPage.FilterKeepsAll | frontend/src/pages/projects.jsx:126 | when the predicate holds for every project the filter returns the input unchanged |
| ProjectsPage.FilterDropsAll | frontend/src/pages/projects.jsx:126 | when the predicate fails for every project the filter returns nothing |
| ProjectsPage.AllAndBlankShowsEverything | frontend/src/pages/projects.jsx:124-135 | with "All" selected and an empty or whitespace-only search box the page shows the whole catalogue |
| ProjectsPage.SearchIgnoresCase | frontend/src/pages/projects.jsx:125-132 | two queries that agree up to case give the same list |
| ProjectsPage.SearchIgnoresUpperCase | frontend/src/pages/projects.jsx:125-132 | typing the query in capitals gives the same list |
| ProjectsPage.SearchIgnoresSurroundingWhitespace | frontend/src/pages/projects.jsx:125 | whitespace typed before or after the query gives the same list |
| ProjectsPage.SearchReadsOnlyNameAndTagline | frontend/src/pages/projects.jsx:127-132 | for two lists that agree on every project's name, tagline and category, the predicate holds at the same positions, and the two results agree on those columns position by position; so changing the id, status, tech or features of any project keeps and drops the same positions |
| ProjectsPage.CategoryButtonsNeverEmpty | frontend/src/pages/projects.jsx:127-130 | every category button other than "All" shows at least one project while the search box is empty |
| ProjectsPage.CatalogueHealthcare | frontend/src/pages/projects.jsx:124-135 | the "Healthcare" button on the shipped catalogue shows Veritas Medical then Synapse Medical AI |
| ProjectsPage.InitialState | frontend/src/pages/projects.jsx:121-122 | the page opens with "All" selected and an empty search box, and so shows every project |
| ProjectsPage.ShowsClearFiltersWhenNothingMatches | frontend/src/pages/projects.jsx:219 | the "Clear filters" button is shown exactly when no project passes the filter's predicate |
| ProjectsPage.ClearFilters | frontend/src/pages/projects.jsx:219-230 | "Clear filters" selects "All" and empties the search box; afterwards every project is shown, and on a non-empty catalogue the button is no longer shown |
| ProjectsPage.OneActiveButton | frontend/src/pages/projects.jsx:189-196 | when no project is filed under "All" and the selected category is a button, exactly one button is highlighted |
| ProjectsPage.StatusClass | frontend/src/pages/projects.jsx:10-20 | "Production", "Active", "Beta" and "Research" each select their own colour class; any other status selects the neutral class |
| ProjectsPage.CardChips | frontend/src/pages/projects.jsx:65-89 | a card shows the first min(3, n) features, a "+N" chip exactly when n > 3 with shown plus N equal to n, and the first min(4, m) technologies |

## Left out

- Rendering, styling and animation of the page and the card are not modelled: the JSX markup, the framer-motion transitions, and the animation key built from the category and the query.
- A project's `color`, `icon` and `github` fields are not modelled. They are presentation strings that no logic reads.
- A project's `description` is not modelled. Only the detail page displays it, and neither the filter nor the search reads it.
- `toLowerCase` is modelled on ASCII letters only. Other letters, such as accented or Greek ones, are left unchanged, unlike in JavaScript.
- The category button's `onClick` and the search box's `onChange` are not modelled as operations. Each only stores the new value: the search box can hold any text, and the selected category is "All" or one of the listed categories. The lemmas are stated for every `PageState`, which includes all of these.
- The "+N" chip's text and the class-name string joins (`[...].join(" ")`) are not modelled. CardChips gives the count and StatusClass gives the colour class.
- React's `key` props are not modelled. Two features with the same name would share a key; React only warns about this.
- Catalogue.FindProject: does not model the id table as a JavaScript object. A key inherited from `Object.prototype`, such as `"constructor"`, would find an inherited value there; here it finds nothing. A router query given as an array is not modelled either.
- The project count badge (`projectList.length`) is not modelled. It only displays the length.
