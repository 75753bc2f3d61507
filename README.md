# Quiz controller: progress, status, dashboard and grading

This project models the controller of a browser quiz application
(`script.js`). Users open a question set and answer multiple-choice questions
against a timer. They then grade the set, and the dashboard lists every set
with its progress.

The model covers the logic left once the DOM, fetch, storage and timer
plumbing are taken away:

- **Catalog** (`catalog.dfy`): question sets and their questions. A set
  without a `questions` array counts as a single question with the set's own
  id. `FindSet` is the `allSets.find` lookup that opens a set.
- **Status** (`status.dfy`): the progress store, which is the two persisted
  id lists `solved` and `attempted`. The status engine `getSetStatus` maps a
  set to solved, attempted or unsolved.
- **Timing** (`timing.dfy`): the arithmetic of the timer display, the target
  time label and the grading verdict. JavaScript's `Math.floor(a / b)` is
  Dafny's `/` for a positive divisor. JavaScript's `%` truncates, so it is
  written out as `JsRem`.
- **Sorting** (`sorting.dfy`): `Array.prototype.sort` with a comparator
  `key(a) - key(b)`. JavaScript's sort is stable, so it is modelled as a
  stable insertion sort by key. It is proved to be a permutation, ordered,
  and equal to "key 0 group, key 1 group, key 2 group" in input order.
- **Dashboard** (`dashboard.dfy`): the cards under the active category tab,
  sorted by status rank (unsolved < attempted < solved), and the count
  "solved / total" over the whole catalog. The category tabs are
  `"すべて"` followed by each category once, in order of first appearance.
- **Grading** (`grading.dfy`): `gradeCurrentSet` as values. For each
  question, its id is appended to `attempted` if it was answered and to
  `solved` if it was answered correctly. Both appends are guarded by a
  membership check. Each option button gets a mark (correct, wrong or plain)
  and every explanation is shown. The verdict compares whole elapsed seconds
  with the target.
- **Session** (`session.dfy`): the controller's globals as a class. Its
  methods are `StartSet`, `SelectOption`, `Grade` (a loop over the set's
  questions proved against `GradeAll` and `MarkAll`), `FilterByCategory` and
  `ShowDashboard`. `GradingScenarios` walks through two grading sessions on
  a two-question set.

Elapsed time is a parameter of `Grade` (milliseconds since the set was
opened), in place of `Date.now() - startTime`. Selections are a
`map<string, nat>`; an absent key is an unanswered question.

Behaviour of the code that is easy to miss, which the model keeps:

- The dashboard sort is the code's stable status sort.
- The verdict compares `Math.floor(ms / 1000)` with the target, so a grade
  at 60.9 s still meets a 60 s target (`GradeVerdict`).
- `startSet` stores the failed lookup before returning. An unknown id
  therefore closes the open set but keeps the selections.
- A category literally named `"すべて"` would appear twice in the tabs,
  because the prefix is not de-duplicated against the catalog's categories.
- With a clock running backwards, the timer's minutes and seconds do not add
  back up to the elapsed seconds (`NegativeElapsedDisplay`).

## Model

| member | source | states |
|---|---|---|
| Catalog.Questions | script.js:54 | `set.questions \|\| [set]`: a listed set's own questions; a set without the array is one question with the set's id, option count and answer |
| Catalog.FindSet | script.js:116-117 | returns the first set with the id, or nothing exactly when no set has it |
| Status.Rank | script.js:74 | the sort key is 0 exactly for unsolved and 2 exactly for solved |
| Status.AllIn | script.js:55 | `every` over ids: true exactly when each id is in the list |
| Status.AnyIn | script.js:58 | `some` over ids: true exactly when some id is in the list |
| Status.GetSetStatus | script.js:53-61 | solved exactly when all ids are solved; attempted exactly when some id is unsolved and some attempted; unsolved exactly when some id is unsolved and none attempted |
| Status.EmptyOrInlineStatus | script.js:54-56 | an empty `questions` array gives solved; a set without one is solved or attempted on its own id alone, and a solved id that was never attempted is accepted |
| Status.StatusMonotone | script.js:53-61 | adding ids to either list never lowers a set's status rank, so solved stays solved |
| Timing.FloorDiv | script.js:188-189 | `Math.floor(a / b)`: the largest q with q*b <= a |
| Timing.JsRem | script.js:190 | JavaScript `%`: in [0, b) for non-negative a, in (-b, 0] for negative a, and the remainder of \|a\| carrying a's sign |
| Timing.MinSec | script.js:98 | for non-negative seconds: minutes*60 + seconds recomposes the input, with seconds in [0, 60) |
| Timing.ElapsedSeconds | script.js:200 | whole seconds elapsed: sec*1000 <= ms < sec*1000 + 1000 |
| Timing.TimerDisplay | script.js:187-193 | for non-negative elapsed time, the display's minutes*60 + seconds equals the whole seconds elapsed, seconds below 60 |
| Timing.NegativeElapsedDisplay | script.js:188-190 | one second before the start the display shows -1:-1, which does not recompose to -1 second |
| Timing.GradeVerdict | script.js:232 | the verdict is on target exactly when elapsed ms < (target + 1) * 1000 |
| Sorting.InsertPermutes | script.js:73-76 | inserting adds exactly the one element (multiset) |
| Sorting.InsertKeepsOrder | script.js:73-76 | inserting into a key-ordered list keeps it key-ordered |
| Sorting.SortBy | script.js:73-76 | the sort returns a permutation of its input in non-decreasing key order |
| Sorting.InsertBetween | script.js:73-76 | an element lands after the smaller keys and ahead of equal and larger ones |
| Sorting.InsertIntoGroups | script.js:73-76 | inserting into the three key groups extends the element's own group at its front |
| Sorting.SortIsStable | script.js:73-76 | for keys 0..2 the sort is the key-0, key-1, key-2 groups, each in input order |
| Dashboard.InCategory | script.js:71 | each set occurs as often as in the catalog if its category matches, else not at all |
| Dashboard.InCategoryCommutesWithStatus | script.js:71 | filtering a category's sets by status gives the same sequence, order included, as filtering the status's sets by category |
| Dashboard.Filtered | script.js:69-71 | the "all" tab yields the catalog itself; any other tab exactly the sets of that category |
| Dashboard.StatusKey | script.js:74-75 | the comparator's key is at most 2; it is 0 exactly for unsolved sets and 2 exactly for solved ones |
| Dashboard.SortByStatus | script.js:73-76 | the dashboard order is a permutation of the filtered sets in non-decreasing status rank |
| Dashboard.WithStatus | script.js:107 | each set of the given status occurs as often as in the input, every other set not at all |
| Dashboard.WithStatusIsWithKey | script.js:74-75 | filtering by status equals grouping by the comparator's key |
| Dashboard.SortByStatusIsStable | script.js:73-76 | the sorted list is the unsolved, then attempted, then solved sets, each in catalog order |
| Dashboard.SolvedCountCoversTab | script.js:107 | the completion count over the catalog is at least the solved sets under any category tab |
| Dashboard.FirstIndex | script.js:37 | the first position of a value |
| Dashboard.Distinct | script.js:37 | `new Set`: no duplicates and exactly the input's values |
| Dashboard.FirstIndexInPrefix | script.js:37 | a value's first position is unchanged by appending later values |
| Dashboard.DistinctKeepsFirstOrder | script.js:37 | the distinct values appear in the order of their first appearance |
| Dashboard.Categories | script.js:37 | `allSets.map(s => s.category)` |
| Dashboard.CategoryTabs | script.js:37 | "すべて" first, then the catalog's distinct categories in order of first appearance: each exactly once and nothing else |
| Dashboard.MakeCard | script.js:79-98 | a card shows the set's status, its question count (array length or 1) and its target as minutes and seconds that recompose the target |
| Dashboard.Cards | script.js:78 | one card per set, in order, each built by `MakeCard` from its set and status |
| Dashboard.RenderDashboard | script.js:65-109 | cards in non-decreasing status rank, one per filtered set; the total is the catalog size and the solved count is the number of solved sets in the whole catalog |
| Dashboard.RenderDashboardShowsTab | script.js:69-78 | a set has a card exactly when it is in the catalog and the tab is "すべて" or its category |
| Dashboard.SolvedCountIgnoresTab | script.js:107-109 | the completion count is the same under every tab |
| Grading.MarkQuestion | script.js:211-218 | the correct index's button is marked correct and no other; a button is marked wrong exactly when it is the selection and not the answer; the explanation is shown |
| Grading.WrongMarkIffMissed | script.js:215-218 | a card has a wrong mark exactly when the question was answered with an existing option other than the answer |
| Grading.MarkAll | script.js:203-227 | one mark record per question, in question order |
| Grading.GradeQuestion | script.js:203-223 | one question keeps both lists as prefixes and adds at most one id to each; an answered question's id is attempted afterwards and a correctly answered one's solved |
| Grading.GradeAll | script.js:203-223 | grading adds at most one id per question to each list |
| Grading.GradeAllAppendOnly | script.js:203-223 | the old lists are prefixes of the new ones: entries and their order are kept |
| Grading.GradeAllMembers | script.js:203-223 | an id is attempted afterwards exactly when it was before or an answered question has it; it is solved afterwards exactly when it was before or a correctly answered question has it; other ids keep their membership |
| Grading.AppendAbsent | script.js:207-208 | appending an absent id keeps a list duplicate-free |
| Grading.GradeAllNoDuplicates | script.js:203-223 | duplicate-free lists stay duplicate-free |
| Grading.GradeAllFixpoint | script.js:203-223 | grading changes nothing when every id it would add is already present |
| Grading.GradeAllIdempotent | script.js:203-223 | grading a second time with the same selections leaves the lists as the first grading left them |
| Grading.AllCorrectSolvesSet | script.js:221-223 | answering every question correctly makes the set's status solved |
| Grading.AnsweredSetIsNotUnsolved | script.js:206-209 | answering any question of a set makes its status at least attempted |
| Grading.GradeReport | script.js:200-232 | the report's final time is the floor of elapsed seconds, its verdict is on target exactly when that is within the target, and its marks are `MarkAll` of the set's questions: one record per question, each showing its explanation |
| Session.Session.constructor | script.js:1-8 | the loaded catalog and stored lists, no open set, no selections, the "すべて" tab |
| Session.Session.FilterByCategory | script.js:46-50 | the active tab becomes the given category |
| Session.Session.StartSet | script.js:115-119 | the open set is the lookup result; a found set starts with no selections, a failed lookup keeps them |
| Session.Session.SelectOption | script.js:178-179 | the question's selection becomes the index; every other entry is unchanged |
| Session.Session.Grade | script.js:196-242 | without an open set nothing changes; otherwise the lists become `GradeAll` of the old lists and the report is `GradeReport` |
| Session.Session.ShowDashboard | script.js:245-247 | the open set is closed |

## Left out

- Loading the catalog (`fetch`, JSON parsing and the error message) is network I/O. The catalog is a constructor parameter.
- `localStorage` reads and writes, and the JSON encoding of the lists, are storage I/O. The lists are modelled as their values, so the persisted round trip after a restart is not modelled.
- HTML templating, `innerHTML`, `classList`, `switchView`, passage and table rendering, and the target label are presentation. So is the `selected` class that `selectOption` moves between buttons.
- `history.pushState` and `onpopstate` are browser navigation APIs.
- `setInterval`, `clearInterval`, `setTimeout`, `alert` and `Date.now` are timers and the clock. Elapsed milliseconds are a parameter, and the display is computed for a given elapsed time.
- Disabling and re-enabling the grade button is DOM state. `Grading.GradeAllIdempotent` covers what a second grading would do to the lists.
- `padStart` and the option letters are cosmetic formatting.
- Each question's `answer` is modelled as a natural number that is always present. With a missing `answer`, `undefined === undefined` would put an unanswered question into `solved`.
- `getElementById` finds the first element with an id. If two questions on one page shared an id, the source would put both questions' marks on the first card. The model gives each question its own marks.
- Dashboard.RenderDashboard: its contract does not itself say which sets the cards show or that the order is stable. `Dashboard.RenderDashboardShowsTab` and `Dashboard.SortByStatusIsStable` state those.
- `userSelections` is a plain object, so its lookups reach `Object.prototype`. A question id such as `"constructor"` would read an inherited function rather than `undefined` and be pushed into `attemptedIds` unanswered, and `selectOption("__proto__", k)` would record nothing. The model's selections are a `map`, which treats every id as an ordinary key.
- `target_time_sec` is modelled as an integer. A fractional target would show fractional seconds in the dashboard label.
