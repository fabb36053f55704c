# Daily work logger: a verified model of its core

This project models, in Dafny, the logic behind a small work-log web app. A user
logs the day's tasks. Each task has a project, categories, technologies with
sub-technologies, and a solo/team flag. The user keeps a taxonomy of those
names, and reads a dashboard of counts and a day-by-day history. The model
covers these parts:

- **Helpers** (`Helpers`, `Levenshtein`, `Grouping`, `Csv`):
  - `capitalize` and the `findSimilar` matcher;
  - the `levenshtein` table, as an imperative method proved equal to the recursive edit distance;
  - `getDayNumber`, `groupBy` and `countBy`;
  - `entriesToCSV` with its field escaping. This is checked by a reader for the comma, line-feed and doubled-quote format the export writes; the reader recovers every record.
- **Taxonomy editor** (`SchemaManager`):
  - add and remove projects, categories, technologies and sub-technologies;
  - the search filter and the per-group view;
  - the "in use" tests.
- **Log form pickers** (`TechSelector`, `CategoryPicker`, `ProjectSelector`): selection toggles and add-from-picker handlers.
- **Application state** (`AppContext`):
  - the reducer and its closed set of actions;
  - the initial state and the fallback to the default taxonomy on load;
  - the helpers that dispatch one action each.
- **Log form** (`LogEntry`):
  - task add, remove, clear and update;
  - title validation;
  - building the saved entries and preferences on submit.
- **Dashboard** (`Dashboard`):
  - the filter;
  - the summary statistics;
  - the five chart series, including the sub-technology rows;
  - the history.
- **Toast queue** (`Toasts`): counter-generated ids, append, and removal by id.

`Seqs` and `Text` hold the generic pieces: filtering, subsequences and duplicates on sequences; JavaScript's `trim`, ASCII case mapping, `includes` on strings, character ordering (standing for code-unit ordering) and decimal numerals. `Types` holds the records of `src/utils/types.ts`.

Modelling conventions:
- A JavaScript `Record<string, …>` filled by a loop is a sequence of key/value groups in insertion order.
- `sort` and `localeCompare` on ISO dates are character order (`Text.StrLess`), standing for code-unit order. A sort by count is a stable insertion sort.
- Ids, timestamps, today's date, the date-range test of the dashboard filter and the default taxonomy are parameters.
- Every handler is one atomic state transition from the old value to the new one.

## Model

| member | source | states |
|---|---|---|
| Types.HasTechIffSome | src/pages/LogEntry/components/TechSelector.tsx:99 | a technology is selected exactly when some selection names it |
| Text.Trim | src/pages/SchemaManager/SchemaManagerPage.tsx:114 | `trim` yields the input minus a blank prefix and a blank suffix, with no whitespace left at either end, and is empty exactly when the input is all whitespace |
| Text.TrimIdempotent | src/pages/SchemaManager/SchemaManagerPage.tsx:114 | trimming a trimmed string changes nothing |
| Text.Lower | src/pages/SchemaManager/SchemaManagerPage.tsx:130 | lower-casing keeps the length and maps each character on its own |
| Text.LowerIdempotent | src/pages/SchemaManager/SchemaManagerPage.tsx:130 | lower-casing twice is lower-casing once |
| Text.LowerKeepsBlank | src/pages/LogEntry/components/CategoryPicker.tsx:37-38 | lower-casing neither creates nor removes a blank name, so the blank test may come before or after it |
| Text.ContainsIffOccurs | src/utils/helpers.ts:99 | `includes` holds exactly when the needle occurs at some position of the haystack |
| Text.StrLessIrreflexive | src/hooks/useDashboard.ts:54 | no date sorts strictly before itself |
| Text.StrLessTransitive | src/hooks/useDashboard.ts:54 | the date order is transitive |
| Text.StrLessTrichotomy | src/hooks/useDashboard.ts:100 | two different dates are ordered one way, never both ways |
| Text.NatToStringInjective | src/hooks/useToast.ts:9 | different numbers give different decimal numerals |
| Levenshtein.ComputeDistance | src/utils/helpers.ts:106-119 | the row-by-row table returns the edit distance of the two strings |
| Levenshtein.CellStep | src/utils/helpers.ts:113-115 | each inner cell of the table follows the match/mismatch recurrence of the source |
| Levenshtein.CellBorder | src/utils/helpers.ts:108-110 | the first row and column hold the distances to the empty prefix |
| Levenshtein.DistanceIsClassic | src/utils/helpers.ts:106-119 | the table recurrence equals the textbook edit distance, which takes the minimum of delete, insert and substitute at every step |
| Levenshtein.DistanceToSelfAndEmpty | src/utils/helpers.ts:106-119 | a string is at distance 0 from itself and at distance its length from the empty string |
| Levenshtein.DistanceSymmetric | src/utils/helpers.ts:106-119 | the distance does not depend on the order of the arguments |
| Levenshtein.DistanceBounds | src/utils/helpers.ts:106-119 | the distance lies between the difference of the lengths and the larger length |
| Levenshtein.DistanceZeroIffEqual | src/utils/helpers.ts:106-119 | the distance is 0 exactly for equal strings |
| Helpers.Capitalize | src/utils/helpers.ts:87-90 | an empty string is unchanged; otherwise the length is kept, the first character is upper-cased and the rest is untouched |
| Helpers.CapitalizeIdempotent | src/utils/helpers.ts:87-90 | capitalizing twice is capitalizing once |
| Helpers.FirstSimilar | src/utils/helpers.ts:92-104 | there is no answer exactly when no item passes any of the three tests; otherwise the answer is the earliest item that passes one |
| Helpers.FindSimilar | src/utils/helpers.ts:92-104 | the loop returns the earliest similar item, or none; any answer is an element of the list |
| Helpers.FirstSimilarUnique | src/utils/helpers.ts:94-103 | at most one position is the first similar one |
| Helpers.SimilarByDistanceLengths | src/utils/helpers.ts:101 | an item that is similar only by distance has both lowercased lengths above 2 and lengths within 2 of each other |
| Helpers.FirstSimilarExamplePerItemPrecedence | src/utils/helpers.ts:94-99 | precedence is per item: ("go", ["Golang", "Go"]) gives "Golang", because containment on the first item wins over equality on the second |
| Helpers.FirstSimilarExampleShortGuard | src/utils/helpers.ts:101 | the length guard blocks the distance test: ("Go", ["C"]) gives no answer |
| Helpers.FirstSimilarExampleTypo | src/utils/helpers.ts:101 | a typo within distance 2 is caught: ("Pythom", ["Python"]) gives "Python" |
| Helpers.GetDayNumber | src/utils/helpers.ts:44-51 | the day number lies in 1 to the number of distinct dates plus one, and is that maximum exactly when today is not yet logged |
| Helpers.DayNumberIsSortedPosition | src/utils/helpers.ts:46-48 | for a logged day, the number is one plus the position of today in the ascending sorted distinct dates |
| Grouping.GroupByKeys | src/utils/helpers.ts:53-60 | `groupBy` has one group per distinct key, each once, in first-occurrence order |
| Grouping.GroupByHasKey | src/utils/helpers.ts:53-60 | a key has a group exactly when some item has that key |
| Grouping.GroupByLookup | src/utils/helpers.ts:53-60 | the group of a key holds exactly the items with that key, in input order |
| Grouping.GroupByTotal | src/utils/helpers.ts:53-60 | every item lands in exactly one group: the group sizes add up to the input length |
| Grouping.GroupByGroups | src/utils/helpers.ts:53-60 | every group is non-empty and holds the items with its key |
| Grouping.GroupWhereKeys | src/pages/LogEntry/components/TechSelector.tsx:88-97 | creating the key before the keep test gives a group for every key of the input, kept or not |
| Grouping.GroupWhereLookup | src/pages/LogEntry/components/TechSelector.tsx:88-97 | each group holds exactly the kept items with its key, in input order |
| Grouping.GroupWhereTotal | src/pages/LogEntry/components/TechSelector.tsx:88-97 | the group sizes add up to the number of kept items |
| Grouping.CountBySortedAndTotal | src/utils/helpers.ts:62-67 | `countBy` counts are non-increasing and add up to the input length |
| Grouping.CountByNames | src/utils/helpers.ts:62-67 | `countBy` names each key of the input exactly once |
| Grouping.CountByCounts | src/utils/helpers.ts:62-67 | each count is the positive number of items with that key |
| Grouping.SortByCountDescContents | src/utils/helpers.ts:66 | the sort by descending count is a permutation |
| Grouping.SortByCountDescSorted | src/utils/helpers.ts:66 | after the sort the counts are non-increasing |
| Grouping.SortByCountDescSum | src/utils/helpers.ts:66 | the sort keeps the total count |
| Grouping.SortByCountDescNames | src/utils/helpers.ts:66 | the sort keeps the multiset of names |
| Grouping.SortFirstIsEarliestMax | src/hooks/useDashboard.ts:33 | the stable sort puts first the earliest of the entries with the largest count |
| Grouping.TallyIsGroupSizes | src/hooks/useDashboard.ts:31-32 | the `counts[x] = (counts[x] \|\| 0) + 1` loop gives the group sizes of `groupBy` on the names |
| Grouping.FilterCountsOccurrences | src/hooks/useDashboard.ts:31-32 | the items equal to a name are as many as its occurrences |
| Grouping.TallyCounts | src/hooks/useDashboard.ts:31-32 | the tally names each name once, its count is the number of occurrences, and the counts add up to the input length |
| Grouping.TallyPositive | src/hooks/useDashboard.ts:31-32 | each tallied name occurs in the input with a positive count |
| Grouping.TallyNames | src/hooks/useDashboard.ts:31-32 | a name is tallied exactly when it occurs |
| Grouping.SortByKeyContents | src/hooks/useDashboard.ts:99-100 | sorting groups by date is a permutation |
| Grouping.SortByKeyKeys | src/hooks/useDashboard.ts:99-100 | sorting groups by date keeps the set of dates |
| Grouping.SortByKeySorted | src/hooks/useDashboard.ts:99-100 | groups with distinct dates come out strictly ordered, ascending or descending as asked |
| Grouping.SortByKeyTotal | src/hooks/useDashboard.ts:99-100 | sorting groups keeps the number of items |
| Csv.Escape | src/utils/helpers.ts:71-74 | a field without comma, quote or newline is left as it is; any other field is wrapped in quotes |
| Csv.ReadQuotedDoubled | src/utils/helpers.ts:73 | reading a doubled-quote body up to its closing quote gives back the original text |
| Csv.ReadFieldEscape | src/utils/helpers.ts:71-74 | reading an escaped field gives back the original value, whatever it contains |
| Csv.ReadPlainUnquoted | src/utils/helpers.ts:71-74 | a field left unquoted reads back as itself |
| Csv.ReadRecordFormat | src/utils/helpers.ts:84 | a comma-joined record of escaped fields reads back as those fields |
| Csv.ReadDocumentFormat | src/utils/helpers.ts:84 | newline-joined records read back as the list of records |
| Csv.HeadersPlain | src/utils/helpers.ts:70 | the nine headers need no quoting |
| Csv.EntriesToCsvRoundTrip | src/utils/helpers.ts:69-85 | reading the export gives the header row followed by one nine-field row per entry, in order, with the fields as the source lists them |
| Csv.EntriesToCsvRecordCount | src/utils/helpers.ts:69-85 | the export holds one record more than there are entries |
| SchemaManager.AddProject | src/pages/SchemaManager/SchemaManagerPage.tsx:113-116 | a blank or exactly present trimmed name leaves the taxonomy unchanged; otherwise it is appended to the projects; categories and technologies are untouched |
| SchemaManager.AddCategory | src/pages/SchemaManager/SchemaManagerPage.tsx:129-132 | the name is trimmed and lower-cased before the duplicate check and the append; nothing else changes |
| SchemaManager.AddTech | src/pages/SchemaManager/SchemaManagerPage.tsx:145-148 | an existing exact name changes nothing; otherwise the technology is appended with its group and no sub-technologies |
| SchemaManager.AddKeepsNoDuplicates | src/pages/SchemaManager/SchemaManagerPage.tsx:113-136 | adding keeps projects and categories free of duplicates |
| SchemaManager.AddTechNoDuplicates | src/pages/SchemaManager/SchemaManagerPage.tsx:147 | adding keeps technology names free of duplicates |
| SchemaManager.RemoveNameSpec | src/pages/SchemaManager/SchemaManagerPage.tsx:123 | removal deletes every copy of the name and keeps the rest in order |
| SchemaManager.RemoveNameNoDuplicates | src/pages/SchemaManager/SchemaManagerPage.tsx:123 | removal keeps a duplicate-free list duplicate-free |
| SchemaManager.RemoveProject | src/pages/SchemaManager/SchemaManagerPage.tsx:122-123 | removing a project leaves categories and technologies alone |
| SchemaManager.RemoveCategory | src/pages/SchemaManager/SchemaManagerPage.tsx:138-139 | removing a category leaves projects and technologies alone |
| SchemaManager.RemoveProjectAndCategorySpec | src/pages/SchemaManager/SchemaManagerPage.tsx:122-142 | removal keeps exactly the other names, in order, and an absent name changes nothing |
| SchemaManager.RemoveProjectUndoesAdd | src/pages/SchemaManager/SchemaManagerPage.tsx:113-123 | removing a freshly added project gives back the taxonomy |
| SchemaManager.RemoveCategoryUndoesAdd | src/pages/SchemaManager/SchemaManagerPage.tsx:129-139 | removing a freshly added category gives back the taxonomy |
| SchemaManager.RemoveTech | src/pages/SchemaManager/SchemaManagerPage.tsx:154-155 | removing a technology leaves projects and categories alone |
| SchemaManager.RemoveTechSpec | src/pages/SchemaManager/SchemaManagerPage.tsx:154-155 | removal keeps exactly the technologies with other names, in order, and an unknown name changes nothing |
| SchemaManager.RemoveTechUndoesAdd | src/pages/SchemaManager/SchemaManagerPage.tsx:145-155 | removing a freshly added technology gives back the taxonomy |
| SchemaManager.AddSubTech | src/pages/SchemaManager/SchemaManagerPage.tsx:160-170 | projects, categories and the number of technologies are kept |
| SchemaManager.AddSubTechSpec | src/pages/SchemaManager/SchemaManagerPage.tsx:160-170 | only technologies named `techName` change, and only by appending a non-blank trimmed sub-technology they lack; an unknown technology leaves the taxonomy equal |
| SchemaManager.RemoveSubTechSpec | src/pages/SchemaManager/SchemaManagerPage.tsx:175-181 | only the sub-technologies of the named technology change, losing exactly `sub` and keeping the rest in order; removing a sub-technology it lacks changes nothing |
| SchemaManager.RemoveSubTechUndoesAdd | src/pages/SchemaManager/SchemaManagerPage.tsx:160-181 | removing a freshly added sub-technology gives back the taxonomy |
| SchemaManager.FilteredTechsSpec | src/pages/SchemaManager/SchemaManagerPage.tsx:185-187 | the filtered list keeps, in order, exactly the technologies whose lower-cased name contains the lower-cased search, or all of them for an empty search |
| SchemaManager.TechsByGroupSpec | src/pages/SchemaManager/SchemaManagerPage.tsx:189-193 | each group holds the matching technologies of that group in order, and a group exists exactly when it has a match |
| SchemaManager.InUseIffSomeEntry | src/pages/SchemaManager/SchemaManagerPage.tsx:196-198 | a project, category or technology is in use exactly when some entry uses it |
| TechSelector.ToggleTechSpec | src/pages/LogEntry/components/TechSelector.tsx:101-107 | toggling flips selection: deselecting removes exactly that technology's selections and keeps the order of the rest; selecting appends one empty selection |
| TechSelector.ToggleTechTwice | src/pages/LogEntry/components/TechSelector.tsx:101-107 | toggling an unselected technology twice restores the selection |
| TechSelector.ClearAll | src/pages/LogEntry/components/TechSelector.tsx:119 | after clearing nothing is selected |
| TechSelector.ToggleSubSpec | src/pages/LogEntry/components/TechSelector.tsx:109-117 | only selections of `techName` change, and only in whether `sub` is chosen: an absent `sub` is appended at the end, a present one is deleted with the other sub-technologies kept in order |
| TechSelector.ToggleSubTwice | src/pages/LogEntry/components/TechSelector.tsx:109-117 | toggling an unchosen sub-technology twice restores the selection |
| TechSelector.HandleAddSubSpec | src/pages/LogEntry/components/TechSelector.tsx:121-130 | the taxonomy update equals the editor's `addSubTech`; a blank input does nothing; otherwise the selection is `toggleSub` by the trimmed name, keeping its length and every selection of another technology |
| TechSelector.GroupedKeys | src/pages/LogEntry/components/TechSelector.tsx:88-97 | every group of the taxonomy has a key, each once, whatever the search |
| TechSelector.GroupedAgreesWithEditor | src/pages/LogEntry/components/TechSelector.tsx:88-97 | each group holds the same technologies in the same order as the editor's per-group view |
| CategoryPicker.ToggleSpec | src/pages/LogEntry/components/CategoryPicker.tsx:32-34 | toggling flips exactly the given category, removes every copy when present, and appends when absent |
| CategoryPicker.ToggleTwice | src/pages/LogEntry/components/CategoryPicker.tsx:32-34 | toggling an absent category twice restores the selection |
| CategoryPicker.HandleAddSpec | src/pages/LogEntry/components/CategoryPicker.tsx:36-40 | the taxonomy update equals the editor's `addCategory`; a blank or known name changes nothing; a new one is appended to the selection |
| ProjectSelector.HandleAddSpec | src/pages/LogEntry/components/ProjectSelector.tsx:31-36 | the taxonomy update equals the editor's `addProject`; a blank or known name changes nothing; a new one becomes the chosen project |
| AppContext.ReducerFrame | src/context/AppContext.tsx:32-43 | every field an action does not write keeps its value, and an unknown action changes nothing |
| AppContext.ReducerWrites | src/context/AppContext.tsx:34-40 | each action writes its payload into its own fields; INIT ends loading and CLEAR_DATA empties entries and preferences |
| AppContext.ReducerIdempotent | src/context/AppContext.tsx:32-43 | dispatching an action twice is dispatching it once |
| AppContext.InitialState | src/context/AppContext.tsx:24-30 | the app starts loading on the log page, with no entries, no preferences and the default taxonomy |
| AppContext.LoadSpec | src/context/AppContext.tsx:63-71 | after loading, the stored values are in place, the default taxonomy replaces a missing one, and the page is kept |
| AppContext.AddEntriesSpec | src/context/AppContext.tsx:78-80 | the old entries stay in front, in order, the new ones follow in order, and nothing else changes |
| AppContext.RemovalsDoNotCascade | src/context/AppContext.tsx:84-85 | a taxonomy update touches nothing but the taxonomy, so removals never reach the entries |
| AppContext.ClearKeeps | src/context/AppContext.tsx:94-95 | clearing keeps taxonomy, page and loading flag |
| LogEntry.ApplyDefaultsSpec | src/hooks/useLogEntry.ts:6-27 | without preferences a fresh task is empty; with them it takes the remembered categories, technologies and team type |
| LogEntry.MergeSpec | src/hooks/useLogEntry.ts:51 | each field the update supplies overrides the task's and each field it leaves out is kept, so the empty update changes nothing and merging is idempotent |
| LogEntry.UpdateTaskSpec | src/hooks/useLogEntry.ts:50-55 | only tasks with the id are merged; that id's error disappears exactly when the title is updated; other errors stay |
| LogEntry.RemoveTaskSpec | src/hooks/useLogEntry.ts:61-63 | removal keeps exactly the tasks with other ids, in order, and nothing else changes |
| LogEntry.RemoveTaskUndoesAdd | src/hooks/useLogEntry.ts:57-63 | adding appends one empty task, and removing it by its fresh id gives back the form |
| LogEntry.ClearTaskSpec | src/hooks/useLogEntry.ts:65-67 | clearing empties the task with that id in place, keeps its id and the other tasks, and is idempotent |
| LogEntry.ClearAll | src/hooks/useLogEntry.ts:69-73 | one empty task, no errors, and the first taxonomy project or "" |
| LogEntry.HasBlankSplit | src/hooks/useLogEntry.ts:77-79 | a blank-titled task with the id is either the last task or an earlier one |
| LogEntry.MissingMembers | src/hooks/useLogEntry.ts:75-79 | an id gets an error exactly when some task with that id has a blank trimmed title |
| LogEntry.MissingNoDuplicates | src/hooks/useLogEntry.ts:76-79 | each id gets at most one error, since errors are keyed by id |
| LogEntry.ValidateSpec | src/hooks/useLogEntry.ts:75-82 | validation passes exactly when no title is blank, and reports exactly the ids with a blank title |
| LogEntry.BuiltEntry | src/hooks/useLogEntry.ts:88-99 | each built entry has today's date, the shared day number, the project, the task's selections and the trimmed texts |
| LogEntry.SubmitCases | src/hooks/useLogEntry.ts:84-115 | a submission succeeds exactly when nothing is missing; on failure the app is untouched and the errors are set; on success entries and preferences are saved and the form is reset |
| LogEntry.SubmitRejects | src/hooks/useLogEntry.ts:85 | a submission fails exactly when some title is blank, and then reports exactly those ids and saves nothing |
| LogEntry.SavedAppSpec | src/hooks/useLogEntry.ts:101-110 | the saved state appends the built entries, records the preferences, and keeps taxonomy, page and loading flag |
| LogEntry.SavedEntries | src/hooks/useLogEntry.ts:88-101 | with valid titles, the old entries stay in front and one entry per task follows, each with a non-empty trimmed title |
| LogEntry.SavedBehind | src/hooks/useLogEntry.ts:88-99 | behind any older entries, the k-th new entry is saved from the k-th task |
| LogEntry.SavedOne | src/hooks/useLogEntry.ts:88-99 | the entry built for a task with a non-blank title carries a non-empty, already trimmed title |
| LogEntry.SubmitEntries | src/hooks/useLogEntry.ts:84-101 | a successful submission appends one entry per task, in order, sharing date, day number and project |
| LogEntry.SubmitPreferences | src/hooks/useLogEntry.ts:103-114 | a successful submission remembers the project, the first task's selections and the task count, and resets the form to one task with those defaults |
| Dashboard.FilteredSpec | src/hooks/useDashboard.ts:12-19 | the filter keeps, in order, exactly the entries in the date range whose project and category pass, each as often as before |
| Dashboard.FilteredAll | src/hooks/useDashboard.ts:12-19 | with "all" filters and every date in range, the filter keeps everything |
| Dashboard.SelectionTechsSpec | src/hooks/useDashboard.ts:32 | the technologies of one entry are exactly the names of its selections |
| Dashboard.TechOccurrencesSpec | src/hooks/useDashboard.ts:32 | a technology is counted exactly when some entry selects it |
| Dashboard.CategoryOccurrencesSpec | src/hooks/useDashboard.ts:66 | a category is counted exactly when some entry has it |
| Dashboard.Take | src/hooks/useDashboard.ts:62 | `slice(0, n)` gives the first n elements, or all of them when there are fewer |
| Dashboard.TopNShape | src/hooks/useDashboard.ts:59-62 | the top-n list has at most n rows, non-increasing counts and distinct names |
| Dashboard.TopNCounts | src/hooks/useDashboard.ts:59-62 | each row's count is the positive number of occurrences of its name |
| Dashboard.TopNMissing | src/hooks/useDashboard.ts:59-62 | a name left out only happens when all n rows are filled, and then its count is at most the last row's |
| Dashboard.MaxCountOf | src/hooks/useDashboard.ts:33 | no name is counted more often than a maximal one |
| Dashboard.TopNameSpec | src/hooks/useDashboard.ts:33-37 | the top name is fixed by the earliest element with the largest count: its name, or "—" when that name is empty; a shown name has the largest count |
| Dashboard.TopTechSpec | src/hooks/useDashboard.ts:31-33 | the top technology is "—" when none is selected; otherwise it comes from a selected technology with a maximal count, and is "—" only when that name is empty |
| Dashboard.TopProjectSpec | src/hooks/useDashboard.ts:36-37 | the top project is "—" without entries; otherwise it comes from a logged project that no project outnumbers, and is "—" only when that name is empty |
| Dashboard.TotalTasksSpec | src/hooks/useDashboard.ts:41 | the task total is the number of entries, which the per-project counts add up to |
| Dashboard.DaysLoggedSpec | src/hooks/useDashboard.ts:23-40 | the number of days logged is the number of date groups |
| Dashboard.DateGroupsOrdered | src/hooks/useDashboard.ts:51-100 | date groups come out strictly ordered and hold every entry |
| Dashboard.DateGroupsItems | src/hooks/useDashboard.ts:97-101 | each date group holds exactly the entries of that date, and is non-empty |
| Dashboard.DateGroupsCover | src/hooks/useDashboard.ts:97-101 | every entry's date has a group |
| Dashboard.TasksOverTimeSpec | src/hooks/useDashboard.ts:51-54 | dates strictly ascend, each count is the number of entries of that date, every date appears, and the counts add up to the filtered length |
| Dashboard.TechUsageSpec | src/hooks/useDashboard.ts:57-62 | at most ten technologies with non-increasing true counts; a technology left out means ten rows whose last count is at least its own |
| Dashboard.CategoriesSpec | src/hooks/useDashboard.ts:65-67 | each category appears once, exactly when some entry has it, with its number of occurrences |
| Dashboard.SoloTeamSpec | src/hooks/useDashboard.ts:70 | at most the two rows "solo" and "team", non-increasing, each with its number of entries, adding up to the filtered length |
| Dashboard.ProjectsSpec | src/hooks/useDashboard.ts:73 | each logged project appears once with its positive number of entries; counts are non-increasing and add up to the filtered length |
| Dashboard.HistoryOrdered | src/hooks/useDashboard.ts:97-102 | history dates strictly descend |
| Dashboard.HistoryDays | src/hooks/useDashboard.ts:97-102 | each day holds exactly the entries of its date, is non-empty, and shows the day number of its first entry |
| Dashboard.HistoryCover | src/hooks/useDashboard.ts:97-102 | every entry's date has a day in the history |
| Dashboard.HistoryMatchesDaysLogged | src/hooks/useDashboard.ts:40-102 | over the whole log, history, tasks-over-time and days-logged all count the same days |
| Dashboard.GetSetKey | src/hooks/useDashboard.ts:89 | assigning a key of a row object sets that key and leaves the others |
| Dashboard.FillRowGet | src/hooks/useDashboard.ts:86-89 | filling a row sets every counted sub-technology to its count and leaves other keys as they were |
| Dashboard.RowAsWrittenLosesLabel | src/hooks/useDashboard.ts:85-89 | as written, a sub-technology called "tech" overwrites the row's technology label |
| Dashboard.RowAsWrittenAgrees | src/hooks/useDashboard.ts:85-89 | when no sub-technology is called "tech", the written row and the corrected row carry the same label and counts |
| Dashboard.SubTechDataSpec | src/hooks/useDashboard.ts:76-91 | exactly min(5, number of technologies used) rows, one per leading technology of the usage chart, each with at most four sub-technologies carrying their true counts, non-increasing and distinct; a sub-technology left out means four rows whose last count is at least its own |
| Toasts.ToastIdInjective | src/hooks/useToast.ts:9 | two toast ids are equal exactly when their counter values are |
| Toasts.InitialWellIssued | src/hooks/useToast.ts:5-6 | a fresh queue is empty and trivially well issued |
| Toasts.AddToastSpec | src/hooks/useToast.ts:8-11 | adding increments the counter and appends exactly one toast with the new id; a removal is scheduled exactly when the duration is positive, and always for the default duration of 4000 |
| Toasts.NewIdIsFresh | src/hooks/useToast.ts:6-9 | the pre-incremented counter gives an id no visible toast has |
| Toasts.AddKeepsWellIssued | src/hooks/useToast.ts:8-10 | adding keeps every visible id issued and all of them distinct |
| Toasts.IdsOfRemoved | src/hooks/useToast.ts:19 | removal filters the ids the same way it filters the toasts |
| Toasts.RemoveToastSpec | src/hooks/useToast.ts:18-20 | removal deletes exactly the toasts with the id, keeps the order of the rest and the counter, and ignores an unknown id |
| Toasts.RemoveKeepsWellIssued | src/hooks/useToast.ts:18-20 | removal keeps the ids issued and distinct |
| Toasts.KeptAreIssued | src/hooks/useToast.ts:18-20 | every kept toast was visible before |
| Toasts.RemoveUndoesAdd | src/hooks/useToast.ts:8-20 | removing the toast just added, or letting its scheduled timer fire, gives back the toasts as they were |

## Left out

- Persistence and I/O are not modelled. `updateSchema`, `addEntries`, `updatePreferences` and `clearData` are modelled only as their dispatches; the storage services, the download in `downloadFile` and the export service are not part of this model.
- `generateId`, `formatDate`, `getTodayStr`, `getWeekRange` and `isInDateRange` depend on the clock, the locale or randomness. Ids, creation timestamps, today's date and the date-range test are parameters of the model.
- `stats.thisWeekCount` is left out, because it depends on the clock.
- The `useEffect` that applies loaded preferences to the log form is left out. So are the `isSubmitting` flag and the ordering of the `await`s. Each handler is one atomic transition.
- The default taxonomy and the group order and label tables are defined in a file that is not part of this model. The default taxonomy is a parameter; the tables do not appear.
- Upper- and lower-casing are ASCII-only, so Unicode case mapping is not modelled.
- `localeCompare` and the default `sort` on dates are modelled as character order (Text.StrLess), which agrees with locale order for ISO dates.
- Strings are sequences of Unicode scalar values. JavaScript strings are sequences of UTF-16 code units, and `.length`, indexing, `charAt` and the default `sort` work on code units. The two agree on every string without characters outside the Basic Multilingual Plane. On strings with such characters (emoji, for example), lengths, edit distances and order can differ.
- Helpers.FirstSimilar: lengths and the edit distance count scalar values, not UTF-16 code units. For example, the source finds "y😀z" similar to "x😀" (code-unit lengths 4 and 3, distance 2), while the model does not. Helpers.FindSimilar, Levenshtein.Distance and Helpers.Capitalize share this difference, and it arises only for characters outside the Basic Multilingual Plane.
- `Object.entries` lists integer-like keys first, in numeric order. The model keeps every key in insertion order.
- Grouping.GroupBy: every key starts with no group. The source's accumulator `{}` inherits from `Object.prototype`. So for a key that names an inherited property (`constructor`, `toString`, `__proto__` and the like), `acc[k]` is already set and `acc[k].push` throws (src/utils/helpers.ts:56-57). A project, date or team type with such a name makes `groupBy` and `countBy` fail, the dashboard's project counts among them. The model does not represent that failure.
- Grouping.Tally: every name starts from a count of 0. In the counting records of src/hooks/useDashboard.ts:31-32 and 57-58, and at lines 66 and 82 of the same file, `(counts[k] || 0) + 1` starts an inherited-property name from the inherited value, so its count becomes a string, and a `__proto__` name is never recorded. The model counts every name as an ordinary key.
- The toast timer is not modelled as a clock. Adding reports the id whose removal it schedules, and the expiry is the same removal.
- Toast message rendering is presentation and is left out.
- The taxonomy handlers' success toasts (`addToast('success', …)` when an add or remove takes effect, src/pages/SchemaManager/SchemaManagerPage.tsx:119-156) and their resets of input fields and modals are not modelled. The models return only the new taxonomy.
- The toast counter and `lastTaskCount` are unbounded naturals. JavaScript numbers lose precision only beyond 2^53 additions.
- The `|| []` and `|| 'solo'` fallbacks on preferences (src/hooks/useLogEntry.ts:21-25, 105-107) fire only for values the types rule out: an array is never false, and a team type is never the empty string. They are modelled as the plain field. `tasks[0]?.…` on an empty task list is modelled.
- The `String(val ?? '')` conversion in the CSV escape takes the day number as its decimal numeral. The optional `categories`, `technologies`, `description` and `subTechs` fallbacks there are dead under the types.
- The form's errors are a duplicate-free list of task ids rather than a map from id to message. The message text is fixed and is not modelled.
- No "use existing / create anyway" confirmation flow exists in the code, so none is modelled. `findSimilar` is modelled on its own. Every duplicate check of the taxonomy editor is exact and case-sensitive, as written.

## Findings

| source | as written | input that shows it | evidently intended | confidence | as-written member | corrected member |
|---|---|---|---|---|---|---|
| src/hooks/useDashboard.ts:85-89 | the sub-technology row is one object whose `tech` key holds the technology name, and the sub-technology counts are written as keys of the same object, so a sub-technology named "tech" overwrites the label with its count | one filtered entry selecting technology "Docker" with sub-technology "tech": the row's `tech` key holds 1 and "Docker" is lost | the row keeps the technology name apart from its sub-technology counts | not executed | Dashboard.RowAsWrittenLosesLabel | Dashboard.SubTechDataSpec |
