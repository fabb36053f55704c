/** The log form (src/hooks/useLogEntry.ts): the list of tasks being edited, the
    per-task title errors, and `submit`, which turns the tasks into entries and
    remembers the last-used values as preferences. Fresh ids, the clock and today's
    date are parameters; each handler is one atomic step from the old form to the
    new one. */
module LogEntry {
  import opened Seqs
  import opened Text
  import opened Types
  import Helpers
  import SchemaManager
  import AppContext

  /** The form's state: the selected project, the tasks, and the ids of the tasks
      that carry the error "Title is required" (the keys of `errors`, in insertion
      order; every error has that one message). */
  datatype Form = Form(project: string, tasks: seq<TaskFormState>, errors: seq<string>)

  // ---------------------------------------------------------------------------
  // New tasks

  /** `createEmptyTask`, with the fresh id as a parameter. */
  function EmptyTask(id: string): TaskFormState
  {
    TaskFormState(id, [], "", "", [], Solo)
  }

  /** `applyDefaults`: without preferences an empty task; with them, the last-used
      categories, technologies and team type, and empty text. */
  function ApplyDefaults(prefs: Option<Preferences>, id: string): TaskFormState
  {
    match prefs
    case None => EmptyTask(id)
    case Some(p) => TaskFormState(id, p.lastCategories, "", "", p.lastTechnologies, p.lastTeamType)
  }

  /** Without preferences the defaults are an empty task; with preferences they
      differ from an empty task only in the three remembered fields, and preferences
      that remember nothing give an empty task. */
  lemma ApplyDefaultsSpec(prefs: Option<Preferences>, id: string)
    ensures prefs.None? ==> ApplyDefaults(prefs, id) == EmptyTask(id)
    ensures prefs.Some? ==>
      ApplyDefaults(prefs, id) == EmptyTask(id).(categories := prefs.value.lastCategories,
                                                 technologies := prefs.value.lastTechnologies,
                                                 teamType := prefs.value.lastTeamType)
    ensures prefs.Some? && prefs.value.lastCategories == [] && prefs.value.lastTechnologies == [] ==>
      ApplyDefaults(prefs, id) == EmptyTask(id).(teamType := prefs.value.lastTeamType)
  {
  }

  // ---------------------------------------------------------------------------
  // Editing the task list

  /** `Partial<TaskFormState>`: the fields an update supplies. */
  datatype TaskUpdate = TaskUpdate(
    id: Option<string>,
    categories: Option<seq<string>>,
    title: Option<string>,
    description: Option<string>,
    technologies: Option<seq<TechSelection>>,
    teamType: Option<TeamType>)

  /** Either the supplied value or the current one. */
  function Or<T>(o: Option<T>, current: T): T
  {
    match o
    case Some(v) => v
    case None => current
  }

  /** `{ ...t, ...updates }`. */
  function Merge(t: TaskFormState, u: TaskUpdate): TaskFormState
  {
    TaskFormState(Or(u.id, t.id), Or(u.categories, t.categories), Or(u.title, t.title),
                  Or(u.description, t.description), Or(u.technologies, t.technologies),
                  Or(u.teamType, t.teamType))
  }

  /** Each field the update supplies overrides the task's, and each field it leaves
      out keeps the task's; so an update that supplies nothing changes nothing, and
      applying an update a second time changes nothing more. */
  lemma MergeSpec(t: TaskFormState, u: TaskUpdate)
    ensures Merge(t, TaskUpdate(None, None, None, None, None, None)) == t
    ensures Merge(Merge(t, u), u) == Merge(t, u)
    ensures u.id.Some? ==> Merge(t, u).id == u.id.value
    ensures u.id.None? ==> Merge(t, u).id == t.id
    ensures u.categories.Some? ==> Merge(t, u).categories == u.categories.value
    ensures u.categories.None? ==> Merge(t, u).categories == t.categories
    ensures u.title.Some? ==> Merge(t, u).title == u.title.value
    ensures u.title.None? ==> Merge(t, u).title == t.title
    ensures u.description.Some? ==> Merge(t, u).description == u.description.value
    ensures u.description.None? ==> Merge(t, u).description == t.description
    ensures u.technologies.Some? ==> Merge(t, u).technologies == u.technologies.value
    ensures u.technologies.None? ==> Merge(t, u).technologies == t.technologies
    ensures u.teamType.Some? ==> Merge(t, u).teamType == u.teamType.value
    ensures u.teamType.None? ==> Merge(t, u).teamType == t.teamType
  {
  }

  /** `prev.map((t) => t.id === taskId ? f(t) : t)`. */
  function ReplaceWhere(tasks: seq<TaskFormState>, taskId: string, f: TaskFormState -> TaskFormState): (r: seq<TaskFormState>)
    ensures |r| == |tasks|
    ensures forall i :: 0 <= i < |tasks| ==> r[i] == if tasks[i].id == taskId then f(tasks[i]) else tasks[i]
  {
    if |tasks| == 0 then []
    else [if tasks[0].id == taskId then f(tasks[0]) else tasks[0]] + ReplaceWhere(tasks[1..], taskId, f)
  }

  /** `updateTask`: merges the update into every task with that id, and forgets the
      id's error when the update supplies a title. */
  function UpdateTask(form: Form, taskId: string, u: TaskUpdate): Form
  {
    form.(tasks := ReplaceWhere(form.tasks, taskId, (t: TaskFormState) => Merge(t, u)),
          errors := if u.title.Some? then SchemaManager.RemoveName(form.errors, taskId) else form.errors)
  }

  /** Only the tasks with that id change, and each becomes the merge; the id keeps
      its error exactly when the update supplies no title; every other error stays. */
  lemma UpdateTaskSpec(form: Form, taskId: string, u: TaskUpdate)
    ensures var r := UpdateTask(form, taskId, u);
      r.project == form.project && |r.tasks| == |form.tasks| &&
      (forall i :: 0 <= i < |form.tasks| && form.tasks[i].id != taskId ==> r.tasks[i] == form.tasks[i]) &&
      (forall i :: 0 <= i < |form.tasks| && form.tasks[i].id == taskId ==> r.tasks[i] == Merge(form.tasks[i], u))
    ensures taskId in UpdateTask(form, taskId, u).errors <==> taskId in form.errors && u.title.None?
    ensures forall x :: x != taskId ==> (x in UpdateTask(form, taskId, u).errors <==> x in form.errors)
  {
    SchemaManager.RemoveNameSpec(form.errors, taskId);
  }

  /** `addTask`, with the fresh id as a parameter. */
  function AddTask(form: Form, id: string): Form
  {
    form.(tasks := form.tasks + [EmptyTask(id)])
  }

  /** The predicate "has some other id than `taskId`". */
  function OtherId(taskId: string): TaskFormState -> bool
  {
    (t: TaskFormState) => t.id != taskId
  }

  /** `removeTask`. */
  function RemoveTask(form: Form, taskId: string): Form
  {
    form.(tasks := Filter(form.tasks, OtherId(taskId)))
  }

  /** Removing deletes every task with that id and keeps the others in order, and
      nothing else in the form changes. */
  lemma RemoveTaskSpec(form: Form, taskId: string)
    ensures forall t :: t in RemoveTask(form, taskId).tasks <==> t in form.tasks && t.id != taskId
    ensures IsSubsequence(RemoveTask(form, taskId).tasks, form.tasks)
    ensures RemoveTask(form, taskId).(tasks := form.tasks) == form
  {
    FilterContents(form.tasks, OtherId(taskId));
  }

  /** Adding a task with an unused id appends exactly one empty task, and removing
      it again gives back the form. */
  lemma RemoveTaskUndoesAdd(form: Form, id: string)
    requires forall i :: 0 <= i < |form.tasks| ==> form.tasks[i].id != id
    ensures AddTask(form, id).tasks[..|form.tasks|] == form.tasks
    ensures AddTask(form, id).tasks[|form.tasks|..] == [EmptyTask(id)]
    ensures RemoveTask(AddTask(form, id), id) == form
  {
    FilterAppend(form.tasks, EmptyTask(id), OtherId(id));
    FilterAll(form.tasks, OtherId(id));
  }

  /** The reset a task gets from `clearTask`: an empty task with the same id. */
  function Cleared(t: TaskFormState): TaskFormState
  {
    EmptyTask(t.id)
  }

  /** `clearTask`. */
  function ClearTask(form: Form, taskId: string): Form
  {
    form.(tasks := ReplaceWhere(form.tasks, taskId, Cleared))
  }

  /** Clearing keeps every task's id and position, empties the tasks with that id,
      leaves the other tasks alone, and clearing twice is clearing once. */
  lemma ClearTaskSpec(form: Form, taskId: string)
    ensures var r := ClearTask(form, taskId);
      |r.tasks| == |form.tasks| && r.errors == form.errors && r.project == form.project &&
      (forall i :: 0 <= i < |form.tasks| ==> r.tasks[i].id == form.tasks[i].id) &&
      (forall i :: 0 <= i < |form.tasks| && form.tasks[i].id == taskId ==> r.tasks[i] == EmptyTask(taskId)) &&
      (forall i :: 0 <= i < |form.tasks| && form.tasks[i].id != taskId ==> r.tasks[i] == form.tasks[i])
    ensures ClearTask(ClearTask(form, taskId), taskId) == ClearTask(form, taskId)
  {
  }

  /** `clearAll`: the first project of the taxonomy (or none), one empty task with
      the fresh id, and no errors. */
  function ClearAll(form: Form, schema: Schema, id: string): (r: Form)
    ensures r.tasks == [EmptyTask(id)] && r.errors == []
    ensures |schema.projects| == 0 ==> r.project == ""
    ensures |schema.projects| > 0 ==> r.project == schema.projects[0]
  {
    Form(if |schema.projects| > 0 then schema.projects[0] else "", [EmptyTask(id)], [])
  }

  // ---------------------------------------------------------------------------
  // Validation

  /** A title that trims to the empty string. */
  predicate BlankTitle(t: TaskFormState)
  {
    |Trim(t.title)| == 0
  }

  /** The keys `validate` writes into `newErrors`: the ids of the tasks with a blank
      title, each once, in order of first appearance. */
  function Missing(tasks: seq<TaskFormState>): seq<string>
    decreases |tasks|
  {
    if |tasks| == 0 then []
    else
      var e := Missing(tasks[..|tasks| - 1]);
      var t := tasks[|tasks| - 1];
      if BlankTitle(t) && t.id !in e then e + [t.id] else e
  }

  /** `validate`: the error keys, and whether there are none. */
  function Validate(tasks: seq<TaskFormState>): (seq<string>, bool)
  {
    var e := Missing(tasks);
    (e, |e| == 0)
  }

  /** Some task with id `id` has a blank title. */
  predicate HasBlank(tasks: seq<TaskFormState>, id: string)
  {
    Any(tasks, BlankWithId(id))
  }

  /** The predicate "has id `id` and a blank title". */
  function BlankWithId(id: string): TaskFormState -> bool
  {
    (t: TaskFormState) => t.id == id && BlankTitle(t)
  }

  /** A blank-titled task with id `id` is either in the front or the last task. */
  lemma HasBlankSplit(tasks: seq<TaskFormState>, id: string)
    requires |tasks| > 0
    ensures HasBlank(tasks, id) <==>
      HasBlank(tasks[..|tasks| - 1], id) || (tasks[|tasks| - 1].id == id && BlankTitle(tasks[|tasks| - 1]))
  {
    AnyInit(tasks, BlankWithId(id));
  }

  /** An id has an error exactly when some task with that id has a blank title. */
  lemma {:induction false} MissingMembers(tasks: seq<TaskFormState>, id: string)
    ensures id in Missing(tasks) <==> HasBlank(tasks, id)
    decreases |tasks|
  {
    if |tasks| > 0 {
      var front := tasks[..|tasks| - 1];
      MissingMembers(front, id);
      HasBlankSplit(tasks, id);
    }
  }

  /** No id has its error listed twice. */
  lemma {:induction false} MissingNoDuplicates(tasks: seq<TaskFormState>)
    ensures NoDuplicates(Missing(tasks))
    decreases |tasks|
  {
    if |tasks| > 0 {
      var front := tasks[..|tasks| - 1];
      MissingNoDuplicates(front);
      var e := Missing(front);
      var t := tasks[|tasks| - 1];
      if BlankTitle(t) && t.id !in e {
        AppendFreshNoDuplicates(e, t.id);
      }
    }
  }

  /** `validate` succeeds exactly when every title is non-blank, and reports the
      ids of exactly the tasks with blank titles, each once. */
  lemma ValidateSpec(tasks: seq<TaskFormState>)
    ensures Validate(tasks).1 <==> forall i :: 0 <= i < |tasks| ==> !BlankTitle(tasks[i])
    ensures forall id :: id in Validate(tasks).0 <==> HasBlank(tasks, id)
    ensures NoDuplicates(Validate(tasks).0)
  {
    var e := Missing(tasks);
    assert Validate(tasks) == (e, |e| == 0);
    forall id ensures id in e <==> HasBlank(tasks, id) {
      MissingMembers(tasks, id);
    }
    MissingNoDuplicates(tasks);
    forall i | 0 <= i < |tasks| && BlankTitle(tasks[i]) ensures |e| > 0 {
      assert HasBlank(tasks, tasks[i].id);
    }
    if |e| > 0 {
      assert e[0] in e;
    }
  }

  // ---------------------------------------------------------------------------
  // Submitting

  /** The entry `submit` builds from the task at position `k`: today's date and day
      number, the form's project, the task's selections, and the trimmed texts. */
  function BuildEntry(t: TaskFormState, k: nat, entryId: nat -> string, createdAt: nat -> string,
                      todayStr: string, dayNumber: nat, project: string): Entry
  {
    Entry(entryId(k), todayStr, dayNumber, project, t.categories, Trim(t.title), Trim(t.description),
          t.technologies, t.teamType, createdAt(k))
  }

  /** `tasks.map(...)`: one entry per task, in order. */
  function BuildEntries(tasks: seq<TaskFormState>, entryId: nat -> string, createdAt: nat -> string,
                        todayStr: string, dayNumber: nat, project: string): (r: seq<Entry>)
    ensures |r| == |tasks|
    ensures forall k :: 0 <= k < |tasks| ==> r[k] == BuildEntry(tasks[k], k, entryId, createdAt, todayStr, dayNumber, project)
  {
    seq(|tasks|, k requires 0 <= k < |tasks| => BuildEntry(tasks[k], k, entryId, createdAt, todayStr, dayNumber, project))
  }

  /** The preferences `submit` saves: the project, the first task's selections (or
      none when there is no task), and the number of tasks. */
  function LastPreferences(project: string, tasks: seq<TaskFormState>): Preferences
  {
    if |tasks| == 0 then Preferences(project, [], [], Solo, 0)
    else Preferences(project, tasks[0].categories, tasks[0].technologies, tasks[0].teamType, |tasks|)
  }

  /** The outcome of `submit`: its boolean result, the app state after it, and the
      form after it. */
  datatype Submitted = Submitted(ok: bool, app: AppContext.AppState, form: Form)

  /** The app state after a valid submission: the new entries added, then the
      preferences saved. */
  function SavedApp(app: AppContext.AppState, form: Form, todayStr: string,
                    entryId: nat -> string, createdAt: nat -> string): AppContext.AppState
  {
    var dayNumber := Helpers.GetDayNumber(app.entries, todayStr);
    var entries := BuildEntries(form.tasks, entryId, createdAt, todayStr, dayNumber, form.project);
    AppContext.UpdatePreferences(AppContext.AddEntries(app, entries), LastPreferences(form.project, form.tasks))
  }

  /** The form after a valid submission: one task with the new defaults, no errors. */
  function ResetForm(form: Form, resetId: string): Form
  {
    form.(tasks := [ApplyDefaults(Some(LastPreferences(form.project, form.tasks)), resetId)], errors := [])
  }

  /** `submit`: when a title is blank, the errors are shown and nothing is saved;
      otherwise the entries are added, the preferences saved and the form reset to
      one task with the new defaults. `entryId(k)` and `createdAt(k)` are the id and
      timestamp generated for the k-th task, `resetId` the id of the fresh task. */
  function Submit(app: AppContext.AppState, form: Form, todayStr: string,
                  entryId: nat -> string, createdAt: nat -> string, resetId: string): Submitted
  {
    var (errors, valid) := Validate(form.tasks);
    if !valid then Submitted(false, app, form.(errors := errors))
    else Submitted(true, SavedApp(app, form, todayStr, entryId, createdAt), ResetForm(form, resetId))
  }

  /** `submit` either fails and only shows the errors, or saves and resets. */
  lemma SubmitCases(app: AppContext.AppState, form: Form, todayStr: string,
                    entryId: nat -> string, createdAt: nat -> string, resetId: string)
    ensures var s := Submit(app, form, todayStr, entryId, createdAt, resetId);
      s.ok == (|Missing(form.tasks)| == 0) &&
      (s.ok ==> s.app == SavedApp(app, form, todayStr, entryId, createdAt) && s.form == ResetForm(form, resetId)) &&
      (!s.ok ==> s.app == app && s.form == form.(errors := Missing(form.tasks)))
  {
  }

  /** A submission with a blank title fails, keeps the app state and the tasks, and
      reports exactly the tasks with blank titles; one without succeeds. */
  lemma SubmitRejects(app: AppContext.AppState, form: Form, todayStr: string,
                      entryId: nat -> string, createdAt: nat -> string, resetId: string)
    ensures var s := Submit(app, form, todayStr, entryId, createdAt, resetId);
      s.ok <==> forall i :: 0 <= i < |form.tasks| ==> !BlankTitle(form.tasks[i])
    ensures var s := Submit(app, form, todayStr, entryId, createdAt, resetId);
      !s.ok ==> s.app == app && s.form.tasks == form.tasks && s.form.project == form.project &&
                (forall id :: id in s.form.errors <==> HasBlank(form.tasks, id))
  {
    ValidateSpec(form.tasks);
  }

  /** The saved app state holds the old entries followed by the built ones, and
      the preferences `submit` computes; nothing else changes. */
  lemma SavedAppSpec(app: AppContext.AppState, form: Form, todayStr: string,
                     entryId: nat -> string, createdAt: nat -> string)
    ensures var r := SavedApp(app, form, todayStr, entryId, createdAt);
      r.entries == app.entries + BuildEntries(form.tasks, entryId, createdAt, todayStr,
                                              Helpers.GetDayNumber(app.entries, todayStr), form.project) &&
      r.preferences == Some(LastPreferences(form.project, form.tasks)) &&
      r.schema == app.schema && r.currentPage == app.currentPage && r.isLoading == app.isLoading
  {
  }

  /** Behind any prefix of older entries, the k-th built entry comes from the k-th
      task: today's date, the one day number, the form's project, the task's
      selections and its trimmed texts. */
  lemma BuiltEntry(old_: seq<Entry>, tasks: seq<TaskFormState>, todayStr: string, dayNumber: nat, project: string,
                   entryId: nat -> string, createdAt: nat -> string, k: nat)
    requires k < |tasks|
    ensures var e := (old_ + BuildEntries(tasks, entryId, createdAt, todayStr, dayNumber, project))[|old_| + k];
      e.date == todayStr && e.dayNumber == dayNumber && e.project == project &&
      e.categories == tasks[k].categories && e.technologies == tasks[k].technologies &&
      e.teamType == tasks[k].teamType &&
      e.title == Trim(tasks[k].title) && e.description == Trim(tasks[k].description)
  {
    var built := BuildEntries(tasks, entryId, createdAt, todayStr, dayNumber, project);
    assert (old_ + built)[|old_| + k] == built[k];
  }

  /** `e` is what `submit` saves for task `t`: today's date, the shared day number,
      the form's project, the task's selections, a non-empty title that is the
      task's trimmed title, and the task's trimmed description. */
  predicate SavedFrom(e: Entry, t: TaskFormState, todayStr: string, dayNumber: nat, project: string)
  {
    e.date == todayStr && e.dayNumber == dayNumber && e.project == project &&
    e.categories == t.categories && e.technologies == t.technologies && e.teamType == t.teamType &&
    |e.title| > 0 && e.title == Trim(t.title) && Trim(e.title) == e.title &&
    e.description == Trim(t.description) && Trim(e.description) == e.description
  }

  /** When every title is non-blank, the saved state keeps the existing entries in
      front and appends one entry per task, in order, each saved from its task. */
  lemma SavedEntries(app: AppContext.AppState, form: Form, todayStr: string,
                     entryId: nat -> string, createdAt: nat -> string)
    requires forall i :: 0 <= i < |form.tasks| ==> !BlankTitle(form.tasks[i])
    ensures var r := SavedApp(app, form, todayStr, entryId, createdAt);
      var n := |app.entries|;
      |r.entries| == n + |form.tasks| && r.entries[..n] == app.entries &&
      forall k :: 0 <= k < |form.tasks| ==>
        SavedFrom(r.entries[n + k], form.tasks[k], todayStr, Helpers.GetDayNumber(app.entries, todayStr), form.project)
  {
    SavedAppSpec(app, form, todayStr, entryId, createdAt);
    SavedBehind(app.entries, form.tasks, todayStr, Helpers.GetDayNumber(app.entries, todayStr), form.project,
                entryId, createdAt);
  }

  /** Behind any prefix of older entries, the built entries follow, one per task,
      each saved from its task. */
  lemma SavedBehind(old_: seq<Entry>, tasks: seq<TaskFormState>, todayStr: string, dayNumber: nat, project: string,
                    entryId: nat -> string, createdAt: nat -> string)
    requires forall i :: 0 <= i < |tasks| ==> !BlankTitle(tasks[i])
    ensures var all := old_ + BuildEntries(tasks, entryId, createdAt, todayStr, dayNumber, project);
      |all| == |old_| + |tasks| && all[..|old_|] == old_ &&
      forall k :: 0 <= k < |tasks| ==> SavedFrom(all[|old_| + k], tasks[k], todayStr, dayNumber, project)
  {
    var all := old_ + BuildEntries(tasks, entryId, createdAt, todayStr, dayNumber, project);
    forall k | 0 <= k < |tasks|
      ensures SavedFrom(all[|old_| + k], tasks[k], todayStr, dayNumber, project)
    {
      SavedOne(old_, tasks, todayStr, dayNumber, project, entryId, createdAt, k);
    }
    assert all[..|old_|] == old_;
  }

  /** The entry built for one task with a non-blank title is saved from that task. */
  lemma SavedOne(old_: seq<Entry>, tasks: seq<TaskFormState>, todayStr: string, dayNumber: nat, project: string,
                 entryId: nat -> string, createdAt: nat -> string, k: nat)
    requires k < |tasks| && !BlankTitle(tasks[k])
    ensures SavedFrom((old_ + BuildEntries(tasks, entryId, createdAt, todayStr, dayNumber, project))[|old_| + k],
                      tasks[k], todayStr, dayNumber, project)
  {
    BuiltEntry(old_, tasks, todayStr, dayNumber, project, entryId, createdAt, k);
    TrimIdempotent(tasks[k].title);
    TrimIdempotent(tasks[k].description);
  }

  /** A successful submission keeps the existing entries in front and appends one
      entry per task, in order, each saved from its task; all share one day number. */
  lemma SubmitEntries(app: AppContext.AppState, form: Form, todayStr: string,
                      entryId: nat -> string, createdAt: nat -> string, resetId: string)
    ensures var s := Submit(app, form, todayStr, entryId, createdAt, resetId);
      s.ok ==>
        var n := |app.entries|;
        |s.app.entries| == n + |form.tasks| && s.app.entries[..n] == app.entries &&
        forall k :: 0 <= k < |form.tasks| ==>
          SavedFrom(s.app.entries[n + k], form.tasks[k], todayStr, Helpers.GetDayNumber(app.entries, todayStr), form.project)
  {
    SubmitCases(app, form, todayStr, entryId, createdAt, resetId);
    if Submit(app, form, todayStr, entryId, createdAt, resetId).ok {
      ValidateSpec(form.tasks);
      SavedEntries(app, form, todayStr, entryId, createdAt);
    }
  }

  /** A successful submission remembers the project, the first task's selections and
      the number of tasks, and resets the form to one task carrying those
      selections; with no tasks at all it adds no entries, remembers empty
      selections and resets to an empty task. */
  lemma SubmitPreferences(app: AppContext.AppState, form: Form, todayStr: string,
                          entryId: nat -> string, createdAt: nat -> string, resetId: string)
    ensures var s := Submit(app, form, todayStr, entryId, createdAt, resetId);
      s.ok ==>
        s.app.preferences.Some? &&
        s.app.preferences.value.lastProject == form.project &&
        s.app.preferences.value.lastTaskCount == |form.tasks| &&
        s.form.errors == [] && s.form.project == form.project && |s.form.tasks| == 1 &&
        s.form.tasks[0].id == resetId && s.form.tasks[0].title == "" && s.form.tasks[0].description == ""
    ensures var s := Submit(app, form, todayStr, entryId, createdAt, resetId);
      s.ok && |form.tasks| > 0 ==>
        s.app.preferences.value.lastCategories == form.tasks[0].categories &&
        s.app.preferences.value.lastTechnologies == form.tasks[0].technologies &&
        s.app.preferences.value.lastTeamType == form.tasks[0].teamType &&
        s.form.tasks[0].categories == form.tasks[0].categories &&
        s.form.tasks[0].technologies == form.tasks[0].technologies &&
        s.form.tasks[0].teamType == form.tasks[0].teamType
    ensures var s := Submit(app, form, todayStr, entryId, createdAt, resetId);
      s.ok && |form.tasks| == 0 ==>
        s.form.tasks == [EmptyTask(resetId)] && s.app.entries == app.entries &&
        s.app.preferences == Some(Preferences(form.project, [], [], Solo, 0))
  {
    var s := Submit(app, form, todayStr, entryId, createdAt, resetId);
    if s.ok {
      SavedAppSpec(app, form, todayStr, entryId, createdAt);
    }
  }
}
