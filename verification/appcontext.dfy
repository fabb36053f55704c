/** The application state and its reducer (src/context/AppContext.tsx): a closed
    set of actions, each of which replaces some fields of the state and keeps the
    rest; the initial state; the fallback to the default taxonomy on load; and
    `addEntries`, `updateSchema`, `updatePreferences`, `clearData` and `setPage`,
    each of which dispatches one action. Persistence is not part of the model. */
module AppContext {
  import opened Seqs
  import opened Types
  import SchemaManager

  /** `AppState`. */
  datatype AppState = AppState(
    entries: seq<Entry>,
    schema: Schema,
    preferences: Option<Preferences>,
    currentPage: PageName,
    isLoading: bool)

  /** `Action`; `Unrecognized` stands for any object whose `type` is none of the
      seven, which the reducer's `default` branch handles. */
  datatype Action =
    | SetLoading(loading: bool)
    | Init(initEntries: seq<Entry>, initSchema: Schema, initPreferences: Option<Preferences>)
    | SetPage(page: PageName)
    | SetEntries(newEntries: seq<Entry>)
    | SetSchema(newSchema: Schema)
    | SetPreferences(newPreferences: Preferences)
    | ClearData
    | Unrecognized

  /** `reducer`. */
  function Reducer(state: AppState, action: Action): AppState
  {
    match action
    case SetLoading(b) => state.(isLoading := b)
    case Init(es, sc, pr) => state.(entries := es, schema := sc, preferences := pr, isLoading := false)
    case SetPage(p) => state.(currentPage := p)
    case SetEntries(es) => state.(entries := es)
    case SetSchema(sc) => state.(schema := sc)
    case SetPreferences(pr) => state.(preferences := Some(pr))
    case ClearData => state.(entries := [], preferences := None)
    case Unrecognized => state
  }

  /** The fields of the state. */
  datatype Field = EntriesField | SchemaField | PreferencesField | PageField | LoadingField

  /** `s` and `t` hold the same value in field `f`. */
  predicate SameIn(s: AppState, t: AppState, f: Field)
  {
    match f
    case EntriesField => s.entries == t.entries
    case SchemaField => s.schema == t.schema
    case PreferencesField => s.preferences == t.preferences
    case PageField => s.currentPage == t.currentPage
    case LoadingField => s.isLoading == t.isLoading
  }

  /** The fields an action is meant to write. */
  function Writes(action: Action): set<Field>
  {
    match action
    case SetLoading(_) => {LoadingField}
    case Init(_, _, _) => {EntriesField, SchemaField, PreferencesField, LoadingField}
    case SetPage(_) => {PageField}
    case SetEntries(_) => {EntriesField}
    case SetSchema(_) => {SchemaField}
    case SetPreferences(_) => {PreferencesField}
    case ClearData => {EntriesField, PreferencesField}
    case Unrecognized => {}
  }

  /** Every field an action does not write keeps its value; in particular an
      unrecognised action returns the state unchanged, and `INIT` keeps the page. */
  lemma ReducerFrame(state: AppState, action: Action)
    ensures forall f :: f !in Writes(action) ==> SameIn(Reducer(state, action), state, f)
    ensures action.Unrecognized? ==> Reducer(state, action) == state
  {
  }

  /** The fields an action writes take the action's payload: `INIT` copies the three
      loaded values and ends loading, `CLEAR_DATA` empties the entries and forgets
      the preferences. */
  lemma ReducerWrites(state: AppState, action: Action)
    ensures action.SetLoading? ==> Reducer(state, action).isLoading == action.loading
    ensures action.Init? ==>
      var r := Reducer(state, action);
      r.entries == action.initEntries && r.schema == action.initSchema &&
      r.preferences == action.initPreferences && !r.isLoading
    ensures action.SetPage? ==> Reducer(state, action).currentPage == action.page
    ensures action.SetEntries? ==> Reducer(state, action).entries == action.newEntries
    ensures action.SetSchema? ==> Reducer(state, action).schema == action.newSchema
    ensures action.SetPreferences? ==> Reducer(state, action).preferences == Some(action.newPreferences)
    ensures action.ClearData? ==> Reducer(state, action).entries == [] && Reducer(state, action).preferences.None?
  {
  }

  /** Dispatching the same action twice is dispatching it once: every action sets
      fields to values that do not depend on the state. */
  lemma ReducerIdempotent(state: AppState, action: Action)
    ensures Reducer(Reducer(state, action), action) == Reducer(state, action)
  {
  }

  /** `initialState`, with the default taxonomy as a parameter. */
  function InitialState(defaultSchema: Schema): (s: AppState)
    ensures s.entries == [] && s.preferences.None? && s.currentPage == LogPage && s.isLoading
    ensures s.schema == defaultSchema
  {
    AppState([], defaultSchema, None, LogPage, true)
  }

  /** `schema ?? defaultSchema`: the stored taxonomy, or the default when none was stored. */
  function LoadedSchema(stored: Option<Schema>, defaultSchema: Schema): Schema
  {
    match stored
    case Some(s) => s
    case None => defaultSchema
  }

  /** The `INIT` action `init` dispatches after loading. */
  function InitAction(entries: seq<Entry>, stored: Option<Schema>, preferences: Option<Preferences>, defaultSchema: Schema): Action
  {
    Init(entries, LoadedSchema(stored, defaultSchema), preferences)
  }

  /** After loading, the app is no longer loading, still on the page it started on,
      and holds the loaded entries and preferences and the stored taxonomy, or the
      default one when none was stored. */
  lemma LoadSpec(state: AppState, entries: seq<Entry>, stored: Option<Schema>, preferences: Option<Preferences>, defaultSchema: Schema)
    ensures var r := Reducer(state, InitAction(entries, stored, preferences, defaultSchema));
      !r.isLoading && r.currentPage == state.currentPage &&
      r.entries == entries && r.preferences == preferences &&
      (stored.None? ==> r.schema == defaultSchema) &&
      (stored.Some? ==> r.schema == stored.value)
  {
  }

  /** `addEntries`: dispatches the old entries followed by the new ones. */
  function AddEntries(state: AppState, newEntries: seq<Entry>): AppState
  {
    Reducer(state, SetEntries(state.entries + newEntries))
  }

  /** The old entries come first, unchanged and in order, then the new ones in
      order; nothing else changes. */
  lemma AddEntriesSpec(state: AppState, newEntries: seq<Entry>)
    ensures var r := AddEntries(state, newEntries);
      |r.entries| == |state.entries| + |newEntries| &&
      r.entries[..|state.entries|] == state.entries &&
      r.entries[|state.entries|..] == newEntries &&
      r.(entries := state.entries) == state
  {
  }

  /** `updateSchema`. */
  function UpdateSchema(state: AppState, schema: Schema): AppState
  {
    Reducer(state, SetSchema(schema))
  }

  /** `updatePreferences`. */
  function UpdatePreferences(state: AppState, prefs: Preferences): AppState
  {
    Reducer(state, SetPreferences(prefs))
  }

  /** `clearData`. */
  function ClearAllData(state: AppState): AppState
  {
    Reducer(state, ClearData)
  }

  /** `setPage`. */
  function SetCurrentPage(state: AppState, page: PageName): AppState
  {
    Reducer(state, SetPage(page))
  }

  /** Removing a name from the taxonomy does not cascade: the logged entries, the
      preferences and the rest of the state stay as they were. */
  lemma RemovalsDoNotCascade(state: AppState, name: string, sub: string)
    ensures UpdateSchema(state, SchemaManager.RemoveProject(state.schema, name)).entries == state.entries
    ensures UpdateSchema(state, SchemaManager.RemoveCategory(state.schema, name)).entries == state.entries
    ensures UpdateSchema(state, SchemaManager.RemoveTech(state.schema, name)).entries == state.entries
    ensures UpdateSchema(state, SchemaManager.RemoveSubTech(state.schema, name, sub)).entries == state.entries
    ensures forall sc :: UpdateSchema(state, sc).(schema := state.schema) == state
  {
  }

  /** Clearing keeps the taxonomy, the page and the loading flag. */
  lemma ClearKeeps(state: AppState)
    ensures var r := ClearAllData(state);
      r.schema == state.schema && r.currentPage == state.currentPage && r.isLoading == state.isLoading &&
      r.entries == [] && r.preferences.None?
  {
  }
}
