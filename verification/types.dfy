/** The application's records (src/utils/types.ts). Ids, groups and ISO date
    strings are opaque strings; `dayNumber` and `lastTaskCount` are naturals. */
module Types {

  /** `'solo' | 'team'`. */
  datatype TeamType = Solo | Team

  /** The string the source stores for a team type. */
  function TeamTypeName(t: TeamType): string
  {
    match t
    case Solo => "solo"
    case Team => "team"
  }

  /** `PageName = 'log' | 'dashboard' | 'schema'`. */
  datatype PageName = LogPage | DashboardPage | SchemaPage

  /** A technology chosen for a task, with the sub-technologies chosen under it. */
  datatype TechSelection = TechSelection(tech: string, subTechs: seq<string>)

  /** `selections.some((s) => s.tech === name)`: some selection is for technology `name`. */
  predicate HasTech(selections: seq<TechSelection>, name: string)
  {
    |selections| > 0 && (selections[0].tech == name || HasTech(selections[1..], name))
  }

  /** `HasTech` is the existence of a selection for `name`. */
  lemma {:induction false} HasTechIffSome(selections: seq<TechSelection>, name: string)
    ensures HasTech(selections, name) <==> exists i :: 0 <= i < |selections| && selections[i].tech == name
    decreases |selections|
  {
    if |selections| > 0 {
      HasTechIffSome(selections[1..], name);
      assert forall i :: 0 < i < |selections| ==> selections[i] == selections[1..][i - 1];
      if exists i :: 0 <= i < |selections| && selections[i].tech == name {
        var i :| 0 <= i < |selections| && selections[i].tech == name;
        if i > 0 {
          assert selections[1..][i - 1].tech == name;
        }
      }
    }
  }

  /** One logged task. */
  datatype Entry = Entry(
    id: string,
    date: string,
    dayNumber: nat,
    project: string,
    categories: seq<string>,
    title: string,
    description: string,
    technologies: seq<TechSelection>,
    teamType: TeamType,
    createdAt: string)

  /** A technology of the taxonomy. */
  datatype SchemaTech = SchemaTech(name: string, group: string, subTechs: seq<string>)

  /** The user-editable taxonomy. */
  datatype Schema = Schema(projects: seq<string>, categories: seq<string>, technologies: seq<SchemaTech>)

  /** What the log form remembers from the last submission. */
  datatype Preferences = Preferences(
    lastProject: string,
    lastCategories: seq<string>,
    lastTechnologies: seq<TechSelection>,
    lastTeamType: TeamType,
    lastTaskCount: nat)

  /** One task being edited in the log form. */
  datatype TaskFormState = TaskFormState(
    id: string,
    categories: seq<string>,
    title: string,
    description: string,
    technologies: seq<TechSelection>,
    teamType: TeamType)

  /** What a picker's handler produces: the (possibly updated) schema it saves and
      the selection it reports through `onChange`. */
  datatype Picked<S> = Picked(schema: Schema, selection: S)
}
