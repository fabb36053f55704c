/** The project selector of the log form
    (src/pages/LogEntry/components/ProjectSelector.tsx): adding a new project to
    the taxonomy and choosing it. */
module ProjectSelector {
  import opened Text
  import opened Types
  import SchemaManager

  /** `handleAdd`: the trimmed name is appended to the projects and becomes the
      chosen project, unless it is blank or already a project, which changes
      nothing. */
  function HandleAdd(schema: Schema, value: string, input: string): Picked<string>
  {
    var t := Trim(input);
    if |t| == 0 || t in schema.projects then Picked(schema, value)
    else Picked(schema.(projects := schema.projects + [t]), t)
  }

  /** The taxonomy update is the editor's `addProject`; a rejected name changes
      nothing; an accepted one is chosen and is then a project. */
  lemma HandleAddSpec(schema: Schema, value: string, input: string)
    ensures HandleAdd(schema, value, input).schema == SchemaManager.AddProject(schema, input)
    ensures |Trim(input)| == 0 || Trim(input) in schema.projects ==> HandleAdd(schema, value, input) == Picked(schema, value)
    ensures |Trim(input)| > 0 && Trim(input) !in schema.projects ==>
      HandleAdd(schema, value, input).selection == Trim(input) &&
      Trim(input) in HandleAdd(schema, value, input).schema.projects
  {
  }
}
