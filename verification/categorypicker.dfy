/** The category picker of the log form
    (src/pages/LogEntry/components/CategoryPicker.tsx): toggling a category in the
    task's selection, and adding a new category to the taxonomy and the selection. */
module CategoryPicker {
  import opened Seqs
  import opened Text
  import opened Types
  import SchemaManager

  /** `toggle`: a selected category loses every copy, an unselected one is appended. */
  function Toggle(selected: seq<string>, cat: string): seq<string>
  {
    if cat in selected then SchemaManager.RemoveName(selected, cat) else selected + [cat]
  }

  /** Toggling flips whether the category is selected and keeps every other
      category where it was. */
  lemma ToggleSpec(selected: seq<string>, cat: string)
    ensures cat in Toggle(selected, cat) <==> cat !in selected
    ensures forall c :: c != cat ==> (c in Toggle(selected, cat) <==> c in selected)
    ensures cat in selected ==> IsSubsequence(Toggle(selected, cat), selected)
    ensures cat !in selected ==> Toggle(selected, cat) == selected + [cat]
  {
    SchemaManager.RemoveNameSpec(selected, cat);
  }

  /** Toggling an unselected category twice gives back the selection. */
  lemma ToggleTwice(selected: seq<string>, cat: string)
    requires cat !in selected
    ensures Toggle(Toggle(selected, cat), cat) == selected
  {
    SchemaManager.RemoveAppended(selected, cat);
  }

  /** `handleAdd`: the trimmed, lower-cased name is appended to the taxonomy and to
      the selection, unless it is blank or already a category. */
  function HandleAdd(schema: Schema, selected: seq<string>, input: string): Picked<seq<string>>
  {
    var t := Lower(Trim(input));
    if |t| == 0 || t in schema.categories then Picked(schema, selected)
    else Picked(schema.(categories := schema.categories + [t]), selected + [t])
  }

  /** The taxonomy update is the editor's `addCategory`; a rejected name changes
      neither the taxonomy nor the selection; an accepted one is also selected, at
      the end. */
  lemma HandleAddSpec(schema: Schema, selected: seq<string>, input: string)
    ensures HandleAdd(schema, selected, input).schema == SchemaManager.AddCategory(schema, input)
    ensures |Trim(input)| == 0 || Lower(Trim(input)) in schema.categories ==>
      HandleAdd(schema, selected, input) == Picked(schema, selected)
    ensures |Trim(input)| > 0 && Lower(Trim(input)) !in schema.categories ==>
      HandleAdd(schema, selected, input).selection == selected + [Lower(Trim(input))]
  {
  }
}
