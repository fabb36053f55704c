/** The technology picker of the log form
    (src/pages/LogEntry/components/TechSelector.tsx): the search-filtered grouping
    of the taxonomy, selecting and deselecting technologies and their
    sub-technologies, and adding a sub-technology to the taxonomy from the picker. */
module TechSelector {
  import opened Seqs
  import opened Text
  import opened Types
  import opened Grouping
  import SchemaManager

  // ---------------------------------------------------------------------------
  // Selecting technologies

  /** `isSelected`. */
  predicate IsSelected(selected: seq<TechSelection>, name: string)
  {
    HasTech(selected, name)
  }

  /** The predicate "is a selection of some other technology than `name`". */
  function ForOther(name: string): TechSelection -> bool
  {
    (s: TechSelection) => s.tech != name
  }

  /** `toggleTech`: a selected technology loses every selection for it; an
      unselected one is appended with no sub-technologies. */
  function ToggleTech(selected: seq<TechSelection>, name: string): seq<TechSelection>
  {
    if IsSelected(selected, name) then Filter(selected, ForOther(name))
    else selected + [TechSelection(name, [])]
  }

  /** Toggling flips whether the technology is selected: deselecting removes exactly
      its selections and keeps the others in order, selecting appends one empty
      selection. */
  lemma ToggleTechSpec(selected: seq<TechSelection>, name: string)
    ensures IsSelected(ToggleTech(selected, name), name) <==> !IsSelected(selected, name)
    ensures IsSelected(selected, name) ==>
      (forall s :: s in ToggleTech(selected, name) <==> s in selected && s.tech != name) &&
      IsSubsequence(ToggleTech(selected, name), selected)
    ensures !IsSelected(selected, name) ==> ToggleTech(selected, name) == selected + [TechSelection(name, [])]
  {
    var r := ToggleTech(selected, name);
    HasTechIffSome(selected, name);
    HasTechIffSome(r, name);
    if IsSelected(selected, name) {
      FilterContents(selected, ForOther(name));
      forall i | 0 <= i < |r| ensures r[i].tech != name {
        assert r[i] in r;
      }
    } else {
      assert r[|r| - 1].tech == name;
    }
  }

  /** Toggling an unselected technology twice gives back the selection. */
  lemma ToggleTechTwice(selected: seq<TechSelection>, name: string)
    requires !IsSelected(selected, name)
    ensures ToggleTech(ToggleTech(selected, name), name) == selected
  {
    var added := TechSelection(name, []);
    ToggleTechSpec(selected, name);
    FilterAppend(selected, added, ForOther(name));
    HasTechIffSome(selected, name);
    FilterAll(selected, ForOther(name));
  }

  /** `clearAll`: nothing stays selected. */
  function ClearAll(selected: seq<TechSelection>): (r: seq<TechSelection>)
    ensures forall name :: !IsSelected(r, name)
  {
    []
  }

  // ---------------------------------------------------------------------------
  // Selecting sub-technologies

  /** One selection after `toggleSub(techName, sub)`: for `techName`, `sub` is removed
      (every copy) when present and appended otherwise; other selections are kept. */
  function ToggleSubIn(s: TechSelection, techName: string, sub: string): TechSelection
  {
    if s.tech != techName then s
    else if sub in s.subTechs then s.(subTechs := SchemaManager.RemoveName(s.subTechs, sub))
    else s.(subTechs := s.subTechs + [sub])
  }

  /** `toggleSub`. */
  function ToggleSub(selected: seq<TechSelection>, techName: string, sub: string): (r: seq<TechSelection>)
    ensures |r| == |selected|
    ensures forall i :: 0 <= i < |selected| ==> r[i] == ToggleSubIn(selected[i], techName, sub)
  {
    if |selected| == 0 then [] else [ToggleSubIn(selected[0], techName, sub)] + ToggleSub(selected[1..], techName, sub)
  }

  /** Toggling a sub-technology keeps every selection's technology, leaves the
      selections of other technologies alone, and in the selections of `techName`
      flips whether `sub` is chosen without touching the other sub-technologies:
      an absent `sub` is appended at the end, a present one is deleted with the
      others kept in order. */
  lemma ToggleSubSpec(selected: seq<TechSelection>, techName: string, sub: string)
    ensures |ToggleSub(selected, techName, sub)| == |selected|
    ensures forall i :: 0 <= i < |selected| ==>
      var old_ := selected[i];
      var new_ := ToggleSub(selected, techName, sub)[i];
      new_.tech == old_.tech &&
      (old_.tech != techName ==> new_ == old_) &&
      (old_.tech == techName ==>
        (sub in new_.subTechs <==> sub !in old_.subTechs) &&
        (forall x :: x != sub ==> (x in new_.subTechs <==> x in old_.subTechs)) &&
        (sub !in old_.subTechs ==> new_.subTechs == old_.subTechs + [sub]) &&
        (sub in old_.subTechs ==> IsSubsequence(new_.subTechs, old_.subTechs)))
  {
    forall i | 0 <= i < |selected| {
      SchemaManager.RemoveNameSpec(selected[i].subTechs, sub);
    }
  }

  /** Toggling a sub-technology that no selection of `techName` has, twice, gives
      back the selection. */
  lemma ToggleSubTwice(selected: seq<TechSelection>, techName: string, sub: string)
    requires forall i :: 0 <= i < |selected| && selected[i].tech == techName ==> sub !in selected[i].subTechs
    ensures ToggleSub(ToggleSub(selected, techName, sub), techName, sub) == selected
  {
    var once := ToggleSub(selected, techName, sub);
    var twice := ToggleSub(once, techName, sub);
    forall i | 0 <= i < |selected| ensures twice[i] == selected[i] {
      var s0 := selected[i];
      if s0.tech == techName {
        assert once[i] == s0.(subTechs := s0.subTechs + [sub]);
        assert sub in once[i].subTechs;
        SchemaManager.RemoveAppended(s0.subTechs, sub);
        assert twice[i] == ToggleSubIn(once[i], techName, sub);
        assert twice[i].subTechs == SchemaManager.RemoveName(s0.subTechs + [sub], sub);
        assert twice[i] == TechSelection(s0.tech, s0.subTechs);
      } else {
        assert once[i] == s0;
        assert twice[i] == ToggleSubIn(once[i], techName, sub);
      }
    }
  }

  // ---------------------------------------------------------------------------
  // Adding a sub-technology from the picker

  /** `handleAddSub`: a blank input changes nothing; otherwise the trimmed name is
      added to the taxonomy technology (unless already there) and then toggled in
      the selection, as the handler calls `toggleSub` with it. */
  function HandleAddSub(schema: Schema, selected: seq<TechSelection>, techName: string, input: string): Picked<seq<TechSelection>>
  {
    var t := Trim(input);
    if |t| == 0 then Picked(schema, selected)
    else Picked(schema.(technologies := SchemaManager.WithSubTech(schema.technologies, techName, t)),
                ToggleSub(selected, techName, t))
  }

  /** The taxonomy update is the editor's `addSubTech`; a blank input changes
      nothing; otherwise the selection is toggled by the trimmed name, so a
      sub-technology that was already selected ends up deselected, one that was
      not ends up selected, and selections of other technologies are unchanged. */
  lemma HandleAddSubSpec(schema: Schema, selected: seq<TechSelection>, techName: string, input: string)
    ensures HandleAddSub(schema, selected, techName, input).schema == SchemaManager.AddSubTech(schema, techName, input)
    ensures |Trim(input)| == 0 ==> HandleAddSub(schema, selected, techName, input) == Picked(schema, selected)
    ensures |Trim(input)| > 0 ==> forall i :: 0 <= i < |selected| && selected[i].tech == techName ==>
      (Trim(input) in HandleAddSub(schema, selected, techName, input).selection[i].subTechs <==> Trim(input) !in selected[i].subTechs)
    ensures |Trim(input)| > 0 ==>
      HandleAddSub(schema, selected, techName, input).selection == ToggleSub(selected, techName, Trim(input))
    ensures |HandleAddSub(schema, selected, techName, input).selection| == |selected|
    ensures forall i :: 0 <= i < |selected| && selected[i].tech != techName ==>
      HandleAddSub(schema, selected, techName, input).selection[i] == selected[i]
  {
    ToggleSubSpec(selected, techName, Trim(input));
  }

  // ---------------------------------------------------------------------------
  // Grouping with search

  /** The picker's search test: an empty search keeps everything, otherwise the
      lower-cased name must contain the lower-cased search. */
  function SearchKeeps(search: string): SchemaTech -> bool
  {
    (t: SchemaTech) => |search| == 0 || Contains(Lower(t.name), Lower(search))
  }

  /** `grouped`: every technology creates its group's key, but only the matching
      ones are pushed, so a group whose technologies are all filtered out is
      still present, with an empty array. */
  function Grouped(techs: seq<SchemaTech>, search: string): seq<Group<SchemaTech>>
  {
    GroupWhere(techs, SchemaManager.GroupOf, SearchKeeps(search))
  }

  /** `grouped` has a key for every group of the taxonomy, each once, in order of
      first appearance, whatever the search. */
  lemma GroupedKeys(techs: seq<SchemaTech>, search: string)
    ensures Keys(Grouped(techs, search)) == Dedup(MapKeys(techs, SchemaManager.GroupOf))
    ensures forall t :: t in techs ==> t.group in Keys(Grouped(techs, search))
  {
    GroupWhereKeys(techs, SchemaManager.GroupOf, SearchKeeps(search));
    forall t | t in techs ensures t.group in MapKeys(techs, SchemaManager.GroupOf) {
      var i :| 0 <= i < |techs| && techs[i] == t;
      assert MapKeys(techs, SchemaManager.GroupOf)[i] == t.group;
    }
  }

  /** Each array of `grouped` holds the same technologies, in the same order, as the
      editor's `techsByGroup` for that group: the two pages filter alike and differ
      only in which empty groups they show. */
  lemma GroupedAgreesWithEditor(techs: seq<SchemaTech>, search: string, g: string)
    ensures Lookup(Grouped(techs, search), g) == Lookup(SchemaManager.TechsByGroup(techs, search), g)
  {
    var keep := SearchKeeps(search);
    var matches := SchemaManager.NameMatches(search);
    GroupWhereLookup(techs, SchemaManager.GroupOf, keep, g);
    SchemaManager.TechsByGroupSpec(techs, search, g);
    SchemaManager.FilteredTechsSpec(techs, search);
    forall t ensures keep(t) == matches(t) {
      ContainsTrivial(Lower(t.name), Lower(search));
      assert |search| == 0 ==> |Lower(search)| == 0 && Lower(search) == [];
    }
    FilterFilter(techs, matches, KeyIs(SchemaManager.GroupOf, g), InGroup(SchemaManager.GroupOf, keep, g));
  }
}
