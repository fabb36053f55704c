/** The taxonomy editor (src/pages/SchemaManager/SchemaManagerPage.tsx): adding
    and removing projects, categories, technologies and sub-technologies, the tech
    search with its grouping, and the "in use" tests on the logged entries.
    Every handler is a function from the old schema to the new one; duplicate
    checks are exact and case-sensitive, and new names go at the end. */
module SchemaManager {
  import opened Seqs
  import opened Text
  import opened Types
  import opened Grouping

  // ---------------------------------------------------------------------------
  // Name lists

  /** Appends `t` unless it is empty or already present (`if (!t || xs.includes(t)) return`). */
  function AppendNew(xs: seq<string>, t: string): (r: seq<string>)
    ensures |t| == 0 || t in xs ==> r == xs
    ensures |t| > 0 && t !in xs ==> r == xs + [t]
  {
    if |t| == 0 || t in xs then xs else xs + [t]
  }

  /** The predicate "differs from `name`". */
  function Differs(name: string): string -> bool
  {
    x => x != name
  }

  /** `xs.filter((x) => x !== name)`. */
  function RemoveName(xs: seq<string>, name: string): seq<string>
  {
    Filter(xs, Differs(name))
  }

  /** Removing a name deletes every copy of it, keeps everything else in its
      order, and changes nothing when the name is absent. */
  lemma RemoveNameSpec(xs: seq<string>, name: string)
    ensures forall x :: x in RemoveName(xs, name) <==> x in xs && x != name
    ensures IsSubsequence(RemoveName(xs, name), xs)
    ensures name !in xs ==> RemoveName(xs, name) == xs
  {
    FilterContents(xs, Differs(name));
    if name !in xs {
      FilterAll(xs, Differs(name));
    }
  }

  /** Adding a name keeps a duplicate-free list duplicate-free. */
  lemma AppendNewNoDuplicates(xs: seq<string>, t: string)
    requires NoDuplicates(xs)
    ensures NoDuplicates(AppendNew(xs, t))
  {
    if |t| > 0 && t !in xs {
      AppendFreshNoDuplicates(xs, t);
    }
  }

  /** Removing a name that was just appended restores the list. */
  lemma RemoveAppended(xs: seq<string>, t: string)
    requires t !in xs
    ensures RemoveName(xs + [t], t) == xs
  {
    FilterAppend(xs, t, Differs(t));
    RemoveNameSpec(xs, t);
  }

  /** Removing a name that `AppendNew` was given restores the list. */
  lemma RemoveUndoesAppend(xs: seq<string>, t: string)
    requires t !in xs
    ensures RemoveName(AppendNew(xs, t), t) == xs
  {
    if |t| > 0 {
      RemoveAppended(xs, t);
    } else {
      RemoveNameSpec(xs, t);
    }
  }

  /** Removing keeps a duplicate-free list duplicate-free. */
  lemma RemoveNameNoDuplicates(xs: seq<string>, name: string)
    requires NoDuplicates(xs)
    ensures NoDuplicates(RemoveName(xs, name))
  {
    RemoveNameSpec(xs, name);
    SubsequenceKeepsNoDuplicates(RemoveName(xs, name), xs);
  }

  // ---------------------------------------------------------------------------
  // Projects and categories

  /** `addProject`: the trimmed name is appended unless it is blank or already there. */
  function AddProject(schema: Schema, input: string): (r: Schema)
    ensures r.categories == schema.categories && r.technologies == schema.technologies
    ensures |Trim(input)| == 0 || Trim(input) in schema.projects ==> r == schema
    ensures |Trim(input)| > 0 && Trim(input) !in schema.projects ==> r.projects == schema.projects + [Trim(input)]
  {
    schema.(projects := AppendNew(schema.projects, Trim(input)))
  }

  /** `removeProject`: deletes every copy of the name. */
  function RemoveProject(schema: Schema, name: string): (r: Schema)
    ensures r.categories == schema.categories && r.technologies == schema.technologies
  {
    schema.(projects := RemoveName(schema.projects, name))
  }

  /** `addCategory`: like `addProject`, on the trimmed and lower-cased name, which is
      also the form the duplicate check compares. */
  function AddCategory(schema: Schema, input: string): (r: Schema)
    ensures r.projects == schema.projects && r.technologies == schema.technologies
    ensures |Trim(input)| == 0 ==> r == schema
    ensures Lower(Trim(input)) in schema.categories ==> r == schema
    ensures |Trim(input)| > 0 && Lower(Trim(input)) !in schema.categories ==>
      r.categories == schema.categories + [Lower(Trim(input))]
  {
    schema.(categories := AppendNew(schema.categories, Lower(Trim(input))))
  }

  /** `removeCategory`: deletes every copy of the name. */
  function RemoveCategory(schema: Schema, name: string): (r: Schema)
    ensures r.projects == schema.projects && r.technologies == schema.technologies
  {
    schema.(categories := RemoveName(schema.categories, name))
  }

  /** Adding a project or category keeps its list duplicate-free. */
  lemma AddKeepsNoDuplicates(schema: Schema, input: string)
    requires NoDuplicates(schema.projects) && NoDuplicates(schema.categories)
    ensures NoDuplicates(AddProject(schema, input).projects)
    ensures NoDuplicates(AddCategory(schema, input).categories)
  {
    AppendNewNoDuplicates(schema.projects, Trim(input));
    AppendNewNoDuplicates(schema.categories, Lower(Trim(input)));
  }

  /** Removing a project or category deletes exactly that name, keeps the order of
      the rest, and changes nothing when the name is absent. */
  lemma RemoveProjectAndCategorySpec(schema: Schema, name: string)
    ensures forall x :: x in RemoveProject(schema, name).projects <==> x in schema.projects && x != name
    ensures IsSubsequence(RemoveProject(schema, name).projects, schema.projects)
    ensures name !in schema.projects ==> RemoveProject(schema, name) == schema
    ensures forall x :: x in RemoveCategory(schema, name).categories <==> x in schema.categories && x != name
    ensures IsSubsequence(RemoveCategory(schema, name).categories, schema.categories)
    ensures name !in schema.categories ==> RemoveCategory(schema, name) == schema
  {
    RemoveNameSpec(schema.projects, name);
    RemoveNameSpec(schema.categories, name);
  }

  /** Removing a project that was just added gives back the schema. */
  lemma RemoveProjectUndoesAdd(schema: Schema, input: string)
    requires Trim(input) !in schema.projects
    ensures RemoveProject(AddProject(schema, input), Trim(input)) == schema
  {
    RemoveUndoesAppend(schema.projects, Trim(input));
  }

  /** Removing a category that was just added gives back the schema. */
  lemma RemoveCategoryUndoesAdd(schema: Schema, input: string)
    requires Lower(Trim(input)) !in schema.categories
    ensures RemoveCategory(AddCategory(schema, input), Lower(Trim(input))) == schema
  {
    RemoveUndoesAppend(schema.categories, Lower(Trim(input)));
  }

  // ---------------------------------------------------------------------------
  // Technologies

  /** The names of the technologies, in order. */
  function TechNames(techs: seq<SchemaTech>): (ns: seq<string>)
    ensures |ns| == |techs|
    ensures forall i :: 0 <= i < |techs| ==> ns[i] == techs[i].name
  {
    seq(|techs|, i requires 0 <= i < |techs| => techs[i].name)
  }

  /** `addTech`: appends `{ name, group, subTechs: [] }` for the trimmed name, unless
      it is blank or a technology of that exact name exists. */
  function AddTech(schema: Schema, input: string, group: string): (r: Schema)
    ensures r.projects == schema.projects && r.categories == schema.categories
    ensures |Trim(input)| == 0 || Trim(input) in TechNames(schema.technologies) ==> r == schema
    ensures |Trim(input)| > 0 && Trim(input) !in TechNames(schema.technologies) ==>
      r.technologies == schema.technologies + [SchemaTech(Trim(input), group, [])]
  {
    var t := Trim(input);
    if |t| == 0 || t in TechNames(schema.technologies) then schema
    else schema.(technologies := schema.technologies + [SchemaTech(t, group, [])])
  }

  /** The predicate "is not named `name`". */
  function NamedOther(name: string): SchemaTech -> bool
  {
    (t: SchemaTech) => t.name != name
  }

  /** `removeTech`: deletes every technology with that name. */
  function RemoveTech(schema: Schema, name: string): (r: Schema)
    ensures r.projects == schema.projects && r.categories == schema.categories
  {
    schema.(technologies := Filter(schema.technologies, NamedOther(name)))
  }

  /** The technology names after appending one technology. */
  lemma TechNamesAppend(techs: seq<SchemaTech>, t: SchemaTech)
    ensures TechNames(techs + [t]) == TechNames(techs) + [t.name]
  {
    assert forall i :: 0 <= i < |techs| ==> (techs + [t])[i] == techs[i];
  }

  /** Adding a technology keeps the technology names duplicate-free. */
  lemma AddTechNoDuplicates(schema: Schema, input: string, group: string)
    requires NoDuplicates(TechNames(schema.technologies))
    ensures NoDuplicates(TechNames(AddTech(schema, input, group).technologies))
  {
    var t := Trim(input);
    if |t| > 0 && t !in TechNames(schema.technologies) {
      TechNamesAppend(schema.technologies, SchemaTech(t, group, []));
      AppendFreshNoDuplicates(TechNames(schema.technologies), t);
    }
  }

  /** Removing a technology deletes exactly the technologies of that name and keeps
      the others in order; an absent name changes nothing. */
  lemma RemoveTechSpec(schema: Schema, name: string)
    ensures forall t :: t in RemoveTech(schema, name).technologies <==> t in schema.technologies && t.name != name
    ensures IsSubsequence(RemoveTech(schema, name).technologies, schema.technologies)
    ensures name !in TechNames(schema.technologies) ==> RemoveTech(schema, name) == schema
  {
    FilterContents(schema.technologies, NamedOther(name));
    if name !in TechNames(schema.technologies) {
      assert forall i :: 0 <= i < |schema.technologies| ==> schema.technologies[i].name != name by {
        assert forall i :: 0 <= i < |schema.technologies| ==> TechNames(schema.technologies)[i] == schema.technologies[i].name;
      }
      FilterAll(schema.technologies, NamedOther(name));
    }
  }

  /** Removing a technology that was just added gives back the schema. */
  lemma RemoveTechUndoesAdd(schema: Schema, input: string, group: string)
    requires Trim(input) !in TechNames(schema.technologies)
    ensures RemoveTech(AddTech(schema, input, group), Trim(input)) == schema
  {
    var t := Trim(input);
    if |t| > 0 {
      FilterAppend(schema.technologies, SchemaTech(t, group, []), NamedOther(t));
    }
    RemoveTechSpec(schema, t);
  }

  // ---------------------------------------------------------------------------
  // Sub-technologies

  /** One technology after adding sub-technology `t` under `techName`: it gains `t`
      at the end when it has that name and lacks `t`. */
  function AddSubTo(tech: SchemaTech, techName: string, t: string): SchemaTech
  {
    if tech.name == techName && t !in tech.subTechs then tech.(subTechs := tech.subTechs + [t]) else tech
  }

  /** The `technologies.map(...)` shared by `addSubTech` here and `handleAddSub` in
      the tech selector. */
  function WithSubTech(techs: seq<SchemaTech>, techName: string, t: string): (r: seq<SchemaTech>)
    ensures |r| == |techs|
    ensures forall i :: 0 <= i < |techs| ==> r[i] == AddSubTo(techs[i], techName, t)
  {
    if |techs| == 0 then [] else [AddSubTo(techs[0], techName, t)] + WithSubTech(techs[1..], techName, t)
  }

  /** `addSubTech`: a blank sub-technology changes nothing; otherwise the trimmed
      name is added to every technology named `techName` that lacks it. */
  function AddSubTech(schema: Schema, techName: string, input: string): (r: Schema)
    ensures r.projects == schema.projects && r.categories == schema.categories
    ensures |r.technologies| == |schema.technologies|
  {
    var t := Trim(input);
    if |t| == 0 then schema else schema.(technologies := WithSubTech(schema.technologies, techName, t))
  }

  /** After `addSubTech`, every technology named `techName` lists the sub-technology
      (once, when it did not before), and every other technology is unchanged; a
      blank input or an unknown `techName` leaves the schema as it was. */
  lemma AddSubTechSpec(schema: Schema, techName: string, input: string)
    ensures var r := AddSubTech(schema, techName, input);
      forall i :: 0 <= i < |schema.technologies| ==>
        var old_ := schema.technologies[i];
        var new_ := r.technologies[i];
        new_.name == old_.name && new_.group == old_.group &&
        (old_.name != techName || |Trim(input)| == 0 ==> new_ == old_) &&
        (old_.name == techName && |Trim(input)| > 0 ==>
          new_.subTechs == if Trim(input) in old_.subTechs then old_.subTechs else old_.subTechs + [Trim(input)])
    ensures techName !in TechNames(schema.technologies) ==> AddSubTech(schema, techName, input) == schema
  {
    var t := Trim(input);
    if |t| > 0 && techName !in TechNames(schema.technologies) {
      var r := AddSubTech(schema, techName, input);
      assert forall i :: 0 <= i < |schema.technologies| ==> TechNames(schema.technologies)[i] == schema.technologies[i].name;
      assert r.technologies == schema.technologies;
    }
  }

  /** One technology after removing sub-technology `sub` under `techName`. */
  function RemoveSubFrom(tech: SchemaTech, techName: string, sub: string): SchemaTech
  {
    if tech.name == techName then tech.(subTechs := RemoveName(tech.subTechs, sub)) else tech
  }

  /** `removeSubTech`: deletes `sub` from every technology named `techName`. */
  function RemoveSubTech(schema: Schema, techName: string, sub: string): (r: Schema)
    ensures r.projects == schema.projects && r.categories == schema.categories
    ensures |r.technologies| == |schema.technologies|
    ensures forall i :: 0 <= i < |schema.technologies| ==> r.technologies[i] == RemoveSubFrom(schema.technologies[i], techName, sub)
  {
    schema.(technologies := seq(|schema.technologies|, i requires 0 <= i < |schema.technologies| =>
      RemoveSubFrom(schema.technologies[i], techName, sub)))
  }

  /** Removing a sub-technology only touches the `subTechs` of the technologies named
      `techName`, from which it deletes exactly `sub`, keeping the others in order;
      a sub-technology none of them has changes nothing. */
  lemma RemoveSubTechSpec(schema: Schema, techName: string, sub: string)
    ensures var r := RemoveSubTech(schema, techName, sub);
      forall i :: 0 <= i < |schema.technologies| ==>
        var old_ := schema.technologies[i];
        var new_ := r.technologies[i];
        new_.name == old_.name && new_.group == old_.group &&
        (old_.name != techName ==> new_ == old_) &&
        (forall x :: x in new_.subTechs <==> x in old_.subTechs && (old_.name != techName || x != sub)) &&
        IsSubsequence(new_.subTechs, old_.subTechs) &&
        (sub !in old_.subTechs ==> new_ == old_)
    ensures (forall i :: 0 <= i < |schema.technologies| && schema.technologies[i].name == techName ==>
               sub !in schema.technologies[i].subTechs) ==>
      RemoveSubTech(schema, techName, sub) == schema
  {
    var r := RemoveSubTech(schema, techName, sub);
    forall i | 0 <= i < |schema.technologies| {
      RemoveSubFromSpec(schema.technologies[i], techName, sub);
    }
    if forall i :: 0 <= i < |schema.technologies| && schema.technologies[i].name == techName ==>
         sub !in schema.technologies[i].subTechs {
      assert r.technologies == schema.technologies;
    }
  }

  /** Removing a sub-technology from one technology. */
  lemma RemoveSubFromSpec(tech: SchemaTech, techName: string, sub: string)
    ensures var new_ := RemoveSubFrom(tech, techName, sub);
      new_.name == tech.name && new_.group == tech.group &&
      (tech.name != techName ==> new_ == tech) &&
      (forall x :: x in new_.subTechs <==> x in tech.subTechs && (tech.name != techName || x != sub)) &&
      IsSubsequence(new_.subTechs, tech.subTechs) &&
      (sub !in tech.subTechs ==> new_ == tech)
  {
    RemoveNameSpec(tech.subTechs, sub);
    SubsequenceReflexive(tech.subTechs);
  }

  /** Removing a sub-technology that `addSubTech` just added gives back the schema. */
  lemma RemoveSubTechUndoesAdd(schema: Schema, techName: string, input: string)
    requires forall i :: 0 <= i < |schema.technologies| && schema.technologies[i].name == techName ==>
      Trim(input) !in schema.technologies[i].subTechs
    ensures RemoveSubTech(AddSubTech(schema, techName, input), techName, Trim(input)) == schema
  {
    var t := Trim(input);
    var r := RemoveSubTech(AddSubTech(schema, techName, input), techName, t);
    forall i | 0 <= i < |schema.technologies|
      ensures r.technologies[i] == schema.technologies[i]
    {
      var tech := schema.technologies[i];
      if tech.name == techName {
        if |t| > 0 {
          RemoveUndoesAppend(tech.subTechs, t);
        } else {
          RemoveNameSpec(tech.subTechs, t);
        }
      }
    }
  }

  // ---------------------------------------------------------------------------
  // Search and grouping

  /** The tech search's test: the lower-cased name contains the lower-cased search. */
  function NameMatches(search: string): SchemaTech -> bool
  {
    (t: SchemaTech) => Contains(Lower(t.name), Lower(search))
  }

  /** `filteredTechs`: all technologies for an empty search, otherwise those whose
      name matches it, in schema order. */
  function FilteredTechs(techs: seq<SchemaTech>, search: string): seq<SchemaTech>
  {
    if |search| == 0 then techs else Filter(techs, NameMatches(search))
  }

  /** The filtered list keeps exactly the matching technologies, in order; since the
      empty search is contained in every name, it is the same as filtering with
      the match test alone. */
  lemma FilteredTechsSpec(techs: seq<SchemaTech>, search: string)
    ensures forall t :: t in FilteredTechs(techs, search) <==> t in techs && (|search| == 0 || NameMatches(search)(t))
    ensures IsSubsequence(FilteredTechs(techs, search), techs)
    ensures FilteredTechs(techs, search) == Filter(techs, NameMatches(search))
  {
    FilterContents(techs, NameMatches(search));
    if |search| == 0 {
      forall i | 0 <= i < |techs| ensures NameMatches(search)(techs[i]) {
        ContainsTrivial(Lower(techs[i].name), Lower(search));
      }
      FilterAll(techs, NameMatches(search));
      FilterContents(techs, Always());
      FilterAll(techs, Always());
    }
  }

  /** A technology's group, as a grouping key. */
  function GroupOf(t: SchemaTech): string
  {
    t.group
  }

  /** `techsByGroup`: the filtered technologies grouped by group, groups in order of
      first appearance. */
  function TechsByGroup(techs: seq<SchemaTech>, search: string): seq<Group<SchemaTech>>
  {
    GroupBy(FilteredTechs(techs, search), GroupOf)
  }

  /** Each group holds exactly the matching technologies of that group, in schema
      order; the groups are those of the matching technologies, each once. */
  lemma TechsByGroupSpec(techs: seq<SchemaTech>, search: string, g: string)
    ensures Lookup(TechsByGroup(techs, search), g) == Filter(FilteredTechs(techs, search), KeyIs(GroupOf, g))
    ensures NoDuplicates(Keys(TechsByGroup(techs, search)))
    ensures g in Keys(TechsByGroup(techs, search)) <==> exists t :: t in FilteredTechs(techs, search) && t.group == g
  {
    var f := FilteredTechs(techs, search);
    GroupByLookup(f, GroupOf, g);
    GroupByKeys(f, GroupOf);
    GroupByHasKey(f, GroupOf, g);
  }

  // ---------------------------------------------------------------------------
  // In-use checks

  /** `projectInUse`: some entry is for project `name`. */
  predicate ProjectInUse(entries: seq<Entry>, name: string)
  {
    |entries| > 0 && (entries[0].project == name || ProjectInUse(entries[1..], name))
  }

  /** `categoryInUse`: some entry lists category `name`. */
  predicate CategoryInUse(entries: seq<Entry>, name: string)
  {
    |entries| > 0 && (name in entries[0].categories || CategoryInUse(entries[1..], name))
  }

  /** `techInUse`: some entry selected technology `name`. */
  predicate TechInUse(entries: seq<Entry>, name: string)
  {
    |entries| > 0 && (HasTech(entries[0].technologies, name) || TechInUse(entries[1..], name))
  }

  /** The three checks are existence of an entry that uses the name. */
  lemma {:induction false} InUseIffSomeEntry(entries: seq<Entry>, name: string)
    ensures ProjectInUse(entries, name) <==> exists e :: e in entries && e.project == name
    ensures CategoryInUse(entries, name) <==> exists e :: e in entries && name in e.categories
    ensures TechInUse(entries, name) <==> exists e :: e in entries && HasTech(e.technologies, name)
    decreases |entries|
  {
    if |entries| > 0 {
      InUseIffSomeEntry(entries[1..], name);
      assert entries == [entries[0]] + entries[1..];
      assert forall e :: e in entries <==> e == entries[0] || e in entries[1..];
    }
  }
}
