/**
 * The `SchemaCollectionManager` of the schema loader, as the object it is:
 * a namespace table, the `defsById` definition table and the dependency
 * graph, updated step by step by `addNamespaceData`, the `process*` passes
 * and the `declare*ToFlow` emitters. Every method is proved to leave exactly
 * the state the functions of `SchemaResolver` and `DeclarationEmitter`
 * describe, so the properties proved about those hold of the object.
 */
module ApiSchemaLoader {
  import opened Schema
  import opened FlowTypesGenerator
  import opened DepsGraph
  import opened SchemaResolver
  import opened DeclarationEmitter

  class SchemaCollectionManager {
    var namespaces: Namespaces
    var defsById: map<string, Def>
    const depsGraph: Graph

    ghost predicate Valid()
      reads this, depsGraph
    {
      namespaces.Valid() && depsGraph.Valid()
    }

    /** The state as a value: namespaces, `defsById` and the graph's edges. */
    function State(): Registry
      reads this, depsGraph
    {
      Registry(namespaces, defsById, depsGraph.edges)
    }

    constructor ()
      ensures Valid() && fresh(depsGraph)
      ensures State() == Registry(EmptyMap(), map[], [])
    {
      namespaces := EmptyMap();
      defsById := map[];
      depsGraph := new Graph();
    }

    /**
     * `addNamespaceData(nsData)`: a new namespace starts from the fragment's
     * lists (absent ones empty), a known one has them appended; either way
     * the namespace is recorded as a namespace definition.
     */
    method AddNamespaceData(nsData: NsData)
      requires Valid()
      modifies this
      ensures Valid()
      ensures namespaces == Merged(old(namespaces), nsData)
      ensures defsById == old(defsById)[nsData.namespace := NamespaceRecord(nsData.namespace)]
    {
      var namespace := nsData.namespace;
      if namespace !in namespaces.entries {
        namespaces := namespaces.Set(namespace,
          Namespace(namespace, nsData.events.OrEmpty(), nsData.functions.OrEmpty(), nsData.types.OrEmpty()));
      } else {
        var ns := namespaces.entries[namespace];
        ghost var known := ns;
        if nsData.events.Present? {
          ns := ns.(events := ns.events + nsData.events.list);
        }
        if nsData.functions.Present? {
          ns := ns.(functions := ns.functions + nsData.functions.list);
        }
        if nsData.types.Present? {
          ns := ns.(types := ns.types + nsData.types.list);
        }
        assert known.events + [] == known.events && known.functions + [] == known.functions && known.types + [] == known.types;
        assert ns == known.(
          events := known.events + nsData.events.OrEmpty(),
          functions := known.functions + nsData.functions.OrEmpty(),
          types := known.types + nsData.types.OrEmpty());
        namespaces := namespaces.Set(namespace, ns);
      }
      defsById := defsById[namespace := Def(NamespaceDef, Some(namespace), None, None, None, None)];
    }

    /**
     * `processParameters(def, property)`: an edge from the last segment of
     * each parameter's truthy `$ref` to the member's id.
     */
    method ProcessParameters(def: Node, extra: bool)
      requires depsGraph.Valid()
      modifies depsGraph
      ensures depsGraph.Valid()
      ensures depsGraph.edges ==
        old(depsGraph.edges) + ParameterEdges(if extra then def.extraParameters.OrEmpty() else def.parameters.OrEmpty(), Str(def.id))
    {
      var id := Str(def.id);
      var ps := if extra then def.extraParameters.OrEmpty() else def.parameters.OrEmpty();
      ghost var start := depsGraph.edges;
      for i := 0 to |ps|
        invariant depsGraph.Valid()
        invariant depsGraph.edges == start + ParameterEdges(ps[..i], id)
      {
        ParameterEdgesStep(start, ps, i, id);
        var parameter := ps[i];
        if Truthy(parameter.ref) {
          var ref := LastSegment(parameter.ref.value);
          // the "Unexpected nested reference" error cannot happen
          assert '.' !in ref;
          depsGraph.Add(ref, id);
        }
      }
      FullSlice(ps);
    }

    /** `processReturns(def)`: an edge from the last segment of `returns.$ref` to the member's id, when not empty. */
    method ProcessReturns(def: Node)
      requires depsGraph.Valid()
      modifies depsGraph
      ensures depsGraph.Valid()
      ensures depsGraph.edges == old(depsGraph.edges) + ReturnsEdges(def, Str(def.id))
    {
      var id := Str(def.id);
      if def.returnType.Some? {
        var retRef := LastSegment(def.returnType.value.ref.GetOr(""));
        if retRef != "" {
          // the "Unexpected nested reference" error cannot happen
          assert '.' !in retRef;
          depsGraph.Add(retRef, id);
        }
      }
    }

    /**
     * `processNamespaces()`: the type pass of every namespace, in key order,
     * then the function and event passes of every namespace. The first
     * failing type pass is the error.
     */
    method ProcessNamespaces() returns (r: Result<()>)
      requires Valid()
      modifies this, depsGraph
      ensures Valid()
      ensures ProcessAll(old(State())).Ok? ==> r.Ok? && State() == ProcessAll(old(State())).value
      ensures ProcessAll(old(State())).Err? ==> r == Err(ProcessAll(old(State())).error)
    {
      r := ProcessAllTypes();
      if r.Ok? {
        ProcessAllMembers();
      }
    }

    /** The first loop of `processNamespaces`. */
    method ProcessAllTypes() returns (r: Result<()>)
      requires Valid()
      modifies this, depsGraph
      ensures Valid()
      ensures TypePasses(old(State()), old(namespaces.keys)).Ok? ==>
        r.Ok? && State() == TypePasses(old(State()), old(namespaces.keys)).value
      ensures TypePasses(old(State()), old(namespaces.keys)).Err? ==>
        r == Err(TypePasses(old(State()), old(namespaces.keys)).error)
    {
      ghost var before := State();
      var keys := namespaces.keys;
      for i := 0 to |keys|
        invariant Valid()
        invariant TypePasses(before, keys[..i]) == Ok(State())
      {
        var typed := ProcessTypesStep(before, keys, i);
        if typed.Err? {
          TypePassesErrPrefix(before, keys, i + 1);
          return Err(typed.error);
        }
      }
      FullSlice(keys);
      r := Ok(());
    }

    /** One iteration of the first loop of `processNamespaces`: the type pass of `keys[i]`. */
    method ProcessTypesStep(ghost before: Registry, keys: seq<string>, i: nat) returns (r: Result<()>)
      requires before.namespaces.Valid() && before.namespaces.keys == keys && i < |keys|
      requires Valid() && TypePasses(before, keys[..i]) == Ok(State())
      modifies this, depsGraph
      ensures Valid()
      ensures TypePasses(before, keys[..i + 1]).Ok? ==> r.Ok? && TypePasses(before, keys[..i + 1]) == Ok(State())
      ensures TypePasses(before, keys[..i + 1]).Err? ==> r == Err(TypePasses(before, keys[..i + 1]).error)
    {
      TypePassesStep(before, keys, i);
      r := ProcessNamespaceTypes(keys[i]);
    }

    /** The second loop of `processNamespaces`. */
    method ProcessAllMembers()
      requires Valid()
      modifies this, depsGraph
      ensures Valid()
      ensures State() == MemberPasses(old(State()), old(namespaces.keys))
    {
      ghost var before := State();
      var keys := namespaces.keys;
      for i := 0 to |keys|
        invariant Valid()
        invariant State() == MemberPasses(before, keys[..i])
      {
        ProcessNamespaceMembers(before, keys, i);
      }
      FullSlice(keys);
    }

    /** One iteration of the second loop of `processNamespaces`: the function and event passes of `keys[i]`. */
    method ProcessNamespaceMembers(ghost before: Registry, keys: seq<string>, i: nat)
      requires before.namespaces.Valid() && before.namespaces.keys == keys && i < |keys|
      requires Valid() && State() == MemberPasses(before, keys[..i])
      modifies this, depsGraph
      ensures Valid() && State() == MemberPasses(before, keys[..i + 1])
    {
      MemberPassesStep(before, keys, i);
      ProcessNamespaceFunctions(keys[i]);
      ProcessNamespaceEvents(keys[i]);
    }

    /**
     * The last loop of `processNamespaceTypes`: each type is recorded in
     * `defs` under its id, and the graph gets the edge `id → ns`.
     */
    method RegisterTypes(namespace: string, values: seq<Node>, defs0: map<string, Def>) returns (defs: map<string, Def>)
      requires depsGraph.Valid()
      modifies depsGraph
      ensures depsGraph.Valid()
      ensures defs == TypeDefs(defs0, namespace, values)
      ensures depsGraph.edges == old(depsGraph.edges) + TypeEdges(namespace, values)
    {
      ghost var start := depsGraph.edges;
      defs := defs0;
      for i := 0 to |values|
        invariant depsGraph.Valid()
        invariant defs == TypeDefs(defs0, namespace, values[..i])
        invariant depsGraph.edges == start + TypeEdges(namespace, values[..i])
      {
        var typeDef := values[i];
        defs := defs[Str(typeDef.id) := Def(TypeDef, typeDef.id, Some(namespace), Some(typeDef), None, None)];
        depsGraph.Add(Str(typeDef.id), namespace);
        TypeStep(defs0, start, namespace, values, i);
      }
      FullSlice(values);
    }

    /**
     * `processNamespaceTypes(namespace)`: the types without `$extend`, one
     * per id, with the choices of their extensions appended, replace the
     * namespace's types and are registered with an edge to the namespace. An
     * extension of an undeclared type is an error, and then nothing changes.
     */
    method ProcessNamespaceTypes(namespace: string) returns (r: Result<()>)
      requires Valid() && namespace in namespaces.entries
      modifies this, depsGraph
      ensures Valid()
      ensures TypePass(old(State()), namespace).Ok? ==> r.Ok? && State() == TypePass(old(State()), namespace).value
      ensures TypePass(old(State()), namespace).Err? ==> r == Err(TypePass(old(State()), namespace).error) && State() == old(State())
    {
      var ns := namespaces.entries[namespace];
      var extendsByTarget, typesById := CollectTypes(ns.types);
      var extended := ApplyAllExtensions(typesById, extendsByTarget);
      if extended.Err? {
        return Err(extended.error);
      }
      var values := extended.value.Values();
      var defs := RegisterTypes(namespace, values, defsById);
      defsById := defs;
      namespaces := namespaces.Set(namespace, ns.(types := values));
      r := Ok(());
    }

    /**
     * The loop of `processNamespaceFunctions` and `processNamespaceEvents`:
     * each member gets the id `<ns>$<name>` and is recorded in `defs`; the
     * graph gets the member's edge to its namespace, then the edges of its
     * parameters, of its return and, for events, of its extra parameters.
     */
    method RegisterMembers(namespace: string, members: seq<Node>, kind: MemberKind, defs0: map<string, Def>)
      returns (withIds: seq<Node>, defs: map<string, Def>)
      requires depsGraph.Valid()
      modifies depsGraph
      ensures depsGraph.Valid()
      ensures withIds == WithIds(namespace, members)
      ensures defs == MemberDefs(defs0, namespace, members, kind)
      ensures depsGraph.edges == old(depsGraph.edges) + AllMemberEdges(namespace, members, kind)
    {
      ghost var start := depsGraph.edges;
      withIds := [];
      defs := defs0;
      for i := 0 to |members|
        invariant depsGraph.Valid()
        invariant withIds == WithIds(namespace, members[..i])
        invariant defs == MemberDefs(defs0, namespace, members[..i], kind)
        invariant depsGraph.edges == start + AllMemberEdges(namespace, members[..i], kind)
      {
        var id := namespace + "$" + Str(members[i].name);
        var member := members[i].(id := Some(id));
        defs := defs[id := if kind.Functions? then Def(FunctionDef, Some(id), Some(namespace), None, Some(member), None)
                           else Def(EventDef, Some(id), Some(namespace), None, None, Some(member))];
        assert defs == MemberDefs(defs0, namespace, members[..i + 1], kind) by {
          MemberDefsStep(defs0, namespace, members, i, kind);
        }
        ghost var e0 := depsGraph.edges;
        ghost var e1, e2, e3 := AddMemberEdges(namespace, member, kind);
        MemberStepEdges(start, namespace, members, i, kind, member, e0, e1, e2, e3, depsGraph.edges);
        withIds := withIds + [member];
        assert withIds == WithIds(namespace, members[..i + 1]) by {
          WithIdsStep(namespace, members, i);
        }
      }
      FullSlice(members);
    }

    /**
     * The graph updates for one member: its edge to the namespace, then the
     * edges of its parameters, of its return and, for events, of its extra
     * parameters. The ghost results are the edges after each of the first three.
     */
    method AddMemberEdges(namespace: string, member: Node, kind: MemberKind)
      returns (ghost e1: seq<Edge>, ghost e2: seq<Edge>, ghost e3: seq<Edge>)
      requires depsGraph.Valid()
      modifies depsGraph
      ensures depsGraph.Valid()
      ensures e1 == old(depsGraph.edges) + [(Str(member.id), namespace)]
      ensures e2 == e1 + ParameterEdges(member.parameters.OrEmpty(), Str(member.id))
      ensures e3 == e2 + ReturnsEdges(member, Str(member.id))
      ensures depsGraph.edges ==
        if kind.Events? then e3 + ParameterEdges(member.extraParameters.OrEmpty(), Str(member.id)) else e3
    {
      depsGraph.Add(Str(member.id), namespace);
      e1 := depsGraph.edges;
      ProcessParameters(member, false);
      e2 := depsGraph.edges;
      ProcessReturns(member);
      e3 := depsGraph.edges;
      if kind.Events? {
        ProcessParameters(member, true);
      }
    }

    /**
     * `processNamespaceFunctions(namespace)`: each function gets the id
     * `<ns>$<name>`, is recorded in `defsById` and placed before its
     * namespace and after the types it refers to.
     */
    method ProcessNamespaceFunctions(namespace: string)
      requires Valid() && namespace in namespaces.entries
      modifies this, depsGraph
      ensures Valid()
      ensures State() == MemberPass(old(State()), namespace, Functions)
    {
      var ns := namespaces.entries[namespace];
      var withIds, defs := RegisterMembers(namespace, ns.functions, Functions, defsById);
      defsById := defs;
      namespaces := namespaces.Set(namespace, ns.(functions := withIds));
    }

    /**
     * `processNamespaceEvents(namespace)`: as for functions, and the
     * references of the events' extra parameters count as well.
     */
    method ProcessNamespaceEvents(namespace: string)
      requires Valid() && namespace in namespaces.entries
      modifies this, depsGraph
      ensures Valid()
      ensures State() == MemberPass(old(State()), namespace, Events)
    {
      var ns := namespaces.entries[namespace];
      var withIds, defs := RegisterMembers(namespace, ns.events, Events, defsById);
      defsById := defs;
      namespaces := namespaces.Set(namespace, ns.(events := withIds));
    }

    /** `declareTypeToFlow(def)`: `declare type webext$<ns>$<id> = <type>;`, converted against `defsById`. */
    method DeclareTypeToFlow(def: Def) returns (r: Result<string>)
      ensures r == TypeDeclaration(def, defsById)
    {
      if def.typeDef.None? {
        return Err(MissingDescription(Str(def.id)));
      }
      var body := ConvertType(def.typeDef.value, TopLevel(defsById));
      if body.Err? {
        return Err(body.error);
      }
      r := Ok("declare type " + DeclaredTypeName(def) + " = " + body.value + ";\n\n");
    }

    /**
     * `declareFunctionToFlow(def)` for the definition under `key`: a function
     * whose first parameter is optional and whose second is not is declared
     * twice, first without its first parameter, then with all of them and the
     * first one required; the record keeps the shortened parameter list.
     */
    method DeclareFunctionToFlow(key: string) returns (r: Result<string>)
      requires key in defsById
      modifies this
      ensures namespaces == old(namespaces)
      ensures var d := FunctionDeclaration(old(defsById)[key], old(defsById));
        && (d.Ok? ==> r == Ok(d.value.0) && defsById == old(defsById)[key := old(defsById)[key].(funcDef := Some(d.value.1))])
        && (d.Err? ==> r == Err(d.error))
    {
      var def := defsById[key];
      if def.funcDef.None? {
        return Err(MissingDescription(Str(def.id)));
      }
      var funcDef := def.funcDef.value;
      var params := TopLevel(defsById);
      if funcDef.parameters.Present? && |funcDef.parameters.list| >= 2
        && funcDef.parameters.list[0].optional && !funcDef.parameters.list[1].optional
      {
        var ps := funcDef.parameters.list;
        funcDef := funcDef.(parameters := Present([ps[0].(optional := false)] + ps[1..]));
        var body2 := ConvertType(funcDef, params);
        if body2.Err? {
          return Err(body2.error);
        }
        funcDef := funcDef.(parameters := Present(funcDef.parameters.list[1..]));
        assert funcDef == ShortOverload(def.funcDef.value);
        var body := ConvertType(funcDef, params);
        if body.Err? {
          return Err(body.error);
        }
        defsById := defsById[key := def.(funcDef := Some(funcDef))];
        return Ok(FunctionLine(Str(def.id), body.value) + FunctionLine(Str(def.id), body2.value) + "\n");
      }
      var body := ConvertType(funcDef, params);
      if body.Err? {
        return Err(body.error);
      }
      r := Ok(FunctionLine(Str(def.id), body.value) + "\n");
    }

    /**
     * `declareEventToFlow(def)` for the definition under `key`: the record
     * takes the event's bare name as its id and the event object type as its
     * type, and is declared as a type. (The loop that sets a misspelt
     * `optiona` flag on each extra parameter changes nothing a conversion
     * reads.)
     */
    method DeclareEventToFlow(key: string) returns (r: Result<string>)
      requires key in defsById
      modifies this
      ensures namespaces == old(namespaces)
      ensures var d := EventDeclaration(key, old(defsById)[key], old(defsById));
        && (d.Ok? ==> r == Ok(d.value.0) && defsById == old(defsById)[key := d.value.1])
        && (d.Err? ==> r == Err(d.error))
    {
      var def := defsById[key];
      if def.eventDef.None? {
        return Err(MissingDescription(Str(def.id)));
      }
      var eventDef := def.eventDef.value;
      var addParameters := [Listener(eventDef)];
      var removeParameters := [BareListener];
      if eventDef.extraParameters.Present? {
        addParameters := addParameters + eventDef.extraParameters.list;
        removeParameters := removeParameters + eventDef.extraParameters.list;
      } else {
        assert addParameters + [] == addParameters && removeParameters + [] == removeParameters;
      }
      var add := Blank.(name := Some("addListener"), typeTag := Some("function"), parameters := Present(addParameters));
      var remove := Blank.(name := Some("addListener"), typeTag := Some("function"), parameters := Present(removeParameters));
      var fakeEventTypeDef := Blank.(typeTag := Some("object"),
        properties := Props([Property("addListener", add), Property("removeListener", remove)]));
      assert fakeEventTypeDef == EventTypeDef(eventDef);
      var decorated := def.(id := eventDef.name, typeDef := Some(fakeEventTypeDef));
      defsById := defsById[key := decorated];
      r := DeclareTypeToFlow(decorated);
    }

    /**
     * `declareNamespaceToFlow(def)` for the definition under `key`: an object
     * type with a reference to each event and `typeof` each function, by
     * name, declared as a type of the namespace itself.
     */
    method DeclareNamespaceToFlow(key: string) returns (r: Result<string>)
      requires key in defsById
      modifies this
      ensures namespaces == old(namespaces)
      ensures var d := NamespaceDeclaration(key, old(defsById)[key], namespaces, old(defsById));
        && (d.Ok? ==> r == Ok(d.value.0) && defsById == old(defsById)[key := d.value.1])
        && (d.Err? ==> r == Err(d.error))
    {
      var def := defsById[key];
      if Str(def.id) !in namespaces.entries {
        return Err(UndefinedNamespace(Str(def.id)));
      }
      var nsDef := namespaces.entries[Str(def.id)];
      var properties := NamespacePropertiesOf(nsDef.events, nsDef.functions);
      var fakeNamespaceTypeDef := Blank.(typeTag := Some("object"), properties := Props(PropertiesOf(properties)));
      var decorated := def.(typeDef := Some(fakeNamespaceTypeDef), namespace := def.id);
      defsById := defsById[key := decorated];
      r := DeclareTypeToFlow(decorated);
    }

    /** The first loop of `convertToFlowTypes`: the declarations of `order`, concatenated. */
    method DeclareAll(order: seq<string>) returns (r: Result<string>)
      modifies this
      ensures namespaces == old(namespaces)
      ensures var d := Declarations(order, old(defsById), namespaces);
        && (d.Ok? ==> r == Ok(Concat(d.value.0)) && defsById == d.value.1)
        && (d.Err? ==> r == Err(d.error))
    {
      ghost var defs0 := defsById;
      ghost var chunks: seq<string> := [];
      var textFlow := "";
      for i := 0 to |order|
        invariant namespaces == old(namespaces)
        invariant Declarations(order[..i], defs0, namespaces) == Ok((chunks, defsById))
        invariant textFlow == Concat(chunks)
      {
        DeclarationsStep(order, defs0, namespaces, i);
        var id := order[i];
        if id !in defsById {
          DeclarationsErrPrefix(order, defs0, namespaces, i + 1);
          return Err(UndefinedDefinition(id));
        }
        var text;
        match defsById[id].kind {
          case TypeDef => text := DeclareTypeToFlow(defsById[id]);
          case FunctionDef => text := DeclareFunctionToFlow(id);
          case EventDef => text := DeclareEventToFlow(id);
          case NamespaceDef => text := DeclareNamespaceToFlow(id);
        }
        if text.Err? {
          DeclarationsErrPrefix(order, defs0, namespaces, i + 1);
          return Err(text.error);
        }
        ConcatSnoc(chunks, text.value);
        chunks := chunks + [text.value];
        textFlow := textFlow + text.value;
      }
      FullSlice(order);
      r := Ok(textFlow);
    }

    /**
     * `convertToFlowTypes()`: the declaration of every graph node in sorted
     * order, then the `chrome` and `browser` globals. A cycle, a node without
     * a definition or a failing conversion is the error.
     */
    method ConvertToFlowTypes() returns (r: Result<string>)
      requires Valid()
      modifies this
      ensures FlowOutput(old(State())).Ok? ==>
        r == Ok(FlowOutput(old(State())).value.0) && defsById == FlowOutput(old(State())).value.1
      ensures FlowOutput(old(State())).Err? ==> r == Err(FlowOutput(old(State())).error)
    {
      ghost var before := State();
      var sortedDefs := depsGraph.Sort();
      if sortedDefs.Err? {
        return Err(sortedDefs.error);
      }
      var textFlow := DeclareAll(sortedDefs.value);
      if textFlow.Err? {
        FlowOutputErr(before, sortedDefs.value);
        return textFlow;
      }
      var varBody := GlobalsBodyOf(namespaces.keys);
      var text := textFlow.value + GlobalDeclaration("chrome", varBody);
      text := text + GlobalDeclaration("browser", varBody);
      FlowOutputOk(before, sortedDefs.value);
      r := Ok(text);
    }
  }

  // ---------------------------------------------------------------------------
  // Collecting and resolving schema documents

  /** A schema document as parsed: a JSON array of namespace records, or any other JSON value. */
  datatype Document = JsonArray(items: seq<NsData>) | OtherJson

  /** `{baseDir, fileName, jsonData}` */
  datatype CollectedSchema = CollectedSchema(baseDir: string, fileName: string, jsonData: seq<NsData>)

  /** `collectSchemaFromFile(baseDir, fileName)` on the parsed document: only an array is a schema. */
  function CollectSchemaFromFile(baseDir: string, fileName: string, doc: Document): (r: Result<CollectedSchema>)
    ensures r.Ok? <==> doc.JsonArray?
    ensures r.Ok? ==> r.value.baseDir == baseDir && r.value.fileName == fileName && r.value.jsonData == doc.items
    ensures r.Err? ==> r.error == InvalidFormat(fileName, baseDir)
  {
    if doc.JsonArray? then Ok(CollectedSchema(baseDir, fileName, doc.items)) else Err(InvalidFormat(fileName, baseDir))
  }

  /** The file filter of `collectSchemaFromDir`: the name ends with `.json`. */
  predicate IsSchemaFile(name: string) {
    EndsWith(name, ".json")
  }

  /** The schema files among `files`, with their documents, in directory order. */
  function SchemaFiles(files: seq<(string, Document)>): (kept: seq<(string, Document)>)
    ensures forall f | f in kept :: IsSchemaFile(f.0) && f in files
    ensures forall k | 0 <= k < |files| && IsSchemaFile(files[k].0) :: files[k] in kept
  {
    if files == [] then []
    else
      var prev := SchemaFiles(files[..|files| - 1]);
      var file := files[|files| - 1];
      assert forall k | 0 <= k < |files| - 1 :: files[k] == files[..|files| - 1][k];
      if IsSchemaFile(file.0) then prev + [file] else prev
  }

  /**
   * `collectSchemaFromDir(baseDir)` over the directory listing `files` (names
   * with their parsed documents, in directory order): the schemas of the
   * `.json` files, in order; the first of them that is not an array is the
   * error.
   */
  function CollectedFromDir(baseDir: string, files: seq<(string, Document)>): (r: Result<seq<CollectedSchema>>)
    ensures r.Ok? ==> |r.value| <= |files|
    ensures r.Ok? ==> forall s | s in r.value :: s.baseDir == baseDir && IsSchemaFile(s.fileName)
    ensures r.Err? ==> r.error.InvalidFormat? && r.error.baseDir == baseDir && IsSchemaFile(r.error.fileName)
  {
    if files == [] then Ok([])
    else
      var prev :- CollectedFromDir(baseDir, files[..|files| - 1]);
      var file := files[|files| - 1];
      if IsSchemaFile(file.0) then
        var schema :- CollectSchemaFromFile(baseDir, file.0, file.1);
        Ok(prev + [schema])
      else Ok(prev)
  }

  /** The loop of `collectSchemaFromDir`. */
  method CollectSchemaFromDir(baseDir: string, files: seq<(string, Document)>) returns (r: Result<seq<CollectedSchema>>)
    ensures r == CollectedFromDir(baseDir, files)
  {
    var collectedSchemas: seq<CollectedSchema> := [];
    for i := 0 to |files|
      invariant CollectedFromDir(baseDir, files[..i]) == Ok(collectedSchemas)
    {
      assert files[..i + 1][..i] == files[..i];
      var file := files[i];
      if IsSchemaFile(file.0) {
        var schema := CollectSchemaFromFile(baseDir, file.0, file.1);
        if schema.Err? {
          CollectedFromDirErrPrefix(baseDir, files, i + 1);
          return Err(schema.error);
        }
        collectedSchemas := collectedSchemas + [schema.value];
      }
    }
    FullSlice(files);
    r := Ok(collectedSchemas);
  }

  /** Once a prefix of the listing fails, the whole directory fails the same way. */
  lemma {:induction false} CollectedFromDirErrPrefix(baseDir: string, files: seq<(string, Document)>, n: nat)
    requires n <= |files| && CollectedFromDir(baseDir, files[..n]).Err?
    ensures CollectedFromDir(baseDir, files) == CollectedFromDir(baseDir, files[..n])
    decreases |files| - n
  {
    if n < |files| {
      var next := files[..n + 1];
      assert next[..n] == files[..n];
      assert CollectedFromDir(baseDir, next) == CollectedFromDir(baseDir, files[..n]);
      CollectedFromDirErrPrefix(baseDir, files, n + 1);
    } else {
      assert files[..n] == files;
    }
  }

  /**
   * Only `.json` files are read, each once and in directory order: the
   * collection fails exactly when one of them is not an array, and otherwise
   * holds one schema per `.json` file, in order, named after it and carrying
   * the records of its document.
   */
  lemma {:induction false} CollectedFromDirResult(baseDir: string, files: seq<(string, Document)>)
    ensures CollectedFromDir(baseDir, files).Ok? <==>
      forall k | 0 <= k < |files| && IsSchemaFile(files[k].0) :: files[k].1.JsonArray?
    ensures CollectedFromDir(baseDir, files).Ok? ==>
      var schemas := CollectedFromDir(baseDir, files).value;
      && |schemas| == |SchemaFiles(files)|
      && forall k | 0 <= k < |schemas| ::
        && schemas[k].baseDir == baseDir
        && schemas[k].fileName == SchemaFiles(files)[k].0
        && schemas[k].jsonData == SchemaFiles(files)[k].1.items
  {
    if files != [] {
      var init := files[..|files| - 1];
      CollectedFromDirResult(baseDir, init);
      assert forall k | 0 <= k < |init| :: init[k] == files[k];
    }
  }

  /** All the namespace records of `schemas`, in order. */
  function Fragments(schemas: seq<CollectedSchema>): seq<NsData> {
    if schemas == [] then [] else Fragments(schemas[..|schemas| - 1]) + schemas[|schemas| - 1].jsonData
  }

  /** The state after every record of `schemas` is added to a new manager. */
  function Collected(schemas: seq<CollectedSchema>): (reg: Registry)
    ensures reg.namespaces.Valid()
  {
    Registry(MergedAll(EmptyMap(), Fragments(schemas)), NamespaceDefs(map[], Fragments(schemas)), [])
  }

  /**
   * `resolveDefinitions(schemas)`: every namespace record of every schema is
   * added to a new manager, in order, and then the namespaces are processed.
   */
  method ResolveDefinitions(schemas: seq<CollectedSchema>) returns (r: Result<SchemaCollectionManager>)
    ensures r.Ok? <==> ProcessAll(Collected(schemas)).Ok?
    ensures r.Ok? ==> fresh(r.value) && r.value.Valid() && r.value.State() == ProcessAll(Collected(schemas)).value
    ensures r.Err? ==> r.error == ProcessAll(Collected(schemas)).error
  {
    var defs := new SchemaCollectionManager();
    ghost var frags: seq<NsData> := [];
    for i := 0 to |schemas|
      invariant fresh(defs) && fresh(defs.depsGraph) && defs.Valid()
      invariant frags == Fragments(schemas[..i])
      invariant defs.State() == Registry(MergedAll(EmptyMap(), frags), NamespaceDefs(map[], frags), [])
    {
      AddSchemaData(defs, schemas[i].jsonData, frags);
      FragmentsStep(schemas, i);
      frags := frags + schemas[i].jsonData;
    }
    FullSlice(schemas);
    assert defs.State() == Collected(schemas);
    var processed := defs.ProcessNamespaces();
    if processed.Err? {
      return Err(processed.error);
    }
    r := Ok(defs);
  }

  /** The inner loop of `resolveDefinitions`: the records of one schema, added in order. */
  method AddSchemaData(defs: SchemaCollectionManager, records: seq<NsData>, ghost done: seq<NsData>)
    requires defs.Valid() && defs.State() == Registry(MergedAll(EmptyMap(), done), NamespaceDefs(map[], done), [])
    modifies defs
    ensures defs.Valid() && defs.State() == Registry(MergedAll(EmptyMap(), done + records), NamespaceDefs(map[], done + records), [])
  {
    ghost var frags := done;
    assert done + records[..0] == done;
    for j := 0 to |records|
      invariant frags == done + records[..j]
      invariant defs.Valid() && defs.depsGraph.edges == []
      invariant defs.namespaces == MergedAll(EmptyMap(), frags)
      invariant defs.defsById == NamespaceDefs(map[], frags)
    {
      MergedSnoc(frags, records[j]);
      NamespaceDefsSnoc(frags, records[j]);
      defs.AddNamespaceData(records[j]);
      SliceSnoc(done, records, j);
      frags := frags + [records[j]];
    }
    FullSlice(records);
  }

  lemma SliceSnoc<T>(done: seq<T>, s: seq<T>, j: nat)
    requires j < |s|
    ensures done + s[..j + 1] == done + s[..j] + [s[j]]
  {
    assert s[..j + 1] == s[..j] + [s[j]];
  }

  /** Adding one more record merges it last. */
  lemma MergedSnoc(done: seq<NsData>, data: NsData)
    ensures MergedAll(EmptyMap(), done + [data]) == Merged(MergedAll(EmptyMap(), done), data)
  {
    assert (done + [data])[..|done|] == done;
  }

  /** Adding one more record records its namespace last. */
  lemma NamespaceDefsSnoc(done: seq<NsData>, data: NsData)
    ensures NamespaceDefs(map[], done + [data]) == NamespaceDefs(map[], done)[data.namespace := NamespaceRecord(data.namespace)]
  {
    assert (done + [data])[..|done|] == done;
  }

  /** The records of the schemas up to `i`, inclusive, end with those of the one at `i`. */
  lemma FragmentsStep(schemas: seq<CollectedSchema>, i: nat)
    requires i < |schemas|
    ensures Fragments(schemas[..i + 1]) == Fragments(schemas[..i]) + schemas[i].jsonData
  {
    assert schemas[..i + 1][..i] == schemas[..i];
  }

  /** The schemas of every directory, in order. */
  function CollectedFromDirs(dirs: seq<(string, seq<(string, Document)>)>): (r: Result<seq<CollectedSchema>>)
    ensures r.Ok? ==> forall s | s in r.value :: IsSchemaFile(s.fileName) && exists k | 0 <= k < |dirs| :: s.baseDir == dirs[k].0
    ensures r.Err? ==> r.error.InvalidFormat? && exists k | 0 <= k < |dirs| :: r.error.baseDir == dirs[k].0
  {
    if dirs == [] then Ok([])
    else
      var init := dirs[..|dirs| - 1];
      assert forall k | 0 <= k < |init| :: init[k] == dirs[k];
      var prev :- CollectedFromDirs(init);
      var last :- CollectedFromDir(dirs[|dirs| - 1].0, dirs[|dirs| - 1].1);
      Ok(prev + last)
  }

  /**
   * `loadFromDirs(apiSchemaDirs)` over the listings of the directories: the
   * schemas of every directory, in order, resolved together.
   */
  method LoadFromDirs(dirs: seq<(string, seq<(string, Document)>)>) returns (r: Result<SchemaCollectionManager>)
    ensures CollectedFromDirs(dirs).Err? ==> r == Err(CollectedFromDirs(dirs).error)
    ensures CollectedFromDirs(dirs).Ok? ==>
      var reg := Collected(CollectedFromDirs(dirs).value);
      && (r.Ok? <==> ProcessAll(reg).Ok?)
      && (r.Ok? ==> fresh(r.value) && r.value.Valid() && r.value.State() == ProcessAll(reg).value)
      && (r.Err? ==> r.error == ProcessAll(reg).error)
  {
    var nsDefs: seq<CollectedSchema> := [];
    for i := 0 to |dirs|
      invariant CollectedFromDirs(dirs[..i]) == Ok(nsDefs)
    {
      assert dirs[..i + 1][..i] == dirs[..i];
      var collected := CollectSchemaFromDir(dirs[i].0, dirs[i].1);
      if collected.Err? {
        CollectedFromDirsErrPrefix(dirs, i + 1);
        return Err(collected.error);
      }
      nsDefs := nsDefs + collected.value;
    }
    FullSlice(dirs);
    r := ResolveDefinitions(nsDefs);
  }

  /** Once a prefix of the directories fails, the whole load fails the same way. */
  lemma {:induction false} CollectedFromDirsErrPrefix(dirs: seq<(string, seq<(string, Document)>)>, n: nat)
    requires n <= |dirs| && CollectedFromDirs(dirs[..n]).Err?
    ensures CollectedFromDirs(dirs) == CollectedFromDirs(dirs[..n])
    decreases |dirs| - n
  {
    if n < |dirs| {
      var next := dirs[..n + 1];
      assert next[..n] == dirs[..n];
      assert CollectedFromDirs(next) == CollectedFromDirs(dirs[..n]);
      CollectedFromDirsErrPrefix(dirs, n + 1);
    } else {
      assert dirs[..n] == dirs;
    }
  }

  /** The schemas of the directories that collect, joined front to back. */
  function DirSchemas(dirs: seq<(string, seq<(string, Document)>)>): seq<CollectedSchema> {
    if dirs == [] then []
    else
      var c := CollectedFromDir(dirs[0].0, dirs[0].1);
      (if c.Ok? then c.value else []) + DirSchemas(dirs[1..])
  }

  /** Joining one more directory at the back adds its schemas last. */
  lemma {:induction false} DirSchemasSnoc(dirs: seq<(string, seq<(string, Document)>)>, d: (string, seq<(string, Document)>))
    ensures var c := CollectedFromDir(d.0, d.1);
      DirSchemas(dirs + [d]) == DirSchemas(dirs) + (if c.Ok? then c.value else [])
  {
    if dirs != [] {
      assert (dirs + [d])[1..] == dirs[1..] + [d];
      DirSchemasSnoc(dirs[1..], d);
    } else {
      assert [d][1..] == [];
    }
  }

  /**
   * Loading the directories succeeds exactly when every directory collects;
   * its schemas are then those of each directory in turn, and otherwise its
   * error is that of the first directory that does not collect.
   */
  lemma CollectedFromDirsResult(dirs: seq<(string, seq<(string, Document)>)>)
    ensures CollectedFromDirs(dirs).Ok? <==> forall k | 0 <= k < |dirs| :: CollectedFromDir(dirs[k].0, dirs[k].1).Ok?
    ensures CollectedFromDirs(dirs).Ok? ==> CollectedFromDirs(dirs).value == DirSchemas(dirs)
    ensures CollectedFromDirs(dirs).Err? ==>
      exists i | 0 <= i < |dirs| ::
        && CollectedFromDir(dirs[i].0, dirs[i].1).Err?
        && CollectedFromDirs(dirs).error == CollectedFromDir(dirs[i].0, dirs[i].1).error
        && forall j | 0 <= j < i :: CollectedFromDir(dirs[j].0, dirs[j].1).Ok?
  {
    CollectedFromDirsOk(dirs);
    CollectedFromDirsFails(dirs);
  }

  /** The successful half of `CollectedFromDirsResult`. */
  lemma {:induction false} CollectedFromDirsOk(dirs: seq<(string, seq<(string, Document)>)>)
    ensures CollectedFromDirs(dirs).Ok? <==> forall k | 0 <= k < |dirs| :: CollectedFromDir(dirs[k].0, dirs[k].1).Ok?
    ensures CollectedFromDirs(dirs).Ok? ==> CollectedFromDirs(dirs).value == DirSchemas(dirs)
  {
    if dirs != [] {
      var init := dirs[..|dirs| - 1];
      var last := dirs[|dirs| - 1];
      assert dirs == init + [last];
      assert forall k | 0 <= k < |init| :: init[k] == dirs[k];
      CollectedFromDirsOk(init);
      DirSchemasSnoc(init, last);
    }
  }

  /** The failing half of `CollectedFromDirsResult`. */
  lemma {:induction false} CollectedFromDirsFails(dirs: seq<(string, seq<(string, Document)>)>)
    ensures CollectedFromDirs(dirs).Err? ==>
      exists i | 0 <= i < |dirs| ::
        && CollectedFromDir(dirs[i].0, dirs[i].1).Err?
        && CollectedFromDirs(dirs).error == CollectedFromDir(dirs[i].0, dirs[i].1).error
        && forall j | 0 <= j < i :: CollectedFromDir(dirs[j].0, dirs[j].1).Ok?
  {
    if dirs != [] {
      var init := dirs[..|dirs| - 1];
      var last := dirs[|dirs| - 1];
      assert forall k | 0 <= k < |init| :: init[k] == dirs[k];
      var prev := CollectedFromDirs(init);
      if prev.Err? {
        CollectedFromDirsFails(init);
        var i :| 0 <= i < |init| && CollectedFromDir(init[i].0, init[i].1).Err?
          && prev.error == CollectedFromDir(init[i].0, init[i].1).error
          && forall j | 0 <= j < i :: CollectedFromDir(init[j].0, init[j].1).Ok?;
        assert CollectedFromDir(dirs[i].0, dirs[i].1).Err?;
      } else {
        CollectedFromDirsOk(init);
        assert CollectedFromDir(dirs[|dirs| - 1].0, dirs[|dirs| - 1].1) == CollectedFromDir(last.0, last.1);
      }
    }
  }

  lemma ParameterEdgesStep(start: seq<Edge>, ps: seq<Node>, i: nat, id: string)
    requires i < |ps|
    ensures start + ParameterEdges(ps[..i + 1], id) ==
      start + ParameterEdges(ps[..i], id) + (if Truthy(ps[i].ref) then [(LastSegment(ps[i].ref.value), id)] else [])
  {
    assert ps[..i + 1][..i] == ps[..i];
  }

  /**
   * The two loops of `declareNamespaceToFlow`: each event's name mapped to a
   * reference to it, then each function's name to `typeof` it.
   */
  method NamespacePropertiesOf(events: seq<Node>, functions: seq<Node>) returns (properties: OrderedMap<string, Node>)
    ensures properties == NamespaceProperties(events, functions)
  {
    properties := EmptyMap();
    for i := 0 to |events|
      invariant properties == NamespaceProperties(events[..i], [])
    {
      assert events[..i + 1][..i] == events[..i];
      properties := properties.Set(Str(events[i].name), Blank.(ref := events[i].id));
    }
    FullSlice(events);
    for i := 0 to |functions|
      invariant properties == NamespaceProperties(events, functions[..i])
    {
      assert functions[..i + 1][..i] == functions[..i];
      properties := properties.Set(Str(functions[i].name), Blank.(typeTag := Some("typeof-$ref"), ref := functions[i].id));
    }
    FullSlice(functions);
  }

  /** The last loop of `convertToFlowTypes`: a line per namespace, except the excluded ones. */
  method GlobalsBodyOf(names: seq<string>) returns (varBody: string)
    ensures varBody == GlobalsBody(names)
  {
    varBody := "";
    for i := 0 to |names|
      invariant varBody == GlobalsBody(names[..i])
    {
      assert names[..i + 1][..i] == names[..i];
      if names[i] in ExcludedNamespaces {
        continue;
      }
      varBody := varBody + GlobalLine(names[i]);
    }
    FullSlice(names);
  }

  /** The output of a successful conversion: the declarations, then the two globals. */
  lemma FlowOutputOk(reg: Registry, order: seq<string>)
    requires Kahn(reg.edges) == Ok(order) && Declarations(order, reg.defs, reg.namespaces).Ok?
    ensures var declared := Declarations(order, reg.defs, reg.namespaces).value;
      var body := GlobalsBody(reg.namespaces.keys);
      FlowOutput(reg) == Ok((Concat(declared.0) + GlobalDeclaration("chrome", body) + GlobalDeclaration("browser", body), declared.1))
  {
    var declared := Declarations(order, reg.defs, reg.namespaces).value;
    var body := GlobalsBody(reg.namespaces.keys);
    assert Concat(declared.0) + (GlobalDeclaration("chrome", body) + GlobalDeclaration("browser", body))
      == Concat(declared.0) + GlobalDeclaration("chrome", body) + GlobalDeclaration("browser", body);
  }

  /** A conversion whose declarations fail fails the same way. */
  lemma FlowOutputErr(reg: Registry, order: seq<string>)
    requires Kahn(reg.edges) == Ok(order) && Declarations(order, reg.defs, reg.namespaces).Err?
    ensures FlowOutput(reg) == Err(Declarations(order, reg.defs, reg.namespaces).error)
  {
  }

  /** The declarations of the nodes up to `i`, inclusive, declare the one at `i` last. */
  lemma DeclarationsStep(order: seq<string>, defs: map<string, Def>, namespaces: Namespaces, i: nat)
    requires i < |order| && Declarations(order[..i], defs, namespaces).Ok?
    ensures var prev := Declarations(order[..i], defs, namespaces).value;
      var next := Declaration(order[i], prev.1, namespaces);
      Declarations(order[..i + 1], defs, namespaces) ==
        if next.Err? then Err(next.error) else Ok((prev.0 + [next.value.0], next.value.1))
  {
    assert order[..i + 1][..i] == order[..i];
  }

  /** Once the declarations of a prefix of the order fail, all of them fail the same way. */
  lemma {:induction false} DeclarationsErrPrefix(order: seq<string>, defs: map<string, Def>, namespaces: Namespaces, n: nat)
    requires n <= |order| && Declarations(order[..n], defs, namespaces).Err?
    ensures Declarations(order, defs, namespaces) == Declarations(order[..n], defs, namespaces)
    decreases |order| - n
  {
    if n < |order| {
      var next := order[..n + 1];
      assert next[..n] == order[..n];
      assert Declarations(next, defs, namespaces) == Declarations(order[..n], defs, namespaces);
      DeclarationsErrPrefix(order, defs, namespaces, n + 1);
    } else {
      assert order[..n] == order;
    }
  }

  /**
   * The first loop of `processNamespaceTypes`: the types without `$extend`
   * by id, and the `$extend` items by target.
   */
  method CollectTypes(types: seq<Node>) returns (extendsByTarget: OrderedMap<string, seq<Node>>, typesById: OrderedMap<Option<string>, Node>)
    ensures extendsByTarget == ExtendsByTarget(types)
    ensures typesById == BaseTypes(types)
  {
    extendsByTarget := EmptyMap();
    typesById := EmptyMap();
    for i := 0 to |types|
      invariant extendsByTarget == ExtendsByTarget(types[..i])
      invariant typesById == BaseTypes(types[..i])
    {
      assert types[..i + 1][..i] == types[..i];
      var t := types[i];
      if Truthy(t.extend) {
        var items := if t.extend.value in extendsByTarget.entries then extendsByTarget.entries[t.extend.value] else [];
        items := items + [t];
        extendsByTarget := extendsByTarget.Set(t.extend.value, items);
      } else {
        typesById := typesById.Set(t.id, t);
      }
    }
    FullSlice(types);
  }

  /**
   * The second loop of `processNamespaceTypes`: for each target in order, the
   * target must be declared; one without `choices` is skipped; otherwise the
   * choices of each item that has them are appended to the target's.
   */
  method ApplyAllExtensions(typesById0: OrderedMap<Option<string>, Node>, extendsByTarget: OrderedMap<string, seq<Node>>)
    returns (r: Result<OrderedMap<Option<string>, Node>>)
    requires typesById0.Valid() && extendsByTarget.Valid()
    ensures r == ApplyExtensions(typesById0, extendsByTarget.keys, extendsByTarget)
  {
    var targets := extendsByTarget.keys;
    var typesById := typesById0;
    for i := 0 to |targets|
      invariant typesById.Valid()
      invariant ApplyExtensions(typesById0, targets[..i], extendsByTarget) == Ok(typesById)
    {
      var target := targets[i];
      ApplyExtensionsStep(typesById0, targets, extendsByTarget, i);
      if Some(target) !in typesById.entries {
        ApplyExtensionsErrPrefix(typesById0, targets, extendsByTarget, i + 1);
        return Err(ExtendedTypeNotFound(target));
      }
      var targetType := typesById.entries[Some(target)];
      var items := extendsByTarget.entries[target];
      if targetType.choices.Absent? {
        continue;
      }
      var choices := AppendChoices(targetType.choices.list, items);
      typesById := typesById.Set(Some(target), targetType.(choices := Present(choices)));
    }
    FullSlice(targets);
    r := Ok(typesById);
  }

  /** Registering the types up to `i`, inclusive, registers the one at `i` last. */
  lemma TypeStep(defs: map<string, Def>, start: seq<Edge>, ns: string, ts: seq<Node>, i: nat)
    requires i < |ts|
    ensures TypeDefs(defs, ns, ts[..i + 1]) == TypeDefs(defs, ns, ts[..i])[Str(ts[i].id) := TypeRecord(ns, ts[i])]
    ensures start + TypeEdges(ns, ts[..i + 1]) == start + TypeEdges(ns, ts[..i]) + [(Str(ts[i].id), ns)]
  {
    assert ts[..i + 1][..i] == ts[..i];
  }

  /** The extensions of the targets up to `i`, inclusive, apply the one at `i` last. */
  lemma ApplyExtensionsStep(typesById: OrderedMap<Option<string>, Node>, targets: seq<string>,
                            extendsByTarget: OrderedMap<string, seq<Node>>, i: nat)
    requires typesById.Valid() && forall t | t in targets :: t in extendsByTarget.entries
    requires i < |targets| && ApplyExtensions(typesById, targets[..i], extendsByTarget).Ok?
    ensures var prev := ApplyExtensions(typesById, targets[..i], extendsByTarget).value;
      var target := targets[i];
      ApplyExtensions(typesById, targets[..i + 1], extendsByTarget) ==
        if Some(target) !in prev.entries then Err(ExtendedTypeNotFound(target))
        else if prev.entries[Some(target)].choices.Absent? then Ok(prev)
        else Ok(prev.Set(Some(target), prev.entries[Some(target)].(choices := Present(
          prev.entries[Some(target)].choices.list + ExtensionChoices(extendsByTarget.entries[target])))))
  {
    assert targets[..i + 1][..i] == targets[..i];
  }

  /** The innermost loop of `processNamespaceTypes`: the choices of each item that has them, appended in order. */
  method AppendChoices(choices0: seq<Node>, items: seq<Node>) returns (choices: seq<Node>)
    ensures choices == choices0 + ExtensionChoices(items)
  {
    choices := choices0;
    for j := 0 to |items|
      invariant choices == choices0 + ExtensionChoices(items[..j])
    {
      assert items[..j + 1][..j] == items[..j];
      if items[j].choices.Present? {
        choices := choices + items[j].choices.list;
      }
    }
    FullSlice(items);
  }

  /** The function and event passes of the namespaces up to `i`, inclusive, pass over the one at `i` last. */
  lemma MemberPassesStep(reg: Registry, names: seq<string>, i: nat)
    requires reg.namespaces.Valid() && forall x | x in names :: x in reg.namespaces.entries
    requires i < |names|
    ensures names[i] in MemberPasses(reg, names[..i]).namespaces.entries
    ensures MemberPasses(reg, names[..i + 1]) ==
      MemberPass(MemberPass(MemberPasses(reg, names[..i]), names[i], Functions), names[i], Events)
  {
    var next := names[..i + 1];
    assert next[..|next| - 1] == names[..i] && next[|next| - 1] == names[i];
  }

  /** Once the type passes of a prefix of the namespaces fail, all of them fail the same way. */
  lemma TypePassesStep(reg: Registry, names: seq<string>, i: nat)
    requires reg.namespaces.Valid() && reg.namespaces.keys == names
    requires i < |names| && TypePasses(reg, names[..i]).Ok?
    ensures names[i] in TypePasses(reg, names[..i]).value.namespaces.entries
    ensures TypePasses(reg, names[..i + 1]) == TypePass(TypePasses(reg, names[..i]).value, names[i])
  {
    var next := names[..i + 1];
    assert next[..|next| - 1] == names[..i] && next[|next| - 1] == names[i];
    assert names[i] in reg.namespaces.keys;
  }

  lemma {:induction false} TypePassesErrPrefix(reg: Registry, names: seq<string>, n: nat)
    requires reg.namespaces.Valid() && forall x | x in names :: x in reg.namespaces.entries
    requires n <= |names| && TypePasses(reg, names[..n]).Err?
    ensures TypePasses(reg, names) == TypePasses(reg, names[..n])
  {
    if n < |names| {
      var init := names[..|names| - 1];
      assert init[..n] == names[..n];
      TypePassesErrPrefix(reg, init, n);
    } else {
      assert names[..n] == names;
    }
  }

  /** Once the extensions of a prefix of the targets fail, the whole merge fails the same way. */
  lemma {:induction false} ApplyExtensionsErrPrefix(typesById: OrderedMap<Option<string>, Node>, targets: seq<string>,
                                                    extendsByTarget: OrderedMap<string, seq<Node>>, n: nat)
    requires typesById.Valid() && forall t | t in targets :: t in extendsByTarget.entries
    requires n <= |targets| && ApplyExtensions(typesById, targets[..n], extendsByTarget).Err?
    ensures ApplyExtensions(typesById, targets, extendsByTarget) == ApplyExtensions(typesById, targets[..n], extendsByTarget)
    decreases |targets| - n
  {
    if n < |targets| {
      var next := targets[..n + 1];
      assert next[..n] == targets[..n];
      assert ApplyExtensions(typesById, next, extendsByTarget) == ApplyExtensions(typesById, targets[..n], extendsByTarget);
      ApplyExtensionsErrPrefix(typesById, targets, extendsByTarget, n + 1);
    } else {
      assert targets[..n] == targets;
    }
  }

  /** Registering the members up to `i`, inclusive, registers the one at `i` last. */
  lemma MemberDefsStep(defs: map<string, Def>, ns: string, members: seq<Node>, i: nat, kind: MemberKind)
    requires i < |members|
    ensures MemberDefs(defs, ns, members[..i + 1], kind) ==
      MemberDefs(defs, ns, members[..i], kind)[MemberId(ns, members[i]) := MemberRecord(ns, members[i], kind)]
  {
    assert members[..i + 1][..i] == members[..i];
  }

  lemma WithIdsStep(ns: string, members: seq<Node>, i: nat)
    requires i < |members|
    ensures WithIds(ns, members[..i + 1]) == WithIds(ns, members[..i]) + [WithId(ns, members[i])]
  {
    assert members[..i + 1][..i] == members[..i];
  }

  /**
   * One member's step of a member pass: after the edge to the namespace, the
   * parameters', the return's and (for events) the extra parameters' edges,
   * the graph holds the edges of the members so far.
   */
  lemma MemberStepEdges(start: seq<Edge>, ns: string, members: seq<Node>, i: nat, kind: MemberKind, m: Node,
                        e0: seq<Edge>, e1: seq<Edge>, e2: seq<Edge>, e3: seq<Edge>, e4: seq<Edge>)
    requires i < |members| && m == WithId(ns, members[i])
    requires e0 == start + AllMemberEdges(ns, members[..i], kind)
    requires e1 == e0 + [(Str(m.id), ns)]
    requires e2 == e1 + ParameterEdges(m.parameters.OrEmpty(), Str(m.id))
    requires e3 == e2 + ReturnsEdges(m, Str(m.id))
    requires e4 == (if kind.Events? then e3 + ParameterEdges(m.extraParameters.OrEmpty(), Str(m.id)) else e3)
    ensures e4 == start + AllMemberEdges(ns, members[..i + 1], kind)
  {
    assert Str(m.id) == MemberId(ns, members[i]);
    assert ReturnsEdges(m, MemberId(ns, members[i])) == ReturnsEdges(members[i], MemberId(ns, members[i]));
    EdgesOfNextMember(start, ns, members, i, kind);
  }

  /** Regrouping a concatenation of edge lists. */
  lemma Regroup(a: seq<Edge>, b: seq<Edge>, c: seq<Edge>)
    ensures a + (b + c) == a + b + c
  {
  }

  /** The edges of the members up to `i`, inclusive, as the member passes add them one call at a time. */
  lemma EdgesOfNextMember(start: seq<Edge>, ns: string, members: seq<Node>, i: nat, kind: MemberKind)
    requires i < |members|
    ensures var m := members[i];
      var id := MemberId(ns, m);
      var stepped := start + AllMemberEdges(ns, members[..i], kind) + [(id, ns)]
        + ParameterEdges(m.parameters.OrEmpty(), id) + ReturnsEdges(m, id);
      && (kind.Functions? ==> start + AllMemberEdges(ns, members[..i + 1], kind) == stepped)
      && (kind.Events? ==>
            start + AllMemberEdges(ns, members[..i + 1], kind) == stepped + ParameterEdges(m.extraParameters.OrEmpty(), id))
  {
    assert members[..i + 1][..i] == members[..i];
    var m := members[i];
    var id := MemberId(ns, m);
    var pe := ParameterEdges(m.parameters.OrEmpty(), id);
    var re := ReturnsEdges(m, id);
    var xe: seq<Edge> := if kind.Events? then ParameterEdges(m.extraParameters.OrEmpty(), id) else [];
    var prefix := start + AllMemberEdges(ns, members[..i], kind);
    assert AllMemberEdges(ns, members[..i + 1], kind) == AllMemberEdges(ns, members[..i], kind) + MemberEdges(ns, m, kind);
    assert MemberEdges(ns, m, kind) == [(id, ns)] + pe + re + xe;
    Regroup(start, AllMemberEdges(ns, members[..i], kind), MemberEdges(ns, m, kind));
    Regroup(prefix, [(id, ns)] + pe + re, xe);
    Regroup(prefix, [(id, ns)] + pe, re);
    Regroup(prefix, [(id, ns)], pe);
    assert start + AllMemberEdges(ns, members[..i + 1], kind) == prefix + [(id, ns)] + pe + re + xe;
    if kind.Functions? {
      assert prefix + [(id, ns)] + pe + re + [] == prefix + [(id, ns)] + pe + re;
    }
  }
}
