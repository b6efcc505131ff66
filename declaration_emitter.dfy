/**
 * What emitting the Flow declarations computes: one declaration per
 * definition, in the order of the dependency graph, then the `chrome` and
 * `browser` globals. Functions whose first parameter is optional and whose
 * second is not get two overloaded declarations; each event becomes an object
 * type with `addListener`/`removeListener`; each namespace becomes an object
 * type referring to its events and functions. Declaring a function, an event
 * or a namespace rewrites its definition record, and later conversions see
 * the rewritten record.
 */
module DeclarationEmitter {
  import opened Schema
  import opened FlowTypesGenerator
  import opened DepsGraph
  import opened SchemaResolver

  /** The Flow name of a definition declared as a type. */
  function DeclaredTypeName(def: Def): string {
    "webext$" + Str(def.namespace) + "$" + Str(def.id)
  }

  /** `declareTypeToFlow(def)`: `declare type webext$<ns>$<id> = <type>;`, converted against `defs`. */
  function TypeDeclaration(def: Def, defs: map<string, Def>): (r: Result<string>)
    ensures r.Ok? ==> StartsWith(r.value, "declare type " + DeclaredTypeName(def) + " = ")
    ensures def.typeDef.None? ==> r == Err(MissingDescription(Str(def.id)))
    ensures def.typeDef.Some? ==> (r.Ok? <==> ConvertType(def.typeDef.value, TopLevel(defs)).Ok?)
  {
    if def.typeDef.None? then Err(MissingDescription(Str(def.id)))
    else
      var body :- ConvertType(def.typeDef.value, TopLevel(defs));
      var head := "declare type " + DeclaredTypeName(def) + " = ";
      assert (head + body + ";\n\n")[..|head|] == head;
      Ok(head + body + ";\n\n")
  }

  // ---------------------------------------------------------------------------
  // Functions

  /** The first parameter is optional and the second is not: Flow needs two overloads. */
  predicate NeedsOverload(f: Node) {
    f.parameters.Present? && |f.parameters.list| >= 2
    && f.parameters.list[0].optional && !f.parameters.list[1].optional
  }

  /** The function with its first parameter made required (the longer overload). */
  function FullOverload(f: Node): Node
    requires NeedsOverload(f)
  {
    var ps := f.parameters.list;
    f.(parameters := Present([ps[0].(optional := false)] + ps[1..]))
  }

  /** The function without its first parameter (the shorter overload). */
  function ShortOverload(f: Node): Node
    requires NeedsOverload(f)
  {
    f.(parameters := Present(f.parameters.list[1..]))
  }

  /** `declare function webext$<id><signature>;` */
  function FunctionLine(id: string, signature: string): string {
    "declare function webext$" + id + signature + ";\n"
  }

  /** Whatever follows it, a function line begins with `declare function webext$<id>`. */
  lemma FunctionLinePrefix(id: string, signature: string, rest: string)
    ensures StartsWith(FunctionLine(id, signature) + rest, "declare function " + "webext$" + id)
  {
    var head := "declare function " + "webext$" + id;
    assert FunctionLine(id, signature) + rest == head + (signature + ";\n" + rest);
  }

  /**
   * `declareFunctionToFlow(def)`: the declaration text, and the function
   * description as the declaration leaves it (without its first parameter
   * after an overload).
   */
  function FunctionDeclaration(def: Def, defs: map<string, Def>): (r: Result<(string, Node)>)
    ensures def.funcDef.None? ==> r == Err(MissingDescription(Str(def.id)))
    ensures def.funcDef.Some? && NeedsOverload(def.funcDef.value) ==>
      (r.Ok? <==> ConvertType(FullOverload(def.funcDef.value), TopLevel(defs)).Ok?
                  && ConvertType(ShortOverload(def.funcDef.value), TopLevel(defs)).Ok?)
    ensures def.funcDef.Some? && !NeedsOverload(def.funcDef.value) ==>
      (r.Ok? <==> ConvertType(def.funcDef.value, TopLevel(defs)).Ok?)
    ensures r.Ok? ==> StartsWith(r.value.0, "declare function " + "webext$" + Str(def.id))
    ensures r.Ok? ==> r.value.1 == if NeedsOverload(def.funcDef.value) then ShortOverload(def.funcDef.value) else def.funcDef.value
  {
    if def.funcDef.None? then Err(MissingDescription(Str(def.id)))
    else
      var f := def.funcDef.value;
      if NeedsOverload(f) then
        var body2 :- ConvertType(FullOverload(f), TopLevel(defs));
        var body :- ConvertType(ShortOverload(f), TopLevel(defs));
        FunctionLinePrefix(Str(def.id), body, FunctionLine(Str(def.id), body2) + "\n");
        assert FunctionLine(Str(def.id), body) + (FunctionLine(Str(def.id), body2) + "\n")
          == FunctionLine(Str(def.id), body) + FunctionLine(Str(def.id), body2) + "\n";
        Ok((FunctionLine(Str(def.id), body) + FunctionLine(Str(def.id), body2) + "\n", ShortOverload(f)))
      else
        var body :- ConvertType(f, TopLevel(defs));
        FunctionLinePrefix(Str(def.id), body, "\n");
        Ok((FunctionLine(Str(def.id), body) + "\n", f))
  }

  // ---------------------------------------------------------------------------
  // Events

  /** The `listener` parameter of `addListener`: a function of the event's parameters and return. */
  function Listener(e: Node): Node {
    Blank.(name := Some("listener"), typeTag := Some("function"), parameters := e.parameters, returnType := e.returnType)
  }

  /** The `listener` parameter of `removeListener`: any function. */
  const BareListener: Node := Blank.(name := Some("listener"), typeTag := Some("function"))

  /**
   * The object type standing for an event: `addListener` takes the listener
   * and the event's extra parameters, `removeListener` a bare listener and the
   * same extra parameters. The extra parameters are passed on unchanged (both
   * property descriptions are named `addListener`, which the conversion does
   * not look at).
   */
  function EventTypeDef(e: Node): (t: Node)
    ensures t.typeTag == Some("object") && t.properties.Props?
    ensures var ps := t.properties.entries;
      && |ps| == 2 && ps[0].key == "addListener" && ps[1].key == "removeListener"
      && forall k | 0 <= k < 2 ::
        && ps[k].schema.typeTag == Some("function") && !ps[k].schema.unsupported
        && ps[k].schema.parameters.Present? && |ps[k].schema.parameters.list| == 1 + |e.extraParameters.OrEmpty()|
        && ps[k].schema.parameters.list[1..] == e.extraParameters.OrEmpty()
        && ps[k].schema.parameters.list[0].name == Some("listener")
    ensures var listener := t.properties.entries[0].schema.parameters.list[0];
      listener.parameters == e.parameters && listener.returnType == e.returnType
  {
    var extra := e.extraParameters.OrEmpty();
    var add := Blank.(name := Some("addListener"), typeTag := Some("function"), parameters := Present([Listener(e)] + extra));
    var remove := Blank.(name := Some("addListener"), typeTag := Some("function"), parameters := Present([BareListener] + extra));
    assert ([Listener(e)] + extra)[1..] == extra && ([BareListener] + extra)[1..] == extra;
    Blank.(typeTag := Some("object"), properties := Props([Property("addListener", add), Property("removeListener", remove)]))
  }

  /**
   * `declareEventToFlow(def)`: the record is rewritten in place to carry the
   * event's bare name as its id and the event object type, then declared as a
   * type; the conversion already sees the rewritten record under `key`.
   */
  function EventDeclaration(key: string, def: Def, defs: map<string, Def>): (r: Result<(string, Def)>)
    ensures def.eventDef.None? ==> r == Err(MissingDescription(Str(def.id)))
    ensures r.Ok? ==>
      && r.value.1 == def.(id := def.eventDef.value.name, typeDef := Some(EventTypeDef(def.eventDef.value)))
      && StartsWith(r.value.0, "declare type " + DeclaredTypeName(r.value.1) + " = ")
    ensures def.eventDef.Some? && r.Err? ==>
      var decorated := def.(id := def.eventDef.value.name, typeDef := Some(EventTypeDef(def.eventDef.value)));
      !ConvertType(EventTypeDef(def.eventDef.value), TopLevel(defs[key := decorated])).Ok?
  {
    if def.eventDef.None? then Err(MissingDescription(Str(def.id)))
    else
      var decorated := def.(id := def.eventDef.value.name, typeDef := Some(EventTypeDef(def.eventDef.value)));
      var text :- TypeDeclaration(decorated, defs[key := decorated]);
      Ok((text, decorated))
  }

  // ---------------------------------------------------------------------------
  // Namespaces

  /** The property standing for an event: a reference to its definition. */
  function EventRef(e: Node): Node {
    Blank.(ref := e.id)
  }

  /** The property standing for a function: `typeof` its declaration. */
  function FunctionRef(f: Node): Node {
    Blank.(typeTag := Some("typeof-$ref"), ref := f.id)
  }

  /**
   * The properties of a namespace's object type, by member name: its events,
   * then its functions; a later member with the same name replaces the value
   * and keeps the position.
   */
  function NamespaceProperties(events: seq<Node>, functions: seq<Node>): (m: OrderedMap<string, Node>)
    ensures m.Valid()
    ensures forall e | e in events :: Str(e.name) in m.entries
    ensures forall f | f in functions :: Str(f.name) in m.entries && m.entries[Str(f.name)].typeTag == Some("typeof-$ref")
  {
    if functions != [] then
      var f := functions[|functions| - 1];
      NamespaceProperties(events, functions[..|functions| - 1]).Set(Str(f.name), FunctionRef(f))
    else if events != [] then
      var e := events[|events| - 1];
      NamespaceProperties(events[..|events| - 1], []).Set(Str(e.name), EventRef(e))
    else EmptyMap()
  }

  function PropertiesOf(m: OrderedMap<string, Node>): (ps: seq<Property>)
    requires m.Valid()
    ensures |ps| == |m.keys|
    ensures forall i | 0 <= i < |m.keys| :: ps[i] == Property(m.keys[i], m.entries[m.keys[i]])
  {
    seq(|m.keys|, i requires 0 <= i < |m.keys| => Property(m.keys[i], m.entries[m.keys[i]]))
  }

  function NamespaceTypeDef(entry: Namespace): Node {
    Blank.(typeTag := Some("object"), properties := Props(PropertiesOf(NamespaceProperties(entry.events, entry.functions))))
  }

  /**
   * `declareNamespaceToFlow(def)`: the record is rewritten in place to carry
   * the namespace object type and its own id as namespace, then declared as a
   * type. A record whose id names no namespace is an error.
   */
  function NamespaceDeclaration(key: string, def: Def, namespaces: Namespaces, defs: map<string, Def>): (r: Result<(string, Def)>)
    ensures Str(def.id) !in namespaces.entries ==> r == Err(UndefinedNamespace(Str(def.id)))
    ensures r.Ok? ==>
      && Str(def.id) in namespaces.entries
      && r.value.1 == def.(typeDef := Some(NamespaceTypeDef(namespaces.entries[Str(def.id)])), namespace := def.id)
      && StartsWith(r.value.0, "declare type " + DeclaredTypeName(r.value.1) + " = ")
  {
    if Str(def.id) !in namespaces.entries then Err(UndefinedNamespace(Str(def.id)))
    else
      var decorated := def.(typeDef := Some(NamespaceTypeDef(namespaces.entries[Str(def.id)])), namespace := def.id);
      var text :- TypeDeclaration(decorated, defs[key := decorated]);
      Ok((text, decorated))
  }

  // ---------------------------------------------------------------------------
  // The whole output

  /** The declaration of the graph node `key`, by the kind of its record, and `defsById` afterwards. */
  function Declaration(key: string, defs: map<string, Def>, namespaces: Namespaces): Result<(string, map<string, Def>)> {
    if key !in defs then Err(UndefinedDefinition(key))
    else
      var def := defs[key];
      match def.kind
      case TypeDef =>
        var text :- TypeDeclaration(def, defs);
        Ok((text, defs))
      case FunctionDef =>
        var declared :- FunctionDeclaration(def, defs);
        Ok((declared.0, defs[key := def.(funcDef := Some(declared.1))]))
      case EventDef =>
        var declared :- EventDeclaration(key, def, defs);
        Ok((declared.0, defs[key := declared.1]))
      case NamespaceDef =>
        var declared :- NamespaceDeclaration(key, def, namespaces, defs);
        Ok((declared.0, defs[key := declared.1]))
  }

  /** The declarations of the nodes of `order`, one per node, and `defsById` after them. */
  function Declarations(order: seq<string>, defs: map<string, Def>, namespaces: Namespaces): (r: Result<(seq<string>, map<string, Def>)>)
    ensures r.Ok? ==> |r.value.0| == |order|
  {
    if order == [] then Ok(([], defs))
    else
      var prev :- Declarations(order[..|order| - 1], defs, namespaces);
      var next :- Declaration(order[|order| - 1], prev.1, namespaces);
      Ok((prev.0 + [next.0], next.1))
  }

  /** `parts.join("")` */
  function Concat(parts: seq<string>): string {
    if parts == [] then "" else Concat(parts[..|parts| - 1]) + parts[|parts| - 1]
  }

  lemma ConcatSnoc(parts: seq<string>, last: string)
    ensures Concat(parts + [last]) == Concat(parts) + last
  {
    assert (parts + [last])[..|parts|] == parts;
  }

  const ExcludedNamespaces: seq<string> := ["manifest", "events", "extensionTypes"]

  /** The namespaces the globals expose, in order. */
  function ExposedNamespaces(names: seq<string>): (exposed: seq<string>)
    ensures forall n :: n in exposed <==> n in names && n !in ExcludedNamespaces
  {
    if names == [] then []
    else
      var n := names[|names| - 1];
      ExposedNamespaces(names[..|names| - 1]) + (if n in ExcludedNamespaces then [] else [n])
  }

  /** `  <ns>: webext$<ns>$<ns>,` */
  function GlobalLine(ns: string): string {
    "  " + ns + ": webext$" + ns + "$" + ns + ",\n"
  }

  /** The body the globals share, accumulated namespace by namespace. */
  function GlobalsBody(names: seq<string>): string {
    if names == [] then ""
    else
      var n := names[|names| - 1];
      GlobalsBody(names[..|names| - 1]) + (if n in ExcludedNamespaces then "" else GlobalLine(n))
  }

  function GlobalDeclaration(global: string, body: string): string {
    "declare var " + global + ": {\n" + body + "};\n\n"
  }

  /** The `chrome` global, then the `browser` global, over the same body. */
  function Globals(names: seq<string>): (g: string)
    ensures StartsWith(g, GlobalDeclaration("chrome", GlobalsBody(names)))
    ensures EndsWith(g, GlobalDeclaration("browser", GlobalsBody(names)))
  {
    StartsWithAppended(GlobalDeclaration("chrome", GlobalsBody(names)), GlobalDeclaration("browser", GlobalsBody(names)));
    EndsWithAppended(GlobalDeclaration("chrome", GlobalsBody(names)), GlobalDeclaration("browser", GlobalsBody(names)));
    GlobalDeclaration("chrome", GlobalsBody(names)) + GlobalDeclaration("browser", GlobalsBody(names))
  }

  /**
   * `convertToFlowTypes()`: the declarations in the order the graph sorts to,
   * then the globals; and `defsById` as the declarations leave it.
   */
  function FlowOutput(reg: Registry): (r: Result<(string, map<string, Def>)>)
    ensures Kahn(reg.edges).Err? ==> r == Err(CyclicDependency)
    ensures r.Ok? ==> EndsWith(r.value.0, Globals(reg.namespaces.keys))
    ensures r.Ok? ==> Kahn(reg.edges).Ok? && Declarations(Kahn(reg.edges).value, reg.defs, reg.namespaces).Ok?
  {
    var order :- Kahn(reg.edges);
    var declared :- Declarations(order, reg.defs, reg.namespaces);
    EndsWithAppended(Concat(declared.0), Globals(reg.namespaces.keys));
    Ok((Concat(declared.0) + Globals(reg.namespaces.keys), declared.1))
  }
}
