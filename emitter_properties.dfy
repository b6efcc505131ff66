/**
 * What the emitted declarations promise: the exact text of function
 * declarations and their overloads, that every reference the converter
 * produces for a type, a function or an event names exactly what was
 * declared for it, the properties of namespace object types, the globals,
 * and that the declarations follow the dependency order.
 */
module EmitterProperties {
  import opened Schema
  import opened FlowTypesGenerator
  import opened FlowTypesProperties
  import opened DepsGraph
  import opened SchemaResolver
  import opened DeclarationEmitter

  // ---------------------------------------------------------------------------
  // Function declarations

  /** A description of `type: "function"` that the converter reaches as a function. */
  predicate IsFunctionDescription(f: Node) {
    f.typeTag == Some("function") && !Truthy(f.ref) && f.choices.Absent?
  }

  /**
   * The signature of a top-level function declaration: its parameter lines
   * (converted at level 0) joined by ", ", then `: ` and its return.
   */
  function Signature(f: Node, defs: map<string, Def>): string {
    var lines := ParameterLines(f.parameters.OrEmpty(), f.async, Params(defs, Some(0), true, false));
    "(" + Join(lines, ", ") + "): " + ReturnText(f, Params(defs, Some(1), true, false))
  }

  /** A function description with parameters or a return converts at the top level to its signature. */
  lemma TopLevelSignature(f: Node, defs: map<string, Def>)
    requires IsFunctionDescription(f) && (f.parameters.Present? || f.returnType.Some?)
    requires ConvertType(f, TopLevel(defs)).Ok?
    ensures ConvertType(f, TopLevel(defs)).value == Signature(f, defs)
  {
    var p1 := Params(defs, Some(1), false, false);
    ComposedOneLevelDeeper(f, TopLevel(defs));
    assert ConvertType(f, TopLevel(defs)) == ConvertFunction(f, p1);
    FunctionAtLevelOne(f, defs);
  }

  /** The function conversion one level below the top is the signature. */
  lemma FunctionAtLevelOne(f: Node, defs: map<string, Def>)
    requires f.parameters.Present? || f.returnType.Some?
    requires ConvertFunction(f, Params(defs, Some(1), false, false)).Ok?
    ensures ConvertFunction(f, Params(defs, Some(1), false, false)).value == Signature(f, defs)
  {
    var p1 := Params(defs, Some(1), false, false);
    FunctionShape(f, p1);
    assert p1.(forcedIndentLevel := Some(0), inFunction := true) == Params(defs, Some(0), true, false);
    assert p1.(inFunction := true) == Params(defs, Some(1), true, false);
  }

  /**
   * A function whose first parameter is optional and whose second is not is
   * declared twice: first without its first parameter, then with all of them
   * and the first one required. The definition keeps the shorter parameter
   * list afterwards.
   */
  lemma OverloadDeclarations(def: Def, defs: map<string, Def>)
    requires def.funcDef.Some? && NeedsOverload(def.funcDef.value) && IsFunctionDescription(def.funcDef.value)
    requires FunctionDeclaration(def, defs).Ok?
    ensures var f := def.funcDef.value;
      && FunctionDeclaration(def, defs).value.1.parameters == Present(f.parameters.list[1..])
      && FunctionDeclaration(def, defs).value.0 ==
           FunctionLine(Str(def.id), Signature(ShortOverload(f), defs))
           + FunctionLine(Str(def.id), Signature(FullOverload(f), defs)) + "\n"
    ensures var full := FullOverload(def.funcDef.value).parameters.list;
      && !full[0].optional
      && full[1..] == def.funcDef.value.parameters.list[1..]
  {
    OverloadText(def, defs);
  }

  /** The text of the two overloads. */
  lemma OverloadText(def: Def, defs: map<string, Def>)
    requires def.funcDef.Some? && NeedsOverload(def.funcDef.value) && IsFunctionDescription(def.funcDef.value)
    requires FunctionDeclaration(def, defs).Ok?
    ensures FunctionDeclaration(def, defs).value.0 ==
      FunctionLine(Str(def.id), Signature(ShortOverload(def.funcDef.value), defs))
      + FunctionLine(Str(def.id), Signature(FullOverload(def.funcDef.value), defs)) + "\n"
  {
    var f := def.funcDef.value;
    var full := ConvertType(FullOverload(f), TopLevel(defs));
    var short := ConvertType(ShortOverload(f), TopLevel(defs));
    assert full.Ok? && short.Ok?;
    assert FunctionDeclaration(def, defs).value.0 ==
      FunctionLine(Str(def.id), short.value) + FunctionLine(Str(def.id), full.value) + "\n";
    TopLevelSignature(FullOverload(f), defs);
    TopLevelSignature(ShortOverload(f), defs);
  }

  /** Any other function is declared exactly once, and its definition is left as it is. */
  lemma SingleDeclaration(def: Def, defs: map<string, Def>)
    requires def.funcDef.Some? && !NeedsOverload(def.funcDef.value) && IsFunctionDescription(def.funcDef.value)
    requires def.funcDef.value.parameters.Present? || def.funcDef.value.returnType.Some?
    requires FunctionDeclaration(def, defs).Ok?
    ensures FunctionDeclaration(def, defs).value ==
      (FunctionLine(Str(def.id), Signature(def.funcDef.value, defs)) + "\n", def.funcDef.value)
  {
    TopLevelSignature(def.funcDef.value, defs);
  }

  /**
   * A function with neither parameters nor a return converts to `Function`,
   * so its declaration reads `declare function webext$<id>Function;`.
   */
  lemma BareFunctionDeclaration(def: Def, defs: map<string, Def>)
    requires def.funcDef.Some? && IsFunctionDescription(def.funcDef.value)
    requires def.funcDef.value.parameters.Absent? && def.funcDef.value.returnType.None?
    ensures FunctionDeclaration(def, defs) ==
      Ok(("declare function webext$" + Str(def.id) + "Function;\n\n", def.funcDef.value))
  {
    var f := def.funcDef.value;
    assert ConvertType(f, TopLevel(defs)) == ConvertComposedType(f, TopLevel(defs));
    assert ConvertType(f, TopLevel(defs)) == Ok("Function");
    assert FunctionDeclaration(def, defs) == Ok((FunctionLine(Str(def.id), "Function") + "\n", f));
    assert FunctionLine(Str(def.id), "Function") + "\n" == "declare function webext$" + Str(def.id) + "Function;\n\n";
  }

  // ---------------------------------------------------------------------------
  // References name what was declared

  /** A reference to a known definition with an id converts to its reference name, after `typeof` for a function. */
  lemma ReferenceConversion(n: Node, params: Params)
    requires !IsPrimitiveType(n) && IsReferenceType(n) && LastSegment(n.ref.value) in params.defs
    requires params.defs[LastSegment(n.ref.value)].id.Some?
    ensures var d := params.defs[LastSegment(n.ref.value)];
      var name := ReferenceName(d.id.value, d.namespace);
      ConvertType(n, params) == Ok(if d.kind == FunctionDef then "typeof " + name else name)
  {
    assert ConvertType(n, params) == ConvertReferenceType(n, params);
  }

  /**
   * A type registered in namespace `ns` under an id without dots: a `$ref` to
   * it, plain or prefixed like `manifest.<id>`, converts to the very name it
   * is declared under, unless the id begins with the namespace's name.
   */
  lemma TypeReferenceMatchesDeclaration(id: string, prefix: Option<string>, defs: map<string, Def>, params: Params)
    requires '.' !in id && id != "" && id in defs && params.defs == defs
    requires defs[id].kind == TypeDef && defs[id].id == Some(id) && defs[id].namespace.Some?
    requires !StartsWith(id, defs[id].namespace.value)
    ensures var ref := if prefix.Some? then prefix.value + "." + id else id;
      ConvertType(Blank.(ref := Some(ref)), params) == Ok(DeclaredTypeName(defs[id]))
  {
    var ref := if prefix.Some? then prefix.value + "." + id else id;
    if prefix.Some? {
      LastSegmentAfterDot(prefix.value, id);
    } else {
      LastSegmentOfPlainName(id);
    }
    ReferenceConversion(Blank.(ref := Some(ref)), params);
  }

  /** A member id has no dot when neither its namespace nor its name has one. */
  lemma MemberIdWithoutDot(ns: string, member: Node)
    requires '.' !in ns && '.' !in Str(member.name)
    ensures '.' !in MemberId(ns, member) && MemberId(ns, member) != ""
    ensures StartsWith(MemberId(ns, member), ns)
  {
    assert MemberId(ns, member)[..|ns|] == ns;
  }

  /**
   * A registered function is declared as `webext$<ns>$<name>`, and the
   * namespace's `typeof-$ref` property for it converts to `typeof` that very
   * name, when neither the namespace nor the name has a dot.
   */
  lemma FunctionReferenceMatchesDeclaration(ns: string, f: Node, defs: map<string, Def>, params: Params)
    requires '.' !in ns && '.' !in Str(f.name) && params.defs == defs
    requires MemberId(ns, f) in defs && defs[MemberId(ns, f)] == MemberRecord(ns, f, Functions)
    ensures ConvertType(FunctionRef(WithId(ns, f)), params) == Ok("typeof " + "webext$" + MemberId(ns, f))
    ensures FunctionDeclaration(defs[MemberId(ns, f)], defs).Ok? ==>
      StartsWith(FunctionDeclaration(defs[MemberId(ns, f)], defs).value.0, "declare function " + "webext$" + MemberId(ns, f))
  {
    var id := MemberId(ns, f);
    MemberIdWithoutDot(ns, f);
    LastSegmentOfPlainName(id);
    var n := FunctionRef(WithId(ns, f));
    assert n.ref == Some(id) && LastSegment(n.ref.value) == id;
    var d := defs[id];
    assert d.kind == FunctionDef && d.id == Some(id) && d.namespace == Some(ns);
    assert ReferenceName(id, d.namespace) == "webext$" + id;
    ReferenceConversion(n, params);
    assert "typeof " + ("webext$" + id) == "typeof " + "webext$" + id;
  }

  /**
   * Declaring an event rewrites its record's id to the bare event name; the
   * namespace's `$ref` property for the event then converts to exactly the
   * name the event was declared under, unless the event's name begins with
   * its namespace's name.
   */
  lemma EventReferenceMatchesDeclaration(ns: string, e: Node, defs: map<string, Def>, params: Params)
    requires e.name.Some? && '.' !in ns && '.' !in e.name.value && !StartsWith(e.name.value, ns)
    requires MemberId(ns, e) in defs && defs[MemberId(ns, e)] == MemberRecord(ns, e, Events)
    requires EventDeclaration(MemberId(ns, e), defs[MemberId(ns, e)], defs).Ok?
    ensures var decorated := EventDeclaration(MemberId(ns, e), defs[MemberId(ns, e)], defs).value.1;
      && decorated.id == e.name
      && StartsWith(EventDeclaration(MemberId(ns, e), defs[MemberId(ns, e)], defs).value.0,
           "declare type " + "webext$" + ns + "$" + e.name.value + " = ")
      && ConvertType(EventRef(WithId(ns, e)), params.(defs := defs[MemberId(ns, e) := decorated])) ==
           Ok("webext$" + ns + "$" + e.name.value)
  {
    var key := MemberId(ns, e);
    var def := defs[key];
    var decorated := def.(id := e.name, typeDef := Some(EventTypeDef(e)));
    assert EventDeclaration(key, def, defs) == Ok((TypeDeclaration(decorated, defs[key := decorated]).value, decorated));
    assert DeclaredTypeName(decorated) == "webext$" + ns + "$" + e.name.value;
    assert "declare type " + DeclaredTypeName(decorated) + " = " == "declare type " + "webext$" + ns + "$" + e.name.value + " = ";
    MemberIdWithoutDot(ns, e);
    LastSegmentOfPlainName(key);
    ReferenceConversion(EventRef(WithId(ns, e)), params.(defs := defs[key := decorated]));
  }

  /**
   * An event without `name` is declared all the same, but its record is left
   * without an id, so the namespace's `$ref` property for it cannot be
   * converted: the namespace declaration fails.
   */
  lemma NamelessEventReferenceFails(ns: string, e: Node, defs: map<string, Def>, params: Params)
    requires e.name.None? && '.' !in ns
    requires MemberId(ns, e) in defs && defs[MemberId(ns, e)] == MemberRecord(ns, e, Events)
    requires EventDeclaration(MemberId(ns, e), defs[MemberId(ns, e)], defs).Ok?
    ensures var decorated := EventDeclaration(MemberId(ns, e), defs[MemberId(ns, e)], defs).value.1;
      && decorated.id.None?
      && ConvertType(EventRef(WithId(ns, e)), params.(defs := defs[MemberId(ns, e) := decorated])) ==
           Err(UndefinedId(MemberId(ns, e)))
  {
    var key := MemberId(ns, e);
    MemberIdWithoutDot(ns, e);
    LastSegmentOfPlainName(key);
  }

  /**
   * A type whose id begins with its namespace's name is declared as
   * `webext$<ns>$<id>`, but a `$ref` to it converts to `webext$<id>`: a name
   * nothing declares.
   */
  lemma TypeReferenceMisnamed(id: string, defs: map<string, Def>, params: Params)
    requires '.' !in id && id != "" && id in defs && params.defs == defs
    requires defs[id].kind == TypeDef && defs[id].id == Some(id) && defs[id].namespace.Some?
    requires StartsWith(id, defs[id].namespace.value)
    ensures ConvertType(Blank.(ref := Some(id)), params) == Ok("webext$" + id)
    ensures "webext$" + id != DeclaredTypeName(defs[id])
  {
    LastSegmentOfPlainName(id);
    ReferenceConversion(Blank.(ref := Some(id)), params);
    var ns := defs[id].namespace.value;
    assert |DeclaredTypeName(defs[id])| == |"webext$" + id| + |ns| + 1;
  }

  /**
   * The object type of an event: `addListener` takes a listener of the
   * event's parameters and return, `removeListener` any function; both then
   * take the event's extra parameters exactly as given, their `optional`
   * flags untouched.
   */
  lemma EventListeners(e: Node, params: Params)
    ensures var props := EventTypeDef(e).properties.entries;
      && |props| == 2 && props[0].key == "addListener" && props[1].key == "removeListener"
      && props[0].schema.parameters == Present([Listener(e)] + e.extraParameters.OrEmpty())
      && props[1].schema.parameters == Present([BareListener] + e.extraParameters.OrEmpty())
    ensures Listener(e).parameters == e.parameters && Listener(e).returnType == e.returnType
    ensures ConvertType(BareListener, params) == Ok("Function")
  {
    assert ConvertType(BareListener, params) == ConvertComposedType(BareListener, params);
  }

  // ---------------------------------------------------------------------------
  // Namespace object types

  /** The names of `members`, as their template literals render them. */
  function MemberNames(members: seq<Node>): (names: seq<string>)
    ensures |names| == |members| && forall k | 0 <= k < |members| :: names[k] == Str(members[k].name)
  {
    if members == [] then [] else MemberNames(members[..|members| - 1]) + [Str(members[|members| - 1].name)]
  }

  /** Setting a key on a map whose keys are the first mentions in `s` keeps that so for `s + [k]`. */
  lemma SetKeysDedup(m: OrderedMap<string, Node>, s: seq<string>, k: string, v: Node)
    requires m.Valid() && m.keys == Dedup(s)
    ensures m.Set(k, v).keys == Dedup(s + [k])
  {
    var t := s + [k];
    assert t[..|t| - 1] == s;
    assert k in m.keys <==> k in m.entries;
  }

  lemma SnocAssoc<T>(a: seq<T>, b: seq<T>, x: T)
    ensures a + (b + [x]) == (a + b) + [x]
    ensures (a + [x]) + [] == (a + []) + [x]
  {
  }

  /**
   * A namespace's object type has one property per distinct member name, in
   * the order events then functions first mention them.
   */
  lemma {:induction false} NamespacePropertiesKeys(events: seq<Node>, functions: seq<Node>)
    ensures NamespaceProperties(events, functions).keys == Dedup(MemberNames(events) + MemberNames(functions))
  {
    if functions != [] {
      var init := functions[..|functions| - 1];
      var f := functions[|functions| - 1];
      NamespacePropertiesKeys(events, init);
      assert MemberNames(functions) == MemberNames(init) + [Str(f.name)];
      SnocAssoc(MemberNames(events), MemberNames(init), Str(f.name));
      SetKeysDedup(NamespaceProperties(events, init), MemberNames(events) + MemberNames(init), Str(f.name), FunctionRef(f));
    } else if events != [] {
      var init := events[..|events| - 1];
      var e := events[|events| - 1];
      NamespacePropertiesKeys(init, []);
      assert MemberNames(events) == MemberNames(init) + [Str(e.name)];
      SnocAssoc(MemberNames(init), MemberNames([]), Str(e.name));
      SetKeysDedup(NamespaceProperties(init, []), MemberNames(init) + MemberNames([]), Str(e.name), EventRef(e));
    }
  }

  /** The property named like a function is `typeof` the last function of that name. */
  lemma {:induction false} NamespacePropertiesFunction(events: seq<Node>, functions: seq<Node>, k: nat)
    requires k < |functions|
    requires forall j | k < j < |functions| :: Str(functions[j].name) != Str(functions[k].name)
    ensures Str(functions[k].name) in NamespaceProperties(events, functions).entries
    ensures NamespaceProperties(events, functions).entries[Str(functions[k].name)] == FunctionRef(functions[k])
  {
    if k < |functions| - 1 {
      NamespacePropertiesFunction(events, functions[..|functions| - 1], k);
    }
  }

  /** The property named like an event and like no function refers to the last event of that name. */
  lemma {:induction false} NamespacePropertiesEvent(events: seq<Node>, functions: seq<Node>, k: nat)
    requires k < |events|
    requires forall j | k < j < |events| :: Str(events[j].name) != Str(events[k].name)
    requires forall j | 0 <= j < |functions| :: Str(functions[j].name) != Str(events[k].name)
    ensures Str(events[k].name) in NamespaceProperties(events, functions).entries
    ensures NamespaceProperties(events, functions).entries[Str(events[k].name)] == EventRef(events[k])
  {
    if functions != [] {
      NamespacePropertiesEvent(events, functions[..|functions| - 1], k);
    } else if k < |events| - 1 {
      NamespacePropertiesEvent(events[..|events| - 1], [], k);
    }
  }

  // ---------------------------------------------------------------------------
  // Globals

  function GlobalLines(names: seq<string>): (lines: seq<string>)
    ensures |lines| == |names| && forall k | 0 <= k < |names| :: lines[k] == GlobalLine(names[k])
  {
    if names == [] then [] else GlobalLines(names[..|names| - 1]) + [GlobalLine(names[|names| - 1])]
  }

  /**
   * `chrome` and `browser` are declared with the same body: one line
   * `<ns>: webext$<ns>$<ns>` per namespace, in order, except `manifest`,
   * `events` and `extensionTypes`.
   */
  lemma {:induction false} GlobalsExposeNamespaces(names: seq<string>)
    ensures var body := Concat(GlobalLines(ExposedNamespaces(names)));
      Globals(names) == GlobalDeclaration("chrome", body) + GlobalDeclaration("browser", body)
  {
    GlobalsBodyLines(names);
  }

  lemma {:induction false} GlobalsBodyLines(names: seq<string>)
    ensures GlobalsBody(names) == Concat(GlobalLines(ExposedNamespaces(names)))
  {
    if names != [] {
      var init := names[..|names| - 1];
      var n := names[|names| - 1];
      GlobalsBodyLines(init);
      var e := ExposedNamespaces(init);
      if n !in ExcludedNamespaces {
        assert ExposedNamespaces(names) == e + [n];
        assert (e + [n])[..|e|] == e;
        assert GlobalLines(e + [n]) == GlobalLines(e) + [GlobalLine(n)];
        ConcatSnoc(GlobalLines(e), GlobalLine(n));
      } else {
        assert ExposedNamespaces(names) == e;
      }
    }
  }

  // ---------------------------------------------------------------------------
  // Order of the declarations

  /**
   * The `i`-th chunk of the output is the declaration of the `i`-th node of
   * the order, made against the definitions as the earlier declarations left
   * them.
   */
  lemma {:induction false} DeclarationAt(order: seq<string>, defs: map<string, Def>, namespaces: Namespaces, i: nat)
    requires Declarations(order, defs, namespaces).Ok? && i < |order|
    ensures Declarations(order[..i], defs, namespaces).Ok?
    ensures Declaration(order[i], Declarations(order[..i], defs, namespaces).value.1, namespaces).Ok?
    ensures Declarations(order, defs, namespaces).value.0[i] ==
      Declaration(order[i], Declarations(order[..i], defs, namespaces).value.1, namespaces).value.0
  {
    var init := order[..|order| - 1];
    if i < |order| - 1 {
      DeclarationAt(init, defs, namespaces, i);
      assert init[..i] == order[..i];
      assert init[i] == order[i];
    }
  }

  /** The order Kahn's algorithm finds, when it finds one, respects every edge. */
  lemma KahnOrder(edges: seq<Edge>)
    requires Kahn(edges).Ok?
    ensures IsTopologicalOrder(Kahn(edges).value, edges)
  {
    KahnCorrect([], NodesOf(edges), edges);
  }

  /**
   * Every function and event is declared before its namespace, and after
   * every type its parameters, return and extra parameters refer to.
   */
  lemma MemberDeclaredBeforeDependents(reg: Registry, ns: string, kind: MemberKind, k: nat)
    requires reg.namespaces.Valid() && ProcessAll(reg).Ok?
    requires ns in reg.namespaces.entries && k < |Members(reg.namespaces.entries[ns], kind)|
    requires Kahn(ProcessAll(reg).value.edges).Ok?
    ensures var order := Kahn(ProcessAll(reg).value.edges).value;
      forall e | e in MemberEdges(ns, Members(reg.namespaces.entries[ns], kind)[k], kind) ::
        exists i, j | 0 <= i < j < |order| :: order[i] == e.0 && order[j] == e.1
    ensures var order := Kahn(ProcessAll(reg).value.edges).value;
      exists i, j | 0 <= i < j < |order| ::
        order[i] == MemberId(ns, Members(reg.namespaces.entries[ns], kind)[k]) && order[j] == ns
  {
    var order := Kahn(ProcessAll(reg).value.edges).value;
    var m := Members(reg.namespaces.entries[ns], kind)[k];
    KahnOrder(ProcessAll(reg).value.edges);
    DependenciesFirst(reg, ns, kind, k, order);
    assert (MemberId(ns, m), ns) in MemberEdges(ns, m, kind);
  }
}
