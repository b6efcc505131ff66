/**
 * What resolving the collected schema documents computes, as functions of
 * the state before each step: the namespace table after merging fragments,
 * the type pass (`$extend` mixins applied, types registered), and the
 * function and event pass (ids assigned, definitions and dependency edges
 * recorded). The `SchemaCollectionManager` methods are proved to compute
 * exactly these.
 */
module SchemaResolver {
  import opened Schema
  import opened DepsGraph

  /** One namespace record of a schema document, as parsed. */
  datatype NsData = NsData(namespace: string, events: Nodes, functions: Nodes, types: Nodes)

  /** An entry of the namespace table. */
  datatype Namespace = Namespace(namespace: string, events: seq<Node>, functions: seq<Node>, types: seq<Node>)

  type Namespaces = OrderedMap<string, Namespace>

  /** The state of a `SchemaCollectionManager`: namespaces, `defsById`, and the edges of `depsGraph`. */
  datatype Registry = Registry(namespaces: Namespaces, defs: map<string, Def>, edges: seq<Edge>)

  // ---------------------------------------------------------------------------
  // Merging namespace fragments

  /** `{type: "namespace", id: ns}` */
  function NamespaceRecord(ns: string): Def {
    Def(NamespaceDef, Some(ns), None, None, None, None)
  }

  /** The table after merging one fragment: a new namespace starts from the fragment's lists, a known one appends them. */
  function Merged(namespaces: Namespaces, data: NsData): (r: Namespaces)
    requires namespaces.Valid()
    ensures r.Valid()
    ensures forall k | k in namespaces.entries :: k in r.entries
    ensures r.keys == if data.namespace in namespaces.entries then namespaces.keys else namespaces.keys + [data.namespace]
    ensures forall k | k in namespaces.entries && k != data.namespace :: k in r.entries && r.entries[k] == namespaces.entries[k]
    ensures var ns := data.namespace;
      var known := if ns in namespaces.entries then namespaces.entries[ns] else Namespace(ns, [], [], []);
      && ns in r.entries
      && r.entries[ns].events == known.events + data.events.OrEmpty()
      && r.entries[ns].functions == known.functions + data.functions.OrEmpty()
      && r.entries[ns].types == known.types + data.types.OrEmpty()
  {
    var ns := data.namespace;
    if ns !in namespaces.entries then
      namespaces.Set(ns, Namespace(ns, data.events.OrEmpty(), data.functions.OrEmpty(), data.types.OrEmpty()))
    else
      var known := namespaces.entries[ns];
      namespaces.Set(ns, known.(
        events := known.events + data.events.OrEmpty(),
        functions := known.functions + data.functions.OrEmpty(),
        types := known.types + data.types.OrEmpty()))
  }

  function MergedAll(namespaces: Namespaces, fragments: seq<NsData>): (r: Namespaces)
    requires namespaces.Valid()
    ensures r.Valid()
    ensures forall k | k in namespaces.entries :: k in r.entries
    ensures forall k | 0 <= k < |fragments| :: fragments[k].namespace in r.entries
  {
    if fragments == [] then namespaces
    else
      var init := fragments[..|fragments| - 1];
      var prev := MergedAll(namespaces, init);
      assert forall k | 0 <= k < |init| :: init[k] == fragments[k] && fragments[k].namespace in prev.entries;
      Merged(prev, fragments[|fragments| - 1])
  }

  function NamespaceNames(fragments: seq<NsData>): (names: seq<string>)
    ensures |names| == |fragments|
    ensures forall k | 0 <= k < |fragments| :: names[k] == fragments[k].namespace
  {
    if fragments == [] then [] else NamespaceNames(fragments[..|fragments| - 1]) + [fragments[|fragments| - 1].namespace]
  }

  /** The fragments of namespace `ns`, in arrival order. */
  function FragmentsOf(fragments: seq<NsData>, ns: string): seq<NsData> {
    if fragments == [] then []
    else
      var last := fragments[|fragments| - 1];
      FragmentsOf(fragments[..|fragments| - 1], ns) + (if last.namespace == ns then [last] else [])
  }

  function AllEvents(fragments: seq<NsData>): seq<Node> {
    if fragments == [] then [] else AllEvents(fragments[..|fragments| - 1]) + fragments[|fragments| - 1].events.OrEmpty()
  }

  function AllFunctions(fragments: seq<NsData>): seq<Node> {
    if fragments == [] then [] else AllFunctions(fragments[..|fragments| - 1]) + fragments[|fragments| - 1].functions.OrEmpty()
  }

  function AllTypes(fragments: seq<NsData>): seq<Node> {
    if fragments == [] then [] else AllTypes(fragments[..|fragments| - 1]) + fragments[|fragments| - 1].types.OrEmpty()
  }

  /** Merging fragments into an empty table lists the namespaces in order of first sight. */
  lemma {:induction false} MergedKeys(fragments: seq<NsData>)
    ensures MergedAll(EmptyMap(), fragments).keys == Dedup(NamespaceNames(fragments))
  {
    if fragments != [] {
      var init := fragments[..|fragments| - 1];
      MergedKeys(init);
      assert NamespaceNames(fragments) == NamespaceNames(init) + [fragments[|fragments| - 1].namespace];
      assert NamespaceNames(fragments)[..|fragments| - 1] == NamespaceNames(init);
    }
  }

  /**
   * Merging fragments into an empty table: a namespace has an entry exactly
   * when some fragment names it, and its events, functions and types are those
   * of its fragments concatenated in arrival order (absent lists count as empty).
   */
  lemma {:induction false} MergedEntry(fragments: seq<NsData>, ns: string)
    ensures ns in MergedAll(EmptyMap(), fragments).entries <==> FragmentsOf(fragments, ns) != []
    ensures ns in MergedAll(EmptyMap(), fragments).entries ==>
      var f := FragmentsOf(fragments, ns);
      MergedAll(EmptyMap(), fragments).entries[ns] == Namespace(ns, AllEvents(f), AllFunctions(f), AllTypes(f))
  {
    if fragments != [] {
      var init := fragments[..|fragments| - 1];
      var last := fragments[|fragments| - 1];
      MergedEntry(init, ns);
      var before := MergedAll(EmptyMap(), init);
      var after := MergedAll(EmptyMap(), fragments);
      assert after == Merged(before, last);
      var f := FragmentsOf(init, ns);
      if last.namespace != ns {
        assert FragmentsOf(fragments, ns) == f;
        assert after.entries == before.entries[last.namespace := after.entries[last.namespace]];
      } else {
        var g := f + [last];
        assert FragmentsOf(fragments, ns) == g;
        assert g[..|g| - 1] == f && g[|g| - 1] == last;
        assert AllEvents(g) == AllEvents(f) + last.events.OrEmpty();
        assert AllFunctions(g) == AllFunctions(f) + last.functions.OrEmpty();
        assert AllTypes(g) == AllTypes(f) + last.types.OrEmpty();
        if ns !in before.entries {
          assert f == [];
        }
      }
    }
  }

  /** `defsById` after merging: each fragment's namespace recorded as a namespace definition, in order. */
  function NamespaceDefs(defs: map<string, Def>, fragments: seq<NsData>): map<string, Def> {
    if fragments == [] then defs
    else
      var last := fragments[|fragments| - 1];
      NamespaceDefs(defs, fragments[..|fragments| - 1])[last.namespace := NamespaceRecord(last.namespace)]
  }

  /**
   * Merging records every fragment's namespace as `{type: "namespace", id: ns}`,
   * keeps every other definition and adds nothing else.
   */
  lemma {:induction false} NamespaceDefsContent(defs: map<string, Def>, fragments: seq<NsData>)
    ensures forall k | 0 <= k < |fragments| ::
      fragments[k].namespace in NamespaceDefs(defs, fragments)
      && NamespaceDefs(defs, fragments)[fragments[k].namespace] == NamespaceRecord(fragments[k].namespace)
    ensures forall id | id in defs && id !in NamespaceNames(fragments) ::
      id in NamespaceDefs(defs, fragments) && NamespaceDefs(defs, fragments)[id] == defs[id]
    ensures forall id | id in NamespaceDefs(defs, fragments) :: id in defs || id in NamespaceNames(fragments)
  {
    if fragments != [] {
      var init := fragments[..|fragments| - 1];
      var last := fragments[|fragments| - 1];
      NamespaceDefsContent(defs, init);
      assert NamespaceNames(fragments) == NamespaceNames(init) + [last.namespace];
      assert forall k | 0 <= k < |init| :: init[k] == fragments[k];
    }
  }

  // ---------------------------------------------------------------------------
  // The type pass

  /** `typesById`: the types without a `$extend`, keyed by `id`; a later duplicate replaces the value and keeps the position. */
  function BaseTypes(types: seq<Node>): (m: OrderedMap<Option<string>, Node>)
    ensures m.Valid()
    ensures forall k | k in m.entries :: !Truthy(m.entries[k].extend) && m.entries[k].id == k && m.entries[k] in types
  {
    if types == [] then EmptyMap()
    else
      var prev := BaseTypes(types[..|types| - 1]);
      var t := types[|types| - 1];
      if Truthy(t.extend) then prev else prev.Set(t.id, t)
  }

  /** `extendsByTarget`: the `$extend` items grouped by target, targets in order of first sight. */
  function ExtendsByTarget(types: seq<Node>): (m: OrderedMap<string, seq<Node>>)
    ensures m.Valid()
    ensures forall t | t in m.entries :: m.entries[t] != []
    ensures forall t, x | t in m.entries && x in m.entries[t] :: x in types && x.extend == Some(t)
  {
    if types == [] then EmptyMap()
    else
      var prev := ExtendsByTarget(types[..|types| - 1]);
      var t := types[|types| - 1];
      assert forall x | x in types[..|types| - 1] :: x in types;
      if !Truthy(t.extend) then prev
      else
        var items := if t.extend.value in prev.entries then prev.entries[t.extend.value] else [];
        prev.Set(t.extend.value, items + [t])
  }

  /** The `id`s of the types that are not extensions, in order. */
  function BaseIds(types: seq<Node>): seq<Option<string>> {
    if types == [] then []
    else
      var t := types[|types| - 1];
      BaseIds(types[..|types| - 1]) + (if Truthy(t.extend) then [] else [t.id])
  }

  /** The `$extend` items of `target`, in order. */
  function ExtensionsOf(types: seq<Node>, target: string): seq<Node> {
    if types == [] then []
    else
      var t := types[|types| - 1];
      ExtensionsOf(types[..|types| - 1], target) + (if Truthy(t.extend) && t.extend.value == target then [t] else [])
  }

  /** The base types are keyed by `id` in order of first sight. */
  lemma {:induction false} BaseTypesKeys(types: seq<Node>)
    ensures BaseTypes(types).keys == Dedup(BaseIds(types))
  {
    if types != [] {
      var init := types[..|types| - 1];
      var t := types[|types| - 1];
      BaseTypesKeys(init);
      if !Truthy(t.extend) {
        var prev := BaseTypes(init);
        var ids := BaseIds(init) + [t.id];
        assert BaseIds(types) == ids;
        assert ids[..|ids| - 1] == BaseIds(init);
        assert t.id in prev.keys <==> t.id in prev.entries;
        assert BaseTypes(types) == prev.Set(t.id, t);
        assert BaseTypes(types).keys == if t.id in prev.entries then prev.keys else prev.keys + [t.id];
        assert Dedup(ids) == if t.id in Dedup(BaseIds(init)) then Dedup(BaseIds(init)) else Dedup(BaseIds(init)) + [t.id];
        assert prev.keys == Dedup(BaseIds(init));
        assert Dedup(BaseIds(types)) == Dedup(ids);
      } else {
        assert BaseIds(types) == BaseIds(init);
        assert BaseTypes(types) == BaseTypes(init);
      }
    }
  }

  /** An `id` that only extension items (or no type) carry is not a key of the base types. */
  lemma {:induction false} BaseTypesAbsent(types: seq<Node>, key: Option<string>)
    requires key !in BaseTypes(types).entries
    ensures forall i | 0 <= i < |types| :: Truthy(types[i].extend) || types[i].id != key
  {
    if types != [] {
      var init := types[..|types| - 1];
      var last := types[|types| - 1];
      assert BaseTypes(types).entries ==
        if Truthy(last.extend) then BaseTypes(init).entries else BaseTypes(init).entries[last.id := last];
      assert key !in BaseTypes(init).entries;
      assert Truthy(last.extend) || last.id != key;
      BaseTypesAbsent(init, key);
      forall i | 0 <= i < |types|
        ensures Truthy(types[i].extend) || types[i].id != key
      {
        if i < |init| {
          assert init[i] == types[i];
        }
      }
    }
  }

  /** `types[i]` is the last type without `$extend` whose `id` is `key`. */
  predicate LastBaseWithId(types: seq<Node>, i: nat, key: Option<string>) {
    && i < |types|
    && !Truthy(types[i].extend) && types[i].id == key
    && forall j | i < j < |types| :: Truthy(types[j].extend) || types[j].id != key
  }

  /**
   * A key of the base types is the `id` of a type without `$extend`, and its
   * value is the last such type with that `id`.
   */
  lemma {:induction false} BaseTypesEntry(types: seq<Node>, key: Option<string>)
    requires key in BaseTypes(types).entries
    ensures exists i: nat :: LastBaseWithId(types, i, key) && types[i] == BaseTypes(types).entries[key]
  {
    var init := types[..|types| - 1];
    var t := types[|types| - 1];
    assert types == init + [t];
    if !Truthy(t.extend) && t.id == key {
      assert LastBaseWithId(types, |types| - 1, key);
    } else {
      BaseTypesEntry(init, key);
      var i: nat :| LastBaseWithId(init, i, key) && init[i] == BaseTypes(init).entries[key];
      LastBaseWithIdSnoc(init, t, i, key);
    }
  }

  /** A later type that extends or has another `id` leaves the last base type with `key` in place. */
  lemma LastBaseWithIdSnoc(init: seq<Node>, t: Node, i: nat, key: Option<string>)
    requires LastBaseWithId(init, i, key) && (Truthy(t.extend) || t.id != key)
    ensures LastBaseWithId(init + [t], i, key) && (init + [t])[i] == init[i]
  {
    var types := init + [t];
    forall j | i < j < |types| ensures Truthy(types[j].extend) || types[j].id != key {
      if j < |init| {
        assert types[j] == init[j];
      }
    }
  }

  /** The extension items are grouped by target, each group in order; a target is a key exactly when it has items. */
  lemma {:induction false} ExtendsByTargetEntry(types: seq<Node>, target: string)
    ensures target in ExtendsByTarget(types).entries <==> ExtensionsOf(types, target) != []
    ensures target in ExtendsByTarget(types).entries ==> ExtendsByTarget(types).entries[target] == ExtensionsOf(types, target)
  {
    if types != [] {
      ExtendsByTargetEntry(types[..|types| - 1], target);
    }
  }

  /** The choices the extension items contribute, in order. */
  function ExtensionChoices(items: seq<Node>): seq<Node> {
    if items == [] then []
    else ExtensionChoices(items[..|items| - 1]) + items[|items| - 1].choices.OrEmpty()
  }

  /**
   * Applying the `$extend` items of each target in turn: a target no type
   * declares is an error; a target without `choices` is left as it is;
   * otherwise the items' choices are appended to the target's.
   */
  function ApplyExtensions(typesById: OrderedMap<Option<string>, Node>, targets: seq<string>, extendsByTarget: OrderedMap<string, seq<Node>>): (r: Result<OrderedMap<Option<string>, Node>>)
    requires typesById.Valid()
    requires forall t | t in targets :: t in extendsByTarget.entries
    ensures r.Ok? ==> r.value.Valid() && r.value.keys == typesById.keys
    ensures r.Ok? ==> forall t | t in targets :: Some(t) in typesById.entries
    ensures r.Err? ==> r.error.ExtendedTypeNotFound? && r.error.target in targets && Some(r.error.target) !in typesById.entries
  {
    if targets == [] then Ok(typesById)
    else
      var prev :- ApplyExtensions(typesById, targets[..|targets| - 1], extendsByTarget);
      var target := targets[|targets| - 1];
      if Some(target) !in prev.entries then
        Err(ExtendedTypeNotFound(target))
      else
        var targetType := prev.entries[Some(target)];
        if targetType.choices.Absent? then Ok(prev)
        else
          var extended := targetType.choices.list + ExtensionChoices(extendsByTarget.entries[target]);
          Ok(prev.Set(Some(target), targetType.(choices := Present(extended))))
  }

  /** What becomes of one type under the extensions of `targets`. */
  function Extended(t: Node, key: Option<string>, targets: seq<string>, extendsByTarget: OrderedMap<string, seq<Node>>): Node
    requires forall x | x in targets :: x in extendsByTarget.entries
  {
    if key.Some? && key.value in targets && t.choices.Present? then
      t.(choices := Present(t.choices.list + ExtensionChoices(extendsByTarget.entries[key.value])))
    else t
  }

  /**
   * The extension merge fails exactly when some target is not declared, and
   * then names the first such target. Otherwise every type keeps its
   * position; a targeted type with choices gets the items' choices appended
   * and every other type is unchanged.
   */
  lemma ApplyExtensionsResult(typesById: OrderedMap<Option<string>, Node>, targets: seq<string>, extendsByTarget: OrderedMap<string, seq<Node>>)
    requires typesById.Valid() && Distinct(targets)
    requires forall t | t in targets :: t in extendsByTarget.entries
    ensures ApplyExtensions(typesById, targets, extendsByTarget).Err? <==> exists t | t in targets :: Some(t) !in typesById.entries
    ensures ApplyExtensions(typesById, targets, extendsByTarget).Err? ==>
      exists i | 0 <= i < |targets| ::
        && ApplyExtensions(typesById, targets, extendsByTarget).error == ExtendedTypeNotFound(targets[i])
        && Some(targets[i]) !in typesById.entries
        && forall j | 0 <= j < i :: Some(targets[j]) in typesById.entries
    ensures ApplyExtensions(typesById, targets, extendsByTarget).Ok? ==>
      forall key | key in typesById.entries ::
        ApplyExtensions(typesById, targets, extendsByTarget).value.entries[key]
          == Extended(typesById.entries[key], key, targets, extendsByTarget)
  {
    ApplyExtensionsFails(typesById, targets, extendsByTarget);
    ApplyExtensionsExtends(typesById, targets, extendsByTarget);
    var i := FirstMissing(typesById.entries, targets);
    if i == |targets| {
      forall t | t in targets ensures Some(t) in typesById.entries {
        var j :| 0 <= j < |targets| && targets[j] == t;
      }
    }
  }

  /** The position of the first target no base type declares, or the number of targets when there is none. */
  function FirstMissing(entries: map<Option<string>, Node>, targets: seq<string>): (i: nat)
    ensures i <= |targets|
    ensures forall j | 0 <= j < i :: Some(targets[j]) in entries
    ensures i < |targets| ==> Some(targets[i]) !in entries
  {
    if targets == [] then 0
    else
      var p := FirstMissing(entries, targets[..|targets| - 1]);
      if p < |targets| - 1 then p
      else if Some(targets[|targets| - 1]) !in entries then |targets| - 1
      else |targets|
  }

  /** Applying the extensions fails exactly at the first target no base type declares. */
  lemma {:induction false} ApplyExtensionsFails(typesById: OrderedMap<Option<string>, Node>, targets: seq<string>, extendsByTarget: OrderedMap<string, seq<Node>>)
    requires typesById.Valid()
    requires forall t | t in targets :: t in extendsByTarget.entries
    ensures ApplyExtensions(typesById, targets, extendsByTarget).Err? <==> FirstMissing(typesById.entries, targets) < |targets|
    ensures ApplyExtensions(typesById, targets, extendsByTarget).Err? ==>
      ApplyExtensions(typesById, targets, extendsByTarget).error == ExtendedTypeNotFound(targets[FirstMissing(typesById.entries, targets)])
    decreases |targets|
  {
    if targets != [] {
      var init := targets[..|targets| - 1];
      assert forall t | t in init :: t in targets;
      ApplyExtensionsFails(typesById, init, extendsByTarget);
      assert forall j | 0 <= j < |init| :: init[j] == targets[j];
    }
  }

  /** When no target is missing, each base type ends up extended by its own items. */
  lemma {:induction false} ApplyExtensionsExtends(typesById: OrderedMap<Option<string>, Node>, targets: seq<string>, extendsByTarget: OrderedMap<string, seq<Node>>)
    requires typesById.Valid() && Distinct(targets)
    requires forall t | t in targets :: t in extendsByTarget.entries
    ensures ApplyExtensions(typesById, targets, extendsByTarget).Ok? ==>
      forall key | key in typesById.entries ::
        ApplyExtensions(typesById, targets, extendsByTarget).value.entries[key]
          == Extended(typesById.entries[key], key, targets, extendsByTarget)
    decreases |targets|
  {
    if targets != [] {
      var init := targets[..|targets| - 1];
      var target := targets[|targets| - 1];
      assert targets == init + [target];
      assert forall t | t in init :: t in targets;
      ApplyExtensionsExtends(typesById, init, extendsByTarget);
      var r := ApplyExtensions(typesById, init, extendsByTarget);
      if r.Ok? && Some(target) in r.value.entries {
        var prev := r.value;
        var targetType := prev.entries[Some(target)];
        var next := if targetType.choices.Absent? then prev
          else prev.Set(Some(target), targetType.(choices := Present(targetType.choices.list + ExtensionChoices(extendsByTarget.entries[target]))));
        assert ApplyExtensions(typesById, targets, extendsByTarget) == Ok(next);
        forall key | key in typesById.entries
          ensures next.entries[key] == Extended(typesById.entries[key], key, targets, extendsByTarget)
        {
          ExtendedSnoc(typesById.entries[key], key, init, target, extendsByTarget);
        }
      }
    }
  }

  /** Adding a target not yet listed changes only the type keyed by it. */
  lemma ExtendedSnoc(t: Node, key: Option<string>, init: seq<string>, target: string, extendsByTarget: OrderedMap<string, seq<Node>>)
    requires Distinct(init + [target])
    requires forall x | x in init + [target] :: x in extendsByTarget.entries
    ensures key != Some(target) ==> Extended(t, key, init + [target], extendsByTarget) == Extended(t, key, init, extendsByTarget)
    ensures key == Some(target) ==> Extended(t, key, init, extendsByTarget) == t
    ensures key == Some(target) ==> Extended(t, key, init + [target], extendsByTarget) == ExtendedBy(t, extendsByTarget.entries[target])
  {
    assert forall x | x in init :: x in init + [target];
    forall j | 0 <= j < |init|
      ensures init[j] != target
    {
      assert (init + [target])[j] == init[j];
      assert (init + [target])[|init|] == target;
    }
  }

  /** `{type: "type", id, typeDef, namespace}` */
  function TypeRecord(ns: string, t: Node): Def {
    Def(TypeDef, t.id, Some(ns), Some(t), None, None)
  }

  /** `defsById` after registering the types `ts` of namespace `ns`. */
  function TypeDefs(defs: map<string, Def>, ns: string, ts: seq<Node>): map<string, Def> {
    if ts == [] then defs
    else TypeDefs(defs, ns, ts[..|ts| - 1])[Str(ts[|ts| - 1].id) := TypeRecord(ns, ts[|ts| - 1])]
  }

  /**
   * Registering types: each id is recorded as a type of `ns` holding the
   * last type with that id; every other entry
   * is unchanged and nothing else is added.
   */
  lemma TypeDefsContent(defs: map<string, Def>, ns: string, ts: seq<Node>)
    ensures forall k | 0 <= k < |ts| ::
      && Str(ts[k].id) in TypeDefs(defs, ns, ts)
      && TypeDefs(defs, ns, ts)[Str(ts[k].id)] == TypeRecord(ns, ts[LastWithId(ts, Str(ts[k].id), k)])
    ensures forall id | id in defs && (forall k | 0 <= k < |ts| :: id != Str(ts[k].id)) ::
      id in TypeDefs(defs, ns, ts) && TypeDefs(defs, ns, ts)[id] == defs[id]
    ensures forall id | id in TypeDefs(defs, ns, ts) :: id in defs || exists k | 0 <= k < |ts| :: id == Str(ts[k].id)
  {
    forall k | 0 <= k < |ts| ensures Str(ts[k].id) in TypeDefs(defs, ns, ts) && TypeDefs(defs, ns, ts)[Str(ts[k].id)] == TypeRecord(ns, ts[LastWithId(ts, Str(ts[k].id), k)]) {
      TypeDefsRecorded(defs, ns, ts, k);
    }
    forall id | id in defs && (forall k | 0 <= k < |ts| :: id != Str(ts[k].id)) ensures id in TypeDefs(defs, ns, ts) && TypeDefs(defs, ns, ts)[id] == defs[id] {
      TypeDefsKept(defs, ns, ts, id);
    }
    forall id | id in TypeDefs(defs, ns, ts) ensures id in defs || exists k | 0 <= k < |ts| :: id == Str(ts[k].id) {
      TypeDefsOnly(defs, ns, ts, id);
    }
  }

  /** The index of the last type of `ts` with id `id`, at or after `k`, where `ts[k]` has that id. */
  function LastWithId(ts: seq<Node>, id: string, k: nat): (j: nat)
    requires k < |ts| && Str(ts[k].id) == id
    ensures k <= j < |ts| && Str(ts[j].id) == id
    ensures forall m | j < m < |ts| :: Str(ts[m].id) != id
    decreases |ts| - k
  {
    if Str(ts[|ts| - 1].id) == id then |ts| - 1 else LastWithId(ts[..|ts| - 1], id, k)
  }

  lemma {:induction false} TypeDefsRecorded(defs: map<string, Def>, ns: string, ts: seq<Node>, k: nat)
    requires k < |ts|
    ensures Str(ts[k].id) in TypeDefs(defs, ns, ts)
    ensures TypeDefs(defs, ns, ts)[Str(ts[k].id)] == TypeRecord(ns, ts[LastWithId(ts, Str(ts[k].id), k)])
  {
    var init := ts[..|ts| - 1];
    if Str(ts[|ts| - 1].id) != Str(ts[k].id) {
      assert init[k] == ts[k];
      TypeDefsRecorded(defs, ns, init, k);
      assert LastWithId(ts, Str(ts[k].id), k) == LastWithId(init, Str(ts[k].id), k);
      assert ts[LastWithId(init, Str(ts[k].id), k)] == init[LastWithId(init, Str(ts[k].id), k)];
    }
  }

  lemma {:induction false} TypeDefsKept(defs: map<string, Def>, ns: string, ts: seq<Node>, id: string)
    requires id in defs && forall k | 0 <= k < |ts| :: id != Str(ts[k].id)
    ensures id in TypeDefs(defs, ns, ts) && TypeDefs(defs, ns, ts)[id] == defs[id]
  {
    if ts != [] {
      var init := ts[..|ts| - 1];
      assert forall k | 0 <= k < |init| :: init[k] == ts[k];
      TypeDefsKept(defs, ns, init, id);
      assert id != Str(ts[|ts| - 1].id);
    }
  }

  lemma {:induction false} TypeDefsOnly(defs: map<string, Def>, ns: string, ts: seq<Node>, id: string)
    requires id in TypeDefs(defs, ns, ts)
    ensures id in defs || exists k | 0 <= k < |ts| :: id == Str(ts[k].id)
  {
    if ts != [] && id != Str(ts[|ts| - 1].id) {
      var init := ts[..|ts| - 1];
      TypeDefsOnly(defs, ns, init, id);
      if id !in defs {
        var k :| 0 <= k < |init| && id == Str(init[k].id);
        assert init[k] == ts[k];
      }
    }
  }

  /** The edges `id → ns` of the registered types, in order. */
  function TypeEdges(ns: string, ts: seq<Node>): (es: seq<Edge>)
    ensures |es| == |ts| && forall k | 0 <= k < |ts| :: es[k] == (Str(ts[k].id), ns)
  {
    if ts == [] then [] else TypeEdges(ns, ts[..|ts| - 1]) + [(Str(ts[|ts| - 1].id), ns)]
  }

  /**
   * `processNamespaceTypes(ns)`: the namespace's types become the base types
   * with their extensions applied, each registered as a type definition of
   * `ns` with an edge to `ns`.
   */
  function TypePass(reg: Registry, ns: string): (r: Result<Registry>)
    requires reg.namespaces.Valid() && ns in reg.namespaces.entries
    ensures r.Ok? ==> r.value.namespaces.Valid() && r.value.namespaces.keys == reg.namespaces.keys
    ensures r.Ok? ==> |reg.edges| <= |r.value.edges| && r.value.edges[..|reg.edges|] == reg.edges
    ensures r.Err? ==> r.error.ExtendedTypeNotFound?
  {
    var entry := reg.namespaces.entries[ns];
    var extendsByTarget := ExtendsByTarget(entry.types);
    var extended :- ApplyExtensions(BaseTypes(entry.types), extendsByTarget.keys, extendsByTarget);
    var values := extended.Values();
    Ok(Registry(
      reg.namespaces.Set(ns, entry.(types := values)),
      TypeDefs(reg.defs, ns, values),
      reg.edges + TypeEdges(ns, values)))
  }

  /** A type with the choices of extension `items` appended; a type without `choices` is left as it is. */
  function ExtendedBy(t: Node, items: seq<Node>): Node {
    if t.choices.Present? then t.(choices := Present(t.choices.list + ExtensionChoices(items))) else t
  }

  /** The extension items aimed at the base type keyed `key`. */
  function ItemsFor(types: seq<Node>, key: Option<string>): seq<Node> {
    if key.Some? then ExtensionsOf(types, key.value) else []
  }

  /** Under the extensions collected from `types`, a base type becomes `ExtendedBy` its own items. */
  lemma ExtendedIsExtendedBy(types: seq<Node>, t: Node, key: Option<string>)
    ensures Extended(t, key, ExtendsByTarget(types).keys, ExtendsByTarget(types)) == ExtendedBy(t, ItemsFor(types, key))
  {
    var e := ExtendsByTarget(types);
    if key.Some? {
      ExtendsByTargetEntry(types, key.value);
      if key.value !in e.keys && t.choices.Present? {
        assert ExtensionChoices([]) == [];
        assert t.choices.list + [] == t.choices.list;
        assert t.(choices := Present(t.choices.list)) == t;
      }
    } else if t.choices.Present? {
      assert t.(choices := Present(t.choices.list + [])) == t;
    }
  }

  /**
   * The type pass of one namespace fails exactly when some `$extend` target
   * is not the `id` of a base type. Otherwise the namespace's types become
   * its base types in order of first `id`, each extended by the choices of
   * the items aimed at it; every other namespace is untouched; and each
   * resulting type is registered (see `TypeDefs`) with an edge to `ns`.
   */
  lemma TypePassResult(reg: Registry, ns: string)
    requires reg.namespaces.Valid() && ns in reg.namespaces.entries
    ensures var types := reg.namespaces.entries[ns].types;
      TypePass(reg, ns).Err? <==>
        exists target | target in ExtendsByTarget(types).keys :: Some(target) !in BaseTypes(types).entries
    ensures TypePass(reg, ns).Ok? ==>
      var types := reg.namespaces.entries[ns].types;
      var base := BaseTypes(types);
      var out := TypePass(reg, ns).value;
      var result := out.namespaces.entries[ns].types;
      && out.namespaces.keys == reg.namespaces.keys
      && (forall other | other in reg.namespaces.entries && other != ns ::
            other in out.namespaces.entries && out.namespaces.entries[other] == reg.namespaces.entries[other])
      && |result| == |base.keys|
      && (forall k | 0 <= k < |base.keys| :: result[k] == ExtendedBy(base.entries[base.keys[k]], ItemsFor(types, base.keys[k])))
      && out.defs == TypeDefs(reg.defs, ns, result)
      && out.edges == reg.edges + TypeEdges(ns, result)
  {
    TypePassFails(reg, ns);
    if TypePass(reg, ns).Ok? {
      TypePassValues(reg, ns);
      TypePassRegisters(reg, ns);
    }
  }

  /** The failing case of `TypePassResult`: a target that is not a base type's `id`. */
  lemma TypePassFails(reg: Registry, ns: string)
    requires reg.namespaces.Valid() && ns in reg.namespaces.entries
    ensures var types := reg.namespaces.entries[ns].types;
      TypePass(reg, ns).Err? <==>
        exists target | target in ExtendsByTarget(types).keys :: Some(target) !in BaseTypes(types).entries
  {
    var types := reg.namespaces.entries[ns].types;
    var e := ExtendsByTarget(types);
    ApplyExtensionsResult(BaseTypes(types), e.keys, e);
  }

  /** The new types of a successful type pass: the base types, each extended by its own items. */
  lemma TypePassValues(reg: Registry, ns: string)
    requires reg.namespaces.Valid() && ns in reg.namespaces.entries && TypePass(reg, ns).Ok?
    ensures
      var types := reg.namespaces.entries[ns].types;
      var base := BaseTypes(types);
      var result := TypePass(reg, ns).value.namespaces.entries[ns].types;
      && |result| == |base.keys|
      && (forall k | 0 <= k < |base.keys| :: result[k] == ExtendedBy(base.entries[base.keys[k]], ItemsFor(types, base.keys[k])))
  {
    var types := reg.namespaces.entries[ns].types;
    var base := BaseTypes(types);
    var e := ExtendsByTarget(types);
    ApplyExtensionsResult(base, e.keys, e);
    var applied := ApplyExtensions(base, e.keys, e);
    var values := applied.value.Values();
    assert TypePass(reg, ns).value.namespaces.entries[ns].types == values;
    forall k | 0 <= k < |base.keys|
      ensures values[k] == ExtendedBy(base.entries[base.keys[k]], ItemsFor(types, base.keys[k]))
    {
      ExtendedIsExtendedBy(types, base.entries[base.keys[k]], base.keys[k]);
    }
  }

  /** A successful type pass touches no other namespace and registers the new types of `ns`. */
  lemma TypePassRegisters(reg: Registry, ns: string)
    requires reg.namespaces.Valid() && ns in reg.namespaces.entries && TypePass(reg, ns).Ok?
    ensures
      var out := TypePass(reg, ns).value;
      var result := out.namespaces.entries[ns].types;
      && out.namespaces.keys == reg.namespaces.keys
      && (forall other | other in reg.namespaces.entries && other != ns ::
            other in out.namespaces.entries && out.namespaces.entries[other] == reg.namespaces.entries[other])
      && out.defs == TypeDefs(reg.defs, ns, result)
      && out.edges == reg.edges + TypeEdges(ns, result)
  {
  }

  // ---------------------------------------------------------------------------
  // The function and event pass

  /** `<ns>$<name>` */
  function MemberId(ns: string, member: Node): string {
    ns + "$" + Str(member.name)
  }

  /** `processParameters`: an edge from each truthy `$ref` target's last segment to `id`. */
  function ParameterEdges(ps: seq<Node>, id: string): (es: seq<Edge>)
    ensures forall e | e in es :: e.1 == id && '.' !in e.0
    ensures forall k | 0 <= k < |ps| && Truthy(ps[k].ref) :: (LastSegment(ps[k].ref.value), id) in es
  {
    if ps == [] then []
    else
      var p := ps[|ps| - 1];
      var init := ParameterEdges(ps[..|ps| - 1], id);
      assert forall k | 0 <= k < |ps| - 1 :: ps[..|ps| - 1][k] == ps[k];
      init + (if Truthy(p.ref) then [(LastSegment(p.ref.value), id)] else [])
  }

  /** Every parameter edge comes from the last segment of some parameter's truthy `$ref`. */
  lemma {:induction false} ParameterEdgesSound(ps: seq<Node>, id: string)
    ensures forall e | e in ParameterEdges(ps, id) :: exists k | 0 <= k < |ps| && Truthy(ps[k].ref) :: e.0 == LastSegment(ps[k].ref.value)
  {
    if ps != [] {
      var init := ps[..|ps| - 1];
      ParameterEdgesSound(init, id);
      forall e | e in ParameterEdges(ps, id)
        ensures exists k | 0 <= k < |ps| && Truthy(ps[k].ref) :: e.0 == LastSegment(ps[k].ref.value)
      {
        if e in ParameterEdges(init, id) {
          var k :| 0 <= k < |init| && Truthy(init[k].ref) && e.0 == LastSegment(init[k].ref.value);
          assert init[k] == ps[k];
        } else {
          assert e.0 == LastSegment(ps[|ps| - 1].ref.value);
        }
      }
    }
  }

  /** `processReturns`: an edge from the last segment of `returns.$ref` to `id`, when that is not empty. */
  function ReturnsEdges(member: Node, id: string): (es: seq<Edge>)
    ensures forall e | e in es :: e.1 == id && e.0 != "" && '.' !in e.0
    ensures es == [] || (member.returnType.Some? && es == [(LastSegment(member.returnType.value.ref.GetOr("")), id)])
  {
    var retRef := if member.returnType.Some? then LastSegment(member.returnType.value.ref.GetOr("")) else "";
    if retRef != "" then [(retRef, id)] else []
  }

  /** Which member list a pass registers. */
  datatype MemberKind = Functions | Events {
    /** The kind tag of the definitions the pass records. */
    function Kind(): DefKind {
      if Functions? then FunctionDef else EventDef
    }
  }

  /** A member with its `id` assigned. */
  function WithId(ns: string, member: Node): Node {
    member.(id := Some(MemberId(ns, member)))
  }

  /** `{type: "function", namespace, id, funcDef}` or `{type: "event", namespace, id, eventDef}` */
  function MemberRecord(ns: string, member: Node, kind: MemberKind): Def {
    var withId := WithId(ns, member);
    Def(kind.Kind(), Some(MemberId(ns, member)), Some(ns), None,
      if kind.Functions? then Some(withId) else None,
      if kind.Events? then Some(withId) else None)
  }

  /**
   * The edges one member adds, in the order they are added: to its namespace,
   * from its parameters' references, from its return's reference and, for an
   * event, from its extra parameters' references.
   */
  function MemberEdges(ns: string, member: Node, kind: MemberKind): seq<Edge> {
    var id := MemberId(ns, member);
    [(id, ns)] + ParameterEdges(member.parameters.OrEmpty(), id) + ReturnsEdges(member, id)
      + (if kind.Events? then ParameterEdges(member.extraParameters.OrEmpty(), id) else [])
  }

  /**
   * What one member depends on: it comes before its namespace, and after
   * every type its parameters, its return and (for an event) its extra
   * parameters refer to; no other edge is added, and no source of an edge
   * contains a dot.
   */
  lemma MemberEdgesContent(ns: string, member: Node, kind: MemberKind)
    ensures (MemberId(ns, member), ns) in MemberEdges(ns, member, kind)
    ensures forall p | p in member.parameters.OrEmpty() && Truthy(p.ref) ::
      (LastSegment(p.ref.value), MemberId(ns, member)) in MemberEdges(ns, member, kind)
    ensures kind.Events? ==> forall p | p in member.extraParameters.OrEmpty() && Truthy(p.ref) ::
      (LastSegment(p.ref.value), MemberId(ns, member)) in MemberEdges(ns, member, kind)
    ensures member.returnType.Some? && LastSegment(member.returnType.value.ref.GetOr("")) != "" ==>
      (LastSegment(member.returnType.value.ref.GetOr("")), MemberId(ns, member)) in MemberEdges(ns, member, kind)
    ensures forall e | e in MemberEdges(ns, member, kind) ::
      e == (MemberId(ns, member), ns) || (e.1 == MemberId(ns, member) && '.' !in e.0 &&
        ((exists p | p in member.parameters.OrEmpty() && Truthy(p.ref) :: e.0 == LastSegment(p.ref.value)) ||
         (member.returnType.Some? && e.0 == LastSegment(member.returnType.value.ref.GetOr(""))) ||
         (kind.Events? && exists p | p in member.extraParameters.OrEmpty() && Truthy(p.ref) :: e.0 == LastSegment(p.ref.value))))
  {
    var id := MemberId(ns, member);
    var es := MemberEdges(ns, member, kind);
    var params := ParameterEdges(member.parameters.OrEmpty(), id);
    var extra := if kind.Events? then ParameterEdges(member.extraParameters.OrEmpty(), id) else [];
    assert es == [(id, ns)] + params + ReturnsEdges(member, id) + extra;
    ParameterEdgesSound(member.parameters.OrEmpty(), id);
    ParameterEdgesSound(member.extraParameters.OrEmpty(), id);
    forall p | p in member.parameters.OrEmpty() && Truthy(p.ref) ensures (LastSegment(p.ref.value), id) in es {
      var ps := member.parameters.OrEmpty();
      var i :| 0 <= i < |ps| && ps[i] == p;
      assert (LastSegment(ps[i].ref.value), id) in params;
    }
    if kind.Events? {
      forall p | p in member.extraParameters.OrEmpty() && Truthy(p.ref) ensures (LastSegment(p.ref.value), id) in es {
        var ps := member.extraParameters.OrEmpty();
        var i :| 0 <= i < |ps| && ps[i] == p;
        assert (LastSegment(ps[i].ref.value), id) in extra;
      }
    }
  }

  function WithIds(ns: string, members: seq<Node>): (r: seq<Node>)
    ensures |r| == |members| && forall k | 0 <= k < |members| :: r[k] == WithId(ns, members[k])
  {
    if members == [] then [] else WithIds(ns, members[..|members| - 1]) + [WithId(ns, members[|members| - 1])]
  }

  /** `defsById` after registering `members`, in order. */
  function MemberDefs(defs: map<string, Def>, ns: string, members: seq<Node>, kind: MemberKind): map<string, Def> {
    if members == [] then defs
    else MemberDefs(defs, ns, members[..|members| - 1], kind)[MemberId(ns, members[|members| - 1]) := MemberRecord(ns, members[|members| - 1], kind)]
  }

  /**
   * Registering members: each is recorded under `<ns>$<name>` as a member of
   * `ns` of the pass's kind, holding the last member with that id; every other
   * entry is unchanged and nothing else is added.
   */
  lemma MemberDefsContent(defs: map<string, Def>, ns: string, members: seq<Node>, kind: MemberKind)
    ensures forall k | 0 <= k < |members| ::
      && MemberId(ns, members[k]) in MemberDefs(defs, ns, members, kind)
      && MemberDefs(defs, ns, members, kind)[MemberId(ns, members[k])] == MemberRecord(ns, members[LastMemberWithId(ns, members, k)], kind)
    ensures forall id | id in defs && (forall k | 0 <= k < |members| :: id != MemberId(ns, members[k])) ::
      id in MemberDefs(defs, ns, members, kind) && MemberDefs(defs, ns, members, kind)[id] == defs[id]
    ensures forall id | id in MemberDefs(defs, ns, members, kind) ::
      id in defs || exists k | 0 <= k < |members| :: id == MemberId(ns, members[k])
  {
    forall k | 0 <= k < |members|
      ensures MemberId(ns, members[k]) in MemberDefs(defs, ns, members, kind)
      ensures MemberDefs(defs, ns, members, kind)[MemberId(ns, members[k])] == MemberRecord(ns, members[LastMemberWithId(ns, members, k)], kind)
    {
      MemberDefsRecorded(defs, ns, members, kind, k);
    }
    forall id | id in defs && (forall k | 0 <= k < |members| :: id != MemberId(ns, members[k]))
      ensures id in MemberDefs(defs, ns, members, kind) && MemberDefs(defs, ns, members, kind)[id] == defs[id]
    {
      MemberDefsKept(defs, ns, members, kind, id);
    }
    forall id | id in MemberDefs(defs, ns, members, kind)
      ensures id in defs || exists k | 0 <= k < |members| :: id == MemberId(ns, members[k])
    {
      MemberDefsOnly(defs, ns, members, kind, id);
    }
  }

  /** The index of the last member with the id of `members[k]`. */
  function LastMemberWithId(ns: string, members: seq<Node>, k: nat): (j: nat)
    requires k < |members|
    ensures k <= j < |members| && MemberId(ns, members[j]) == MemberId(ns, members[k])
    ensures forall m | j < m < |members| :: MemberId(ns, members[m]) != MemberId(ns, members[k])
    decreases |members| - k
  {
    if MemberId(ns, members[|members| - 1]) == MemberId(ns, members[k]) then |members| - 1
    else LastMemberWithId(ns, members[..|members| - 1], k)
  }

  lemma {:induction false} MemberDefsRecorded(defs: map<string, Def>, ns: string, members: seq<Node>, kind: MemberKind, k: nat)
    requires k < |members|
    ensures MemberId(ns, members[k]) in MemberDefs(defs, ns, members, kind)
    ensures MemberDefs(defs, ns, members, kind)[MemberId(ns, members[k])] == MemberRecord(ns, members[LastMemberWithId(ns, members, k)], kind)
  {
    var init := members[..|members| - 1];
    if MemberId(ns, members[|members| - 1]) != MemberId(ns, members[k]) {
      assert init[k] == members[k];
      MemberDefsRecorded(defs, ns, init, kind, k);
      var j := LastMemberWithId(ns, init, k);
      assert LastMemberWithId(ns, members, k) == j;
      assert members[j] == init[j];
    }
  }

  lemma {:induction false} MemberDefsKept(defs: map<string, Def>, ns: string, members: seq<Node>, kind: MemberKind, id: string)
    requires id in defs && forall k | 0 <= k < |members| :: id != MemberId(ns, members[k])
    ensures id in MemberDefs(defs, ns, members, kind) && MemberDefs(defs, ns, members, kind)[id] == defs[id]
  {
    if members != [] {
      var init := members[..|members| - 1];
      assert forall k | 0 <= k < |init| :: init[k] == members[k];
      MemberDefsKept(defs, ns, init, kind, id);
      assert id != MemberId(ns, members[|members| - 1]);
    }
  }

  lemma {:induction false} MemberDefsOnly(defs: map<string, Def>, ns: string, members: seq<Node>, kind: MemberKind, id: string)
    requires id in MemberDefs(defs, ns, members, kind)
    ensures id in defs || exists k | 0 <= k < |members| :: id == MemberId(ns, members[k])
  {
    if members != [] && id != MemberId(ns, members[|members| - 1]) {
      var init := members[..|members| - 1];
      MemberDefsOnly(defs, ns, init, kind, id);
      if id !in defs {
        var k :| 0 <= k < |init| && id == MemberId(ns, init[k]);
        assert init[k] == members[k];
      }
    }
  }

  /** The edges all `members` add, member by member. */
  function AllMemberEdges(ns: string, members: seq<Node>, kind: MemberKind): seq<Edge> {
    if members == [] then []
    else AllMemberEdges(ns, members[..|members| - 1], kind) + MemberEdges(ns, members[|members| - 1], kind)
  }

  /** Every edge of every member is added by the pass. */
  lemma {:induction false} AllMemberEdgesComplete(ns: string, members: seq<Node>, kind: MemberKind, k: nat, e: Edge)
    requires k < |members| && e in MemberEdges(ns, members[k], kind)
    ensures e in AllMemberEdges(ns, members, kind)
  {
    var init := members[..|members| - 1];
    var last := MemberEdges(ns, members[|members| - 1], kind);
    assert AllMemberEdges(ns, members, kind) == AllMemberEdges(ns, init, kind) + last;
    if k < |init| {
      assert members[k] == init[k];
      assert e in MemberEdges(ns, init[k], kind);
      AllMemberEdgesComplete(ns, init, kind, k, e);
      assert e in AllMemberEdges(ns, init, kind);
    } else {
      assert k == |members| - 1;
      assert e in last;
    }
  }

  /** The pass adds no edge but those of its members. */
  lemma {:induction false} AllMemberEdgesSound(ns: string, members: seq<Node>, kind: MemberKind, e: Edge)
    requires e in AllMemberEdges(ns, members, kind)
    ensures exists k | 0 <= k < |members| :: e in MemberEdges(ns, members[k], kind)
  {
    var init := members[..|members| - 1];
    var last := MemberEdges(ns, members[|members| - 1], kind);
    assert AllMemberEdges(ns, members, kind) == AllMemberEdges(ns, init, kind) + last;
    if e in AllMemberEdges(ns, init, kind) {
      AllMemberEdgesSound(ns, init, kind, e);
      var k :| 0 <= k < |init| && e in MemberEdges(ns, init[k], kind);
      assert members[k] == init[k];
    } else {
      assert e in last;
    }
  }

  /** The list a pass of `kind` registers. */
  function Members(entry: Namespace, kind: MemberKind): seq<Node> {
    if kind.Functions? then entry.functions else entry.events
  }

  /** `processNamespaceFunctions(ns)` or `processNamespaceEvents(ns)`. */
  function MemberPass(reg: Registry, ns: string, kind: MemberKind): (r: Registry)
    requires reg.namespaces.Valid() && ns in reg.namespaces.entries
    ensures r.namespaces.Valid() && r.namespaces.keys == reg.namespaces.keys
  {
    var entry := reg.namespaces.entries[ns];
    var members := Members(entry, kind);
    var updated :=
      if kind.Functions? then entry.(functions := WithIds(ns, members))
      else entry.(events := WithIds(ns, members));
    Registry(
      reg.namespaces.Set(ns, updated),
      MemberDefs(reg.defs, ns, members, kind),
      reg.edges + AllMemberEdges(ns, members, kind))
  }

  // ---------------------------------------------------------------------------
  // All namespaces

  /** The type pass over the namespaces `names`, in order. */
  function TypePasses(reg: Registry, names: seq<string>): (r: Result<Registry>)
    requires reg.namespaces.Valid() && forall n | n in names :: n in reg.namespaces.entries
    ensures r.Ok? ==> r.value.namespaces.Valid() && r.value.namespaces.keys == reg.namespaces.keys
  {
    if names == [] then Ok(reg)
    else
      var prev :- TypePasses(reg, names[..|names| - 1]);
      TypePass(prev, names[|names| - 1])
  }

  /** The function and event passes over the namespaces `names`, in order: each namespace's functions, then its events. */
  function MemberPasses(reg: Registry, names: seq<string>): (r: Registry)
    requires reg.namespaces.Valid() && forall n | n in names :: n in reg.namespaces.entries
    ensures r.namespaces.Valid() && r.namespaces.keys == reg.namespaces.keys
  {
    if names == [] then reg
    else
      var prev := MemberPasses(reg, names[..|names| - 1]);
      MemberPass(MemberPass(prev, names[|names| - 1], Functions), names[|names| - 1], Events)
  }

  /** `processNamespaces()`: the type pass of every namespace before any function or event pass. */
  function ProcessAll(reg: Registry): Result<Registry>
    requires reg.namespaces.Valid()
  {
    var typed :- TypePasses(reg, reg.namespaces.keys);
    Ok(MemberPasses(typed, typed.namespaces.keys))
  }

  /** The type passes leave every namespace's functions and events as they are. */
  lemma {:induction false} TypePassesKeepMembers(reg: Registry, names: seq<string>, n: string, kind: MemberKind)
    requires reg.namespaces.Valid() && forall x | x in names :: x in reg.namespaces.entries
    requires n in reg.namespaces.entries && TypePasses(reg, names).Ok?
    ensures n in TypePasses(reg, names).value.namespaces.entries
    ensures Members(TypePasses(reg, names).value.namespaces.entries[n], kind) == Members(reg.namespaces.entries[n], kind)
  {
    if names != [] {
      TypePassesKeepMembers(reg, names[..|names| - 1], n, kind);
    }
  }

  /** The member passes of other namespaces leave a namespace's entry as it is. */
  lemma {:induction false} MemberPassesUntouched(reg: Registry, names: seq<string>, n: string)
    requires reg.namespaces.Valid() && forall x | x in names :: x in reg.namespaces.entries
    requires n in reg.namespaces.entries && n !in names
    ensures n in MemberPasses(reg, names).namespaces.entries
    ensures MemberPasses(reg, names).namespaces.entries[n] == reg.namespaces.entries[n]
  {
    if names != [] {
      MemberPassesUntouched(reg, names[..|names| - 1], n);
    }
  }

  /** Edges are only ever added: the member passes keep every edge present before them. */
  lemma {:induction false} MemberPassesKeepEdges(reg: Registry, names: seq<string>, e: Edge)
    requires reg.namespaces.Valid() && forall x | x in names :: x in reg.namespaces.entries
    requires e in reg.edges
    ensures e in MemberPasses(reg, names).edges
  {
    if names != [] {
      MemberPassesKeepEdges(reg, names[..|names| - 1], e);
    }
  }

  /** One pass keeps the edges present before it and adds those of its members. */
  lemma MemberPassEdges(reg: Registry, ns: string, kind: MemberKind, e: Edge)
    requires reg.namespaces.Valid() && ns in reg.namespaces.entries
    requires e in reg.edges || e in AllMemberEdges(ns, Members(reg.namespaces.entries[ns], kind), kind)
    ensures e in MemberPass(reg, ns, kind).edges
  {
  }

  /** The passes of a namespace not seen before add the edges of its functions and events. */
  lemma NewNamespaceRegister(reg: Registry, names: seq<string>, kind: MemberKind, e: Edge)
    requires names != [] && reg.namespaces.Valid() && (forall x | x in names :: x in reg.namespaces.entries)
    requires names[|names| - 1] !in names[..|names| - 1]
    requires e in AllMemberEdges(names[|names| - 1], Members(reg.namespaces.entries[names[|names| - 1]], kind), kind)
    ensures e in MemberPasses(reg, names).edges
  {
    var n := names[|names| - 1];
    var prev := MemberPasses(reg, names[..|names| - 1]);
    MemberPassesUntouched(reg, names[..|names| - 1], n);
    var mid := MemberPass(prev, n, Functions);
    assert Members(mid.namespaces.entries[n], Events) == Members(prev.namespaces.entries[n], Events);
    if kind.Functions? {
      MemberPassEdges(prev, n, Functions, e);
    }
    MemberPassEdges(mid, n, Events, e);
  }

  /** The passes of one more namespace keep every edge present before them. */
  lemma NamespacePassesKeepEdges(reg: Registry, names: seq<string>, e: Edge)
    requires names != [] && reg.namespaces.Valid() && (forall x | x in names :: x in reg.namespaces.entries)
    requires e in MemberPasses(reg, names[..|names| - 1]).edges
    ensures e in MemberPasses(reg, names).edges
  {
    var prev := MemberPasses(reg, names[..|names| - 1]);
    var n := names[|names| - 1];
    MemberPassEdges(prev, n, Functions, e);
    MemberPassEdges(MemberPass(prev, n, Functions), n, Events, e);
  }

  /** The member passes over distinct namespaces add the edges of all functions and events of them. */
  lemma {:induction false} MemberPassesRegister(reg: Registry, names: seq<string>, i: nat, kind: MemberKind, e: Edge)
    requires reg.namespaces.Valid() && (forall x | x in names :: x in reg.namespaces.entries) && Distinct(names)
    requires i < |names|
    requires e in AllMemberEdges(names[i], Members(reg.namespaces.entries[names[i]], kind), kind)
    ensures e in MemberPasses(reg, names).edges
  {
    DistinctInit(names);
    if i < |names| - 1 {
      var init := names[..|names| - 1];
      assert init[i] == names[i];
      MemberPassesRegister(reg, init, i, kind, e);
      NamespacePassesKeepEdges(reg, names, e);
    } else {
      NewNamespaceRegister(reg, names, kind, e);
    }
  }

  /**
   * After `processNamespaces()`, every edge of every function and event of
   * the merged table is in the dependency graph: in particular each member
   * comes before its namespace and after every type it refers to.
   */
  lemma ProcessAllRegistersMembers(reg: Registry, ns: string, kind: MemberKind, k: nat, e: Edge)
    requires reg.namespaces.Valid() && ProcessAll(reg).Ok?
    requires ns in reg.namespaces.entries && k < |Members(reg.namespaces.entries[ns], kind)|
    requires e in MemberEdges(ns, Members(reg.namespaces.entries[ns], kind)[k], kind)
    ensures e in ProcessAll(reg).value.edges
  {
    var typed := TypePasses(reg, reg.namespaces.keys).value;
    TypePassesKeepMembers(reg, reg.namespaces.keys, ns, kind);
    var i :| 0 <= i < |typed.namespaces.keys| && typed.namespaces.keys[i] == ns;
    AllMemberEdgesComplete(ns, Members(reg.namespaces.entries[ns], kind), kind, k, e);
    MemberPassesRegister(typed, typed.namespaces.keys, i, kind, e);
  }

  /**
   * In any order that respects the graph built by `processNamespaces()`, a
   * function or event comes after each type its signature refers to and
   * before its namespace.
   */
  lemma DependenciesFirst(reg: Registry, ns: string, kind: MemberKind, k: nat, order: seq<string>)
    requires reg.namespaces.Valid() && ProcessAll(reg).Ok?
    requires ns in reg.namespaces.entries && k < |Members(reg.namespaces.entries[ns], kind)|
    requires IsTopologicalOrder(order, ProcessAll(reg).value.edges)
    ensures forall e | e in MemberEdges(ns, Members(reg.namespaces.entries[ns], kind)[k], kind) ::
      exists i, j | 0 <= i < j < |order| :: order[i] == e.0 && order[j] == e.1
  {
    var edges := ProcessAll(reg).value.edges;
    forall e | e in MemberEdges(ns, Members(reg.namespaces.entries[ns], kind)[k], kind)
      ensures exists i, j | 0 <= i < j < |order| :: order[i] == e.0 && order[j] == e.1
    {
      ProcessAllRegistersMembers(reg, ns, kind, k, e);
      assert e.1 in order;
      var j :| 0 <= j < |order| && order[j] == e.1;
      EdgeForward(order, edges, e, j);
    }
  }
}
