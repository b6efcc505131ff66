/**
 * What the type conversion engine promises: the precedence of its dispatch,
 * exactly which descriptions convert without error, and the shape of the text
 * produced for objects, functions and async functions.
 */
module FlowTypesProperties {
  import opened Schema
  import opened FlowTypesGenerator

  /** The text of a successful conversion (empty for a failed one). */
  function Text(r: Result<string>): string {
    if r.Ok? then r.value else ""
  }

  // ---------------------------------------------------------------------------
  // Dispatch precedence

  /** A primitive `type` tag wins: `$ref`, `choices` and the context do not matter. */
  lemma PrimitiveTagWins(n: Node, params: Params, ref: Option<string>, choices: Nodes)
    requires IsPrimitiveType(n)
    ensures ConvertType(n.(ref := ref, choices := choices), params) == ConvertType(n, TopLevel(map[]))
    ensures ConvertType(n, params) == Ok(if n.typeTag.value == "integer" then "number" else n.typeTag.value)
  {
  }

  /** Without a primitive tag, a `$ref` wins over every composed field. */
  lemma ReferenceWinsOverComposed(n: Node, params: Params, tag: Option<string>, choices: Nodes, items: Option<Node>, properties: Props, parameters: Nodes)
    requires !IsPrimitiveType(n) && IsReferenceType(n)
    requires tag.None? || tag.value !in PrimitiveTypes
    ensures ConvertType(n.(typeTag := tag, choices := choices, items := items, properties := properties, parameters := parameters), params)
         == ConvertType(n, params)
         == ConvertReferenceType(n, params)
  {
  }

  /** A union that has neither a primitive tag nor a `$ref` converts to `any`, whatever its choices. */
  lemma ChoicesDegenerateToAny(n: Node, params: Params)
    requires !IsPrimitiveType(n) && !IsReferenceType(n) && n.choices.Present?
    ensures ConvertType(n, params) == Ok("any")
  {
  }

  /** A description that is none of primitive, reference or composed is an error. */
  lemma UnconvertibleDescription(n: Node, params: Params)
    requires !IsPrimitiveType(n) && !IsReferenceType(n) && !IsComposedType(n)
    ensures ConvertType(n, params) == Err(UnableToConvertType)
  {
  }

  /** The `{type: "void"}` stand-in for a missing `returns` converts to `void`. */
  lemma MissingReturnIsVoid(params: Params)
    ensures ConvertType(VoidType, params) == Ok("void")
  {
  }

  // ---------------------------------------------------------------------------
  // Which descriptions convert

  /**
   * A description converts exactly when every part the converter visits is
   * convertible: a reference names a known definition that has an id, an
   * array has items, every supported property converts, every parameter has a
   * name and converts, the return converts, and, when the async rewrite
   * applies, every argument of the completion callback converts.
   */
  ghost predicate Convertible(n: Node, defs: map<string, Def>, disabledAsync: bool)
    decreases n, 1
  {
    if IsPrimitiveType(n) then true
    else if IsReferenceType(n) then LastSegment(n.ref.value) in defs && defs[LastSegment(n.ref.value)].id.Some?
    else IsComposedType(n) && ComposedConvertible(n, defs, disabledAsync)
  }

  ghost predicate ComposedConvertible(n: Node, defs: map<string, Def>, disabledAsync: bool)
    decreases n, 0
  {
    if n.choices.Present? then true
    else if n.typeTag == Some("array") then
      n.items.Some? && Convertible(n.items.value, defs, disabledAsync)
    else if n.typeTag == Some("object") then
      n.properties.Props? ==>
        forall k :: 0 <= k < |n.properties.entries| && !n.properties.entries[k].schema.unsupported ==>
          Convertible(n.properties.entries[k].schema, defs, disabledAsync)
    else if n.typeTag == Some("function") then
      && (n.parameters.Present? ==>
            forall k :: 0 <= k < |n.parameters.list| ==>
              Truthy(n.parameters.list[k].name) && Convertible(n.parameters.list[k], defs, disabledAsync))
      && (n.returnType.Some? ==> Convertible(n.returnType.value, defs, disabledAsync))
      && (n.parameters.Present? && !disabledAsync ==>
            var j := LastAsyncCallback(n.parameters.list, n.async);
            j.Some? && n.parameters.list[j.value].parameters.Present? ==>
              forall m :: 0 <= m < |n.parameters.list[j.value].parameters.list| ==>
                Convertible(n.parameters.list[j.value].parameters.list[m], defs, disabledAsync))
    else false
  }

  /** Conversion fails exactly on the descriptions that are not convertible. */
  lemma {:induction false} ConvertTypeOkIff(n: Node, params: Params)
    ensures ConvertType(n, params).Ok? <==> Convertible(n, params.defs, params.disabledAsync)
    decreases n, 4, 0
  {
    if !IsPrimitiveType(n) && !IsReferenceType(n) && IsComposedType(n) {
      ComposedOkIff(n, params.(forcedIndentLevel := Some(params.forcedIndentLevel.GetOr(0) + 1)));
    }
  }

  lemma {:induction false} ComposedOkIff(n: Node, params: Params)
    ensures ConvertComposedType(n, params).Ok? <==> ComposedConvertible(n, params.defs, params.disabledAsync)
    decreases n, 3, 0
  {
    if n.choices.Present? {
    } else if n.typeTag == Some("array") {
      if n.items.Some? {
        ConvertTypeOkIff(n.items.value, params);
      }
    } else if n.typeTag == Some("object") {
      if n.properties.Props? {
        RenderPropertiesOkIff(n, 0, params.forcedIndentLevel.GetOr(0), params.(inFunction := true));
      }
    } else if n.typeTag == Some("function") {
      FunctionOkIff(n, params);
    }
  }

  lemma {:induction false} RenderPropertiesOkIff(n: Node, i: nat, level: nat, params: Params)
    requires n.properties.Props? && i <= |n.properties.entries|
    ensures RenderProperties(n, i, level, params).Ok? <==>
      forall k :: i <= k < |n.properties.entries| && !n.properties.entries[k].schema.unsupported ==>
        Convertible(n.properties.entries[k].schema, params.defs, params.disabledAsync)
    decreases n, 0, |n.properties.entries| - i
  {
    if i < |n.properties.entries| {
      RenderPropertiesOkIff(n, i + 1, level, params);
      ConvertTypeOkIff(n.properties.entries[i].schema, params);
    }
  }

  lemma {:induction false} RenderParametersOkIff(n: Node, i: nat, params: Params)
    requires n.parameters.Present? && i <= |n.parameters.list|
    ensures RenderParameters(n, i, params).Ok? <==>
      forall k :: i <= k < |n.parameters.list| ==>
        Truthy(n.parameters.list[k].name) && Convertible(n.parameters.list[k], params.defs, params.disabledAsync)
    decreases n, 0, |n.parameters.list| - i
  {
    if i < |n.parameters.list| {
      RenderParametersOkIff(n, i + 1, params);
      ConvertTypeOkIff(n.parameters.list[i], params);
    }
  }

  lemma {:induction false} CallbackArgsOkIff(n: Node, j: nat, k: nat, params: Params)
    requires n.parameters.Present? && j < |n.parameters.list|
    requires n.parameters.list[j].parameters.Present? && k <= |n.parameters.list[j].parameters.list|
    ensures ConvertCallbackArgs(n, j, k, params).Ok? <==>
      forall m :: k <= m < |n.parameters.list[j].parameters.list| ==>
        Convertible(n.parameters.list[j].parameters.list[m], params.defs, params.disabledAsync)
    decreases n, 0, |n.parameters.list[j].parameters.list| - k
  {
    if k < |n.parameters.list[j].parameters.list| {
      CallbackArgsOkIff(n, j, k + 1, params);
      ConvertTypeOkIff(n.parameters.list[j].parameters.list[k], params);
    }
  }

  lemma {:induction false} AsyncResultOkIff(n: Node, j: nat, params: Params)
    requires n.parameters.Present? && j < |n.parameters.list|
    ensures AsyncResult(n, j, params).Ok? <==>
      (n.parameters.list[j].parameters.Present? ==>
        forall m :: 0 <= m < |n.parameters.list[j].parameters.list| ==>
          Convertible(n.parameters.list[j].parameters.list[m], params.defs, params.disabledAsync))
    decreases n, 1, 0
  {
    var callback := n.parameters.list[j];
    if callback.parameters.Present? && |callback.parameters.list| == 1 {
      ConvertTypeOkIff(callback.parameters.list[0], params);
    } else if callback.parameters.Present? && |callback.parameters.list| > 1 {
      CallbackArgsOkIff(n, j, 0, params);
    }
  }

  lemma {:induction false} FunctionOkIff(n: Node, params: Params)
    requires n.typeTag == Some("function") && n.choices.Absent?
    ensures ConvertFunction(n, params).Ok? <==> ComposedConvertible(n, params.defs, params.disabledAsync)
    decreases n, 2, 0
  {
    if n.parameters.Present? || n.returnType.Some? {
      if n.parameters.Present? {
        RenderParametersOkIff(n, 0, params.(forcedIndentLevel := Some(0), inFunction := true));
      }
      FunctionReturnOkIff(n, params.(inFunction := true));
    }
  }

  lemma {:induction false} FunctionReturnOkIff(n: Node, params: Params)
    ensures FunctionReturn(n, params).Ok? <==>
      && (n.returnType.Some? ==> Convertible(n.returnType.value, params.defs, params.disabledAsync))
      && (n.parameters.Present? && !params.disabledAsync ==>
            var j := LastAsyncCallback(n.parameters.list, n.async);
            j.Some? && n.parameters.list[j.value].parameters.Present? ==>
              forall m :: 0 <= m < |n.parameters.list[j.value].parameters.list| ==>
                Convertible(n.parameters.list[j.value].parameters.list[m], params.defs, params.disabledAsync))
    decreases n, 1, 1
  {
    if n.returnType.Some? {
      ConvertTypeOkIff(n.returnType.value, params);
    }
    if n.parameters.Present? {
      var j := LastAsyncCallback(n.parameters.list, n.async);
      if j.Some? {
        AsyncResultOkIff(n, j.value, params);
      }
    }
  }

  // ---------------------------------------------------------------------------
  // Objects

  /** The properties that are not flagged `unsupported`, in order. */
  function SupportedProperties(entries: seq<Property>): (kept: seq<Property>)
    ensures |kept| <= |entries|
    ensures forall k :: 0 <= k < |kept| ==> kept[k] in entries && !kept[k].schema.unsupported
    ensures forall p | p in entries && !p.schema.unsupported :: p in kept
  {
    if entries == [] then []
    else
      var rest := SupportedProperties(entries[1..]);
      assert forall p | p in entries :: p == entries[0] || p in entries[1..];
      if entries[0].schema.unsupported then rest
      else [entries[0]] + rest
  }

  /**
   * Keeping the supported properties of two runs of entries one after the
   * other keeps those of each run, in order: with `SupportedProperty` for a
   * single entry this makes `SupportedProperties` exactly the in-order filter
   * dropping the unsupported entries.
   */
  lemma {:induction false} SupportedPropertiesAppend(a: seq<Property>, b: seq<Property>)
    ensures SupportedProperties(a + b) == SupportedProperties(a) + SupportedProperties(b)
  {
    if a != [] {
      assert (a + b)[1..] == a[1..] + b;
      SupportedPropertiesAppend(a[1..], b);
    } else {
      assert a + b == b;
    }
  }

  /** A single entry is kept exactly when it is supported. */
  lemma SupportedProperty(p: Property)
    ensures SupportedProperties([p]) == if p.schema.unsupported then [] else [p]
  {
    assert [p][1..] == [];
  }

  function PropertyLine(prop: Property, level: nat, params: Params): string {
    Indent(level) + prop.key + OptionalMark(prop.schema.optional) + ": " + Text(ConvertType(prop.schema, params))
  }

  function PropertyLines(kept: seq<Property>, level: nat, params: Params): (lines: seq<string>)
    ensures |lines| == |kept|
    ensures forall k :: 0 <= k < |kept| ==> lines[k] == PropertyLine(kept[k], level, params)
  {
    if kept == [] then [] else [PropertyLine(kept[0], level, params)] + PropertyLines(kept[1..], level, params)
  }

  /** One line per supported property, in order: its name, `?` exactly when optional, its type. */
  lemma {:induction false} RenderedPropertyLines(n: Node, i: nat, level: nat, params: Params)
    requires n.properties.Props? && i <= |n.properties.entries|
    requires RenderProperties(n, i, level, params).Ok?
    ensures RenderProperties(n, i, level, params).value ==
      PropertyLines(SupportedProperties(n.properties.entries[i..]), level, params)
    decreases |n.properties.entries| - i
  {
    var entries := n.properties.entries;
    if i < |entries| {
      var prop := entries[i];
      assert entries[i..][1..] == entries[i + 1..];
      RenderedPropertyLines(n, i + 1, level, params);
      var rest := SupportedProperties(entries[i + 1..]);
      if !prop.schema.unsupported {
        assert SupportedProperties(entries[i..]) == [prop] + rest;
        var lines := PropertyLines([prop] + rest, level, params);
        assert lines == [PropertyLine(prop, level, params)] + PropertyLines(rest, level, params) by {
          assert ([prop] + rest)[1..] == rest;
        }
      }
    }
  }

  /** Every composed description is converted one indentation level deeper than its context. */
  lemma ComposedOneLevelDeeper(n: Node, params: Params)
    requires !IsPrimitiveType(n) && !IsReferenceType(n) && IsComposedType(n)
    ensures ConvertType(n, params) ==
      ConvertComposedType(n, params.(forcedIndentLevel := Some(params.forcedIndentLevel.GetOr(0) + 1)))
  {
  }

  /**
   * An object converts to `any` when its additional properties are `any`, to
   * `{}` when no supported property is left, and otherwise to an exact object
   * type with one line per supported property, indented at the object's level,
   * and the closing bar one level less. Reached through `ConvertType` the level
   * is always at least 1 (see `ComposedOneLevelDeeper`), so the lines are
   * always separated by ",\n".
   */
  lemma ObjectShape(n: Node, params: Params, level: nat)
    requires params.forcedIndentLevel == Some(level) && level >= 1
    requires ConvertObject(n, params).Ok?
    ensures
      var kept := if n.properties.Props? then SupportedProperties(n.properties.entries) else [];
      var lines := PropertyLines(kept, level, params.(inFunction := true));
      ConvertObject(n, params).value ==
        if n.additionalProperties.Some? && n.additionalProperties.value.typeTag == Some("any") then "any"
        else if kept == [] then "{}"
        else "{|" + "\n" + Join(lines, ",\n") + ("\n" + Indent(level - 1)) + "|}"
  {
    var inner := params.(inFunction := true);
    if n.properties.Props? {
      ObjectFromBody(n, params, level);
      RenderedPropertyLines(n, 0, level, inner);
      assert n.properties.entries[0..] == n.properties.entries;
    }
  }

  /**
   * An object reached through `ConvertType` in a context at indentation level
   * `L` (an unset level counts as 0) has each property line indented at level
   * `L + 1`, its properties converted at that level inside a function context,
   * and its closing bar at level `L`.
   */
  lemma ObjectIndentation(n: Node, params: Params)
    requires n.typeTag == Some("object") && !IsReferenceType(n) && n.choices.Absent?
    requires ConvertType(n, params).Ok?
    ensures var level := params.forcedIndentLevel.GetOr(0);
      var kept := if n.properties.Props? then SupportedProperties(n.properties.entries) else [];
      var lines := PropertyLines(kept, level + 1, params.(forcedIndentLevel := Some(level + 1), inFunction := true));
      forall k | 0 <= k < |lines| :: StartsWith(lines[k], Indent(level + 1))
    ensures var level := params.forcedIndentLevel.GetOr(0);
      var kept := if n.properties.Props? then SupportedProperties(n.properties.entries) else [];
      var lines := PropertyLines(kept, level + 1, params.(forcedIndentLevel := Some(level + 1), inFunction := true));
      ConvertType(n, params).value ==
        if n.additionalProperties.Some? && n.additionalProperties.value.typeTag == Some("any") then "any"
        else if kept == [] then "{}"
        else "{|" + "\n" + Join(lines, ",\n") + ("\n" + Indent(level)) + "|}"
  {
    PropertyLinesIndent(
      if n.properties.Props? then SupportedProperties(n.properties.entries) else [],
      params.forcedIndentLevel.GetOr(0) + 1,
      params.(forcedIndentLevel := Some(params.forcedIndentLevel.GetOr(0) + 1), inFunction := true));
    ObjectIndentationText(n, params);
  }

  lemma ObjectIndentationText(n: Node, params: Params)
    requires n.typeTag == Some("object") && !IsReferenceType(n) && n.choices.Absent?
    requires ConvertType(n, params).Ok?
    ensures var level := params.forcedIndentLevel.GetOr(0);
      var kept := if n.properties.Props? then SupportedProperties(n.properties.entries) else [];
      var lines := PropertyLines(kept, level + 1, params.(forcedIndentLevel := Some(level + 1), inFunction := true));
      ConvertType(n, params).value ==
        if n.additionalProperties.Some? && n.additionalProperties.value.typeTag == Some("any") then "any"
        else if kept == [] then "{}"
        else "{|" + "\n" + Join(lines, ",\n") + ("\n" + Indent(level)) + "|}"
  {
    var level := params.forcedIndentLevel.GetOr(0);
    ComposedOneLevelDeeper(n, params);
    ObjectAtLevel(n, params, level);
  }

  /** `ObjectShape` one level deeper than the context `params`. */
  lemma ObjectAtLevel(n: Node, params: Params, level: nat)
    requires level == params.forcedIndentLevel.GetOr(0)
    requires ConvertObject(n, params.(forcedIndentLevel := Some(level + 1))).Ok?
    ensures
      var kept := if n.properties.Props? then SupportedProperties(n.properties.entries) else [];
      var lines := PropertyLines(kept, level + 1, params.(forcedIndentLevel := Some(level + 1), inFunction := true));
      ConvertObject(n, params.(forcedIndentLevel := Some(level + 1))).value ==
        if n.additionalProperties.Some? && n.additionalProperties.value.typeTag == Some("any") then "any"
        else if kept == [] then "{}"
        else "{|" + "\n" + Join(lines, ",\n") + ("\n" + Indent(level)) + "|}"
  {
    ObjectShape(n, params.(forcedIndentLevel := Some(level + 1)), level + 1);
  }

  /** Every property line begins with the indentation of its level. */
  lemma PropertyLinesIndent(kept: seq<Property>, level: nat, params: Params)
    ensures var lines := PropertyLines(kept, level, params);
      forall k | 0 <= k < |lines| :: StartsWith(lines[k], Indent(level))
  {
    forall k | 0 <= k < |PropertyLines(kept, level, params)|
      ensures StartsWith(PropertyLines(kept, level, params)[k], Indent(level))
    {
      PropertyLineIndent(kept[k], level, params);
    }
  }

  /** A property line begins with its indentation. */
  lemma PropertyLineIndent(prop: Property, level: nat, params: Params)
    ensures StartsWith(PropertyLine(prop, level, params), Indent(level))
  {
    IndentedLine(Indent(level), prop.key, OptionalMark(prop.schema.optional), Text(ConvertType(prop.schema, params)));
  }

  /**
   * An array converts to `Array<…>` of its items, which are converted one
   * indentation level deeper than the array's context; an array without
   * items, or whose items do not convert, is an error.
   */
  lemma ArrayShape(n: Node, params: Params)
    requires n.typeTag == Some("array") && !IsReferenceType(n) && n.choices.Absent?
    ensures n.items.None? ==> ConvertType(n, params) == Err(MissingArrayItems)
    ensures n.items.Some? ==>
      var items := ConvertType(n.items.value, params.(forcedIndentLevel := Some(params.forcedIndentLevel.GetOr(0) + 1)));
      && (ConvertType(n, params).Ok? <==> items.Ok?)
      && (items.Ok? ==> ConvertType(n, params).value == "Array<" + items.value + ">")
      && (items.Err? ==> ConvertType(n, params).error == items.error)
  {
    ComposedOneLevelDeeper(n, params);
  }

  /** `ConvertObject` in terms of the rendered property lines. */
  lemma ObjectFromBody(n: Node, params: Params, level: nat)
    requires params.forcedIndentLevel == Some(level) && level >= 1
    requires n.properties.Props?
    requires ConvertObject(n, params).Ok?
    ensures RenderProperties(n, 0, level, params.(inFunction := true)).Ok?
    ensures
      var lines := RenderProperties(n, 0, level, params.(inFunction := true)).value;
      ConvertObject(n, params).value ==
        if n.additionalProperties.Some? && n.additionalProperties.value.typeTag == Some("any") then "any"
        else if lines == [] then "{}"
        else "{|" + "\n" + Join(lines, ",\n") + ("\n" + Indent(level - 1)) + "|}"
  {
  }

  // ---------------------------------------------------------------------------
  // Functions

  function ParameterLine(param: Node, asyncName: Option<string>, params: Params): string {
    Str(param.name) + OptionalMark(param.optional || IsAsyncCallback(param, asyncName)) + ": " + Text(ConvertType(param, params))
  }

  function ParameterLines(ps: seq<Node>, asyncName: Option<string>, params: Params): (lines: seq<string>)
    ensures |lines| == |ps|
    ensures forall k :: 0 <= k < |ps| ==> lines[k] == ParameterLine(ps[k], asyncName, params)
  {
    if ps == [] then [] else [ParameterLine(ps[0], asyncName, params)] + ParameterLines(ps[1..], asyncName, params)
  }

  /**
   * One entry per parameter, in order, each named; `?` marks the optional ones
   * and the async completion callback, which stays in the list.
   */
  lemma {:induction false} RenderedParameterLines(n: Node, i: nat, params: Params)
    requires n.parameters.Present? && i <= |n.parameters.list|
    requires RenderParameters(n, i, params).Ok?
    ensures forall k :: i <= k < |n.parameters.list| ==> Truthy(n.parameters.list[k].name)
    ensures RenderParameters(n, i, params).value == ParameterLines(n.parameters.list[i..], n.async, params)
    decreases |n.parameters.list| - i
  {
    var ps := n.parameters.list;
    if i < |ps| {
      assert ConvertType(ps[i], params).Ok? && Truthy(ps[i].name);
      RenderedParameterLines(n, i + 1, params);
      assert ps[i..][1..] == ps[i + 1..];
    }
  }

  function ConvertedArgs(args: seq<Node>, params: Params): (ts: seq<string>)
    ensures |ts| == |args|
    ensures forall k :: 0 <= k < |args| ==> ts[k] == Text(ConvertType(args[k], params))
  {
    if args == [] then [] else [Text(ConvertType(args[0], params))] + ConvertedArgs(args[1..], params)
  }

  lemma {:induction false} ConvertedCallbackArgs(n: Node, j: nat, k: nat, params: Params)
    requires n.parameters.Present? && j < |n.parameters.list|
    requires n.parameters.list[j].parameters.Present? && k <= |n.parameters.list[j].parameters.list|
    requires ConvertCallbackArgs(n, j, k, params).Ok?
    ensures ConvertCallbackArgs(n, j, k, params).value == ConvertedArgs(n.parameters.list[j].parameters.list[k..], params)
    decreases |n.parameters.list[j].parameters.list| - k
  {
    var args := n.parameters.list[j].parameters.list;
    if k < |args| {
      ConvertedCallbackArgs(n, j, k + 1, params);
      assert args[k..][1..] == args[k + 1..];
    }
  }

  /** What a Promise returned by an async function resolves to, from its callback's arguments. */
  function PromiseValue(callback: Node, params: Params): string {
    var args := callback.parameters.OrEmpty();
    if |args| == 0 then "void"
    else if |args| == 1 then Text(ConvertType(args[0], params))
    else "[" + Join(ConvertedArgs(args, params), ", ") + "]"
  }

  /**
   * The Promise of an async function resolves to nothing when the callback
   * takes no argument, to the argument's type when it takes one, and to the
   * tuple of the argument types when it takes several.
   */
  lemma AsyncResultShape(n: Node, j: nat, params: Params)
    requires n.parameters.Present? && j < |n.parameters.list|
    requires AsyncResult(n, j, params).Ok?
    ensures AsyncResult(n, j, params).value == "Promise<" + PromiseValue(n.parameters.list[j], params) + ">"
  {
    var callback := n.parameters.list[j];
    if callback.parameters.Present? && |callback.parameters.list| > 1 {
      ConvertedCallbackArgs(n, j, 0, params);
      assert callback.parameters.list[0..] == callback.parameters.list;
      var all := Join(ConvertedArgs(callback.parameters.list, params), ", ");
      assert "Promise<[" + all + "]>" == "Promise<" + ("[" + all + "]") + ">";
    }
  }

  /** The return part of a function's signature. */
  function ReturnText(n: Node, params: Params): string {
    var asyncIndex := if n.parameters.Present? then LastAsyncCallback(n.parameters.list, n.async) else None;
    if asyncIndex.Some? && !params.disabledAsync then
      "Promise<" + PromiseValue(n.parameters.list[asyncIndex.value], params) + ">"
    else if n.returnType.None? then
      "void"
    else
      var ret := Text(ConvertType(n.returnType.value, params));
      if n.returnType.value.optional && ret != "any" then "?" + ret else ret
  }

  /**
   * The return of a signature is `Promise<…>` when the async rewrite applies,
   * whatever `returns` says; otherwise it is the converted `returns` (`void`
   * when missing), prefixed by `?` when optional and not `any`.
   */
  lemma FunctionReturnShape(n: Node, params: Params)
    requires FunctionReturn(n, params).Ok?
    ensures FunctionReturn(n, params).value == ReturnText(n, params)
  {
    if n.parameters.Present? {
      var j := LastAsyncCallback(n.parameters.list, n.async);
      if j.Some? && !params.disabledAsync {
        AsyncResultShape(n, j.value, params);
      }
    }
  }

  /**
   * A function with neither parameters nor returns is `Function`. Any other
   * is `(<parameters>) => <return>` inside a signature and `(<parameters>): <return>`
   * at the top, the parameters converted at level 0 and the return at the
   * function's own level.
   */
  lemma FunctionShape(n: Node, params: Params)
    requires ConvertFunction(n, params).Ok?
    ensures n.parameters.Absent? && n.returnType.None? ==> ConvertFunction(n, params).value == "Function"
    ensures n.parameters.Present? || n.returnType.Some? ==>
      var lines := ParameterLines(n.parameters.OrEmpty(), n.async, params.(forcedIndentLevel := Some(0), inFunction := true));
      var ret := ReturnText(n, params.(inFunction := true));
      ConvertFunction(n, params).value ==
        if params.inFunction then "(" + Join(lines, ", ") + ") => " + ret
        else "(" + Join(lines, ", ") + "): " + ret
  {
    if n.parameters.Present? || n.returnType.Some? {
      var paramParams := params.(forcedIndentLevel := Some(0), inFunction := true);
      if n.parameters.Present? {
        assert RenderParameters(n, 0, paramParams).Ok?;
        RenderedParameterLines(n, 0, paramParams);
        assert n.parameters.list[0..] == n.parameters.list;
      }
      FunctionReturnShape(n, params.(inFunction := true));
    }
  }

  /**
   * The async rewrite: the completion callback named by `async` stays a
   * parameter, marked optional; unless the rewrite is disabled, the function
   * returns a Promise of what the callback is called with.
   */
  lemma AsyncRewrite(n: Node, params: Params, j: nat)
    requires n.parameters.Present? && LastAsyncCallback(n.parameters.list, n.async) == Some(j)
    requires ConvertFunction(n, params).Ok?
    ensures
      var paramParams := params.(forcedIndentLevel := Some(0), inFunction := true);
      ParameterLines(n.parameters.list, n.async, paramParams)[j] ==
        Str(n.parameters.list[j].name) + "?" + ": " + Text(ConvertType(n.parameters.list[j], paramParams))
    ensures !params.disabledAsync ==>
      EndsWith(ConvertFunction(n, params).value, "Promise<" + PromiseValue(n.parameters.list[j], params.(inFunction := true)) + ">")
  {
    var paramParams := params.(forcedIndentLevel := Some(0), inFunction := true);
    var ps := n.parameters.list;
    assert ParameterLines(ps, n.async, paramParams)[j] == ParameterLine(ps[j], n.async, paramParams);
    assert IsAsyncCallback(ps[j], n.async);
    if !params.disabledAsync {
      FunctionShape(n, params);
      var lines := ParameterLines(n.parameters.OrEmpty(), n.async, params.(forcedIndentLevel := Some(0), inFunction := true));
      var head := if params.inFunction then "(" + Join(lines, ", ") + ") => " else "(" + Join(lines, ", ") + "): ";
      EndsWithAppended(head, ReturnText(n, params.(inFunction := true)));
    }
  }
}
