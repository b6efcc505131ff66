/**
 * The type conversion engine: a pure, recursive translation of one schema type
 * description into Flow type text. Dispatch follows the source's order of
 * tests: a primitive `type` tag first, then a `$ref`, then the composed kinds
 * (`choices`, array, object, function); anything else is an error.
 */
module FlowTypesGenerator {
  import opened Schema

  const PrimitiveTypes: seq<string> := ["void", "any", "string", "number", "boolean", "integer"]
  const ComposedTypes: seq<string> := ["array", "object", "function"]

  /**
   * The conversion context: the definition table references are looked up in,
   * the indentation level of nested object bodies (unset at the top), whether
   * the node sits inside a function signature (arrow-style function heads),
   * and whether the callback-to-Promise rewrite is switched off.
   */
  datatype Params = Params(
    defs: map<string, Def>,
    forcedIndentLevel: Option<nat>,
    inFunction: bool,
    disabledAsync: bool)

  /** `{collectedDefinitions: defs}`, the context every declaration starts from. */
  function TopLevel(defs: map<string, Def>): Params {
    Params(defs, None, false, false)
  }

  /** The node `{type: "void"}` a function without `returns` is given. */
  const VoidType: Node := Blank.(typeTag := Some("void"))

  predicate IsPrimitiveType(n: Node) {
    n.typeTag.Some? && n.typeTag.value in PrimitiveTypes
  }

  predicate IsReferenceType(n: Node) {
    Truthy(n.ref)
  }

  predicate IsComposedType(n: Node) {
    (n.typeTag.Some? && n.typeTag.value in ComposedTypes) || n.choices.Present?
  }

  /** A function parameter that is the completion callback named by the function's `async`. */
  predicate IsAsyncCallback(p: Node, asyncName: Option<string>) {
    p.typeTag == Some("function") && p.name == asyncName
  }

  function OptionalMark(optional: bool): string {
    if optional then "?" else ""
  }

  function ConvertPrimitiveType(n: Node): (r: Result<string>)
    ensures r.Ok? <==> IsPrimitiveType(n)
    ensures r.Ok? ==> r.value in ["void", "any", "string", "number", "boolean"]
    ensures r.Ok? && n.typeTag.value != "integer" ==> r.value == n.typeTag.value
    ensures n.typeTag == Some("integer") ==> r == Ok("number")
    ensures r.Err? ==> r.error == UnknownPrimitiveType(n.typeTag)
  {
    if n.typeTag.Some? && n.typeTag.value in ["void", "any", "string", "number", "boolean"] then
      Ok(n.typeTag.value)
    else if n.typeTag == Some("integer") then
      Ok("number")
    else
      Err(UnknownPrimitiveType(n.typeTag))
  }

  /**
   * The name a reference to the definition `id` of `namespace` uses: a
   * definition whose id starts with its namespace's name is named
   * `webext$<id>`, any other `webext$<namespace>$<id>`.
   */
  function ReferenceName(id: string, namespace: Option<string>): (name: string)
    ensures StartsWith(name, "webext$") && EndsWith(name, id)
  {
    if StartsWith(id, Str(namespace)) then
      EndsWithAppended("webext$", id);
      "webext$" + id
    else
      EndsWithAppended("webext$" + Str(namespace) + "$", id);
      "webext$" + Str(namespace) + "$" + id
  }

  /** The text of a reference: the reference name, after `typeof ` for a function. */
  lemma ReferenceText(id: string, namespace: Option<string>, isFunction: bool)
    ensures var name := ReferenceName(id, namespace);
      var text := if isFunction then "typeof " + name else name;
      && (StartsWith(text, "typeof ") <==> isFunction)
      && EndsWith(text, id)
      && (StartsWith(id, Str(namespace)) ==> EndsWith(text, "webext$" + id))
      && (!StartsWith(id, Str(namespace)) ==> EndsWith(text, "webext$" + Str(namespace) + "$" + id))
  {
    var name := ReferenceName(id, namespace);
    var text := if isFunction then "typeof " + name else name;
    assert name[0] == 'w' != "typeof "[0];
    if isFunction {
      assert text[..|"typeof "|] == "typeof ";
      EndsWithAppended("typeof ", name);
    }
    assert EndsWith(text, name);
    EndsWithTransitive(text, name, id);
    if StartsWith(id, Str(namespace)) {
      assert EndsWith(name, "webext$" + id);
      EndsWithTransitive(text, name, "webext$" + id);
    } else {
      assert EndsWith(name, "webext$" + Str(namespace) + "$" + id);
      EndsWithTransitive(text, name, "webext$" + Str(namespace) + "$" + id);
    }
  }

  /**
   * Only the last dotted segment of `$ref` is looked up, and the definition
   * found must have an id. A function is referred to as `typeof` its name.
   */
  function ConvertReferenceType(n: Node, params: Params): (r: Result<string>)
    requires IsReferenceType(n)
    ensures r.Ok? <==> LastSegment(n.ref.value) in params.defs && params.defs[LastSegment(n.ref.value)].id.Some?
    ensures LastSegment(n.ref.value) !in params.defs ==> r == Err(ReferencedTypeNotFound(LastSegment(n.ref.value)))
    ensures LastSegment(n.ref.value) in params.defs && params.defs[LastSegment(n.ref.value)].id.None? ==>
      r == Err(UndefinedId(LastSegment(n.ref.value)))
    ensures r.Ok? ==>
      var d := params.defs[LastSegment(n.ref.value)];
      && (StartsWith(r.value, "typeof ") <==> d.kind == FunctionDef)
      && EndsWith(r.value, d.id.value)
      && (StartsWith(d.id.value, Str(d.namespace)) ==> EndsWith(r.value, "webext$" + d.id.value))
      && (!StartsWith(d.id.value, Str(d.namespace)) ==> EndsWith(r.value, "webext$" + Str(d.namespace) + "$" + d.id.value))
  {
    var refId := LastSegment(n.ref.value);
    if refId !in params.defs then
      Err(ReferencedTypeNotFound(refId))
    else
      var refDef := params.defs[refId];
      if refDef.id.None? then
        Err(UndefinedId(refId))
      else
        var refType := ReferenceName(refDef.id.value, refDef.namespace);
        ReferenceText(refDef.id.value, refDef.namespace, refDef.kind == FunctionDef);
        Ok(if refDef.kind == FunctionDef then "typeof " + refType else refType)
  }

  /**
   * `convertType`: a primitive tag always converts; a description that is
   * neither primitive, nor a reference, nor composed is an error; converted
   * text is never empty.
   */
  function ConvertType(n: Node, params: Params): (r: Result<string>)
    ensures IsPrimitiveType(n) ==> r.Ok?
    ensures !IsPrimitiveType(n) && !IsReferenceType(n) && !IsComposedType(n) ==> r == Err(UnableToConvertType)
    ensures r.Ok? ==> r.value != ""
    decreases n, 4, 0
  {
    if IsPrimitiveType(n) then
      ConvertPrimitiveType(n)
    else if IsReferenceType(n) then
      ConvertReferenceType(n, params)
    else if IsComposedType(n) then
      ConvertComposedType(n, params.(forcedIndentLevel := Some(params.forcedIndentLevel.GetOr(0) + 1)))
    else
      Err(UnableToConvertType)
  }

  /**
   * `convertComposedType`: a union never fails; a description with neither
   * `choices` nor one of the composed tags is an error.
   */
  function ConvertComposedType(n: Node, params: Params): (r: Result<string>)
    ensures n.choices.Present? ==> r.Ok?
    ensures n.choices.Absent? && n.typeTag !in [Some("array"), Some("object"), Some("function")] ==>
      r == Err(UnknownComposedType)
    ensures r.Ok? ==> r.value != ""
    decreases n, 3, 0
  {
    if n.choices.Present? then
      Ok(ConvertChoices(n))
    else if n.typeTag == Some("array") then
      ConvertArray(n, params)
    else if n.typeTag == Some("object") then
      ConvertObject(n, params)
    else if n.typeTag == Some("function") then
      ConvertFunction(n, params)
    else
      Err(UnknownComposedType)
  }

  /** A union keeps its own primitive `type` if it has one and degrades to `any` otherwise. */
  function ConvertChoices(n: Node): (t: string)
    ensures IsPrimitiveType(n) ==> t == n.typeTag.value
    ensures !IsPrimitiveType(n) ==> t == "any"
    ensures t in PrimitiveTypes
  {
    if IsPrimitiveType(n) then n.typeTag.value else "any"
  }

  /** `convertArray`: `Array<…>` of the items' type; an array without `items` is an error. */
  function ConvertArray(n: Node, params: Params): (r: Result<string>)
    ensures n.items.None? ==> r == Err(MissingArrayItems)
    ensures n.items.Some? ==> (r.Ok? <==> ConvertType(n.items.value, params).Ok?)
    ensures r.Ok? ==> StartsWith(r.value, "Array<") && EndsWith(r.value, ">")
    decreases n, 2, 0
  {
    if n.items.None? then
      Err(MissingArrayItems)
    else
      var body :- ConvertType(n.items.value, params);
      StartsWithAppended("Array<", body + ">");
      EndsWithAppended("Array<" + body, ">");
      assert "Array<" + body + ">" == "Array<" + (body + ">");
      Ok("Array<" + body + ">")
  }

  /**
   * `convertObject`: `any` when the additional properties are `any`, `{}`
   * when no supported property is left, an exact object `{|…|}` otherwise;
   * the properties are converted first, so one that fails fails the object
   * whatever its additional properties say.
   */
  function ConvertObject(n: Node, params: Params): (r: Result<string>)
    ensures r.Ok? ==> r.value == "any" || r.value == "{}" || (StartsWith(r.value, "{|") && EndsWith(r.value, "|}"))
    ensures n.properties.Props? ==>
      (r.Ok? <==> RenderProperties(n, 0, params.forcedIndentLevel.GetOr(0), params.(inFunction := true)).Ok?)
    ensures !n.properties.Props? ==> r.Ok?
    ensures r.Ok? && n.additionalProperties.Some? && n.additionalProperties.value.typeTag == Some("any") ==> r.value == "any"
    decreases n, 2, 0
  {
    var level := params.forcedIndentLevel.GetOr(0);
    var body :-
      if n.properties.Props? then RenderProperties(n, 0, level, params.(inFunction := true))
      else Ok([]);
    if n.additionalProperties.Some? && n.additionalProperties.value.typeTag == Some("any") then
      Ok("any")
    else if body == [] then
      Ok("{}")
    else
      Ok(ObjectText(body, level))
  }

  /**
   * An exact object type over the property lines `body`: on one line at the
   * top, one property per line below it, the closing bar indented one level
   * less than the lines.
   */
  function ObjectText(body: seq<string>, level: nat): (t: string)
    ensures StartsWith(t, "{|") && EndsWith(t, "|}")
  {
    var separator := if level == 0 then ", " else ",\n";
    var leftIndent := if level == 0 then "" else "\n";
    var rightIndent := if level == 0 then "" else "\n" + Indent(level - 1);
    BracedText(leftIndent + Join(body, separator) + rightIndent);
    assert "{|" + leftIndent + Join(body, separator) + rightIndent + "|}" == "{|" + (leftIndent + Join(body, separator) + rightIndent) + "|}";
    "{|" + leftIndent + Join(body, separator) + rightIndent + "|}"
  }

  /** The lines `<indent><name><?>: <type>` of the supported properties from index `i` on. */
  function RenderProperties(n: Node, i: nat, level: nat, params: Params): (r: Result<seq<string>>)
    requires n.properties.Props? && i <= |n.properties.entries|
    ensures r.Ok? ==> |r.value| <= |n.properties.entries| - i
    ensures r.Ok? ==> forall k | 0 <= k < |r.value| :: StartsWith(r.value[k], Indent(level))
    decreases n, 0, |n.properties.entries| - i
  {
    if i == |n.properties.entries| then
      Ok([])
    else
      var prop := n.properties.entries[i];
      if prop.schema.unsupported then
        RenderProperties(n, i + 1, level, params)
      else
        var propType :- ConvertType(prop.schema, params);
        var rest :- RenderProperties(n, i + 1, level, params);
        IndentedLine(Indent(level), prop.key, OptionalMark(prop.schema.optional), propType);
        Ok([Indent(level) + prop.key + OptionalMark(prop.schema.optional) + ": " + propType] + rest)
  }

  /**
   * `convertFunction`: `Function` for a description without parameters and
   * return; otherwise a parenthesised parameter list, arrow-style inside a
   * signature.
   */
  function ConvertFunction(n: Node, params: Params): (r: Result<string>)
    ensures n.parameters.Absent? && n.returnType.None? ==> r == Ok("Function")
    ensures r.Ok? && !(n.parameters.Absent? && n.returnType.None?) ==> StartsWith(r.value, "(")
    decreases n, 2, 0
  {
    if n.parameters.Absent? && n.returnType.None? then
      Ok("Function")
    else
      var paramParams := params.(forcedIndentLevel := Some(0), inFunction := true);
      var funcParams :-
        if n.parameters.Present? then RenderParameters(n, 0, paramParams)
        else Ok([]);
      var funcRet :- FunctionReturn(n, params.(inFunction := true));
      var head := if params.inFunction then ") => " else "): ";
      assert "(" + Join(funcParams, ", ") + head + funcRet == "(" + (Join(funcParams, ", ") + head + funcRet);
      StartsWithAppended("(", Join(funcParams, ", ") + head + funcRet);
      if params.inFunction then
        Ok("(" + Join(funcParams, ", ") + ") => " + funcRet)
      else
        Ok("(" + Join(funcParams, ", ") + "): " + funcRet)
  }

  /**
   * The return part of a signature, converted with `inFunction` set: the
   * `returns` type (`void` when missing), marked `?` when optional and not
   * `any`, replaced by a Promise when the async rewrite applies.
   */
  function FunctionReturn(n: Node, nestedParams: Params): (r: Result<string>)
    ensures var asyncIndex := if n.parameters.Present? then LastAsyncCallback(n.parameters.list, n.async) else None;
      && (asyncIndex.Some? && !nestedParams.disabledAsync && r.Ok? ==> StartsWith(r.value, "Promise<"))
      && (asyncIndex.None? && n.returnType.None? ==> r == Ok("void"))
    decreases n, 1, 1
  {
    // a missing `returns` converts as {type: "void"}, that is to "void"
    var ret :-
      if n.returnType.Some? then ConvertType(n.returnType.value, nestedParams)
      else Ok("void");
    var funcRet :=
      if n.returnType.Some? && n.returnType.value.optional && ret != "any" then "?" + ret
      else ret;
    var asyncIndex := if n.parameters.Present? then LastAsyncCallback(n.parameters.list, n.async) else None;
    if asyncIndex.Some? && !nestedParams.disabledAsync then
      AsyncResult(n, asyncIndex.value, nestedParams)
    else
      Ok(funcRet)
  }

  /** The entries `<name><?>: <type>` of the parameters from index `i` on. */
  function RenderParameters(n: Node, i: nat, params: Params): (r: Result<seq<string>>)
    requires n.parameters.Present? && i <= |n.parameters.list|
    ensures r.Ok? ==> |r.value| == |n.parameters.list| - i
    ensures r.Ok? ==> forall k | i <= k < |n.parameters.list| :: Truthy(n.parameters.list[k].name)
    decreases n, 0, |n.parameters.list| - i
  {
    if i == |n.parameters.list| then
      Ok([])
    else
      var param := n.parameters.list[i];
      var optional := param.optional || IsAsyncCallback(param, n.async);
      var paramType :- ConvertType(param, params);
      if !Truthy(param.name) then
        Err(MissingParamName)
      else
        var rest :- RenderParameters(n, i + 1, params);
        Ok([param.name.value + OptionalMark(optional) + ": " + paramType] + rest)
  }

  /** The index of the last parameter that is the async completion callback. */
  function LastAsyncCallback(ps: seq<Node>, asyncName: Option<string>): (r: Option<nat>)
    ensures r.Some? ==>
      && r.value < |ps|
      && IsAsyncCallback(ps[r.value], asyncName)
      && forall j :: r.value < j < |ps| ==> !IsAsyncCallback(ps[j], asyncName)
    ensures r.None? ==> forall j :: 0 <= j < |ps| ==> !IsAsyncCallback(ps[j], asyncName)
  {
    if ps == [] then None
    else if IsAsyncCallback(ps[|ps| - 1], asyncName) then Some(|ps| - 1)
    else LastAsyncCallback(ps[..|ps| - 1], asyncName)
  }

  /**
   * `Promise<…>` of what the callback at index `j` is called with: `void` for
   * no arguments, the type of a single argument, a tuple for several.
   */
  function AsyncResult(n: Node, j: nat, params: Params): (r: Result<string>)
    requires n.parameters.Present? && j < |n.parameters.list|
    ensures n.parameters.list[j].parameters.Absent? || |n.parameters.list[j].parameters.list| == 0 ==> r == Ok("Promise<void>")
    ensures r.Ok? ==> StartsWith(r.value, "Promise<") && EndsWith(r.value, ">")
    decreases n, 1, 0
  {
    var callback := n.parameters.list[j];
    if callback.parameters.Absent? || |callback.parameters.list| == 0 then
      Ok("Promise<void>")
    else if |callback.parameters.list| == 1 then
      var single :- ConvertType(callback.parameters.list[0], params);
      PromiseText(single);
      Ok("Promise<" + single + ">")
    else
      var all :- ConvertCallbackArgs(n, j, 0, params);
      PromiseText("[" + Join(all, ", ") + "]");
      assert "Promise<" + ("[" + Join(all, ", ") + "]") + ">" == "Promise<[" + Join(all, ", ") + "]>";
      Ok("Promise<[" + Join(all, ", ") + "]>")
  }

  /** The types of the callback's arguments from index `k` on. */
  function ConvertCallbackArgs(n: Node, j: nat, k: nat, params: Params): (r: Result<seq<string>>)
    requires n.parameters.Present? && j < |n.parameters.list|
    requires n.parameters.list[j].parameters.Present? && k <= |n.parameters.list[j].parameters.list|
    ensures r.Ok? ==> |r.value| == |n.parameters.list[j].parameters.list| - k
    decreases n, 0, |n.parameters.list[j].parameters.list| - k
  {
    var args := n.parameters.list[j].parameters.list;
    if k == |args| then
      Ok([])
    else
      var argType :- ConvertType(args[k], params);
      var rest :- ConvertCallbackArgs(n, j, k + 1, params);
      Ok([argType] + rest)
  }

  /** `Promise<t>` starts with `Promise<` and ends with `>`. */
  lemma PromiseText(t: string)
    ensures StartsWith("Promise<" + t + ">", "Promise<") && EndsWith("Promise<" + t + ">", ">")
  {
    StartsWithAppended("Promise<", t + ">");
    EndsWithAppended("Promise<" + t, ">");
    assert "Promise<" + t + ">" == "Promise<" + (t + ">");
  }

  /** `{|t|}` starts with `{|` and ends with `|}`. */
  lemma BracedText(t: string)
    ensures StartsWith("{|" + t + "|}", "{|") && EndsWith("{|" + t + "|}", "|}")
  {
    StartsWithAppended("{|", t + "|}");
    EndsWithAppended("{|" + t, "|}");
    assert "{|" + t + "|}" == "{|" + (t + "|}");
  }

  /** A line built on `indent` starts with it. */
  lemma IndentedLine(indent: string, key: string, mark: string, text: string)
    ensures StartsWith(indent + key + mark + ": " + text, indent)
  {
    var line := indent + key + mark + ": " + text;
    assert line == indent + (key + mark + ": " + text);
    assert line[..|indent|] == indent;
  }
}
