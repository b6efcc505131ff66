# flow-typed-webextensions, modelled in Dafny

flow-typed-webextensions turns the JSON API schemas of Firefox WebExtensions
into one Flow library definition. A schema file is a JSON array of namespace
fragments. Each fragment names a namespace and lists its types, functions and
events. The program works in three stages:

- **Collection.** Every `.json` file of the schema directories is read. A file
  whose content is not an array is an error.
- **Resolution.** A `SchemaCollectionManager` merges the fragments namespace by
  namespace and resolves the `$extend` items of every namespace's types. It
  records every type, function and event in a global `defsById` table, and it
  adds an edge to a dependency graph for each reference and for each member's
  membership in its namespace.
- **Emission.** The graph is sorted topologically. Each definition is declared
  in that order: a type, an overloaded function, an event object type with
  `addListener`/`removeListener`, or a namespace object type. The `chrome` and
  `browser` globals come last. A recursive converter turns each schema type
  description into Flow type text. It handles primitive tags, `$ref`
  references, `choices`, arrays, exact objects and function signatures, and it
  rewrites an `async` callback into a `Promise` return.

The Dafny project has one module per part:

- `Schema`: the raw schema node and the definition records. It also holds the
  errors, an insertion-ordered map that stands for JavaScript object key order
  and `Map`s, and the string helpers.
- `FlowTypesGenerator` and `FlowTypesProperties`: the converter, a pure
  recursive function, and what is proved about it. The proofs say when a
  conversion succeeds (exactly when every visited part is convertible), which
  test wins when several apply, and the shape of object and function text.
- `SchemaResolver`: the merging and resolution passes, as functions on a
  `Registry` value (namespace table, `defsById`, graph edges), with lemmas
  about their results.
- `DepsGraph`: the dependency graph as a class over a sequence of edges. Its
  `Sort` is Kahn's algorithm, proved to return a topological order, or to
  report a cycle exactly when no such order exists.
- `DeclarationEmitter` and `EmitterProperties`: the declarations and the
  globals, and what is proved about them. The proofs say that references
  resolve to the names that get declared, that overloads appear as they
  should, and that every dependency is declared before its dependents.
- `ApiSchemaLoader`: `SchemaCollectionManager` as a class whose fields the
  methods update in place, with `resolveDefinitions`, `loadFromDirs` and the
  schema collection. Every method's contract ties its new state to the
  functions above. As a result, the properties proved about those functions
  hold of the object.

The file system, JSON parsing and comment stripping are outside the model. A
directory is given as its listing: a sequence of (file name, parsed document)
pairs. A document is either a JSON array of fragments or anything else.

## Model

| member | source | states |
|---|---|---|
| ApiSchemaLoader.CollectSchemaFromFile | src/lib/api-schema-loader.js:53-64 | a file is accepted exactly when its document is a JSON array; the result keeps the base directory, the file name and the array; any other document is `InvalidFormat(fileName, baseDir)` |
| ApiSchemaLoader.SchemaFiles | src/lib/api-schema-loader.js:71-75 | only files whose name ends in `.json` are kept, with their documents, and every such file of the listing is kept |
| ApiSchemaLoader.CollectSchemaFromDir | src/lib/api-schema-loader.js:66-78 | the loop over the listing returns exactly the collection function's result, the first non-array `.json` file failing the whole directory |
| ApiSchemaLoader.CollectedFromDir | src/lib/api-schema-loader.js:66-78 | a collected directory gives at most one schema per file, each from this directory and named after a `.json` file; an error is the `InvalidFormat` of one of its `.json` files |
| ApiSchemaLoader.CollectedFromDirResult | src/lib/api-schema-loader.js:66-78 | a directory is collected exactly when each of its `.json` files is an array; then there is one schema per `.json` file, in directory order, carrying the directory, the file name and the records of that file's document |
| ApiSchemaLoader.CollectedFromDirErrPrefix | src/lib/api-schema-loader.js:66-78 | once a prefix of the listing fails, the whole directory fails with that error (the first bad file decides) |
| ApiSchemaLoader.CollectedFromDirs | src/lib/api-schema-loader.js:434-444 | every schema loaded comes from one of the given directories and is named after a `.json` file; an error is the `InvalidFormat` of a file of one of them |
| ApiSchemaLoader.LoadFromDirs | src/lib/api-schema-loader.js:434-444 | a collection error of any directory is returned as is; otherwise the schemas of all directories, in order, are resolved together and the result is that of resolution |
| ApiSchemaLoader.CollectedFromDirsResult | src/lib/api-schema-loader.js:434-444 | loading the directories succeeds exactly when every directory collects; its schemas are then each directory's schemas joined in directory order (`DirSchemas`, built front to back), and otherwise its error is that of the first directory that does not collect |
| ApiSchemaLoader.CollectedFromDirsErrPrefix | src/lib/api-schema-loader.js:434-444 | the first directory that fails decides the error of loading |
| ApiSchemaLoader.ResolveDefinitions | src/lib/api-schema-loader.js:418-432 | a fresh manager fed every fragment of every schema, then processed, succeeds exactly when the resolution passes succeed, and its state is their result; otherwise their error is returned |
| ApiSchemaLoader.AddSchemaData | src/lib/api-schema-loader.js:418-432 | adding the fragments of one schema leaves the namespace table and `defsById` that merging all fragments seen so far describes, with no edge yet |
| ApiSchemaLoader.SchemaCollectionManager.constructor | src/lib/api-schema-loader.js:107-111 | a new manager has an empty namespace table, an empty `defsById` and a new, empty graph |
| ApiSchemaLoader.SchemaCollectionManager.AddNamespaceData | src/lib/api-schema-loader.js:114-137 | a new namespace starts from the fragment's lists and a known one gets them appended; `defsById` maps the namespace to its namespace record; the graph is unchanged |
| ApiSchemaLoader.SchemaCollectionManager.ProcessNamespaces | src/lib/api-schema-loader.js:139-148 | all type passes and then all function and event passes leave exactly the state the resolution function computes; the first failing type pass's error is returned |
| ApiSchemaLoader.SchemaCollectionManager.ProcessAllTypes | src/lib/api-schema-loader.js:140-142 | the type passes over the namespaces, in key order, leave the state the type-pass function computes, or return its first error |
| ApiSchemaLoader.SchemaCollectionManager.ProcessTypesStep | src/lib/api-schema-loader.js:140-142 | one more namespace's type pass leaves the state the type passes up to it compute, or returns their error |
| ApiSchemaLoader.SchemaCollectionManager.ProcessAllMembers | src/lib/api-schema-loader.js:144-147 | the function and event passes over the namespaces, in key order, leave the state the member-pass function computes |
| ApiSchemaLoader.SchemaCollectionManager.ProcessNamespaceMembers | src/lib/api-schema-loader.js:144-147 | the function pass and then the event pass of one more namespace leave the state the member passes up to it compute |
| ApiSchemaLoader.SchemaCollectionManager.ProcessNamespaceTypes | src/lib/api-schema-loader.js:219-270 | one namespace's type pass leaves the state `SchemaResolver.TypePass` computes; on an unknown `$extend` target it returns that error and changes nothing |
| ApiSchemaLoader.SchemaCollectionManager.RegisterTypes | src/lib/api-schema-loader.js:263-269 | each resolved type is recorded in `defsById` under its id, and one edge from it to its namespace is appended per type, in order |
| ApiSchemaLoader.SchemaCollectionManager.ProcessNamespaceFunctions | src/lib/api-schema-loader.js:205-217 | the function pass leaves the state `SchemaResolver.MemberPass` computes for functions |
| ApiSchemaLoader.SchemaCollectionManager.ProcessNamespaceEvents | src/lib/api-schema-loader.js:150-166 | the event pass leaves the state `SchemaResolver.MemberPass` computes for events, extra parameters included |
| ApiSchemaLoader.SchemaCollectionManager.AddMemberEdges | src/lib/api-schema-loader.js:160-164 | for one member the graph gets, in this order: its edge to the namespace, its parameter edges, its return edge and, for events only, its extra parameter edges |
| ApiSchemaLoader.SchemaCollectionManager.RegisterMembers | src/lib/api-schema-loader.js:150-166 | each member gets the id `<namespace>$<name>` and is recorded in `defsById`; its membership edge, parameter edges, return edge and (for events) extra parameter edges are appended in order |
| ApiSchemaLoader.SchemaCollectionManager.ProcessParameters | src/lib/api-schema-loader.js:168-187 | exactly one edge from each referenced definition (last segment of `$ref`) to the member is appended, in parameter order, and nothing else changes |
| ApiSchemaLoader.SchemaCollectionManager.ProcessReturns | src/lib/api-schema-loader.js:189-203 | an edge from the return's referenced definition to the member is appended when the return has a non-empty reference, and nothing else changes |
| ApiSchemaLoader.SchemaCollectionManager.DeclareTypeToFlow | src/lib/api-schema-loader.js:272-276 | the declaration text is the type declaration of the record against the current `defsById` |
| ApiSchemaLoader.SchemaCollectionManager.DeclareFunctionToFlow | src/lib/api-schema-loader.js:278-301 | the text is the function declaration; on success the record's function description becomes the one the declaration leaves (without its first parameter after an overload) |
| ApiSchemaLoader.SchemaCollectionManager.DeclareEventToFlow | src/lib/api-schema-loader.js:303-346 | the record is rewritten to the event object type under the event's bare name, and the declaration is made against the rewritten table |
| ApiSchemaLoader.SchemaCollectionManager.DeclareNamespaceToFlow | src/lib/api-schema-loader.js:348-373 | the record is rewritten to the namespace object type with its own id as namespace; a record naming no namespace is an error |
| ApiSchemaLoader.SchemaCollectionManager.DeclareAll | src/lib/api-schema-loader.js:378-396 | declaring the nodes of the order one after another gives the concatenated declarations, each seeing the rewrites of those before it, or the first error |
| ApiSchemaLoader.SchemaCollectionManager.ConvertToFlowTypes | src/lib/api-schema-loader.js:375-415 | the output is the declarations in sorted order followed by the two globals; a cycle or a failing declaration is returned as the error |
| ApiSchemaLoader.NamespacePropertiesOf | src/lib/api-schema-loader.js:351-362 | the loop over events then functions builds exactly the namespace's property map |
| ApiSchemaLoader.GlobalsBodyOf | src/lib/api-schema-loader.js:398-407 | the loop over the namespaces builds exactly the globals' shared body |
| ApiSchemaLoader.FlowOutputOk | src/lib/api-schema-loader.js:398-414 | when sorting and declaring succeed, the output is the concatenated declarations followed by `chrome` and `browser` declared over the same body |
| ApiSchemaLoader.CollectTypes | src/lib/api-schema-loader.js:223-233 | the loop over a namespace's types groups the `$extend` items by target and keys the other types by id, as the two map functions describe |
| ApiSchemaLoader.ApplyAllExtensions | src/lib/api-schema-loader.js:235-261 | the loop over the extension targets gives exactly `SchemaResolver.ApplyExtensions`'s result, the first unknown target failing |
| ApiSchemaLoader.AppendChoices | src/lib/api-schema-loader.js:253-257 | the choices of the extension items are appended after the target's own, in order |
| ApiSchemaLoader.ApplyExtensionsErrPrefix | src/lib/api-schema-loader.js:235-261 | after the first unknown target the later targets do not matter: the error stays |
| ApiSchemaLoader.TypePassesErrPrefix | src/lib/api-schema-loader.js:140-142 | after the first failing namespace the later namespaces do not matter: the error stays |
| ApiSchemaLoader.DeclarationsErrPrefix | src/lib/api-schema-loader.js:378-396 | after the first failing declaration the later nodes do not matter: the error stays |
| SchemaResolver.MergedKeys | src/lib/api-schema-loader.js:114-137 | merging fragments into an empty table lists each namespace once, in order of first sight |
| SchemaResolver.Merged | src/lib/api-schema-loader.js:114-137 | a new namespace goes last and starts from the fragment's lists; a known one keeps its position and gets the fragment's events, functions and types appended; other namespaces are unchanged and the table stays well formed |
| SchemaResolver.MergedAll | src/lib/api-schema-loader.js:114-137 | merging fragments keeps every namespace already present and adds the namespace of every fragment, with the table well formed |
| SchemaResolver.MergedEntry | src/lib/api-schema-loader.js:114-137 | a namespace is in the table exactly when some fragment names it, and its events, functions and types are those of its fragments concatenated in arrival order |
| SchemaResolver.NamespaceDefsContent | src/lib/api-schema-loader.js:134-136 | every fragment's namespace is recorded as a namespace record, every other entry of `defsById` is kept, and nothing else is added |
| SchemaResolver.BaseTypes | src/lib/api-schema-loader.js:223-233 | every entry of `typesById` is a type of the namespace without `$extend`, keyed by its own id |
| SchemaResolver.ExtendsByTarget | src/lib/api-schema-loader.js:223-233 | every target maps to a non-empty list of the namespace's types whose `$extend` is that target |
| SchemaResolver.BaseTypesKeys | src/lib/api-schema-loader.js:223-233 | the types without `$extend` are keyed by id in order of first sight |
| SchemaResolver.BaseTypesEntry | src/lib/api-schema-loader.js:223-233 | a key maps to the last type without `$extend` carrying that id |
| SchemaResolver.BaseTypesAbsent | src/lib/api-schema-loader.js:223-233 | an id that is not a key is carried only by `$extend` items, or by no type at all |
| SchemaResolver.ExtendsByTargetEntry | src/lib/api-schema-loader.js:223-233 | a target is a key exactly when some `$extend` item names it, and it maps to those items in order |
| SchemaResolver.ApplyExtensions | src/lib/api-schema-loader.js:235-261 | on success every target is a declared base type and the keys keep their order; an error is `ExtendedTypeNotFound` of a target no base type declares |
| SchemaResolver.ApplyExtensionsResult | src/lib/api-schema-loader.js:235-261 | applying the extensions fails exactly when some target has no base type, with the first such target's error; on success each base type is extended by its items' choices (when it has choices) and the order is kept |
| SchemaResolver.ApplyExtensionsFails | src/lib/api-schema-loader.js:235-261 | the extension merge fails exactly when `FirstMissing` finds a target without base type, and its error names that target |
| SchemaResolver.ApplyExtensionsExtends | src/lib/api-schema-loader.js:235-261 | when the merge succeeds, every base type is `Extended` by the items aimed at it, the others untouched |
| SchemaResolver.FirstMissing | src/lib/api-schema-loader.js:236-241 | the position of the first target no base type declares: every earlier target is declared |
| SchemaResolver.ExtendedIsExtendedBy | src/lib/api-schema-loader.js:235-261 | the type a target ends up as depends only on its own `$extend` items, in order |
| SchemaResolver.TypePass | src/lib/api-schema-loader.js:219-270 | a type pass keeps the namespace table well formed with the same namespaces in the same order, only adds edges, and can fail only with `ExtendedTypeNotFound` |
| SchemaResolver.TypePassResult | src/lib/api-schema-loader.js:219-270 | a type pass fails exactly when some `$extend` target has no base type; on success only this namespace's types change, they become the extended base types in order, each is recorded in `defsById`, and one membership edge per type is appended |
| SchemaResolver.TypeDefsContent | src/lib/api-schema-loader.js:263-269 | each type id holds the record (kind type, the namespace) of the last type with that id; other entries are kept and nothing else is added |
| SchemaResolver.TypeEdges | src/lib/api-schema-loader.js:265-269 | one edge `(type id, namespace)` per type, in order |
| SchemaResolver.ParameterEdges | src/lib/api-schema-loader.js:168-187 | every parameter with a truthy `$ref` gives an edge from the reference's last segment to the member; every edge points at the member from a dot-free source |
| SchemaResolver.ParameterEdgesSound | src/lib/api-schema-loader.js:168-187 | every parameter edge comes from the last segment of some parameter's truthy `$ref` |
| SchemaResolver.ReturnsEdges | src/lib/api-schema-loader.js:189-203 | there is no edge, or exactly one, from the non-empty, dot-free last segment of the return's `$ref` to the member |
| SchemaResolver.WithIds | src/lib/api-schema-loader.js:157-158 | every member, in order, gets the id `<namespace>$<name>` |
| SchemaResolver.MemberEdgesContent | src/lib/api-schema-loader.js:150-217 | a member's edges include its membership edge, one per referenced parameter (and extra parameter for events) and one for a referenced return; every other edge points at the member from the last segment of a parameter's, the return's or (for events) an extra parameter's reference |
| SchemaResolver.MemberDefsContent | src/lib/api-schema-loader.js:150-217 | each member id holds the record (its kind, the namespace) of the last member with that id; other entries are kept and nothing else is added |
| SchemaResolver.AllMemberEdgesComplete | src/lib/api-schema-loader.js:150-217 | a pass adds the edges of every one of its members |
| SchemaResolver.AllMemberEdgesSound | src/lib/api-schema-loader.js:150-217 | a pass adds no edge that is not one of its members' edges |
| SchemaResolver.MemberPass | src/lib/api-schema-loader.js:150-217 | a function or event pass keeps the namespace table well formed, with the same namespaces in the same order |
| SchemaResolver.TypePasses | src/lib/api-schema-loader.js:140-142 | the type passes keep the same namespaces in the same order |
| SchemaResolver.MemberPasses | src/lib/api-schema-loader.js:144-147 | the member passes keep the same namespaces in the same order |
| SchemaResolver.TypePassesKeepMembers | src/lib/api-schema-loader.js:219-270 | the type passes leave every namespace's functions and events as they are |
| SchemaResolver.MemberPassesUntouched | src/lib/api-schema-loader.js:144-147 | the passes of other namespaces leave a namespace's entry as it is |
| SchemaResolver.MemberPassesKeepEdges | src/lib/api-schema-loader.js:144-147 | edges are only ever added: every edge present before the member passes is still there after them |
| SchemaResolver.MemberPassesRegister | src/lib/api-schema-loader.js:144-147 | the member passes over distinct namespaces add the edges of every function and event of each of them |
| SchemaResolver.ProcessAllRegistersMembers | src/lib/api-schema-loader.js:139-148 | after a successful resolution, every edge of every function and event is in the graph |
| SchemaResolver.DependenciesFirst | src/lib/api-schema-loader.js:139-148 | in any topological order of the resolved graph, every definition a member refers to comes before the member, and the member comes before its namespace |
| DepsGraph.WithNode | src/lib/api-schema-loader.js:160 | adding a node keeps the node list free of repetitions and adds exactly that node |
| DepsGraph.NodesOf | src/lib/api-schema-loader.js:376 | the graph's nodes are listed once each and include both ends of every edge |
| DepsGraph.FirstReady | src/lib/api-schema-loader.js:376 | the first remaining node with no remaining predecessor, or none when every remaining node has one |
| DepsGraph.Kahn | src/lib/api-schema-loader.js:376 | the sort gives a topological order of the graph, or a cycle error exactly when none exists |
| DepsGraph.KahnStep | src/lib/api-schema-loader.js:376 | placing a node that has no remaining predecessor keeps the order placed so far topological |
| DepsGraph.NoOrderWhenBlocked | src/lib/api-schema-loader.js:376 | when every remaining node has a remaining predecessor, the graph has a cycle and no topological order exists |
| DepsGraph.KahnCorrect | src/lib/api-schema-loader.js:376 | the sort returns a topological order of all nodes, or reports a cycle exactly when no topological order exists |
| DepsGraph.EdgeForward | src/lib/api-schema-loader.js:376 | in a topological order the source of each edge comes before its target |
| DepsGraph.Graph.constructor | src/lib/api-schema-loader.js:110 | a new graph has no edges |
| DepsGraph.Graph.Add | src/lib/api-schema-loader.js:160 | adding an edge appends it and keeps everything else |
| DepsGraph.Graph.Sort | src/lib/api-schema-loader.js:376 | the sort of the graph is a topological order of its nodes, or a cycle error when none exists |
| FlowTypesGenerator.ConvertPrimitiveType | src/lib/flow-types-generator.js:45-58 | the five Flow primitives convert to themselves and `integer` to `number`; any other tag is an error |
| FlowTypesGenerator.ConvertReferenceType | src/lib/flow-types-generator.js:60-81 | a reference converts exactly when its last segment names a definition whose id is defined (`ReferencedTypeNotFound` and `UndefinedId` otherwise); the text ends with the definition's id, is `webext$<id>` when the id starts with the namespace and `webext$<ns>$<id>` otherwise, and has `typeof ` in front exactly for a function |
| FlowTypesGenerator.ConvertType | src/lib/flow-types-generator.js:217-234 | a primitive tag always converts; a description that is neither primitive, nor a reference, nor composed is `UnableToConvertType`; converted text is never empty |
| FlowTypesGenerator.ConvertComposedType | src/lib/flow-types-generator.js:83-98 | a union never fails; without `choices` and with a tag other than array, object or function it is `UnknownComposedType`; its text is never empty |
| FlowTypesGenerator.ConvertChoices | src/lib/flow-types-generator.js:100-107 | a union keeps its own primitive tag and is `any` otherwise |
| FlowTypesGenerator.ConvertArray | src/lib/flow-types-generator.js:109-114 | an array without `items` is `MissingArrayItems`; otherwise it converts exactly when its items do, to text `Array<…>` |
| FlowTypesGenerator.ConvertObject | src/lib/flow-types-generator.js:116-152 | an object converts exactly when its supported properties do, even when its additional properties are `any`; the text is `any` in that case, otherwise `{}` or an exact object `{|…|}` |
| FlowTypesGenerator.ObjectText | src/lib/flow-types-generator.js:142-151 | an object body is wrapped as `{|…|}` |
| FlowTypesGenerator.RenderProperties | src/lib/flow-types-generator.js:119-140 | at most one line per property, each starting with the indentation of the level |
| FlowTypesGenerator.ConvertFunction | src/lib/flow-types-generator.js:154-215 | a function without parameters and return is `Function`; any other signature starts with its parameter list in parentheses |
| FlowTypesGenerator.FunctionReturn | src/lib/flow-types-generator.js:185-208 | under the async rewrite the return is a `Promise<…>`; with neither a callback nor `returns` it is `void` |
| FlowTypesGenerator.RenderParameters | src/lib/flow-types-generator.js:167-183 | a converted parameter list has one entry per parameter, and every parameter has a name |
| FlowTypesGenerator.AsyncResult | src/lib/flow-types-generator.js:196-208 | the async result is `Promise<…>`, `Promise<void>` for a callback without arguments |
| FlowTypesGenerator.ConvertCallbackArgs | src/lib/flow-types-generator.js:202-204 | one converted type per remaining callback argument |
| FlowTypesGenerator.LastAsyncCallback | src/lib/flow-types-generator.js:167-173 | the completion callback is the last parameter of type `function` whose name is the function's `async` name |
| FlowTypesProperties.PrimitiveTagWins | src/lib/flow-types-generator.js:217-221 | a primitive `type` tag decides the conversion whatever `$ref` and `choices` say |
| FlowTypesProperties.ReferenceWinsOverComposed | src/lib/flow-types-generator.js:223-225 | a `$ref` decides the conversion over any composed tag, choices, items, properties or parameters |
| FlowTypesProperties.ChoicesDegenerateToAny | src/lib/flow-types-generator.js:84-86 | a description with `choices` and no primitive tag or reference converts to `any` |
| FlowTypesProperties.UnconvertibleDescription | src/lib/flow-types-generator.js:233 | a description that is neither primitive, nor a reference, nor composed is an error |
| FlowTypesProperties.MissingReturnIsVoid | src/lib/flow-types-generator.js:188 | the `{type: "void"}` given to a function without `returns` converts to `void` |
| FlowTypesProperties.ConvertTypeOkIff | src/lib/flow-types-generator.js:217-234 | a conversion succeeds exactly when every part the converter visits is convertible (known references, arrays with items, named parameters, convertible properties, return and callback arguments) |
| FlowTypesProperties.ComposedOkIff | src/lib/flow-types-generator.js:83-98 | a composed conversion succeeds exactly when its parts are convertible |
| FlowTypesProperties.RenderPropertiesOkIff | src/lib/flow-types-generator.js:119-140 | an object's body converts exactly when each of its supported properties does |
| FlowTypesProperties.RenderParametersOkIff | src/lib/flow-types-generator.js:167-183 | a parameter list converts exactly when every parameter has a name and converts |
| FlowTypesProperties.CallbackArgsOkIff | src/lib/flow-types-generator.js:198-205 | a callback's arguments convert exactly when each of them does |
| FlowTypesProperties.AsyncResultOkIff | src/lib/flow-types-generator.js:196-208 | the Promise type converts exactly when each argument of the callback does |
| FlowTypesProperties.FunctionOkIff | src/lib/flow-types-generator.js:154-215 | a function converts exactly when its parameters, its return and, under the async rewrite, its callback's arguments convert |
| FlowTypesProperties.FunctionReturnOkIff | src/lib/flow-types-generator.js:185-208 | a function's return text converts exactly when the return and, under the async rewrite, the callback's arguments convert |
| FlowTypesProperties.SupportedProperties | src/lib/flow-types-generator.js:119-124 | the properties kept are properties of the object that are not marked unsupported, and every such property is kept |
| FlowTypesProperties.SupportedPropertiesAppend | src/lib/flow-types-generator.js:119-124 | filtering two runs of properties one after the other filters each in turn, so the kept properties stay in key order |
| FlowTypesProperties.SupportedProperty | src/lib/flow-types-generator.js:119-124 | a single property is kept exactly when it is not marked unsupported |
| FlowTypesProperties.RenderedPropertyLines | src/lib/flow-types-generator.js:119-140 | the object's body is one line per supported property, in key order |
| FlowTypesProperties.ObjectShape | src/lib/flow-types-generator.js:116-152 | an object converts to `any` when its additional properties are `any`, to `{}` when no supported property is left, and otherwise to the exact object `{| … |}` of its property lines, indented by level |
| FlowTypesProperties.ObjectIndentation | src/lib/flow-types-generator.js:116-152 | an object reached through the converter in a context at level L has each property line indented at level L+1, its properties converted at that level, and its closing `|}` indented at level L |
| FlowTypesProperties.ArrayShape | src/lib/flow-types-generator.js:109-114 | an array without `items` fails with `MissingArrayItems`; otherwise it converts exactly when its items, converted one level deeper, do, and then to `Array<` that text `>` |
| FlowTypesProperties.RenderedParameterLines | src/lib/flow-types-generator.js:167-183 | a converted parameter list is one `name[?]: type` line per parameter, all of them named |
| FlowTypesProperties.ConvertedCallbackArgs | src/lib/flow-types-generator.js:202-204 | the callback's argument types are those of its arguments, in order |
| FlowTypesProperties.AsyncResultShape | src/lib/flow-types-generator.js:196-208 | the Promise resolves to `void` for no argument, to the argument's type for one, and to the tuple of the argument types for several |
| FlowTypesProperties.FunctionReturnShape | src/lib/flow-types-generator.js:185-208 | the return is the Promise under the async rewrite, else the converted return, prefixed with `?` when it is optional and not `any` |
| FlowTypesProperties.FunctionShape | src/lib/flow-types-generator.js:154-215 | a function without parameters and return is `Function`; otherwise it is its parameter lines and return, arrow-style inside a signature and colon-style at the top |
| FlowTypesProperties.AsyncRewrite | src/lib/flow-types-generator.js:167-208 | the completion callback is always rendered optional, and unless the rewrite is disabled the function returns the Promise of its arguments |
| DeclarationEmitter.TypeDeclaration | src/lib/api-schema-loader.js:272-276 | a type is declared as `declare type webext$<namespace>$<id> = …`, and the declaration fails exactly when its description does not convert |
| DeclarationEmitter.FunctionDeclaration | src/lib/api-schema-loader.js:278-301 | a record without description is `MissingDescription`; the declaration succeeds exactly when both overloads (or the single signature) convert, starts with `declare function webext$<id>`, and leaves the shorter overload as the description |
| DeclarationEmitter.EventTypeDef | src/lib/api-schema-loader.js:304-340 | an event's object type has `addListener` and then `removeListener`, both functions of a `listener` followed by the event's extra parameters; the listener of `addListener` has the event's parameters and return |
| DeclarationEmitter.EventDeclaration | src/lib/api-schema-loader.js:303-346 | a record without event is `MissingDescription`; otherwise the record is renamed to the event's name (undefined when it has none) with the event object type, and declared under that name; an error means the event type does not convert |
| DeclarationEmitter.NamespaceProperties | src/lib/api-schema-loader.js:351-366 | every event and function name of the namespace is a property, and a function's property is a `typeof-$ref` |
| DeclarationEmitter.NamespaceDeclaration | src/lib/api-schema-loader.js:348-373 | a record naming no namespace is `UndefinedNamespace`; otherwise the record gets the namespace object type and its own id as namespace, and is declared as `webext$<id>$<id>` |
| DeclarationEmitter.Declarations | src/lib/api-schema-loader.js:378-396 | one declaration per node of the order |
| DeclarationEmitter.Globals | src/lib/api-schema-loader.js:398-414 | the `chrome` global comes first and the `browser` global last, over the same body |
| DeclarationEmitter.FlowOutput | src/lib/api-schema-loader.js:375-415 | a cycle is `CyclicDependency`; on success the sort and every declaration succeeded, and the output ends with the globals |
| DeclarationEmitter.ExposedNamespaces | src/lib/api-schema-loader.js:403-407 | the globals expose exactly the namespaces other than `manifest`, `events` and `extensionTypes` |
| EmitterProperties.TopLevelSignature | src/lib/api-schema-loader.js:278-301 | a function description declared at the top converts to its colon-style signature |
| EmitterProperties.OverloadDeclarations | src/lib/api-schema-loader.js:281-296 | a function whose first parameter is optional and second is not is declared twice, first without its first parameter and then with it required, and its record keeps the shorter form |
| EmitterProperties.SingleDeclaration | src/lib/api-schema-loader.js:297-300 | any other function with parameters or a return is declared once, as its colon-style signature, with its record unchanged |
| EmitterProperties.BareFunctionDeclaration | src/lib/api-schema-loader.js:299-300 | a function with neither parameters nor a return converts to `Function`, so it is declared as `declare function webext$<id>Function;` |
| EmitterProperties.TypeReferenceMatchesDeclaration | src/lib/flow-types-generator.js:73-78 | a reference to a registered type, with or without a namespace prefix, converts to the name the type's declaration declares, provided the type's id does not start with its namespace name |
| EmitterProperties.TypeReferenceMisnamed | src/lib/flow-types-generator.js:73-75 | when a type's id does start with its namespace name, a reference to it converts to `webext$<id>`, which is not the name its declaration declares |
| EmitterProperties.MemberIdWithoutDot | src/lib/api-schema-loader.js:157-158 | a member's id starts with its namespace, has no dot and is not empty |
| EmitterProperties.FunctionReferenceMatchesDeclaration | src/lib/api-schema-loader.js:360-362 | a namespace's property for a function is `typeof` the name that function's declaration declares |
| EmitterProperties.EventReferenceMatchesDeclaration | src/lib/api-schema-loader.js:303-346 | a namespace's property for a named event converts to the name the event's declaration declares, provided the event's name does not start with its namespace name |
| EmitterProperties.NamelessEventReferenceFails | src/lib/api-schema-loader.js:342-345 | declaring an event without `name` leaves its record's id undefined, and the namespace's property for it then fails to convert with `UndefinedId` |
| EmitterProperties.EventListeners | src/lib/api-schema-loader.js:311-340 | an event's object type has `addListener`, taking a listener of the event's parameters and return and then the extra parameters, and `removeListener`, taking any function and then the same extra parameters |
| EmitterProperties.NamespacePropertiesKeys | src/lib/api-schema-loader.js:351-362 | a namespace's properties are its event and function names, once each, in order of first sight |
| EmitterProperties.NamespacePropertiesFunction | src/lib/api-schema-loader.js:359-362 | the last function with a name gives that property a `typeof` reference to it |
| EmitterProperties.NamespacePropertiesEvent | src/lib/api-schema-loader.js:352-355 | an event whose name no later event or function takes gives that property a reference to it |
| EmitterProperties.GlobalsBodyLines | src/lib/api-schema-loader.js:398-407 | the globals' body is one line `<ns>: webext$<ns>$<ns>,` per exposed namespace, in order |
| EmitterProperties.GlobalsExposeNamespaces | src/lib/api-schema-loader.js:398-414 | `chrome` and `browser` are declared over the same body of exposed namespaces |
| EmitterProperties.DeclarationAt | src/lib/api-schema-loader.js:378-396 | the i-th chunk of the output is the declaration of the i-th node of the order, made against the table as the earlier declarations left it |
| EmitterProperties.KahnOrder | src/lib/api-schema-loader.js:376 | the order declarations are made in is topological |
| EmitterProperties.MemberDeclaredBeforeDependents | src/lib/api-schema-loader.js:375-396 | in the output order, every definition a function or event refers to is declared before it, and it is declared before its namespace |
| Schema.LastSegmentOfPlainName | src/lib/flow-types-generator.js:66 | a reference without dots looks up its own name |
| Schema.LastSegmentAfterDot | src/lib/flow-types-generator.js:66 | `ns.X` and `X` look up the same definition |
| Schema.OrderedMap.Set | src/lib/api-schema-loader.js:114-137 | setting a present key replaces its value and keeps the key order; a new key goes last |

## Left out

- Reading directories and files, `strip-json-comments` and `JSON.parse` are not modelled. A directory is its listing with the documents already parsed, and a document is an array of namespace fragments or something else.
- The `tsort` package is not part of this model. `DepsGraph.Graph.Sort` is Kahn's algorithm taking the first ready node. It is proved to return some topological order, or a cycle error exactly when none exists. The particular order `tsort` picks among the valid ones is not modelled.
- `Object.keys` lists integer-like keys first in JavaScript. The ordered map keeps plain insertion order. Schema namespaces, ids and member names are not integer-like, so the two orders agree on real schemas.
- Aliasing between the records of the namespace table and the `defsById` table is not modelled: both hold values. The emitters rewrite `defsById` entries, which is what later conversions read.
- SchemaCollectionManager.ProcessNamespaceTypes: on an `$extend` error the source has already appended, in place, the items' choices to every earlier target that has `choices`. Those target objects are the ones the namespace's type list still holds. The source has not yet replaced that list or registered any type. The model leaves the whole state unchanged on error. A failure is fatal and the manager is then discarded, so nothing observes the difference.
- SchemaCollectionManager.ProcessNamespaces: after an error, the contract states only the error, not the partial state.
- SchemaCollectionManager.DeclareFunctionToFlow: the source rewrites the record's parameters before converting the shorter overload. The model commits the rewrite only when both conversions succeed. A failed conversion is fatal, so the difference is never observed.
- The throws "Unexpected nested reference", "Unable to find mixins" and "Unexpected missing property" cannot be reached from parsed JSON through the modelled paths, so they are not modelled.
- TypeErrors the source would raise by dereferencing something missing become named errors: `MissingArrayItems`, `UndefinedDefinition`, `UndefinedNamespace`, `MissingDescription` and `UndefinedId`. A type without `id` and an event without `name` keep an undefined id in the model (`None`). A later reference to such a record fails with `UndefinedId`, where the source throws a TypeError on `refDef.id.startsWith`.
- Inside `convertChoices`, the branch that returns a primitive tag is never reached from `convertType`, because a primitive tag is tested first. The model converts every remaining `choices` description to `any`, as the code does.
- A namespace with no types, functions or events gets no graph node. It is therefore not declared, yet the globals still name it, as in the source.
- A reference resolves to `webext$<id>` whenever the id starts with the namespace name as a string, whether or not a separator follows. This is modelled as written.
- `declareEventToFlow` sets a field misspelled `optiona` on every extra parameter. The converter never reads that field, so the loop has no effect on the output and is left out.
- A namespace name with a dot gives its members ids with a dot. A reference is looked up by its last dotted segment only, so such a member is not found when its namespace is declared (`ReferencedTypeNotFound`). This is modelled as written. The lemmas about member references assume dot-free names.
- The command-line entry point, `src/lib/index.js` (it writes the output file) and the test fixtures are not part of this model.
- SchemaResolver.MergedAll: its own contract states only which namespaces are present. The order of the keys and the content of each entry are stated by `MergedKeys` and `MergedEntry`.
- SchemaResolver.BaseTypes: its own contract states only that each entry is a non-extension type under its own id. The keys and which type wins are stated by `BaseTypesKeys`, `BaseTypesEntry` and `BaseTypesAbsent`.
- SchemaResolver.ExtendsByTarget: its own contract states only that each target maps to items aimed at it. Completeness and order are stated by `ExtendsByTargetEntry`.
- SchemaResolver.ApplyExtensions: its own contract states only the keys and which targets make it fail. The first failing target and the extended types are stated by `ApplyExtensionsResult`.
- SchemaResolver.TypePass: its own contract states only that the namespaces and earlier edges are kept. The full result is stated by `TypePassResult`.
- SchemaResolver.ParameterEdges: its own contract does not say where each edge comes from. `ParameterEdgesSound` states that.
- FlowTypesGenerator.ConvertType: its own contract states only the primitive and unconvertible cases and that text is not empty. When a conversion succeeds and the text it produces are stated by `ConvertTypeOkIff` and the other `FlowTypesProperties` lemmas.
- FlowTypesGenerator.ConvertComposedType: its own contract states only unions and unknown tags. The other cases are stated by `ComposedOkIff`, `ObjectShape`, `ArrayShape` and `FunctionShape`.
- FlowTypesGenerator.ConvertObject: its own contract states the outcome and the outer form of the text. The lines are stated by `ObjectShape` and `ObjectIndentation`.
- FlowTypesGenerator.ObjectText: its own contract states only the outer brackets. The separators and indentation are stated by `ObjectShape` and `ObjectIndentation`.
- FlowTypesGenerator.RenderProperties: its own contract states only the line count bound and the indentation. Which lines are rendered is stated by `RenderedPropertyLines` and `RenderPropertiesOkIff`.
- FlowTypesGenerator.ConvertFunction: its own contract states only the bare `Function` case and the opening parenthesis. The full text is stated by `FunctionShape`.
- FlowTypesGenerator.FunctionReturn: its own contract states only the Promise and `void` cases. The full text is stated by `FunctionReturnShape`.
- FlowTypesGenerator.RenderParameters: its own contract states only the count and the names. The lines are stated by `RenderedParameterLines`.
- FlowTypesGenerator.AsyncResult: its own contract states only the `Promise<…>` form. The argument types are stated by `AsyncResultShape`.
- FlowTypesGenerator.ConvertCallbackArgs: its own contract states only the count. The types are stated by `ConvertedCallbackArgs`.
- DeclarationEmitter.NamespaceProperties: its own contract states only which names are properties. Their order and values are stated by `NamespacePropertiesKeys`, `NamespacePropertiesFunction` and `NamespacePropertiesEvent`.
- DeclarationEmitter.Declarations: its own contract states only the count. The text of each declaration is stated by `DeclarationAt`.
- DeclarationEmitter.FlowOutput: its own contract states only the error of a cycle and the trailing globals. The declarations are stated by `FlowOutputOk`.
- ApiSchemaLoader.CollectedFromDir: its own contract states only where the schemas come from. Their exact content is stated by `CollectedFromDirResult`.
- ApiSchemaLoader.CollectedFromDirs: its own contract states only where the schemas come from. What it computes, and which error it returns, are stated by `CollectedFromDirsResult`.
