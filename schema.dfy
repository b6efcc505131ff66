/**
 * The values shared by the whole translation engine: the raw schema node of a
 * WebExtensions JSON schema (every field optional, exactly as parsed), the
 * records of the global definition table, the errors the engine raises, an
 * insertion-ordered map standing for JavaScript `Map`s and object key order,
 * and the few string operations the engine performs.
 */
module Schema {

  datatype Option<T> = None | Some(value: T) {
    function GetOr(default: T): T {
      match this
      case Some(v) => v
      case None => default
    }
  }

  /** Every failure of the engine is fatal; `Err` carries which one. */
  datatype Result<T> = Ok(value: T) | Err(error: Error) {
    predicate IsFailure() {
      Err?
    }
    function PropagateFailure<U>(): Result<U>
      requires Err?
    {
      Err(error)
    }
    function Extract(): T
      requires Ok?
    {
      value
    }
  }

  datatype Error =
    | InvalidFormat(fileName: string, baseDir: string)   // a schema file that is not a JSON array
    | ExtendedTypeNotFound(target: string)               // `$extend` of an id no type declares
    | UnknownPrimitiveType(tag: Option<string>)
    | UnknownComposedType
    | ReferencedTypeNotFound(refId: string)
    | MissingParamName                                   // a function parameter without a name
    | MissingArrayItems                                  // an array without `items` (a TypeError in the source)
    | UnableToConvertType
    | CyclicDependency
    | UndefinedDefinition(id: string)                    // a graph node with no definition (a TypeError in the source)
    | UndefinedNamespace(id: string)
    | MissingDescription(id: string)                     // a definition without its node (a TypeError in the source)
    | UndefinedId(refId: string)                         // a referenced definition whose id is undefined (a TypeError in the source)

  /** An optional JSON array of schema nodes: absent, or present (possibly empty). */
  datatype Nodes = Absent | Present(list: seq<Node>) {
    /** `x || []` */
    function OrEmpty(): seq<Node> {
      if Present? then list else []
    }
  }

  /** An optional JSON object of named schema nodes, in key order. */
  datatype Props = NoProps | Props(entries: seq<Property>)

  datatype Property = Property(key: string, schema: Node)

  /**
   * A schema type description as parsed from JSON. Nothing is normalised:
   * which conversion applies depends on which fields are present, in the order
   * the converter tests them. `typeTag` is the JSON field `type`, `ref` is
   * `$ref`, `extend` is `$extend` and `returnType` is `returns`.
   */
  datatype Node = Node(
    typeTag: Option<string>,
    ref: Option<string>,
    choices: Nodes,
    items: Option<Node>,
    properties: Props,
    additionalProperties: Option<Node>,
    parameters: Nodes,
    returnType: Option<Node>,
    extraParameters: Nodes,
    optional: bool,
    async: Option<string>,
    unsupported: bool,
    extend: Option<string>,
    id: Option<string>,
    name: Option<string>)

  /** The node with no field set, `{}`. */
  const Blank: Node := Node(None, None, Absent, None, NoProps, None, Absent, None, Absent, false, None, false, None, None, None)

  /** JavaScript truthiness of an optional string field: present and not empty. */
  predicate Truthy(s: Option<string>) {
    s.Some? && s.value != ""
  }

  /** An optional string as a template literal renders it. */
  function Str(s: Option<string>): string {
    if s.Some? then s.value else "undefined"
  }

  /** The kind tag of a definition record (its field `type`). */
  datatype DefKind = NamespaceDef | TypeDef | FunctionDef | EventDef

  /**
   * An entry of the global definition table `defsById`. A namespace entry has
   * neither a namespace nor a node until the emitter decorates it; a type entry
   * carries its `typeDef`, a function its `funcDef`, an event its `eventDef`.
   * The `id` is undefined for a type without `id`, and for an event record
   * once the emitter has renamed it after an event without `name`.
   */
  datatype Def = Def(
    kind: DefKind,
    id: Option<string>,
    namespace: Option<string>,
    typeDef: Option<Node>,
    funcDef: Option<Node>,
    eventDef: Option<Node>)

  ghost predicate Distinct<T>(s: seq<T>) {
    forall i, j :: 0 <= i < j < |s| ==> s[i] != s[j]
  }

  /** A map that remembers the order in which its keys were first set. */
  datatype OrderedMap<K(==), V> = OrderedMap(keys: seq<K>, entries: map<K, V>) {
    ghost predicate Valid() {
      Distinct(keys) && (forall k | k in keys :: k in entries) && (forall k | k in entries :: k in keys)
    }

    /** Setting a present key replaces its value in place; a new key goes last. */
    function Set(k: K, v: V): (m: OrderedMap<K, V>)
      requires Valid()
      ensures m.Valid()
      ensures m.entries == entries[k := v]
      ensures k in entries ==> m.keys == keys
      ensures k !in entries ==> m.keys == keys + [k]
    {
      OrderedMap(if k in entries then keys else keys + [k], entries[k := v])
    }

    /** The values in key order. */
    function Values(): (vs: seq<V>)
      requires Valid()
      ensures |vs| == |keys|
      ensures forall i :: 0 <= i < |keys| ==> vs[i] == entries[keys[i]]
    {
      seq(|keys|, i requires 0 <= i < |keys| => entries[keys[i]])
    }
  }

  /** `s` without repetitions, each element kept at its first position. */
  function Dedup<T(==)>(s: seq<T>): (r: seq<T>)
    ensures Distinct(r)
    ensures forall x | x in r :: x in s
    ensures forall x | x in s :: x in r
  {
    if s == [] then []
    else
      var prev := Dedup(s[..|s| - 1]);
      assert forall x | x in s :: x in s[..|s| - 1] || x == s[|s| - 1];
      if s[|s| - 1] in prev then prev else prev + [s[|s| - 1]]
  }

  function EmptyMap<K(==), V>(): (m: OrderedMap<K, V>)
    ensures m.Valid() && m.keys == []
  {
    OrderedMap([], map[])
  }

  /**
   * `s.split(".").pop()`: the part of `s` after its last dot, or all of `s`
   * when it has none. It is the longest suffix of `s` without a dot.
   */
  function LastSegment(s: string): (r: string)
    ensures '.' !in r
    ensures |r| <= |s| && r == s[|s| - |r|..]
    ensures |r| < |s| ==> s[|s| - |r| - 1] == '.'
  {
    if s == [] then []
    else if s[|s| - 1] == '.' then []
    else LastSegment(s[..|s| - 1]) + [s[|s| - 1]]
  }

  predicate StartsWith(s: string, prefix: string) {
    |prefix| <= |s| && s[..|prefix|] == prefix
  }

  predicate EndsWith(s: string, suffix: string) {
    |suffix| <= |s| && s[|s| - |suffix|..] == suffix
  }

  /** A string ends with whatever was appended last. */
  lemma EndsWithAppended(head: string, tail: string)
    ensures EndsWith(head + tail, tail)
  {
    assert (head + tail)[|head|..] == tail;
  }

  /** A string starts with whatever it was built on. */
  lemma StartsWithAppended(head: string, tail: string)
    ensures StartsWith(head + tail, head)
  {
    assert (head + tail)[..|head|] == head;
  }

  /** A suffix of a suffix is a suffix. */
  lemma EndsWithTransitive(s: string, t: string, u: string)
    requires EndsWith(s, t) && EndsWith(t, u)
    ensures EndsWith(s, u)
  {
    assert s[|s| - |u|..] == s[|s| - |t|..][|t| - |u|..];
  }

  /** `parts.join(sep)` */
  function Join(parts: seq<string>, sep: string): string {
    if parts == [] then ""
    else if |parts| == 1 then parts[0]
    else parts[0] + sep + Join(parts[1..], sep)
  }

  /** `new Array(level).fill("  ").join("")` */
  function Indent(level: nat): (r: string)
    ensures |r| == 2 * level
    ensures forall i :: 0 <= i < |r| ==> r[i] == ' '
  {
    if level == 0 then "" else "  " + Indent(level - 1)
  }

  /** Dropping the last element of a sequence without repetitions leaves one, without that element. */
  lemma DistinctInit<T>(s: seq<T>)
    requires s != [] && Distinct(s)
    ensures Distinct(s[..|s| - 1]) && s[|s| - 1] !in s[..|s| - 1]
    ensures forall x | x in s[..|s| - 1] :: x in s
  {
  }

  /** The prefix of a sequence up to its length is the sequence. */
  lemma FullSlice<T>(s: seq<T>)
    ensures s[..|s|] == s
  {
  }

  /** A name without dots is its own last segment: a reference to a plain id looks that id up. */
  lemma {:induction false} LastSegmentOfPlainName(s: string)
    requires '.' !in s
    ensures LastSegment(s) == s
  {
    if s != [] {
      assert s[..|s| - 1] + [s[|s| - 1]] == s;
      LastSegmentOfPlainName(s[..|s| - 1]);
    }
  }

  /** Only the part after the last dot matters: `manifest.X` and `X` name the same definition. */
  lemma {:induction false} LastSegmentAfterDot(prefix: string, s: string)
    requires '.' !in s
    ensures LastSegment(prefix + "." + s) == s
  {
    if s == [] {
      assert (prefix + "." + s)[|prefix + "." + s| - 1] == '.';
    } else {
      var t := prefix + "." + s;
      assert t[..|t| - 1] == prefix + "." + s[..|s| - 1];
      LastSegmentAfterDot(prefix, s[..|s| - 1]);
      assert s[..|s| - 1] + [s[|s| - 1]] == s;
    }
  }

  /** The join of non-empty parts is empty only when there are no parts. */
  lemma {:induction false} JoinEmpty(parts: seq<string>, sep: string)
    requires forall i :: 0 <= i < |parts| ==> parts[i] != ""
    ensures Join(parts, sep) == "" <==> parts == []
  {
    if |parts| > 1 {
      assert |Join(parts, sep)| >= |parts[0]| > 0;
    }
  }
}
