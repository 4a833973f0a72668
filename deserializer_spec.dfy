/**
  A pure model of the object-graph deserializer (Alsing.Serialization.DeserializerEngine).

  The document is an already-parsed tree of nodes. The engine's state is a record of its two
  lookup tables, an arena holding every instance it has created (an instance's identity is its
  address in the arena), and a log of the notifications it has raised. Every operation of the
  engine is a function from the state before to the state after and, since the C# code throws,
  an optional error; a thrown exception leaves the changes made before it in place.

  Reflection is replaced by a Runtime: a type resolver (Type.GetType), a table of field types per
  type (GetAnyField, IList, Activator.CreateInstance) and an uninterpreted converter from text to a
  value (TypeDescriptor.GetConverter(...).ConvertFromString).
*/
module DeserializerSpec {
  import opened Wrappers

  // ---------------------------------------------------------------- data model

  /** A parsed markup element: its name, its attributes and its child elements in document order. */
  datatype Node = Node(name: string, attrs: map<string, string>, children: seq<Node>)

  /** A resolved runtime type, identified by its full name. */
  type TypeId = string

  /** What reflection reports about a type: its fields (inherited and non-public ones included)
      with their declared types, whether its instances are growable lists, and whether it has a
      parameterless constructor. */
  datatype TypeInfo = TypeInfo(fields: map<string, TypeId>, isList: bool, creatable: bool)

  /** A runtime value: null, a reference to an instance in the arena, or a value a converter produced. */
  datatype Value = Null | Ref(addr: nat) | Boxed(ty: TypeId, text: string)

  /** The foreign type machinery the engine calls into. */
  datatype Runtime = Runtime(
    resolve: string -> Option<TypeId>,
    types: map<TypeId, TypeInfo>,
    convert: (TypeId, string) -> Option<Value>)

  /** The handlers attached to the engine's two events: whether a FieldMissing handler is attached,
      and the TypeMissing handler, which may supply a substitute type. */
  datatype Hooks = Hooks(fieldMissing: bool, typeMissing: Option<string -> Option<TypeId>>)

  datatype Env = Env(rt: Runtime, hooks: Hooks)

  /** An object in the arena: its type, the fields deserialization has assigned (a field that is
      absent keeps its default value) and, for a list, its elements. */
  datatype Instance = Instance(ty: TypeId, fields: map<string, Value>, items: seq<Value>)

  /** One invocation of an event handler. */
  datatype HookEvent =
    | TypeMissing(typeName: string)
    | FieldMissing(fieldName: string, instance: Value, value: Value)

  /** The exceptions the engine can raise. */
  datatype Error =
    | NullReference                          // a missing attribute, node or instance was dereferenced
    | MissingId(id: string)                  // objectLookup[id] missed (KeyNotFoundException)
    | MissingAlias(alias: string)            // typeLookup[alias] missed (KeyNotFoundException)
    | UnknownNodeName(name: string)          // a dispatch table has no entry (KeyNotFoundException)
    | DuplicateAlias(alias: string)          // typeLookup.Add found the alias present (ArgumentException)
    | DuplicateId(id: string)                // objectLookup.Add found the id present (ArgumentException)
    | ArgumentNull                           // TypeDescriptor.GetConverter was given a null type
    | MissingConstructor(ty: TypeId)         // Activator.CreateInstance found no parameterless constructor
    | ConversionFailed(ty: TypeId, text: string)

  /** The engine's fields: typeLookup and objectLookup, plus the arena and the ghost log of events. */
  datatype State = State(
    typeLookup: map<string, Option<TypeId>>,
    objectLookup: map<string, Value>,
    arena: seq<Instance>,
    trace: seq<HookEvent>)

  /** The state after an operation that returns nothing, and the exception it raised, if any. */
  datatype Run = Run(st: State, err: Option<Error>)

  /** The state after an operation that returns a value, and that value or the exception raised. */
  datatype Produced = Produced(st: State, res: Result<Value, Error>)

  /** The entries of the two dispatch tables. */
  datatype Factory = CreateAnyFactory
  datatype SetupMethod = SetupObjectMethod | SetupListMethod | SetupArrayMethod

  function FactoryMethodLookup(): map<string, Factory>
  {
    map["object" := CreateAnyFactory, "list" := CreateAnyFactory, "array" := CreateAnyFactory]
  }

  function SetupMethodLookup(): map<string, SetupMethod>
  {
    map["object" := SetupObjectMethod, "list" := SetupListMethod, "array" := SetupArrayMethod]
  }

  // ---------------------------------------------------------------- document access

  /** node.Attributes[key]: the attribute's value, or None for a null attribute. */
  function Attr(n: Node, key: string): Option<string>
  {
    if key in n.attrs then Some(n.attrs[key]) else None
  }

  /** The first node of `ns` with the given name (the XmlNode indexer). */
  function FirstNamed(ns: seq<Node>, name: string): (r: Option<Node>)
    ensures r.Some? ==> r.value in ns && r.value.name == name
    ensures r.Some? ==> exists k :: 0 <= k < |ns| && ns[k] == r.value && forall j :: 0 <= j < k ==> ns[j].name != name
    ensures r.None? ==> forall i :: 0 <= i < |ns| ==> ns[i].name != name
    decreases |ns|
  {
    if ns == [] then None
    else if ns[0].name == name then Some(ns[0])
    else
      var r' := FirstNamed(ns[1..], name);
      if r'.Some? then
        var k :| 0 <= k < |ns[1..]| && ns[1..][k] == r'.value && forall j :: 0 <= j < k ==> ns[1..][j].name != name;
        assert ns[k + 1] == r'.value && forall j :: 0 <= j < k + 1 ==> ns[j].name != name;
        r'
      else r'
  }

  // ---------------------------------------------------------------- reflection

  function InfoOf(rt: Runtime, t: TypeId): TypeInfo
  {
    if t in rt.types then rt.types[t] else TypeInfo(map[], false, false)
  }

  /** instance.GetType(), where the instance is not null. */
  function TypeOfInstance(arena: seq<Instance>, v: Value): Option<TypeId>
  {
    match v
    case Null => None
    case Ref(a) => if a < |arena| then Some(arena[a].ty) else None
    case Boxed(t, _) => Some(t)
  }

  /** GetAnyField: the declared type of the named field, or None when the type has no such field. */
  function GetAnyField(rt: Runtime, arena: seq<Instance>, inst: Value, name: string): Option<TypeId>
  {
    match TypeOfInstance(arena, inst)
    case None => None
    case Some(t) =>
      var fields := InfoOf(rt, t).fields;
      if name in fields then Some(fields[name]) else None
  }

  /** `instance as IList` is not null. */
  predicate IsList(rt: Runtime, arena: seq<Instance>, inst: Value)
  {
    inst.Ref? && inst.addr < |arena| && InfoOf(rt, arena[inst.addr].ty).isList
  }

  /** TypeDescriptor.GetConverter(type).ConvertFromString(text). */
  function Convert(env: Env, ty: Option<TypeId>, text: string): Result<Value, Error>
  {
    match ty
    case None => Err(ArgumentNull)
    case Some(t) =>
      match env.rt.convert(t, text)
      case None => Err(ConversionFailed(t, text))
      case Some(v) => Ok(v)
  }

  /** field.SetValue(instance, value). */
  function SetField(s: State, inst: Value, name: string, v: Value): State
  {
    if inst.Ref? && inst.addr < |s.arena| then
      var o := s.arena[inst.addr];
      s.(arena := s.arena[inst.addr := o.(fields := o.fields[name := v])])
    else s
  }

  /** list.Add(value) on the list at address a. */
  function Append(s: State, a: nat, v: Value): State
  {
    if a < |s.arena| then
      var o := s.arena[a];
      s.(arena := s.arena[a := o.(items := o.items + [v])])
    else s
  }

  // ---------------------------------------------------------------- events

  /** OnFieldMissing: the handler, when one is attached, is invoked once. */
  function OnFieldMissing(env: Env, s: State, fieldName: string, inst: Value, v: Value): State
  {
    if env.hooks.fieldMissing then s.(trace := s.trace + [FieldMissing(fieldName, inst, v)]) else s
  }

  /** OnTypeMissing: the substitute type the handler supplies (None when no handler is attached),
      and the state after the handler was invoked. */
  function OnTypeMissing(env: Env, s: State, typeName: string): (Option<TypeId>, State)
  {
    match env.hooks.typeMissing
    case None => (None, s)
    case Some(handler) => (handler(typeName), s.(trace := s.trace + [TypeMissing(typeName)]))
  }

  // ---------------------------------------------------------------- types pass

  /** One node of the `types` section: resolve its full name and register it under its alias. */
  function RegisterType(env: Env, s: State, n: Node): Run
  {
    if "alias" !in n.attrs || "full-name" !in n.attrs then Run(s, Some(NullReference))
    else
      var alias, fullName := n.attrs["alias"], n.attrs["full-name"];
      var resolved := env.rt.resolve(fullName);
      var (ty, s1) := if resolved.Some? then (resolved, s) else OnTypeMissing(env, s, fullName);
      if alias in s1.typeLookup then Run(s1, Some(DuplicateAlias(alias)))
      else Run(s1.(typeLookup := s1.typeLookup[alias := ty]), None)
  }

  function TypesPass(env: Env, s: State, ns: seq<Node>): Run
    decreases |ns|
  {
    if ns == [] then Run(s, None)
    else
      var r := RegisterType(env, s, ns[0]);
      if r.err.Some? then r else TypesPass(env, r.st, ns[1..])
  }

  // ---------------------------------------------------------------- create pass

  /** CreateAny: null for an alias whose type is missing, otherwise a new instance of the type. */
  function CreateAny(env: Env, s: State, n: Node): Produced
  {
    match Attr(n, "type")
    case None => Produced(s, Err(NullReference))
    case Some(alias) =>
      if alias !in s.typeLookup then Produced(s, Err(MissingAlias(alias)))
      else
        match s.typeLookup[alias]
        case None => Produced(s, Ok(Null))
        case Some(t) =>
          if !InfoOf(env.rt, t).creatable then Produced(s, Err(MissingConstructor(t)))
          else Produced(s.(arena := s.arena + [Instance(t, map[], [])]), Ok(Ref(|s.arena|)))
  }

  /** One node of the `objects` section in the create pass: dispatch on the node name, create,
      and register the result under the node's id. */
  function CreateStep(env: Env, s: State, n: Node): Run
  {
    match Attr(n, "id")
    case None => Run(s, Some(NullReference))
    case Some(id) =>
      if n.name !in FactoryMethodLookup() then Run(s, Some(UnknownNodeName(n.name)))
      else
        var p := CreateAny(env, s, n);
        match p.res
        case Err(e) => Run(p.st, Some(e))
        case Ok(v) =>
          if id in p.st.objectLookup then Run(p.st, Some(DuplicateId(id)))
          else Run(p.st.(objectLookup := p.st.objectLookup[id := v]), None)
  }

  function CreatePass(env: Env, s: State, ns: seq<Node>): Run
    decreases |ns|
  {
    if ns == [] then Run(s, None)
    else
      var r := CreateStep(env, s, ns[0]);
      if r.err.Some? then r else CreatePass(env, r.st, ns[1..])
  }

  // ---------------------------------------------------------------- setup of objects

  /** The value a `field` node assigns, as a decision table: an `id-ref` that is not in the id
      table throws; otherwise `value` wins (converted with the alias type when `type` is present,
      with the field's own type otherwise), then `id-ref`, and null is the default. */
  function FieldValue(env: Env, s: State, f: Node, fieldType: Option<TypeId>): Result<Value, Error>
  {
    var idRef, text, alias := Attr(f, "id-ref"), Attr(f, "value"), Attr(f, "type");
    if idRef.Some? && idRef.value !in s.objectLookup then Err(MissingId(idRef.value))
    else if text.Some? then
      if fieldType.None? then Err(NullReference)
      else if alias.Some? && alias.value !in s.typeLookup then Err(MissingAlias(alias.value))
      else Convert(env, if alias.Some? then s.typeLookup[alias.value] else fieldType, text.value)
    else if idRef.Some? then Ok(s.objectLookup[idRef.value])
    else Ok(Null)
  }

  /** One child of an `object` node: a `field` node sets the named field of the instance, or
      notifies FieldMissing when the instance's type has no such field; other nodes are ignored. */
  function FieldStep(env: Env, s: State, f: Node, inst: Value): Run
  {
    if f.name != "field" then Run(s, None)
    else if "name" !in f.attrs then Run(s, Some(NullReference))
    else if inst.Null? then Run(s, Some(NullReference))
    else
      var fieldName := f.attrs["name"];
      var field := GetAnyField(env.rt, s.arena, inst, fieldName);
      match FieldValue(env, s, f, field)
      case Err(e) => Run(s, Some(e))
      case Ok(v) =>
        if field.None? then Run(OnFieldMissing(env, s, fieldName, inst, v), None)
        else Run(SetField(s, inst, fieldName, v), None)
  }

  /** SetupObject over the remaining children `fs` of an `object` node. */
  function SetupObject(env: Env, s: State, fs: seq<Node>, inst: Value): Run
    decreases |fs|
  {
    if fs == [] then Run(s, None)
    else
      var r := FieldStep(env, s, fs[0], inst);
      if r.err.Some? then r else SetupObject(env, r.st, fs[1..], inst)
  }

  // ---------------------------------------------------------------- setup of lists

  /** One child of a `list` node, for the list at address a: an `element` node appends null for a
      `null` attribute, then the looked-up instance for `id-ref`, then the converted value for
      `type` and `value` together, the type being resolved from its raw name; other nodes are
      ignored. */
  function ElementStep(env: Env, s: State, e: Node, a: nat): Run
  {
    if e.name != "element" then Run(s, None)
    else
      var s1 := if "null" in e.attrs then Append(s, a, Null) else s;
      if "id-ref" in e.attrs && e.attrs["id-ref"] !in s1.objectLookup then
        Run(s1, Some(MissingId(e.attrs["id-ref"])))
      else
        var s2 := if "id-ref" in e.attrs then Append(s1, a, s1.objectLookup[e.attrs["id-ref"]]) else s1;
        if "type" in e.attrs && "value" in e.attrs then
          match Convert(env, env.rt.resolve(e.attrs["type"]), e.attrs["value"])
          case Err(err) => Run(s2, Some(err))
          case Ok(v) => Run(Append(s2, a, v), None)
        else Run(s2, None)
  }

  function ListElements(env: Env, s: State, es: seq<Node>, a: nat): Run
    decreases |es|
  {
    if es == [] then Run(s, None)
    else
      var r := ElementStep(env, s, es[0], a);
      if r.err.Some? then r else ListElements(env, r.st, es[1..], a)
  }

  /** SetupList: nothing happens unless the instance is a list. */
  function SetupList(env: Env, s: State, n: Node, inst: Value): Run
  {
    if IsList(env.rt, s.arena, inst) then ListElements(env, s, n.children, inst.addr) else Run(s, None)
  }

  // ---------------------------------------------------------------- setup pass

  /** One node of the `objects` section in the setup pass: look its instance up by id and dispatch
      on the node name. SetupArray has an empty body. */
  function SetupStep(env: Env, s: State, n: Node): Run
  {
    match Attr(n, "id")
    case None => Run(s, Some(NullReference))
    case Some(id) =>
      if id !in s.objectLookup then Run(s, Some(MissingId(id)))
      else if n.name !in SetupMethodLookup() then Run(s, Some(UnknownNodeName(n.name)))
      else
        var inst := s.objectLookup[id];
        match SetupMethodLookup()[n.name]
        case SetupObjectMethod => SetupObject(env, s, n.children, inst)
        case SetupListMethod => SetupList(env, s, n, inst)
        case SetupArrayMethod => Run(s, None)
  }

  function SetupPass(env: Env, s: State, ns: seq<Node>): Run
    decreases |ns|
  {
    if ns == [] then Run(s, None)
    else
      var r := SetupStep(env, s, ns[0]);
      if r.err.Some? then r else SetupPass(env, r.st, ns[1..])
  }

  // ---------------------------------------------------------------- deserialize

  /** The children of the `objects` section, or None when the document has no such section. */
  function ObjectNodes(document: Node): Option<seq<Node>>
  {
    match FirstNamed(document.children, "objects")
    case None => None
    case Some(objects) => Some(objects.children)
  }

  /** Deserialize: the types pass, the create pass and the setup pass, then the instance
      registered under id "0". */
  function Deserialize(env: Env, s: State, doc: Node): Produced
  {
    match FirstNamed(doc.children, "document")
    case None => Produced(s, Err(NullReference))
    case Some(document) =>
      var objects := ObjectNodes(document);
      var types := FirstNamed(document.children, "types");
      var t := if types.Some? then TypesPass(env, s, types.value.children) else Run(s, None);
      if t.err.Some? then Produced(t.st, Err(t.err.value))
      else
        var c := if objects.Some? then CreatePass(env, t.st, objects.value) else t;
        if c.err.Some? then Produced(c.st, Err(c.err.value))
        else
          var u := if objects.Some? then SetupPass(env, c.st, objects.value) else c;
          if u.err.Some? then Produced(u.st, Err(u.err.value))
          else if "0" in u.st.objectLookup then Produced(u.st, Ok(u.st.objectLookup["0"]))
          else Produced(u.st, Err(MissingId("0")))
  }
}
