/**
  The deserializer as the C# class has it: an engine object whose lookup tables are fields filled
  in place by three loops. Every method is proved to have exactly the effect that the function of
  the same name in DeserializerSpec gives it, error included.
*/
module Serialization {
  import opened Wrappers
  import opened DeserializerSpec

  class DeserializerEngine {
    /** The reflection and conversion services of the runtime. */
    const runtime: Runtime
    const factoryMethodLookup: map<string, Factory> := FactoryMethodLookup()
    const setupMethodLookup: map<string, SetupMethod> := SetupMethodLookup()

    /** The FieldMissing and TypeMissing events: whether a handler is attached, and which. */
    var fieldMissingHandler: bool
    var typeMissingHandler: Option<string -> Option<TypeId>>

    /** Engine fields: they outlive a single call to Deserialize. */
    var typeLookup: map<string, Option<TypeId>>
    var objectLookup: map<string, Value>

    /** Every instance the engine has created; a Ref value is an address in it. */
    var arena: seq<Instance>

    /** The handler invocations so far. */
    ghost var trace: seq<HookEvent>

    function Environment(): Env
      reads this
    {
      Env(runtime, Hooks(fieldMissingHandler, typeMissingHandler))
    }

    ghost function Snapshot(): State
      reads this
    {
      State(typeLookup, objectLookup, arena, trace)
    }

    constructor (rt: Runtime)
      ensures runtime == rt && !fieldMissingHandler && typeMissingHandler.None?
      ensures Snapshot() == State(map[], map[], [], [])
    {
      runtime := rt;
      fieldMissingHandler := false;
      typeMissingHandler := None;
      typeLookup := map[];
      objectLookup := map[];
      arena := [];
      trace := [];
    }

    method OnFieldMissing(fieldName: string, instance: Value, value: Value)
      modifies this`trace
      ensures Snapshot() == DeserializerSpec.OnFieldMissing(Environment(), old(Snapshot()), fieldName, instance, value)
    {
      if fieldMissingHandler {
        trace := trace + [FieldMissing(fieldName, instance, value)];
      }
    }

    /** Raises TypeMissing for a type that did not resolve; the result is the handler's substitute. */
    method OnTypeMissing(typeName: string) returns (substitution: Option<TypeId>)
      modifies this`trace
      ensures (substitution, Snapshot()) == DeserializerSpec.OnTypeMissing(Environment(), old(Snapshot()), typeName)
    {
      substitution := None;
      if typeMissingHandler.Some? {
        trace := trace + [TypeMissing(typeName)];
        substitution := typeMissingHandler.value(typeName);
      }
    }

    method CreateAny(node: Node) returns (res: Result<Value, Error>)
      modifies this`arena
      ensures Produced(Snapshot(), res) == DeserializerSpec.CreateAny(Environment(), old(Snapshot()), node)
    {
      if "type" !in node.attrs {
        return Err(NullReference);
      }
      var typeAlias := node.attrs["type"];
      if typeAlias !in typeLookup {
        return Err(MissingAlias(typeAlias));
      }
      var ty := typeLookup[typeAlias];
      // a type that is missing yields null
      if ty.None? {
        return Ok(Null);
      }
      if !InfoOf(runtime, ty.value).creatable {
        return Err(MissingConstructor(ty.value));
      }
      arena := arena + [Instance(ty.value, map[], [])];
      res := Ok(Ref(|arena| - 1));
    }

    /** The body of SetupObject's loop, for one child node. The value is computed step by step,
        each present attribute overriding what the previous ones gave. */
    method SetupField(node: Node, instance: Value) returns (err: Option<Error>)
      modifies this`arena, this`trace
      ensures Run(Snapshot(), err) == FieldStep(Environment(), old(Snapshot()), node, instance)
    {
      if node.name != "field" {
        return None;
      }
      if "name" !in node.attrs {
        return Some(NullReference);
      }
      var fieldName := node.attrs["name"];
      if instance.Null? {
        return Some(NullReference);
      }
      var field := GetAnyField(runtime, arena, instance, fieldName);
      var value := Null;
      if "null" in node.attrs {
        // a null attribute leaves the value null
      }
      if "id-ref" in node.attrs {
        if node.attrs["id-ref"] !in objectLookup {
          return Some(MissingId(node.attrs["id-ref"]));
        }
        value := objectLookup[node.attrs["id-ref"]];
      }
      if "value" in node.attrs {
        if field.None? {
          return Some(NullReference);
        }
        var ty := field;
        if "type" in node.attrs {
          if node.attrs["type"] !in typeLookup {
            return Some(MissingAlias(node.attrs["type"]));
          }
          ty := typeLookup[node.attrs["type"]];
        }
        if ty.None? {
          return Some(ArgumentNull);
        }
        var converted := runtime.convert(ty.value, node.attrs["value"]);
        if converted.None? {
          return Some(ConversionFailed(ty.value, node.attrs["value"]));
        }
        value := converted.value;
      }
      if field.None? {
        OnFieldMissing(fieldName, instance, value);
      } else if instance.Ref? && instance.addr < |arena| {
        var o := arena[instance.addr];
        arena := arena[instance.addr := o.(fields := o.fields[fieldName := value])];
      }
      err := None;
    }

    method SetupObject(objectNode: Node, instance: Value) returns (err: Option<Error>)
      modifies this`arena, this`trace
      ensures Run(Snapshot(), err) == DeserializerSpec.SetupObject(Environment(), old(Snapshot()), objectNode.children, instance)
    {
      var nodes := objectNode.children;
      var i := 0;
      while i < |nodes|
        invariant 0 <= i <= |nodes|
        invariant DeserializerSpec.SetupObject(Environment(), old(Snapshot()), nodes, instance)
               == DeserializerSpec.SetupObject(Environment(), Snapshot(), nodes[i..], instance)
      {
        assert nodes[i..][0] == nodes[i] && nodes[i..][1..] == nodes[i + 1..];
        err := SetupField(nodes[i], instance);
        if err.Some? {
          return;
        }
        i := i + 1;
      }
      err := None;
    }

    /** list.Add(value) on the list at address a. */
    method ListAdd(a: nat, value: Value)
      modifies this`arena
      ensures Snapshot() == Append(old(Snapshot()), a, value)
    {
      if a < |arena| {
        var o := arena[a];
        arena := arena[a := o.(items := o.items + [value])];
      }
    }

    /** The body of SetupList's loop, for one child node of the list at address a. */
    method AddElement(node: Node, a: nat) returns (err: Option<Error>)
      modifies this`arena
      ensures Run(Snapshot(), err) == ElementStep(Environment(), old(Snapshot()), node, a)
    {
      if node.name != "element" {
        return None;
      }
      if "null" in node.attrs {
        ListAdd(a, Null);
      }
      if "id-ref" in node.attrs {
        if node.attrs["id-ref"] !in objectLookup {
          return Some(MissingId(node.attrs["id-ref"]));
        }
        var refInstance := objectLookup[node.attrs["id-ref"]];
        ListAdd(a, refInstance);
      }
      if "type" in node.attrs && "value" in node.attrs {
        var ty := runtime.resolve(node.attrs["type"]);
        if ty.None? {
          return Some(ArgumentNull);
        }
        var res := runtime.convert(ty.value, node.attrs["value"]);
        if res.None? {
          return Some(ConversionFailed(ty.value, node.attrs["value"]));
        }
        ListAdd(a, res.value);
      }
      err := None;
    }

    method SetupList(listNode: Node, instance: Value) returns (err: Option<Error>)
      modifies this`arena
      ensures Run(Snapshot(), err) == DeserializerSpec.SetupList(Environment(), old(Snapshot()), listNode, instance)
    {
      if !IsList(runtime, arena, instance) {
        return None;
      }
      var nodes := listNode.children;
      var i := 0;
      while i < |nodes|
        invariant 0 <= i <= |nodes|
        invariant ListElements(Environment(), old(Snapshot()), nodes, instance.addr)
               == ListElements(Environment(), Snapshot(), nodes[i..], instance.addr)
      {
        assert nodes[i..][0] == nodes[i] && nodes[i..][1..] == nodes[i + 1..];
        err := AddElement(nodes[i], instance.addr);
        if err.Some? {
          return;
        }
        i := i + 1;
      }
      err := None;
    }

    /** Arrays are created but their elements are not set up. */
    method SetupArray(arrayNode: Node, instance: Value)
    {
    }

    /** The body of the types loop, for one node of the `types` section. */
    method RegisterType(node: Node) returns (err: Option<Error>)
      modifies this`typeLookup, this`trace
      ensures Run(Snapshot(), err) == DeserializerSpec.RegisterType(Environment(), old(Snapshot()), node)
    {
      if "alias" !in node.attrs || "full-name" !in node.attrs {
        return Some(NullReference);
      }
      var alias := node.attrs["alias"];
      var fullName := node.attrs["full-name"];
      var ty := runtime.resolve(fullName);
      if ty.None? {
        ty := OnTypeMissing(fullName);
      }
      if alias in typeLookup {
        return Some(DuplicateAlias(alias));
      }
      typeLookup := typeLookup[alias := ty];
      err := None;
    }

    /** The body of the create loop, for one node of the `objects` section. */
    method CreateObject(node: Node) returns (err: Option<Error>)
      modifies this`objectLookup, this`arena
      ensures Run(Snapshot(), err) == CreateStep(Environment(), old(Snapshot()), node)
    {
      if "id" !in node.attrs {
        return Some(NullReference);
      }
      var id := node.attrs["id"];
      if node.name !in factoryMethodLookup {
        return Some(UnknownNodeName(node.name));
      }
      var res;
      match factoryMethodLookup[node.name]
      case CreateAnyFactory => res := CreateAny(node);
      if res.Err? {
        return Some(res.error);
      }
      if id in objectLookup {
        return Some(DuplicateId(id));
      }
      objectLookup := objectLookup[id := res.value];
      err := None;
    }

    /** The body of the setup loop, for one node of the `objects` section. */
    method SetupNode(node: Node) returns (err: Option<Error>)
      modifies this`arena, this`trace
      ensures Run(Snapshot(), err) == SetupStep(Environment(), old(Snapshot()), node)
    {
      if "id" !in node.attrs {
        return Some(NullReference);
      }
      var id := node.attrs["id"];
      if id !in objectLookup {
        return Some(MissingId(id));
      }
      var instance := objectLookup[id];
      if node.name !in setupMethodLookup {
        return Some(UnknownNodeName(node.name));
      }
      match setupMethodLookup[node.name]
      case SetupObjectMethod =>
        err := SetupObject(node, instance);
      case SetupListMethod =>
        err := SetupList(node, instance);
      case SetupArrayMethod =>
        SetupArray(node, instance);
        err := None;
    }

    method RegisterTypes(nodes: seq<Node>) returns (err: Option<Error>)
      modifies this`typeLookup, this`trace
      ensures Run(Snapshot(), err) == TypesPass(Environment(), old(Snapshot()), nodes)
    {
      var i := 0;
      while i < |nodes|
        invariant 0 <= i <= |nodes|
        invariant TypesPass(Environment(), old(Snapshot()), nodes) == TypesPass(Environment(), Snapshot(), nodes[i..])
      {
        assert nodes[i..][0] == nodes[i] && nodes[i..][1..] == nodes[i + 1..];
        err := RegisterType(nodes[i]);
        if err.Some? {
          return;
        }
        i := i + 1;
      }
      err := None;
    }

    method CreateAll(nodes: seq<Node>) returns (err: Option<Error>)
      modifies this`objectLookup, this`arena
      ensures Run(Snapshot(), err) == CreatePass(Environment(), old(Snapshot()), nodes)
    {
      var i := 0;
      while i < |nodes|
        invariant 0 <= i <= |nodes|
        invariant CreatePass(Environment(), old(Snapshot()), nodes) == CreatePass(Environment(), Snapshot(), nodes[i..])
      {
        assert nodes[i..][0] == nodes[i] && nodes[i..][1..] == nodes[i + 1..];
        err := CreateObject(nodes[i]);
        if err.Some? {
          return;
        }
        i := i + 1;
      }
      err := None;
    }

    method SetupAll(nodes: seq<Node>) returns (err: Option<Error>)
      modifies this`arena, this`trace
      ensures Run(Snapshot(), err) == SetupPass(Environment(), old(Snapshot()), nodes)
    {
      var i := 0;
      while i < |nodes|
        invariant 0 <= i <= |nodes|
        invariant SetupPass(Environment(), old(Snapshot()), nodes) == SetupPass(Environment(), Snapshot(), nodes[i..])
      {
        assert nodes[i..][0] == nodes[i] && nodes[i..][1..] == nodes[i + 1..];
        err := SetupNode(nodes[i]);
        if err.Some? {
          return;
        }
        i := i + 1;
      }
      err := None;
    }

    /** Reads the types, creates every instance, sets every instance up, and returns the root. */
    method Deserialize(doc: Node) returns (res: Result<Value, Error>)
      modifies this`typeLookup, this`objectLookup, this`arena, this`trace
      ensures Produced(Snapshot(), res) == DeserializerSpec.Deserialize(Environment(), old(Snapshot()), doc)
    {
      var document := FirstNamed(doc.children, "document");
      if document.None? {
        return Err(NullReference);
      }
      var objects := FirstNamed(document.value.children, "objects");
      var types := FirstNamed(document.value.children, "types");

      if types.Some? {
        var err := RegisterTypes(types.value.children);
        if err.Some? {
          return Err(err.value);
        }
      }

      // create all instances
      if objects.Some? {
        var err := CreateAll(objects.value.children);
        if err.Some? {
          return Err(err.value);
        }
      }

      // configure the instances
      if objects.Some? {
        var err := SetupAll(objects.value.children);
        if err.Some? {
          return Err(err.value);
        }
      }

      // return the root
      if "0" !in objectLookup {
        return Err(MissingId("0"));
      }
      res := Ok(objectLookup["0"]);
    }
  }
}
