/**
  Properties of the deserializer model: what the types pass registers, what the create pass
  allocates and under which ids, that the setup pass never changes the tables (so that an id-ref
  to any object of the document, earlier or later, resolves), how missing types and fields are
  handled, and what SetupObject and SetupList do to their instance.
*/
module DeserializerProperties {
  import opened Wrappers
  import opened DeserializerSpec

  // ---------------------------------------------------------------- reference definitions

  /** The object nodes of a document: the children of its `objects` section, if any. */
  function DocumentObjects(doc: Node): seq<Node>
  {
    match FirstNamed(doc.children, "document")
    case None => []
    case Some(document) =>
      match ObjectNodes(document)
      case None => []
      case Some(ns) => ns
  }

  /** The ids that the nodes of `ns` carry. */
  function IdsOf(ns: seq<Node>): set<string>
    decreases |ns|
  {
    if ns == [] then {}
    else (if "id" in ns[0].attrs then {ns[0].attrs["id"]} else {}) + IdsOf(ns[1..])
  }

  /** The instance registered under a node's id, or null when there is none. */
  function InstanceOf(t: State, n: Node): Value
  {
    if "id" in n.attrs && n.attrs["id"] in t.objectLookup then t.objectLookup[n.attrs["id"]] else Null
  }

  /** The type an alias is registered with: the resolved type, else the handler's substitute,
      else none. */
  function RegisteredType(env: Env, fullName: string): Option<TypeId>
  {
    match env.rt.resolve(fullName)
    case Some(t) => Some(t)
    case None =>
      match env.hooks.typeMissing
      case None => None
      case Some(handler) => handler(fullName)
  }

  /** The TypeMissing notifications a types section raises: one per entry whose full name does not
      resolve, in document order, when a handler is attached. */
  function TypeMissingEvents(env: Env, ns: seq<Node>): seq<HookEvent>
    decreases |ns|
  {
    if ns == [] then []
    else
      (if env.hooks.typeMissing.Some? && "full-name" in ns[0].attrs
          && env.rt.resolve(ns[0].attrs["full-name"]).None?
       then [TypeMissing(ns[0].attrs["full-name"])] else [])
      + TypeMissingEvents(env, ns[1..])
  }

  /** What the object node `n` was given in the create pass, `types` being the alias table and
      `base` the size of the arena before the pass: null when its alias maps to no type, otherwise
      an instance of that type allocated during the pass. */
  ghost predicate CreatedFor(types: map<string, Option<TypeId>>, base: nat, t: State, n: Node)
  {
    && "type" in n.attrs && n.attrs["type"] in types
    && var v := InstanceOf(t, n);
       match types[n.attrs["type"]]
       case None => v == Null
       case Some(ty) => v.Ref? && base <= v.addr < |t.arena| && t.arena[v.addr].ty == ty
  }

  /** Every entry of the id table is null or the address of an instance in the arena. */
  ghost predicate Valid(s: State)
  {
    forall id :: id in s.objectLookup ==>
      s.objectLookup[id].Null? || (s.objectLookup[id].Ref? && s.objectLookup[id].addr < |s.arena|)
  }

  /** Two different ids never share an instance. */
  ghost predicate DistinctInstances(s: State)
  {
    forall id1, id2 :: id1 in s.objectLookup && id2 in s.objectLookup && id1 != id2 && s.objectLookup[id1].Ref?
      ==> s.objectLookup[id1] != s.objectLookup[id2]
  }

  /** The arena `a2` differs from `a1` at most in the instance at `addr`, which keeps its type. */
  ghost predicate OnlyChanged(a1: seq<Instance>, a2: seq<Instance>, addr: int)
  {
    && |a1| == |a2|
    && (forall b :: 0 <= b < |a1| && b != addr ==> a2[b] == a1[b])
    && (0 <= addr < |a1| ==> a2[addr].ty == a1[addr].ty)
  }

  /** The arena `a2` has the same instances as `a1`, each of the same type. */
  ghost predicate SameTypes(a1: seq<Instance>, a2: seq<Instance>)
  {
    |a1| == |a2| && forall b :: 0 <= b < |a1| ==> a2[b].ty == a1[b].ty
  }

  function AddrOf(v: Value): int
  {
    if v.Ref? then v.addr else -1
  }

  // ---------------------------------------------------------------- types pass

  lemma RegisterTypeEffect(env: Env, s: State, n: Node)
    ensures var r := RegisterType(env, s, n);
      && r.st.objectLookup == s.objectLookup && r.st.arena == s.arena
      && (r.err.Some? ==> r.err.value.NullReference? || r.err.value.DuplicateAlias?)
      && (r.err.None? ==>
            && "alias" in n.attrs && "full-name" in n.attrs && n.attrs["alias"] !in s.typeLookup
            && r.st.typeLookup == s.typeLookup[n.attrs["alias"] := RegisteredType(env, n.attrs["full-name"])]
            && r.st.trace == s.trace + TypeMissingEvents(env, [n]))
  {
    assert [n][1..] == [];
  }

  /** A types pass that succeeds reads an alias and a full name from every entry, and the aliases
      are new and different from one another. */
  lemma {:induction false} TypesPassReadsEntries(env: Env, s: State, ns: seq<Node>)
    requires TypesPass(env, s, ns).err.None?
    ensures forall k :: 0 <= k < |ns| ==>
      "alias" in ns[k].attrs && "full-name" in ns[k].attrs && ns[k].attrs["alias"] !in s.typeLookup
    ensures forall j, k :: 0 <= j < k < |ns| ==> ns[j].attrs["alias"] != ns[k].attrs["alias"]
    decreases |ns|
  {
    if ns != [] {
      var r := RegisterType(env, s, ns[0]);
      var rest := ns[1..];
      RegisterTypeEffect(env, s, ns[0]);
      TypesPassReadsEntries(env, r.st, rest);
      forall k | 1 <= k < |ns|
        ensures ns[k] == rest[k - 1]
      {
      }
    }
  }

  /** A types pass that succeeds registers each alias with the type its full name resolves to (or
      the handler's substitute, or none) and keeps the aliases registered before. */
  lemma {:induction false} TypesPassRegisters(env: Env, s: State, ns: seq<Node>)
    requires TypesPass(env, s, ns).err.None?
    ensures var t := TypesPass(env, s, ns).st;
      forall k :: 0 <= k < |ns| ==>
        && "alias" in ns[k].attrs && "full-name" in ns[k].attrs && ns[k].attrs["alias"] in t.typeLookup
        && t.typeLookup[ns[k].attrs["alias"]] == RegisteredType(env, ns[k].attrs["full-name"])
    ensures var t := TypesPass(env, s, ns).st;
      forall a :: a in s.typeLookup ==> a in t.typeLookup && t.typeLookup[a] == s.typeLookup[a]
    decreases |ns|
  {
    if ns != [] {
      var r := RegisterType(env, s, ns[0]);
      var rest := ns[1..];
      RegisterTypeEffect(env, s, ns[0]);
      TypesPassRegisters(env, r.st, rest);
      assert TypesPass(env, s, ns) == TypesPass(env, r.st, rest);
      forall k | 1 <= k < |ns|
        ensures ns[k] == rest[k - 1]
      {
      }
    }
  }

  /** A types pass that succeeds raises TypeMissing once per entry that does not resolve, in
      document order, when a handler is attached, and touches neither the id table nor the arena. */
  lemma {:induction false} TypesPassNotifies(env: Env, s: State, ns: seq<Node>)
    requires TypesPass(env, s, ns).err.None?
    ensures var t := TypesPass(env, s, ns).st;
      t.trace == s.trace + TypeMissingEvents(env, ns) && t.objectLookup == s.objectLookup && t.arena == s.arena
    decreases |ns|
  {
    if ns != [] {
      var r := RegisterType(env, s, ns[0]);
      var rest := ns[1..];
      RegisterTypeEffect(env, s, ns[0]);
      TypesPassNotifies(env, r.st, rest);
      assert TypesPass(env, s, ns) == TypesPass(env, r.st, rest);
      assert TypeMissingEvents(env, ns) == TypeMissingEvents(env, [ns[0]]) + TypeMissingEvents(env, rest) by {
        assert [ns[0]][1..] == [];
      }
    }
  }

  /** The types pass raises only NullReference (an entry without alias or full name) and
      DuplicateAlias, and never touches the id table or the arena. */
  lemma {:induction false} TypesPassErrors(env: Env, s: State, ns: seq<Node>)
    ensures var r := TypesPass(env, s, ns);
      && (r.err.Some? ==> r.err.value.NullReference? || r.err.value.DuplicateAlias?)
      && r.st.objectLookup == s.objectLookup && r.st.arena == s.arena
    decreases |ns|
  {
    if ns != [] {
      var r := RegisterType(env, s, ns[0]);
      RegisterTypeEffect(env, s, ns[0]);
      if r.err.None? {
        TypesPassErrors(env, r.st, ns[1..]);
      }
    }
  }

  // ---------------------------------------------------------------- create pass

  lemma CreateStepEffect(env: Env, s: State, n: Node)
    ensures var r := CreateStep(env, s, n);
      && r.st.typeLookup == s.typeLookup && r.st.trace == s.trace && s.arena <= r.st.arena
      && (r.err.Some? ==> r.st.objectLookup == s.objectLookup && !r.err.value.MissingId?)
      && (r.err.None? ==>
            && "id" in n.attrs && n.name in FactoryMethodLookup() && n.attrs["id"] !in s.objectLookup
            && r.st.objectLookup == s.objectLookup[n.attrs["id"] := InstanceOf(r.st, n)]
            && CreatedFor(s.typeLookup, |s.arena|, r.st, n)
            && (InstanceOf(r.st, n).Ref? ==>
                  (InstanceOf(r.st, n).addr == |s.arena|
                   && r.st.arena == s.arena + [Instance(r.st.arena[|s.arena|].ty, map[], [])])))
  {
  }

  /** A create pass that succeeds read an id and a known node name from every object node; the
      ids are new and pairwise different; the id table gains exactly these ids and keeps its
      other entries; the alias table and the notifications are untouched and the arena only grows. */
  lemma {:induction false} CreatePassShape(env: Env, s: State, ns: seq<Node>)
    requires CreatePass(env, s, ns).err.None?
    ensures forall k :: 0 <= k < |ns| ==> "id" in ns[k].attrs && ns[k].name in FactoryMethodLookup()
    ensures forall k :: 0 <= k < |ns| ==> ns[k].attrs["id"] !in s.objectLookup
    ensures forall j, k :: 0 <= j < k < |ns| ==> ns[j].attrs["id"] != ns[k].attrs["id"]
    ensures var t := CreatePass(env, s, ns).st;
      && t.objectLookup.Keys == s.objectLookup.Keys + IdsOf(ns)
      && (forall id :: id in s.objectLookup ==> t.objectLookup[id] == s.objectLookup[id])
      && t.typeLookup == s.typeLookup && t.trace == s.trace && s.arena <= t.arena
    decreases |ns|
  {
    if ns != [] {
      var r := CreateStep(env, s, ns[0]);
      var rest := ns[1..];
      CreateStepEffect(env, s, ns[0]);
      CreatePassShape(env, r.st, rest);
      assert forall k :: 1 <= k < |ns| ==> ns[k] == rest[k - 1];
    }
  }

  /** After a create pass that succeeds, every object node has been given what its alias calls
      for (null for a missing type, else a new instance of the type), and no two object nodes
      share an instance. */
  lemma {:induction false} CreatePassInstances(env: Env, s: State, ns: seq<Node>)
    requires CreatePass(env, s, ns).err.None?
    ensures var t := CreatePass(env, s, ns).st;
      && (forall k :: 0 <= k < |ns| ==> CreatedFor(s.typeLookup, |s.arena|, t, ns[k]))
      && (forall j, k :: 0 <= j < k < |ns| && InstanceOf(t, ns[j]).Ref? ==> InstanceOf(t, ns[j]) != InstanceOf(t, ns[k]))
      && (forall k :: 0 <= k < |ns| && InstanceOf(t, ns[k]).Ref? ==>
            (t.arena[InstanceOf(t, ns[k]).addr].fields == map[] && t.arena[InstanceOf(t, ns[k]).addr].items == []))
    decreases |ns|
  {
    if ns != [] {
      var r := CreateStep(env, s, ns[0]);
      var rest := ns[1..];
      var t := CreatePass(env, s, ns).st;
      CreateStepEffect(env, s, ns[0]);
      CreatePassShape(env, s, ns);
      CreatePassShape(env, r.st, rest);
      CreatePassInstances(env, r.st, rest);
      assert forall k :: 1 <= k < |ns| ==> ns[k] == rest[k - 1];
      var id0 := ns[0].attrs["id"];
      assert InstanceOf(t, ns[0]) == InstanceOf(r.st, ns[0]);
      forall k | 1 <= k < |ns|
        ensures CreatedFor(s.typeLookup, |s.arena|, t, ns[k])
      {
        assert CreatedFor(r.st.typeLookup, |r.st.arena|, t, rest[k - 1]);
      }
    }
  }

  /** The create pass raises no MissingId and keeps the alias table and the notifications, even
      when it fails. */
  lemma {:induction false} CreatePassErrors(env: Env, s: State, ns: seq<Node>)
    ensures var r := CreatePass(env, s, ns);
      && (r.err.Some? ==> !r.err.value.MissingId?)
      && r.st.typeLookup == s.typeLookup && r.st.trace == s.trace && s.arena <= r.st.arena
    decreases |ns|
  {
    if ns != [] {
      var r := CreateStep(env, s, ns[0]);
      CreateStepEffect(env, s, ns[0]);
      if r.err.None? {
        CreatePassErrors(env, r.st, ns[1..]);
      }
    }
  }

  /** The create pass keeps every entry of the id table null or a distinct instance in the arena,
      even when it fails. */
  lemma {:induction false} CreatePassKeepsIdentities(env: Env, s: State, ns: seq<Node>)
    requires Valid(s) && DistinctInstances(s)
    ensures Valid(CreatePass(env, s, ns).st) && DistinctInstances(CreatePass(env, s, ns).st)
    decreases |ns|
  {
    if ns != [] {
      var r := CreateStep(env, s, ns[0]);
      CreateStepEffect(env, s, ns[0]);
      assert Valid(r.st) && DistinctInstances(r.st) by {
        if r.err.None? {
          var v := InstanceOf(r.st, ns[0]);
          forall id | id in s.objectLookup && s.objectLookup[id].Ref?
            ensures s.objectLookup[id] != v
          {
          }
        }
      }
      if r.err.None? {
        CreatePassKeepsIdentities(env, r.st, ns[1..]);
      }
    }
  }

  // ---------------------------------------------------------------- setup of objects

  /** The nodes of `ns` with the given name, in document order. */
  function Named(ns: seq<Node>, name: string): seq<Node>
    decreases |ns|
  {
    if ns == [] then []
    else (if ns[0].name == name then [ns[0]] else []) + Named(ns[1..], name)
  }

  /** The field a child of an `object` node assigns: a `field` child that names a field of the
      instance's type and whose value can be computed assigns that value to that field. */
  function FieldAssignment(env: Env, s: State, f: Node, inst: Value): map<string, Value>
  {
    if f.name == "field" && "name" in f.attrs then
      match GetAnyField(env.rt, s.arena, inst, f.attrs["name"])
      case None => map[]
      case Some(ft) =>
        match FieldValue(env, s, f, Some(ft))
        case Err(_) => map[]
        case Ok(v) => map[f.attrs["name"] := v]
    else map[]
  }

  /** The FieldMissing notification a child of an `object` node raises when a handler is attached:
      one for a `field` child naming no field of the instance's type. */
  function FieldMissingEvent(env: Env, s: State, f: Node, inst: Value): seq<HookEvent>
  {
    if f.name == "field" && "name" in f.attrs && GetAnyField(env.rt, s.arena, inst, f.attrs["name"]).None?
       && FieldValue(env, s, f, None).Ok?
    then [FieldMissing(f.attrs["name"], inst, FieldValue(env, s, f, None).value)]
    else []
  }

  /** The fields that the children `fs` of an `object` node assign on the instance, a later
      assignment to the same field overriding an earlier one. */
  function AssignedFields(env: Env, s: State, fs: seq<Node>, inst: Value): map<string, Value>
    decreases |fs|
  {
    if fs == [] then map[] else FieldAssignment(env, s, fs[0], inst) + AssignedFields(env, s, fs[1..], inst)
  }

  /** The FieldMissing notifications the children `fs` of an `object` node raise, in document order. */
  function FieldMissingEvents(env: Env, s: State, fs: seq<Node>, inst: Value): seq<HookEvent>
    decreases |fs|
  {
    if fs == [] then [] else FieldMissingEvent(env, s, fs[0], inst) + FieldMissingEvents(env, s, fs[1..], inst)
  }

  lemma FieldReadsTables(env: Env, s: State, s': State, f: Node, inst: Value)
    requires s'.objectLookup == s.objectLookup && s'.typeLookup == s.typeLookup && SameTypes(s.arena, s'.arena)
    ensures FieldAssignment(env, s', f, inst) == FieldAssignment(env, s, f, inst)
    ensures FieldMissingEvent(env, s', f, inst) == FieldMissingEvent(env, s, f, inst)
  {
    assert TypeOfInstance(s'.arena, inst) == TypeOfInstance(s.arena, inst);
    assert forall ft :: FieldValue(env, s', f, ft) == FieldValue(env, s, f, ft);
  }

  /** Only the tables and the types of the instances matter to what the children of an `object`
      node assign and notify. */
  lemma {:induction false} ObjectSetupReadsTables(env: Env, s: State, s': State, fs: seq<Node>, inst: Value)
    requires s'.objectLookup == s.objectLookup && s'.typeLookup == s.typeLookup && SameTypes(s.arena, s'.arena)
    ensures AssignedFields(env, s', fs, inst) == AssignedFields(env, s, fs, inst)
    ensures FieldMissingEvents(env, s', fs, inst) == FieldMissingEvents(env, s, fs, inst)
    decreases |fs|
  {
    if fs != [] {
      FieldReadsTables(env, s, s', fs[0], inst);
      ObjectSetupReadsTables(env, s, s', fs[1..], inst);
    }
  }

  lemma FieldStepFrame(env: Env, s: State, f: Node, inst: Value)
    ensures var r := FieldStep(env, s, f, inst);
      && r.st.objectLookup == s.objectLookup && r.st.typeLookup == s.typeLookup
      && OnlyChanged(s.arena, r.st.arena, AddrOf(inst))
      && (0 <= AddrOf(inst) < |s.arena| ==> r.st.arena[inst.addr].items == s.arena[inst.addr].items)
      && (r.err.Some? ==> r.st == s && (r.err.value.MissingId? ==> r.err.value.id !in s.objectLookup))
  {
  }

  /** Setting up an object changes no table and, in the arena, at most the fields of its own
      instance; a MissingId it raises names an id that is not in the table. */
  lemma {:induction false} SetupObjectFrame(env: Env, s: State, fs: seq<Node>, inst: Value)
    ensures var r := SetupObject(env, s, fs, inst);
      && r.st.objectLookup == s.objectLookup && r.st.typeLookup == s.typeLookup
      && OnlyChanged(s.arena, r.st.arena, AddrOf(inst))
      && (0 <= AddrOf(inst) < |s.arena| ==> r.st.arena[inst.addr].items == s.arena[inst.addr].items)
      && (r.err.Some? && r.err.value.MissingId? ==> r.err.value.id !in s.objectLookup)
    decreases |fs|
  {
    if fs != [] {
      var r := FieldStep(env, s, fs[0], inst);
      FieldStepFrame(env, s, fs[0], inst);
      if r.err.None? {
        SetupObjectFrame(env, r.st, fs[1..], inst);
      }
    }
  }

  lemma FieldStepAssigns(env: Env, s: State, f: Node, inst: Value)
    requires inst.Ref? && inst.addr < |s.arena|
    requires FieldStep(env, s, f, inst).err.None?
    ensures var t := FieldStep(env, s, f, inst).st;
      && |t.arena| == |s.arena|
      && t.arena[inst.addr].fields == s.arena[inst.addr].fields + FieldAssignment(env, s, f, inst)
      && t.trace == s.trace + (if env.hooks.fieldMissing then FieldMissingEvent(env, s, f, inst) else [])
  {
  }

  lemma MapUnionAssociates<K, V>(a: map<K, V>, b: map<K, V>, c: map<K, V>)
    ensures (a + b) + c == a + (b + c)
  {
  }

  /** A successful setup of a live instance assigns exactly the fields AssignedFields names, over
      the fields it had. */
  lemma {:induction false} SetupObjectAssigns(env: Env, s: State, fs: seq<Node>, inst: Value)
    requires inst.Ref? && inst.addr < |s.arena|
    requires SetupObject(env, s, fs, inst).err.None?
    ensures |SetupObject(env, s, fs, inst).st.arena| == |s.arena|
    ensures SetupObject(env, s, fs, inst).st.arena[inst.addr].fields
      == s.arena[inst.addr].fields + AssignedFields(env, s, fs, inst)
    decreases |fs|
  {
    if fs != [] {
      var r := FieldStep(env, s, fs[0], inst);
      var rest := fs[1..];
      assert SetupObject(env, s, fs, inst) == SetupObject(env, r.st, rest, inst);
      FieldStepFrame(env, s, fs[0], inst);
      FieldStepAssigns(env, s, fs[0], inst);
      SetupObjectAssigns(env, r.st, rest, inst);
      ObjectSetupReadsTables(env, s, r.st, rest, inst);
      MapUnionAssociates(s.arena[inst.addr].fields, FieldAssignment(env, s, fs[0], inst), AssignedFields(env, s, rest, inst));
    }
  }

  /** A successful setup of a live instance raises exactly the FieldMissing notifications of
      FieldMissingEvents, when a handler is attached, and none otherwise. */
  lemma {:induction false} SetupObjectNotifies(env: Env, s: State, fs: seq<Node>, inst: Value)
    requires inst.Ref? && inst.addr < |s.arena|
    requires SetupObject(env, s, fs, inst).err.None?
    ensures SetupObject(env, s, fs, inst).st.trace
      == s.trace + (if env.hooks.fieldMissing then FieldMissingEvents(env, s, fs, inst) else [])
    decreases |fs|
  {
    if fs != [] {
      var r := FieldStep(env, s, fs[0], inst);
      var rest := fs[1..];
      assert SetupObject(env, s, fs, inst) == SetupObject(env, r.st, rest, inst);
      FieldStepFrame(env, s, fs[0], inst);
      FieldStepAssigns(env, s, fs[0], inst);
      SetupObjectNotifies(env, r.st, rest, inst);
      ObjectSetupReadsTables(env, s, r.st, rest, inst);
      assert FieldMissingEvents(env, s, fs, inst) == FieldMissingEvent(env, s, fs[0], inst) + FieldMissingEvents(env, s, rest, inst);
    }
  }

  /** Setting up a null instance (an object whose type is missing) changes nothing, and fails with
      a NullReference as soon as the node has a `field` child. */
  lemma {:induction false} SetupObjectOnNull(env: Env, s: State, fs: seq<Node>)
    ensures SetupObject(env, s, fs, Null) == Run(s, if Named(fs, "field") != [] then Some(NullReference) else None)
    decreases |fs|
  {
    if fs != [] {
      SetupObjectOnNull(env, s, fs[1..]);
    }
  }

  /** Only the `field` children of an `object` node take part in its setup. */
  lemma {:induction false} SetupObjectIgnoresOthers(env: Env, s: State, fs: seq<Node>, inst: Value)
    ensures SetupObject(env, s, fs, inst) == SetupObject(env, s, Named(fs, "field"), inst)
    decreases |fs|
  {
    if fs != [] {
      var r := FieldStep(env, s, fs[0], inst);
      if r.err.None? {
        SetupObjectIgnoresOthers(env, r.st, fs[1..], inst);
      }
      if fs[0].name == "field" {
        assert Named(fs, "field") == [fs[0]] + Named(fs[1..], "field");
        SetupObjectIgnoresOthers(env, s, fs[1..], inst);
      } else {
        assert Named(fs, "field") == Named(fs[1..], "field");
        SetupObjectIgnoresOthers(env, s, fs[1..], inst);
      }
    }
  }

  // ---------------------------------------------------------------- setup of lists

  /** The values one child of a `list` node adds, in order, `lookup` being the id table: for an
      `element` node, null for a `null` attribute, the instance an `id-ref` names, and the value
      that `value` converts to under the raw `type` name; or the exception it raises. */
  function ElementValues(env: Env, lookup: map<string, Value>, e: Node): Result<seq<Value>, Error>
  {
    if e.name != "element" then Ok([])
    else if "id-ref" in e.attrs && e.attrs["id-ref"] !in lookup then Err(MissingId(e.attrs["id-ref"]))
    else
      var nulls := if "null" in e.attrs then [Null] else [];
      var refs := if "id-ref" in e.attrs then [lookup[e.attrs["id-ref"]]] else [];
      if "type" in e.attrs && "value" in e.attrs then
        match Convert(env, env.rt.resolve(e.attrs["type"]), e.attrs["value"])
        case Err(err) => Err(err)
        case Ok(v) => Ok(nulls + refs + [v])
      else Ok(nulls + refs)
  }

  /** The values the children `es` of a `list` node add, in document order, or the first exception
      one of them raises. */
  function ListValues(env: Env, lookup: map<string, Value>, es: seq<Node>): Result<seq<Value>, Error>
    decreases |es|
  {
    if es == [] then Ok([])
    else
      match ElementValues(env, lookup, es[0])
      case Err(e) => Err(e)
      case Ok(vs) =>
        match ListValues(env, lookup, es[1..])
        case Err(e) => Err(e)
        case Ok(ws) => Ok(vs + ws)
  }

  lemma ElementStepAppends(env: Env, s: State, e: Node, a: nat)
    requires a < |s.arena|
    ensures var r := ElementStep(env, s, e, a); var ev := ElementValues(env, s.objectLookup, e);
      && r.st.objectLookup == s.objectLookup && r.st.typeLookup == s.typeLookup && r.st.trace == s.trace
      && OnlyChanged(s.arena, r.st.arena, a)
      && r.st.arena[a].fields == s.arena[a].fields
      && s.arena[a].items <= r.st.arena[a].items
      && (r.err.None? <==> ev.Ok?)
      && (ev.Ok? ==> r.st.arena[a].items == s.arena[a].items + ev.value)
      && (ev.Err? ==> r.err == Some(ev.error))
  {
    if e.name == "element" {
      var items := s.arena[a].items;
      var nulls := if "null" in e.attrs then [Null] else [];
      var s1 := if "null" in e.attrs then Append(s, a, Null) else s;
      assert s1.arena[a].items == items + nulls && OnlyChanged(s.arena, s1.arena, a);
      if !("id-ref" in e.attrs && e.attrs["id-ref"] !in s1.objectLookup) {
        var refs := if "id-ref" in e.attrs then [s.objectLookup[e.attrs["id-ref"]]] else [];
        var s2 := if "id-ref" in e.attrs then Append(s1, a, s1.objectLookup[e.attrs["id-ref"]]) else s1;
        assert s2.arena[a].items == items + nulls + refs && OnlyChanged(s.arena, s2.arena, a);
        assert s2.objectLookup == s.objectLookup && s2.typeLookup == s.typeLookup && s2.trace == s.trace;
        assert s2.arena[a].fields == s.arena[a].fields;
        if "type" in e.attrs && "value" in e.attrs {
          var c := Convert(env, env.rt.resolve(e.attrs["type"]), e.attrs["value"]);
          if c.Ok? {
            assert Append(s2, a, c.value).arena[a].items == items + (nulls + refs + [c.value]);
          }
        } else {
          assert s2.arena[a].items == items + (nulls + refs);
        }
      }
    }
  }

  /** Setting up a list appends, to its own items only, exactly the values ListValues lists, in
      document order, and fails exactly when ListValues does, with the same exception. The tables,
      the notifications, the other instances and the list's fields stay as they were. */
  lemma {:induction false} ListElementsAppends(env: Env, s: State, es: seq<Node>, a: nat)
    requires a < |s.arena|
    ensures var r := ListElements(env, s, es, a); var lv := ListValues(env, s.objectLookup, es);
      && r.st.objectLookup == s.objectLookup && r.st.typeLookup == s.typeLookup && r.st.trace == s.trace
      && OnlyChanged(s.arena, r.st.arena, a)
      && r.st.arena[a].fields == s.arena[a].fields
      && s.arena[a].items <= r.st.arena[a].items
      && (r.err.None? <==> lv.Ok?)
      && (lv.Ok? ==> r.st.arena[a].items == s.arena[a].items + lv.value)
      && (lv.Err? ==> r.err == Some(lv.error))
    decreases |es|
  {
    if es != [] {
      var r := ElementStep(env, s, es[0], a);
      ElementStepAppends(env, s, es[0], a);
      if r.err.None? {
        ListElementsAppends(env, r.st, es[1..], a);
        var ev := ElementValues(env, s.objectLookup, es[0]);
        var lv := ListValues(env, s.objectLookup, es[1..]);
        if lv.Ok? {
          assert (s.arena[a].items + ev.value) + lv.value == s.arena[a].items + (ev.value + lv.value);
        }
      }
    }
  }

  /** A list fails with MissingId only for an id-ref that is not in the id table. */
  lemma {:induction false} ListValuesMissingId(env: Env, lookup: map<string, Value>, es: seq<Node>)
    ensures var lv := ListValues(env, lookup, es);
      lv.Err? && lv.error.MissingId? ==> lv.error.id !in lookup
    decreases |es|
  {
    if es != [] {
      ListValuesMissingId(env, lookup, es[1..]);
    }
  }

  /** Only the `element` children of a `list` node take part in its setup. */
  lemma {:induction false} ListElementsIgnoresOthers(env: Env, s: State, es: seq<Node>, a: nat)
    ensures ListElements(env, s, es, a) == ListElements(env, s, Named(es, "element"), a)
    decreases |es|
  {
    if es != [] {
      var r := ElementStep(env, s, es[0], a);
      if r.err.None? {
        ListElementsIgnoresOthers(env, r.st, es[1..], a);
      }
      if es[0].name == "element" {
        assert Named(es, "element") == [es[0]] + Named(es[1..], "element");
      } else {
        assert Named(es, "element") == Named(es[1..], "element");
        ListElementsIgnoresOthers(env, s, es[1..], a);
      }
    }
  }

  // ---------------------------------------------------------------- setup pass

  /** Setting up one object node changes no table and, in the arena, at most its own instance; a
      MissingId it raises names an id that is not in the table. */
  lemma SetupStepFrame(env: Env, s: State, n: Node)
    ensures var r := SetupStep(env, s, n);
      && r.st.objectLookup == s.objectLookup && r.st.typeLookup == s.typeLookup
      && OnlyChanged(s.arena, r.st.arena, AddrOf(InstanceOf(s, n)))
      && (r.err.Some? && r.err.value.MissingId? ==> r.err.value.id !in s.objectLookup)
  {
    if "id" in n.attrs && n.attrs["id"] in s.objectLookup && n.name in SetupMethodLookup() {
      var inst := s.objectLookup[n.attrs["id"]];
      match SetupMethodLookup()[n.name]
      case SetupObjectMethod =>
        SetupObjectFrame(env, s, n.children, inst);
      case SetupListMethod =>
        if IsList(env.rt, s.arena, inst) {
          ListElementsAppends(env, s, n.children, inst.addr);
          ListValuesMissingId(env, s.objectLookup, n.children);
        }
      case SetupArrayMethod =>
    }
  }

  /** The setup pass never changes the tables nor the number and types of the instances, so every
      id-ref resolves against the full id table of the create pass; a MissingId it raises names an
      id that is not in that table. */
  lemma {:induction false} SetupPassFrame(env: Env, s: State, ns: seq<Node>)
    ensures var r := SetupPass(env, s, ns);
      && r.st.objectLookup == s.objectLookup && r.st.typeLookup == s.typeLookup
      && SameTypes(s.arena, r.st.arena)
      && (r.err.Some? && r.err.value.MissingId? ==> r.err.value.id !in s.objectLookup)
    decreases |ns|
  {
    if ns != [] {
      var r := SetupStep(env, s, ns[0]);
      SetupStepFrame(env, s, ns[0]);
      if r.err.None? {
        SetupPassFrame(env, r.st, ns[1..]);
      }
    }
  }

  /** A setup pass that succeeds found an id, registered in the table, and a known node name on
      every object node. */
  lemma {:induction false} SetupPassShape(env: Env, s: State, ns: seq<Node>)
    requires SetupPass(env, s, ns).err.None?
    ensures forall k :: 0 <= k < |ns| ==>
      "id" in ns[k].attrs && ns[k].attrs["id"] in s.objectLookup && ns[k].name in SetupMethodLookup()
    decreases |ns|
  {
    if ns != [] {
      var r := SetupStep(env, s, ns[0]);
      var rest := ns[1..];
      SetupStepFrame(env, s, ns[0]);
      SetupPassShape(env, r.st, rest);
      assert forall k :: 1 <= k < |ns| ==> ns[k] == rest[k - 1];
    }
  }

  /** In the setup pass an `array` node does nothing: arrays are created but never filled. */
  lemma SetupStepOnArray(env: Env, s: State, n: Node)
    requires "id" in n.attrs && n.attrs["id"] in s.objectLookup && n.name == "array"
    ensures SetupStep(env, s, n) == Run(s, None)
  {
    assert SetupMethodLookup()[n.name] == SetupArrayMethod;
  }

  /** In the setup pass, a node whose instance is null (its type was missing) does nothing, except
      that an `object` node with a `field` child fails with a NullReference. */
  lemma SetupStepOnNull(env: Env, s: State, n: Node)
    requires "id" in n.attrs && n.attrs["id"] in s.objectLookup && n.name in SetupMethodLookup()
    requires s.objectLookup[n.attrs["id"]] == Null
    ensures SetupStep(env, s, n)
      == Run(s, if n.name == "object" && Named(n.children, "field") != [] then Some(NullReference) else None)
  {
    if n.name == "object" {
      SetupObjectOnNull(env, s, n.children);
    }
  }

  /** The instance of node `n` holds in the state `u` what the setup of `n` writes into it over
      what it held in the state `t` the setup pass starts from: the fields AssignedFields names for
      an `object` node, and the values ListValues lists for a `list` node whose type is a list. */
  ghost predicate SetUpFor(env: Env, t: State, u: State, n: Node)
  {
    var inst := InstanceOf(t, n);
    inst.Ref? ==>
      && inst.addr < |t.arena| && inst.addr < |u.arena|
      && (n.name == "object" ==>
            u.arena[inst.addr].fields == t.arena[inst.addr].fields + AssignedFields(env, t, n.children, inst))
      && (n.name == "list" && IsList(env.rt, t.arena, inst) ==>
            && ListValues(env, t.objectLookup, n.children).Ok?
            && u.arena[inst.addr].items == t.arena[inst.addr].items + ListValues(env, t.objectLookup, n.children).value)
  }

  /** SetUpFor only looks at the tables, the types of the instances and the node's own instance. */
  lemma SetUpForStable(env: Env, t: State, t': State, u: State, n: Node)
    requires t'.objectLookup == t.objectLookup && t'.typeLookup == t.typeLookup && SameTypes(t.arena, t'.arena)
    requires InstanceOf(t, n).Ref? && InstanceOf(t, n).addr < |t.arena| ==> t'.arena[InstanceOf(t, n).addr] == t.arena[InstanceOf(t, n).addr]
    requires SetUpFor(env, t', u, n)
    ensures SetUpFor(env, t, u, n)
  {
    ObjectSetupReadsTables(env, t, t', n.children, InstanceOf(t, n));
  }

  /** The setup pass leaves alone every instance that is not the instance of one of its nodes. */
  lemma {:induction false} SetupPassLeaves(env: Env, t: State, ns: seq<Node>, a: nat)
    requires a < |t.arena|
    requires forall k :: 0 <= k < |ns| ==> AddrOf(InstanceOf(t, ns[k])) != a
    ensures a < |SetupPass(env, t, ns).st.arena| && SetupPass(env, t, ns).st.arena[a] == t.arena[a]
    decreases |ns|
  {
    if ns != [] {
      var r := SetupStep(env, t, ns[0]);
      SetupStepFrame(env, t, ns[0]);
      if r.err.None? {
        assert forall k :: 1 <= k < |ns| ==> ns[k] == ns[1..][k - 1];
        SetupPassLeaves(env, r.st, ns[1..], a);
      }
    }
  }

  /** A setup pass that succeeds, over nodes that never share an instance, leaves in the instance
      of every node what the setup of that node writes: an object's fields and a list's items are
      those its own children call for, computed against the id table, whatever the order in which
      the nodes are set up. */
  lemma {:induction false} SetupPassFills(env: Env, t: State, ns: seq<Node>)
    requires SetupPass(env, t, ns).err.None?
    requires forall k :: 0 <= k < |ns| && InstanceOf(t, ns[k]).Ref? ==> InstanceOf(t, ns[k]).addr < |t.arena|
    requires forall j, k :: 0 <= j < k < |ns| && InstanceOf(t, ns[j]).Ref? ==> InstanceOf(t, ns[j]) != InstanceOf(t, ns[k])
    ensures forall k :: 0 <= k < |ns| ==> SetUpFor(env, t, SetupPass(env, t, ns).st, ns[k])
    decreases |ns|
  {
    if ns != [] {
      var n0, rest := ns[0], ns[1..];
      var r := SetupStep(env, t, n0);
      var u := SetupPass(env, t, ns).st;
      SetupStepFrame(env, t, n0);
      SetupPassShape(env, t, ns);
      assert forall k :: 1 <= k < |ns| ==> ns[k] == rest[k - 1];
      assert SetupPass(env, t, ns) == SetupPass(env, r.st, rest);
      SetupPassFrame(env, r.st, rest);
      SetupPassFills(env, r.st, rest);
      var i0 := InstanceOf(t, n0);
      if i0.Ref? {
        SetupPassLeaves(env, r.st, rest, i0.addr);
        if n0.name == "object" {
          SetupObjectAssigns(env, t, n0.children, i0);
        } else if n0.name == "list" && IsList(env.rt, t.arena, i0) {
          ListElementsAppends(env, t, n0.children, i0.addr);
        }
      }
      assert SetUpFor(env, t, u, n0);
      forall k | 1 <= k < |ns|
        ensures SetUpFor(env, t, u, ns[k])
      {
        SetUpForStable(env, t, r.st, u, rest[k - 1]);
      }
    }
  }

  // ---------------------------------------------------------------- deserialize

  /** The entries of a document's `types` section, if any. */
  function DocumentTypes(doc: Node): seq<Node>
  {
    match FirstNamed(doc.children, "document")
    case None => []
    case Some(document) =>
      match FirstNamed(document.children, "types")
      case None => []
      case Some(types) => types.children
  }

  /** A call is the types pass over DocumentTypes, then the create and setup passes over
      DocumentObjects, each run only when the one before it succeeded, then the lookup of id "0". */
  lemma DeserializePipeline(env: Env, s: State, doc: Node)
    ensures var p := Deserialize(env, s, doc);
      var t := TypesPass(env, s, DocumentTypes(doc));
      var c := CreatePass(env, t.st, DocumentObjects(doc));
      var u := SetupPass(env, c.st, DocumentObjects(doc));
      && (FirstNamed(doc.children, "document").None? ==> p == Produced(s, Err(NullReference)))
      && (FirstNamed(doc.children, "document").Some? ==>
            && p.st == (if t.err.Some? then t.st else if c.err.Some? then c.st else u.st)
            && p.res == (if t.err.Some? then Err(t.err.value) else if c.err.Some? then Err(c.err.value)
                         else if u.err.Some? then Err(u.err.value)
                         else if "0" in u.st.objectLookup then Ok(u.st.objectLookup["0"]) else Err(MissingId("0"))))
  {
  }

  lemma CreatedForStable(types: map<string, Option<TypeId>>, base: nat, t: State, t': State, n: Node)
    requires CreatedFor(types, base, t, n)
    requires t'.objectLookup == t.objectLookup && SameTypes(t.arena, t'.arena)
    ensures CreatedFor(types, base, t', n)
  {
  }

  /** An id-ref to any object of the document resolves, whether the object comes before or after
      the reference: Deserialize fails with MissingId only for an id that no object node of the
      document carries and that was not registered by an earlier call. */
  lemma DocumentReferencesResolve(env: Env, s: State, doc: Node)
    ensures var p := Deserialize(env, s, doc);
      p.res.Err? && p.res.error.MissingId? ==>
        p.res.error.id !in s.objectLookup && p.res.error.id !in IdsOf(DocumentObjects(doc))
  {
    DeserializePipeline(env, s, doc);
    var ns := DocumentObjects(doc);
    var t := TypesPass(env, s, DocumentTypes(doc));
    TypesPassErrors(env, s, DocumentTypes(doc));
    if t.err.None? {
      var c := CreatePass(env, t.st, ns);
      CreatePassErrors(env, t.st, ns);
      if c.err.None? {
        CreatePassShape(env, t.st, ns);
        SetupPassFrame(env, c.st, ns);
      }
    }
  }

  /** A successful Deserialize registered every alias of the `types` section with the type its
      full name resolves to, or the handler's substitute, or none. */
  lemma DeserializeRegistersTypes(env: Env, s: State, doc: Node)
    ensures var p := Deserialize(env, s, doc); var ts := DocumentTypes(doc);
      p.res.Ok? ==> forall k :: 0 <= k < |ts| ==>
        && "alias" in ts[k].attrs && "full-name" in ts[k].attrs && ts[k].attrs["alias"] in p.st.typeLookup
        && p.st.typeLookup[ts[k].attrs["alias"]] == RegisteredType(env, ts[k].attrs["full-name"])
  {
    DeserializePipeline(env, s, doc);
    var ts, ns := DocumentTypes(doc), DocumentObjects(doc);
    var t := TypesPass(env, s, ts);
    if t.err.None? {
      TypesPassRegisters(env, s, ts);
      var c := CreatePass(env, t.st, ns);
      CreatePassErrors(env, t.st, ns);
      if c.err.None? {
        SetupPassFrame(env, c.st, ns);
      }
    }
  }

  /** What the create pass gives the object nodes survives the setup pass: the setup pass changes
      neither the tables nor the number and types of the instances. */
  lemma CreatedThroughSetup(env: Env, t: State, ns: seq<Node>)
    requires CreatePass(env, t, ns).err.None?
    ensures var u := SetupPass(env, CreatePass(env, t, ns).st, ns).st;
      && u.typeLookup == t.typeLookup
      && (forall k :: 0 <= k < |ns| ==> CreatedFor(t.typeLookup, |t.arena|, u, ns[k]))
      && (forall j, k :: 0 <= j < k < |ns| && InstanceOf(u, ns[j]).Ref? ==> InstanceOf(u, ns[j]) != InstanceOf(u, ns[k]))
  {
    var c := CreatePass(env, t, ns);
    var u := SetupPass(env, c.st, ns);
    CreatePassErrors(env, t, ns);
    CreatePassInstances(env, t, ns);
    SetupPassFrame(env, c.st, ns);
    forall k | 0 <= k < |ns|
      ensures CreatedFor(t.typeLookup, |t.arena|, u.st, ns[k])
    {
      CreatedForStable(t.typeLookup, |t.arena|, c.st, u.st, ns[k]);
    }
  }

  /** A successful Deserialize gave every object node what its alias calls for (null for a
      missing type, otherwise a new instance of the type), never two nodes the same instance, and
      returns the instance of the object node with id "0". */
  lemma DeserializeCreatesObjects(env: Env, s: State, doc: Node)
    ensures var p := Deserialize(env, s, doc); var ns := DocumentObjects(doc);
      p.res.Ok? ==> forall k :: 0 <= k < |ns| ==> CreatedFor(p.st.typeLookup, |s.arena|, p.st, ns[k])
    ensures var p := Deserialize(env, s, doc); var ns := DocumentObjects(doc);
      p.res.Ok? ==> forall j, k :: 0 <= j < k < |ns| && InstanceOf(p.st, ns[j]).Ref? ==>
        InstanceOf(p.st, ns[j]) != InstanceOf(p.st, ns[k])
    ensures var p := Deserialize(env, s, doc); var ns := DocumentObjects(doc);
      p.res.Ok? ==> forall k :: 0 <= k < |ns| && Attr(ns[k], "id") == Some("0") ==> p.res.value == InstanceOf(p.st, ns[k])
  {
    DeserializePipeline(env, s, doc);
    var ts, ns := DocumentTypes(doc), DocumentObjects(doc);
    var t := TypesPass(env, s, ts);
    TypesPassErrors(env, s, ts);
    if t.err.None? && CreatePass(env, t.st, ns).err.None? {
      CreatedThroughSetup(env, t.st, ns);
    }
  }

  /** What an object node's instance holds once the setup pass is over, `u` being the final state:
      the fields its `field` children assign, for an `object` node, and the values its `element`
      children list, for a `list` node whose type is a list. */
  ghost predicate Filled(env: Env, u: State, n: Node)
  {
    var inst := InstanceOf(u, n);
    inst.Ref? ==>
      && inst.addr < |u.arena|
      && (n.name == "object" ==> u.arena[inst.addr].fields == AssignedFields(env, u, n.children, inst))
      && (n.name == "list" && IsList(env.rt, u.arena, inst) ==>
            && ListValues(env, u.objectLookup, n.children).Ok?
            && u.arena[inst.addr].items == ListValues(env, u.objectLookup, n.children).value)
  }

  /** A create pass followed by a setup pass over the same nodes, both succeeding, fills every
      instance with exactly what its node's children call for. */
  lemma CreateThenSetupFills(env: Env, t: State, ns: seq<Node>)
    requires CreatePass(env, t, ns).err.None?
    requires SetupPass(env, CreatePass(env, t, ns).st, ns).err.None?
    ensures forall k :: 0 <= k < |ns| ==> Filled(env, SetupPass(env, CreatePass(env, t, ns).st, ns).st, ns[k])
  {
    var c := CreatePass(env, t, ns);
    var u := SetupPass(env, c.st, ns);
    CreatePassInstances(env, t, ns);
    SetupPassFrame(env, c.st, ns);
    SetupPassFills(env, c.st, ns);
    forall k | 0 <= k < |ns|
      ensures Filled(env, u.st, ns[k])
    {
      FilledFromEmpty(env, c.st, u.st, ns[k]);
    }
  }

  /** A node whose instance was empty when the setup pass began ends up Filled. */
  lemma FilledFromEmpty(env: Env, c: State, u: State, n: Node)
    requires u.objectLookup == c.objectLookup && u.typeLookup == c.typeLookup && SameTypes(c.arena, u.arena)
    requires SetUpFor(env, c, u, n)
    requires InstanceOf(c, n).Ref? ==> c.arena[InstanceOf(c, n).addr].fields == map[] && c.arena[InstanceOf(c, n).addr].items == []
    ensures Filled(env, u, n)
  {
    var inst := InstanceOf(c, n);
    assert InstanceOf(u, n) == inst;
    if inst.Ref? {
      if n.name == "object" {
        FilledObject(env, c, u, n, inst);
      } else if n.name == "list" {
        FilledList(env, c, u, n, inst);
      }
    }
  }

  lemma FilledObject(env: Env, c: State, u: State, n: Node, inst: Value)
    requires u.objectLookup == c.objectLookup && u.typeLookup == c.typeLookup && SameTypes(c.arena, u.arena)
    requires inst.Ref? && inst.addr < |c.arena| && inst.addr < |u.arena| && c.arena[inst.addr].fields == map[]
    requires u.arena[inst.addr].fields == c.arena[inst.addr].fields + AssignedFields(env, c, n.children, inst)
    ensures u.arena[inst.addr].fields == AssignedFields(env, u, n.children, inst)
  {
    ObjectSetupReadsTables(env, c, u, n.children, inst);
    assert map[] + AssignedFields(env, c, n.children, inst) == AssignedFields(env, c, n.children, inst);
  }

  lemma FilledList(env: Env, c: State, u: State, n: Node, inst: Value)
    requires u.objectLookup == c.objectLookup && SameTypes(c.arena, u.arena)
    requires inst.Ref? && inst.addr < |c.arena| && inst.addr < |u.arena| && c.arena[inst.addr].items == []
    requires IsList(env.rt, c.arena, inst) ==>
      ListValues(env, c.objectLookup, n.children).Ok?
      && u.arena[inst.addr].items == c.arena[inst.addr].items + ListValues(env, c.objectLookup, n.children).value
    ensures IsList(env.rt, u.arena, inst) ==>
      ListValues(env, u.objectLookup, n.children).Ok?
      && u.arena[inst.addr].items == ListValues(env, u.objectLookup, n.children).value
  {
    assert IsList(env.rt, u.arena, inst) == IsList(env.rt, c.arena, inst);
  }

  /** After a successful Deserialize every object's fields are exactly those its `field` children
      assign, and every list holds exactly the values its `element` children list, both computed
      against the final id table: an id-ref, to an object before or after it, is the instance that
      object node was given. */
  lemma DeserializeFillsObjects(env: Env, s: State, doc: Node)
    ensures var p := Deserialize(env, s, doc); var ns := DocumentObjects(doc);
      p.res.Ok? ==> forall k :: 0 <= k < |ns| ==> Filled(env, p.st, ns[k])
  {
    DeserializePipeline(env, s, doc);
    var ns := DocumentObjects(doc);
    var t := TypesPass(env, s, DocumentTypes(doc));
    if t.err.None? && CreatePass(env, t.st, ns).err.None? && SetupPass(env, CreatePass(env, t.st, ns).st, ns).err.None? {
      CreateThenSetupFills(env, t.st, ns);
    }
  }

  /** Deserialize fails when no object node of the document carries id "0" and no earlier call
      registered it. */
  lemma DeserializeNeedsRoot(env: Env, s: State, doc: Node)
    ensures "0" !in s.objectLookup && "0" !in IdsOf(DocumentObjects(doc)) ==> Deserialize(env, s, doc).res.Err?
  {
    DeserializePipeline(env, s, doc);
    var ts, ns := DocumentTypes(doc), DocumentObjects(doc);
    var t := TypesPass(env, s, ts);
    TypesPassErrors(env, s, ts);
    if t.err.None? {
      var c := CreatePass(env, t.st, ns);
      if c.err.None? {
        CreatePassShape(env, t.st, ns);
        SetupPassFrame(env, c.st, ns);
      }
    }
  }

  /** Deserialize keeps every entry of the id table null or a distinct instance in the arena, even
      when it fails. */
  lemma DeserializeKeepsIdentities(env: Env, s: State, doc: Node)
    requires Valid(s) && DistinctInstances(s)
    ensures Valid(Deserialize(env, s, doc).st) && DistinctInstances(Deserialize(env, s, doc).st)
  {
    DeserializePipeline(env, s, doc);
    var ts, ns := DocumentTypes(doc), DocumentObjects(doc);
    var t := TypesPass(env, s, ts);
    TypesPassErrors(env, s, ts);
    if t.err.None? {
      var c := CreatePass(env, t.st, ns);
      CreatePassKeepsIdentities(env, t.st, ns);
      if c.err.None? {
        SetupPassKeepsIdentities(env, c.st, ns);
      }
    }
  }

  /** The setup pass keeps every entry of the id table null or a distinct instance in the arena. */
  lemma SetupPassKeepsIdentities(env: Env, c: State, ns: seq<Node>)
    requires Valid(c) && DistinctInstances(c)
    ensures Valid(SetupPass(env, c, ns).st) && DistinctInstances(SetupPass(env, c, ns).st)
  {
    SetupPassFrame(env, c, ns);
  }
}
