# Alsing deserializer engine and GenerationStudio element tree, in Dafny

This project models two parts of the Alsing code base and proves properties of them.

**The XML deserializer engine** (`Alsing.Serialization.DeserializerEngine`). The engine reads a
document in three passes:

- the `types` section registers each alias with the type its full name resolves to;
- a create pass makes one instance per node of the `objects` section and stores it under the node's id;
- a setup pass fills in the instances.

An `object` node sets fields from its `field` children. A `list` node appends values from its
`element` children. An `array` node is created but never filled. The call returns the instance
stored under id `"0"`.

- `wrappers.dfy`: `Option` (a C# reference that may be null) and `Result` (a value or the exception raised).
- `deserializer_spec.dfy` (module `DeserializerSpec`): the engine as pure functions. The document is an
  already-parsed `Node` tree. The engine state is a `State`: the two lookup tables, an arena of instances
  (a `Ref` value is an address in it) and a log of handler invocations. Each step and each pass maps a
  state to a new state and an optional error. A C# exception becomes an `Error`, and the state reached
  before the throw is kept, as the C# tables are.
- `deserializer_engine.dfy` (module `Serialization`): the C# class as a Dafny class. The tables are `map`
  fields filled in place by `while` loops. Each method is proved to have exactly the effect its
  `DeserializerSpec` function gives, error included.
- `deserializer_properties.dfy` (module `DeserializerProperties`): what the passes do, stated against
  separate reference definitions. `RegisteredType` and `TypeMissingEvents` describe the types section.
  `CreatedFor` and `IdsOf` describe the create pass. `AssignedFields` and `FieldMissingEvents` describe
  object setup, and `ListValues` describes list setup.

**The designer's element tree** (`GenerationStudio.Elements.Element`), in `element.dfy` (module `Elements`).
This is a mutable parent/children tree: `Element` is a class with the fields `children`, `parent`,
`excluded` and `elementId`. The C# class of a node has two parts in the model. `kind` is its own class name
(`GetType().Name`) and `kinds` is the set of classes it is an instance of (`is T`). The virtual members
`GetDisplayName`, `GetErrors` and `AllowDelete` become a field `displayName`, a constant `errors` and a
constant `allowDelete`. `AllChildren` is the `children` field itself, and `IsValid` is `parent != null`.

Reflection, type conversion and `Guid.NewGuid` are parameters:

- a `Runtime` holds the type resolver, each type's fields, list-ness and constructibility, and the string converter;
- `Hooks` says whether a FieldMissing handler is attached and gives the TypeMissing handler, if any;
- `ElementId` takes the new id as an argument.

Where the code behaves unexpectedly, the model follows the code:

- The lookup tables are fields of the engine and outlive a call. A second call that reuses an alias or an
  id fails with `DuplicateAlias`/`DuplicateId`, because `Dictionary.Add` rejects the duplicate key.
- A type that does not resolve is not always tolerated. The object node then gets a null instance. If that
  node has a `field` child, the setup pass calls `GetType()` on the null instance and fails with
  `NullReference` (`SetupObjectOnNull`, `SetupStepOnNull`).
- A missing field is tolerated only when its `field` node has no `value` attribute. With a `value`, the
  code reads `field.FieldType` on a null field and throws before the hook runs.
- A typed value whose alias is registered without a type fails with `ArgumentNull`, because
  `GetConverter(null)` throws.
- A list element resolves its `type` attribute as a full type name, not through the alias table.
- A failing call leaves the entries it added in the tables and the instances it changed.
- `AddChild` and `RemoveChild` keep children and parents linked (`ParentLinked`: every child names
  its element as parent) only in part. Adding a child that has no parent keeps the link, and so does
  removing a child listed at most once. Adding a child that already has a parent leaves it listed
  by the old parent (`AddToSecondParent`). Removing a child listed twice leaves one entry without a
  parent (`DoubleAddThenRemove`).

## Model

| member | source | states |
|---|---|---|
| Serialization.DeserializerEngine.constructor | Core/Alsing.Core/Serialization/DeserializerEngine.cs:28-37 | a new engine has empty lookup tables, no instances and no handlers attached |
| Serialization.DeserializerEngine.OnFieldMissing | Core/Alsing.Core/Serialization/DeserializerEngine.cs:16-20 | the FieldMissing handler, when attached, is invoked once with the field name, instance and value; nothing else changes |
| Serialization.DeserializerEngine.OnTypeMissing | Core/Alsing.Core/Serialization/DeserializerEngine.cs:22-26 | the TypeMissing handler, when attached, is invoked once and its substitute is returned; with no handler the substitute stays null |
| Serialization.DeserializerEngine.CreateAny | Core/Alsing.Core/Serialization/DeserializerEngine.cs:63-74 | the instance for a node: null for an alias registered without a type, otherwise a new default instance appended to the arena; NullReference without a `type` attribute, MissingAlias for an unknown alias, MissingConstructor for a type that cannot be created |
| Serialization.DeserializerEngine.SetupField | Core/Alsing.Core/Serialization/DeserializerEngine.cs:80-119 | one child of an object node has exactly the effect of `FieldStep`, the value being computed attribute by attribute, each present one overriding the previous |
| Serialization.DeserializerEngine.SetupObject | Core/Alsing.Core/Serialization/DeserializerEngine.cs:76-122 | the loop over an object node's children has exactly the effect of `DeserializerSpec.SetupObject`, stopping at the first exception |
| Serialization.DeserializerEngine.ListAdd | Core/Alsing.Core/Serialization/DeserializerEngine.cs:140-155 | `list.Add` appends the value to the list's items and changes nothing else |
| Serialization.DeserializerEngine.AddElement | Core/Alsing.Core/Serialization/DeserializerEngine.cs:133-156 | one child of a list node has exactly the effect of `ElementStep` |
| Serialization.DeserializerEngine.SetupList | Core/Alsing.Core/Serialization/DeserializerEngine.cs:125-158 | a list node has exactly the effect of `DeserializerSpec.SetupList`: nothing unless the instance is a list, else the element loop |
| Serialization.DeserializerEngine.RegisterType | Core/Alsing.Core/Serialization/DeserializerEngine.cs:176-183 | one entry of the types section has exactly the effect of `DeserializerSpec.RegisterType` |
| Serialization.DeserializerEngine.CreateObject | Core/Alsing.Core/Serialization/DeserializerEngine.cs:190-194 | one object node in the create pass has exactly the effect of `CreateStep`, dispatched through the factory table |
| Serialization.DeserializerEngine.SetupNode | Core/Alsing.Core/Serialization/DeserializerEngine.cs:201-204 | one object node in the setup pass has exactly the effect of `SetupStep`, dispatched through the setup table |
| Serialization.DeserializerEngine.RegisterTypes | Core/Alsing.Core/Serialization/DeserializerEngine.cs:173-184 | the types loop has exactly the effect of `TypesPass` |
| Serialization.DeserializerEngine.CreateAll | Core/Alsing.Core/Serialization/DeserializerEngine.cs:186-195 | the create loop has exactly the effect of `CreatePass` |
| Serialization.DeserializerEngine.SetupAll | Core/Alsing.Core/Serialization/DeserializerEngine.cs:197-205 | the setup loop has exactly the effect of `SetupPass` |
| Serialization.DeserializerEngine.Deserialize | Core/Alsing.Core/Serialization/DeserializerEngine.cs:164-209 | a whole call has exactly the effect and result of `DeserializerSpec.Deserialize`, whose properties are the lemmas below |
| DeserializerSpec.FirstNamed | Core/Alsing.Core/Serialization/DeserializerEngine.cs:169-171 | the element indexer finds the first child with the given name, and finds none only when no child has that name |
| DeserializerProperties.RegisterTypeEffect | Core/Alsing.Core/Serialization/DeserializerEngine.cs:176-183 | one types entry fails only with NullReference or DuplicateAlias; on success it adds its new alias with the resolved or substituted type and raises TypeMissing only when the name does not resolve |
| DeserializerProperties.TypesPassReadsEntries | Core/Alsing.Core/Serialization/DeserializerEngine.cs:173-184 | a successful types pass found an alias and a full name on every entry, and the aliases were new and pairwise distinct |
| DeserializerProperties.TypesPassRegisters | Core/Alsing.Core/Serialization/DeserializerEngine.cs:179-183 | after a successful types pass every alias maps to `RegisteredType` of its full name (resolved, else the handler's substitute, else no type), and earlier aliases are kept |
| DeserializerProperties.TypesPassNotifies | Core/Alsing.Core/Serialization/DeserializerEngine.cs:179-181 | a successful types pass raises exactly `TypeMissingEvents`: one per unresolved full name, in order, when a handler is attached; the id table and the arena are untouched |
| DeserializerProperties.TypesPassErrors | Core/Alsing.Core/Serialization/DeserializerEngine.cs:173-184 | the types pass fails only with NullReference or DuplicateAlias and never touches the id table or the arena |
| DeserializerProperties.CreateStepEffect | Core/Alsing.Core/Serialization/DeserializerEngine.cs:190-194 | a successful create step had an id and a factory for the node name, and adds the new id with the instance `CreatedFor` describes; a failed one leaves the id table as it was |
| DeserializerProperties.CreatePassShape | Core/Alsing.Core/Serialization/DeserializerEngine.cs:187-195 | a successful create pass found ids and node names `object`, `list` or `array` on every node; the ids are new and pairwise distinct, and the id table gains exactly `IdsOf` the nodes |
| DeserializerProperties.CreatePassInstances | Core/Alsing.Core/Serialization/DeserializerEngine.cs:187-195 | after a successful create pass each node has null for a missing type or a fresh, empty instance of its alias's type, and no two nodes share an instance |
| DeserializerProperties.CreatePassErrors | Core/Alsing.Core/Serialization/DeserializerEngine.cs:187-195 | the create pass never raises MissingId, keeps the alias table and the log, and only grows the arena |
| DeserializerProperties.CreatePassKeepsIdentities | Core/Alsing.Core/Serialization/DeserializerEngine.cs:187-195 | the create pass keeps each id-table entry null or a distinct live instance, even when it fails |
| DeserializerProperties.FieldStepFrame | Core/Alsing.Core/Serialization/DeserializerEngine.cs:80-119 | a field child changes no table and at most its own instance's fields; a failing one changes nothing, and its MissingId names an id absent from the table |
| DeserializerProperties.FieldStepAssigns | Core/Alsing.Core/Serialization/DeserializerEngine.cs:112-119 | a field child that succeeds sets exactly `FieldAssignment` on the instance and raises exactly `FieldMissingEvent` |
| DeserializerProperties.SetupObjectFrame | Core/Alsing.Core/Serialization/DeserializerEngine.cs:76-122 | setting up an object changes no table and, in the arena, only the fields of its own instance |
| DeserializerProperties.SetupObjectAssigns | Core/Alsing.Core/Serialization/DeserializerEngine.cs:91-119 | a successful object setup leaves the instance's fields equal to the old fields overridden by `AssignedFields`, the last assignment to a field winning |
| DeserializerProperties.SetupObjectNotifies | Core/Alsing.Core/Serialization/DeserializerEngine.cs:112-115 | a successful object setup raises FieldMissing exactly once per field child naming no field of the type, with the attempted value, in order, and only when a handler is attached |
| DeserializerProperties.SetupObjectOnNull | Core/Alsing.Core/Serialization/DeserializerEngine.cs:82-83 | setting up a null instance changes nothing, and fails with NullReference exactly when the node has a `field` child |
| DeserializerProperties.SetupObjectIgnoresOthers | Core/Alsing.Core/Serialization/DeserializerEngine.cs:80 | object setup is the same as setup over the `field` children alone |
| DeserializerProperties.ElementStepAppends | Core/Alsing.Core/Serialization/DeserializerEngine.cs:133-156 | one list child appends, to its own list only, exactly `ElementValues`, and fails exactly when that is an error |
| DeserializerProperties.ListElementsAppends | Core/Alsing.Core/Serialization/DeserializerEngine.cs:125-158 | list setup appends exactly `ListValues` in document order after the existing items, never removes or reorders them, and fails exactly when `ListValues` does, with the same exception |
| DeserializerProperties.ListValuesMissingId | Core/Alsing.Core/Serialization/DeserializerEngine.cs:144-147 | a list fails with MissingId only for an id-ref absent from the id table |
| DeserializerProperties.ListElementsIgnoresOthers | Core/Alsing.Core/Serialization/DeserializerEngine.cs:133 | list setup is the same as setup over the `element` children alone |
| DeserializerProperties.SetupStepFrame | Core/Alsing.Core/Serialization/DeserializerEngine.cs:199-205 | setting up one node changes no table and at most the instance stored under its own id |
| DeserializerProperties.SetupPassFrame | Core/Alsing.Core/Serialization/DeserializerEngine.cs:197-205 | the setup pass changes neither table nor the number and types of instances; its MissingId names an id absent from the full id table |
| DeserializerProperties.SetupPassKeepsIdentities | Core/Alsing.Core/Serialization/DeserializerEngine.cs:197-205 | the setup pass keeps every id-table entry null or a live instance, with distinct ids never sharing one |
| DeserializerProperties.SetupPassShape | Core/Alsing.Core/Serialization/DeserializerEngine.cs:201-203 | a successful setup pass found a registered id and a setup method for every node |
| DeserializerProperties.SetupStepOnArray | Core/Alsing.Core/Serialization/DeserializerEngine.cs:160-162 | setting up an `array` node changes nothing and never fails |
| DeserializerProperties.SetupStepOnNull | Core/Alsing.Core/Serialization/DeserializerEngine.cs:68-83 | a node whose type was missing is skipped in setup, except that an `object` node with a `field` child fails with NullReference |
| DeserializerProperties.SetupPassLeaves | Core/Alsing.Core/Serialization/DeserializerEngine.cs:197-205 | the setup pass leaves unchanged every instance that belongs to none of its nodes |
| DeserializerProperties.SetupPassFills | Core/Alsing.Core/Serialization/DeserializerEngine.cs:197-205 | when no two nodes share an instance, a successful setup pass leaves each object with its old fields overridden by `AssignedFields` and each list with its old items followed by `ListValues`, whatever the node order |
| DeserializerProperties.CreateThenSetupFills | Core/Alsing.Core/Serialization/DeserializerEngine.cs:186-205 | after successful create and setup passes, every object's fields are exactly `AssignedFields` and every list's items are exactly `ListValues`, both against the final id table |
| DeserializerProperties.DeserializeFillsObjects | Core/Alsing.Core/Serialization/DeserializerEngine.cs:164-209 | after a successful call every object holds exactly the fields its `field` children assign and every list exactly the values its `element` children list; an id-ref, forward or backward, is the instance the referenced object node was given |
| DeserializerProperties.DocumentReferencesResolve | Core/Alsing.Core/Serialization/DeserializerEngine.cs:186-205 | every instance is stored before setup, so an id-ref to any object of the document resolves: Deserialize fails with MissingId only for an id that no object node carries and no earlier call stored |
| DeserializerProperties.DeserializeRegistersTypes | Core/Alsing.Core/Serialization/DeserializerEngine.cs:173-184 | after a successful call every alias of the types section maps to its resolved or substituted type, or to no type |
| DeserializerProperties.CreatedThroughSetup | Core/Alsing.Core/Serialization/DeserializerEngine.cs:186-205 | what the create pass gives each node survives the setup pass unchanged in the id table |
| DeserializerProperties.DeserializeCreatesObjects | Core/Alsing.Core/Serialization/DeserializerEngine.cs:186-208 | after a successful call every object node has null for a missing type or a new instance of its type, no two share an instance, and the result is the instance of the node with id "0" |
| DeserializerProperties.DeserializeNeedsRoot | Core/Alsing.Core/Serialization/DeserializerEngine.cs:208 | a call fails when neither the document nor an earlier call provides id "0" |
| DeserializerProperties.DeserializeKeepsIdentities | Core/Alsing.Core/Serialization/DeserializerEngine.cs:186-205 | a call keeps every id-table entry null or a live instance, with distinct ids never sharing one, even when it fails |
| Elements.Element.constructor | Applications/CaramelStudio/GenerationStudio/Elements/Element.cs:20-21 | a new element, an instance of its own class, has no children, no parent, is not excluded and has no id yet |
| Elements.Element.Children | Applications/CaramelStudio/GenerationStudio/Elements/Element.cs:42-51 | the filtered view holds exactly the children that are not excluded |
| Elements.Element.GetChildren | Applications/CaramelStudio/GenerationStudio/Elements/Element.cs:80-87 | GetChildren<T> holds exactly the children that are not excluded and are instances of T |
| Elements.Element.GetChild | Applications/CaramelStudio/GenerationStudio/Elements/Element.cs:89-96 | GetChild<T> is such a child, and is null exactly when there is none |
| Elements.Element.SetExcluded | Applications/CaramelStudio/GenerationStudio/Elements/Element.cs:57-65 | setting Excluded stores the new value |
| Elements.Element.ExcludeInclude | Applications/CaramelStudio/GenerationStudio/Elements/DB/ProcedureElement.cs:13-17 | the Exclude / Include verb flips the excluded flag |
| Elements.Element.AddChild | Applications/CaramelStudio/GenerationStudio/Elements/Element.cs:193-198 | the child is appended after the unchanged children, its parent becomes this element (so it is valid), and the filtered view gains it unless it is excluded; children and parents stay linked when the child had no parent |
| Elements.Element.RemoveChild | Applications/CaramelStudio/GenerationStudio/Elements/Element.cs:200-208 | nothing changes when the child disallows deletion; otherwise its first occurrence is removed and its parent is cleared (so it is no longer valid), even if it was not a child; children and parents stay linked when the child was listed at most once |
| Elements.Element.ClearChildren | Applications/CaramelStudio/GenerationStudio/Elements/Element.cs:188-191 | the element has no children afterwards |
| Elements.Element.BeginTransaction | Applications/CaramelStudio/GenerationStudio/Elements/Element.cs:220-226 | the transaction holds the children as they were, and the element has none afterwards |
| Elements.Element.ElementId | Applications/CaramelStudio/GenerationStudio/Elements/Element.cs:233-247 | the id assigned earlier is returned; without one the new id is assigned and kept, so every later read returns the same id |
| Elements.Element.Root | Applications/CaramelStudio/GenerationStudio/Elements/Element.cs:68-78 | the result is the last element of the ancestor chain, which has no parent, when it is a root element; otherwise the cast fails |
| Elements.Element.GetNamedChild | Applications/CaramelStudio/GenerationStudio/Elements/Element.cs:249-260 | the result is the first child, excluded ones included, whose "class\|display name" key matches, cast to T; null when none matches |
| Elements.Element.GetErrorsRecursive | Applications/CaramelStudio/GenerationStudio/Elements/Element.cs:160-176 | the result equals `TreeErrors`: the element's own errors, then those of each child that is not excluded, in order |
| Elements.NonExcluded | Applications/CaramelStudio/GenerationStudio/Elements/Element.cs:44-49 | the filter keeps exactly the elements that are not excluded |
| Elements.OfKind | Applications/CaramelStudio/GenerationStudio/Elements/Element.cs:82-84 | the filter keeps exactly the elements that are instances of the class |
| Elements.FirstOfKind | Applications/CaramelStudio/GenerationStudio/Elements/Element.cs:91-95 | the result is a non-excluded element of the class, and is null exactly when there is none |
| Elements.NamedIndex | Applications/CaramelStudio/GenerationStudio/Elements/Element.cs:253-258 | the index is that of the first element whose key matches, or the length when none does |
| Elements.NonExcludedAppend | Applications/CaramelStudio/GenerationStudio/Elements/Element.cs:42-51 | the filtered view keeps the original order: filtering distributes over concatenation |
| Elements.OfKindAppend | Applications/CaramelStudio/GenerationStudio/Elements/Element.cs:80-87 | filtering by class keeps the original order |
| Elements.FirstOfKindIsHead | Applications/CaramelStudio/GenerationStudio/Elements/Element.cs:80-96 | GetChild<T> is the first element of GetChildren<T>, or null when that is empty |
| Elements.RemoveFirstAt | Applications/CaramelStudio/GenerationStudio/Elements/Element.cs:205 | removing an element cuts out exactly the entry at its first occurrence |
| Elements.RemoveFirstKeeps | Applications/CaramelStudio/GenerationStudio/Elements/Element.cs:205 | removal keeps only entries of the list, and a single occurrence of the element is gone afterwards |
| Elements.DoubleAddThenRemove | Applications/CaramelStudio/GenerationStudio/Elements/Element.cs:193-208 | adding a child twice and removing it once leaves it listed once without a parent, so children and parents are no longer linked |
| Elements.AddToSecondParent | Applications/CaramelStudio/GenerationStudio/Elements/Element.cs:193-198 | adding a child to a second parent leaves it listed by the first, which is then no longer linked to its children |
| Elements.RemoveFirstCount | Applications/CaramelStudio/GenerationStudio/Elements/Element.cs:205 | removal takes away exactly one occurrence of a present element and leaves a list without it unchanged |
| Elements.NamedKeyMatches | Applications/CaramelStudio/GenerationStudio/Elements/Element.cs:251-256 | since class names contain no "\|", two keys are equal exactly when the class names and the display names are |
| Elements.AncestorChainUnique | Applications/CaramelStudio/GenerationStudio/Elements/Element.cs:68-78 | an element has a single ancestor chain, so Root has a single answer |
| Elements.AncestorChainOfParent | Applications/CaramelStudio/GenerationStudio/Elements/Element.cs:72-73 | a parentless element is its own root; an element with a parent has the same root as its parent |
| Elements.TreeErrorsAnyBound | Applications/CaramelStudio/GenerationStudio/Elements/Element.cs:160-176 | the collected errors do not depend on the height bound used to collect them |
| Elements.ChildErrorsHead | Applications/CaramelStudio/GenerationStudio/Elements/Element.cs:166-173 | the errors of the children from one index on are those of the child there, unless it is excluded, followed by those of the rest |
| Elements.ChildErrorsAppend | Applications/CaramelStudio/GenerationStudio/Elements/Element.cs:166-173 | the children's errors are collected in order: collection distributes over concatenation |
| Elements.ExcludedChildrenSkipped | Applications/CaramelStudio/GenerationStudio/Elements/Element.cs:168-170 | excluded children contribute nothing: the errors of all children are those of the filtered view |

## Left out

- XML loading (`XmlDocument.Load` on a stream): the document is an already-parsed `Node` tree. Comment and text nodes, whose `Attributes` is null, are not represented.
- Reflection: `Type.GetType`, `Activator.CreateInstance`, `GetAnyField`, `FieldInfo.SetValue` and `TypeDescriptor.GetConverter` are the `Runtime` parameter. A conversion is any function of the type and the text. A field set never fails on a type mismatch.
- `instance as IList` on a fixed-size list or an array, whose `Add` throws, is not modelled: `Add` always appends.
- The .NET events are a flag and an optional function in `Hooks`. Their invocations are a ghost log, so what a FieldMissing handler does is not modelled.
- The serializer side, the object managers and `ReferenceObjectManager` (all of whose methods throw `NotImplementedException`) are not part of this model.
- Serialization.DeserializerEngine.SetupArray: its C# body is empty, so it carries no contract; `SetupStepOnArray` states its effect.
- `Element.OnNotifyChange` calls the global designer engine and is a no-op here. `GetIcon`, `GetIconName` and `GetIconKey` draw bitmaps and are left out, as are `GetSortPriority`, `GetDefaultExpanded`, `HideChildren` and `ToString`.
- `Guid.NewGuid` in `ElementId` is the parameter `newId`.
- `ElementTransaction` is not shown: the transaction is a record of the children as they were, as if its constructor copied them.
- Elements.Element.Root: the model takes a ghost chain of ancestors as a precondition. The C# loop runs forever on a cyclic parent chain.
- Elements.Element.GetErrorsRecursive: the model takes a ghost height bound on the subtree as a precondition. The C# recursion overflows the stack on a cycle.
- Elements.Element.GetNamedChild: the type constraint `new()` and the class `NamedElement` are not modelled. The cast to T is checked against `kinds`.
- Elements.Element.GetNamedChild: classes are named by their simple name, as `GetType().Name` gives it, and every element is an instance of its own class. The C# cast can fail only when two classes share a simple name in different namespaces, and the model treats them as one class. So the `InvalidCast` branch is kept as the code has it, but no element built here reaches it.
- DeserializerProperties.TypesPassRegisters: the TypeMissing handler is a pure function of the type name. A C# handler can keep state or throw, and then the substitute for a name could differ between entries or the pass could stop with the handler's exception. Neither is modelled.
- Elements.Element.GetChildren and Elements.Element.GetChild: a class name stands for the type parameter T, and `is T` is membership in `kinds`.
