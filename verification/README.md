# Type table builder (ts2panda) and module record (es2panda)

This project models two independent pieces of the Ark compiler toolchain and
proves properties about them.

**The ts2panda type system.** While compiling a TypeScript program, ts2panda
keeps a "type array buffer": an append-only list of type descriptors that is
written into the output as literal buffers. Primitive types use the fixed
index range below 50. A user type is referred to by its slot index plus 50,
called its *shifted* index. The model covers these parts:

- The buffer is a `seq<Descriptor>`. The recorder's maps (declaration node to
  index, union text to index, array element index to index, variable node to
  binding) live in a `TypeState` record, which every operation threads through
  and returns.
- Classes, functions and interfaces reserve a placeholder slot first. They
  record the declaration under the slot's shifted index, then read their
  heritage, members and parameters, and only then fill the slot. This order
  is what lets self- and mutual references resolve.
- Unions are memoised by source text and arrays by element index. Class
  instances and external types always take a fresh slot.
- The summary reserves its slot when it is created and fills it at the end.
- Every descriptor has a literal encoding. A decoder reads it back, and the
  round trip `Decode(Encode(d)) == Some(d)` is proved for every well-formed
  descriptor. Interfaces reuse the class tag; the proof shows that an
  interface's encoding is never mistaken for a class.
- The "Invalid property name" exception is the `Thrown` outcome of `Run`. It
  carries the state reached when it was raised.

The builder's contracts say what each written index *denotes*:

- An identifier resolves to ANY when the checker cannot resolve it.
  Otherwise it resolves to the index recorded for its declaration, which is
  never ANY once a function-like or class declaration has been built.
- An annotation resolves to the checker's answer when that is a primitive,
  and otherwise to what its leading identifier resolves to.
- A type node denotes its primitive, its reference's resolution, the index
  memoised for its union text, or the memoised array of what its element
  denotes.

Indices are recorded while a declaration is being read, so these facts are
stated in the state reached at the end. They carry over because a
construction changes the record only of *pending* nodes: an unrecorded
declaration of a kind that is built, or a member of a declaration not yet
recorded. A recorded declaration's index never changes again.

Declarations are syntax nodes, so two different declarations never share a
node, and a member never shares a node with a declaration. The model states
this as `Declarations.WellIdentified`, which every builder operation
requires of the checker's declarations.

**The es2panda module record.** `SourceTextModuleRecord` collects a module's
imports and exports while the parser reads it. It deduplicates module
requests and refuses a second export of the same name. It re-files a local
export of an imported binding as an indirect export, whichever of the two
it sees first. This is the ParseModule classification of ECMA-262, section
16.2.1.6.1 (2022 edition).

The record's invariant `Valid` says four things:

- Export names are distinct across local and indirect exports.
- Every entry is well formed.
- No local export names an imported binding.
- The request list and its index map agree.

Every add operation is proved to preserve `Valid`.

Files:

- `wrappers.dfy`: `Option`.
- `ordered_maps.dfy`: insertion-ordered maps, as JavaScript's `Map` behaves.
- `type_defs.dfy`: the enums and the descriptors.
- `declarations.dfy`: the syntax and the checker as the builder sees them.
- `type_encoding.dfy`: the literal encoding and its decoder.
- `type_state.dfy`: the buffer and the recorder.
- `type_builder.dfy`: declared types.
- `type_nodes.dfy`: unions, arrays and type references.
- `module_record.dfy`: the module record.

A note on the source as written. A property initialised with `new` is handled
in two steps:

- `ClassType` binds the variable to a fresh class instance
  (`ts2panda/src/base/typeSystem.ts:228-233`).
- `getTypeIndexForDeclWithType` then binds the same variable again, to the
  class's own index (`ts2panda/src/base/typeSystem.ts:150-152`).

The model does exactly this, assuming a later binding replaces an earlier
one. The recorder's code is not part of this model, so this is not reported
as a defect.

## Model

| member | source | states |
|---|---|---|
| `OrderedMaps.Put` | ts2panda/src/base/typeSystem.ts:323-328 | setting a name that is present keeps the key order; a new name is appended at the end |
| `OrderedMaps.PutGet` | ts2panda/src/base/typeSystem.ts:323-328 | after setting `k` to `v`, `k` reads `v` and every other name reads what it read before |
| `OrderedMaps.PutKeepsKeysDistinct` | ts2panda/src/base/typeSystem.ts:323-328 | setting a name never creates a second entry with the same name |
| `OrderedMaps.PutIsPutOf` | ts2panda/src/base/typeSystem.ts:323-328 | after setting a name, the key list is the old one with the name appended when it was new; the name reads the value and every other name reads what it read before |
| `Declarations.FieldName` | ts2panda/src/base/typeSystem.ts:281-293 | a property has a key exactly when its name is an identifier, string, numeric or computed name. The key is the name's text, or `#computed` for a computed name. Any other name kind has no key, which is the error case |
| `Declarations.AccessFlagOf` | ts2panda/src/base/typeSystem.ts:485-503 | the access flag is public exactly when there is no private or protected keyword. Private implies a private keyword and protected implies a protected keyword |
| `Declarations.LastAccessKeywordWins` | ts2panda/src/base/typeSystem.ts:485-503 | when several access keywords appear, the last private or protected keyword decides the flag, whatever other modifiers follow it |
| `Declarations.ClassModifierOf` | ts2panda/src/base/typeSystem.ts:246-260 | a class is abstract exactly when it carries the abstract keyword; the modifier is always one of the two flags |
| `Declarations.StaticFlagOf` | ts2panda/src/base/typeSystem.ts:497-499 | a function is static exactly when it carries the static keyword |
| `Declarations.ReadonlyFlagOf` | ts2panda/src/base/typeSystem.ts:313-316 | a property is readonly exactly when it carries the readonly keyword |
| `Declarations.HeritageRefs` | ts2panda/src/base/typeSystem.ts:262-277 | heritage types are visited clause by clause, every listed type once |
| `Declarations.HeritageRefAt` | ts2panda/src/base/typeSystem.ts:262-277 | the k-th type of the j-th clause is visited right after every type the earlier clauses list, together with its clause's text |
| `TypeStates.Reserve` | ts2panda/src/base/typeSystem.ts:216-222 | a placeholder is appended at the end of the buffer. The declaration is recorded under that slot's index plus 50, and no other declaration's record changes |
| `TypeStates.NewClassInst` | ts2panda/src/base/typeSystem.ts:417-428 | one fresh slot holds the referred class's index plus 50. The variable is bound, as user-defined, to that new slot's own index plus 50, not to any earlier instance of the class. The recorder's other maps and the other variables are untouched |
| `TypeStates.ClassInstNotMemoised` | ts2panda/src/base/typeSystem.ts:417-428 | instantiating the same class for two variables gives two distinct slots with equal contents |
| `TypeStates.NewExternal` | ts2panda/src/base/typeSystem.ts:542-550 | one fresh slot holds `#importName#redirectPath`; its raw (unshifted) index is returned and the recorder is untouched |
| `TypeStates.ExternalNotMemoised` | ts2panda/src/base/typeSystem.ts:542-550 | importing the same name twice gives two distinct slots with equal contents |
| `TypeStates.NewSummary` | ts2panda/src/base/typeSystem.ts:180-183 | the summary reserves a placeholder at the end of the buffer and keeps its index |
| `TypeStates.SetInfo` | ts2panda/src/base/typeSystem.ts:185-189 | only the reserved slot changes, and it now holds the summary's counts |
| `TypeStates.SummaryFillsItsOwnSlot` | ts2panda/src/base/typeSystem.ts:180-189 | while the pass only appends, the summary's slot stays a placeholder. Filling it at the end writes exactly that slot and keeps a valid state valid |
| `TypeStates.ValidAfterFill` | ts2panda/src/base/typeSystem.ts:164-166 | overwriting a placeholder keeps the memo maps pointing at unions and at the arrays of their elements |
| `TypeStates.RefCarried` | ts2panda/src/base/typeSystem.ts:116-127 | what an identifier resolves to stays so while only pending nodes, and nodes no resolvable declaration has, change their records |
| `TypeStates.PendingShrinks` | ts2panda/src/base/typeSystem.ts:116-127 | once more declarations are recorded, no new declaration becomes unbuilt and no new member starts waiting for its owner |
| `TypeEncoding.FieldEntries` | ts2panda/src/base/typeSystem.ts:394-404 | every field entry takes four literals: name, type index, access flag and readonly flag |
| `TypeEncoding.MethodEntries` | ts2panda/src/base/typeSystem.ts:406-414 | every method entry takes two literals: name and type index |
| `TypeEncoding.ReadIntsEncoded` | ts2panda/src/base/typeSystem.ts:377-380 | reading `n` integers back from `n` written integers gives them in order and leaves the rest of the buffer |
| `TypeEncoding.ReadStrsEncoded` | ts2panda/src/base/typeSystem.ts:197-199 | reading `n` strings back from `n` written strings gives them in order and leaves the rest of the buffer |
| `TypeEncoding.ReadCountedEncoded` | ts2panda/src/base/typeSystem.ts:377-380 | a count-prefixed list of integers reads back as the list |
| `TypeEncoding.ReadFieldEntriesEncoded` | ts2panda/src/base/typeSystem.ts:394-404 | field entries read back as the same table, in order |
| `TypeEncoding.ReadMethodEntriesEncoded` | ts2panda/src/base/typeSystem.ts:406-414 | method entries read back as the same table, in order |
| `TypeEncoding.ReadFieldsEncoded` | ts2panda/src/base/typeSystem.ts:394-404 | a count-prefixed field table reads back as the table |
| `TypeEncoding.ReadMethodsEncoded` | ts2panda/src/base/typeSystem.ts:406-414 | a count-prefixed method table reads back as the table |
| `TypeEncoding.ReadClassTablesEncoded` | ts2panda/src/base/typeSystem.ts:382-388 | instance fields, instance methods, static fields and static methods read back in that order, consuming everything |
| `TypeEncoding.DecodeClassBodyEncoded` | ts2panda/src/base/typeSystem.ts:369-392 | a class body reads back as the same class: modifier, extended type, implemented types and the four tables |
| `TypeEncoding.DecodeInterfaceBodyEncoded` | ts2panda/src/base/typeSystem.ts:816-854 | an interface body reads back as the same interface: heritages, fields and method types |
| `TypeEncoding.ClassLayoutRejectsInterface` | ts2panda/src/base/typeSystem.ts:816-833 | although an interface shares the class tag, its encoding never parses as a class |
| `TypeEncoding.RejectsWithoutHeritage` | ts2panda/src/base/typeSystem.ts:816-833 | an interface without heritage does not parse as a class |
| `TypeEncoding.RejectsWithOneHeritage` | ts2panda/src/base/typeSystem.ts:816-833 | an interface with one heritage does not parse as a class |
| `TypeEncoding.SummaryRoundTrip` | ts2panda/src/base/typeSystem.ts:191-202 | the summary's `_COUNTER, classNum, n, s1..sn` layout decodes to the same summary |
| `TypeEncoding.ClassRoundTrip` | ts2panda/src/base/typeSystem.ts:369-392 | a class's encoding decodes to the same class |
| `TypeEncoding.FunctionRoundTrip` | ts2panda/src/base/typeSystem.ts:524-539 | the `FUNCTION, access, static, name, n, params, return` layout decodes to the same function |
| `TypeEncoding.UnionRoundTrip` | ts2panda/src/base/typeSystem.ts:609-619 | the `UNION, n, members` layout decodes to the same union |
| `TypeEncoding.InterfaceRoundTrip` | ts2panda/src/base/typeSystem.ts:816-833 | an interface's encoding decodes to the same interface, not to a class |
| `TypeEncoding.DecodeEncode` | ts2panda/src/base/typeSystem.ts:430-439 | every well-formed descriptor, the placeholder's empty buffer and the two-literal class instance, external and array layouts included, decodes back to itself |
| `TypeBuilder.GetOrCreate` | ts2panda/src/base/typeSystem.ts:116-127 | an unresolvable identifier gives ANY with nothing changed. A recorded declaration, or one of a kind that is not built, gives its recorded index with nothing changed. An unrecorded function-like or class declaration is built in the first new slot: the result is that slot's index plus 50, and the slot holds a function or class descriptor of that declaration. Every success is the index the recorder then holds for the declaration, never ANY for a buildable one. Only pending nodes change their records and the memo maps are untouched |
| `TypeBuilder.CreateType` | ts2panda/src/base/typeSystem.ts:96-114 | a function-like declaration or a class gets a function or class descriptor in the first new slot and is recorded under that slot's index plus 50. Any other kind changes nothing |
| `TypeBuilder.TypeIndexForDecl` | ts2panda/src/base/typeSystem.ts:129-158 | no annotation gives ANY with nothing bound. A primitive answer from the checker is the result and cannot fail. Otherwise the result is what the annotation's identifier resolves to: the declaration's recorded index, or ANY when it does not resolve. The variable is bound to the result, flagged user-defined exactly when the checker answered ANY |
| `TypeBuilder.BuildFunction` | ts2panda/src/base/typeSystem.ts:450-475 | the function occupies the first new slot and is recorded under its index plus 50. The slot holds the name (or `constructor`), the access and static flags as the keywords say, and one entry per parameter. Each parameter entry and the return type are what the annotations resolve to. The variable is bound to the slot's index plus 50 |
| `TypeBuilder.ReadFunction` | ts2panda/src/base/typeSystem.ts:505-518 | one type per parameter, in order, then the return type. Each is what its annotation resolves to, in the state reached at the end |
| `TypeBuilder.FinishFunction` | ts2panda/src/base/typeSystem.ts:466-471 | the variable is bound to the function's shifted index and the reserved slot receives a function descriptor of the declaration |
| `TypeBuilder.FillParameters` | ts2panda/src/base/typeSystem.ts:505-513 | one type index per parameter, in order, each what the parameter's annotation resolves to, and still so after the later parameters are read |
| `TypeBuilder.BuildClass` | ts2panda/src/base/typeSystem.ts:216-240 | the class occupies the first new slot and is recorded under its index plus 50. Its modifier is abstract exactly when the abstract keyword is present. Its implemented types are what the `implements` identifiers resolve to, in order. Its extended type is what the last `extends` identifier resolves to, or ANY. After `new` the variable is bound to the last slot of the buffer, a fresh instance referring to the class, at that slot's index plus 50; otherwise it is bound to the class |
| `TypeBuilder.ReadClass` | ts2panda/src/base/typeSystem.ts:224-226 | heritage is read before members, and what the heritage types resolve to still holds once the members are read |
| `TypeBuilder.BindClassVariable` | ts2panda/src/base/typeSystem.ts:228-236 | after `new` exactly one slot is appended, holding an instance of the class, and the variable is bound to that slot's index plus 50; otherwise the variable points at the class |
| `TypeBuilder.FinishClass` | ts2panda/src/base/typeSystem.ts:228-237 | the variable is bound before the reserved slot receives the class, after `new` to the instance in the last slot and otherwise to the class, and nothing before the reservation changes |
| `TypeBuilder.FillClassHeritages` | ts2panda/src/base/typeSystem.ts:262-277 | the types under `implements` clauses are appended in order, each what its identifier resolves to. The extended type is what the last `extends` identifier resolves to, and stays as it was when there is none |
| `TypeBuilder.FillClassMembers` | ts2panda/src/base/typeSystem.ts:349-367 | reading the members keeps the buffer's prefix and the memo maps. Only pending nodes and the members themselves change their records |
| `TypeBuilder.ClassMethod` | ts2panda/src/base/typeSystem.ts:331-347 | the method's function is built and recorded. Its recorded index addresses a function descriptor of the method. The method's name reads that index in the static table when the method is static and in the instance table otherwise. Every other name keeps its entry and the field tables are untouched. The name node is bound to the index as user-defined |
| `TypeBuilder.ClassField` | ts2panda/src/base/typeSystem.ts:279-329 | a property with an invalid name throws with nothing changed. A static property goes only to the static fields and any other only to the instance fields. A repeated key keeps its place and a new key is appended. The key reads the property's info and every other key keeps its value |
| `TypeBuilder.ReadField` | ts2panda/src/base/typeSystem.ts:279-322 | the key follows the name rules and static follows the keyword. The info is public unless private or protected is present, and readonly exactly when the keyword is present. Its type index is what the annotation resolves to. With an annotation, the name node is bound to that index |
| `TypeBuilder.BuildInterface` | ts2panda/src/base/typeSystem.ts:708-725 | the interface occupies the first new slot and is recorded under its index plus 50. Its heritages are what the listed identifiers resolve to, in order. Its method types address, in order, function slots built for its method signatures. The variable is bound to its shifted index |
| `TypeBuilder.FinishInterface` | ts2panda/src/base/typeSystem.ts:719-724 | the variable is bound to the interface's index plus 50, then the reserved slot receives an interface whose heritages resolve and whose method types address the built methods; nothing before the reservation changes |
| `TypeBuilder.ReadInterface` | ts2panda/src/base/typeSystem.ts:716-717 | heritages are read before members: one per listed type, each what its identifier resolves to, with one method type per method signature |
| `TypeBuilder.FillInterfaceHeritages` | ts2panda/src/base/typeSystem.ts:731-741 | every listed heritage type is resolved in order, whatever its clause |
| `TypeBuilder.InterfaceMethod` | ts2panda/src/base/typeSystem.ts:786-797 | the signature's function is built and recorded. The method type is its recorded index, which addresses a function descriptor of the signature. The name node is bound to that index |
| `TypeBuilder.InterfaceField` | ts2panda/src/base/typeSystem.ts:743-784 | a property signature with an invalid name throws with nothing changed. Otherwise its key reads its info, a repeated key keeps its place, and every other key keeps its value |
| `TypeBuilder.FillInterfaceMembers` | ts2panda/src/base/typeSystem.ts:799-814 | method types are collected in member order, one per method signature, each addressing a function slot built for it |
| `TypeBuilder.SelfReferenceResolves` | ts2panda/src/base/typeSystem.ts:216-222 | once a declaration's slot is reserved, naming the declaration gives that slot's index plus 50 and changes nothing, in every state reached while its heritage and members are read |
| `TypeBuilder.RecordedAnnotationAppendsNothing` | ts2panda/src/base/typeSystem.ts:116-127 | an annotation naming an already-recorded declaration gives its index and leaves the buffer and the records unchanged |
| `TypeNodes.ResolveTypeNode` | ts2panda/src/base/typeSystem.ts:601-607 | the result is what the node denotes: a keyword type its primitive, a reference what its identifier resolves to, a union the index memoised under its text, an array the memoised array of what its element denotes. Keyword types, resolved references and memoised unions change nothing. Valid states stay valid and memo entries never change |
| `TypeNodes.BuildUnion` | ts2panda/src/base/typeSystem.ts:576-587 | a memoised text gives its index with nothing changed. A new text takes the first new slot, whose index plus 50 is returned and memoised under the text. That slot holds a union with one entry per member, each what its member denotes |
| `TypeNodes.FillUnion` | ts2panda/src/base/typeSystem.ts:601-607 | one index per member, in order, each what its member denotes in the state reached at the end |
| `TypeNodes.BuildArray` | ts2panda/src/base/typeSystem.ts:626-642 | the element is resolved first. The result is what the array memo holds for the index the element denotes; a keyword element's array is memoised under its primitive. A valid state stays valid, so that memo entry addresses a slot holding the array of the element's index. The existing buffer is unchanged |
| `TypeNodes.ArrayForElement` | ts2panda/src/base/typeSystem.ts:633-642 | a memoised element gives its index with nothing changed. Otherwise exactly one slot holding that element's array is appended, at index plus 50, and memoised |
| `TypeNodes.NodeCarried` | ts2panda/src/base/typeSystem.ts:601-642 | what a type node denotes stays so while only pending nodes change their records and memo entries are kept |
| `TypeNodes.NodeAfterMemo` | ts2panda/src/base/typeSystem.ts:582-584 | memoising a union text leaves alone what every node not mentioning that text denotes |
| `TypeNodes.UnionMemoValid` | ts2panda/src/base/typeSystem.ts:582-585 | memoising a text under its reserved slot and filling that slot with the union keeps a valid state valid |
| `TypeNodes.ArrayMemoValid` | ts2panda/src/base/typeSystem.ts:637-640 | appending an array and memoising it under its element keeps a valid state valid |
| `TypeNodes.UnionBuiltOnce` | ts2panda/src/base/typeSystem.ts:576-587 | resolving a union text a second time, whatever its members, gives the same index and changes nothing |
| `TypeNodes.ArrayBuiltOnce` | ts2panda/src/base/typeSystem.ts:633-642 | asking for the array of the same element again gives the same index and changes nothing |
| `TypeNodes.ArraysDistinctByElement` | ts2panda/src/base/typeSystem.ts:633-642 | in a valid state, two element indices share an array slot exactly when they are equal, and the slot holds that element's array |
| `TypeNodes.UnionSlotHoldsUnion` | ts2panda/src/base/typeSystem.ts:576-587 | a built or memoised union addresses a slot holding a union |
| `ModuleRecord.AddModuleRequest` | es2panda/parser/module/module.cpp:20-29 | the returned index names the source in the request list. A known source changes nothing. A new source gets the next index and is appended. Only the request collections change, and consistency is kept |
| `ModuleRecord.AddModuleRequestIdempotent` | es2panda/parser/module/module.cpp:20-29 | requesting the same source twice gives the same index and the same record |
| `ModuleRecord.AddModuleRequestPreservesValid` | es2panda/parser/module/module.cpp:20-29 | adding a request keeps the record valid |
| `ModuleRecord.ExportNameIn` | es2panda/parser/module/module.cpp:109-120 | true exactly when some entry has the export name |
| `ModuleRecord.CheckDuplicateExports` | es2panda/parser/module/module.cpp:107-123 | true exactly when no local or indirect export already uses the name |
| `ModuleRecord.AddIndirectExportEntry` | es2panda/parser/module/module.cpp:84-95 | succeeds exactly when the export name is fresh, and then appends the entry. Otherwise the record is unchanged |
| `ModuleRecord.AddIndirectExportEntryPreservesValid` | es2panda/parser/module/module.cpp:84-95 | adding an indirect export keeps the record valid |
| `ModuleRecord.ConvertExportToIndirect` | es2panda/parser/module/module.cpp:125-140 | an export of an imported binding becomes indirect: it takes the import's name and request and loses its local name. It is appended exactly when its name is fresh. Any other export is left alone |
| `ModuleRecord.AddLocalExportEntry` | es2panda/parser/module/module.cpp:61-79 | succeeds exactly when the export name is fresh. An export of an imported binding is then appended to the indirect exports, and any other to the local exports. A refusal changes nothing |
| `ModuleRecord.AddLocalExportEntryPreservesValid` | es2panda/parser/module/module.cpp:61-79 | adding a local export keeps the record valid |
| `ModuleRecord.ConvertLocalExportsToIndirect` | es2panda/parser/module/module.cpp:142-163 | every local export of the imported name moves to the end of the indirect exports, rewritten. Exactly those leave the local exports; others stay, and the rest of the record is untouched |
| `ModuleRecord.RedirectAllKeepsNames` | es2panda/parser/module/module.cpp:151-161 | rewriting moved exports keeps their export names |
| `ModuleRecord.UniqueAfterMove` | es2panda/parser/module/module.cpp:151-162 | moving local exports to the indirect list cannot create a duplicate export name |
| `ModuleRecord.MovedEntriesWellFormed` | es2panda/parser/module/module.cpp:151-162 | moved exports are well-formed indirect exports, and the local exports left behind name no imported binding |
| `ModuleRecord.AddImportEntry` | es2panda/parser/module/module.cpp:35-45 | the import is recorded unless its local name is already imported. Local exports of that name move to the indirect list and no others do |
| `ModuleRecord.AddImportEntryPreservesValid` | es2panda/parser/module/module.cpp:35-45 | adding an import keeps the record valid |
| `ModuleRecord.AddStarImportEntry` | es2panda/parser/module/module.cpp:48-54 | the namespace import is appended unconditionally and nothing else changes |
| `ModuleRecord.AddStarImportEntryPreservesValid` | es2panda/parser/module/module.cpp:48-54 | adding a namespace import keeps the record valid |
| `ModuleRecord.AddStarExportEntry` | es2panda/parser/module/module.cpp:98-105 | the star export is appended unconditionally and nothing else changes |
| `ModuleRecord.AddStarExportEntryPreservesValid` | es2panda/parser/module/module.cpp:98-105 | adding a star export keeps the record valid |
| `ModuleRecord.ImportExportOrderIndependent` | es2panda/parser/module/module.cpp:35-79 | an import followed by an export of the same binding, and the reverse order, both leave one indirect export and the same local exports |

## Left out

- The TypeScript checker, the type recorder and the code generator's buffer
  are not part of this model:
  - The checker's `checkDeclarationType` is the `checked` field of an
    annotation.
  - `getTypeDeclForIdentifier` is a finite map from identifier text to
    declaration (`Checker.declOf`).
  - The recorder and the buffer are the fields of `TypeState`.
  - Resolving by identifier text, not by syntax node, is a simplification of
    the checker's symbol lookup.
- `getOrCreateRecordForTypeNode` belongs to the checker, which is not part of
  this model. `TypeNodes.ResolveTypeNode` stands in for it. It covers keyword
  types, type references, unions and arrays; no other type node kind is
  modelled.
- Syntax-node text extraction (`getText`, `getTextOfIdentifierOrLiteral`) is
  not modelled: names, clause texts and union texts are given as strings in
  the nodes.
- Logging (`LOGD`, `console.log`) is left out. `createType` on an unsupported
  kind only logs, so the model leaves the state unchanged.
- `ObjectLiteralType` is an empty stub in the source. Only its tag constant
  is modelled.
- `ArrayType.getReferencedType` is never called by the modelled code.
- `module.h` is not part of this model. The module record assumes two things
  about its containers:
  - Inserting an existing key into the regular-import map keeps the first
    entry.
  - The local exports of one key are visited in insertion order.
- The parser's arena pointers and in-place rewriting of entries are modelled
  as immutable values. The `ASSERT`s become `requires` clauses.
- `TypeStates.SetInfo`, `TypeStates.NewSummary`: the counts the summary
  receives are computed elsewhere in the compiler and are parameters here.
- `TypeBuilder.FillClassMembers`: its contract states only what the pass keeps
  (the buffer prefix, records, memo maps). Each member's effect on the tables
  is stated on `TypeBuilder.ClassMethod` and `TypeBuilder.ClassField`.
- `TypeBuilder.FillInterfaceMembers`: states the method list but not the field
  table; the per-property contract is that of `TypeBuilder.InterfaceField`.
- `TypeBuilder.BuildInterface`: states each method type by the shape of its
  function descriptor (name, flags, parameter count). What the parameter and
  return types resolve to is stated by `TypeBuilder.InterfaceMethod`, in the
  state where each method is built. The field table's contents are not
  stated.
- `TypeBuilder.BuildClass`: states the modifier and the heritage of the
  written class, not the contents of its member tables.
- `TypeBuilder.FillParameters`: the binding of each parameter's name node is
  stated per parameter by `TypeBuilder.TypeIndexForDecl`, not repeated for
  the whole list.
- `TypeBuilder.TypeIndexForDecl`: the checker's `checkDeclarationType` is
  taken to have no effect on the buffer or the recorder, and its answer is
  the annotation's `checked` field. So an annotation written as a union or an
  array never reaches `TypeNodes.ResolveTypeNode` through this path; the
  model follows only the leading identifier, as the source does when the
  answer is ANY.
- `TypeNodes.BuildUnion`: what a member denotes is not stated for a member
  that itself contains a union with the same text. That inner union's memo
  entry is overwritten by the outer union's.
- `TypeNodes.ResolveTypeNode`: for a reference to a declaration not yet
  recorded, the slot it creates is described by `TypeBuilder.GetOrCreate`,
  not repeated here.
