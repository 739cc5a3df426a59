/**
 The type table builder for declarations: user-defined type lookup and
 creation, class types, function types and interface types with their
 fill-in steps.

 Every builder reserves its slot and records the declaration under the
 slot's shifted index before it resolves anything the declaration refers
 to, so a reference back to a type under construction finds that index.
 The recursion ends because every creation records one more declaration
 that the checker can resolve to, and there are finitely many of them;
 otherwise it descends into strictly smaller syntax.

 What an annotation or heritage type resolves to is stated against the
 recorder's map of declaration nodes: the index recorded for the
 declaration it names, which no later construction changes (see
 `RefResolves`), so each such fact still holds in every later state.
 */
module TypeBuilder {
  import opened Wrappers
  import opened OrderedMaps
  import opened TypeDefs
  import opened Declarations
  import opened TypeStates

  /** A class's heritage as its clauses are read. */
  datatype ClassHeritage = ClassHeritage(extendsHeritage: int, implementsHeritages: seq<int>)

  const NO_HERITAGE: ClassHeritage := ClassHeritage(ANY, [])

  /** A class's member tables as its members are read. */
  datatype ClassTables = ClassTables(
    fields: FieldTable, methods: MethodTable,
    staticFields: FieldTable, staticMethods: MethodTable)

  const EMPTY_TABLES: ClassTables := ClassTables([], [], [], [])

  /** An interface's member tables as its members are read. */
  datatype InterfaceTables = InterfaceTables(fields: FieldTable, methods: seq<int>)

  /** A property's key, its info, and whether it is declared static. */
  datatype FieldRead = FieldRead(name: string, info: FieldInfo, isStatic: bool)

  /* ---------------------------------------------------------------------- */
  /* What the built types hold                                               */
  /* ---------------------------------------------------------------------- */

  /**
   What a declaration's annotation resolves to: ANY without an annotation,
   the checker's answer when that is a primitive, and otherwise what the
   identifier the annotation begins with resolves to.
   */
  predicate Resolves(c: Checker, idx: map<NodeId, int>, d: Decl, typeIndex: int) {
    match d.annotation
    case None => typeIndex == ANY
    case Some(a) =>
      if a.checked != ANY then typeIndex == a.checked else RefResolves(c, idx, a.head, typeIndex)
  }

  /** Each declaration's annotation resolves to the index at its position. */
  predicate DeclsResolve(c: Checker, idx: map<NodeId, int>, ds: seq<Decl>, ts: seq<int>) {
    |ts| == |ds| && forall i :: 0 <= i < |ds| ==> Resolves(c, idx, ds[i], ts[i])
  }

  /** Each identifier resolves to the index at its position. */
  predicate AllResolve(c: Checker, idx: map<NodeId, int>, ids: seq<string>, ts: seq<int>) {
    |ts| == |ids| && forall i :: 0 <= i < |ids| ==> RefResolves(c, idx, ids[i], ts[i])
  }

  /** A heritage clause counts as `extends` or `implements` by how its text begins. */
  predicate IsExtends(ref: HeritageRef) {
    "extends " <= ref.clauseText
  }

  predicate IsImplements(ref: HeritageRef) {
    !IsExtends(ref) && "implements " <= ref.clauseText
  }

  /** The identifiers of the heritage types, in order. */
  function Identifiers(refs: seq<HeritageRef>): seq<string> {
    if |refs| == 0 then [] else [refs[0].identifier] + Identifiers(refs[1..])
  }

  /** The identifiers listed under `implements` clauses, in order. */
  function ImplementsIds(refs: seq<HeritageRef>): seq<string> {
    if |refs| == 0 then []
    else (if IsImplements(refs[0]) then [refs[0].identifier] else []) + ImplementsIds(refs[1..])
  }

  /** The identifier listed last under an `extends` clause, if any: a later one wins. */
  function LastExtends(refs: seq<HeritageRef>): Option<string> {
    if |refs| == 0 then None
    else if LastExtends(refs[1..]).Some? then LastExtends(refs[1..])
    else if IsExtends(refs[0]) then Some(refs[0].identifier)
    else None
  }

  /** The extended type: what the last `extends` type resolves to, `otherwise` when there is none. */
  predicate ExtendsResolves(c: Checker, idx: map<NodeId, int>, refs: seq<HeritageRef>, otherwise: int, t: int) {
    match LastExtends(refs)
    case None => t == otherwise
    case Some(x) => RefResolves(c, idx, x, t)
  }

  /**
   A class's heritage read from `refs`: the implemented types resolve the
   `implements` identifiers in order, and the extended type resolves the
   last `extends` identifier, ANY when there is none.
   */
  predicate HeritageResolves(c: Checker, idx: map<NodeId, int>, refs: seq<HeritageRef>, h: ClassHeritage) {
    && AllResolve(c, idx, ImplementsIds(refs), h.implementsHeritages)
    && ExtendsResolves(c, idx, refs, ANY, h.extendsHeritage)
  }

  /** The part of a function descriptor that does not depend on resolving types. */
  predicate IsFunctionShapeOf(desc: Descriptor, f: Decl) {
    && desc.Function?
    && desc.name == FunctionName(f)
    && desc.accessFlag == AccessFlagOf(f.modifiers)
    && (desc.modifierStatic == STATIC <==> StaticKeyword in f.modifiers)
    && |desc.parameters| == |f.parameters|
  }

  /** A descriptor built for function declaration `f`. */
  predicate IsFunctionOf(c: Checker, idx: map<NodeId, int>, desc: Descriptor, f: Decl) {
    && IsFunctionShapeOf(desc, f)
    && DeclsResolve(c, idx, f.parameters, desc.parameters)
    && Resolves(c, idx, f, desc.returnType)
  }

  /** A descriptor built for class declaration `d`. */
  predicate IsClassOf(c: Checker, idx: map<NodeId, int>, desc: Descriptor, d: Decl) {
    && desc.Class?
    && WellFormed(desc)
    && (desc.modifier == ABSTRACT <==> AbstractKeyword in d.modifiers)
    && HeritageResolves(c, idx, HeritageRefs(d.heritageClauses), ClassHeritage(desc.extendsHeritage, desc.implementsHeritages))
  }

  /** The method signatures among an interface's members, in order. */
  function MethodSignatures(members: seq<Decl>): seq<Decl> {
    if |members| == 0 then []
    else (if members[0].kind == MethodSignature then [members[0]] else []) + MethodSignatures(members[1..])
  }

  /** Each index addresses a function slot built for the signature at its position. */
  predicate MethodsBuilt(buffer: seq<Descriptor>, sigs: seq<Decl>, ts: seq<int>) {
    |ts| == |sigs| && forall j :: 0 <= j < |sigs| ==> 0 <= ts[j] - LENGTH < |buffer| && IsFunctionShapeOf(buffer[ts[j] - LENGTH], sigs[j])
  }

  /** A descriptor built for interface declaration `d` in `buffer`. */
  predicate IsInterfaceOf(c: Checker, idx: map<NodeId, int>, buffer: seq<Descriptor>, desc: Descriptor, d: Decl) {
    && desc.Interface?
    && AllResolve(c, idx, Identifiers(HeritageRefs(d.heritageClauses)), desc.heritages)
    && MethodsBuilt(buffer, MethodSignatures(d.members), desc.methodTypes)
  }

  /**
   The info of property `m`: its type index as its annotation resolves,
   public unless a private or protected keyword is present, readonly exactly
   when the readonly keyword is present.
   */
  predicate IsFieldInfoOf(c: Checker, idx: map<NodeId, int>, info: FieldInfo, m: Decl) {
    && Resolves(c, idx, m, info.typeIndex)
    && (info.access == PUBLIC <==> PrivateKeyword !in m.modifiers && ProtectedKeyword !in m.modifiers)
    && (info.access == PRIVATE ==> PrivateKeyword in m.modifiers)
    && (info.access == PROTECTED ==> ProtectedKeyword in m.modifiers)
    && (info.readonly == READONLY <==> ReadonlyKeyword in m.modifiers)
  }

  /**
   `after` is `before` with property `m`'s info filed under `name`: the key
   keeps its place when present and is appended otherwise, and every other
   key keeps its value.
   */
  ghost predicate Filed(c: Checker, idx: map<NodeId, int>, after: FieldTable, before: FieldTable, name: string, m: Decl) {
    && Get(after, name).Some?
    && IsFieldInfoOf(c, idx, Get(after, name).value, m)
    && PutOf(after, before, name, Get(after, name).value)
  }

  /* ---------------------------------------------------------------------- */
  /* User-defined types                                                      */
  /* ---------------------------------------------------------------------- */

  /**
   The shifted index of the type an identifier names. An identifier the
   checker cannot resolve gives ANY; a declaration already recorded gives its
   recorded index and changes nothing; a method-like or class declaration
   is created in the next slot; any other declaration gives ANY.
   */
  function GetOrCreate(c: Checker, st: TypeState, identifier: string, isNew: bool, variable: Option<NodeId>): (r: Run<int>)
    requires WellIdentified(c)
    ensures Evolves(st, r.st) && r.st.unionMap == st.unionMap && r.st.arrayMap == st.arrayMap
    ensures KeepsIndicesBut(st.nodeIndex, r.st.nodeIndex, Pending(c, st.nodeIndex))
    ensures identifier !in c.declOf ==> r == Ok(ANY, st)
    ensures identifier in c.declOf && TryGetTypeIndex(st, c.declOf[identifier].id) != ANY ==>
              r == Ok(TryGetTypeIndex(st, c.declOf[identifier].id), st)
    ensures identifier in c.declOf && !Buildable(c.declOf[identifier]) ==>
              r == Ok(TryGetTypeIndex(st, c.declOf[identifier].id), st)
    ensures r.Ok? ==> RefResolves(c, r.st.nodeIndex, identifier, r.value)
    ensures r.Ok? && identifier in c.declOf && TryGetTypeIndex(st, c.declOf[identifier].id) == ANY && Buildable(c.declOf[identifier]) ==>
              && r.value == Shift(|st.buffer|) && |st.buffer| < |r.st.buffer|
              && (IsFunctionLike(c.declOf[identifier].kind) ==> IsFunctionOf(c, r.st.nodeIndex, r.st.buffer[|st.buffer|], c.declOf[identifier]))
              && (c.declOf[identifier].kind == ClassDeclaration ==> IsClassOf(c, r.st.nodeIndex, r.st.buffer[|st.buffer|], c.declOf[identifier]))
    decreases |Unrecorded(c, st)|, 0, 0
  {
    if identifier !in c.declOf then Ok(ANY, st)
    else
      var decl := c.declOf[identifier];
      var typeIndex := TryGetTypeIndex(st, decl.id);
      assert decl in c.declOf.Values;
      if typeIndex == ANY then
        IsUnrecorded(c, st, identifier);
        RemoveShrinks(Unrecorded(c, st), decl.id);
        assert c.declOf.Values + {decl} == c.declOf.Values;
        var created := CreateType(c, st, decl, isNew, variable);
        CreatedKeeps(c, st.nodeIndex, created.st.nodeIndex, decl);
        if created.Thrown? then Thrown(created.st)
        else Ok(TryGetTypeIndex(created.st, decl.id), created.st)
      else
        Ok(typeIndex, st)
  }

  /** Creating an unrecorded declaration changes only pending nodes. */
  lemma CreatedKeeps(c: Checker, idx: map<NodeId, int>, idx': map<NodeId, int>, decl: Decl)
    requires decl in c.declOf.Values && Lookup(idx, decl.id) == ANY
    requires KeepsIndicesBut(idx, idx', Pending(c, idx) + {decl.id} + MemberIds(decl.members))
    requires !Buildable(decl) ==> idx' == idx
    ensures KeepsIndicesBut(idx, idx', Pending(c, idx))
  {
    if Buildable(decl) {
      UnbuiltPending(c, idx, decl);
    }
  }

  /**
   Creates the type of a method-like or class declaration and records the
   declaration under its slot's shifted index; any other kind is not
   supported and leaves the state as it is.
   */
  function CreateType(c: Checker, st: TypeState, decl: Decl, isNew: bool, variable: Option<NodeId>): (r: Run<()>)
    requires WellIdentified(c) && Identified(c, decl)
    ensures Evolves(st, r.st) && r.st.unionMap == st.unionMap && r.st.arrayMap == st.arrayMap
    ensures KeepsIndicesBut(st.nodeIndex, r.st.nodeIndex, Pending(c, st.nodeIndex) + {decl.id} + MemberIds(decl.members))
    ensures !Buildable(decl) ==> r == Ok((), st)
    ensures r.Ok? && Buildable(decl) ==> |st.buffer| < |r.st.buffer| && TryGetTypeIndex(r.st, decl.id) == Shift(|st.buffer|)
    ensures r.Ok? && IsFunctionLike(decl.kind) ==> IsFunctionOf(c, r.st.nodeIndex, r.st.buffer[|st.buffer|], decl)
    ensures r.Ok? && decl.kind == ClassDeclaration ==> IsClassOf(c, r.st.nodeIndex, r.st.buffer[|st.buffer|], decl)
    decreases |Unrecorded(c, st) - {decl.id}|, Size(decl), 3
  {
    if IsFunctionLike(decl.kind) then
      TopLevelNotAwaiting(c, st.nodeIndex, decl);
      var built :- BuildFunction(c, st, decl, variable);
      Ok((), built.st)
    else if decl.kind == ClassDeclaration then
      var built :- BuildClass(c, st, decl, isNew, variable);
      Ok((), built.st)
    else
      Ok((), st)
  }

  /**
   The type index of a declaration's annotation. Without an annotation it is
   ANY and nothing is bound. A primitive annotation gives the checker's answer;
   otherwise the annotation's identifier is looked up or created, degrading to
   ANY when it does not resolve. The variable, when given, is bound to the
   result, flagged as user-defined exactly when the checker's answer was ANY.
   */
  function TypeIndexForDecl(c: Checker, st: TypeState, d: Decl, variable: Option<NodeId>): (r: Run<int>)
    requires WellIdentified(c)
    ensures Evolves(st, r.st) && r.st.unionMap == st.unionMap && r.st.arrayMap == st.arrayMap
    ensures KeepsIndicesBut(st.nodeIndex, r.st.nodeIndex, Pending(c, st.nodeIndex))
    ensures d.annotation.None? ==> r == Ok(ANY, st)
    ensures d.annotation.Some? && d.annotation.value.checked != ANY ==> r.Ok?
    ensures r.Ok? ==> Resolves(c, r.st.nodeIndex, d, r.value)
    ensures r.Ok? && d.annotation.Some? && variable.Some? ==>
              variable.value in r.st.variables
              && r.st.variables[variable.value] == Binding(r.value, d.annotation.value.checked == ANY)
    decreases |Unrecorded(c, st)|, Size(d), 0
  {
    match d.annotation
    case None => Ok(ANY, st)
    case Some(a) =>
      if a.checked != ANY then
        Ok(a.checked, Bind(st, variable, a.checked, false))
      else
        var found :- GetOrCreate(c, st, a.head, IsNewExpressionProperty(d), variable);
        Ok(found.value, Bind(found.st, variable, found.value, true))
  }

  /* ---------------------------------------------------------------------- */
  /* Carrying resolutions forward                                            */
  /* ---------------------------------------------------------------------- */

  lemma ResolvesCarried(c: Checker, st: TypeState, st': TypeState, extra: set<NodeId>, d: Decl, t: int)
    requires Resolves(c, st.nodeIndex, d, t)
    requires WellIdentified(c) && KeepsIndicesBut(st.nodeIndex, st'.nodeIndex, Pending(c, st.nodeIndex) + extra)
    requires TopLevelIdsAvoid(c, extra)
    ensures Resolves(c, st'.nodeIndex, d, t)
  {
    if d.annotation.Some? && d.annotation.value.checked == ANY {
      RefCarried(c, st, st', extra, d.annotation.value.head, t);
    }
  }

  lemma DeclsCarried(c: Checker, st: TypeState, st': TypeState, extra: set<NodeId>, ds: seq<Decl>, ts: seq<int>)
    requires DeclsResolve(c, st.nodeIndex, ds, ts)
    requires WellIdentified(c) && KeepsIndicesBut(st.nodeIndex, st'.nodeIndex, Pending(c, st.nodeIndex) + extra)
    requires TopLevelIdsAvoid(c, extra)
    ensures DeclsResolve(c, st'.nodeIndex, ds, ts)
  {
    forall i | 0 <= i < |ds|
      ensures Resolves(c, st'.nodeIndex, ds[i], ts[i])
    {
      ResolvesCarried(c, st, st', extra, ds[i], ts[i]);
    }
  }

  lemma AllResolveCarried(c: Checker, st: TypeState, st': TypeState, extra: set<NodeId>, ids: seq<string>, ts: seq<int>)
    requires AllResolve(c, st.nodeIndex, ids, ts)
    requires WellIdentified(c) && KeepsIndicesBut(st.nodeIndex, st'.nodeIndex, Pending(c, st.nodeIndex) + extra)
    requires TopLevelIdsAvoid(c, extra)
    ensures AllResolve(c, st'.nodeIndex, ids, ts)
  {
    forall i | 0 <= i < |ids|
      ensures RefResolves(c, st'.nodeIndex, ids[i], ts[i])
    {
      RefCarried(c, st, st', extra, ids[i], ts[i]);
    }
  }

  lemma HeritageCarried(c: Checker, st: TypeState, st': TypeState, extra: set<NodeId>, refs: seq<HeritageRef>, h: ClassHeritage)
    requires HeritageResolves(c, st.nodeIndex, refs, h)
    requires WellIdentified(c) && KeepsIndicesBut(st.nodeIndex, st'.nodeIndex, Pending(c, st.nodeIndex) + extra)
    requires TopLevelIdsAvoid(c, extra)
    ensures HeritageResolves(c, st'.nodeIndex, refs, h)
  {
    AllResolveCarried(c, st, st', extra, ImplementsIds(refs), h.implementsHeritages);
    if LastExtends(refs).Some? {
      RefCarried(c, st, st', extra, LastExtends(refs).value, h.extendsHeritage);
    }
  }

  lemma DeclsCons(c: Checker, idx: map<NodeId, int>, ds: seq<Decl>, t: int, ts: seq<int>)
    requires |ds| > 0 && Resolves(c, idx, ds[0], t) && DeclsResolve(c, idx, ds[1..], ts)
    ensures DeclsResolve(c, idx, ds, [t] + ts)
  {
    var all := [t] + ts;
    forall i | 0 <= i < |ds|
      ensures Resolves(c, idx, ds[i], all[i])
    {
      if i > 0 {
        assert ds[i] == ds[1..][i - 1] && all[i] == ts[i - 1];
      }
    }
  }

  lemma AllResolveCons(c: Checker, idx: map<NodeId, int>, ids: seq<string>, t: int, ts: seq<int>)
    requires |ids| > 0 && RefResolves(c, idx, ids[0], t) && AllResolve(c, idx, ids[1..], ts)
    ensures AllResolve(c, idx, ids, [t] + ts)
  {
    var all := [t] + ts;
    forall i | 0 <= i < |ids|
      ensures RefResolves(c, idx, ids[i], all[i])
    {
      if i > 0 {
        assert ids[i] == ids[1..][i - 1] && all[i] == ts[i - 1];
      }
    }
  }

  /* ---------------------------------------------------------------------- */
  /* Function types                                                          */
  /* ---------------------------------------------------------------------- */

  /**
   A function type: reserved and recorded, filled with its name, modifiers,
   parameter and return types, then written into its own slot; the variable,
   when given, is bound to the function's shifted index.
   */
  function BuildFunction(c: Checker, st: TypeState, f: Decl, variable: Option<NodeId>): (r: Run<int>)
    requires WellIdentified(c) && f.id !in AwaitingOwner(c, st.nodeIndex)
    ensures Evolves(st, r.st) && r.st.unionMap == st.unionMap && r.st.arrayMap == st.arrayMap
    ensures KeepsIndicesBut(st.nodeIndex, r.st.nodeIndex, Pending(c, st.nodeIndex) + {f.id})
    ensures r.Ok? ==> r.value == |st.buffer| && r.value < |r.st.buffer| && IsFunctionOf(c, r.st.nodeIndex, r.st.buffer[r.value], f)
    ensures r.Ok? ==> TryGetTypeIndex(r.st, f.id) == Shift(r.value)
    ensures r.Ok? && variable.Some? ==>
              variable.value in r.st.variables && r.st.variables[variable.value] == Binding(Shift(r.value), true)
    decreases |Unrecorded(c, st) - {f.id}|, Size(f), 2
  {
    var reserved := Reserve(st, f.id);
    var slot := reserved.value;
    ReserveShrinks(c, st, f.id);
    ReserveEvolves(st, f.id);
    var read := ReadFunction(c, reserved.st, f);
    EvolvesTransitive(st, reserved.st, read.st);
    KeepsAfterReserve(c, st, f.id, read.st, {});
    if read.Thrown? then Thrown(read.st)
    else
      SelfRecorded(c, st, f.id, read.st, {});
      Ok(slot, FinishFunction(c, st, read.st, f, variable, slot, read.value.0, read.value.1))
  }

  /** Reads a function's parameter types, then its return type. */
  function ReadFunction(c: Checker, st: TypeState, f: Decl): (r: Run<(seq<int>, int)>)
    requires WellIdentified(c)
    ensures Evolves(st, r.st) && r.st.unionMap == st.unionMap && r.st.arrayMap == st.arrayMap
    ensures KeepsIndicesBut(st.nodeIndex, r.st.nodeIndex, Pending(c, st.nodeIndex))
    ensures r.Ok? ==> DeclsResolve(c, r.st.nodeIndex, f.parameters, r.value.0) && Resolves(c, r.st.nodeIndex, f, r.value.1)
    decreases |Unrecorded(c, st)|, Size(f), 1
  {
    var params := FillParameters(c, st, f.parameters);
    if params.Thrown? then Thrown(params.st)
    else
      UnrecordedShrinks(c, st, params.st);
      var ret := TypeIndexForDecl(c, params.st, f, None);
      EvolvesTransitive(st, params.st, ret.st);
      KeepsChain(c, st, params.st, ret.st, {}, {});
      if ret.Thrown? then Thrown(ret.st)
      else
        DeclsCarried(c, params.st, ret.st, {}, f.parameters, params.value);
        Ok((params.value, ret.value), ret.st)
  }

  /** Binds the function's variable to its shifted index and writes the function into its slot. */
  function FinishFunction(c: Checker, st: TypeState, filled: TypeState, f: Decl, variable: Option<NodeId>,
                          slot: int, params: seq<int>, ret: int): (r: TypeState)
    requires Evolves(st, filled) && |st.buffer| <= slot < |filled.buffer|
    requires DeclsResolve(c, filled.nodeIndex, f.parameters, params) && Resolves(c, filled.nodeIndex, f, ret)
    ensures Evolves(st, r) && slot < |r.buffer| && IsFunctionOf(c, r.nodeIndex, r.buffer[slot], f)
    ensures r.nodeIndex == filled.nodeIndex && r.unionMap == filled.unionMap && r.arrayMap == filled.arrayMap
    ensures variable.Some? ==> variable.value in r.variables && r.variables[variable.value] == Binding(Shift(slot), true)
  {
    var bound := Bind(filled, variable, Shift(slot), true);
    BindEvolves(st, filled, variable, Shift(slot), true);
    var desc := Function(FunctionName(f), AccessFlagOf(f.modifiers), StaticFlagOf(f.modifiers), params, ret);
    FillEvolves(st, bound, slot, desc);
    SetSlot(bound, slot, desc)
  }

  /** The parameter types in order, each bound to its parameter's name. */
  function FillParameters(c: Checker, st: TypeState, ps: seq<Decl>): (r: Run<seq<int>>)
    requires WellIdentified(c)
    ensures Evolves(st, r.st) && r.st.unionMap == st.unionMap && r.st.arrayMap == st.arrayMap
    ensures KeepsIndicesBut(st.nodeIndex, r.st.nodeIndex, Pending(c, st.nodeIndex))
    ensures r.Ok? ==> DeclsResolve(c, r.st.nodeIndex, ps, r.value)
    decreases |Unrecorded(c, st)|, SizeOf(ps), 1
  {
    if |ps| == 0 then Ok([], st)
    else
      var first :- TypeIndexForDecl(c, st, ps[0], NameNode(ps[0]));
      UnrecordedShrinks(c, st, first.st);
      var rest := FillParameters(c, first.st, ps[1..]);
      EvolvesTransitive(st, first.st, rest.st);
      KeepsChain(c, st, first.st, rest.st, {}, {});
      if rest.Thrown? then Thrown(rest.st)
      else
        ResolvesCarried(c, first.st, rest.st, {}, ps[0], first.value);
        DeclsCons(c, rest.st.nodeIndex, ps, first.value, rest.value);
        Ok([first.value] + rest.value, rest.st)
  }

  /* ---------------------------------------------------------------------- */
  /* Class types                                                             */
  /* ---------------------------------------------------------------------- */

  /**
   A class type: reserved and recorded, then its modifier, heritage and
   members are read and it is written into its own slot. A variable declared
   by a `new` expression is bound to a fresh instance of the class, any other
   variable to the class itself.
   */
  function BuildClass(c: Checker, st: TypeState, d: Decl, isNew: bool, variable: Option<NodeId>): (r: Run<int>)
    requires WellIdentified(c) && Identified(c, d)
    ensures Evolves(st, r.st) && r.st.unionMap == st.unionMap && r.st.arrayMap == st.arrayMap
    ensures KeepsIndicesBut(st.nodeIndex, r.st.nodeIndex, Pending(c, st.nodeIndex) + {d.id} + MemberIds(d.members))
    ensures r.Ok? ==> r.value == |st.buffer| && r.value < |r.st.buffer| && IsClassOf(c, r.st.nodeIndex, r.st.buffer[r.value], d)
    ensures r.Ok? ==> TryGetTypeIndex(r.st, d.id) == Shift(r.value)
    ensures r.Ok? ==> ClassVariableBound(r.st, variable, isNew, r.value)
    decreases |Unrecorded(c, st) - {d.id}|, Size(d), 2
  {
    var reserved := Reserve(st, d.id);
    var slot := reserved.value;
    ReservedFor(c, st, d);
    var read := ReadClass(c, reserved.st, d);
    BuiltAfterReserve(c, st, d, read.st);
    if read.Thrown? then Thrown(read.st)
    else
      var (heritage, tables) := read.value;
      Ok(slot, FinishClass(c, st, read.st, d, isNew, variable, slot, heritage, tables))
  }

  /** Reads a class's heritage clauses, then its members. */
  function ReadClass(c: Checker, st: TypeState, d: Decl): (r: Run<(ClassHeritage, ClassTables)>)
    requires WellIdentified(c) && MembersOwned(c, st.nodeIndex, d.members)
    requires TopLevelIdsAvoid(c, MemberIds(d.members))
    ensures Evolves(st, r.st) && r.st.unionMap == st.unionMap && r.st.arrayMap == st.arrayMap
    ensures KeepsIndicesBut(st.nodeIndex, r.st.nodeIndex, Pending(c, st.nodeIndex) + MemberIds(d.members))
    ensures r.Ok? ==> HeritageResolves(c, r.st.nodeIndex, HeritageRefs(d.heritageClauses), r.value.0)
    decreases |Unrecorded(c, st)|, Size(d), 1
  {
    var heritage := FillClassHeritages(c, st, HeritageRefs(d.heritageClauses), NO_HERITAGE);
    if heritage.Thrown? then Thrown(heritage.st)
    else
      UnrecordedShrinks(c, st, heritage.st);
      PendingShrinks(c, st, heritage.st);
      assert heritage.value.implementsHeritages[0..] == heritage.value.implementsHeritages;
      var tables := FillClassMembers(c, heritage.st, d.members, EMPTY_TABLES);
      EvolvesTransitive(st, heritage.st, tables.st);
      KeepsChain(c, st, heritage.st, tables.st, {}, MemberIds(d.members));
      if tables.Thrown? then Thrown(tables.st)
      else
        HeritageCarried(c, heritage.st, tables.st, MemberIds(d.members), HeritageRefs(d.heritageClauses), heritage.value);
        Ok((heritage.value, tables.value), tables.st)
  }

  /**
   How a class declaration's variable is bound once the class in `slot` is
   complete: to the class itself, or, after a `new` expression, to the
   instance in the last slot of the buffer, which holds the class's index.
   */
  ghost predicate ClassVariableBound(r: TypeState, variable: Option<NodeId>, isNew: bool, slot: int) {
    variable.Some? ==>
      && variable.value in r.variables
      && if isNew then
           && r.variables[variable.value] == Binding(Shift(|r.buffer| - 1), true)
           && 0 < |r.buffer| && r.buffer[|r.buffer| - 1] == ClassInst(Shift(slot))
         else r.variables[variable.value] == Binding(Shift(slot), true)
  }

  /** Binds a class's variable: to a fresh instance after a `new` expression, to the class otherwise. */
  function BindClassVariable(st: TypeState, filled: TypeState, variable: Option<NodeId>, isNew: bool, slot: int): (r: TypeState)
    requires Evolves(st, filled) && 0 <= slot < |filled.buffer|
    ensures Evolves(st, r) && |filled.buffer| <= |r.buffer|
    ensures r.nodeIndex == filled.nodeIndex && r.unionMap == filled.unionMap && r.arrayMap == filled.arrayMap
    ensures variable.Some? && !isNew ==>
              variable.value in r.variables && r.variables[variable.value] == Binding(Shift(slot), true)
    ensures variable.Some? && isNew ==>
              variable.value in r.variables && r.variables[variable.value].isUserDefined
              && Addresses(r, r.variables[variable.value].typeIndex)
              && r.buffer[r.variables[variable.value].typeIndex - LENGTH] == ClassInst(Shift(slot))
              && r.variables[variable.value].typeIndex == Shift(|filled.buffer|) && |r.buffer| == |filled.buffer| + 1
  {
    if variable.None? then filled
    else if isNew then
      ClassInstEvolves(st, filled, variable.value, slot);
      NewClassInst(filled, variable.value, slot)
    else
      BindEvolves(st, filled, variable, Shift(slot), true);
      Bind(filled, variable, Shift(slot), true)
  }

  /**
   Completes a class once its heritage and members are read: binds the
   variable, to a fresh instance of the class when it is declared by a `new`
   expression and to the class itself otherwise, then writes the class into
   its reserved slot.
   */
  function FinishClass(c: Checker, st: TypeState, filled: TypeState, d: Decl, isNew: bool, variable: Option<NodeId>,
                       slot: int, heritage: ClassHeritage, tables: ClassTables): (r: TypeState)
    requires Evolves(st, filled) && |st.buffer| <= slot < |filled.buffer|
    requires HeritageResolves(c, filled.nodeIndex, HeritageRefs(d.heritageClauses), heritage)
    ensures Evolves(st, r) && slot < |r.buffer| && IsClassOf(c, r.nodeIndex, r.buffer[slot], d)
    ensures r.nodeIndex == filled.nodeIndex && r.unionMap == filled.unionMap && r.arrayMap == filled.arrayMap
    ensures ClassVariableBound(r, variable, isNew, slot)
  {
    var bound := BindClassVariable(st, filled, variable, isNew, slot);
    var desc := Class(ClassModifierOf(d.modifiers), heritage.extendsHeritage, heritage.implementsHeritages,
                      tables.fields, tables.methods, tables.staticFields, tables.staticMethods);
    FillEvolves(st, bound, slot, desc);
    SetSlot(bound, slot, desc)
  }

  /** One heritage type read: `extends` replaces the extended type, `implements` appends, any other clause drops it. */
  function NextHeritage(ref: HeritageRef, acc: ClassHeritage, v: int): ClassHeritage {
    if IsExtends(ref) then acc.(extendsHeritage := v)
    else if IsImplements(ref) then acc.(implementsHeritages := acc.implementsHeritages + [v])
    else acc
  }

  /**
   The heritage types of a class in order: a type under an `extends` clause
   replaces the extended type, one under an `implements` clause is appended
   to the implemented types, and one under any other clause is resolved and
   dropped.
   */
  function FillClassHeritages(c: Checker, st: TypeState, refs: seq<HeritageRef>, acc: ClassHeritage): (r: Run<ClassHeritage>)
    requires WellIdentified(c)
    ensures Evolves(st, r.st) && r.st.unionMap == st.unionMap && r.st.arrayMap == st.arrayMap
    ensures KeepsIndicesBut(st.nodeIndex, r.st.nodeIndex, Pending(c, st.nodeIndex))
    ensures r.Ok? ==> acc.implementsHeritages <= r.value.implementsHeritages
    ensures r.Ok? ==> AllResolve(c, r.st.nodeIndex, ImplementsIds(refs), r.value.implementsHeritages[|acc.implementsHeritages|..])
    ensures r.Ok? ==> ExtendsResolves(c, r.st.nodeIndex, refs, acc.extendsHeritage, r.value.extendsHeritage)
    decreases |Unrecorded(c, st)|, |refs|, 1
  {
    if |refs| == 0 then Ok(acc, st)
    else
      var heritage :- GetOrCreate(c, st, refs[0].identifier, false, None);
      UnrecordedShrinks(c, st, heritage.st);
      var next := NextHeritage(refs[0], acc, heritage.value);
      var rest := FillClassHeritages(c, heritage.st, refs[1..], next);
      EvolvesTransitive(st, heritage.st, rest.st);
      KeepsChain(c, st, heritage.st, rest.st, {}, {});
      if rest.Thrown? then rest
      else
        RefCarried(c, heritage.st, rest.st, {}, refs[0].identifier, heritage.value);
        HeritageStep(c, rest.st.nodeIndex, refs, acc, heritage.value, rest.value);
        rest
  }

  /** Reading the first heritage type and then the rest reads them all. */
  lemma HeritageStep(c: Checker, idx: map<NodeId, int>, refs: seq<HeritageRef>, acc: ClassHeritage, v: int, r: ClassHeritage)
    requires |refs| > 0 && RefResolves(c, idx, refs[0].identifier, v)
    requires var next := NextHeritage(refs[0], acc, v);
             && next.implementsHeritages <= r.implementsHeritages
             && AllResolve(c, idx, ImplementsIds(refs[1..]), r.implementsHeritages[|next.implementsHeritages|..])
             && ExtendsResolves(c, idx, refs[1..], next.extendsHeritage, r.extendsHeritage)
    ensures acc.implementsHeritages <= r.implementsHeritages
    ensures AllResolve(c, idx, ImplementsIds(refs), r.implementsHeritages[|acc.implementsHeritages|..])
    ensures ExtendsResolves(c, idx, refs, acc.extendsHeritage, r.extendsHeritage)
  {
    var next := NextHeritage(refs[0], acc, v);
    ImplementsStep(c, idx, refs, acc.implementsHeritages, next.implementsHeritages, v, r.implementsHeritages);
    ExtendsStep(c, idx, refs, acc.extendsHeritage, next.extendsHeritage, v, r.extendsHeritage);
  }

  lemma ImplementsStep(c: Checker, idx: map<NodeId, int>, refs: seq<HeritageRef>, before: seq<int>, step: seq<int>, v: int, r: seq<int>)
    requires |refs| > 0 && RefResolves(c, idx, refs[0].identifier, v)
    requires step == (if IsImplements(refs[0]) then before + [v] else before)
    requires step <= r && AllResolve(c, idx, ImplementsIds(refs[1..]), r[|step|..])
    ensures before <= r && AllResolve(c, idx, ImplementsIds(refs), r[|before|..])
  {
    var ids := ImplementsIds(refs);
    var ts := r[|before|..];
    if IsImplements(refs[0]) {
      assert ids == [refs[0].identifier] + ImplementsIds(refs[1..]);
      assert ts == [v] + r[|step|..];
      forall i | 0 <= i < |ids|
        ensures RefResolves(c, idx, ids[i], ts[i])
      {
        if i > 0 {
          assert ids[i] == ImplementsIds(refs[1..])[i - 1] && ts[i] == r[|step|..][i - 1];
        }
      }
    } else {
      assert ids == ImplementsIds(refs[1..]);
    }
  }

  lemma ExtendsStep(c: Checker, idx: map<NodeId, int>, refs: seq<HeritageRef>, before: int, step: int, v: int, r: int)
    requires |refs| > 0 && RefResolves(c, idx, refs[0].identifier, v)
    requires step == (if IsExtends(refs[0]) then v else before)
    requires ExtendsResolves(c, idx, refs[1..], step, r)
    ensures ExtendsResolves(c, idx, refs, before, r)
  {
    if LastExtends(refs[1..]).Some? {
      assert LastExtends(refs) == LastExtends(refs[1..]);
    } else if IsExtends(refs[0]) {
      assert LastExtends(refs) == Some(refs[0].identifier);
    } else {
      assert LastExtends(refs) == None;
    }
  }

  /** The members of a class in order: methods, accessors and constructors, then properties. */
  function FillClassMembers(c: Checker, st: TypeState, members: seq<Decl>, tables: ClassTables): (r: Run<ClassTables>)
    requires WellIdentified(c) && MembersOwned(c, st.nodeIndex, members)
    ensures Evolves(st, r.st) && r.st.unionMap == st.unionMap && r.st.arrayMap == st.arrayMap
    ensures KeepsIndicesBut(st.nodeIndex, r.st.nodeIndex, Pending(c, st.nodeIndex) + MemberIds(members))
    decreases |Unrecorded(c, st)|, SizeOf(members), 1
  {
    if |members| == 0 then Ok(tables, st)
    else
      var m := members[0];
      assert m in members;
      assert MemberIds(members) == {m.id} + MemberIds(members[1..]);
      var next := (if IsFunctionLike(m.kind) then ClassMethod(c, st, m, tables)
                   else if m.kind == PropertyDeclaration then ClassField(c, st, m, tables)
                   else Ok(tables, st));
      if next.Thrown? then next
      else
        UnrecordedShrinks(c, st, next.st);
        PendingShrinks(c, st, next.st);
        var rest := FillClassMembers(c, next.st, members[1..], next.value);
        EvolvesTransitive(st, next.st, rest.st);
        KeepsChain(c, st, next.st, rest.st, {m.id}, MemberIds(members[1..]));
        rest
  }

  /**
   A method `m` filed into a method table once its function is built in `s`:
   its recorded index addresses a function descriptor of `m`, the table reads
   that index under the method's name and keeps every other entry, and the
   name node is bound to that index.
   */
  ghost predicate MethodFiled(c: Checker, s: TypeState, after: MethodTable, before: MethodTable, m: Decl) {
    var typeIndex := TryGetTypeIndex(s, m.id);
    && Addresses(s, typeIndex)
    && IsFunctionOf(c, s.nodeIndex, s.buffer[typeIndex - LENGTH], m)
    && PutOf(after, before, FunctionName(m), typeIndex)
    && (m.name.Some? ==> m.name.value.node in s.variables && s.variables[m.name.value.node] == Binding(typeIndex, true))
  }

  /**
   A method member: its function type is always created and recorded under
   the member, and that recorded index is filed under its name in the static
   or the instance method table, as its static keyword says; the other
   tables are untouched, and the member's name is bound to its type.
   */
  function ClassMethod(c: Checker, st: TypeState, m: Decl, tables: ClassTables): (r: Run<ClassTables>)
    requires WellIdentified(c) && m.id !in AwaitingOwner(c, st.nodeIndex)
    ensures Evolves(st, r.st) && r.st.unionMap == st.unionMap && r.st.arrayMap == st.arrayMap
    ensures KeepsIndicesBut(st.nodeIndex, r.st.nodeIndex, Pending(c, st.nodeIndex) + {m.id})
    ensures r.Ok? ==> r.value.fields == tables.fields && r.value.staticFields == tables.staticFields
    ensures r.Ok? && StaticKeyword in m.modifiers ==>
              MethodFiled(c, r.st, r.value.staticMethods, tables.staticMethods, m) && r.value.methods == tables.methods
    ensures r.Ok? && StaticKeyword !in m.modifiers ==>
              MethodFiled(c, r.st, r.value.methods, tables.methods, m) && r.value.staticMethods == tables.staticMethods
    decreases |Unrecorded(c, st)|, Size(m), 3
  {
    RemoveShrinks(Unrecorded(c, st), m.id);
    var built :- BuildFunction(c, st, m, NameNode(m));
    var typeIndex := TryGetTypeIndex(built.st, m.id);
    if StaticFlagOf(m.modifiers) == STATIC then
      PutIsPutOf(tables.staticMethods, FunctionName(m), typeIndex);
      Ok(tables.(staticMethods := Put(tables.staticMethods, FunctionName(m), typeIndex)), built.st)
    else
      PutIsPutOf(tables.methods, FunctionName(m), typeIndex);
      Ok(tables.(methods := Put(tables.methods, FunctionName(m), typeIndex)), built.st)
  }

  /**
   A property member: filed under its key in the static table when declared
   static and in the instance table otherwise, replacing an earlier entry of
   the same key; the other tables are untouched.
   */
  function ClassField(c: Checker, st: TypeState, m: Decl, tables: ClassTables): (r: Run<ClassTables>)
    requires WellIdentified(c)
    ensures Evolves(st, r.st) && r.st.unionMap == st.unionMap && r.st.arrayMap == st.arrayMap
    ensures KeepsIndicesBut(st.nodeIndex, r.st.nodeIndex, Pending(c, st.nodeIndex))
    ensures FieldName(m.name).None? ==> r == Thrown(st)
    ensures r.Ok? ==> r.value.methods == tables.methods && r.value.staticMethods == tables.staticMethods
    ensures r.Ok? && StaticKeyword in m.modifiers ==>
              && Filed(c, r.st.nodeIndex, r.value.staticFields, tables.staticFields, FieldName(m.name).value, m)
              && r.value.fields == tables.fields
    ensures r.Ok? && StaticKeyword !in m.modifiers ==>
              && Filed(c, r.st.nodeIndex, r.value.fields, tables.fields, FieldName(m.name).value, m)
              && r.value.staticFields == tables.staticFields
    decreases |Unrecorded(c, st)|, Size(m), 2
  {
    var field :- ReadField(c, st, m);
    if field.value.isStatic then
      PutIsPutOf(tables.staticFields, field.value.name, field.value.info);
      Ok(tables.(staticFields := Put(tables.staticFields, field.value.name, field.value.info)), field.st)
    else
      PutIsPutOf(tables.fields, field.value.name, field.value.info);
      Ok(tables.(fields := Put(tables.fields, field.value.name, field.value.info)), field.st)
  }

  /**
   Reads a property: its key (rejecting a name that is neither an identifier,
   a string, a number nor a computed name), then its info, which starts as
   ANY, public and not readonly, each modifier setting only its own entry,
   and finally its type index, bound to the property's name.
   */
  function ReadField(c: Checker, st: TypeState, m: Decl): (r: Run<FieldRead>)
    requires WellIdentified(c)
    ensures Evolves(st, r.st) && r.st.unionMap == st.unionMap && r.st.arrayMap == st.arrayMap
    ensures KeepsIndicesBut(st.nodeIndex, r.st.nodeIndex, Pending(c, st.nodeIndex))
    ensures FieldName(m.name).None? ==> r == Thrown(st)
    ensures r.Ok? ==> FieldName(m.name) == Some(r.value.name)
    ensures r.Ok? ==> (r.value.isStatic <==> StaticKeyword in m.modifiers)
    ensures r.Ok? ==> IsFieldInfoOf(c, r.st.nodeIndex, r.value.info, m)
    ensures r.Ok? && m.annotation.Some? ==>
              m.name.value.node in r.st.variables
              && r.st.variables[m.name.value.node] == Binding(r.value.info.typeIndex, m.annotation.value.checked == ANY)
    decreases |Unrecorded(c, st)|, Size(m), 1
  {
    match FieldName(m.name)
    case None => Thrown(st)
    case Some(name) =>
      var typed :- TypeIndexForDecl(c, st, m, NameNode(m));
      Ok(FieldRead(name, FieldInfoOf(m.modifiers, typed.value), StaticKeyword in m.modifiers), typed.st)
  }

  /* ---------------------------------------------------------------------- */
  /* Interface types                                                         */
  /* ---------------------------------------------------------------------- */

  /**
   An interface type: reserved and recorded, then its heritage and members
   are read and it is written into its own slot; the variable, when given, is
   bound to the interface's shifted index.
   */
  function BuildInterface(c: Checker, st: TypeState, d: Decl, variable: Option<NodeId>): (r: Run<int>)
    requires WellIdentified(c) && Identified(c, d)
    ensures Evolves(st, r.st) && r.st.unionMap == st.unionMap && r.st.arrayMap == st.arrayMap
    ensures KeepsIndicesBut(st.nodeIndex, r.st.nodeIndex, Pending(c, st.nodeIndex) + {d.id} + MemberIds(d.members))
    ensures r.Ok? ==> r.value == |st.buffer| && r.value < |r.st.buffer| && TryGetTypeIndex(r.st, d.id) == Shift(r.value)
    ensures r.Ok? ==> IsInterfaceOf(c, r.st.nodeIndex, r.st.buffer, r.st.buffer[r.value], d)
    ensures r.Ok? && variable.Some? ==>
              variable.value in r.st.variables && r.st.variables[variable.value] == Binding(Shift(r.value), true)
  {
    var reserved := Reserve(st, d.id);
    var slot := reserved.value;
    ReservedFor(c, st, d);
    var read := ReadInterface(c, reserved.st, d);
    BuiltAfterReserve(c, st, d, read.st);
    if read.Thrown? then Thrown(read.st)
    else
      Ok(slot, FinishInterface(c, st, read.st, d, variable, slot, read.value.0, read.value.1))
  }

  /**
   Completes an interface once its heritage and members are read: binds the
   variable to the interface, then writes the interface into its reserved
   slot.
   */
  function FinishInterface(c: Checker, st: TypeState, filled: TypeState, d: Decl, variable: Option<NodeId>,
                           slot: int, heritages: seq<int>, tables: InterfaceTables): (r: TypeState)
    requires Evolves(st, filled) && |st.buffer| <= slot < |filled.buffer| && filled.buffer[slot] == PlaceHolder
    requires AllResolve(c, filled.nodeIndex, Identifiers(HeritageRefs(d.heritageClauses)), heritages)
    requires MethodsBuilt(filled.buffer, MethodSignatures(d.members), tables.methods)
    ensures Evolves(st, r) && slot < |r.buffer| && IsInterfaceOf(c, r.nodeIndex, r.buffer, r.buffer[slot], d)
    ensures r.nodeIndex == filled.nodeIndex && r.unionMap == filled.unionMap && r.arrayMap == filled.arrayMap
    ensures variable.Some? ==> variable.value in r.variables && r.variables[variable.value] == Binding(Shift(slot), true)
  {
    var bound := Bind(filled, variable, Shift(slot), true);
    BindEvolves(st, filled, variable, Shift(slot), true);
    var desc := Interface(heritages, tables.fields, tables.methods);
    FillEvolves(st, bound, slot, desc);
    MethodsBuiltAfterFill(bound.buffer, slot, desc, MethodSignatures(d.members), tables.methods);
    SetSlot(bound, slot, desc)
  }

  /** Writing a placeholder slot leaves every built method slot as it was. */
  lemma MethodsBuiltAfterFill(buffer: seq<Descriptor>, slot: int, desc: Descriptor, sigs: seq<Decl>, ts: seq<int>)
    requires MethodsBuilt(buffer, sigs, ts) && 0 <= slot < |buffer| && buffer[slot] == PlaceHolder
    ensures MethodsBuilt(buffer[slot := desc], sigs, ts)
  {
    forall j | 0 <= j < |sigs|
      ensures IsFunctionShapeOf(buffer[slot := desc][ts[j] - LENGTH], sigs[j])
    {
      assert ts[j] - LENGTH != slot;
    }
  }

  /** Reads an interface's heritage types, then its members. */
  function ReadInterface(c: Checker, st: TypeState, d: Decl): (r: Run<(seq<int>, InterfaceTables)>)
    requires WellIdentified(c) && MembersOwned(c, st.nodeIndex, d.members)
    requires TopLevelIdsAvoid(c, MemberIds(d.members))
    ensures Evolves(st, r.st) && r.st.unionMap == st.unionMap && r.st.arrayMap == st.arrayMap
    ensures KeepsIndicesBut(st.nodeIndex, r.st.nodeIndex, Pending(c, st.nodeIndex) + MemberIds(d.members))
    ensures r.Ok? ==> AllResolve(c, r.st.nodeIndex, Identifiers(HeritageRefs(d.heritageClauses)), r.value.0)
    ensures r.Ok? ==> MethodsBuilt(r.st.buffer, MethodSignatures(d.members), r.value.1.methods)
  {
    var heritages := FillInterfaceHeritages(c, st, HeritageRefs(d.heritageClauses));
    if heritages.Thrown? then Thrown(heritages.st)
    else
      PendingShrinks(c, st, heritages.st);
      var tables := FillInterfaceMembers(c, heritages.st, d.members, []);
      EvolvesTransitive(st, heritages.st, tables.st);
      KeepsChain(c, st, heritages.st, tables.st, {}, MemberIds(d.members));
      if tables.Thrown? then Thrown(tables.st)
      else
        AllResolveCarried(c, heritages.st, tables.st, MemberIds(d.members), Identifiers(HeritageRefs(d.heritageClauses)), heritages.value);
        Ok((heritages.value, tables.value), tables.st)
  }

  /** Every heritage type of an interface, whatever its clause, in order. */
  function FillInterfaceHeritages(c: Checker, st: TypeState, refs: seq<HeritageRef>): (r: Run<seq<int>>)
    requires WellIdentified(c)
    ensures Evolves(st, r.st) && r.st.unionMap == st.unionMap && r.st.arrayMap == st.arrayMap
    ensures KeepsIndicesBut(st.nodeIndex, r.st.nodeIndex, Pending(c, st.nodeIndex))
    ensures r.Ok? ==> AllResolve(c, r.st.nodeIndex, Identifiers(refs), r.value)
    decreases |refs|
  {
    if |refs| == 0 then Ok([], st)
    else
      var heritage :- GetOrCreate(c, st, refs[0].identifier, false, None);
      var rest := FillInterfaceHeritages(c, heritage.st, refs[1..]);
      EvolvesTransitive(st, heritage.st, rest.st);
      KeepsChain(c, st, heritage.st, rest.st, {}, {});
      if rest.Thrown? then Thrown(rest.st)
      else
        RefCarried(c, heritage.st, rest.st, {}, refs[0].identifier, heritage.value);
        AllResolveCons(c, rest.st.nodeIndex, Identifiers(refs), heritage.value, rest.value);
        Ok([heritage.value] + rest.value, rest.st)
  }

  /**
   A method signature: its function type is always created and recorded
   under the signature, and that recorded index is the method type.
   */
  function InterfaceMethod(c: Checker, st: TypeState, m: Decl): (r: Run<int>)
    requires WellIdentified(c) && m.id !in AwaitingOwner(c, st.nodeIndex)
    ensures Evolves(st, r.st) && r.st.unionMap == st.unionMap && r.st.arrayMap == st.arrayMap
    ensures KeepsIndicesBut(st.nodeIndex, r.st.nodeIndex, Pending(c, st.nodeIndex) + {m.id})
    ensures r.Ok? ==> r.value == TryGetTypeIndex(r.st, m.id) && Addresses(r.st, r.value)
                      && IsFunctionOf(c, r.st.nodeIndex, r.st.buffer[r.value - LENGTH], m)
    ensures r.Ok? && m.name.Some? ==>
              m.name.value.node in r.st.variables && r.st.variables[m.name.value.node] == Binding(r.value, true)
  {
    var built :- BuildFunction(c, st, m, NameNode(m));
    Ok(TryGetTypeIndex(built.st, m.id), built.st)
  }

  /**
   A property signature: filed under its key, replacing an earlier entry of
   the same key.
   */
  function InterfaceField(c: Checker, st: TypeState, m: Decl, fields: FieldTable): (r: Run<FieldTable>)
    requires WellIdentified(c)
    ensures Evolves(st, r.st) && r.st.unionMap == st.unionMap && r.st.arrayMap == st.arrayMap
    ensures KeepsIndicesBut(st.nodeIndex, r.st.nodeIndex, Pending(c, st.nodeIndex))
    ensures FieldName(m.name).None? ==> r == Thrown(st)
    ensures r.Ok? ==> Filed(c, r.st.nodeIndex, r.value, fields, FieldName(m.name).value, m)
  {
    var field :- ReadField(c, st, m);
    PutIsPutOf(fields, field.value.name, field.value.info);
    Ok(Put(fields, field.value.name, field.value.info), field.st)
  }

  /**
   The members of an interface in order: each method signature gives its
   function type's recorded index, in order, each property signature is filed
   under its key in `fields`, and other members are skipped.
   */
  function FillInterfaceMembers(c: Checker, st: TypeState, members: seq<Decl>, fields: FieldTable): (r: Run<InterfaceTables>)
    requires WellIdentified(c) && MembersOwned(c, st.nodeIndex, members)
    ensures Evolves(st, r.st) && r.st.unionMap == st.unionMap && r.st.arrayMap == st.arrayMap
    ensures KeepsIndicesBut(st.nodeIndex, r.st.nodeIndex, Pending(c, st.nodeIndex) + MemberIds(members))
    ensures r.Ok? ==> MethodsBuilt(r.st.buffer, MethodSignatures(members), r.value.methods)
    decreases |members|
  {
    if |members| == 0 then Ok(InterfaceTables(fields, []), st)
    else
      var m := members[0];
      assert m in members;
      assert MemberIds(members) == {m.id} + MemberIds(members[1..]);
      if m.kind == MethodSignature then
        var built := InterfaceMethod(c, st, m);
        if built.Thrown? then Thrown(built.st)
        else
          PendingShrinks(c, st, built.st);
          var rest := FillInterfaceMembers(c, built.st, members[1..], fields);
          EvolvesTransitive(st, built.st, rest.st);
          KeepsChain(c, st, built.st, rest.st, {m.id}, MemberIds(members[1..]));
          if rest.Thrown? then rest
          else
            var t := built.value;
            assert rest.st.buffer[t - LENGTH] == built.st.buffer[t - LENGTH];
            assert MethodSignatures(members) == [m] + MethodSignatures(members[1..]);
            MethodsCons(rest.st.buffer, m, t, MethodSignatures(members[1..]), rest.value.methods);
            Ok(rest.value.(methods := [t] + rest.value.methods), rest.st)
      else
        assert MethodSignatures(members) == MethodSignatures(members[1..]);
        var next := if m.kind == PropertySignature then InterfaceField(c, st, m, fields) else Ok(fields, st);
        if next.Thrown? then Thrown(next.st)
        else
          PendingShrinks(c, st, next.st);
          var rest := FillInterfaceMembers(c, next.st, members[1..], next.value);
          EvolvesTransitive(st, next.st, rest.st);
          KeepsChain(c, st, next.st, rest.st, {}, MemberIds(members[1..]));
          rest
  }

  lemma MethodsCons(buffer: seq<Descriptor>, sig: Decl, t: int, sigs: seq<Decl>, ts: seq<int>)
    requires 0 <= t - LENGTH < |buffer| && IsFunctionShapeOf(buffer[t - LENGTH], sig)
    requires MethodsBuilt(buffer, sigs, ts)
    ensures MethodsBuilt(buffer, [sig] + sigs, [t] + ts)
  {
    var all := [sig] + sigs;
    var ts' := [t] + ts;
    forall j | 0 <= j < |all|
      ensures 0 <= ts'[j] - LENGTH < |buffer| && IsFunctionShapeOf(buffer[ts'[j] - LENGTH], all[j])
    {
      if j > 0 {
        assert all[j] == sigs[j - 1] && ts'[j] == ts[j - 1];
      }
    }
  }

  /* ---------------------------------------------------------------------- */
  /* Self and mutual references                                              */
  /* ---------------------------------------------------------------------- */

  /**
   Once a declaration's slot is reserved, an identifier naming it resolves to
   that slot's shifted index and nothing is appended, in every state reached
   while its heritage and members are read: this is how a class or function
   refers to itself while it is under construction.
   */
  lemma SelfReferenceResolves(c: Checker, st: TypeState, d: Decl, identifier: string, later: TypeState,
                              isNew: bool, variable: Option<NodeId>)
    requires WellIdentified(c) && Identified(c, d)
    requires identifier in c.declOf && c.declOf[identifier].id == d.id
    requires var reserved := Reserve(st, d.id).st;
             KeepsIndicesBut(reserved.nodeIndex, later.nodeIndex, Pending(c, reserved.nodeIndex) + MemberIds(d.members))
    ensures GetOrCreate(c, later, identifier, isNew, variable) == Ok(Shift(|st.buffer|), later)
  {
    TopLevelNotAwaiting(c, st.nodeIndex, d);
    MembersAvoidTopLevel(c, d);
    SelfRecorded(c, st, d.id, later, MemberIds(d.members));
  }

  /**
   An annotation naming a declaration that is already recorded gives its
   recorded index without touching the buffer; only the variable is bound.
   */
  lemma RecordedAnnotationAppendsNothing(c: Checker, st: TypeState, d: Decl, variable: Option<NodeId>)
    requires WellIdentified(c)
    requires d.annotation.Some? && d.annotation.value.checked == ANY
    requires d.annotation.value.head in c.declOf
    requires TryGetTypeIndex(st, c.declOf[d.annotation.value.head].id) != ANY
    ensures var r := TypeIndexForDecl(c, st, d, variable);
            && r.Ok? && r.value == TryGetTypeIndex(st, c.declOf[d.annotation.value.head].id)
            && r.st.buffer == st.buffer && r.st.nodeIndex == st.nodeIndex
  {
  }
}
