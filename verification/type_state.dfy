/**
 The mutable state of one type-recording pass, threaded through the builder:
 the type array buffer (one descriptor per slot) and the recorder's maps from
 declaration nodes, union texts and array element types to shifted indices,
 and from variable nodes to their bound type. The slot operations that need
 no recursion live here: appending and overwriting slots, instances of a
 class, external types and the summary.
 */
module TypeStates {
  import opened Wrappers
  import opened TypeDefs
  import opened Declarations

  /** The type a variable node is bound to, and whether it is a user type. */
  datatype Binding = Binding(typeIndex: int, isUserDefined: bool)

  datatype TypeState = TypeState(
    buffer: seq<Descriptor>,
    nodeIndex: map<NodeId, int>,
    unionMap: map<string, int>,
    arrayMap: map<int, int>,
    variables: map<NodeId, Binding>)

  const EMPTY_STATE: TypeState := TypeState([], map[], map[], map[], map[])

  /** A value together with the state reached when computing it. */
  datatype Step<+T> = Step(value: T, st: TypeState)

  /**
   The outcome of a step that may throw: either a value with the state
   reached, or the state at the point the exception was raised.
   */
  datatype Run<+T> = Ok(value: T, st: TypeState) | Thrown(st: TypeState)
  {
    predicate IsFailure() {
      Thrown?
    }

    function PropagateFailure<U>(): Run<U>
      requires Thrown?
    {
      Thrown(st)
    }

    function Extract(): Step<T>
      requires Ok?
    {
      Step(value, st)
    }
  }

  /* ---------------------------------------------------------------------- */
  /* Recorder and buffer primitives                                          */
  /* ---------------------------------------------------------------------- */

  /** The shifted index a recorder map holds for a node, or ANY when there is none. */
  function Lookup(idx: map<NodeId, int>, node: NodeId): int {
    if node in idx then idx[node] else ANY
  }

  /** The shifted index recorded for a declaration node, or ANY when there is none. */
  function TryGetTypeIndex(st: TypeState, node: NodeId): int {
    Lookup(st.nodeIndex, node)
  }

  /** Appends a descriptor and returns the raw index of its slot. */
  function Append(st: TypeState, d: Descriptor): Step<int> {
    Step(|st.buffer|, st.(buffer := st.buffer + [d]))
  }

  /** Overwrites the descriptor in an existing slot. */
  function SetSlot(st: TypeState, slot: int, d: Descriptor): TypeState
    requires 0 <= slot < |st.buffer|
  {
    st.(buffer := st.buffer[slot := d])
  }

  /** Binds a variable node, when one is given, to a type index. */
  function Bind(st: TypeState, variable: Option<NodeId>, typeIndex: int, isUserDefined: bool): TypeState {
    if variable.Some? then st.(variables := st.variables[variable.value := Binding(typeIndex, isUserDefined)])
    else st
  }

  /**
   Reserves a slot for a declaration's type: appends a placeholder and records
   the declaration under the slot's shifted index before anything else happens.
   */
  function Reserve(st: TypeState, node: NodeId): (r: Step<int>)
    ensures r.value == |st.buffer| && r.st.buffer == st.buffer + [PlaceHolder]
    ensures TryGetTypeIndex(r.st, node) == Shift(r.value)
    ensures forall n :: n != node ==> TryGetTypeIndex(r.st, n) == TryGetTypeIndex(st, n)
  {
    var slot := |st.buffer|;
    Step(slot, st.(buffer := st.buffer + [PlaceHolder], nodeIndex := st.nodeIndex[node := Shift(slot)]))
  }

  /* ---------------------------------------------------------------------- */
  /* Invariants                                                              */
  /* ---------------------------------------------------------------------- */

  /** A shifted index that addresses a slot of the buffer. */
  predicate Addresses(st: TypeState, shifted: int) {
    LENGTH <= shifted < LENGTH + |st.buffer|
  }

  /** Every declaration is recorded under a shifted index of an existing slot. */
  predicate IndicesInRange(st: TypeState) {
    forall n :: n in st.nodeIndex ==> Addresses(st, st.nodeIndex[n])
  }

  /**
   The recorder agrees with the buffer: recorded indices address slots, a
   memoised union text addresses a union, and a memoised element type
   addresses the array of exactly that element.
   */
  predicate Valid(st: TypeState) {
    && IndicesInRange(st)
    && (forall t :: t in st.unionMap ==>
          Addresses(st, st.unionMap[t]) && st.buffer[st.unionMap[t] - LENGTH].Union?)
    && (forall e :: e in st.arrayMap ==>
          Addresses(st, st.arrayMap[e]) && st.buffer[st.arrayMap[e] - LENGTH] == Array(e))
  }

  /** A declaration once recorded stays recorded. */
  ghost predicate Grows(st: TypeState, st': TypeState) {
    forall n :: TryGetTypeIndex(st, n) != ANY ==> TryGetTypeIndex(st', n) != ANY
  }

  /**
   How a state may change during construction: nothing already in the buffer
   is altered, nothing recorded is forgotten, and recorded indices keep
   addressing slots.
   */
  ghost predicate Evolves(st: TypeState, st': TypeState) {
    && st.buffer <= st'.buffer
    && Grows(st, st')
    && (IndicesInRange(st) ==> IndicesInRange(st'))
  }

  /** Memoised unions and arrays keep the indices they were given. */
  predicate MemoStable(st: TypeState, st': TypeState) {
    && (forall t :: t in st.unionMap ==> t in st'.unionMap && st'.unionMap[t] == st.unionMap[t])
    && (forall e :: e in st.arrayMap ==> e in st'.arrayMap && st'.arrayMap[e] == st.arrayMap[e])
  }

  lemma ValidEmpty()
    ensures Valid(EMPTY_STATE)
  {
  }

  lemma EvolvesTransitive(a: TypeState, b: TypeState, c: TypeState)
    requires Evolves(a, b) && Evolves(b, c)
    ensures Evolves(a, c)
  {
  }

  lemma ReserveEvolves(st: TypeState, node: NodeId)
    ensures Evolves(st, Reserve(st, node).st)
  {
    var st' := Reserve(st, node).st;
    if IndicesInRange(st) {
      forall n | n in st'.nodeIndex
        ensures Addresses(st', st'.nodeIndex[n])
      {
        if n != node {
          assert st'.nodeIndex[n] == st.nodeIndex[n];
        }
      }
    }
  }

  lemma BindEvolves(st: TypeState, st': TypeState, variable: Option<NodeId>, typeIndex: int, isUserDefined: bool)
    requires Evolves(st, st')
    ensures Evolves(st, Bind(st', variable, typeIndex, isUserDefined))
  {
    var st'' := Bind(st', variable, typeIndex, isUserDefined);
    assert forall n :: TryGetTypeIndex(st'', n) == TryGetTypeIndex(st', n);
  }

  /** Filling a slot reserved after `st` leaves everything `st` holds in place. */
  lemma FillEvolves(st: TypeState, st': TypeState, slot: int, d: Descriptor)
    requires Evolves(st, st') && |st.buffer| <= slot < |st'.buffer|
    ensures Evolves(st, SetSlot(st', slot, d))
  {
    var st'' := SetSlot(st', slot, d);
    assert forall n :: TryGetTypeIndex(st'', n) == TryGetTypeIndex(st', n);
    assert st''.buffer[..|st.buffer|] == st'.buffer[..|st.buffer|];
  }

  lemma ClassInstEvolves(st: TypeState, st': TypeState, variable: NodeId, referredClassIndex: int)
    requires Evolves(st, st')
    ensures Evolves(st, NewClassInst(st', variable, referredClassIndex))
  {
    var st'' := NewClassInst(st', variable, referredClassIndex);
    assert forall n :: TryGetTypeIndex(st'', n) == TryGetTypeIndex(st', n);
    assert st''.buffer[..|st'.buffer|] == st'.buffer;
  }

  /** A state that evolved without touching the memo maps stays valid. */
  lemma ValidFrame(st: TypeState, st': TypeState)
    requires Valid(st) && Evolves(st, st')
    requires st'.unionMap == st.unionMap && st'.arrayMap == st.arrayMap
    ensures Valid(st')
  {
    forall t | t in st'.unionMap
      ensures st'.buffer[st'.unionMap[t] - LENGTH].Union?
    {
      assert st'.buffer[st.unionMap[t] - LENGTH] == st.buffer[st.unionMap[t] - LENGTH];
    }
    forall e | e in st'.arrayMap
      ensures st'.buffer[st'.arrayMap[e] - LENGTH] == Array(e)
    {
      assert st'.buffer[st.arrayMap[e] - LENGTH] == st.buffer[st.arrayMap[e] - LENGTH];
    }
  }

  /** Filling a reserved placeholder keeps a valid state valid. */
  lemma ValidAfterFill(st: TypeState, slot: int, d: Descriptor)
    requires Valid(st) && 0 <= slot < |st.buffer| && st.buffer[slot] == PlaceHolder
    ensures Valid(SetSlot(st, slot, d))
  {
    var st' := SetSlot(st, slot, d);
    forall e | e in st'.arrayMap
      ensures st'.buffer[st'.arrayMap[e] - LENGTH] == Array(e)
    {
      assert st.arrayMap[e] - LENGTH != slot;
    }
    forall t | t in st'.unionMap
      ensures st'.buffer[st'.unionMap[t] - LENGTH].Union?
    {
      assert st.unionMap[t] - LENGTH != slot;
    }
  }

  /* ---------------------------------------------------------------------- */
  /* The measure of the builder's recursion                                  */
  /* ---------------------------------------------------------------------- */

  /** The declarations the checker can resolve an identifier to. */
  function Universe(c: Checker): set<NodeId> {
    set d | d in c.declOf.Values :: d.id
  }

  /** The resolvable declarations that have no type recorded yet. */
  function Unrecorded(c: Checker, st: TypeState): set<NodeId> {
    set n | n in Universe(c) && TryGetTypeIndex(st, n) == ANY
  }

  lemma SubsetCardinality(a: set<NodeId>, b: set<NodeId>)
    requires a <= b
    ensures |a| <= |b|
  {
    assert b == a + (b - a);
    assert a * (b - a) == {};
  }

  /** Recording more declarations never enlarges the unrecorded set. */
  lemma UnrecordedShrinks(c: Checker, st: TypeState, st': TypeState)
    requires Grows(st, st')
    ensures Unrecorded(c, st') <= Unrecorded(c, st)
    ensures |Unrecorded(c, st')| <= |Unrecorded(c, st)|
  {
    SubsetCardinality(Unrecorded(c, st'), Unrecorded(c, st));
  }

  /** Reserving a declaration's slot removes it from the unrecorded set. */
  lemma ReserveShrinks(c: Checker, st: TypeState, node: NodeId)
    ensures |Unrecorded(c, Reserve(st, node).st)| <= |Unrecorded(c, st) - {node}|
  {
    SubsetCardinality(Unrecorded(c, Reserve(st, node).st), Unrecorded(c, st) - {node});
  }

  /** Removing an element never enlarges a set. */
  lemma RemoveShrinks(s: set<NodeId>, x: NodeId)
    ensures |s - {x}| <= |s|
    ensures x in s ==> |s - {x}| < |s|
  {
    SubsetCardinality(s - {x}, s);
  }

  /** A resolvable declaration without a recorded type is unrecorded. */
  lemma IsUnrecorded(c: Checker, st: TypeState, identifier: string)
    requires identifier in c.declOf && TryGetTypeIndex(st, c.declOf[identifier].id) == ANY
    ensures c.declOf[identifier].id in Unrecorded(c, st)
  {
    assert c.declOf[identifier] in c.declOf.Values;
  }

  /* ---------------------------------------------------------------------- */
  /* Which recorded indices a construction may change                        */
  /* ---------------------------------------------------------------------- */

  /** Resolvable declarations of a buildable kind whose type is not recorded yet. */
  function Unbuilt(c: Checker, idx: map<NodeId, int>): set<NodeId> {
    set d | d in c.declOf.Values && Buildable(d) && Lookup(idx, d.id) == ANY :: d.id
  }

  /** The members of resolvable declarations whose own type is not recorded yet. */
  function AwaitingOwner(c: Checker, idx: map<NodeId, int>): set<NodeId> {
    set d, m | d in c.declOf.Values && m in d.members && Lookup(idx, d.id) == ANY :: m.id
  }

  /**
   The nodes a construction may still reserve a slot for: a resolvable
   declaration is reserved only while unrecorded, and a member only while
   the declaration it belongs to is built.
   */
  function Pending(c: Checker, idx: map<NodeId, int>): set<NodeId> {
    Unbuilt(c, idx) + AwaitingOwner(c, idx)
  }

  /** Recorded indices change only at the given nodes. */
  ghost predicate KeepsIndicesBut(idx: map<NodeId, int>, idx': map<NodeId, int>, changed: set<NodeId>) {
    forall n :: n !in changed ==> Lookup(idx', n) == Lookup(idx, n)
  }

  /**
   What an identifier naming a type resolves to: ANY when the checker cannot
   resolve it, otherwise the index recorded for its declaration, which is
   recorded whenever the declaration is of a kind that is built.
   */
  predicate RefResolves(c: Checker, idx: map<NodeId, int>, identifier: string, t: int) {
    if identifier in c.declOf then
      t == Lookup(idx, c.declOf[identifier].id) && (Buildable(c.declOf[identifier]) ==> t != ANY)
    else t == ANY
  }

  /** None of the members is waiting for the declaration it belongs to. */
  ghost predicate MembersOwned(c: Checker, idx: map<NodeId, int>, ms: seq<Decl>) {
    forall m | m in ms :: m.id !in AwaitingOwner(c, idx)
  }

  /** No resolvable declaration has an identity in `s`. */
  ghost predicate TopLevelIdsAvoid(c: Checker, s: set<NodeId>) {
    forall x | x in c.declOf :: c.declOf[x].id !in s
  }

  /** As more is recorded, fewer nodes are pending. */
  lemma PendingShrinks(c: Checker, st: TypeState, st': TypeState)
    requires Grows(st, st')
    ensures Unbuilt(c, st'.nodeIndex) <= Unbuilt(c, st.nodeIndex)
    ensures AwaitingOwner(c, st'.nodeIndex) <= AwaitingOwner(c, st.nodeIndex)
  {
    forall n | n in Unbuilt(c, st'.nodeIndex)
      ensures n in Unbuilt(c, st.nodeIndex)
    {
      var d :| d in c.declOf.Values && Buildable(d) && Lookup(st'.nodeIndex, d.id) == ANY && n == d.id;
      assert TryGetTypeIndex(st', d.id) == ANY;
    }
    forall n | n in AwaitingOwner(c, st'.nodeIndex)
      ensures n in AwaitingOwner(c, st.nodeIndex)
    {
      var d, m :| d in c.declOf.Values && m in d.members && Lookup(st'.nodeIndex, d.id) == ANY && n == m.id;
      assert TryGetTypeIndex(st', d.id) == ANY;
    }
  }

  /** A recorded node is not an unbuilt declaration. */
  lemma RecordedNotUnbuilt(c: Checker, idx: map<NodeId, int>, n: NodeId)
    requires Lookup(idx, n) != ANY
    ensures n !in Unbuilt(c, idx)
  {
  }

  /**
   Once looked up, a resolvable declaration is settled: a buildable one is
   recorded, and no other declaration or member shares its identity.
   */
  lemma TopLevelSettled(c: Checker, idx: map<NodeId, int>, x: Decl)
    requires WellIdentified(c) && x in c.declOf.Values
    requires Buildable(x) ==> Lookup(idx, x.id) != ANY
    ensures x.id !in Pending(c, idx)
  {
    forall d | d in c.declOf.Values
      ensures d.id == x.id ==> d == x
      ensures forall m | m in d.members :: m.id != x.id
    {
      assert Apart(x, d);
    }
  }

  /** An unrecorded buildable declaration and its members are pending. */
  lemma UnbuiltPending(c: Checker, idx: map<NodeId, int>, d: Decl)
    requires d in c.declOf.Values && Buildable(d) && Lookup(idx, d.id) == ANY
    ensures {d.id} + MemberIds(d.members) <= Pending(c, idx)
  {
    forall n | n in MemberIds(d.members)
      ensures n in AwaitingOwner(c, idx)
    {
      var m :| m in d.members && m.id == n;
    }
  }

  /** A declaration is never a member, so it never waits for an owner. */
  lemma TopLevelNotAwaiting(c: Checker, idx: map<NodeId, int>, d: Decl)
    requires Identified(c, d)
    ensures d.id !in AwaitingOwner(c, idx)
  {
    forall o, m | o in c.declOf.Values && m in o.members
      ensures m.id != d.id
    {
      assert o in c.declOf.Values + {d} && Apart(d, o);
    }
  }

  /** The members of a recorded declaration are not waiting for an owner. */
  lemma MembersNotAwaiting(c: Checker, idx: map<NodeId, int>, d: Decl)
    requires Identified(c, d) && Lookup(idx, d.id) != ANY
    ensures MembersOwned(c, idx, d.members)
  {
    forall m, o, m' | m in d.members && o in c.declOf.Values && m' in o.members && m.id == m'.id
      ensures Lookup(idx, o.id) != ANY
    {
      assert o in c.declOf.Values + {d} && Apart(d, o);
    }
  }

  /** Members never share an identity with a resolvable declaration or with their own declaration. */
  lemma MembersAvoidTopLevel(c: Checker, d: Decl)
    requires Identified(c, d)
    ensures TopLevelIdsAvoid(c, MemberIds(d.members)) && d.id !in MemberIds(d.members)
  {
    forall x | x in c.declOf
      ensures c.declOf[x].id !in MemberIds(d.members)
    {
      assert c.declOf[x] in c.declOf.Values + {d} && Apart(c.declOf[x], d);
    }
    assert Apart(d, d);
  }

  /** A resolution stays valid while only pending nodes and nodes it does not name change. */
  lemma RefCarried(c: Checker, st: TypeState, st': TypeState, extra: set<NodeId>, identifier: string, t: int)
    requires WellIdentified(c) && RefResolves(c, st.nodeIndex, identifier, t)
    requires KeepsIndicesBut(st.nodeIndex, st'.nodeIndex, Pending(c, st.nodeIndex) + extra)
    requires TopLevelIdsAvoid(c, extra)
    ensures RefResolves(c, st'.nodeIndex, identifier, t)
  {
    if identifier in c.declOf {
      var x := c.declOf[identifier];
      assert x in c.declOf.Values;
      TopLevelSettled(c, st.nodeIndex, x);
    }
  }

  /**
   What is kept across a reservation followed by a construction that keeps
   everything not pending afterwards: everything not pending before, other
   than the reserved node.
   */
  lemma KeepsAfterReserve(c: Checker, st: TypeState, node: NodeId, later: TypeState, extra: set<NodeId>)
    requires var reserved := Reserve(st, node).st;
             Grows(reserved, later) && KeepsIndicesBut(reserved.nodeIndex, later.nodeIndex, Pending(c, reserved.nodeIndex) + extra)
    ensures KeepsIndicesBut(st.nodeIndex, later.nodeIndex, Pending(c, st.nodeIndex) + {node} + extra)
    ensures Grows(st, later)
  {
    var reserved := Reserve(st, node).st;
    ReserveEvolves(st, node);
    PendingShrinks(c, st, reserved);
  }

  /** Two constructions in a row keep what each keeps, measured from the first state. */
  lemma KeepsChain(c: Checker, a: TypeState, b: TypeState, d: TypeState, e1: set<NodeId>, e2: set<NodeId>)
    requires Grows(a, b)
    requires KeepsIndicesBut(a.nodeIndex, b.nodeIndex, Pending(c, a.nodeIndex) + e1)
    requires KeepsIndicesBut(b.nodeIndex, d.nodeIndex, Pending(c, b.nodeIndex) + e2)
    ensures KeepsIndicesBut(a.nodeIndex, d.nodeIndex, Pending(c, a.nodeIndex) + e1 + e2)
  {
    PendingShrinks(c, a, b);
  }

  /**
   A node reserved while it waits for no owner keeps the index of its slot
   through any later construction that changes only pending nodes and `extra`.
   */
  lemma SelfRecorded(c: Checker, st: TypeState, node: NodeId, later: TypeState, extra: set<NodeId>)
    requires node !in AwaitingOwner(c, st.nodeIndex) && node !in extra
    requires var reserved := Reserve(st, node).st;
             KeepsIndicesBut(reserved.nodeIndex, later.nodeIndex, Pending(c, reserved.nodeIndex) + extra)
    ensures TryGetTypeIndex(later, node) == Shift(|st.buffer|)
  {
    var reserved := Reserve(st, node).st;
    ReserveEvolves(st, node);
    PendingShrinks(c, st, reserved);
    RecordedNotUnbuilt(c, reserved.nodeIndex, node);
  }

  /**
   What holds once a declaration's slot is reserved: the state evolved, one
   fewer declaration is unrecorded, and its members wait for no owner and
   share no identity with a resolvable declaration or with it.
   */
  lemma ReservedFor(c: Checker, st: TypeState, d: Decl)
    requires Identified(c, d)
    ensures var reserved := Reserve(st, d.id).st;
            && Evolves(st, reserved)
            && |Unrecorded(c, reserved)| <= |Unrecorded(c, st) - {d.id}|
            && MembersOwned(c, reserved.nodeIndex, d.members)
            && TopLevelIdsAvoid(c, MemberIds(d.members)) && d.id !in MemberIds(d.members)
            && d.id !in AwaitingOwner(c, st.nodeIndex)
  {
    var reserved := Reserve(st, d.id).st;
    ReserveShrinks(c, st, d.id);
    ReserveEvolves(st, d.id);
    TopLevelNotAwaiting(c, st.nodeIndex, d);
    MembersNotAwaiting(c, reserved.nodeIndex, d);
    MembersAvoidTopLevel(c, d);
  }

  /**
   A declaration whose slot was reserved, followed by a construction that
   changes only pending nodes and its members, keeps the reserved index and
   changes only pending nodes, itself and its members.
   */
  lemma BuiltAfterReserve(c: Checker, st: TypeState, d: Decl, later: TypeState)
    requires Identified(c, d)
    requires var reserved := Reserve(st, d.id).st;
             && Evolves(reserved, later)
             && KeepsIndicesBut(reserved.nodeIndex, later.nodeIndex, Pending(c, reserved.nodeIndex) + MemberIds(d.members))
    ensures Evolves(st, later)
    ensures KeepsIndicesBut(st.nodeIndex, later.nodeIndex, Pending(c, st.nodeIndex) + {d.id} + MemberIds(d.members))
    ensures TryGetTypeIndex(later, d.id) == Shift(|st.buffer|)
  {
    var reserved := Reserve(st, d.id).st;
    ReservedFor(c, st, d);
    EvolvesTransitive(st, reserved, later);
    KeepsAfterReserve(c, st, d.id, later, MemberIds(d.members));
    SelfRecorded(c, st, d.id, later, MemberIds(d.members));
  }

  /* ---------------------------------------------------------------------- */
  /* Slots created without recursion                                         */
  /* ---------------------------------------------------------------------- */

  /**
   An instance of the class in slot `referredClassIndex`: always a fresh slot
   holding the class's shifted index, with the variable bound to the new slot.
   */
  function NewClassInst(st: TypeState, variable: NodeId, referredClassIndex: int): (r: TypeState)
    ensures |r.buffer| == |st.buffer| + 1 && st.buffer <= r.buffer
    ensures variable in r.variables && r.variables[variable] == Binding(Shift(|st.buffer|), true)
    ensures Addresses(r, r.variables[variable].typeIndex)
    ensures r.buffer[r.variables[variable].typeIndex - LENGTH] == ClassInst(Shift(referredClassIndex))
    ensures r.nodeIndex == st.nodeIndex && r.unionMap == st.unionMap && r.arrayMap == st.arrayMap
    ensures forall v :: v in st.variables && v != variable ==> v in r.variables && r.variables[v] == st.variables[v]
  {
    var appended := Append(st, ClassInst(Shift(referredClassIndex)));
    Bind(appended.st, Some(variable), Shift(appended.value), true)
  }

  /**
   An imported type: always a fresh slot holding `#importName#redirectPath`;
   the raw slot index is returned.
   */
  function NewExternal(st: TypeState, importName: string, redirectPath: string): (r: Step<int>)
    ensures r.value == |st.buffer| && |r.st.buffer| == |st.buffer| + 1 && st.buffer <= r.st.buffer
    ensures r.st.buffer[r.value] == External("#" + importName + "#" + redirectPath)
    ensures r.st.nodeIndex == st.nodeIndex && r.st.unionMap == st.unionMap
    ensures r.st.arrayMap == st.arrayMap && r.st.variables == st.variables
  {
    Append(st, External("#" + importName + "#" + redirectPath))
  }

  /** The summary reserves a placeholder slot when it is created; its index is kept. */
  function NewSummary(st: TypeState): (r: Step<int>)
    ensures r.value == |st.buffer| && r.st.buffer == st.buffer + [PlaceHolder]
    ensures r.st.nodeIndex == st.nodeIndex && r.st.unionMap == st.unionMap
    ensures r.st.arrayMap == st.arrayMap && r.st.variables == st.variables
  {
    Append(st, PlaceHolder)
  }

  /** Writes the final counts into the slot the summary reserved, and nowhere else. */
  function SetInfo(st: TypeState, preservedIndex: int, userDefinedClassNum: int, anonymousRedirect: seq<string>): (r: TypeState)
    requires 0 <= preservedIndex < |st.buffer|
    ensures |r.buffer| == |st.buffer|
    ensures r.buffer[preservedIndex] == Summary(userDefinedClassNum, anonymousRedirect)
    ensures forall i :: 0 <= i < |st.buffer| && i != preservedIndex ==> r.buffer[i] == st.buffer[i]
    ensures r.nodeIndex == st.nodeIndex && r.unionMap == st.unionMap
    ensures r.arrayMap == st.arrayMap && r.variables == st.variables
  {
    SetSlot(st, preservedIndex, Summary(userDefinedClassNum, anonymousRedirect))
  }

  /* ---------------------------------------------------------------------- */
  /* Properties of the non-recursive slots                                   */
  /* ---------------------------------------------------------------------- */

  /** Instances are not memoised: the same class instantiated twice gets two slots. */
  lemma ClassInstNotMemoised(st: TypeState, v1: NodeId, v2: NodeId, classIndex: int)
    requires v1 != v2
    ensures var st1 := NewClassInst(st, v1, classIndex);
            var st2 := NewClassInst(st1, v2, classIndex);
            && st2.variables[v1].typeIndex != st2.variables[v2].typeIndex
            && st2.buffer[st2.variables[v1].typeIndex - LENGTH] == st2.buffer[st2.variables[v2].typeIndex - LENGTH]
  {
    var st1 := NewClassInst(st, v1, classIndex);
    var st2 := NewClassInst(st1, v2, classIndex);
    assert st1.variables[v1].typeIndex == Shift(|st.buffer|);
    assert st2.variables[v2].typeIndex == Shift(|st1.buffer|);
  }

  /** External types are not memoised: the same import twice gets two slots. */
  lemma ExternalNotMemoised(st: TypeState, importName: string, redirectPath: string)
    ensures var e1 := NewExternal(st, importName, redirectPath);
            var e2 := NewExternal(e1.st, importName, redirectPath);
            && e1.value != e2.value
            && e2.st.buffer[e1.value] == e2.st.buffer[e2.value]
  {
  }

  /**
   The summary's life: its slot stays a placeholder while the rest of the
   pass only appends, and `SetInfo` then fills exactly that slot, keeping a
   valid state valid.
   */
  lemma SummaryFillsItsOwnSlot(st: TypeState, later: TypeState, num: int, redirects: seq<string>)
    requires NewSummary(st).st.buffer <= later.buffer
    ensures var p := NewSummary(st).value;
            && later.buffer[p] == PlaceHolder
            && SetInfo(later, p, num, redirects).buffer[p] == Summary(num, redirects)
            && (Valid(later) ==> Valid(SetInfo(later, p, num, redirects)))
  {
    var p := NewSummary(st).value;
    assert later.buffer[p] == NewSummary(st).st.buffer[p];
    if Valid(later) {
      ValidAfterFill(later, p, Summary(num, redirects));
    }
  }
}
