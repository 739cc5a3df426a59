/**
 Types written as syntax rather than declared: keyword types, references,
 unions and arrays. Unions are memoised by their source text and arrays by
 the index of their element type, so each is built at most once per pass;
 a reference goes through the declaration builder.
 */
module TypeNodes {
  import opened Wrappers
  import opened TypeDefs
  import opened Declarations
  import opened TypeStates
  import opened TypeBuilder

  /**
   What a type node denotes in a state: a keyword type its primitive, a
   reference what its identifier resolves to, a union the index memoised
   under its text, and an array the index memoised for the array of what its
   element denotes.
   */
  ghost predicate NodeResolves(c: Checker, st: TypeState, t: TypeNode, v: int)
    decreases t
  {
    match t
    case KeywordType(primitive) => v == primitive
    case TypeReference(identifier) => RefResolves(c, st.nodeIndex, identifier, v)
    case UnionTypeNode(text, _) => text in st.unionMap && st.unionMap[text] == v
    case ArrayTypeNode(element) =>
      exists e | e in st.arrayMap :: st.arrayMap[e] == v && NodeResolves(c, st, element, e)
  }

  /** One index per member, each what its member denotes. */
  ghost predicate MembersResolve(c: Checker, st: TypeState, members: seq<TypeNode>, types: seq<int>) {
    && |types| == |members|
    && forall i :: 0 <= i < |members| ==> NodeResolves(c, st, members[i], types[i])
  }

  /** Whether a union with this text occurs anywhere inside the node. */
  ghost predicate MentionsText(t: TypeNode, text: string)
    decreases t
  {
    match t
    case UnionTypeNode(x, members) => x == text || exists i :: 0 <= i < |members| && MentionsText(members[i], text)
    case ArrayTypeNode(element) => MentionsText(element, text)
    case _ => false
  }

  /**
   The index of the type a type node denotes. A keyword type is its
   primitive, a reference is looked up or created, a union or array is
   looked up in its memo or built.
   */
  function ResolveTypeNode(c: Checker, st: TypeState, t: TypeNode): (r: Run<int>)
    requires WellIdentified(c)
    ensures Evolves(st, r.st) && MemoStable(st, r.st)
    ensures Valid(st) ==> Valid(r.st)
    ensures KeepsIndicesBut(st.nodeIndex, r.st.nodeIndex, Pending(c, st.nodeIndex))
    ensures r.Ok? ==> NodeResolves(c, r.st, t, r.value)
    ensures t.KeywordType? ==> r == Ok(t.primitive, st)
    ensures t.TypeReference? && t.identifier !in c.declOf ==> r == Ok(ANY, st)
    ensures t.TypeReference? && t.identifier in c.declOf && TryGetTypeIndex(st, c.declOf[t.identifier].id) != ANY ==>
              r == Ok(TryGetTypeIndex(st, c.declOf[t.identifier].id), st)
    ensures t.UnionTypeNode? && t.text in st.unionMap ==> r == Ok(st.unionMap[t.text], st)
    ensures t.ArrayTypeNode? && r.Ok? ==> r.st.buffer[..|st.buffer|] == st.buffer
    decreases TypeNodeSize(t), 1
  {
    match t
    case KeywordType(primitive) => Ok(primitive, st)
    case TypeReference(identifier) =>
      var r := GetOrCreate(c, st, identifier, false, None);
      if Valid(st) then ValidFrame(st, r.st); r else r
    case UnionTypeNode(text, members) => BuildUnion(c, st, text, members)
    case ArrayTypeNode(element) => BuildArray(c, st, element)
  }

  /**
   A union: a memoised text gives its recorded index and changes nothing.
   Otherwise a placeholder slot is taken first, the members are resolved in
   order, the text is memoised under the slot and the slot is filled. A
   member that itself contains a union of the same text loses its memo entry
   to the outer union, so what the members denote is stated for the others.
   */
  function BuildUnion(c: Checker, st: TypeState, text: string, members: seq<TypeNode>): (r: Run<int>)
    requires WellIdentified(c)
    ensures Evolves(st, r.st) && MemoStable(st, r.st)
    ensures Valid(st) ==> Valid(r.st)
    ensures KeepsIndicesBut(st.nodeIndex, r.st.nodeIndex, Pending(c, st.nodeIndex))
    ensures text in st.unionMap ==> r == Ok(st.unionMap[text], st)
    ensures text !in st.unionMap && r.Ok? ==>
              && r.value == Shift(|st.buffer|) && |st.buffer| < |r.st.buffer|
              && r.st.buffer[|st.buffer|].Union?
              && MembersResolveApart(c, r.st, members, r.st.buffer[|st.buffer|].unionedTypes, text)
    ensures r.Ok? ==> text in r.st.unionMap && r.st.unionMap[text] == r.value
    decreases 1 + TypeNodesSize(members), 0
  {
    if text in st.unionMap then Ok(st.unionMap[text], st)
    else
      var slot := Append(st, PlaceHolder);
      AppendValid(st, PlaceHolder);
      var filled := FillUnion(c, slot.st, members);
      if filled.Thrown? then Thrown(filled.st)
      else
        assert filled.st.buffer[slot.value] == slot.st.buffer[slot.value];
        var memoised := filled.st.(unionMap := filled.st.unionMap[text := Shift(slot.value)]);
        var r := SetSlot(memoised, slot.value, Union(filled.value));
        FillEvolves(st, memoised, slot.value, Union(filled.value));
        MembersAfterMemo(c, filled.st, r, text, Shift(slot.value), members, filled.value);
        if Valid(st) then UnionMemoValid(filled.st, slot.value, text, filled.value); Ok(Shift(slot.value), r)
        else Ok(Shift(slot.value), r)
  }

  /** One index per member, and each member not mentioning `text` denotes its index. */
  ghost predicate MembersResolveApart(c: Checker, st: TypeState, members: seq<TypeNode>, types: seq<int>, text: string) {
    && |types| == |members|
    && forall i :: 0 <= i < |members| && !MentionsText(members[i], text) ==> NodeResolves(c, st, members[i], types[i])
  }

  /** The members of a union, resolved in order. */
  function FillUnion(c: Checker, st: TypeState, members: seq<TypeNode>): (r: Run<seq<int>>)
    requires WellIdentified(c)
    ensures Evolves(st, r.st) && MemoStable(st, r.st)
    ensures Valid(st) ==> Valid(r.st)
    ensures KeepsIndicesBut(st.nodeIndex, r.st.nodeIndex, Pending(c, st.nodeIndex))
    ensures r.Ok? ==> MembersResolve(c, r.st, members, r.value)
    decreases TypeNodesSize(members), 0
  {
    if |members| == 0 then Ok([], st)
    else
      var first := ResolveTypeNode(c, st, members[0]);
      if first.Thrown? then Thrown(first.st)
      else
        var rest := FillUnion(c, first.st, members[1..]);
        Compose(st, first.st, rest.st);
        KeepsChain(c, st, first.st, rest.st, {}, {});
        assert Pending(c, st.nodeIndex) + {} + {} == Pending(c, st.nodeIndex);
        if rest.Thrown? then Thrown(rest.st)
        else
          NodeCarried(c, first.st, rest.st, members[0], first.value);
          MembersResolveCons(c, rest.st, members, first.value, rest.value);
          Ok([first.value] + rest.value, rest.st)
  }

  lemma MembersResolveCons(c: Checker, st: TypeState, members: seq<TypeNode>, first: int, rest: seq<int>)
    requires |members| > 0 && MembersResolve(c, st, members[1..], rest)
    requires NodeResolves(c, st, members[0], first)
    ensures MembersResolve(c, st, members, [first] + rest)
  {
    var types := [first] + rest;
    forall i | 0 <= i < |members|
      ensures NodeResolves(c, st, members[i], types[i])
    {
      if i > 0 {
        assert types[i] == rest[i - 1] && members[i] == members[1..][i - 1];
      }
    }
  }

  /**
   An array type: the element type is resolved first, then the array of that
   element index is looked up in the memo or appended.
   */
  function BuildArray(c: Checker, st: TypeState, element: TypeNode): (r: Run<int>)
    requires WellIdentified(c)
    ensures Evolves(st, r.st) && MemoStable(st, r.st)
    ensures Valid(st) ==> Valid(r.st)
    ensures KeepsIndicesBut(st.nodeIndex, r.st.nodeIndex, Pending(c, st.nodeIndex))
    ensures r.st.buffer[..|st.buffer|] == st.buffer
    ensures r.Ok? ==> NodeResolves(c, r.st, ArrayTypeNode(element), r.value)
    ensures r.Ok? && element.KeywordType? ==>
              element.primitive in r.st.arrayMap && r.st.arrayMap[element.primitive] == r.value
    ensures r.Ok? ==> var e := ResolveTypeNode(c, st, element);
                      && e.Ok? && e.value in r.st.arrayMap && r.st.arrayMap[e.value] == r.value
    decreases 1 + TypeNodeSize(element), 0
  {
    var e := ResolveTypeNode(c, st, element);
    if e.Thrown? then Thrown(e.st)
    else
      var a := ArrayForElement(e.st, e.value);
      Compose(st, e.st, a.st);
      NodeCarried(c, e.st, a.st, element, e.value);
      assert e.value in a.st.arrayMap && a.st.arrayMap[e.value] == a.value && NodeResolves(c, a.st, element, e.value);
      Ok(a.value, a.st)
  }

  /**
   The array of a resolved element index: the memoised index when there is
   one, with nothing changed; otherwise a fresh slot holding the array,
   memoised under the element index.
   */
  function ArrayForElement(st: TypeState, e: int): (r: Step<int>)
    ensures Evolves(st, r.st) && MemoStable(st, r.st)
    ensures Valid(st) ==> Valid(r.st)
    ensures r.st.nodeIndex == st.nodeIndex && r.st.unionMap == st.unionMap
    ensures e in st.arrayMap ==> r == Step(st.arrayMap[e], st)
    ensures e !in st.arrayMap ==>
              && r.value == Shift(|st.buffer|) && r.st.buffer == st.buffer + [Array(e)]
    ensures e in r.st.arrayMap && r.st.arrayMap[e] == r.value
  {
    if e in st.arrayMap then Step(st.arrayMap[e], st)
    else
      var slot := Append(st, Array(e));
      var r := Step(Shift(slot.value), slot.st.(arrayMap := slot.st.arrayMap[e := Shift(slot.value)]));
      assert forall n :: TryGetTypeIndex(r.st, n) == TryGetTypeIndex(st, n);
      if Valid(st) then ArrayMemoValid(st, e); r else r
  }

  /* ---------------------------------------------------------------------- */
  /* What a node denotes, across later construction                          */
  /* ---------------------------------------------------------------------- */

  /**
   What a node denotes stays so while construction goes on: only pending
   nodes may have their indices recorded, and memo entries are never changed.
   */
  lemma {:induction false} NodeCarried(c: Checker, st: TypeState, st': TypeState, t: TypeNode, v: int)
    requires WellIdentified(c) && NodeResolves(c, st, t, v)
    requires KeepsIndicesBut(st.nodeIndex, st'.nodeIndex, Pending(c, st.nodeIndex)) && MemoStable(st, st')
    ensures NodeResolves(c, st', t, v)
    decreases t
  {
    match t
    case KeywordType(_) =>
    case TypeReference(identifier) =>
      assert Pending(c, st.nodeIndex) + {} == Pending(c, st.nodeIndex);
      RefCarried(c, st, st', {}, identifier, v);
    case UnionTypeNode(_, _) =>
    case ArrayTypeNode(element) =>
      var e :| e in st.arrayMap && st.arrayMap[e] == v && NodeResolves(c, st, element, e);
      NodeCarried(c, st, st', element, e);
      assert e in st'.arrayMap && st'.arrayMap[e] == v;
  }

  /**
   Memoising one union text under a new index leaves alone what every node
   not mentioning that text denotes.
   */
  lemma {:induction false} NodeAfterMemo(c: Checker, st: TypeState, st': TypeState, text: string, x: int, t: TypeNode, v: int)
    requires NodeResolves(c, st, t, v) && !MentionsText(t, text)
    requires st'.nodeIndex == st.nodeIndex && st'.arrayMap == st.arrayMap && st'.unionMap == st.unionMap[text := x]
    ensures NodeResolves(c, st', t, v)
    decreases t
  {
    match t
    case KeywordType(_) =>
    case TypeReference(_) =>
    case UnionTypeNode(_, _) =>
    case ArrayTypeNode(element) =>
      var e :| e in st.arrayMap && st.arrayMap[e] == v && NodeResolves(c, st, element, e);
      NodeAfterMemo(c, st, st', text, x, element, e);
  }

  lemma MembersAfterMemo(c: Checker, st: TypeState, st': TypeState, text: string, x: int, members: seq<TypeNode>, types: seq<int>)
    requires MembersResolve(c, st, members, types)
    requires st'.nodeIndex == st.nodeIndex && st'.arrayMap == st.arrayMap && st'.unionMap == st.unionMap[text := x]
    ensures MembersResolveApart(c, st', members, types, text)
  {
    forall i | 0 <= i < |members| && !MentionsText(members[i], text)
      ensures NodeResolves(c, st', members[i], types[i])
    {
      NodeAfterMemo(c, st, st', text, x, members[i], types[i]);
    }
  }

  /* ---------------------------------------------------------------------- */
  /* Validity of the memo updates                                            */
  /* ---------------------------------------------------------------------- */

  /** Two steps of construction compose into one. */
  lemma Compose(a: TypeState, b: TypeState, c: TypeState)
    requires Evolves(a, b) && MemoStable(a, b) && Evolves(b, c) && MemoStable(b, c)
    ensures Evolves(a, c) && MemoStable(a, c)
  {
  }

  /** Appending a descriptor keeps a valid state valid and is an evolution. */
  lemma AppendValid(st: TypeState, d: Descriptor)
    ensures Evolves(st, Append(st, d).st)
    ensures Valid(st) ==> Valid(Append(st, d).st)
  {
    var st' := Append(st, d).st;
    assert forall n :: TryGetTypeIndex(st', n) == TryGetTypeIndex(st, n);
    if Valid(st) {
      ValidFrame(st, st');
    }
  }

  /** Memoising a text under a placeholder slot and filling that slot with the union keeps validity. */
  lemma UnionMemoValid(st: TypeState, slot: int, text: string, types: seq<int>)
    requires Valid(st) && 0 <= slot < |st.buffer| && st.buffer[slot] == PlaceHolder
    ensures Valid(SetSlot(st.(unionMap := st.unionMap[text := Shift(slot)]), slot, Union(types)))
  {
    var st' := SetSlot(st.(unionMap := st.unionMap[text := Shift(slot)]), slot, Union(types));
    forall e | e in st'.arrayMap
      ensures st'.buffer[st'.arrayMap[e] - LENGTH] == Array(e)
    {
      assert st.arrayMap[e] - LENGTH != slot;
    }
    forall t | t in st'.unionMap
      ensures Addresses(st', st'.unionMap[t]) && st'.buffer[st'.unionMap[t] - LENGTH].Union?
    {
      if t != text {
        assert st.unionMap[t] - LENGTH != slot;
      }
    }
  }

  /** Appending the array of `e` and memoising it keeps validity. */
  lemma ArrayMemoValid(st: TypeState, e: int)
    requires Valid(st)
    ensures var slot := Append(st, Array(e));
            Valid(slot.st.(arrayMap := slot.st.arrayMap[e := Shift(slot.value)]))
  {
    var slot := Append(st, Array(e));
    var st' := slot.st.(arrayMap := slot.st.arrayMap[e := Shift(slot.value)]);
    forall x | x in st'.arrayMap
      ensures Addresses(st', st'.arrayMap[x]) && st'.buffer[st'.arrayMap[x] - LENGTH] == Array(x)
    {
      if x != e {
        assert st'.buffer[st.arrayMap[x] - LENGTH] == st.buffer[st.arrayMap[x] - LENGTH];
      }
    }
    forall t | t in st'.unionMap
      ensures st'.buffer[st'.unionMap[t] - LENGTH].Union?
    {
      assert st'.buffer[st.unionMap[t] - LENGTH] == st.buffer[st.unionMap[t] - LENGTH];
    }
  }

  /* ---------------------------------------------------------------------- */
  /* Memoisation                                                             */
  /* ---------------------------------------------------------------------- */

  /**
   A union text is built once: resolving the same text again, whatever its
   members, gives the same index and changes nothing.
   */
  lemma UnionBuiltOnce(c: Checker, st: TypeState, text: string, first: seq<TypeNode>, again: seq<TypeNode>)
    requires WellIdentified(c)
    ensures var r1 := ResolveTypeNode(c, st, UnionTypeNode(text, first));
            r1.Ok? ==> ResolveTypeNode(c, r1.st, UnionTypeNode(text, again)) == Ok(r1.value, r1.st)
  {
  }

  /** An element index has one array: asking again gives the same index and changes nothing. */
  lemma ArrayBuiltOnce(st: TypeState, e: int)
    ensures var a := ArrayForElement(st, e);
            ArrayForElement(a.st, e) == a
  {
  }

  /** In a valid state, distinct element indices are memoised under distinct slots holding their arrays. */
  lemma ArraysDistinctByElement(st: TypeState, e1: int, e2: int)
    requires Valid(st) && e1 in st.arrayMap && e2 in st.arrayMap
    ensures st.buffer[st.arrayMap[e1] - LENGTH] == Array(e1)
    ensures st.arrayMap[e1] == st.arrayMap[e2] <==> e1 == e2
  {
  }

  /** A resolved union, in a valid state, addresses a slot holding a union. */
  lemma UnionSlotHoldsUnion(c: Checker, st: TypeState, text: string, members: seq<TypeNode>)
    requires WellIdentified(c) && Valid(st)
    ensures var r := BuildUnion(c, st, text, members);
            r.Ok? ==> Addresses(r.st, r.value) && r.st.buffer[r.value - LENGTH].Union?
  {
    var r := BuildUnion(c, st, text, members);
    if r.Ok? {
      assert text in r.st.unionMap;
    }
  }
}
