/**
 The literal-buffer encoding of type descriptors (`transfer2LiteralBuffer`)
 and a decoder for it.

 Every descriptor encodes as a sequence of integer and string literals led by
 its kind tag; every collection is preceded by its size. An interface reuses
 the class tag, so the decoder tells the two apart by layout alone: it reads a
 class first and an interface when the class layout does not fit.
 */
module TypeEncoding {
  import opened Wrappers
  import opened OrderedMaps
  import opened TypeDefs

  /** A literal of the buffer, tagged INTEGER or STRING. */
  datatype Literal = IntLit(i: int) | StrLit(s: string)

  /* ---------------------------------------------------------------------- */
  /* Encoding                                                                */
  /* ---------------------------------------------------------------------- */

  function Ints(xs: seq<int>): (r: seq<Literal>)
    ensures |r| == |xs|
    ensures forall i :: 0 <= i < |xs| ==> r[i] == IntLit(xs[i])
  {
    if |xs| == 0 then [] else [IntLit(xs[0])] + Ints(xs[1..])
  }

  function Strs(xs: seq<string>): (r: seq<Literal>)
    ensures |r| == |xs|
    ensures forall i :: 0 <= i < |xs| ==> r[i] == StrLit(xs[i])
  {
    if |xs| == 0 then [] else [StrLit(xs[0])] + Strs(xs[1..])
  }

  /** A list of indices, preceded by its length. */
  function Counted(xs: seq<int>): seq<Literal> {
    [IntLit(|xs|)] + Ints(xs)
  }

  function FieldEntry(e: Entry<FieldInfo>): seq<Literal> {
    [StrLit(e.key), IntLit(e.value.typeIndex), IntLit(e.value.access), IntLit(e.value.readonly)]
  }

  function FieldEntries(t: FieldTable): (r: seq<Literal>)
    ensures |r| == 4 * |t|
  {
    if |t| == 0 then [] else FieldEntry(t[0]) + FieldEntries(t[1..])
  }

  function MethodEntries(t: MethodTable): (r: seq<Literal>)
    ensures |r| == 2 * |t|
  {
    if |t| == 0 then [] else [StrLit(t[0].key), IntLit(t[0].value)] + MethodEntries(t[1..])
  }

  /** A field table: its size, then name, type index, access and readonly flag per field. */
  function Fields(t: FieldTable): seq<Literal> {
    [IntLit(|t|)] + FieldEntries(t)
  }

  /** A method table: its size, then name and type index per method. */
  function Methods(t: MethodTable): seq<Literal> {
    [IntLit(|t|)] + MethodEntries(t)
  }

  function ClassBody(d: Descriptor): seq<Literal>
    requires d.Class?
  {
    [IntLit(d.modifier), IntLit(d.extendsHeritage)] + Counted(d.implementsHeritages)
    + Fields(d.fields) + Methods(d.methods) + Fields(d.staticFields) + Methods(d.staticMethods)
  }

  function InterfaceBody(d: Descriptor): seq<Literal>
    requires d.Interface?
  {
    Counted(d.heritages) + Fields(d.fields) + Counted(d.methodTypes)
  }

  /** The literal buffer of one slot. */
  function Encode(d: Descriptor): seq<Literal> {
    match d
    case PlaceHolder => []
    case Summary(n, redirects) => [IntLit(COUNTER_TAG), IntLit(n), IntLit(|redirects|)] + Strs(redirects)
    case Class(_, _, _, _, _, _, _) => [IntLit(CLASS_TAG)] + ClassBody(d)
    case ClassInst(referred) => [IntLit(CLASSINST_TAG), IntLit(referred)]
    case Function(name, access, isStatic, params, ret) =>
      [IntLit(FUNCTION_TAG), IntLit(access), IntLit(isStatic), StrLit(name)] + Counted(params) + [IntLit(ret)]
    case External(path) => [IntLit(EXTERNAL_TAG), StrLit(path)]
    case Union(members) => [IntLit(UNION_TAG)] + Counted(members)
    case Array(element) => [IntLit(ARRAY_TAG), IntLit(element)]
    case Interface(_, _, _) => [IntLit(CLASS_TAG)] + InterfaceBody(d)
  }

  /* ---------------------------------------------------------------------- */
  /* Decoding                                                                */
  /* ---------------------------------------------------------------------- */

  /** A value read from the front of a buffer, and what is left. */
  datatype Parsed<+T> = Parsed(value: T, rest: seq<Literal>)

  function ReadInt(s: seq<Literal>): Option<Parsed<int>> {
    if |s| > 0 && s[0].IntLit? then Some(Parsed(s[0].i, s[1..])) else None
  }

  function ReadStr(s: seq<Literal>): Option<Parsed<string>> {
    if |s| > 0 && s[0].StrLit? then Some(Parsed(s[0].s, s[1..])) else None
  }

  function ReadCount(s: seq<Literal>): Option<Parsed<nat>> {
    if |s| > 0 && s[0].IntLit? && s[0].i >= 0 then Some(Parsed(s[0].i as nat, s[1..])) else None
  }

  function ReadInts(s: seq<Literal>, n: nat): Option<Parsed<seq<int>>>
    decreases n
  {
    if n == 0 then Some(Parsed([], s))
    else
      var x :- ReadInt(s);
      var xs :- ReadInts(x.rest, n - 1);
      Some(Parsed([x.value] + xs.value, xs.rest))
  }

  function ReadStrs(s: seq<Literal>, n: nat): Option<Parsed<seq<string>>>
    decreases n
  {
    if n == 0 then Some(Parsed([], s))
    else
      var x :- ReadStr(s);
      var xs :- ReadStrs(x.rest, n - 1);
      Some(Parsed([x.value] + xs.value, xs.rest))
  }

  function ReadCounted(s: seq<Literal>): Option<Parsed<seq<int>>> {
    var n :- ReadCount(s);
    ReadInts(n.rest, n.value)
  }

  function ReadFieldEntries(s: seq<Literal>, n: nat): Option<Parsed<FieldTable>>
    decreases n
  {
    if n == 0 then Some(Parsed([], s))
    else
      var name :- ReadStr(s);
      var index :- ReadInt(name.rest);
      var access :- ReadInt(index.rest);
      var readonly :- ReadInt(access.rest);
      var more :- ReadFieldEntries(readonly.rest, n - 1);
      Some(Parsed([Entry(name.value, FieldInfo(index.value, access.value, readonly.value))] + more.value, more.rest))
  }

  function ReadMethodEntries(s: seq<Literal>, n: nat): Option<Parsed<MethodTable>>
    decreases n
  {
    if n == 0 then Some(Parsed([], s))
    else
      var name :- ReadStr(s);
      var index :- ReadInt(name.rest);
      var more :- ReadMethodEntries(index.rest, n - 1);
      Some(Parsed([Entry(name.value, index.value)] + more.value, more.rest))
  }

  function ReadFields(s: seq<Literal>): Option<Parsed<FieldTable>> {
    var n :- ReadCount(s);
    ReadFieldEntries(n.rest, n.value)
  }

  function ReadMethods(s: seq<Literal>): Option<Parsed<MethodTable>> {
    var n :- ReadCount(s);
    ReadMethodEntries(n.rest, n.value)
  }

  /** The four member tables of a class, as they were written. */
  datatype ClassTables = ClassTables(fields: FieldTable, methods: MethodTable,
                                     staticFields: FieldTable, staticMethods: MethodTable)

  /** Reads the instance fields and methods, then the static fields and methods. */
  function ReadClassTables(s: seq<Literal>): Option<Parsed<ClassTables>> {
    var fields :- ReadFields(s);
    var methods :- ReadMethods(fields.rest);
    var staticFields :- ReadFields(methods.rest);
    var staticMethods :- ReadMethods(staticFields.rest);
    Some(Parsed(ClassTables(fields.value, methods.value, staticFields.value, staticMethods.value), staticMethods.rest))
  }

  /** Reads a whole class body; the modifier must be one of the two abstract flags. */
  function DecodeClassBody(s: seq<Literal>): Option<Descriptor> {
    var modifier :- ReadInt(s);
    if modifier.value != NONABSTRACT && modifier.value != ABSTRACT then None
    else
      var extension :- ReadInt(modifier.rest);
      var implements :- ReadCounted(extension.rest);
      var tables :- ReadClassTables(implements.rest);
      if tables.rest != [] then None
      else Some(Class(modifier.value, extension.value, implements.value, tables.value.fields, tables.value.methods,
                      tables.value.staticFields, tables.value.staticMethods))
  }

  function DecodeInterfaceBody(s: seq<Literal>): Option<Descriptor> {
    var heritages :- ReadCounted(s);
    var fields :- ReadFields(heritages.rest);
    var methods :- ReadCounted(fields.rest);
    if methods.rest != [] then None
    else Some(Interface(heritages.value, fields.value, methods.value))
  }

  function DecodeSummary(s: seq<Literal>): Option<Descriptor> {
    var n :- ReadInt(s);
    var count :- ReadCount(n.rest);
    var redirects :- ReadStrs(count.rest, count.value);
    if redirects.rest != [] then None else Some(Summary(n.value, redirects.value))
  }

  function DecodeFunction(s: seq<Literal>): Option<Descriptor> {
    var access :- ReadInt(s);
    var isStatic :- ReadInt(access.rest);
    var name :- ReadStr(isStatic.rest);
    var params :- ReadCounted(name.rest);
    var ret :- ReadInt(params.rest);
    if ret.rest != [] then None else Some(Function(name.value, access.value, isStatic.value, params.value, ret.value))
  }

  /** Reads one slot's literal buffer back into a descriptor. */
  function Decode(s: seq<Literal>): Option<Descriptor> {
    if |s| == 0 then Some(PlaceHolder)
    else if !s[0].IntLit? then None
    else
      var tag, body := s[0].i, s[1..];
      if tag == COUNTER_TAG then DecodeSummary(body)
      else if tag == CLASS_TAG then
        var asClass := DecodeClassBody(body);
        if asClass.Some? then asClass else DecodeInterfaceBody(body)
      else if tag == CLASSINST_TAG then
        (if |body| == 1 && body[0].IntLit? then Some(ClassInst(body[0].i)) else None)
      else if tag == FUNCTION_TAG then DecodeFunction(body)
      else if tag == EXTERNAL_TAG then
        (if |body| == 1 && body[0].StrLit? then Some(External(body[0].s)) else None)
      else if tag == UNION_TAG then
        (var members :- ReadCounted(body); if members.rest != [] then None else Some(Union(members.value)))
      else if tag == ARRAY_TAG then
        (if |body| == 1 && body[0].IntLit? then Some(Array(body[0].i)) else None)
      else None
  }

  /* ---------------------------------------------------------------------- */
  /* Round trip                                                              */
  /* ---------------------------------------------------------------------- */

  lemma {:induction false} ReadIntsEncoded(xs: seq<int>, rest: seq<Literal>)
    ensures ReadInts(Ints(xs) + rest, |xs|) == Some(Parsed(xs, rest))
    decreases |xs|
  {
    if |xs| > 0 {
      var s := Ints(xs) + rest;
      assert s[0] == IntLit(xs[0]);
      assert s[1..] == Ints(xs[1..]) + rest;
      ReadIntsEncoded(xs[1..], rest);
      assert [xs[0]] + xs[1..] == xs;
    } else {
      assert Ints(xs) + rest == rest;
    }
  }

  lemma {:induction false} ReadStrsEncoded(xs: seq<string>, rest: seq<Literal>)
    ensures ReadStrs(Strs(xs) + rest, |xs|) == Some(Parsed(xs, rest))
    decreases |xs|
  {
    if |xs| > 0 {
      var s := Strs(xs) + rest;
      assert s[0] == StrLit(xs[0]);
      assert s[1..] == Strs(xs[1..]) + rest;
      ReadStrsEncoded(xs[1..], rest);
      assert [xs[0]] + xs[1..] == xs;
    } else {
      assert Strs(xs) + rest == rest;
    }
  }

  lemma ReadCountedEncoded(xs: seq<int>, rest: seq<Literal>)
    ensures ReadCounted(Counted(xs) + rest) == Some(Parsed(xs, rest))
  {
    assert (Counted(xs) + rest)[1..] == Ints(xs) + rest;
    ReadIntsEncoded(xs, rest);
  }

  lemma {:induction false} ReadFieldEntriesEncoded(t: FieldTable, rest: seq<Literal>)
    ensures ReadFieldEntries(FieldEntries(t) + rest, |t|) == Some(Parsed(t, rest))
    decreases |t|
  {
    if |t| > 0 {
      var s := FieldEntries(t) + rest;
      assert s == FieldEntry(t[0]) + (FieldEntries(t[1..]) + rest);
      assert s[4..] == FieldEntries(t[1..]) + rest;
      ReadFieldEntriesEncoded(t[1..], rest);
      assert [t[0]] + t[1..] == t;
    } else {
      assert FieldEntries(t) + rest == rest;
    }
  }

  lemma {:induction false} ReadMethodEntriesEncoded(t: MethodTable, rest: seq<Literal>)
    ensures ReadMethodEntries(MethodEntries(t) + rest, |t|) == Some(Parsed(t, rest))
    decreases |t|
  {
    if |t| > 0 {
      var s := MethodEntries(t) + rest;
      assert s[0] == StrLit(t[0].key) && s[1] == IntLit(t[0].value);
      assert s[2..] == MethodEntries(t[1..]) + rest;
      ReadMethodEntriesEncoded(t[1..], rest);
      assert [t[0]] + t[1..] == t;
    } else {
      assert MethodEntries(t) + rest == rest;
    }
  }

  lemma ReadFieldsEncoded(t: FieldTable, rest: seq<Literal>)
    ensures ReadFields(Fields(t) + rest) == Some(Parsed(t, rest))
  {
    assert (Fields(t) + rest)[1..] == FieldEntries(t) + rest;
    ReadFieldEntriesEncoded(t, rest);
  }

  lemma ReadMethodsEncoded(t: MethodTable, rest: seq<Literal>)
    ensures ReadMethods(Methods(t) + rest) == Some(Parsed(t, rest))
  {
    assert (Methods(t) + rest)[1..] == MethodEntries(t) + rest;
    ReadMethodEntriesEncoded(t, rest);
  }

  lemma ReadClassTablesEncoded(d: Descriptor)
    requires d.Class?
    ensures ReadClassTables(Fields(d.fields) + Methods(d.methods) + Fields(d.staticFields) + Methods(d.staticMethods))
            == Some(Parsed(ClassTables(d.fields, d.methods, d.staticFields, d.staticMethods), []))
  {
    var sm := Methods(d.staticMethods);
    var sf := Fields(d.staticFields) + sm;
    var m := Methods(d.methods) + sf;
    assert Fields(d.fields) + Methods(d.methods) + Fields(d.staticFields) + sm == Fields(d.fields) + m;
    ReadFieldsEncoded(d.fields, m);
    ReadMethodsEncoded(d.methods, sf);
    ReadFieldsEncoded(d.staticFields, sm);
    ReadMethodsEncoded(d.staticMethods, []);
    assert sm + [] == sm;
  }

  /** The class layout reads back exactly the class that was written. */
  lemma DecodeClassBodyEncoded(d: Descriptor)
    requires d.Class? && WellFormed(d)
    ensures DecodeClassBody(ClassBody(d)) == Some(d)
  {
    var tables := Fields(d.fields) + Methods(d.methods) + Fields(d.staticFields) + Methods(d.staticMethods);
    var im := Counted(d.implementsHeritages) + tables;
    assert ClassBody(d) == [IntLit(d.modifier), IntLit(d.extendsHeritage)] + im;
    assert ClassBody(d)[1..][1..] == im;
    ReadCountedEncoded(d.implementsHeritages, tables);
    ReadClassTablesEncoded(d);
  }

  /** The interface layout reads back exactly the interface that was written. */
  lemma DecodeInterfaceBodyEncoded(d: Descriptor)
    requires d.Interface?
    ensures DecodeInterfaceBody(InterfaceBody(d)) == Some(d)
  {
    var m := Counted(d.methodTypes);
    var f := Fields(d.fields) + m;
    assert InterfaceBody(d) == Counted(d.heritages) + f;
    ReadCountedEncoded(d.heritages, f);
    ReadFieldsEncoded(d.fields, m);
    ReadCountedEncoded(d.methodTypes, []);
    assert m + [] == m;
  }

  /**
   An interface never parses as a class, so the shared tag is unambiguous: the
   heritage count would have to be a modifier flag, and then either a field
   name or the end of the buffer arrives where the class layout needs a count.
   */
  lemma ClassLayoutRejectsInterface(d: Descriptor)
    requires d.Interface?
    ensures DecodeClassBody(InterfaceBody(d)) == None
  {
    if |d.heritages| == 0 {
      RejectsWithoutHeritage(d);
    } else if |d.heritages| == 1 {
      RejectsWithOneHeritage(d);
    }
  }

  /** No heritage: the count 0 reads as the modifier, the field count as the extended type. */
  lemma RejectsWithoutHeritage(d: Descriptor)
    requires d.Interface? && |d.heritages| == 0
    ensures DecodeClassBody(InterfaceBody(d)) == None
  {
    var s := InterfaceBody(d);
    var f, m := d.fields, d.methodTypes;
    var afterH := Fields(f) + Counted(m);
    assert s == [IntLit(0)] + afterH;
    if |f| == 0 {
      assert afterH == [IntLit(0)] + Counted(m);
      assert s[2..] == Counted(m);
      ReadCountedEncoded(m, []);
      assert Counted(m) + [] == Counted(m);
    } else {
      assert afterH[1] == FieldEntries(f)[0];
      assert s[2] == StrLit(f[0].key);
    }
  }

  /** One heritage: the count 1 reads as the modifier, the heritage as the extended type. */
  lemma RejectsWithOneHeritage(d: Descriptor)
    requires d.Interface? && |d.heritages| == 1
    ensures DecodeClassBody(InterfaceBody(d)) == None
  {
    var s := InterfaceBody(d);
    var h, f, m := d.heritages, d.fields, d.methodTypes;
    var afterH := Fields(f) + Counted(m);
    assert s == [IntLit(1), IntLit(h[0])] + afterH;
    assert s[2..] == afterH;
    if |f| == 0 {
      assert afterH == [IntLit(0)] + Counted(m);
      assert s[3..] == Counted(m);
      if |m| == 0 {
        assert s[3..] == [IntLit(0)];
      } else {
        assert s[4] == IntLit(m[0]);
      }
    } else {
      assert s[3] == StrLit(f[0].key);
    }
  }

  lemma SummaryRoundTrip(d: Descriptor)
    requires d.Summary?
    ensures Decode(Encode(d)) == Some(d)
  {
    var s := Encode(d);
    assert s[1..] == [IntLit(d.userDefinedClassNum), IntLit(|d.anonymousRedirect|)] + Strs(d.anonymousRedirect);
    assert s[1..][1..][1..] == Strs(d.anonymousRedirect) + [];
    ReadStrsEncoded(d.anonymousRedirect, []);
  }

  lemma ClassRoundTrip(d: Descriptor)
    requires d.Class? && WellFormed(d)
    ensures Decode(Encode(d)) == Some(d)
  {
    assert Encode(d)[1..] == ClassBody(d);
    DecodeClassBodyEncoded(d);
  }

  lemma FunctionRoundTrip(d: Descriptor)
    requires d.Function?
    ensures Decode(Encode(d)) == Some(d)
  {
    var s := Encode(d);
    var tail := Counted(d.parameters) + [IntLit(d.returnType)];
    assert s[1..] == [IntLit(d.accessFlag), IntLit(d.modifierStatic), StrLit(d.name)] + tail;
    assert s[1..][1..][1..][1..] == tail;
    ReadCountedEncoded(d.parameters, [IntLit(d.returnType)]);
  }

  lemma UnionRoundTrip(d: Descriptor)
    requires d.Union?
    ensures Decode(Encode(d)) == Some(d)
  {
    assert Encode(d)[1..] == Counted(d.unionedTypes) + [];
    ReadCountedEncoded(d.unionedTypes, []);
  }

  lemma InterfaceRoundTrip(d: Descriptor)
    requires d.Interface?
    ensures Decode(Encode(d)) == Some(d)
  {
    assert Encode(d)[1..] == InterfaceBody(d);
    ClassLayoutRejectsInterface(d);
    DecodeInterfaceBodyEncoded(d);
  }

  /** Every well-formed descriptor reads back from its encoding. */
  lemma DecodeEncode(d: Descriptor)
    requires WellFormed(d)
    ensures Decode(Encode(d)) == Some(d)
  {
    match d
    case PlaceHolder =>
    case Summary(_, _) => SummaryRoundTrip(d);
    case Class(_, _, _, _, _, _, _) => ClassRoundTrip(d);
    case ClassInst(_) =>
    case Function(_, _, _, _, _) => FunctionRoundTrip(d);
    case External(_) =>
    case Union(_) => UnionRoundTrip(d);
    case Array(_) =>
    case Interface(_, _, _) => InterfaceRoundTrip(d);
  }
}
