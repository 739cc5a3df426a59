/**
 The slice of the TypeScript syntax tree and of the type checker that the
 type table builder consults: declarations with their names, modifiers,
 heritage clauses, members and parameters; type annotations; and the
 checker's identifier-to-declaration resolution, given as a finite map.
 */
module Declarations {
  import opened Wrappers
  import opened TypeDefs

  /** Identity of a syntax node; the recorder's maps are keyed by it. */
  type NodeId = int

  datatype NameKind = Identifier | StringLiteral | NumericLiteral | ComputedPropertyName | PrivateIdentifier

  /** A declaration's name node: its identity, its syntax kind and its text. */
  datatype Name = Name(node: NodeId, kind: NameKind, text: string)

  datatype Modifier =
    | AbstractKeyword | ExportKeyword | StaticKeyword
    | PrivateKeyword | ProtectedKeyword | ReadonlyKeyword | OtherKeyword

  datatype DeclKind =
    | ClassDeclaration | InterfaceDeclaration
    | MethodDeclaration | Constructor | GetAccessor | SetAccessor | MethodSignature
    | PropertyDeclaration | PropertySignature | Parameter | OtherDeclaration

  /**
   A type annotation as the checker sees it: `checked` is what
   `checkDeclarationType` answers (a primitive index, or ANY when the
   annotation does not name a primitive), and `head` is the text of the
   annotation's first child, the identifier of a type reference.
   */
  datatype Annotation = Annotation(checked: int, head: string)

  /** A heritage clause: its full source text and the identifiers it lists. */
  datatype HeritageClause = HeritageClause(text: string, types: seq<string>)

  datatype Decl = Decl(
    id: NodeId,
    kind: DeclKind,
    name: Option<Name>,
    modifiers: seq<Modifier>,
    annotation: Option<Annotation>,
    initializerIsNew: bool,
    heritageClauses: seq<HeritageClause>,
    members: seq<Decl>,
    parameters: seq<Decl>)

  /** The checker's `getTypeDeclForIdentifier`, keyed by identifier text. */
  datatype Checker = Checker(declOf: map<string, Decl>)

  /** One listed heritage type with the text of the clause it appears in. */
  datatype HeritageRef = HeritageRef(clauseText: string, identifier: string)

  /** The heritage types in visiting order: clause by clause, type by type. */
  function HeritageRefs(clauses: seq<HeritageClause>): (r: seq<HeritageRef>)
    ensures |r| == TypesListed(clauses)
  {
    if |clauses| == 0 then []
    else ClauseRefs(clauses[0].text, clauses[0].types) + HeritageRefs(clauses[1..])
  }

  function ClauseRefs(text: string, types: seq<string>): (r: seq<HeritageRef>)
    ensures |r| == |types|
    ensures forall i :: 0 <= i < |r| ==> r[i] == HeritageRef(text, types[i])
  {
    if |types| == 0 then [] else [HeritageRef(text, types[0])] + ClauseRefs(text, types[1..])
  }

  /** How many types the clauses list in total. */
  function TypesListed(clauses: seq<HeritageClause>): nat {
    if |clauses| == 0 then 0 else |clauses[0].types| + TypesListed(clauses[1..])
  }

  /**
   The k-th type of the j-th clause comes after every type the earlier
   clauses list, carrying the j-th clause's text.
   */
  lemma {:induction false} HeritageRefAt(clauses: seq<HeritageClause>, j: nat, k: nat)
    requires j < |clauses| && k < |clauses[j].types|
    ensures TypesListed(clauses[..j]) + k < |HeritageRefs(clauses)|
    ensures HeritageRefs(clauses)[TypesListed(clauses[..j]) + k] == HeritageRef(clauses[j].text, clauses[j].types[k])
  {
    if j == 0 {
      assert clauses[..0] == [];
    } else {
      assert clauses[..j][1..] == clauses[1..][..j - 1];
      HeritageRefAt(clauses[1..], j - 1, k);
    }
  }

  /** A size that shrinks from a declaration to its members, parameters and heritage types. */
  function Size(d: Decl): (r: nat)
    ensures r > SizeOf(d.members) && r > SizeOf(d.parameters) && r > |HeritageRefs(d.heritageClauses)|
    decreases d
  {
    1 + |HeritageRefs(d.heritageClauses)| + SizeOf(d.members) + SizeOf(d.parameters)
  }

  function SizeOf(ds: seq<Decl>): (r: nat)
    ensures |ds| > 0 ==> r > Size(ds[0]) && r > SizeOf(ds[1..])
    decreases ds
  {
    if |ds| == 0 then 0 else Size(ds[0]) + SizeOf(ds[1..]) + 1
  }

  /** The kinds `createType` builds a function type for. */
  predicate IsFunctionLike(k: DeclKind) {
    k == MethodDeclaration || k == Constructor || k == GetAccessor || k == SetAccessor
  }

  /** The declarations `createType` builds a type for: method-like ones and classes. */
  predicate Buildable(d: Decl) {
    IsFunctionLike(d.kind) || d.kind == ClassDeclaration
  }

  /** The identities of a list of members. */
  function MemberIds(ms: seq<Decl>): set<NodeId> {
    set m | m in ms :: m.id
  }

  /**
   Two declarations of one syntax tree: they share an identity only when
   they are the same declaration, no member of the second has the first's
   identity, and members of both share an identity only when the two
   declarations are the same.
   */
  predicate Apart(d1: Decl, d2: Decl) {
    && (d1.id == d2.id ==> d1 == d2)
    && (forall m | m in d2.members :: m.id != d1.id)
    && (forall m1, m2 | m1 in d1.members && m2 in d2.members && m1.id == m2.id :: d1 == d2)
  }

  /**
   Node identities agree with the syntax tree they stand for: every two of
   the declarations are apart. The fact is used only where a proof names
   the two declarations it is about.
   */
  ghost predicate DeclsWellFormed(ds: set<Decl>) {
    forall d1, d2 {:trigger Apart(d1, d2)} | d1 in ds && d2 in ds :: Apart(d1, d2)
  }

  /** The declarations the checker resolves to have well-formed identities. */
  ghost predicate WellIdentified(c: Checker) {
    DeclsWellFormed(c.declOf.Values)
  }

  /** So do they together with `d`. */
  ghost predicate Identified(c: Checker, d: Decl) {
    DeclsWellFormed(c.declOf.Values + {d})
  }

  /** A property initialised by a `new` expression declares an instance. */
  predicate IsNewExpressionProperty(d: Decl) {
    d.kind == PropertyDeclaration && d.initializerIsNew
  }

  /** The node the recorder binds a member's or parameter's type to: its name. */
  function NameNode(d: Decl): (r: Option<NodeId>)
    ensures r.Some? <==> d.name.Some?
  {
    if d.name.Some? then Some(d.name.value.node) else None
  }

  /**
   The key a property is filed under. Identifier, string and numeric names
   give their text, a computed name gives COMPUTED_NAME, and any other name,
   or none, is rejected.
   */
  function FieldName(name: Option<Name>): (r: Option<string>)
    ensures r.None? <==> name.None? || name.value.kind == PrivateIdentifier
    ensures r.Some? && name.value.kind != ComputedPropertyName ==> r.value == name.value.text
    ensures r.Some? && name.value.kind == ComputedPropertyName ==> r.value == COMPUTED_NAME
  {
    match name
    case None => None
    case Some(n) =>
      match n.kind
      case Identifier => Some(n.text)
      case StringLiteral => Some(n.text)
      case NumericLiteral => Some(n.text)
      case ComputedPropertyName => Some(COMPUTED_NAME)
      case PrivateIdentifier => None
  }

  /** A function's recorded name: its name's text, or "constructor" when it has none. */
  function FunctionName(d: Decl): string {
    if d.name.Some? then d.name.value.text else "constructor"
  }

  /** The access flag the modifiers set; the last private or protected keyword wins. */
  function AccessFlagOf(mods: seq<Modifier>): (r: int)
    ensures r == PUBLIC || r == PRIVATE || r == PROTECTED
    ensures r == PUBLIC <==> PrivateKeyword !in mods && ProtectedKeyword !in mods
    ensures r == PRIVATE ==> PrivateKeyword in mods
    ensures r == PROTECTED ==> ProtectedKeyword in mods
  {
    if |mods| == 0 then PUBLIC
    else
      var last := mods[|mods| - 1];
      if last == PrivateKeyword then PRIVATE
      else if last == ProtectedKeyword then PROTECTED
      else
        assert mods == mods[..|mods| - 1] + [last];
        AccessFlagOf(mods[..|mods| - 1])
  }

  /** Of several access keywords the last one decides, whatever other modifiers follow it. */
  lemma {:induction false} LastAccessKeywordWins(front: seq<Modifier>, rest: seq<Modifier>)
    requires PrivateKeyword !in rest && ProtectedKeyword !in rest
    ensures AccessFlagOf(front + [PrivateKeyword] + rest) == PRIVATE
    ensures AccessFlagOf(front + [ProtectedKeyword] + rest) == PROTECTED
    decreases |rest|
  {
    if |rest| > 0 {
      var last := rest[|rest| - 1];
      var shorter := rest[..|rest| - 1];
      assert shorter + [last] == rest;
      assert (front + [PrivateKeyword] + rest)[..|front| + |rest|] == front + [PrivateKeyword] + shorter;
      assert (front + [ProtectedKeyword] + rest)[..|front| + |rest|] == front + [ProtectedKeyword] + shorter;
      assert last in rest;
      LastAccessKeywordWins(front, shorter);
    }
  }

  /*
   The modifier loops below read the modifiers in order and each keyword sets
   only its own flag, so every flag is a fold over the list: the value after
   the last modifier is the keyword's flag when the last modifier is that
   keyword, and the value after the ones before it otherwise.
   */

  /** The modifier a class is encoded with: set to ABSTRACT by an abstract keyword, NONABSTRACT before any. */
  function ClassModifierOf(mods: seq<Modifier>): (r: int)
    ensures r == ABSTRACT <==> AbstractKeyword in mods
    ensures r == NONABSTRACT || r == ABSTRACT
  {
    if |mods| == 0 then NONABSTRACT
    else
      var last := mods[|mods| - 1];
      if last == AbstractKeyword then ABSTRACT
      else
        assert mods == mods[..|mods| - 1] + [last];
        ClassModifierOf(mods[..|mods| - 1])
  }

  /** A function's static flag: set to STATIC by a static keyword, NONSTATIC before any. */
  function StaticFlagOf(mods: seq<Modifier>): (r: int)
    ensures r == STATIC <==> StaticKeyword in mods
    ensures r == NONSTATIC || r == STATIC
  {
    if |mods| == 0 then NONSTATIC
    else
      var last := mods[|mods| - 1];
      if last == StaticKeyword then STATIC
      else
        assert mods == mods[..|mods| - 1] + [last];
        StaticFlagOf(mods[..|mods| - 1])
  }

  /** A property's readonly flag: set to READONLY by a readonly keyword, NONREADONLY before any. */
  function ReadonlyFlagOf(mods: seq<Modifier>): (r: int)
    ensures r == READONLY <==> ReadonlyKeyword in mods
    ensures r == NONREADONLY || r == READONLY
  {
    if |mods| == 0 then NONREADONLY
    else
      var last := mods[|mods| - 1];
      if last == ReadonlyKeyword then READONLY
      else
        assert mods == mods[..|mods| - 1] + [last];
        ReadonlyFlagOf(mods[..|mods| - 1])
  }

  /**
   A field's info once its modifiers are read: the access flag and readonly
   flag each come from their own keywords, and the type index is the one given.
   */
  function FieldInfoOf(mods: seq<Modifier>, typeIndex: int): FieldInfo {
    FieldInfo(typeIndex, AccessFlagOf(mods), ReadonlyFlagOf(mods))
  }

  /**
   A type node as `getOrCreateRecordForTypeNode` receives it: a keyword type
   with its primitive index, a reference by identifier, a union with its
   source text and members, or an array with its element.
   */
  datatype TypeNode =
    | KeywordType(primitive: int)
    | TypeReference(identifier: string)
    | UnionTypeNode(text: string, members: seq<TypeNode>)
    | ArrayTypeNode(element: TypeNode)

  function TypeNodeSize(t: TypeNode): (r: nat)
    ensures t.UnionTypeNode? ==> r > TypeNodesSize(t.members)
    ensures t.ArrayTypeNode? ==> r > TypeNodeSize(t.element)
    ensures r > 0
    decreases t
  {
    match t
    case UnionTypeNode(_, members) => 1 + TypeNodesSize(members)
    case ArrayTypeNode(element) => 1 + TypeNodeSize(element)
    case _ => 1
  }

  function TypeNodesSize(ts: seq<TypeNode>): (r: nat)
    ensures |ts| > 0 ==> r > TypeNodeSize(ts[0]) && r > TypeNodesSize(ts[1..])
    decreases ts
  {
    if |ts| == 0 then 0 else TypeNodeSize(ts[0]) + TypeNodesSize(ts[1..]) + 1
  }
}
