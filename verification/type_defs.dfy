/**
 The vocabulary of the ts2panda type system: the primitive index space, the
 tags of the encoded type kinds, the modifier and access flags, and the type
 descriptors that occupy the slots of the type array buffer.
 */
module TypeDefs {
  import opened OrderedMaps

  /* Primitive types. User types are referred to by their slot index shifted
     past the primitive range, so a reference below LENGTH is a primitive. */
  const ANY: int := -1
  const NUMBER: int := 0
  const BOOLEAN: int := 1
  const BIGINT: int := 2
  const STRING: int := 3
  const SYMBOL: int := 4
  const NULL: int := 5
  const UNDEFINED: int := 6
  const INT: int := 7
  const LENGTH: int := 50

  /* The kind tag that leads every encoded descriptor. */
  const COUNTER_TAG: int := 0
  const CLASS_TAG: int := 1
  const CLASSINST_TAG: int := 2
  const FUNCTION_TAG: int := 3
  const UNION_TAG: int := 4
  const ARRAY_TAG: int := 5
  const OBJECT_TAG: int := 6
  const EXTERNAL_TAG: int := 7

  const NONABSTRACT: int := 0
  const ABSTRACT: int := 1
  const NONSTATIC: int := 0
  const STATIC: int := 1
  const NONREADONLY: int := 0
  const READONLY: int := 1

  const PUBLIC: int := 0
  const PRIVATE: int := 1
  const PROTECTED: int := 2

  /** The field name recorded for a computed property name. */
  const COMPUTED_NAME: string := "#computed"

  /** The shifted index that refers to slot `slot` of the type array buffer. */
  function Shift(slot: int): int {
    slot + LENGTH
  }

  /** A reference stored in a descriptor names a user slot iff it is at least LENGTH. */
  predicate IsUserReference(reference: int) {
    reference >= LENGTH
  }

  /** What a field's type array holds: type index, access flag, readonly flag. */
  datatype FieldInfo = FieldInfo(typeIndex: int, access: int, readonly: int)

  /** The info a field starts with before its modifiers and type are read. */
  const DEFAULT_FIELD_INFO: FieldInfo := FieldInfo(ANY, PUBLIC, NONREADONLY)

  type FieldTable = seq<Entry<FieldInfo>>
  type MethodTable = seq<Entry<int>>

  /**
   One slot of the type array buffer. `PlaceHolder` occupies a slot that has
   been reserved but whose descriptor is not built yet.
   */
  datatype Descriptor =
    | PlaceHolder
    | Summary(userDefinedClassNum: int, anonymousRedirect: seq<string>)
    | Class(modifier: int, extendsHeritage: int, implementsHeritages: seq<int>,
            fields: FieldTable, methods: MethodTable,
            staticFields: FieldTable, staticMethods: MethodTable)
    | ClassInst(shiftedReferredClassIndex: int)
    | Function(name: string, accessFlag: int, modifierStatic: int, parameters: seq<int>, returnType: int)
    | External(fullRedirectPath: string)
    | Union(unionedTypes: seq<int>)
    | Array(referedTypeIndex: int)
    | Interface(heritages: seq<int>, fields: FieldTable, methodTypes: seq<int>)

  /** The class modifier is one of the two abstract flags. */
  predicate WellFormed(d: Descriptor) {
    d.Class? ==> d.modifier == NONABSTRACT || d.modifier == ABSTRACT
  }
}
