/**
 * Record types and record instances: what the adapters learn from a dataclass by
 * introspection (`dataclasses.fields`, the field's declared type, the key flag from
 * `iskeyfield`, whether the default is `None`) and the values an instance holds.
 */
module Records {

  /** The identity of one record instance (a Python object); the memoised ids are keyed by it. */
  type Handle = nat

  newtype Byte = x: int | 0 <= x < 256

  /** The declared type of a field. */
  datatype Kind =
    | IntKind
    | FloatKind
    | StrKind
    | BytesKind
    | DateTimeKind
    | DateKind
    | BoolKind
    | EnumKind(enumName: string)
    | RecordKind(rtype: RecordType)
    /** Any other class: neither a supported scalar type, an `Enum` subclass nor a dataclass. */
    | OtherKind(typeName: string)

  datatype FieldSpec = FieldSpec(name: string, kind: Kind, isKey: bool, defaultIsNone: bool)

  /** A dataclass: its `__name__` and its fields in declaration order. */
  datatype RecordType = RecordType(name: string, fields: seq<FieldSpec>)

  datatype Value =
    | IntV(i: int)
    | FloatV(x: real)
    | StrV(s: string)
    | BytesV(bytes: seq<Byte>)
    | DateTimeV(year: int, month: int, day: int, hour: int, minute: int, second: int, micro: int)
    | DateV(year: int, month: int, day: int)
    | BoolV(flag: bool)
    /** An enum member, by its `.name`. */
    | EnumV(member: string)
    | RecordV(rec: Record)
    | OtherV(repr: string)

  /** A dataclass instance: the object, its class and one value per field, in field order. */
  datatype Record = Record(handle: Handle, rtype: RecordType, values: seq<Value>)

  /** `v` is a value of the declared type `k`; a nested record must itself be well typed. */
  predicate Fits(k: Kind, v: Value)
    decreases v, 1
  {
    match k
    case IntKind => v.IntV?
    case FloatKind => v.FloatV?
    case StrKind => v.StrV?
    case BytesKind => v.BytesV?
    case DateTimeKind => v.DateTimeV?
    case DateKind => v.DateV?
    case BoolKind => v.BoolV?
    case EnumKind(_) => v.EnumV?
    case RecordKind(t) => v.RecordV? && v.rec.rtype == t && WellTyped(v.rec)
    case OtherKind(_) => v.OtherV?
  }

  /** Every field holds a value of its declared type, recursively. */
  predicate WellTyped(r: Record)
    decreases r, 0
  {
    && |r.values| == |r.rtype.fields|
    && forall i :: 0 <= i < |r.values| ==> Fits(r.rtype.fields[i].kind, r.values[i])
  }

  /** The handles of every record nested (at any depth) inside `r`, not counting `r` itself. */
  function NestedHandles(r: Record): set<Handle>
    decreases r
  {
    set i, h | 0 <= i < |r.values| && r.values[i].RecordV?
                 && h in {r.values[i].rec.handle} + NestedHandles(r.values[i].rec) :: h
  }

  /** Whether a field's declared type is a dataclass (`dataclasses.is_dataclass(field.type)`). */
  predicate IsNested(f: FieldSpec)
  {
    f.kind.RecordKind?
  }

  /** Whether the type declares no key field at all. */
  predicate NoKeyFields(t: RecordType)
  {
    forall i :: 0 <= i < |t.fields| ==> !t.fields[i].isKey
  }

  /** No key field of `t` is a nested record. */
  predicate FlatKeys(t: RecordType)
  {
    forall j :: 0 <= j < |t.fields| && t.fields[j].isKey ==> !IsNested(t.fields[j])
  }

  /** No field of `t` is a nested record. */
  predicate Flat(t: RecordType)
  {
    forall j :: 0 <= j < |t.fields| ==> !IsNested(t.fields[j])
  }

  /** The fields of `t` have pairwise different names. */
  predicate DistinctFieldNames(t: RecordType)
  {
    forall i, j :: 0 <= i < j < |t.fields| ==> t.fields[i].name != t.fields[j].name
  }

  /**
   * The two instances are of one type and have equal values in every key field. A nested key
   * field compares the whole nested record, its handle included.
   */
  predicate SameKeys(r1: Record, r2: Record)
  {
    && r1.rtype == r2.rtype && |r1.values| == |r2.values|
    && forall j :: 0 <= j < |r1.values| && j < |r1.rtype.fields| && r1.rtype.fields[j].isKey ==>
         r1.values[j] == r2.values[j]
  }
}
