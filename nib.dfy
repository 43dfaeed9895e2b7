/** The input side: a decoded NIB archive, kept flat. Objects, values, key
    names and class names live in four tables, and everything refers to
    everything else by index. Decoding the binary file is not part of this
    model; the decoder's accessors become index lookups. */
module Nib {

  newtype Int8 = x: int | -0x80 <= x < 0x80
  newtype Int16 = x: int | -0x8000 <= x < 0x8000
  newtype Int32 = x: int | -0x8000_0000 <= x < 0x8000_0000
  newtype Int64 = x: int | -0x8000_0000_0000_0000 <= x < 0x8000_0000_0000_0000
  newtype UInt32 = x: int | 0 <= x < 0x1_0000_0000

  /** The closed set of primitive kinds a flat value can hold. */
  datatype ValueVariant =
    | Int8(i8: Int8)
    | Int16(i16: Int16)
    | Int32(i32: Int32)
    | Int64(i64: Int64)
    | Bool(b: bool)
    | Float(f32bits: bv32)
    | Double(f64bits: bv64)
    | Data(bytes: seq<bv8>)
    | Nil
    | ObjectRef(ref: UInt32)

  /** One key/value pair: the key is an index into the key-name table. */
  datatype Value = Value(keyIndex: nat, value: ValueVariant)

  /** One flat object: a span of the value table and a class-table index. */
  datatype Object = Object(valuesIndex: nat, valueCount: nat, classNameIndex: nat)

  /** A class-table entry: its name and the indices of its fallback classes. */
  datatype ClassName = ClassName(name: string, fallbackClassIndices: seq<int>)

  datatype Archive = Archive(
    objects: seq<Object>,
    values: seq<Value>,
    keys: seq<string>,
    classNames: seq<ClassName>)

  /** An object's span and class index lie inside the archive's tables. */
  predicate ObjectInRange(a: Archive, o: Object)
  {
    o.valuesIndex + o.valueCount <= |a.values| && o.classNameIndex < |a.classNames|
  }

  /** What the decoder guarantees of every archive it hands out: every index
      stays inside its table. */
  predicate WellFormed(a: Archive)
  {
    && (forall o :: o in a.objects ==> ObjectInRange(a, o))
    && (forall v :: v in a.values ==> v.keyIndex < |a.keys|)
  }

  /** `Object::values`: the object's span of the value table. */
  function ObjectValues(a: Archive, o: Object): (vs: seq<Value>)
    requires WellFormed(a) && o in a.objects
    ensures |vs| == o.valueCount
    ensures forall v :: v in vs ==> v.keyIndex < |a.keys|
  {
    var vs := a.values[o.valuesIndex..o.valuesIndex + o.valueCount];
    assert forall j :: 0 <= j < |vs| ==> vs[j] == a.values[o.valuesIndex + j];
    vs
  }

  /** `Value::key`: the value's key name. */
  function KeyName(a: Archive, v: Value): string
    requires v.keyIndex < |a.keys|
  {
    a.keys[v.keyIndex]
  }

  /** `Object::class_name`: the object's class-table entry. */
  function ClassOf(a: Archive, o: Object): ClassName
    requires WellFormed(a) && o in a.objects
  {
    a.classNames[o.classNameIndex]
  }
}
