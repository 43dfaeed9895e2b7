/** The conversion of a flat NIB archive into an NSKeyedArchiver document:
    value translation, object reconstruction, inline-collection expansion and
    the top-level assembly. Each step the converter performs with a loop is a
    method, proved equal to a specification function; the properties of those
    functions are proved in module Properties. */
module Upgrade {
  import opened Plist
  import Nib

  const Archiver: string := "NSKeyedArchiver"
  const ArchiverVersion: int := 100000

  const ArchiverKeyName: string := "$archiver"
  const TopKeyName: string := "$top"
  const ObjectsKeyName: string := "$objects"
  const VersionKeyName: string := "$version"
  const NullObjectReference: string := "$null"

  const ObjectClassKey: string := "$class"

  const ClassesKey: string := "$classes"
  const ClassnameKey: string := "$classname"

  /** The key/value pair that marks an object as an inlined collection, and
      the keys its expansion produces. */
  const InlinedValueKey: string := "NSInlinedValue"
  const CollectionObjectsKey: string := "NS.objects"
  const DictionaryKeysKey: string := "NS.keys"
  const DictionaryValuesKey: string := "NS.values"

  // ---------------------------------------------------------------------
  // Scalar value translation

  predicate IsIntegerVariant(v: Nib.ValueVariant)
  {
    v.Int8? || v.Int16? || v.Int32? || v.Int64?
  }

  /** The signed value of an integer variant, whatever its width. */
  function IntegerValue(v: Nib.ValueVariant): int
    requires IsIntegerVariant(v)
  {
    match v
    case Int8(x) => x as int
    case Int16(x) => x as int
    case Int32(x) => x as int
    case Int64(x) => x as int
  }

  /** `nibvalue_to_plistvalue`: one plist scalar per flat value. */
  function Translate(v: Nib.ValueVariant): (r: Value)
    ensures !r.Array? && !r.Dictionary?
  {
    match v
    case Int8(x) => Integer(x as int)
    case Int16(x) => Integer(x as int)
    case Int32(x) => Integer(x as int)
    case Int64(x) => Integer(x as int)
    case Bool(b) => Boolean(b)
    case Float(bits) => Real(Single(bits))
    case Double(bits) => Real(Double(bits))
    case Data(bytes) => Data(bytes)
    case Nil => String(NullObjectReference)
    case ObjectRef(x) => Uid(x as nat)
  }

  /** The reserved dictionary keys the converter writes are pairwise
      distinct: the four root keys, the two descriptor keys, and `$class`
      against the keys of an expanded container. */
  lemma ReservedKeysDistinct()
    ensures ArchiverKeyName != ObjectsKeyName && ArchiverKeyName != TopKeyName && ArchiverKeyName != VersionKeyName
    ensures ObjectsKeyName != TopKeyName && ObjectsKeyName != VersionKeyName && TopKeyName != VersionKeyName
    ensures ClassesKey != ClassnameKey
    ensures ObjectClassKey != CollectionObjectsKey
    ensures ObjectClassKey != DictionaryKeysKey && ObjectClassKey != DictionaryValuesKey
    ensures DictionaryKeysKey != DictionaryValuesKey
  {
    assert ObjectsKeyName[1] != ArchiverKeyName[1];
    assert |TopKeyName| != |ArchiverKeyName| && |TopKeyName| != |ObjectsKeyName|;
    assert VersionKeyName[1] != ArchiverKeyName[1] && VersionKeyName[1] != ObjectsKeyName[1];
    assert |VersionKeyName| != |TopKeyName|;
    assert |ClassnameKey| != |ClassesKey|;
    assert CollectionObjectsKey[0] != ObjectClassKey[0];
    assert DictionaryKeysKey[0] != ObjectClassKey[0] && DictionaryValuesKey[0] != ObjectClassKey[0];
    assert DictionaryValuesKey[4] != DictionaryKeysKey[4];
  }

  /** Translation is total, never produces a container, and keeps each
      payload in the plist kind of the same meaning: integers of every width
      become `Integer`, `Nil` becomes the `$null` string and object references
      become UIDs. */
  lemma TranslateMeaning(v: Nib.ValueVariant)
    ensures !Translate(v).Array? && !Translate(v).Dictionary?
    ensures Translate(v) == String(NullObjectReference) <==> v.Nil?
    ensures Translate(v).String? <==> v.Nil?
    ensures Translate(v).Uid? <==> v.ObjectRef?
    ensures v.ObjectRef? ==> Translate(v).uid == v.ref as nat
    ensures Translate(v).Integer? <==> IsIntegerVariant(v)
    ensures IsIntegerVariant(v) ==> Translate(v).n == IntegerValue(v)
    ensures Translate(v).Boolean? <==> v.Bool?
    ensures v.Bool? ==> Translate(v).b == v.b
    ensures Translate(v).Data? <==> v.Data?
    ensures v.Data? ==> Translate(v).bytes == v.bytes
    ensures Translate(v).Real? <==> (v.Float? || v.Double?)
  {
  }

  /** The translations of a run of values, in order. */
  function TranslateAll(vs: seq<Nib.Value>): seq<Value>
  {
    seq(|vs|, i requires 0 <= i < |vs| => Translate(vs[i].value))
  }

  /** Each value as the dictionary entry an ordinary object gets for it. */
  function Pairs(a: Nib.Archive, vs: seq<Nib.Value>): seq<Entry>
    requires forall v :: v in vs ==> v.keyIndex < |a.keys|
  {
    seq(|vs|, i requires 0 <= i < |vs| => Entry(Nib.KeyName(a, vs[i]), Translate(vs[i].value)))
  }

  // ---------------------------------------------------------------------
  // Splitting by parity

  /** Positions 0, 2, 4, ... and positions 1, 3, 5, ... of `s`. */
  function Deinterleave<T>(s: seq<T>): (seq<T>, seq<T>)
  {
    if |s| == 0 then ([], [])
    else if |s| == 1 then ([s[0]], [])
    else
      var rest := Deinterleave(s[2..]);
      ([s[0]] + rest.0, [s[1]] + rest.1)
  }

  /** The inverse of `Deinterleave`: alternate, starting with `ks`. */
  function Interleave<T>(ks: seq<T>, vs: seq<T>): seq<T>
    requires |vs| <= |ks| <= |vs| + 1
  {
    if vs == [] then ks
    else [ks[0], vs[0]] + Interleave(ks[1..], vs[1..])
  }

  // ---------------------------------------------------------------------
  // Object reconstruction: specification

  /** The `$objects` slot of an object's class descriptor. */
  function ClassUid(a: Nib.Archive, o: Nib.Object): nat
  {
    o.classNameIndex + |a.objects|
  }

  /** The dictionary before any value is inserted. */
  function InitialEntries(a: Nib.Archive, o: Nib.Object, addClass: bool): seq<Entry>
  {
    if addClass then [Entry(ObjectClassKey, Uid(ClassUid(a, o)))] else []
  }

  /** The first value is `NSInlinedValue = true`. */
  predicate IsInlined(a: Nib.Archive, vs: seq<Nib.Value>)
    requires forall v :: v in vs ==> v.keyIndex < |a.keys|
  {
    |vs| > 0 && Nib.KeyName(a, vs[0]) == InlinedValueKey && vs[0].value == Nib.Bool(true)
  }

  const CollectionClasses: set<string> := {"NSArray", "NSMutableArray", "NSSet", "NSMutableSet"}
  const DictionaryClasses: set<string> := {"NSDictionary", "NSMutableDictionary"}

  predicate IsCollectionClass(name: string)
  {
    name in CollectionClasses
  }

  predicate IsDictionaryClass(name: string)
  {
    name in DictionaryClasses
  }

  /** What `reconstruct_inlined_object` makes of an inline-marked object of
      class `name` with values `vs`, whose dictionary so far is `d`. */
  function ExpandInlined(a: Nib.Archive, name: string, vs: seq<Nib.Value>, d: seq<Entry>): seq<Entry>
    requires forall v :: v in vs ==> v.keyIndex < |a.keys|
    requires |vs| >= 1
    requires UniqueKeys(d)
  {
    var tail := vs[1..];
    if IsCollectionClass(name) then
      Insert(d, CollectionObjectsKey, Array(TranslateAll(tail)))
    else if IsDictionaryClass(name) then
      var split := Deinterleave(tail);
      Insert(Insert(d, DictionaryKeysKey, Array(TranslateAll(split.0))),
             DictionaryValuesKey, Array(TranslateAll(split.1)))
    else
      InsertAll(d, Pairs(a, vs))
  }

  /** What `reconstruct_object` makes of one flat object. */
  function Reconstruct(a: Nib.Archive, o: Nib.Object, addClass: bool): seq<Entry>
    requires Nib.WellFormed(a) && o in a.objects
  {
    var d := InitialEntries(a, o, addClass);
    var vs := Nib.ObjectValues(a, o);
    if vs == [] then d
    else if IsInlined(a, vs) then ExpandInlined(a, Nib.ClassOf(a, o).name, vs, d)
    else InsertAll(d, Pairs(a, vs))
  }

  // ---------------------------------------------------------------------
  // Top-level assembly: specification

  /** A class-table entry as its `$objects` descriptor. */
  function ClassDescriptor(c: Nib.ClassName): Value
  {
    Dictionary([Entry(ClassesKey, Array([String(c.name)])), Entry(ClassnameKey, String(c.name))])
  }

  /** Slot `s` of `$objects`: the `$null` sentinel at 0, object `s` for
      every other object index, then the class descriptors in table order. */
  function Slot(a: Nib.Archive, s: nat): Value
    requires Nib.WellFormed(a) && s < |a.objects| + |a.classNames|
  {
    if s == 0 then String(NullObjectReference)
    else if s < |a.objects| then Dictionary(Reconstruct(a, a.objects[s], true))
    else ClassDescriptor(a.classNames[s - |a.objects|])
  }

  /** The whole `$objects` array. */
  function ObjectsArray(a: Nib.Archive): seq<Value>
    requires Nib.WellFormed(a) && |a.objects| >= 1
  {
    seq(|a.objects| + |a.classNames|, s requires 0 <= s < |a.objects| + |a.classNames| => Slot(a, s))
  }

  /** Slot `k` of `$objects`, for 1 <= k < |objects|, holds object `k`. */
  lemma RegularSlot(a: Nib.Archive, k: nat)
    requires Nib.WellFormed(a) && 1 <= k < |a.objects|
    ensures k < |ObjectsArray(a)|
    ensures ObjectsArray(a)[k] == Dictionary(Reconstruct(a, a.objects[k], true))
  {
    assert ObjectsArray(a)[k] == Slot(a, k);
  }

  /** Slot `|objects| + j` of `$objects` holds the descriptor of class `j`. */
  lemma DescriptorSlot(a: Nib.Archive, j: nat)
    requires Nib.WellFormed(a) && |a.objects| >= 1 && j < |a.classNames|
    ensures |a.objects| + j < |ObjectsArray(a)|
    ensures ObjectsArray(a)[|a.objects| + j] == ClassDescriptor(a.classNames[j])
  {
    assert ObjectsArray(a)[|a.objects| + j] == Slot(a, |a.objects| + j);
  }

  /** What `upgrade` returns. */
  function UpgradeSpec(a: Nib.Archive): Value
    requires Nib.WellFormed(a) && |a.objects| >= 1
  {
    Dictionary([
      Entry(ArchiverKeyName, String(Archiver)),
      Entry(ObjectsKeyName, Array(ObjectsArray(a))),
      Entry(TopKeyName, Dictionary(Reconstruct(a, a.objects[0], false))),
      Entry(VersionKeyName, Integer(ArchiverVersion))])
  }

  // ---------------------------------------------------------------------
  // The converter's loops

  /** The loop that inserts every value of an ordinary object, in order. */
  method InsertValues(a: Nib.Archive, vs: seq<Nib.Value>, d0: seq<Entry>) returns (d: seq<Entry>)
    requires forall v :: v in vs ==> v.keyIndex < |a.keys|
    requires UniqueKeys(d0)
    ensures d == InsertAll(d0, Pairs(a, vs))
  {
    ghost var ps := Pairs(a, vs);
    d := d0;
    for i := 0 to |vs|
      invariant UniqueKeys(d)
      invariant d == InsertAll(d0, ps[..i])
    {
      var key := Nib.KeyName(a, vs[i]);
      var inner := Translate(vs[i].value);
      assert ps[..i + 1][..i] == ps[..i];
      d := Insert(d, key, inner);
    }
    assert ps[..|vs|] == ps;
  }

  /** The collection loop of `reconstruct_inlined_object`: every value after
      the marker, translated, in order. */
  method CollectTail(vs: seq<Nib.Value>) returns (items: seq<Value>)
    requires |vs| >= 1
    ensures items == TranslateAll(vs[1..])
  {
    items := [];
    for i := 1 to |vs|
      invariant |items| == i - 1
      invariant forall j :: 0 <= j < i - 1 ==> items[j] == Translate(vs[j + 1].value)
    {
      items := items + [Translate(vs[i].value)];
    }
  }

  /** The dictionary loop of `reconstruct_inlined_object`: after the marker,
      values alternate key, value, key, ... as `is_key` toggles. */
  method SplitTail(vs: seq<Nib.Value>) returns (dictKeys: seq<Value>, dictValues: seq<Value>)
    requires |vs| >= 1
    ensures dictKeys == TranslateAll(Deinterleave(vs[1..]).0)
    ensures dictValues == TranslateAll(Deinterleave(vs[1..]).1)
  {
    dictKeys := [];
    dictValues := [];
    var isKey := true;
    for i := 1 to |vs|
      invariant isKey <==> i % 2 == 1
      invariant |dictKeys| == i / 2 && |dictValues| == (i - 1) / 2
      invariant forall j :: 0 <= j < |dictKeys| ==> dictKeys[j] == Translate(vs[2 * j + 1].value)
      invariant forall j :: 0 <= j < |dictValues| ==> dictValues[j] == Translate(vs[2 * j + 2].value)
    {
      if isKey {
        dictKeys := dictKeys + [Translate(vs[i].value)];
      } else {
        dictValues := dictValues + [Translate(vs[i].value)];
      }
      isKey := !isKey;
    }
    DeinterleaveAt(vs[1..]);
  }

  /** `reconstruct_inlined_object`; `unknown` is set exactly when the converter
      prints its "Unknown inlined object" diagnostic. */
  method ReconstructInlinedObject(a: Nib.Archive, o: Nib.Object, d0: seq<Entry>)
    returns (d: seq<Entry>, unknown: bool)
    requires Nib.WellFormed(a) && o in a.objects
    requires o.valueCount >= 1
    requires UniqueKeys(d0)
    ensures d == ExpandInlined(a, Nib.ClassOf(a, o).name, Nib.ObjectValues(a, o), d0)
    ensures unknown <==> !IsCollectionClass(Nib.ClassOf(a, o).name) && !IsDictionaryClass(Nib.ClassOf(a, o).name)
  {
    var vs := Nib.ObjectValues(a, o);
    var name := Nib.ClassOf(a, o).name;
    if name == "NSArray" || name == "NSMutableArray" || name == "NSSet" || name == "NSMutableSet" {
      assert IsCollectionClass(name);
      var items := CollectTail(vs);
      d := Insert(d0, CollectionObjectsKey, Array(items));
      unknown := false;
    } else if name == "NSDictionary" || name == "NSMutableDictionary" {
      assert !IsCollectionClass(name) && IsDictionaryClass(name);
      var dictKeys, dictValues := SplitTail(vs);
      d := Insert(d0, DictionaryKeysKey, Array(dictKeys));
      d := Insert(d, DictionaryValuesKey, Array(dictValues));
      unknown := false;
    } else {
      assert !IsCollectionClass(name) && !IsDictionaryClass(name);
      unknown := true;
      d := InsertValues(a, vs, d0);
    }
  }

  /** `reconstruct_object`. */
  method ReconstructObject(a: Nib.Archive, o: Nib.Object, addClass: bool) returns (d: seq<Entry>)
    requires Nib.WellFormed(a) && o in a.objects
    ensures d == Reconstruct(a, o, addClass)
  {
    d := [];
    if addClass {
      var uid := o.classNameIndex + |a.objects|;
      d := Insert(d, ObjectClassKey, Uid(uid));
    }
    assert d == InitialEntries(a, o, addClass);
    var vs := Nib.ObjectValues(a, o);
    if |vs| == 0 {
      return;
    }
    var isInlined := Nib.KeyName(a, vs[0]) == InlinedValueKey && Nib.Bool(true) == vs[0].value;
    assert isInlined == IsInlined(a, vs);
    if isInlined {
      // The diagnostic flag goes no further: the converter only prints it.
      var unknown;
      d, unknown := ReconstructInlinedObject(a, o, d);
      return;
    }
    d := InsertValues(a, vs, d);
  }

  /** The body of the class-table loop of `upgrade`: one descriptor, whose
      `$classes` holds only the class's own name. */
  method BuildClassDescriptor(c: Nib.ClassName) returns (v: Value)
    ensures v == ClassDescriptor(c)
  {
    var classesArray := [String(c.name)];
    var classObj: seq<Entry> := [];
    InsertNew(classObj, ClassesKey, Array(classesArray));
    classObj := Insert(classObj, ClassesKey, Array(classesArray));
    ReservedKeysDistinct();
    InsertNew(classObj, ClassnameKey, String(c.name));
    classObj := Insert(classObj, ClassnameKey, String(c.name));
    v := Dictionary(classObj);
  }

  /** The four root keys are distinct, so the root's insertions append. */
  lemma RootInsertions(objects: Value, top: Value)
    ensures
      var d := Insert([], ArchiverKeyName, String(Archiver));
      var d := Insert(d, ObjectsKeyName, objects);
      var d := Insert(d, TopKeyName, top);
      Insert(d, VersionKeyName, Integer(ArchiverVersion)) ==
        [Entry(ArchiverKeyName, String(Archiver)), Entry(ObjectsKeyName, objects),
         Entry(TopKeyName, top), Entry(VersionKeyName, Integer(ArchiverVersion))]
  {
    ReservedKeysDistinct();
    var e0 := Entry(ArchiverKeyName, String(Archiver));
    var e1 := Entry(ObjectsKeyName, objects);
    var e2 := Entry(TopKeyName, top);
    var e3 := Entry(VersionKeyName, Integer(ArchiverVersion));
    var d1 := Insert([], ArchiverKeyName, String(Archiver));
    assert d1 == [e0] by {
      InsertNew([], ArchiverKeyName, String(Archiver));
    }
    var d2 := Insert(d1, ObjectsKeyName, objects);
    assert d2 == [e0, e1] by {
      InsertNew(d1, ObjectsKeyName, objects);
    }
    var d3 := Insert(d2, TopKeyName, top);
    assert d3 == [e0, e1, e2] by {
      InsertNew(d2, TopKeyName, top);
    }
    assert Insert(d3, VersionKeyName, Integer(ArchiverVersion)) == [e0, e1, e2, e3] by {
      InsertNew(d3, VersionKeyName, Integer(ArchiverVersion));
    }
  }

  /** The two loops of `upgrade` that fill `$objects`: the sentinel, every
      object but the root, then one descriptor per class-table entry. */
  method CollectObjects(a: Nib.Archive) returns (plistObjects: seq<Value>)
    requires Nib.WellFormed(a) && |a.objects| >= 1
    ensures plistObjects == ObjectsArray(a)
  {
    var objects := a.objects;
    var classNames := a.classNames;
    ghost var slots := ObjectsArray(a);

    plistObjects := [String(NullObjectReference)];
    for k := 1 to |objects|
      invariant plistObjects == slots[..k]
    {
      var dict := ReconstructObject(a, objects[k], true);
      assert slots[k] == Dictionary(dict) by { RegularSlot(a, k); }
      assert slots[..k + 1] == slots[..k] + [Dictionary(dict)];
      plistObjects := plistObjects + [Dictionary(dict)];
    }

    for j := 0 to |classNames|
      invariant plistObjects == slots[..|objects| + j]
    {
      var classObj := BuildClassDescriptor(classNames[j]);
      assert slots[|objects| + j] == classObj by { DescriptorSlot(a, j); }
      assert slots[..|objects| + j + 1] == slots[..|objects| + j] + [classObj];
      plistObjects := plistObjects + [classObj];
    }
    assert slots[..|objects| + |classNames|] == slots;
  }

  /** `upgrade`: the root object must exist, since it is read as `objects[0]`. */
  method Upgrade(a: Nib.Archive) returns (root: Value)
    requires Nib.WellFormed(a) && |a.objects| >= 1
    ensures root == UpgradeSpec(a)
  {
    var plistRoot: seq<Entry> := [];
    plistRoot := Insert(plistRoot, ArchiverKeyName, String(Archiver));

    var plistObjects := CollectObjects(a);
    plistRoot := Insert(plistRoot, ObjectsKeyName, Array(plistObjects));

    var top := ReconstructObject(a, a.objects[0], false);
    plistRoot := Insert(plistRoot, TopKeyName, Dictionary(top));

    plistRoot := Insert(plistRoot, VersionKeyName, Integer(ArchiverVersion));
    RootInsertions(Array(plistObjects), Dictionary(top));

    root := Dictionary(plistRoot);
  }

  // ---------------------------------------------------------------------
  // The parity split

  /** Keys come from the even positions, values from the odd ones; an odd
      tail leaves one key without a value. */
  lemma {:induction false} DeinterleaveAt<T>(s: seq<T>)
    ensures |Deinterleave(s).0| == (|s| + 1) / 2
    ensures |Deinterleave(s).1| == |s| / 2
    ensures forall i :: 0 <= i < |Deinterleave(s).0| ==> Deinterleave(s).0[i] == s[2 * i]
    ensures forall i :: 0 <= i < |Deinterleave(s).1| ==> Deinterleave(s).1[i] == s[2 * i + 1]
  {
    if |s| >= 2 {
      DeinterleaveAt(s[2..]);
      var rest := Deinterleave(s[2..]);
      forall i | 1 <= i < |Deinterleave(s).0| ensures Deinterleave(s).0[i] == s[2 * i] {
        assert Deinterleave(s).0[i] == rest.0[i - 1] == s[2..][2 * (i - 1)];
      }
      forall i | 1 <= i < |Deinterleave(s).1| ensures Deinterleave(s).1[i] == s[2 * i + 1] {
        assert Deinterleave(s).1[i] == rest.1[i - 1] == s[2..][2 * (i - 1) + 1];
      }
    }
  }

  /** Splitting by parity loses nothing: interleaving the halves gives the
      original tail back. */
  lemma {:induction false} InterleaveDeinterleave<T>(s: seq<T>)
    ensures |Deinterleave(s).1| <= |Deinterleave(s).0| <= |Deinterleave(s).1| + 1
    ensures Interleave(Deinterleave(s).0, Deinterleave(s).1) == s
  {
    DeinterleaveAt(s);
    if |s| >= 2 {
      InterleaveDeinterleave(s[2..]);
      var rest := Deinterleave(s[2..]);
      assert ([s[0]] + rest.0)[1..] == rest.0;
      assert ([s[1]] + rest.1)[1..] == rest.1;
      assert s == [s[0], s[1]] + s[2..];
    }
  }
}
