/** What the conversion promises, proved about the specification functions of
    module Upgrade (which the converter's methods are proved to compute). */
module Properties {
  import opened Plist
  import Nib
  import opened Upgrade

  // ---------------------------------------------------------------------
  // Translation

  /** Translation is injective except that it forgets the integer width and
      merges the two real widths (the converter widens a `Float` to a double,
      which the opaque `RealBits` payload does not model). */
  lemma TranslateDistinguishes(v: Nib.ValueVariant, w: Nib.ValueVariant)
    requires Translate(v) == Translate(w)
    ensures || v == w
            || (IsIntegerVariant(v) && IsIntegerVariant(w) && IntegerValue(v) == IntegerValue(w))
            || ((v.Float? || v.Double?) && (w.Float? || w.Double?))
  {
  }

  // ---------------------------------------------------------------------
  // Helpers about last-write-wins

  lemma {:induction false} LastWithAbsent(ps: seq<Entry>, k: string)
    requires forall i :: 0 <= i < |ps| ==> ps[i].key != k
    ensures LastWith(ps, k) == None
  {
    if ps != [] {
      LastWithAbsent(ps[..|ps| - 1], k);
    }
  }

  lemma {:induction false} LastWithAt(ps: seq<Entry>, i: nat)
    requires i < |ps|
    requires forall j :: i < j < |ps| ==> ps[j].key != ps[i].key
    ensures LastWith(ps, ps[i].key) == Some(ps[i].value)
  {
    if i < |ps| - 1 {
      LastWithAt(ps[..|ps| - 1], i);
    }
  }

  /** The keys the values of an ordinary object are inserted under. */
  lemma PairsAt(a: Nib.Archive, vs: seq<Nib.Value>, i: nat)
    requires forall v :: v in vs ==> v.keyIndex < |a.keys|
    requires i < |vs|
    ensures Pairs(a, vs)[i] == Entry(Nib.KeyName(a, vs[i]), Translate(vs[i].value))
  {
  }

  /** Inserting the entries of `vs`: a value that no later value overrides
      is found under its key. */
  lemma PairsLookupLast(a: Nib.Archive, vs: seq<Nib.Value>, d: seq<Entry>, i: nat)
    requires forall v :: v in vs ==> v.keyIndex < |a.keys|
    requires UniqueKeys(d)
    requires i < |vs|
    requires forall j :: i < j < |vs| ==> Nib.KeyName(a, vs[j]) != Nib.KeyName(a, vs[i])
    ensures Lookup(InsertAll(d, Pairs(a, vs)), Nib.KeyName(a, vs[i])) == Some(Translate(vs[i].value))
  {
    var ps := Pairs(a, vs);
    forall j | i < j < |ps| ensures ps[j].key != ps[i].key {
      PairsAt(a, vs, i);
      PairsAt(a, vs, j);
    }
    LastWithAt(ps, i);
    PairsAt(a, vs, i);
    InsertAllLastWriteWins(d, ps, ps[i].key);
  }

  /** Inserting the entries of `vs` leaves a key that no value uses as it was. */
  lemma PairsLookupAbsent(a: Nib.Archive, vs: seq<Nib.Value>, d: seq<Entry>, k: string)
    requires forall v :: v in vs ==> v.keyIndex < |a.keys|
    requires UniqueKeys(d)
    requires forall v :: v in vs ==> Nib.KeyName(a, v) != k
    ensures Lookup(InsertAll(d, Pairs(a, vs)), k) == Lookup(d, k)
  {
    var ps := Pairs(a, vs);
    forall i | 0 <= i < |ps| ensures ps[i].key != k {
      PairsAt(a, vs, i);
      assert vs[i] in vs;
    }
    LastWithAbsent(ps, k);
    InsertAllLastWriteWins(d, ps, k);
  }

  /** The object has no value keyed `$class` (such a value would overwrite
      the class reference, last write winning). */
  predicate NoClassKeyedValue(a: Nib.Archive, o: Nib.Object)
    requires Nib.WellFormed(a) && o in a.objects
  {
    forall v :: v in Nib.ObjectValues(a, o) ==> Nib.KeyName(a, v) != ObjectClassKey
  }

  /** No value can overwrite the `$class` entry: either the object is an
      expanded container, whose value keys are dropped, or none of its values
      is keyed `$class`. */
  predicate ClassEntryKept(a: Nib.Archive, o: Nib.Object)
    requires Nib.WellFormed(a) && o in a.objects
  {
    IsOrdinary(a, o) ==> NoClassKeyedValue(a, o)
  }

  /** The object is stored key by key: it is not an inlined collection of a
      recognised class (it may still carry the inline marker). */
  predicate IsOrdinary(a: Nib.Archive, o: Nib.Object)
    requires Nib.WellFormed(a) && o in a.objects
  {
    var name := Nib.ClassOf(a, o).name;
    !IsInlined(a, Nib.ObjectValues(a, o)) || (!IsCollectionClass(name) && !IsDictionaryClass(name))
  }

  lemma ReconstructOrdinaryIsInsertAll(a: Nib.Archive, o: Nib.Object, addClass: bool)
    requires Nib.WellFormed(a) && o in a.objects && IsOrdinary(a, o)
    ensures Reconstruct(a, o, addClass) ==
            InsertAll(InitialEntries(a, o, addClass), Pairs(a, Nib.ObjectValues(a, o)))
  {
  }

  // ---------------------------------------------------------------------
  // Object reconstruction

  /** An object without values yields only its class reference, if asked for. */
  lemma ReconstructEmpty(a: Nib.Archive, o: Nib.Object, addClass: bool)
    requires Nib.WellFormed(a) && o in a.objects
    requires o.valueCount == 0
    ensures Reconstruct(a, o, addClass) ==
            if addClass then [Entry(ObjectClassKey, Uid(o.classNameIndex + |a.objects|))] else []
  {
  }

  /** `$class` holds the UID `classNameIndex + |objects|` exactly when a class
      reference was asked for. */
  lemma {:induction false} ReconstructClassEntry(a: Nib.Archive, o: Nib.Object, addClass: bool)
    requires Nib.WellFormed(a) && o in a.objects && ClassEntryKept(a, o)
    ensures Lookup(Reconstruct(a, o, addClass), ObjectClassKey) ==
            if addClass then Some(Uid(o.classNameIndex + |a.objects|)) else None
  {
    var vs := Nib.ObjectValues(a, o);
    var d := InitialEntries(a, o, addClass);
    var name := Nib.ClassOf(a, o).name;
    assert Lookup(d, ObjectClassKey) == if addClass then Some(Uid(o.classNameIndex + |a.objects|)) else None;
    if vs != [] {
      var tail := vs[1..];
      if IsInlined(a, vs) && IsCollectionClass(name) {
        ReservedKeysDistinct();
        InsertLookup(d, CollectionObjectsKey, Array(TranslateAll(tail)), ObjectClassKey);
      } else if IsInlined(a, vs) && IsDictionaryClass(name) {
        ReservedKeysDistinct();
        var split := Deinterleave(tail);
        var d1 := Insert(d, DictionaryKeysKey, Array(TranslateAll(split.0)));
        InsertLookup(d, DictionaryKeysKey, Array(TranslateAll(split.0)), ObjectClassKey);
        InsertLookup(d1, DictionaryValuesKey, Array(TranslateAll(split.1)), ObjectClassKey);
      } else {
        PairsLookupAbsent(a, vs, d, ObjectClassKey);
      }
    }
  }

  /** The root object, reconstructed without a class reference, has no
      `$class` key. */
  lemma TopHasNoClass(a: Nib.Archive)
    requires Nib.WellFormed(a) && |a.objects| >= 1
    requires ClassEntryKept(a, a.objects[0])
    ensures ObjectClassKey !in KeysOf(Reconstruct(a, a.objects[0], false))
  {
    ReconstructClassEntry(a, a.objects[0], false);
    LookupMeaning(Reconstruct(a, a.objects[0], false), ObjectClassKey);
  }

  /** An ordinary object holds, under each key, the translation of the last
      value with that key. */
  lemma ReconstructLastWriteWins(a: Nib.Archive, o: Nib.Object, addClass: bool, i: nat)
    requires Nib.WellFormed(a) && o in a.objects && IsOrdinary(a, o)
    requires i < |Nib.ObjectValues(a, o)|
    requires var vs := Nib.ObjectValues(a, o);
      forall j :: i < j < |vs| ==> Nib.KeyName(a, vs[j]) != Nib.KeyName(a, vs[i])
    ensures var vs := Nib.ObjectValues(a, o);
      Lookup(Reconstruct(a, o, addClass), Nib.KeyName(a, vs[i])) == Some(Translate(vs[i].value))
  {
    ReconstructOrdinaryIsInsertAll(a, o, addClass);
    PairsLookupLast(a, Nib.ObjectValues(a, o), InitialEntries(a, o, addClass), i);
  }

  /** In an ordinary object, a key that no value uses keeps what it had
      before the values were inserted (the class reference, or nothing). */
  lemma ReconstructKeepsUnused(a: Nib.Archive, o: Nib.Object, addClass: bool, k: string)
    requires Nib.WellFormed(a) && o in a.objects && IsOrdinary(a, o)
    requires forall v :: v in Nib.ObjectValues(a, o) ==> Nib.KeyName(a, v) != k
    ensures Lookup(Reconstruct(a, o, addClass), k) == Lookup(InitialEntries(a, o, addClass), k)
  {
    ReconstructOrdinaryIsInsertAll(a, o, addClass);
    PairsLookupAbsent(a, Nib.ObjectValues(a, o), InitialEntries(a, o, addClass), k);
  }

  /** Values with distinct keys, after at most a `$class` entry that none of
      them reuses, give a dictionary without duplicate keys. */
  lemma DistinctPairs(a: Nib.Archive, vs: seq<Nib.Value>, d: seq<Entry>)
    requires forall v :: v in vs ==> v.keyIndex < |a.keys|
    requires forall i, j :: 0 <= i < j < |vs| ==> Nib.KeyName(a, vs[i]) != Nib.KeyName(a, vs[j])
    requires d == [] || (|d| == 1 && d[0].key == ObjectClassKey &&
                         forall v :: v in vs ==> Nib.KeyName(a, v) != ObjectClassKey)
    ensures UniqueKeys(d) && UniqueKeys(d + Pairs(a, vs))
  {
    var ps := Pairs(a, vs);
    var all: seq<Entry> := d + ps;
    forall i: int, j: int | 0 <= i < j < |all| ensures all[i].key != all[j].key {
      if i < |d| {
        assert all[j] == ps[j - |d|];
        PairsAt(a, vs, j - |d|);
        assert vs[j - |d|] in vs;
      } else {
        assert all[i] == ps[i - |d|] && all[j] == ps[j - |d|];
        PairsAt(a, vs, i - |d|);
        PairsAt(a, vs, j - |d|);
      }
    }
  }

  /** Inserting values whose keys are all distinct appends one entry per
      value, in order. */
  lemma PairsInOrder(a: Nib.Archive, vs: seq<Nib.Value>, d: seq<Entry>)
    requires forall v :: v in vs ==> v.keyIndex < |a.keys|
    requires forall i, j :: 0 <= i < j < |vs| ==> Nib.KeyName(a, vs[i]) != Nib.KeyName(a, vs[j])
    requires d == [] || (|d| == 1 && d[0].key == ObjectClassKey &&
                         forall v :: v in vs ==> Nib.KeyName(a, v) != ObjectClassKey)
    ensures UniqueKeys(d)
    ensures var r := InsertAll(d, Pairs(a, vs));
      |r| == |d| + |vs| && r[..|d|] == d &&
      forall i :: 0 <= i < |vs| ==> r[|d| + i] == Entry(Nib.KeyName(a, vs[i]), Translate(vs[i].value))
  {
    var ps := Pairs(a, vs);
    assert UniqueKeys(d) && InsertAll(d, ps) == d + ps by {
      DistinctPairs(a, vs, d);
      InsertAllDistinct(d, ps);
    }
    PairsAppended(a, vs, d);
  }

  /** Appending the entries of `vs` after `d`, position by position. */
  lemma PairsAppended(a: Nib.Archive, vs: seq<Nib.Value>, d: seq<Entry>)
    requires forall v :: v in vs ==> v.keyIndex < |a.keys|
    ensures var r := d + Pairs(a, vs);
      |r| == |d| + |vs| && r[..|d|] == d &&
      forall i :: 0 <= i < |vs| ==> r[|d| + i] == Entry(Nib.KeyName(a, vs[i]), Translate(vs[i].value))
  {
    var ps := Pairs(a, vs);
    assert (d + ps)[..|d|] == d;
    forall i | 0 <= i < |vs| ensures (d + ps)[|d| + i] == Entry(Nib.KeyName(a, vs[i]), Translate(vs[i].value)) {
      PairsAt(a, vs, i);
    }
  }

  /** An ordinary object whose keys are all distinct (and distinct from
      `$class` when it is added) gets exactly one entry per value, in source
      order, after its class reference. */
  lemma ReconstructInOrder(a: Nib.Archive, o: Nib.Object, addClass: bool)
    requires Nib.WellFormed(a) && o in a.objects && IsOrdinary(a, o)
    requires var vs := Nib.ObjectValues(a, o);
      forall i, j :: 0 <= i < j < |vs| ==> Nib.KeyName(a, vs[i]) != Nib.KeyName(a, vs[j])
    requires addClass ==> NoClassKeyedValue(a, o)
    ensures var vs := Nib.ObjectValues(a, o);
      var d := InitialEntries(a, o, addClass);
      var r := Reconstruct(a, o, addClass);
      |r| == |d| + |vs| && r[..|d|] == d &&
      forall i :: 0 <= i < |vs| ==> r[|d| + i] == Entry(Nib.KeyName(a, vs[i]), Translate(vs[i].value))
  {
    ReconstructOrdinaryIsInsertAll(a, o, addClass);
    PairsInOrder(a, Nib.ObjectValues(a, o), InitialEntries(a, o, addClass));
  }

  /** An inline-marked object of an unknown class is not expanded: it is
      reconstructed as an ordinary object, the marker included. */
  lemma UnknownInlineKeepsMarker(a: Nib.Archive, o: Nib.Object, addClass: bool)
    requires Nib.WellFormed(a) && o in a.objects
    requires IsInlined(a, Nib.ObjectValues(a, o))
    requires !IsCollectionClass(Nib.ClassOf(a, o).name) && !IsDictionaryClass(Nib.ClassOf(a, o).name)
    ensures Reconstruct(a, o, addClass) ==
            InsertAll(InitialEntries(a, o, addClass), Pairs(a, Nib.ObjectValues(a, o)))
    ensures InlinedValueKey in KeysOf(Reconstruct(a, o, addClass))
    ensures var vs := Nib.ObjectValues(a, o);
      (forall j :: 0 < j < |vs| ==> Nib.KeyName(a, vs[j]) != InlinedValueKey) ==>
        Lookup(Reconstruct(a, o, addClass), InlinedValueKey) == Some(Boolean(true))
  {
    var vs := Nib.ObjectValues(a, o);
    var d := InitialEntries(a, o, addClass);
    ReconstructOrdinaryIsInsertAll(a, o, addClass);
    PairsKeyPresent(a, vs, d, 0);
    if forall j :: 0 < j < |vs| ==> Nib.KeyName(a, vs[j]) != InlinedValueKey {
      PairsLookupLast(a, vs, d, 0);
    }
  }

  /** Inserting the entries of `vs` keeps every key some value uses. */
  lemma PairsKeyPresent(a: Nib.Archive, vs: seq<Nib.Value>, d: seq<Entry>, i: nat)
    requires forall v :: v in vs ==> v.keyIndex < |a.keys|
    requires UniqueKeys(d)
    requires i < |vs|
    ensures Nib.KeyName(a, vs[i]) in KeysOf(InsertAll(d, Pairs(a, vs)))
  {
    var k := Nib.KeyName(a, vs[i]);
    LastIndexOfKey(a, vs, k, i);
    var last :| 0 <= last < |vs| && Nib.KeyName(a, vs[last]) == k &&
      (forall j :: last < j < |vs| ==> Nib.KeyName(a, vs[j]) != k);
    PairsLookupLast(a, vs, d, last);
    LookupMeaning(InsertAll(d, Pairs(a, vs)), k);
  }

  /** Some value with key `k` is the last one with that key. */
  lemma {:induction false} LastIndexOfKey(a: Nib.Archive, vs: seq<Nib.Value>, k: string, i: nat)
    requires forall v :: v in vs ==> v.keyIndex < |a.keys|
    requires i < |vs| && Nib.KeyName(a, vs[i]) == k
    ensures exists last :: (0 <= last < |vs| && Nib.KeyName(a, vs[last]) == k &&
      (forall j :: last < j < |vs| ==> Nib.KeyName(a, vs[j]) != k))
    decreases |vs| - i
  {
    if exists j :: i < j < |vs| && Nib.KeyName(a, vs[j]) == k {
      var j :| i < j < |vs| && Nib.KeyName(a, vs[j]) == k;
      LastIndexOfKey(a, vs, k, j);
    } else {
      assert forall j :: i < j < |vs| ==> Nib.KeyName(a, vs[j]) != k;
    }
  }

  /** An inlined NSArray, NSMutableArray, NSSet or NSMutableSet gains exactly
      one key, `NS.objects`, holding the translations of every value after the
      marker, in order. */
  lemma ReconstructCollection(a: Nib.Archive, o: Nib.Object, addClass: bool)
    requires Nib.WellFormed(a) && o in a.objects
    requires IsInlined(a, Nib.ObjectValues(a, o)) && IsCollectionClass(Nib.ClassOf(a, o).name)
    ensures var vs := Nib.ObjectValues(a, o);
      var d := InitialEntries(a, o, addClass);
      var r := Reconstruct(a, o, addClass);
      && |r| == |d| + 1 && r[..|d|] == d
      && r[|d|].key == CollectionObjectsKey && r[|d|].value.Array?
      && |r[|d|].value.items| == |vs| - 1
      && forall i :: 0 <= i < |vs| - 1 ==> r[|d|].value.items[i] == Translate(vs[i + 1].value)
  {
    var d := InitialEntries(a, o, addClass);
    assert |CollectionObjectsKey| != |ObjectClassKey|;
    assert CollectionObjectsKey !in KeysOf(d);
    var r := Reconstruct(a, o, addClass);
    assert r[..|d|] == d;
  }

  /** An inlined NSDictionary or NSMutableDictionary gains exactly the keys
      `NS.keys` and `NS.values`: after the marker, values at even offsets are
      the keys and values at odd offsets the values; an odd tail leaves one
      extra key. */
  lemma ReconstructDictionary(a: Nib.Archive, o: Nib.Object, addClass: bool)
    requires Nib.WellFormed(a) && o in a.objects
    requires IsInlined(a, Nib.ObjectValues(a, o)) && IsDictionaryClass(Nib.ClassOf(a, o).name)
    ensures var vs := Nib.ObjectValues(a, o);
      var d := InitialEntries(a, o, addClass);
      var r := Reconstruct(a, o, addClass);
      && |r| == |d| + 2 && r[..|d|] == d
      && r[|d|].key == DictionaryKeysKey && r[|d|].value.Array?
      && r[|d| + 1].key == DictionaryValuesKey && r[|d| + 1].value.Array?
      && |r[|d|].value.items| == |vs| / 2
      && |r[|d| + 1].value.items| == (|vs| - 1) / 2
      && (forall i :: 0 <= i < |vs| / 2 ==> r[|d|].value.items[i] == Translate(vs[2 * i + 1].value))
      && (forall i :: 0 <= i < (|vs| - 1) / 2 ==> r[|d| + 1].value.items[i] == Translate(vs[2 * i + 2].value))
  {
    var vs := Nib.ObjectValues(a, o);
    var tail := vs[1..];
    var d := InitialEntries(a, o, addClass);
    var ks := TranslateAll(Deinterleave(tail).0);
    var vals := TranslateAll(Deinterleave(tail).1);
    assert Reconstruct(a, o, addClass) == ExpandInlined(a, Nib.ClassOf(a, o).name, vs, d);
    DictionaryInsertions(d, Array(ks), Array(vals));
    TranslatedSplitAt(vs);
  }

  /** The parity split of the values after the marker, translated. */
  lemma TranslatedSplitAt(vs: seq<Nib.Value>)
    requires |vs| >= 1
    ensures var split := Deinterleave(vs[1..]);
      && |TranslateAll(split.0)| == |vs| / 2
      && |TranslateAll(split.1)| == (|vs| - 1) / 2
      && (forall i :: 0 <= i < |vs| / 2 ==> TranslateAll(split.0)[i] == Translate(vs[2 * i + 1].value))
      && (forall i :: 0 <= i < (|vs| - 1) / 2 ==> TranslateAll(split.1)[i] == Translate(vs[2 * i + 2].value))
  {
    DeinterleaveAt(vs[1..]);
  }

  /** `NS.keys` and `NS.values` are new keys for a dictionary that holds at
      most the class reference, so both insertions append. */
  lemma DictionaryInsertions(d: seq<Entry>, ks: Value, vals: Value)
    requires d == [] || (|d| == 1 && d[0].key == ObjectClassKey)
    ensures UniqueKeys(d)
    ensures Insert(Insert(d, DictionaryKeysKey, ks), DictionaryValuesKey, vals) ==
            d + [Entry(DictionaryKeysKey, ks), Entry(DictionaryValuesKey, vals)]
  {
    ReservedKeysDistinct();
    var e1, e2 := Entry(DictionaryKeysKey, ks), Entry(DictionaryValuesKey, vals);
    var d1 := d + [e1];
    assert KeysOf(d) == if d == [] then [] else [ObjectClassKey];
    assert KeysOf(d1) == KeysOf(d) + [DictionaryKeysKey];
    assert Insert(d, DictionaryKeysKey, ks) == d1;
    assert d1 + [e2] == d + [e1, e2];
  }

  // ---------------------------------------------------------------------
  // The assembled document

  /** The root dictionary has exactly the keys `$archiver`, `$objects`,
      `$top` and `$version`, in that order, with the archiver name, the
      objects array, the root object without a class reference and the
      version. */
  lemma UpgradeRoot(a: Nib.Archive)
    requires Nib.WellFormed(a) && |a.objects| >= 1
    ensures UpgradeSpec(a).Dictionary?
    ensures KeysOf(UpgradeSpec(a).entries) == ["$archiver", "$objects", "$top", "$version"]
    ensures Lookup(UpgradeSpec(a).entries, "$archiver") == Some(String("NSKeyedArchiver"))
    ensures Lookup(UpgradeSpec(a).entries, "$version") == Some(Integer(100000))
    ensures Lookup(UpgradeSpec(a).entries, "$objects") == Some(Array(ObjectsArray(a)))
    ensures Lookup(UpgradeSpec(a).entries, "$top") == Some(Dictionary(Reconstruct(a, a.objects[0], false)))
  {
    var e := UpgradeSpec(a).entries;
    assert UniqueKeys(e) by {
      assert "$objects"[1] != "$archiver"[1] && "$version"[1] != "$archiver"[1];
      assert "$version"[1] != "$objects"[1];
      assert |"$top"| != |"$archiver"| && |"$top"| != |"$objects"| && |"$top"| != |"$version"|;
    }
    assert e[0] == Entry("$archiver", String("NSKeyedArchiver"));
    assert e[1] == Entry("$objects", Array(ObjectsArray(a)));
    assert e[2] == Entry("$top", Dictionary(Reconstruct(a, a.objects[0], false)));
    assert e[3] == Entry("$version", Integer(100000));
    LookupOfEntry(e, "$archiver", String("NSKeyedArchiver"));
    LookupOfEntry(e, "$objects", Array(ObjectsArray(a)));
    LookupOfEntry(e, "$top", Dictionary(Reconstruct(a, a.objects[0], false)));
    LookupOfEntry(e, "$version", Integer(100000));
  }

  /** `$objects` is the `$null` sentinel, then every object but the root in
      archive order, then one descriptor per class-table entry in table order;
      the sentinel is its only entry that is not a dictionary. */
  lemma ObjectsArrayLayout(a: Nib.Archive)
    requires Nib.WellFormed(a) && |a.objects| >= 1
    ensures |ObjectsArray(a)| == |a.objects| + |a.classNames|
    ensures ObjectsArray(a)[0] == String("$null")
    ensures forall k :: 1 <= k < |a.objects| ==>
      ObjectsArray(a)[k] == Dictionary(Reconstruct(a, a.objects[k], true))
    ensures forall j :: 0 <= j < |a.classNames| ==>
      ObjectsArray(a)[|a.objects| + j] == ClassDescriptor(a.classNames[j])
    ensures forall s :: 1 <= s < |ObjectsArray(a)| ==> ObjectsArray(a)[s].Dictionary?
  {
    var objs := ObjectsArray(a);
    var n := |a.objects|;
    forall k | 1 <= k < n ensures objs[k] == Dictionary(Reconstruct(a, a.objects[k], true)) {
      assert objs[k] == Slot(a, k);
    }
    forall j | 0 <= j < |a.classNames| ensures objs[n + j] == ClassDescriptor(a.classNames[j]) {
      assert objs[n + j] == Slot(a, n + j);
    }
    forall s | 1 <= s < |objs| ensures objs[s].Dictionary? {
      assert objs[s] == Slot(a, s);
    }
  }

  /** A class descriptor names its class under `$classname`, and lists only
      that name under `$classes`. */
  lemma ClassDescriptorContents(c: Nib.ClassName)
    ensures ClassDescriptor(c).Dictionary?
    ensures Lookup(ClassDescriptor(c).entries, "$classname") == Some(String(c.name))
    ensures Lookup(ClassDescriptor(c).entries, "$classes") == Some(Array([String(c.name)]))
  {
    var e := ClassDescriptor(c).entries;
    assert UniqueKeys(e) by { assert |"$classes"| != |"$classname"|; }
    assert e[0] == Entry("$classes", Array([String(c.name)]));
    LookupOfEntry(e, "$classes", Array([String(c.name)]));
    assert e[1] == Entry("$classname", String(c.name));
    LookupOfEntry(e, "$classname", String(c.name));
  }

  /** The central invariant: the `$class` UID of every regular object is the
      `$objects` slot of the descriptor of that object's class. */
  lemma ClassUidResolves(a: Nib.Archive, k: nat)
    requires Nib.WellFormed(a) && 1 <= k < |a.objects|
    requires ClassEntryKept(a, a.objects[k])
    ensures var objs := ObjectsArray(a);
      var c := a.objects[k].classNameIndex;
      && objs[k].Dictionary?
      && Lookup(objs[k].entries, ObjectClassKey) == Some(Uid(|a.objects| + c))
      && |a.objects| + c < |objs|
      && objs[|a.objects| + c] == ClassDescriptor(a.classNames[c])
      && Lookup(objs[|a.objects| + c].entries, ClassnameKey) == Some(String(a.classNames[c].name))
  {
    var c := a.objects[k].classNameIndex;
    SlotClassEntry(a, k);
    DescriptorSlot(a, c);
    ClassDescriptorContents(a.classNames[c]);
  }

  /** The `$class` entry of the reconstruction in slot `k`. */
  lemma SlotClassEntry(a: Nib.Archive, k: nat)
    requires Nib.WellFormed(a) && 1 <= k < |a.objects|
    requires ClassEntryKept(a, a.objects[k])
    ensures a.objects[k].classNameIndex < |a.classNames|
    ensures k < |ObjectsArray(a)| && ObjectsArray(a)[k].Dictionary?
    ensures Lookup(ObjectsArray(a)[k].entries, ObjectClassKey) ==
            Some(Uid(|a.objects| + a.objects[k].classNameIndex))
  {
    assert a.objects[k] in a.objects;
    RegularSlot(a, k);
    ReconstructClassEntry(a, a.objects[k], true);
  }

  /** An object reference to a regular object becomes a UID naming the slot
      that holds that object's reconstruction. */
  lemma ObjectRefResolves(a: Nib.Archive, x: Nib.UInt32)
    requires Nib.WellFormed(a) && 1 <= x as int < |a.objects|
    ensures Translate(Nib.ObjectRef(x)) == Uid(x as nat)
    ensures ObjectsArray(a)[x as nat] == Dictionary(Reconstruct(a, a.objects[x as nat], true))
  {
    ObjectsArrayLayout(a);
  }

  // ---------------------------------------------------------------------
  // A worked example

  /** A root holding one reference, and one inlined NSArray of two
      references. */
  function ExampleArchive(): Nib.Archive
  {
    Nib.Archive(
      [Nib.Object(0, 1, 1), Nib.Object(1, 3, 0)],
      [Nib.Value(0, Nib.ObjectRef(2)), Nib.Value(1, Nib.Bool(true)),
       Nib.Value(2, Nib.ObjectRef(5)), Nib.Value(2, Nib.ObjectRef(6))],
      ["view", "NSInlinedValue", "UINibEncodedItem"],
      [Nib.ClassName("NSArray", []), Nib.ClassName("UIView", [])])
  }

  lemma ExampleWellFormed()
    ensures Nib.WellFormed(ExampleArchive())
    ensures Nib.ObjectValues(ExampleArchive(), ExampleArchive().objects[0]) == [ExampleArchive().values[0]]
    ensures Nib.ObjectValues(ExampleArchive(), ExampleArchive().objects[1]) == ExampleArchive().values[1..4]
  {
    var a := ExampleArchive();
    assert forall o :: o in a.objects ==> o == a.objects[0] || o == a.objects[1];
    assert forall v :: v in a.values ==> v.keyIndex <= 2;
  }

  /** In the example, the array object, which fills slot 1 of `$objects`,
      becomes `{$class: UID(2), NS.objects: [UID(5), UID(6)]}`. */
  lemma InlinedArrayExample()
    ensures Nib.WellFormed(ExampleArchive())
    ensures Reconstruct(ExampleArchive(), ExampleArchive().objects[1], true) ==
            [Entry("$class", Uid(2)), Entry("NS.objects", Array([Uid(5), Uid(6)]))]
  {
    var a := ExampleArchive();
    ExampleWellFormed();
    var vs := Nib.ObjectValues(a, a.objects[1]);
    assert IsInlined(a, vs) && IsCollectionClass(Nib.ClassOf(a, a.objects[1]).name);
    var r := Reconstruct(a, a.objects[1], true);
    ReconstructCollection(a, a.objects[1], true);
    var items := r[1].value.items;
    assert vs[1].value == Nib.ObjectRef(5) && vs[2].value == Nib.ObjectRef(6);
    TwoElements(items, Uid(5), Uid(6));
    assert r[0] == Entry("$class", Uid(2)) by { assert r[0] == r[..1][0]; }
    TwoElements(r, r[0], r[1]);
  }

  lemma TwoElements<T>(s: seq<T>, x: T, y: T)
    requires |s| == 2 && s[0] == x && s[1] == y
    ensures s == [x, y]
  {
  }

  /** In the example, the root becomes `{view: UID(2)}`, with no `$class`. */
  lemma ExampleRoot()
    ensures Nib.WellFormed(ExampleArchive())
    ensures Reconstruct(ExampleArchive(), ExampleArchive().objects[0], false) == [Entry("view", Uid(2))]
  {
    var a := ExampleArchive();
    ExampleWellFormed();
    var top := Nib.ObjectValues(a, a.objects[0]);
    assert !IsInlined(a, top);
    var t := Reconstruct(a, a.objects[0], false);
    assert |t| == 1 && t[0] == Entry(Nib.KeyName(a, top[0]), Translate(top[0].value)) by {
      ReconstructInOrder(a, a.objects[0], false);
    }
  }
}
