# nibarchive_upgrade in Dafny

A model of the converter that turns a decoded NIB archive (the flat format
Interface Builder compiles `.xib` files into) into an NSKeyedArchiver
property-list tree, with proofs of what that conversion promises.

The NIB archive is flat: a table of objects, a shared pool of key/value
pairs, a key-name table and a class-name table. Objects refer to the pools
by index (`nib.dfy`, module `Nib`). The output is a plist value tree whose
dictionaries keep their entries in insertion order. Inserting a key that is
already present replaces its value where it stands, and inserting a new key
appends it (`plist.dfy`, module `Plist`). The conversion (`upgrade.dfy`,
module `Upgrade`) has four parts:

- it translates each primitive NIB value into a plist scalar (`Translate`);
- it rebuilds each flat object as a dictionary, optionally headed by a
  `$class` UID (`ReconstructObject`, specified by `Reconstruct`);
- it re-expands objects marked `NSInlinedValue = true` into `NS.objects`, or
  into `NS.keys` and `NS.values` (`ReconstructInlinedObject`, specified by
  `ExpandInlined`);
- it assembles the root dictionary: `$archiver`, then `$objects`, which holds
  the `$null` sentinel, every object but the root and one descriptor per
  class; then `$top`, the root object; then `$version` (`Upgrade`, specified
  by `UpgradeSpec`).

Every loop of the converter is a method with loop invariants. Each method is
proved to compute its specification function. The promises of the
conversion are proved about those functions in `properties.dfy` (module
`Properties`). The central one is `ClassUidResolves`: the `$class` UID of
every object is the `$objects` slot that holds the descriptor of that
object's class.

The code emits one class descriptor per class-table entry, without
deduplication. Its `$classes` array holds only the class's own name, because
the fallback-class loop is commented out (src/lib.rs:135-137).

## Model

Below, N is the number of objects in the archive and C the number of
class-table entries.

| member | source | states |
|---|---|---|
| Upgrade.TranslateMeaning | src/lib.rs:21-34 | Translation is total and never yields a container. Only `Float` and `Double` become reals. `Nil` becomes the string `$null`, and only `Nil` becomes a string. `ObjectRef(x)` becomes `Uid(x)`, and only references become UIDs. Integers of all four widths become `Integer` with the same signed value. Booleans and data blobs keep their payload. |
| Upgrade.Translate | src/lib.rs:21-34 | Each flat value becomes one plist scalar, never an array or a dictionary. Reals are carried as opaque bit patterns. |
| Properties.TranslateDistinguishes | src/lib.rs:21-34 | Two values translate alike only if they are equal, are integers of equal value, or are both reals: translation forgets the integer width and, for reals, the input width. |
| Nib.ObjectValues | src/lib.rs:45 | An object's values are its span of the value pool. There are `valueCount` of them, and each names a key inside the key table. |
| Plist.Insert | src/lib.rs:43 | `Dictionary::insert` keeps keys unique. A new key is appended at the end. An existing key keeps its position, and the set and order of keys stay unchanged. |
| Plist.InsertLookup | src/lib.rs:62 | After an insert, the inserted key holds the new value and every other key holds what it held before. |
| Plist.LookupMeaning | src/lib.rs:62 | A lookup succeeds exactly when the key is present, and what it returns is stored under that key. |
| Plist.InsertAllLastWriteWins | src/lib.rs:59-63 | After a run of inserts, each key holds the value of its last occurrence in the run. A key that the run does not mention keeps its earlier value. |
| Plist.InsertAllDistinct | src/lib.rs:59-63 | When no key repeats, a run of inserts appends the entries in run order. |
| Upgrade.InsertValues | src/lib.rs:59-63 | The per-value insertion loop computes the inserts of `(key name, translation)` for every value, in order. |
| Upgrade.CollectTail | src/lib.rs:79-83 | The collection loop yields the translations of every value after the marker, in order. |
| Upgrade.SplitTail | src/lib.rs:86-96 | The `is_key` toggling loop yields the translations of the even and the odd positions of the tail after the marker. |
| Upgrade.DeinterleaveAt | src/lib.rs:88-95 | The parity split: the keys have `(n+1)/2` elements and the values `n/2`. Key `i` is tail element `2i`, and value `i` is tail element `2i+1`. |
| Upgrade.InterleaveDeinterleave | src/lib.rs:88-95 | The parity split loses nothing. Re-interleaving the keys and values gives the tail back, and there are as many keys as values or one more. |
| Upgrade.ReconstructInlinedObject | src/lib.rs:70-109 | Computes `ExpandInlined`: `NS.objects` for the four collection classes, `NS.keys` and `NS.values` for the two dictionary classes, and otherwise every pair verbatim. The `unknown` flag is set exactly when the class is none of the six. |
| Upgrade.ReconstructObject | src/lib.rs:36-65 | Computes `Reconstruct`: an optional `$class` UID, then nothing for an object without values, the inline expansion for a marked object, and otherwise every pair in order. |
| Properties.ReconstructEmpty | src/lib.rs:39-49 | An object without values yields only `$class = Uid(classNameIndex + N)` when a class is asked for, and the empty dictionary otherwise. |
| Properties.ReconstructClassEntry | src/lib.rs:39-44 | `$class` holds `Uid(classNameIndex + N)` when a class is asked for, and is absent otherwise. This holds for every expanded collection or dictionary, whose value keys are dropped, and for any other object none of whose values is keyed `$class`. |
| Properties.TopHasNoClass | src/lib.rs:151-152 | The root object, reconstructed without a class, has no `$class` key, unless it is stored key by key and one of its values is keyed `$class`. |
| Properties.ReconstructLastWriteWins | src/lib.rs:58-64 | In an ordinary object, a key holds the translation of the last value with that key: a later duplicate overwrites an earlier one. |
| Properties.ReconstructKeepsUnused | src/lib.rs:58-64 | In an ordinary object, a key that no value uses keeps what it held before the values were inserted: the class reference, or nothing. |
| Properties.ReconstructInOrder | src/lib.rs:58-64 | If keys do not repeat, and, when a class is added, no value is keyed `$class`, then an ordinary object has exactly one entry per value, in source order, after its class reference. Each entry holds the key name and the translated value. |
| Properties.UnknownInlineKeepsMarker | src/lib.rs:100-106 | An inline-marked object of any other class is not expanded. Every pair is inserted, the `NSInlinedValue` marker included. The marker key is present, and it holds `true` unless a later value reuses that key. |
| Properties.ReconstructCollection | src/lib.rs:74-84 | An inlined NSArray, NSMutableArray, NSSet or NSMutableSet gains exactly one entry after its class reference. That entry is `NS.objects`, which has one element fewer than the object has values, and element `i` is the translation of value `i + 1`. |
| Properties.ReconstructDictionary | src/lib.rs:85-98 | An inlined NSDictionary or NSMutableDictionary gains exactly `NS.keys` then `NS.values`. Key `i` is the translation of value `2i + 1` and value `i` the translation of value `2i + 2`. An odd tail leaves one extra key. |
| Properties.DictionaryInsertions | src/lib.rs:97-98 | `NS.keys` and `NS.values` are new keys, so both insertions append. |
| Upgrade.BuildClassDescriptor | src/lib.rs:130-145 | The class-table loop body builds `{$classes: [name], $classname: name}`. |
| Properties.ClassDescriptorContents | src/lib.rs:138-143 | A descriptor holds the class name under `$classname` and a one-element array of that name under `$classes`. |
| Upgrade.CollectObjects | src/lib.rs:120-145 | The two loops fill `$objects` with exactly the `ObjectsArray` layout. |
| Upgrade.RootInsertions | src/lib.rs:113-158 | The four root keys are distinct, so the root's four inserts append in program order. |
| Upgrade.Upgrade | src/lib.rs:112-161 | `upgrade` computes `UpgradeSpec`. It requires at least one object, because the root is read as `objects[0]`. |
| Properties.UpgradeRoot | src/lib.rs:112-160 | The root dictionary has exactly the keys `$archiver`, `$objects`, `$top`, `$version`, in that order. They hold `"NSKeyedArchiver"`, the objects array, the root object without a class, and `100000`. |
| Upgrade.RegularSlot | src/lib.rs:125-128 | Slot `k` of `$objects`, for `1 <= k < N`, holds object `k` reconstructed with its class. |
| Upgrade.DescriptorSlot | src/lib.rs:130-145 | Slot `N + j` of `$objects` holds the descriptor of class `j`. |
| Properties.ObjectsArrayLayout | src/lib.rs:120-145 | `$objects` has `N + C` slots. Slot 0 is `"$null"`, slots `1 .. N-1` are the objects in archive order, and then come the descriptors in table order. Every slot but 0 is a dictionary. |
| Properties.SlotClassEntry | src/lib.rs:42-43 | The dictionary in slot `k` carries `$class = Uid(N + classNameIndex)`, and that class index lies inside the class table, unless object `k` is stored key by key and one of its values is keyed `$class`. |
| Properties.ClassUidResolves | src/lib.rs:42-43 | The `$class` UID of every regular object indexes, inside `$objects`, the descriptor of that object's own class, whose `$classname` is the class's name. |
| Properties.ObjectRefResolves | src/lib.rs:32 | A reference to object `x`, for `1 <= x < N`, becomes `Uid(x)`, and slot `x` of `$objects` holds object `x`. |
| Properties.InlinedArrayExample | src/lib.rs:74-84 | A worked example: in an archive whose object 1 is an inlined NSArray of references 5 and 6, with class index 0 and two objects in all, object 1 becomes `{$class: UID(2), NS.objects: [UID(5), UID(6)]}`. |
| Properties.ExampleRoot | src/lib.rs:151-152 | In the same archive, the root object, holding one reference under `view`, becomes `{view: UID(2)}`, with no `$class`. |

## Left out

- Reading the NIB file, writing the binary plist and the command line are not part of this model. The archive arrives decoded, and the result is returned as a value.
- The decoder and the plist encoder are separate libraries and are not part of this model. Their accessors (`values()`, `key()`, `class_name()`) become index lookups. `Nib.WellFormed` states the range guarantees the decoder gives: every object span, class index and key index lies inside its table.
- Floating point: `Float` is widened to a double by the converter. The model carries both widths as opaque bit patterns (`Plist.RealBits`) and proves nothing numeric about them.
- Upgrade.Translate: the model's `Real` keeps the input width (`Single` or `Double` bits). The converter widens a `Float` to a double, so a `Float` and a `Double` of the same number give the same plist value there but different values in the model. `Properties.TranslateDistinguishes` therefore allows any two reals to translate alike.
- The "Unknown inlined object" console message becomes the `unknown` result of `ReconstructInlinedObject`. The text itself is not modelled. `Upgrade.ReconstructObject` drops that flag, as the converter returns only the dictionary, so no caller of `ReconstructObject` or `Upgrade` sees it.
- The commented-out fallback-class loop is dead code. `Nib.ClassName` keeps `fallbackClassIndices`, but nothing reads it.
- `plist::Dictionary` is modelled as an insertion-ordered map: a present key is replaced in place, and a new key is appended. That is the behaviour of its ordered-map backing.
- Properties.ReconstructClassEntry: requires, for an object stored key by key (not inlined, or inlined with a class other than the six containers), that none of its values is keyed `$class`. Such a value would replace the class reference when one is added, and would add a `$class` key when none is. An expanded container drops its value keys, so it needs no such condition.
- Properties.TopHasNoClass: requires, for a root stored key by key (not inlined, or inlined with a class other than the six containers), that none of its values is keyed `$class`. `$top` is rebuilt without a class reference, so such a value would itself be inserted as a `$class` key of `$top`. An expanded container drops its value keys, so it needs no such condition.
- Properties.SlotClassEntry: requires, for an object stored key by key (not inlined, or inlined with a class other than the six containers), that none of its values is keyed `$class`. Such a value would overwrite the class reference, last write winning, as `ReconstructLastWriteWins` states. An expanded container drops its value keys, so it needs no such condition.
- Properties.ClassUidResolves: requires, for an object stored key by key (not inlined, or inlined with a class other than the six containers), that none of its values is keyed `$class`. Such a value would overwrite the class reference, last write winning, as `ReconstructLastWriteWins` states. An expanded container drops its value keys, so it needs no such condition.
- UIDs are unbounded naturals. The converter computes the `$class` UID as a `u64` sum of two indices (src/lib.rs:42), which cannot overflow for any archive that fits in memory, so no wrap-around is modelled.
- Properties.ObjectRefResolves: a reference to object 0, the root, becomes `Uid(0)`, which names the `$null` sentinel. The root is emitted under `$top`, not in `$objects`, so the model does not resolve such references to anything else.
