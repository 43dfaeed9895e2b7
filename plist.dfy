/** The output side: the property-list value tree that the encoder serialises.
    A plist `Dictionary` keeps its entries in insertion order (it is backed by
    an insertion-ordered hash map): inserting a key that is already present
    replaces its value where it stands, inserting a new key appends it. */
module Plist {

  datatype Option<T> = None | Some(value: T)

  /** Floating-point payloads are carried opaquely, as the bits they came in. */
  datatype RealBits = Single(bits32: bv32) | Double(bits64: bv64)

  datatype Value =
    | Integer(n: int)
    | Boolean(b: bool)
    | Real(r: RealBits)
    | Data(bytes: seq<bv8>)
    | String(s: string)
    | Uid(uid: nat)
    | Array(items: seq<Value>)
    | Dictionary(entries: seq<Entry>)

  datatype Entry = Entry(key: string, value: Value)

  /** The keys of a dictionary, in entry order. */
  function KeysOf(d: seq<Entry>): seq<string>
  {
    seq(|d|, i requires 0 <= i < |d| => d[i].key)
  }

  /** The invariant every plist dictionary keeps: no key twice. */
  predicate UniqueKeys(d: seq<Entry>)
  {
    forall i, j :: 0 <= i < j < |d| ==> KeysOf(d)[i] != KeysOf(d)[j]
  }

  /** Dropping the last entry keeps the keys unique, and its key is not
      among the others. */
  lemma UniqueSnoc(d: seq<Entry>, e: Entry)
    requires UniqueKeys(d + [e])
    ensures UniqueKeys(d)
    ensures e.key !in KeysOf(d)
  {
    var ks := KeysOf(d + [e]);
    assert KeysOf(d) == ks[..|d|] && e.key == ks[|d|];
  }

  /** The same for the suffix after the first entry. */
  lemma UniqueTail(d: seq<Entry>)
    requires UniqueKeys(d) && d != []
    ensures UniqueKeys(d[1..])
    ensures d[0].key !in KeysOf(d[1..])
  {
    assert KeysOf(d[1..]) == KeysOf(d)[1..];
    assert d[0].key == KeysOf(d)[0];
  }

  /** The value stored under `k`, looked up from the front. */
  function Lookup(d: seq<Entry>, k: string): Option<Value>
  {
    if d == [] then None
    else if d[0].key == k then Some(d[0].value)
    else Lookup(d[1..], k)
  }

  /** A lookup finds something exactly when the key is present, and what it
      finds is stored under that key. */
  lemma {:induction false} LookupMeaning(d: seq<Entry>, k: string)
    ensures Lookup(d, k).None? <==> k !in KeysOf(d)
    ensures Lookup(d, k).Some? ==> Entry(k, Lookup(d, k).value) in d
  {
    if d != [] {
      if d[0].key == k {
        assert KeysOf(d)[0] == k;
      } else {
        assert KeysOf(d) == [d[0].key] + KeysOf(d[1..]);
        LookupMeaning(d[1..], k);
      }
    }
  }

  /** In a dictionary without duplicate keys an entry determines the lookup. */
  lemma {:induction false} LookupOfEntry(d: seq<Entry>, k: string, v: Value)
    requires UniqueKeys(d)
    requires Entry(k, v) in d
    ensures Lookup(d, k) == Some(v)
  {
    if d[0] != Entry(k, v) {
      var j :| 0 <= j < |d| && d[j] == Entry(k, v);
      assert d[0].key != k by {
        assert 0 < j && KeysOf(d)[0] == d[0].key && KeysOf(d)[j] == k;
      }
      assert d[1..][j - 1] == Entry(k, v);
      UniqueTail(d);
      LookupOfEntry(d[1..], k, v);
    }
  }

  /** `Dictionary::insert`: a key already present gets the new value where
      it stands; a new key is appended. */
  function Insert(d: seq<Entry>, k: string, v: Value): (r: seq<Entry>)
    requires UniqueKeys(d)
    ensures UniqueKeys(r)
    ensures k !in KeysOf(d) ==> r == d + [Entry(k, v)]
    ensures k in KeysOf(d) ==> |r| == |d| && KeysOf(r) == KeysOf(d)
  {
    if d == [] then [Entry(k, v)]
    else if d[0].key == k then
      InsertAtHead(d, k, v);
      [Entry(k, v)] + d[1..]
    else
      UniqueTail(d);
      var rest := Insert(d[1..], k, v);
      InsertBehindHead(d, k, v, rest);
      [d[0]] + rest
  }

  /** `Insert` when the first entry holds the key. */
  lemma InsertAtHead(d: seq<Entry>, k: string, v: Value)
    requires UniqueKeys(d) && d != [] && d[0].key == k
    ensures UniqueKeys([Entry(k, v)] + d[1..])
    ensures k in KeysOf(d) && KeysOf([Entry(k, v)] + d[1..]) == KeysOf(d)
  {
    assert KeysOf(d)[0] == k;
    var r := [Entry(k, v)] + d[1..];
    forall i | 0 <= i < |d| ensures r[i].key == d[i].key {
      if i > 0 {
        assert r[i] == d[i];
      }
    }
    assert KeysOf(r) == KeysOf(d);
  }

  /** `Insert` when the key lies further on, or is new. */
  lemma InsertBehindHead(d: seq<Entry>, k: string, v: Value, rest: seq<Entry>)
    requires UniqueKeys(d) && d != [] && d[0].key != k
    requires UniqueKeys(rest)
    requires k !in KeysOf(d[1..]) ==> rest == d[1..] + [Entry(k, v)]
    requires k in KeysOf(d[1..]) ==> |rest| == |d| - 1 && KeysOf(rest) == KeysOf(d[1..])
    ensures UniqueKeys([d[0]] + rest)
    ensures k !in KeysOf(d) ==> [d[0]] + rest == d + [Entry(k, v)]
    ensures k in KeysOf(d) ==> |[d[0]] + rest| == |d| && KeysOf([d[0]] + rest) == KeysOf(d)
  {
    var r := [d[0]] + rest;
    assert KeysOf(d) == [d[0].key] + KeysOf(d[1..]);
    assert KeysOf(r) == [d[0].key] + KeysOf(rest);
    assert k in KeysOf(d) <==> k in KeysOf(d[1..]);
    if k !in KeysOf(d[1..]) {
      assert KeysOf(rest) == KeysOf(d[1..]) + [k];
    }
    UniqueTail(d);
    forall i, j | 0 <= i < j < |r| ensures KeysOf(r)[i] != KeysOf(r)[j] {
      assert KeysOf(r)[j] == KeysOf(rest)[j - 1];
      if i == 0 {
        assert KeysOf(rest)[j - 1] in KeysOf(rest);
      } else {
        assert KeysOf(r)[i] == KeysOf(rest)[i - 1];
      }
    }
  }

  /** Inserting a key that no entry has appends it. */
  lemma InsertNew(d: seq<Entry>, k: string, v: Value)
    requires UniqueKeys(d)
    requires forall i :: 0 <= i < |d| ==> d[i].key != k
    ensures Insert(d, k, v) == d + [Entry(k, v)]
  {
    assert forall i :: 0 <= i < |d| ==> KeysOf(d)[i] != k;
  }

  /** After `Insert`, `k` holds `v` and every other key holds what it held. */
  lemma {:induction false} InsertLookup(d: seq<Entry>, k: string, v: Value, k': string)
    requires UniqueKeys(d)
    ensures Lookup(Insert(d, k, v), k') == if k' == k then Some(v) else Lookup(d, k')
  {
    if d != [] && d[0].key != k {
      UniqueTail(d);
      var rest := Insert(d[1..], k, v);
      assert Insert(d, k, v) == [d[0]] + rest;
      assert ([d[0]] + rest)[1..] == rest;
      if d[0].key != k' {
        InsertLookup(d[1..], k, v, k');
      }
    } else if d != [] {
      assert ([Entry(k, v)] + d[1..])[1..] == d[1..];
    }
  }

  /** Inserting a sequence of entries one after another, first to last. */
  function InsertAll(d: seq<Entry>, ps: seq<Entry>): (r: seq<Entry>)
    requires UniqueKeys(d)
    ensures UniqueKeys(r)
  {
    if ps == [] then d
    else
      var last := ps[|ps| - 1];
      Insert(InsertAll(d, ps[..|ps| - 1]), last.key, last.value)
  }

  /** The value of the last entry of `ps` with key `k`, if any: the reference
      meaning of "last write wins". */
  function LastWith(ps: seq<Entry>, k: string): Option<Value>
  {
    if ps == [] then None
    else if ps[|ps| - 1].key == k then Some(ps[|ps| - 1].value)
    else LastWith(ps[..|ps| - 1], k)
  }

  /** After inserting `ps`, each key holds the value of its last occurrence in
      `ps`, and keys that `ps` does not mention keep their earlier value. */
  lemma {:induction false} InsertAllLastWriteWins(d: seq<Entry>, ps: seq<Entry>, k: string)
    requires UniqueKeys(d)
    ensures Lookup(InsertAll(d, ps), k) ==
            (if LastWith(ps, k).Some? then LastWith(ps, k) else Lookup(d, k))
  {
    if ps != [] {
      var last := ps[|ps| - 1];
      InsertAllLastWriteWins(d, ps[..|ps| - 1], k);
      InsertLookup(InsertAll(d, ps[..|ps| - 1]), last.key, last.value, k);
    }
  }

  /** When no key repeats, inserting is appending: one entry per input entry,
      in input order. */
  lemma {:induction false} InsertAllDistinct(d: seq<Entry>, ps: seq<Entry>)
    requires UniqueKeys(d) && UniqueKeys(d + ps)
    ensures InsertAll(d, ps) == d + ps
  {
    if ps != [] {
      var n := |ps| - 1;
      assert d + ps == (d + ps[..n]) + [ps[n]];
      UniqueSnoc(d + ps[..n], ps[n]);
      InsertAllDistinct(d, ps[..n]);
    }
  }
}
