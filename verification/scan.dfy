/**
 * The scan query `FindKeysByField`: walk every (key, value) entry of the
 * ordered store from first to last, decode each value with `ParseValue`, and
 * collect the key of every record holding a field equal to the query on both
 * name and value.
 *
 * The store is given as the sequence of entries its iterator yields after
 * `SeekToFirst`, in ascending bytewise key order; `StoreIterator` walks such a
 * sequence with the same calls the program makes.
 */
module Scan {
  import opened Wire
  import opened Codec

  /** One stored entry: a key and the encoded record stored under it. */
  datatype Entry = Entry(key: Bytes, value: Bytes)

  /**
   * Bytewise key order: the first differing byte decides, and a proper prefix
   * comes before the longer key.
   */
  predicate KeyLess(a: Bytes, b: Bytes)
  {
    if a == [] then b != []
    else b != [] && (a[0] < b[0] || (a[0] == b[0] && KeyLess(a[1..], b[1..])))
  }

  /** No key comes before itself. */
  lemma {:induction false} KeyLessIrreflexive(a: Bytes)
    ensures !KeyLess(a, a)
  {
    if a != [] {
      KeyLessIrreflexive(a[1..]);
    }
  }

  /** Keys strictly ascend along the store, as its iterator yields them. */
  predicate Ascending(store: seq<Entry>)
  {
    forall i, j | 0 <= i < j < |store| :: KeyLess(store[i].key, store[j].key)
  }

  /** Each key comes strictly before every later one. */
  predicate StrictlyAscending(keys: seq<Bytes>)
  {
    forall i, j | 0 <= i < j < |keys| :: KeyLess(keys[i], keys[j])
  }

  /** The keys of the store, in iteration order. */
  function Keys(store: seq<Entry>): seq<Bytes>
  {
    seq(|store|, i requires 0 <= i < |store| => store[i].key)
  }

  /** The record stored in `e`, decoded, holds a field equal to `query`. */
  predicate Matches(e: Entry, query: Field)
  {
    query in Parse(e.value)
  }

  /** The keys of the entries satisfying `p`, in iteration order. */
  function KeysWhere(store: seq<Entry>, p: Entry -> bool): (keys: seq<Bytes>)
    ensures |keys| <= |store|
  {
    if store == [] then []
    else
      var last := store[|store| - 1];
      KeysWhere(store[..|store| - 1], p) + (if p(last) then [last.key] else [])
  }

  /** `Matches` with the query fixed, as a predicate on entries. */
  function HoldsField(query: Field): Entry -> bool
  {
    e => Matches(e, query)
  }

  /** The keys of the entries whose record holds `query`, in iteration order. */
  function MatchingKeys(store: seq<Entry>, query: Field): seq<Bytes>
  {
    KeysWhere(store, HoldsField(query))
  }

  /** `xs` is `ys` with some elements left out, the rest kept in order. */
  predicate IsSubsequence<T(==)>(xs: seq<T>, ys: seq<T>)
  {
    if xs == [] then true
    else if ys == [] then false
    else
      (xs[|xs| - 1] == ys[|ys| - 1] && IsSubsequence(xs[..|xs| - 1], ys[..|ys| - 1]))
      || IsSubsequence(xs, ys[..|ys| - 1])
  }

  /** A key is selected exactly when some entry with that key satisfies `p`. */
  lemma {:induction false} KeysWhereMembers(store: seq<Entry>, p: Entry -> bool, k: Bytes)
    ensures k in KeysWhere(store, p) <==> exists i | 0 <= i < |store| :: store[i].key == k && p(store[i])
  {
    if store != [] {
      var n := |store| - 1;
      KeysWhereMembers(store[..n], p, k);
      if k in KeysWhere(store[..n], p) {
        var i :| 0 <= i < n && store[..n][i].key == k && p(store[..n][i]);
        assert store[i] == store[..n][i];
      }
      if exists i | 0 <= i < |store| :: store[i].key == k && p(store[i]) {
        var i :| 0 <= i < |store| && store[i].key == k && p(store[i]);
        if i < n {
          assert store[..n][i] == store[i];
        }
      }
    }
  }

  /**
   * A key is in the scan's result exactly when some entry with that key holds
   * a record with a field equal to the query.
   */
  lemma MatchingKeysMembers(store: seq<Entry>, query: Field, k: Bytes)
    ensures k in MatchingKeys(store, query)
        <==> exists i | 0 <= i < |store| :: store[i].key == k && query in Parse(store[i].value)
  {
    KeysWhereMembers(store, HoldsField(query), k);
  }

  /** The selected keys are store keys in iteration order, some left out. */
  lemma {:induction false} KeysWhereSubsequence(store: seq<Entry>, p: Entry -> bool)
    ensures IsSubsequence(KeysWhere(store, p), Keys(store))
  {
    if store != [] {
      var n := |store| - 1;
      var keys, all := KeysWhere(store, p), Keys(store);
      KeysWhereSubsequence(store[..n], p);
      assert all[..n] == Keys(store[..n]);
      if p(store[n]) {
        assert keys[..|keys| - 1] == KeysWhere(store[..n], p);
      } else {
        assert keys == KeysWhere(store[..n], p);
        SkipLast(keys, all[..n], all[n]);
        assert all[..n] + [all[n]] == all;
      }
    }
  }

  /** The scan's result is a subsequence of the store's keys. */
  lemma MatchingKeysSubsequence(store: seq<Entry>, query: Field)
    ensures IsSubsequence(MatchingKeys(store, query), Keys(store))
  {
    KeysWhereSubsequence(store, HoldsField(query));
  }

  /** A subsequence of `ys` is also one of `ys` extended by one element. */
  lemma SkipLast<T>(xs: seq<T>, ys: seq<T>, y: T)
    requires IsSubsequence(xs, ys)
    ensures IsSubsequence(xs, ys + [y])
  {
    assert (ys + [y])[..|ys|] == ys;
  }

  /** Over an ascending store, the selected keys strictly ascend too. */
  lemma {:induction false} KeysWhereAscending(store: seq<Entry>, p: Entry -> bool)
    requires Ascending(store)
    ensures StrictlyAscending(KeysWhere(store, p))
  {
    if store != [] {
      var n := |store| - 1;
      var prefix := KeysWhere(store[..n], p);
      var keys := KeysWhere(store, p);
      assert Ascending(store[..n]) by {
        forall i, j | 0 <= i < j < n
          ensures KeyLess(store[..n][i].key, store[..n][j].key)
        {
          assert store[..n][i] == store[i] && store[..n][j] == store[j];
        }
      }
      KeysWhereAscending(store[..n], p);
      forall i, j | 0 <= i < j < |keys|
        ensures KeyLess(keys[i], keys[j])
      {
        if j < |prefix| {
          assert keys[i] == prefix[i] && keys[j] == prefix[j];
        } else {
          assert p(store[n]) && keys == prefix + [store[n].key];
          assert keys[i] == prefix[i] && keys[j] == store[n].key;
          KeysWhereMembers(store[..n], p, prefix[i]);
          var m :| 0 <= m < n && store[..n][m].key == prefix[i] && p(store[..n][m]);
          assert store[..n][m] == store[m];
          assert KeyLess(store[m].key, store[n].key);
        }
      }
    }
  }

  /**
   * Over an ascending store the scan's result ascends strictly, so no key is
   * returned twice, even when its record holds several matching fields.
   */
  lemma MatchingKeysAscending(store: seq<Entry>, query: Field)
    requires Ascending(store)
    ensures StrictlyAscending(MatchingKeys(store, query))
    ensures var keys := MatchingKeys(store, query);
      forall i, j | 0 <= i < j < |keys| :: keys[i] != keys[j]
  {
    var keys := MatchingKeys(store, query);
    KeysWhereAscending(store, HoldsField(query));
    forall i, j | 0 <= i < j < |keys|
      ensures keys[i] != keys[j]
    {
      KeyLessIrreflexive(keys[i]);
    }
  }

  /** One more entry scanned adds its key exactly when its record holds `query`. */
  lemma MatchingKeysStep(store: seq<Entry>, query: Field, i: nat, fields: FieldArray)
    requires i < |store| && fields == Parse(store[i].value)
    ensures MatchingKeys(store[..i + 1], query)
         == MatchingKeys(store[..i], query) + (if query in fields then [store[i].key] else [])
  {
    assert store[..i + 1][..i] == store[..i];
  }

  /** One more entry visited adds its key at the end. */
  lemma KeysStep(store: seq<Entry>, i: nat)
    requires i < |store|
    ensures Keys(store[..i + 1]) == Keys(store[..i]) + [store[i].key]
  {
  }

  /** A forward iterator over a snapshot of the store. */
  class StoreIterator {
    const entries: seq<Entry>
    var pos: nat

    /** A new iterator is not positioned on any entry. */
    constructor (entries: seq<Entry>)
      ensures this.entries == entries && !Valid()
    {
      this.entries := entries;
      pos := |entries|;
    }

    predicate Valid()
      reads this
    {
      pos < |entries|
    }

    method SeekToFirst()
      modifies this
      ensures pos == 0
    {
      pos := 0;
    }

    method Next()
      requires Valid()
      modifies this
      ensures pos == old(pos) + 1
    {
      pos := pos + 1;
    }

    function Key(): Bytes
      reads this
      requires Valid()
    {
      entries[pos].key
    }

    function Value(): Bytes
      reads this
      requires Valid()
    {
      entries[pos].value
    }
  }

  /**
   * The inner loop of `FindKeysByField`: compares each field of a decoded
   * record with the query, name and value, and stops at the first match.
   */
  method RecordHoldsField(fields: FieldArray, query: Field) returns (found: bool)
    ensures found <==> query in fields
  {
    found := false;
    var j := 0;
    while j < |fields|
      invariant 0 <= j <= |fields|
      invariant forall m | 0 <= m < j :: fields[m] != query
    {
      var f := fields[j];
      if f.name == query.name && f.value == query.value {
        found := true;
        break;
      }
      j := j + 1;
    }
  }

  /**
   * `FindKeysByField`: the keys, in iteration order, of the entries whose
   * decoded record holds a field equal to `query` on both name and value.
   * `visited` records the key of every entry the iterator stops at, in order:
   * the scan stops at each entry of the store exactly once.
   */
  method FindKeysByField(store: seq<Entry>, query: Field) returns (keys: seq<Bytes>, ghost visited: seq<Bytes>)
    ensures keys == MatchingKeys(store, query)
    ensures visited == Keys(store)
  {
    keys := [];
    visited := [];
    var it := new StoreIterator(store);
    it.SeekToFirst();
    while it.Valid()
      invariant it.entries == store && it.pos <= |store|
      invariant keys == MatchingKeys(store[..it.pos], query)
      invariant visited == Keys(store[..it.pos])
      decreases |store| - it.pos
    {
      var key := it.Key();
      visited := visited + [key];
      var value := it.Value();
      var fields := ParseValue(value);
      var found := RecordHoldsField(fields, query);
      if found {
        keys := keys + [key];
      }
      MatchingKeysStep(store, query, it.pos, fields);
      KeysStep(store, it.pos);
      it.Next();
    }
    assert store[..|store|] == store;
  }
}
