/** `dedupeBlocks`: one block per signature, the first block seen with that
    signature, in the order the signatures first appear. The `LinkedHashMap`
    with `putIfAbsent` is modelled by its key insertion order and its table. */
module Dedupe {
  import opened Seqs
  import opened JavaText
  import opened BlockScanner
  import opened Signatures

  /** The keys of the elements of `s`. */
  function KeysOf<T, K(==)>(s: seq<T>, key: T -> K): (r: set<K>)
    ensures forall i :: 0 <= i < |s| ==> key(s[i]) in r
    ensures forall k :: k in r ==> exists i :: 0 <= i < |s| && key(s[i]) == k
    decreases |s|
  {
    if s == [] then {} else KeysOf(DropLast(s), key) + {key(Last(s))}
  }

  /** No two elements share a key. */
  predicate DistinctKeys<T, K(==)>(s: seq<T>, key: T -> K)
  {
    forall i, j :: 0 <= i < j < |s| ==> key(s[i]) != key(s[j])
  }

  /** Reference definition: each element whose key has not been seen earlier
      in `s`, in order. */
  function FirstPerKey<T, K(==)>(s: seq<T>, key: T -> K): seq<T>
    decreases |s|
  {
    if s == [] then []
    else if key(Last(s)) in KeysOf(DropLast(s), key) then FirstPerKey(DropLast(s), key)
    else FirstPerKey(DropLast(s), key) + [Last(s)]
  }

  /** The position of the earliest element of `s` with key `k`. */
  function FirstIndex<T, K(==)>(s: seq<T>, key: T -> K, k: K): (idx: nat)
    requires k in KeysOf(s, key)
    ensures idx < |s| && key(s[idx]) == k
    ensures forall m :: 0 <= m < idx ==> key(s[m]) != k
    decreases |s|
  {
    if k in KeysOf(DropLast(s), key) then FirstIndex(DropLast(s), key, k) else |s| - 1
  }

  /** Deduplication keeps every key that occurs. */
  lemma {:induction false} FirstPerKeyKeys<T, K>(s: seq<T>, key: T -> K)
    ensures KeysOf(FirstPerKey(s, key), key) == KeysOf(s, key)
    decreases |s|
  {
    if s != [] {
      var d := FirstPerKey(DropLast(s), key);
      FirstPerKeyKeys(DropLast(s), key);
      if key(Last(s)) !in KeysOf(DropLast(s), key) {
        assert DropLast(d + [Last(s)]) == d && Last(d + [Last(s)]) == Last(s);
      }
    }
  }

  /** Deduplication leaves no two elements with the same key. */
  lemma {:induction false} FirstPerKeyDistinct<T, K>(s: seq<T>, key: T -> K)
    ensures DistinctKeys(FirstPerKey(s, key), key)
    decreases |s|
  {
    if s != [] {
      var d := FirstPerKey(DropLast(s), key);
      FirstPerKeyDistinct(DropLast(s), key);
      FirstPerKeyKeys(DropLast(s), key);
      if key(Last(s)) !in KeysOf(DropLast(s), key) {
        var r := d + [Last(s)];
        forall i, j | 0 <= i < j < |r|
          ensures key(r[i]) != key(r[j])
        {
          if j == |d| {
            assert key(d[i]) in KeysOf(d, key);
          } else {
            assert r[i] == d[i] && r[j] == d[j];
          }
        }
      }
    }
  }

  /** The kept elements appear in `s`, in the same order. */
  lemma {:induction false} FirstPerKeySubseq<T, K>(s: seq<T>, key: T -> K)
    ensures IsSubseq(FirstPerKey(s, key), s)
    ensures |FirstPerKey(s, key)| <= |s|
    decreases |s|
  {
    if s != [] {
      var d := FirstPerKey(DropLast(s), key);
      FirstPerKeySubseq(DropLast(s), key);
      assert DropLast(s) + [Last(s)] == s;
      if key(Last(s)) in KeysOf(DropLast(s), key) {
        SubseqExtend(d, DropLast(s), Last(s));
      } else {
        SubseqAppendBoth(d, DropLast(s), Last(s));
      }
    }
    SubseqBounds(FirstPerKey(s, key), s);
  }

  /** The element kept for a key is the earliest element with that key. */
  lemma {:induction false} FirstPerKeyEarliest<T, K>(s: seq<T>, key: T -> K)
    ensures forall j :: 0 <= j < |FirstPerKey(s, key)| ==>
              key(FirstPerKey(s, key)[j]) in KeysOf(s, key) &&
              FirstPerKey(s, key)[j] == s[FirstIndex(s, key, key(FirstPerKey(s, key)[j]))]
    decreases |s|
  {
    if s != [] {
      var p := DropLast(s);
      var d := FirstPerKey(p, key);
      var r := FirstPerKey(s, key);
      FirstPerKeyEarliest(p, key);
      FirstPerKeyKeys(p, key);
      forall j | 0 <= j < |r|
        ensures key(r[j]) in KeysOf(s, key) && r[j] == s[FirstIndex(s, key, key(r[j]))]
      {
        if j < |d| {
          assert r[j] == d[j];
          assert key(d[j]) in KeysOf(d, key);
          assert FirstIndex(s, key, key(d[j])) == FirstIndex(p, key, key(d[j]));
          assert p[FirstIndex(p, key, key(d[j]))] == s[FirstIndex(p, key, key(d[j]))];
        } else {
          assert r[j] == Last(s);
        }
      }
    }
  }

  /** Every property all elements share survives deduplication. */
  lemma {:induction false} FirstPerKeyKeeps<T, K>(s: seq<T>, key: T -> K, shared: T -> bool)
    requires forall i :: 0 <= i < |s| ==> shared(s[i])
    ensures forall i :: 0 <= i < |FirstPerKey(s, key)| ==> shared(FirstPerKey(s, key)[i])
    decreases |s|
  {
    if s != [] {
      FirstPerKeyKeeps(DropLast(s), key, shared);
    }
  }

  /** Filtering and then deduplicating groups drawn from `window` leaves
      distinct-keyed, accepted, non-empty groups whose elements all come from
      `window`, and so have every property its elements share. */
  lemma DedupedFilterWithin<T, K>(groups: seq<seq<T>>, p: seq<T> -> bool, key: seq<T> -> K,
                                  window: seq<T>, lines: seq<T>, q: T -> bool)
    requires forall i :: 0 <= i < |window| ==> window[i] in lines && q(window[i])
    requires forall k :: 0 <= k < |groups| ==> groups[k] != [] && IsSubseq(groups[k], window)
    ensures DistinctKeys(FirstPerKey(Filter(groups, p), key), key)
    ensures forall k :: 0 <= k < |FirstPerKey(Filter(groups, p), key)| ==>
              var g := FirstPerKey(Filter(groups, p), key)[k];
              g != [] && p(g) && forall j :: 0 <= j < |g| ==> g[j] in lines && q(g[j])
  {
    var drawn := g => g != [] && IsSubseq(g, window);
    var kept := g => drawn(g) && p(g);
    FilterKeeps(groups, p, drawn);
    FirstPerKeyKeeps(Filter(groups, p), key, kept);
    FirstPerKeyDistinct(Filter(groups, p), key);
    var s := FirstPerKey(Filter(groups, p), key);
    forall k | 0 <= k < |s|
      ensures s[k] != [] && p(s[k]) && forall j :: 0 <= j < |s[k]| ==> s[k][j] in lines && q(s[k][j])
    {
      assert kept(s[k]);
      ElementsFromWindow(s[k], window, lines, q);
    }
  }

  lemma ElementsFromWindow<T>(g: seq<T>, window: seq<T>, lines: seq<T>, q: T -> bool)
    requires IsSubseq(g, window)
    requires forall i :: 0 <= i < |window| ==> window[i] in lines && q(window[i])
    ensures forall j :: 0 <= j < |g| ==> g[j] in lines && q(g[j])
  {
    SubseqBounds(g, window);
    forall j | 0 <= j < |g|
      ensures g[j] in lines && q(g[j])
    {
      var i :| 0 <= i < |window| && window[i] == g[j];
    }
  }

  /** A sequence whose keys are already distinct is returned unchanged. */
  lemma {:induction false} FirstPerKeyOfDistinct<T, K>(s: seq<T>, key: T -> K)
    requires DistinctKeys(s, key)
    ensures FirstPerKey(s, key) == s
    decreases |s|
  {
    if s != [] {
      var p := DropLast(s);
      assert DistinctKeys(p, key) by {
        forall i, j | 0 <= i < j < |p| ensures key(p[i]) != key(p[j]) {
          assert p[i] == s[i] && p[j] == s[j];
        }
      }
      FirstPerKeyOfDistinct(p, key);
      assert key(Last(s)) !in KeysOf(p, key);
      assert p + [Last(s)] == s;
    }
  }

  /** Deduplicating twice is deduplicating once. */
  lemma FirstPerKeyIdempotent<T, K>(s: seq<T>, key: T -> K)
    ensures FirstPerKey(FirstPerKey(s, key), key) == FirstPerKey(s, key)
  {
    FirstPerKeyDistinct(s, key);
    FirstPerKeyOfDistinct(FirstPerKey(s, key), key);
  }

  /** What one more element does to the deduplicated prefix and its keys. */
  lemma PrefixDedupeStep<T, K>(s: seq<T>, key: T -> K, i: nat)
    requires i < |s|
    ensures KeysOf(s[..i + 1], key) == KeysOf(s[..i], key) + {key(s[i])}
    ensures key(s[i]) in KeysOf(s[..i], key) ==> FirstPerKey(s[..i + 1], key) == FirstPerKey(s[..i], key)
    ensures key(s[i]) !in KeysOf(s[..i], key) ==> FirstPerKey(s[..i + 1], key) == FirstPerKey(s[..i], key) + [s[i]]
  {
    PrefixStep(s, i);
  }

  /** `order` lists the keys of `table` in insertion order, the `j`-th key is
      the key of `kept[j]`, and the entry under it is `kept[j]`. */
  ghost predicate TableHolds<K, V>(order: seq<K>, table: map<K, V>, kept: seq<V>, key: V -> K)
  {
    && |order| == |kept|
    && forall j :: 0 <= j < |order| ==> order[j] == key(kept[j]) && order[j] in table && table[order[j]] == kept[j]
  }

  /** The map after the first `i` elements of `s` have been put with
      `putIfAbsent`: its keys are the keys seen so far, in the order first
      seen, and each maps to the first element with that key. */
  ghost predicate PutIfAbsentAfter<T, K>(s: seq<T>, key: T -> K, i: nat, order: seq<K>, table: map<K, T>)
    requires i <= |s|
  {
    TableHolds(order, table, FirstPerKey(s[..i], key), key) && table.Keys == KeysOf(s[..i], key)
  }

  /** `putIfAbsent(key(s[i]), s[i])` keeps the map in step with the prefix. */
  lemma PutIfAbsentStep<T, K>(s: seq<T>, key: T -> K, i: nat, order: seq<K>, table: map<K, T>)
    requires i < |s| && PutIfAbsentAfter(s, key, i, order, table)
    ensures key(s[i]) in table ==> PutIfAbsentAfter(s, key, i + 1, order, table)
    ensures key(s[i]) !in table ==> PutIfAbsentAfter(s, key, i + 1, order + [key(s[i])], table[key(s[i]) := s[i]])
  {
    PrefixDedupeStep(s, key, i);
    if key(s[i]) !in table {
      TableInsert(order, table, FirstPerKey(s[..i], key), key, key(s[i]), s[i]);
    }
  }

  /** Once every element has been put, the values in key order are the
      deduplicated sequence. */
  lemma PutIfAbsentDone<T, K>(s: seq<T>, key: T -> K, order: seq<K>, table: map<K, T>)
    requires PutIfAbsentAfter(s, key, |s|, order, table)
    ensures forall j :: 0 <= j < |order| ==> order[j] in table
    ensures Values(order, table) == FirstPerKey(s, key)
  {
    assert s[..|s|] == s;
  }

  /** `putIfAbsent` of a new key appends it to the insertion order. */
  lemma TableInsert<K, V>(order: seq<K>, table: map<K, V>, kept: seq<V>, key: V -> K, k: K, v: V)
    requires TableHolds(order, table, kept, key) && k !in table && key(v) == k
    ensures TableHolds(order + [k], table[k := v], kept + [v], key)
  {
    var order', table', kept' := order + [k], table[k := v], kept + [v];
    forall j | 0 <= j < |order'|
      ensures order'[j] == key(kept'[j]) && order'[j] in table' && table'[order'[j]] == kept'[j]
    {
      if j < |order| {
        assert order'[j] == order[j] && kept'[j] == kept[j] && order[j] in table && order[j] != k;
      }
    }
  }

  /** `map.values()` of a `LinkedHashMap`: the entries in key insertion order. */
  function Values<K, V>(order: seq<K>, table: map<K, V>): (r: seq<V>)
    requires forall j :: 0 <= j < |order| ==> order[j] in table
    ensures |r| == |order|
    ensures forall j :: 0 <= j < |order| ==> r[j] == table[order[j]]
  {
    seq(|order|, j requires 0 <= j < |order| => table[order[j]])
  }

  /** Lines 71-78. `order` holds the map's keys in insertion order and `table`
      its entries; `putIfAbsent` stores a block only under a new signature. */
  method DedupeBlocks(lib: Library, blocks: seq<Block>) returns (r: seq<Block>)
    ensures r == FirstPerKey(blocks, SignatureKey(lib))
    ensures DistinctKeys(r, SignatureKey(lib))
    ensures KeysOf(r, SignatureKey(lib)) == KeysOf(blocks, SignatureKey(lib))
    ensures IsSubseq(r, blocks)
  {
    var order: seq<string> := [];
    var table: map<string, Block> := map[];
    for i := 0 to |blocks|
      invariant PutIfAbsentAfter(blocks, SignatureKey(lib), i, order, table)
    {
      PutIfAbsentStep(blocks, SignatureKey(lib), i, order, table);
      var b := blocks[i];
      var key := SignatureOf(lib, b);
      assert key == SignatureKey(lib)(b);
      if key !in table {
        table := table[key := b];
        order := order + [key];
      }
    }
    PutIfAbsentDone(blocks, SignatureKey(lib), order, table);
    r := Values(order, table);
    FirstPerKeyDistinct(blocks, SignatureKey(lib));
    FirstPerKeyKeys(blocks, SignatureKey(lib));
    FirstPerKeySubseq(blocks, SignatureKey(lib));
  }
}
