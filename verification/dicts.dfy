/** Python dictionaries with string keys, as insertion-ordered sequences of entries. */
module Dicts {
  import opened Wrappers

  type Dict<V> = seq<(string, V)>

  /** The keys in insertion order, as `list(d.keys())` gives them. */
  function Keys<V>(d: Dict<V>): seq<string>
  {
    seq(|d|, i requires 0 <= i < |d| => d[i].0)
  }

  predicate Distinct(s: seq<string>) {
    forall i, j :: 0 <= i < j < |s| ==> s[i] != s[j]
  }

  /** Every Python dictionary has distinct keys. */
  predicate DistinctKeys<V>(d: Dict<V>) {
    Distinct(Keys(d))
  }

  lemma KeysCons<V>(d: Dict<V>)
    requires |d| > 0
    ensures Keys(d) == [d[0].0] + Keys(d[1..])
  {
  }

  /** `d.get(k)`: the value stored under the first entry with key `k`, if any. */
  function Lookup<V>(d: Dict<V>, k: string): (r: Option<V>)
    ensures r.Some? <==> k in Keys(d)
  {
    if |d| == 0 then None
    else
      KeysCons(d);
      if d[0].0 == k then Some(d[0].1) else Lookup(d[1..], k)
  }

  /** In a dictionary with distinct keys each entry is what a lookup of its key finds. */
  lemma {:induction false} LookupEntry<V>(d: Dict<V>, i: nat)
    requires DistinctKeys(d) && i < |d|
    ensures Lookup(d, d[i].0) == Some(d[i].1)
  {
    if i > 0 {
      assert d[0].0 != d[i].0 by { assert Keys(d)[0] != Keys(d)[i]; }
      assert DistinctKeys(d[1..]) by {
        forall a, b | 0 <= a < b < |d| - 1 ensures Keys(d[1..])[a] != Keys(d[1..])[b] {
          assert Keys(d)[a + 1] != Keys(d)[b + 1];
        }
      }
      LookupEntry(d[1..], i - 1);
    }
  }

  /** `d[k] = v`: replace the value of an existing key in place, or append a new entry. */
  function Insert<V>(d: Dict<V>, k: string, v: V): Dict<V>
  {
    if |d| == 0 then [(k, v)]
    else if d[0].0 == k then [(k, v)] + d[1..]
    else [d[0]] + Insert(d[1..], k, v)
  }

  /** After `d[k] = v`, `k` finds `v` and every other key finds what it found before. */
  lemma {:induction false} InsertLookup<V>(d: Dict<V>, k: string, v: V, k': string)
    ensures Lookup(Insert(d, k, v), k') == if k' == k then Some(v) else Lookup(d, k')
  {
    if |d| > 0 && d[0].0 != k {
      var r := Insert(d, k, v);
      assert r[0] == d[0] && r[1..] == Insert(d[1..], k, v);
      InsertLookup(d[1..], k, v, k');
    }
  }

  /** `d[k] = v` keeps the key order when `k` is present and appends `(k, v)` otherwise. */
  lemma {:induction false} InsertKeys<V>(d: Dict<V>, k: string, v: V)
    ensures k in Keys(d) ==> Keys(Insert(d, k, v)) == Keys(d)
    ensures k !in Keys(d) ==> Insert(d, k, v) == d + [(k, v)]
  {
    if |d| > 0 {
      KeysCons(d);
      if d[0].0 != k {
        var r := Insert(d, k, v);
        assert r[0] == d[0] && r[1..] == Insert(d[1..], k, v);
        InsertKeys(d[1..], k, v);
        KeysCons(r);
      } else {
        KeysCons([(k, v)] + d[1..]);
      }
    }
  }

  /** Pairs each key with the value at the same position. */
  function Zip<V>(ks: seq<string>, vs: seq<V>): (d: Dict<V>)
    requires |ks| == |vs|
    ensures Keys(d) == ks
  {
    seq(|ks|, i requires 0 <= i < |ks| => (ks[i], vs[i]))
  }

  /** `dict(zip(ks, vs))`: entries are inserted left to right, so a repeated key keeps the
      position of its first occurrence and the value of its last. */
  function ZipDict<V>(ks: seq<string>, vs: seq<V>): (d: Dict<V>)
    requires |ks| == |vs|
    ensures DistinctKeys(d)
    ensures forall k :: k in Keys(d) <==> k in ks
    decreases |ks|
  {
    if |ks| == 0 then []
    else
      var n := |ks| - 1;
      var prev := ZipDict(ks[..n], vs[..n]);
      InsertKeys(prev, ks[n], vs[n]);
      assert ks == ks[..n] + [ks[n]];
      var d := Insert(prev, ks[n], vs[n]);
      assert ks[n] !in Keys(prev) ==> Keys(d) == Keys(prev) + [ks[n]];
      d
  }

  /** Each key of `dict(zip(ks, vs))` finds the value paired with its last occurrence. */
  lemma {:induction false} ZipDictLookup<V>(ks: seq<string>, vs: seq<V>, i: nat)
    requires |ks| == |vs| && i < |ks|
    requires forall j :: i < j < |ks| ==> ks[j] != ks[i]
    ensures Lookup(ZipDict(ks, vs), ks[i]) == Some(vs[i])
  {
    var n := |ks| - 1;
    InsertLookup(ZipDict(ks[..n], vs[..n]), ks[n], vs[n], ks[i]);
    if i < n {
      ZipDictLookup(ks[..n], vs[..n], i);
    }
  }

  /** The position of the first occurrence of `k` in `ks`. */
  function FirstIndex(ks: seq<string>, k: string): (i: nat)
    requires k in ks
    ensures i < |ks| && ks[i] == k
    ensures forall j :: 0 <= j < i ==> ks[j] != k
  {
    if ks[0] == k then 0 else 1 + FirstIndex(ks[1..], k)
  }

  /** Every element of `keys` occurs in `ks`, and `keys` lists them in the order of their
      first occurrence there. */
  predicate InFirstOccurrenceOrder(keys: seq<string>, ks: seq<string>) {
    && (forall i :: 0 <= i < |keys| ==> keys[i] in ks)
    && forall i, j :: 0 <= i < j < |keys| ==> FirstIndex(ks, keys[i]) < FirstIndex(ks, keys[j])
  }

  /** The keys of `dict(zip(ks, vs))` come in the order of their first occurrence in `ks`. */
  lemma {:induction false} ZipDictOrder<V>(ks: seq<string>, vs: seq<V>)
    requires |ks| == |vs|
    ensures InFirstOccurrenceOrder(Keys(ZipDict(ks, vs)), ks)
  {
    if |ks| > 0 {
      var n := |ks| - 1;
      var prev := ZipDict(ks[..n], vs[..n]);
      ZipDictOrder(ks[..n], vs[..n]);
      assert InFirstOccurrenceOrder(Keys(prev), ks[..n]);
      InsertKeys(prev, ks[n], vs[n]);
      assert ZipDict(ks, vs) == Insert(prev, ks[n], vs[n]);
      var pk := Keys(prev);
      var keys := Keys(ZipDict(ks, vs));
      assert |pk| <= |keys| && forall i :: 0 <= i < |pk| ==> keys[i] == pk[i];
      assert ks[n] in pk ==> keys == pk;
      assert ks[n] !in pk ==> keys == pk + [ks[n]] && FirstIndex(ks, ks[n]) == n;
      forall i, j | 0 <= i < j < |keys|
        ensures FirstIndex(ks, keys[i]) < FirstIndex(ks, keys[j])
      {
        FirstIndexPrefix(ks, n, pk[i]);
        if j < |pk| {
          FirstIndexPrefix(ks, n, pk[j]);
          assert FirstIndex(ks[..n], pk[i]) < FirstIndex(ks[..n], pk[j]);
        } else {
          assert keys[j] == ks[n] && FirstIndex(ks[..n], pk[i]) < n;
        }
      }
    }
  }

  /** A key that occurs in a prefix first occurs at the same position in the whole. */
  lemma FirstIndexPrefix(ks: seq<string>, n: nat, k: string)
    requires n <= |ks| && k in ks[..n]
    ensures FirstIndex(ks, k) == FirstIndex(ks[..n], k)
  {
    var g := FirstIndex(ks[..n], k);
    assert ks[g] == k;
  }

  /** With distinct keys, `dict(zip(ks, vs))` is exactly the positional pairing. */
  lemma {:induction false} ZipDictDistinct<V>(ks: seq<string>, vs: seq<V>)
    requires |ks| == |vs| && Distinct(ks)
    ensures ZipDict(ks, vs) == Zip(ks, vs)
  {
    if |ks| > 0 {
      var n := |ks| - 1;
      ZipDictDistinct(ks[..n], vs[..n]);
      assert ks[n] !in ks[..n];
      InsertKeys(ZipDict(ks[..n], vs[..n]), ks[n], vs[n]);
      assert Zip(ks, vs) == Zip(ks[..n], vs[..n]) + [(ks[n], vs[n])];
    }
  }

  /** Replaces every value by its image under `f`, keeping keys and their order. */
  function MapValues<V, W>(d: Dict<V>, f: V -> W): (r: Dict<W>)
    ensures Keys(r) == Keys(d)
    ensures forall i :: 0 <= i < |d| ==> r[i].1 == f(d[i].1)
  {
    seq(|d|, i requires 0 <= i < |d| => (d[i].0, f(d[i].1)))
  }

  /** Looking up a key after `MapValues` finds the image of what it found before. */
  lemma {:induction false} LookupMapValues<V, W>(d: Dict<V>, f: V -> W, k: string)
    ensures Lookup(MapValues(d, f), k).Some? <==> Lookup(d, k).Some?
    ensures Lookup(d, k).Some? ==> Lookup(MapValues(d, f), k) == Some(f(Lookup(d, k).value))
  {
    if |d| > 0 && d[0].0 != k {
      assert MapValues(d, f)[1..] == MapValues(d[1..], f);
      LookupMapValues(d[1..], f, k);
    }
  }
}
