/** Python dictionaries as the service builds them: insertion-ordered lists of
    (key, value) pairs. A dict comprehension `{k: v for k, v in rows}` stores the
    pairs one after another; storing a key that is already present replaces its
    value and keeps its original position. */
module PyDict {
  import opened Wrappers

  // Every dict the service builds is keyed by a string (a month label or a
  // company or province name), so keys are strings here.

  /** Whether `k` is a key of `d`. */
  predicate HasKey<V>(d: seq<(string, V)>, k: string)
  {
    exists i :: 0 <= i < |d| && d[i].0 == k
  }

  /** No key occurs twice: what a dict, or a GROUP BY result, always satisfies. */
  predicate UniqueKeys<V>(d: seq<(string, V)>)
  {
    forall i, j :: 0 <= i < j < |d| ==> d[i].0 != d[j].0
  }

  /** `d.get(k)`: the value stored under `k`, if any. */
  function Lookup<V>(d: seq<(string, V)>, k: string): (r: Option<V>)
    ensures r.Some? <==> HasKey(d, k)
  {
    if d == [] then None
    else if d[0].0 == k then Some(d[0].1)
    else Lookup(d[1..], k)
  }

  /** `d.get(k, default)`. */
  function GetOr<V>(d: seq<(string, V)>, k: string, default: V): (r: V)
    ensures HasKey(d, k) ==> Lookup(d, k) == Some(r)
    ensures !HasKey(d, k) ==> r == default
  {
    match Lookup(d, k)
    case Some(v) => v
    case None => default
  }

  /** `d.values()`, in insertion order. */
  function Values<V>(d: seq<(string, V)>): (vs: seq<V>)
    ensures |vs| == |d| && forall i :: 0 <= i < |d| ==> vs[i] == d[i].1
  {
    if d == [] then [] else [d[0].1] + Values(d[1..])
  }

  /** `d[k] = v`: overwrite in place when `k` is present, append otherwise. */
  function Store<V>(d: seq<(string, V)>, k: string, v: V): (r: seq<(string, V)>)
    ensures HasKey(d, k) ==> |r| == |d|
    ensures !HasKey(d, k) ==> r == d + [(k, v)]
    ensures forall k' :: HasKey(r, k') <==> HasKey(d, k') || k' == k
    ensures Lookup(r, k) == Some(v)
    ensures forall k' :: k' != k ==> Lookup(r, k') == Lookup(d, k')
    ensures UniqueKeys(d) ==> UniqueKeys(r)
  {
    if d == [] then
      HasKeyCons((k, v), d);
      assert [(k, v)] + d == [(k, v)];
      [(k, v)]
    else if d[0].0 == k then
      HasKeyCons(d[0], d[1..]);
      HasKeyCons((k, v), d[1..]);
      UniqueKeysCons(d[0], d[1..]);
      UniqueKeysCons((k, v), d[1..]);
      assert d == [d[0]] + d[1..];
      [(k, v)] + d[1..]
    else
      var rest := Store(d[1..], k, v);
      HasKeyCons(d[0], d[1..]);
      HasKeyCons(d[0], rest);
      UniqueKeysCons(d[0], d[1..]);
      UniqueKeysCons(d[0], rest);
      assert d == [d[0]] + d[1..];
      [d[0]] + rest
  }

  /** Storing a key that is already present overwrites its entry where it is:
      every position keeps its key, and only the key's own entry changes. */
  lemma {:induction false} StoreInPlace<V>(d: seq<(string, V)>, k: string, v: V)
    requires UniqueKeys(d) && HasKey(d, k)
    ensures |Store(d, k, v)| == |d|
    ensures forall i :: 0 <= i < |d| ==> Store(d, k, v)[i] == (if d[i].0 == k then (k, v) else d[i])
  {
    UniqueKeysCons(d[0], d[1..]);
    assert d == [d[0]] + d[1..];
    if d[0].0 == k {
      forall i | 0 < i < |d| ensures d[i].0 != k {
        assert d[0].0 != d[i].0;
      }
    } else {
      HasKeyCons(d[0], d[1..]);
      StoreInPlace(d[1..], k, v);
    }
  }

  /** The keys of a dict with one more pair in front. */
  lemma HasKeyCons<V>(x: (string, V), d: seq<(string, V)>)
    ensures forall k :: HasKey([x] + d, k) <==> x.0 == k || HasKey(d, k)
  {
    forall k | HasKey([x] + d, k) && x.0 != k ensures HasKey(d, k) {
      var i :| 0 <= i < |[x] + d| && ([x] + d)[i].0 == k;
      assert d[i - 1].0 == k;
    }
    forall k | HasKey(d, k) ensures HasKey([x] + d, k) {
      var i :| 0 <= i < |d| && d[i].0 == k;
      assert ([x] + d)[i + 1].0 == k;
    }
    assert ([x] + d)[0].0 == x.0;
  }

  /** A dict with one more pair in front has distinct keys exactly when the
      rest does and does not already hold the new key. */
  lemma UniqueKeysCons<V>(x: (string, V), d: seq<(string, V)>)
    ensures UniqueKeys([x] + d) <==> !HasKey(d, x.0) && UniqueKeys(d)
  {
    var e := [x] + d;
    if UniqueKeys(e) {
      forall i | 0 <= i < |d| ensures d[i].0 != x.0 {
        assert e[0].0 != e[i + 1].0;
      }
      forall i, j | 0 <= i < j < |d| ensures d[i].0 != d[j].0 {
        assert e[i + 1].0 != e[j + 1].0;
      }
    }
    if !HasKey(d, x.0) && UniqueKeys(d) {
      forall i, j | 0 <= i < j < |e| ensures e[i].0 != e[j].0 {
        if i > 0 {
          assert e[i] == d[i - 1] && e[j] == d[j - 1];
        } else {
          assert e[j] == d[j - 1];
        }
      }
    }
  }

  /** The dict comprehension `{k: v for k, v in ps}`. */
  function FromPairs<V>(ps: seq<(string, V)>): seq<(string, V)>
  {
    if ps == [] then []
    else
      var last := ps[|ps| - 1];
      Store(FromPairs(ps[..|ps| - 1]), last.0, last.1)
  }

  /** The comprehension over at least one pair is not empty. */
  lemma FromPairsNonEmpty<V>(ps: seq<(string, V)>)
    requires ps != []
    ensures FromPairs(ps) != []
  {
  }

  /** The value the last pair with key `k` carries: Python's "later entries win". */
  function LastValue<V>(ps: seq<(string, V)>, k: string): Option<V>
  {
    if ps == [] then None
    else if ps[|ps| - 1].0 == k then Some(ps[|ps| - 1].1)
    else LastValue(ps[..|ps| - 1], k)
  }

  /** Looking a key up in the comprehension's dict finds the value of the last
      pair that carried that key, and nothing for a key no pair carried. */
  lemma {:induction false} LookupFromPairs<V>(ps: seq<(string, V)>, k: string)
    ensures Lookup(FromPairs(ps), k) == LastValue(ps, k)
  {
    if ps != [] {
      LookupFromPairs(ps[..|ps| - 1], k);
    }
  }

  /** The comprehension's dict never holds a key twice. */
  lemma {:induction false} FromPairsUniqueKeys<V>(ps: seq<(string, V)>)
    ensures UniqueKeys(FromPairs(ps))
  {
    if ps != [] {
      FromPairsUniqueKeys(ps[..|ps| - 1]);
    }
  }

  /** When the pairs already have distinct keys (as the rows of a GROUP BY do),
      the comprehension keeps them exactly, in the same order. */
  lemma {:induction false} FromPairsOfUniqueKeys<V>(ps: seq<(string, V)>)
    requires UniqueKeys(ps)
    ensures FromPairs(ps) == ps
  {
    if ps != [] {
      var init := ps[..|ps| - 1];
      var last := ps[|ps| - 1];
      assert UniqueKeys(init);
      FromPairsOfUniqueKeys(init);
      forall i | 0 <= i < |init| ensures init[i].0 != last.0 {
        assert init[i] == ps[i];
      }
      assert init + [last] == ps;
    }
  }

  /** Every entry of `d` after `d[k] = v` is an entry it had before or the new pair. */
  lemma {:induction false} StoreEntries<V>(d: seq<(string, V)>, k: string, v: V)
    ensures forall e :: e in Store(d, k, v) ==> e in d || e == (k, v)
  {
    if d != [] {
      assert d == [d[0]] + d[1..];
      if d[0].0 != k {
        StoreEntries(d[1..], k, v);
      }
    }
  }

  /** Every entry of the comprehension's dict is one of the pairs it was built from. */
  lemma {:induction false} FromPairsEntries<V>(ps: seq<(string, V)>)
    ensures forall e :: e in FromPairs(ps) ==> e in ps
  {
    if ps != [] {
      var init, last := ps[..|ps| - 1], ps[|ps| - 1];
      FromPairsEntries(init);
      StoreEntries(FromPairs(init), last.0, last.1);
      assert ps == init + [last];
    }
  }

  /** In a dict with distinct keys, looking up the key of an entry finds that
      entry's value. */
  lemma {:induction false} LookupEntry<V>(d: seq<(string, V)>, i: nat)
    requires UniqueKeys(d) && i < |d|
    ensures Lookup(d, d[i].0) == Some(d[i].1)
  {
    if i > 0 {
      UniqueKeysCons(d[0], d[1..]);
      assert d == [d[0]] + d[1..];
      assert d[0].0 != d[i].0;
      LookupEntry(d[1..], i - 1);
    }
  }
}
