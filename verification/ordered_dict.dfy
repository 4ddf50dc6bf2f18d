/** Python's insertion-ordered `dict`, as the flattener uses it: a sequence of
    (key, value) entries. Assigning to an existing key replaces its value in
    place; assigning to a new key appends it. `dict.update(other)` assigns the
    entries of `other` one by one, in `other`'s order.

    The reference notions at the end, `Dedup` (keys in order of first
    occurrence) and `LastValue` (the value of the last entry with a key), say
    what a dictionary built by successive assignments contains, without
    mentioning how it was built. */
module OrderedDict {
  import opened Wrappers

  function Keys<V>(m: seq<(string, V)>): seq<string>
  {
    seq(|m|, i requires 0 <= i < |m| => m[i].0)
  }

  function Values<V>(m: seq<(string, V)>): seq<V>
  {
    seq(|m|, i requires 0 <= i < |m| => m[i].1)
  }

  predicate Distinct(ks: seq<string>)
  {
    forall i, j :: 0 <= i < j < |ks| ==> ks[i] != ks[j]
  }

  /** `d.get(k)`: the value stored under `k`, if any. */
  function Lookup<V>(m: seq<(string, V)>, k: string): (r: Option<V>)
    ensures r.Some? <==> k in Keys(m)
    ensures r.Some? ==> (k, r.value) in m
  {
    if |m| == 0 then None
    else if m[0].0 == k then
      assert Keys(m)[0] == k;
      Some(m[0].1)
    else
      assert Keys(m) == [m[0].0] + Keys(m[1..]);
      Lookup(m[1..], k)
  }

  /** `d[k] = v`. */
  function Insert<V>(m: seq<(string, V)>, k: string, v: V): seq<(string, V)>
  {
    if |m| == 0 then [(k, v)]
    else if m[0].0 == k then [(k, v)] + m[1..]
    else [m[0]] + Insert(m[1..], k, v)
  }

  /** `d.update(other)`: the entries of `other` assigned in order. */
  function Update<V>(m: seq<(string, V)>, other: seq<(string, V)>): seq<(string, V)>
    decreases |other|
  {
    if |other| == 0 then m
    else
      var last := other[|other| - 1];
      Insert(Update(m, other[..|other| - 1]), last.0, last.1)
  }

  /** `d[k] = v` keeps every key in place; a new key goes to the end. Every
      entry afterwards was there before or is the assigned one. */
  lemma {:induction false} InsertShape<V>(m: seq<(string, V)>, k: string, v: V)
    ensures Keys(Insert(m, k, v)) == if k in Keys(m) then Keys(m) else Keys(m) + [k]
    ensures forall e :: e in Insert(m, k, v) ==> e in m || e == (k, v)
  {
    if |m| > 0 {
      assert Keys(m) == [m[0].0] + Keys(m[1..]);
      if m[0].0 == k {
        assert Keys([(k, v)] + m[1..]) == Keys(m);
      } else {
        var rest := Insert(m[1..], k, v);
        InsertShape(m[1..], k, v);
        assert Keys([m[0]] + rest) == [m[0].0] + Keys(rest);
      }
    }
  }

  /** `d.update(other)` never removes or moves a key of `d`, never repeats a
      key, and every entry afterwards comes from `d` or from `other`. */
  lemma {:induction false} UpdateShape<V>(m: seq<(string, V)>, other: seq<(string, V)>)
    ensures Keys(m) <= Keys(Update(m, other))
    ensures forall e :: e in Update(m, other) ==> e in m || e in other
    ensures Distinct(Keys(m)) ==> Distinct(Keys(Update(m, other)))
    decreases |other|
  {
    if |other| > 0 {
      var init := other[..|other| - 1];
      var last := other[|other| - 1];
      UpdateShape(m, init);
      InsertShape(Update(m, init), last.0, last.1);
    }
  }

  /** After `d[k] = v`, `k` finds `v` and every other key finds what it found before. */
  lemma {:induction false} InsertLookup<V>(m: seq<(string, V)>, k: string, v: V, k': string)
    ensures Lookup(Insert(m, k, v), k') == if k' == k then Some(v) else Lookup(m, k')
  {
    if |m| > 0 && m[0].0 != k {
      InsertLookup(m[1..], k, v, k');
    }
  }

  /** After `d.update(other)`, a key of `other` finds the value of its last
      entry there; any other key finds what it found before. */
  lemma {:induction false} UpdateLookup<V>(m: seq<(string, V)>, other: seq<(string, V)>, k: string)
    ensures Lookup(Update(m, other), k) == if LastValue(other, k).Some? then LastValue(other, k) else Lookup(m, k)
    decreases |other|
  {
    if |other| > 0 {
      var last := other[|other| - 1];
      UpdateLookup(m, other[..|other| - 1], k);
      InsertLookup(Update(m, other[..|other| - 1]), last.0, last.1, k);
    }
  }

  /** The keys of `ks` in order of first occurrence. */
  function Dedup(ks: seq<string>): (r: seq<string>)
    ensures forall x :: x in r <==> x in ks
    ensures Distinct(r)
    ensures |r| <= |ks|
  {
    if |ks| == 0 then []
    else
      var init := ks[..|ks| - 1];
      var x := ks[|ks| - 1];
      if x in init then Dedup(init) else Dedup(init) + [x]
  }

  /** The value of the last entry of `xs` whose key is `k`. */
  function LastValue<V>(xs: seq<(string, V)>, k: string): (r: Option<V>)
    ensures r.Some? <==> k in Keys(xs)
    ensures r.Some? ==> (k, r.value) in xs
  {
    if |xs| == 0 then None
    else if xs[|xs| - 1].0 == k then
      assert Keys(xs)[|xs| - 1] == k;
      Some(xs[|xs| - 1].1)
    else
      assert Keys(xs) == Keys(xs[..|xs| - 1]) + [xs[|xs| - 1].0];
      LastValue(xs[..|xs| - 1], k)
  }

  lemma KeysAppend<V>(a: seq<(string, V)>, b: seq<(string, V)>)
    ensures Keys(a + b) == Keys(a) + Keys(b)
  {
  }

  lemma KeysSnoc<V>(xs: seq<(string, V)>)
    requires |xs| > 0
    ensures Keys(xs) == Keys(xs[..|xs| - 1]) + [xs[|xs| - 1].0]
  {
  }

  lemma KeysSlice<V>(m: seq<(string, V)>, lo: nat, hi: nat)
    requires lo <= hi <= |m|
    ensures Keys(m[lo..hi]) == Keys(m)[lo..hi]
  {
  }

  lemma DistinctSlice(ks: seq<string>, lo: nat, hi: nat)
    requires Distinct(ks)
    requires lo <= hi <= |ks|
    ensures Distinct(ks[lo..hi])
  {
    forall i, j | 0 <= i < j < hi - lo
      ensures ks[lo..hi][i] != ks[lo..hi][j]
    {
      assert ks[lo..hi][i] == ks[lo + i];
      assert ks[lo..hi][j] == ks[lo + j];
    }
  }

  /** In a dictionary without repeated keys, each entry is what a lookup of its key finds. */
  lemma {:induction false} LookupAt<V>(m: seq<(string, V)>, i: nat)
    requires Distinct(Keys(m))
    requires i < |m|
    ensures Lookup(m, m[i].0) == Some(m[i].1)
  {
    if i > 0 {
      var tail := m[1..|m|];
      assert Keys(m)[0] != Keys(m)[i];
      KeysSlice(m, 1, |m|);
      DistinctSlice(Keys(m), 1, |m|);
      assert Distinct(Keys(tail));
      assert m[1..] == tail;
      assert tail[i - 1] == m[i];
      LookupAt(tail, i - 1);
    }
  }

  /** Without repeated keys, the last entry for a key is its only entry. */
  lemma {:induction false} LastValueOfDistinct<V>(xs: seq<(string, V)>, k: string)
    requires Distinct(Keys(xs))
    ensures LastValue(xs, k) == Lookup(xs, k)
  {
    var r := LastValue(xs, k);
    if r.Some? {
      var i :| 0 <= i < |xs| && xs[i] == (k, r.value);
      assert Keys(xs)[i] == k;
      LookupAt(xs, i);
    }
  }

  /** The last entry for `k` in `a + b` is in `b` when `b` has one. */
  lemma {:induction false} LastValueAppend<V>(a: seq<(string, V)>, b: seq<(string, V)>, k: string)
    ensures LastValue(a + b, k) == if LastValue(b, k).Some? then LastValue(b, k) else LastValue(a, k)
    decreases |b|
  {
    if |b| == 0 {
      assert a + b == a;
    } else {
      var ab := a + b;
      assert ab[..|ab| - 1] == a + b[..|b| - 1];
      assert ab[|ab| - 1] == b[|b| - 1];
      LastValueAppend(a, b[..|b| - 1], k);
    }
  }

  /** A key list without repeats is its own first-occurrence list. */
  lemma {:induction false} DedupOfDistinct(ks: seq<string>)
    requires Distinct(ks)
    ensures Dedup(ks) == ks
  {
    if |ks| > 0 {
      var init := ks[..|ks| - 1];
      assert ks[|ks| - 1] !in init by {
        forall j | 0 <= j < |init|
          ensures init[j] != ks[|ks| - 1]
        {
          assert ks[j] != ks[|ks| - 1];
        }
      }
      DedupOfDistinct(init);
      assert init + [ks[|ks| - 1]] == ks;
    }
  }

  lemma DedupSnoc(ks: seq<string>, x: string)
    ensures Dedup(ks + [x]) == if x in ks then Dedup(ks) else Dedup(ks) + [x]
  {
    assert (ks + [x])[..|ks|] == ks;
  }

  /** Removing repeats from a prefix first changes nothing. */
  lemma {:induction false} DedupOfDedupPrefix(a: seq<string>, b: seq<string>)
    ensures Dedup(Dedup(a) + b) == Dedup(a + b)
    decreases |b|
  {
    if |b| == 0 {
      assert Dedup(a) + b == Dedup(a);
      assert a + b == a;
      DedupOfDistinct(Dedup(a));
    } else {
      var b' := b[..|b| - 1];
      var y := b[|b| - 1];
      assert (Dedup(a) + b)[..|Dedup(a) + b| - 1] == Dedup(a) + b';
      assert (a + b)[..|a + b| - 1] == a + b';
      assert (y in Dedup(a) + b') <==> (y in a + b');
      DedupOfDedupPrefix(a, b');
    }
  }

  /** Removing repeats from a suffix first changes nothing. */
  lemma {:induction false} DedupOfDedupSuffix(a: seq<string>, b: seq<string>)
    ensures Dedup(a + Dedup(b)) == Dedup(a + b)
    decreases |b|
  {
    if |b| == 0 {
      assert a + Dedup(b) == a + b;
    } else {
      var b' := b[..|b| - 1];
      var y := b[|b| - 1];
      assert b == b' + [y];
      assert a + b == (a + b') + [y];
      DedupOfDedupSuffix(a, b');
      DedupSnoc(b', y);
      DedupSnoc(a + b', y);
      if y !in b' {
        DedupSuffixNewKey(a, b', y);
      }
    }
  }

  lemma DedupSuffixNewKey(a: seq<string>, b': seq<string>, y: string)
    requires y !in b'
    requires Dedup(a + Dedup(b')) == Dedup(a + b')
    ensures Dedup(a + Dedup(b' + [y])) == Dedup(a + b' + [y])
  {
    DedupSnoc(b', y);
    DedupSnoc(a + b', y);
    assert a + Dedup(b' + [y]) == (a + Dedup(b')) + [y];
    DedupSnoc(a + Dedup(b'), y);
    assert (y in a + Dedup(b')) <==> (y in a + b');
  }

  /** Removing repeats from both halves first changes nothing. */
  lemma DedupOfDedupBoth(a: seq<string>, b: seq<string>)
    ensures Dedup(Dedup(a) + Dedup(b)) == Dedup(a + b)
  {
    DedupOfDedupPrefix(a, Dedup(b));
    DedupOfDedupSuffix(a, b);
  }

  /** `d.update(other)` keeps the keys of `d` in place and appends the new keys
      of `other` in order of their first occurrence. */
  lemma {:induction false} UpdateKeys<V>(m: seq<(string, V)>, other: seq<(string, V)>)
    requires Distinct(Keys(m))
    ensures Keys(Update(m, other)) == Dedup(Keys(m) + Keys(other))
    decreases |other|
  {
    if |other| == 0 {
      assert Keys(m) + Keys(other) == Keys(m);
      DedupOfDistinct(Keys(m));
    } else {
      var init := other[..|other| - 1];
      var x := other[|other| - 1];
      var prev := Update(m, init);
      assert Update(m, other) == Insert(prev, x.0, x.1);
      InsertShape(prev, x.0, x.1);
      UpdateKeys(m, init);
      var before := Keys(m) + Keys(init);
      assert Keys(prev) == Dedup(before);
      KeysSnoc(other);
      var all := Keys(m) + Keys(other);
      assert all == before + [x.0];
      DedupSnoc(before, x.0);
      assert x.0 in Keys(prev) <==> x.0 in before;
    }
  }

  /** Two dictionaries with the same keys in the same order and the same
      lookups are the same dictionary. */
  lemma Extensionality<V>(a: seq<(string, V)>, b: seq<(string, V)>)
    requires Distinct(Keys(a))
    requires Keys(a) == Keys(b)
    requires forall k :: Lookup(a, k) == Lookup(b, k)
    ensures a == b
  {
    assert |a| == |Keys(a)| == |b|;
    forall i | 0 <= i < |a|
      ensures a[i] == b[i]
    {
      assert Keys(a)[i] == Keys(b)[i];
      LookupAt(a, i);
      LookupAt(b, i);
    }
  }

  /** `dict(pairs)`: the keys in order of first occurrence, each with the value
      of its last pair. */
  lemma DictOfPairs<V>(xs: seq<(string, V)>)
    ensures Keys(Dict(xs)) == Dedup(Keys(xs))
    ensures forall k :: Lookup(Dict(xs), k) == LastValue(xs, k)
    ensures Distinct(Keys(Dict(xs)))
  {
    var e: seq<(string, V)> := [];
    UpdateKeys(e, xs);
    UpdateShape(e, xs);
    assert Keys(e) + Keys(xs) == Keys(xs);
    forall k
      ensures Lookup(Dict(xs), k) == LastValue(xs, k)
    {
      UpdateLookup(e, xs, k);
    }
  }

  /** `dict(pairs)`. */
  function Dict<V>(xs: seq<(string, V)>): seq<(string, V)>
  {
    Update([], xs)
  }

  /** `d = dict(a); d.update(dict(b))` builds `dict(a + b)`. */
  lemma DictAppend<V>(a: seq<(string, V)>, b: seq<(string, V)>)
    ensures Update(Dict(a), Dict(b)) == Dict(a + b)
  {
    var da, db, dab := Dict(a), Dict(b), Dict(a + b);
    DictOfPairs(a);
    DictOfPairs(b);
    DictOfPairs(a + b);
    UpdateKeys(da, db);
    KeysAppend(a, b);
    DedupOfDedupBoth(Keys(a), Keys(b));
    forall k
      ensures Lookup(Update(da, db), k) == Lookup(dab, k)
    {
      UpdateLookup(da, db, k);
      LastValueOfDistinct(db, k);
      LastValueAppend(a, b, k);
    }
    Extensionality(Update(da, db), dab);
  }

  lemma DictSingleton<V>(k: string, v: V)
    ensures Dict([(k, v)]) == [(k, v)]
  {
    var one := [(k, v)];
    assert one[..0] == [];
    assert Update([], one) == Insert(Update([], []), k, v);
  }

  /** Only a key list without repeats keeps its length when repeats are removed. */
  lemma {:induction false} DedupKeepsLengthOnlyIfDistinct(ks: seq<string>)
    ensures |Dedup(ks)| == |ks| <==> Distinct(ks)
  {
    if Distinct(ks) {
      DedupOfDistinct(ks);
    } else if |ks| > 0 {
      var init := ks[..|ks| - 1];
      var x := ks[|ks| - 1];
      DedupKeepsLengthOnlyIfDistinct(init);
      if x !in init && Distinct(init) {
        forall i, j | 0 <= i < j < |ks|
          ensures ks[i] != ks[j]
        {
          if j < |ks| - 1 {
            assert ks[i] == init[i] && ks[j] == init[j];
          } else {
            assert ks[i] == init[i];
          }
        }
        assert false;
      }
    }
  }
}
