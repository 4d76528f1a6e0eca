/** JavaScript's `Map` as an insertion-ordered association list: `set` on a present key replaces the
    value where the key stands, `set` on a new key appends it, and iteration follows that order. */
module OrderedMap {
  import opened Wrappers
  import opened Seqs

  type Entries<K, V> = seq<(K, V)>

  /** The keys in iteration order. */
  function Keys<K(==,!new), V(==,!new)>(m: Entries<K, V>): (r: seq<K>)
    ensures |r| == |m|
    ensures forall i :: 0 <= i < |m| ==> r[i] == m[i].0
  {
    if |m| == 0 then [] else [m[0].0] + Keys(m[1..])
  }

  /** The keys of a concatenation. */
  lemma {:induction false} KeysAppend<K(!new), V(!new)>(a: Entries<K, V>, b: Entries<K, V>)
    ensures Keys(a + b) == Keys(a) + Keys(b)
  {
    if |a| > 0 {
      assert (a + b)[1..] == a[1..] + b;
      KeysAppend(a[1..], b);
    } else {
      assert a + b == b;
    }
  }

  /** A key occurs among the keys exactly when some pair carries it. */
  lemma KeysMember<K(!new), V(!new)>(ps: Entries<K, V>, k: K)
    ensures k in Keys(ps) <==> exists v :: (k, v) in ps
  {
    if k in Keys(ps) {
      var i :| 0 <= i < |ps| && Keys(ps)[i] == k;
      assert ps[i] == (k, ps[i].1);
    }
    if exists v :: (k, v) in ps {
      var v :| (k, v) in ps;
      var i :| 0 <= i < |ps| && ps[i] == (k, v);
      assert Keys(ps)[i] == k;
    }
  }

  /** A map never holds a key twice. */
  predicate Valid<K(==,!new), V(==,!new)>(m: Entries<K, V>)
  {
    Distinct(Keys(m))
  }

  /** Dropping the first entry of a map leaves a map that no longer holds its key. */
  lemma ValidTail<K(!new), V(!new)>(m: Entries<K, V>)
    requires Valid(m) && |m| > 0
    ensures Valid(m[1..]) && m[0].0 !in Keys(m[1..])
  {
    assert Keys(m[1..]) == Keys(m)[1..];
  }

  /** `Map.prototype.get`: the value stored under `k`, if any. */
  function Lookup<K(==,!new), V(==,!new)>(m: Entries<K, V>, k: K): (r: Option<V>)
    ensures r.Some? <==> k in Keys(m)
    ensures r.Some? ==> (k, r.value) in m
  {
    if |m| == 0 then None
    else if m[0].0 == k then Some(m[0].1)
    else
      assert Keys(m)[1..] == Keys(m[1..]);
      Lookup(m[1..], k)
  }

  /** `Map.prototype.set`. */
  function Set<K(==,!new), V(==,!new)>(m: Entries<K, V>, k: K, v: V): (r: Entries<K, V>)
    ensures Keys(r) == if k in Keys(m) then Keys(m) else Keys(m) + [k]
    ensures Lookup(r, k) == Some(v)
    ensures forall k' :: k' != k ==> Lookup(r, k') == Lookup(m, k')
  {
    if |m| == 0 then [(k, v)]
    else if m[0].0 == k then
      SetHead(m, k, v);
      [(k, v)] + m[1..]
    else
      var rest := Set(m[1..], k, v);
      ConsSet(m, rest, k, v);
      [m[0]] + rest
  }

  /** Keys and lookups of a map with one entry put in front. */
  lemma ConsLookups<K(!new), V(!new)>(x: (K, V), rest: Entries<K, V>)
    ensures Keys([x] + rest) == [x.0] + Keys(rest)
    ensures forall k :: Lookup([x] + rest, k) == if x.0 == k then Some(x.1) else Lookup(rest, k)
  {
    assert ([x] + rest)[1..] == rest;
  }

  /** Replacing the value of the first entry. */
  lemma SetHead<K(!new), V(!new)>(m: Entries<K, V>, k: K, v: V)
    requires |m| > 0 && m[0].0 == k
    ensures Keys([(k, v)] + m[1..]) == Keys(m)
    ensures Lookup([(k, v)] + m[1..], k) == Some(v)
    ensures forall k' :: k' != k ==> Lookup([(k, v)] + m[1..], k') == Lookup(m, k')
  {
    assert m == [m[0]] + m[1..];
    ConsLookups(m[0], m[1..]);
    ConsLookups((k, v), m[1..]);
  }

  /** Putting the first entry back in front of an updated tail keeps the update's effect on keys
      and lookups. */
  lemma ConsSet<K(!new), V(!new)>(m: Entries<K, V>, rest: Entries<K, V>, k: K, v: V)
    requires |m| > 0 && m[0].0 != k
    requires Keys(rest) == if k in Keys(m[1..]) then Keys(m[1..]) else Keys(m[1..]) + [k]
    requires Lookup(rest, k) == Some(v)
    requires forall k' :: k' != k ==> Lookup(rest, k') == Lookup(m[1..], k')
    ensures Keys([m[0]] + rest) == if k in Keys(m) then Keys(m) else Keys(m) + [k]
    ensures Lookup([m[0]] + rest, k) == Some(v)
    ensures forall k' :: k' != k ==> Lookup([m[0]] + rest, k') == Lookup(m, k')
  {
    var x := m[0];
    ConsLookups(x, rest);
    assert Keys(m) == [x.0] + Keys(m[1..]);
    ConsSetKeys(x.0, Keys(m[1..]), Keys(rest), k);
    forall k' | k' != k
      ensures Lookup([x] + rest, k') == Lookup(m, k')
    {
      assert Lookup(m, k') == if x.0 == k' then Some(x.1) else Lookup(m[1..], k');
    }
  }

  /** The key-order half of `ConsSet`, stated on the key lists alone. */
  lemma ConsSetKeys<K>(k0: K, ks: seq<K>, restKeys: seq<K>, k: K)
    requires k0 != k
    requires restKeys == if k in ks then ks else ks + [k]
    ensures [k0] + restKeys == if k in [k0] + ks then [k0] + ks else [k0] + ks + [k]
  {
    if k !in ks {
      AppendAssoc([k0], ks, [k]);
    }
  }

  /** `set` never duplicates a key. */
  lemma SetValid<K(!new), V(!new)>(m: Entries<K, V>, k: K, v: V)
    requires Valid(m)
    ensures Valid(Set(m, k, v))
  {
    var ks := Keys(m);
    if k !in ks {
      forall i, j | 0 <= i < j < |ks + [k]|
        ensures (ks + [k])[i] != (ks + [k])[j]
      {
        if j == |ks| {
          assert (ks + [k])[i] == ks[i];
        }
      }
    }
  }

  /** Setting the pairs `ps` one after another, left to right, as a `forEach` does. */
  function SetAll<K(==,!new), V(==,!new)>(m: Entries<K, V>, ps: seq<(K, V)>): (r: Entries<K, V>)
    decreases |ps|
  {
    if |ps| == 0 then m else SetAll(Set(m, ps[0].0, ps[0].1), ps[1..])
  }

  /** Setting a key the map does not hold appends it at the end. */
  lemma {:induction false} SetFresh<K(!new), V(!new)>(m: Entries<K, V>, k: K, v: V)
    requires k !in Keys(m)
    ensures Set(m, k, v) == m + [(k, v)]
    decreases |m|
  {
    if |m| > 0 {
      assert m[0].0 != k by {
        assert Keys(m)[0] == m[0].0;
      }
      assert k !in Keys(m[1..]) by {
        assert Keys(m[1..]) == Keys(m)[1..];
      }
      SetFresh(m[1..], k, v);
      ConsAppend(m, (k, v));
    }
  }

  /** Setting keys that are pairwise distinct and new to the map appends them, in order: insertion
      order is iteration order. */
  lemma {:induction false} SetAllFresh<K(!new), V(!new)>(m: Entries<K, V>, ps: seq<(K, V)>)
    requires Distinct(Keys(m) + Keys(ps))
    ensures SetAll(m, ps) == m + ps
    decreases |ps|
  {
    if |ps| > 0 {
      SetAllFreshStep(m, ps);
      SetAllFresh(m + [ps[0]], ps[1..]);
    }
  }

  lemma SetAllFreshStep<K(!new), V(!new)>(m: Entries<K, V>, ps: seq<(K, V)>)
    requires |ps| > 0 && Distinct(Keys(m) + Keys(ps))
    ensures SetAll(m, ps) == SetAll(m + [ps[0]], ps[1..])
    ensures Distinct(Keys(m + [ps[0]]) + Keys(ps[1..]))
    ensures (m + [ps[0]]) + ps[1..] == m + ps
  {
    FirstKeyFresh(m, ps);
    SetFirstFresh(m, ps);
    KeysShift(m, ps);
    ShiftFirst(m, ps);
  }

  lemma SetFirstFresh<K(!new), V(!new)>(m: Entries<K, V>, ps: seq<(K, V)>)
    requires |ps| > 0 && ps[0].0 !in Keys(m)
    ensures SetAll(m, ps) == SetAll(m + [ps[0]], ps[1..])
  {
    SetFresh(m, ps[0].0, ps[0].1);
    assert (ps[0].0, ps[0].1) == ps[0];
  }

  lemma KeysShift<K(!new), V(!new)>(m: Entries<K, V>, ps: seq<(K, V)>)
    requires |ps| > 0
    ensures Keys(m + [ps[0]]) + Keys(ps[1..]) == Keys(m) + Keys(ps)
  {
    KeysAppend(m, [ps[0]]);
    assert Keys([ps[0]]) == [ps[0].0];
    assert Keys(ps) == [ps[0].0] + Keys(ps[1..]);
    AppendAssoc(Keys(m), [ps[0].0], Keys(ps[1..]));
  }

  lemma FirstKeyFresh<K(!new), V(!new)>(m: Entries<K, V>, ps: seq<(K, V)>)
    requires |ps| > 0 && Distinct(Keys(m) + Keys(ps))
    ensures ps[0].0 !in Keys(m)
  {
    var ks := Keys(m) + Keys(ps);
    assert ks[|m|] == ps[0].0;
    forall i | 0 <= i < |m|
      ensures Keys(m)[i] != ps[0].0
    {
      assert ks[i] == Keys(m)[i];
    }
  }

  /** Setting the key of the last entry, when no earlier entry has it, replaces that entry's value. */
  lemma {:induction false} SetLast<K(!new), V(!new)>(m: Entries<K, V>, k: K, v: V, w: V)
    requires k !in Keys(m)
    ensures Set(m + [(k, v)], k, w) == m + [(k, w)]
    decreases |m|
  {
    var mv := m + [(k, v)];
    if |m| > 0 {
      assert m[0].0 != k by {
        assert Keys(m)[0] == m[0].0;
      }
      ConsAppend(m, (k, v));
      assert k !in Keys(m[1..]) by {
        assert Keys(m[1..]) == Keys(m)[1..];
      }
      SetLast(m[1..], k, v, w);
      ConsAppend(m, (k, w));
    } else {
      assert mv == [(k, v)];
      assert Set(mv, k, w) == [(k, w)] + mv[1..];
    }
  }

  /** A run of `set` calls never duplicates a key. */
  lemma {:induction false} SetAllValid<K(!new), V(!new)>(m: Entries<K, V>, ps: seq<(K, V)>)
    requires Valid(m)
    ensures Valid(SetAll(m, ps))
    decreases |ps|
  {
    if |ps| > 0 {
      SetValid(m, ps[0].0, ps[0].1);
      SetAllValid(Set(m, ps[0].0, ps[0].1), ps[1..]);
    }
  }

  /** Every entry after a `set` was there before, or is the new one. */
  lemma {:induction false} SetMembers<K(!new), V(!new)>(m: Entries<K, V>, k: K, v: V)
    ensures forall p :: p in Set(m, k, v) ==> p in m || p == (k, v)
  {
    if |m| > 0 && m[0].0 != k {
      SetMembers(m[1..], k, v);
      assert Set(m, k, v) == [m[0]] + Set(m[1..], k, v);
    }
  }

  /** Every entry after a run of `set` calls was there before, or is one of the pairs set. */
  lemma {:induction false} SetAllMembers<K(!new), V(!new)>(m: Entries<K, V>, ps: seq<(K, V)>)
    ensures forall p :: p in SetAll(m, ps) ==> p in m || p in ps
    decreases |ps|
  {
    if |ps| > 0 {
      SetMembers(m, ps[0].0, ps[0].1);
      SetAllMembers(Set(m, ps[0].0, ps[0].1), ps[1..]);
    }
  }

  /** Setting `ps` and then `qs` is setting `ps + qs`. */
  lemma {:induction false} SetAllAppend<K(!new), V(!new)>(m: Entries<K, V>, ps: seq<(K, V)>, qs: seq<(K, V)>)
    ensures SetAll(m, ps + qs) == SetAll(SetAll(m, ps), qs)
    decreases |ps|
  {
    if |ps| > 0 {
      assert (ps + qs)[1..] == ps[1..] + qs;
      SetAllAppend(Set(m, ps[0].0, ps[0].1), ps[1..], qs);
    } else {
      assert ps + qs == qs;
    }
  }

  /** In a map without repeated keys, looking up an entry's key finds that entry's value. */
  lemma {:induction false} LookupEntry<K(!new), V(!new)>(m: Entries<K, V>, i: nat)
    requires Valid(m) && i < |m|
    ensures Lookup(m, m[i].0) == Some(m[i].1)
  {
    if i > 0 {
      assert Keys(m)[0] != Keys(m)[i];
      assert Keys(m[1..]) == Keys(m)[1..];
      assert m[1..][i - 1] == m[i];
      LookupEntry(m[1..], i - 1);
    }
  }

  /** In a map without repeated keys, a key determines its value. */
  lemma KeyDetermines<K(!new), V(!new)>(m: Entries<K, V>, k: K, v: V, w: V)
    requires Valid(m) && (k, v) in m && (k, w) in m
    ensures v == w
  {
    var i :| 0 <= i < |m| && m[i] == (k, v);
    var j :| 0 <= j < |m| && m[j] == (k, w);
    LookupEntry(m, i);
    LookupEntry(m, j);
  }

  /** The value of the LAST pair in `ps` whose key is `k`. */
  function LastFor<K(==,!new), V(==,!new)>(ps: seq<(K, V)>, k: K): (r: Option<V>)
    ensures r.Some? <==> k in Keys(ps)
    ensures r.Some? ==> exists i :: 0 <= i < |ps| && ps[i] == (k, r.value) && k !in Keys(ps[i + 1..])
  {
    if |ps| == 0 then None
    else
      assert Keys(ps) == [ps[0].0] + Keys(ps[1..]);
      match LastFor(ps[1..], k)
      case Some(v) =>
        var i :| 0 <= i < |ps[1..]| && ps[1..][i] == (k, v) && k !in Keys(ps[1..][i + 1..]);
        assert ps[i + 1] == (k, v) && ps[i + 2..] == ps[1..][i + 1..];
        Some(v)
      case None =>
        if ps[0].0 == k then
          assert ps[1..] == ps[0 + 1..];
          Some(ps[0].1)
        else None
  }

  /** After a run of `set` calls, a key holds the value of its last setting; untouched keys keep theirs. */
  lemma {:induction false} SetAllLookup<K(!new), V(!new)>(m: Entries<K, V>, ps: seq<(K, V)>, k: K)
    ensures Lookup(SetAll(m, ps), k) == if LastFor(ps, k).Some? then LastFor(ps, k) else Lookup(m, k)
    decreases |ps|
  {
    if |ps| > 0 {
      SetAllLookup(Set(m, ps[0].0, ps[0].1), ps[1..], k);
    }
  }

  /** A run of `set` calls keeps the existing key order and appends new keys in first-setting order. */
  lemma {:induction false} SetAllKeys<K(!new), V(!new)>(m: Entries<K, V>, ps: seq<(K, V)>)
    ensures Keys(SetAll(m, ps)) == AppendNew(Keys(m), Keys(ps))
    decreases |ps|
  {
    if |ps| > 0 {
      SetAllKeys(Set(m, ps[0].0, ps[0].1), ps[1..]);
      assert Keys(ps)[1..] == Keys(ps[1..]);
    }
  }

  /** The values of the pairs in `ps` whose key is `k`, in order. */
  function ValuesFor<K(==,!new), V(==,!new)>(ps: seq<(K, V)>, k: K): (r: seq<V>)
    ensures forall v :: v in r <==> (k, v) in ps
    ensures |r| <= |ps|
  {
    if |ps| == 0 then []
    else if ps[0].0 == k then [ps[0].1] + ValuesFor(ps[1..], k)
    else ValuesFor(ps[1..], k)
  }

  /** The values of a sequence of pairs. */
  function Values<K(==,!new), V(==,!new)>(ps: seq<(K, V)>): (r: seq<V>)
    ensures |r| == |ps|
    ensures forall i :: 0 <= i < |ps| ==> r[i] == ps[i].1
  {
    seq(|ps|, i requires 0 <= i < |ps| => ps[i].1)
  }

  /** The values of a sequence with one pair put in front. */
  lemma ValuesCons<K(!new), V(!new)>(p: (K, V), ps: seq<(K, V)>)
    ensures Values([p] + ps) == [p.1] + Values(ps)
  {
  }

  /** Selecting the values of one key keeps them free of repetitions. */
  lemma {:induction false} ValuesForDistinct<K(!new), V(!new)>(ps: seq<(K, V)>, k: K)
    requires Distinct(Values(ps))
    ensures Distinct(ValuesFor(ps, k))
  {
    if |ps| > 0 {
      assert Values(ps[1..]) == Values(ps)[1..];
      ValuesForDistinct(ps[1..], k);
      forall j | 0 <= j < |ps[1..]|
        ensures ps[1..][j].1 != ps[0].1
      {
        assert Values(ps)[j + 1] == ps[1..][j].1;
      }
    }
  }

  /** The `if (!m.has(k)) m.set(k, []); m.get(k)!.push(v)` idiom: append `v` to the list under `k`. */
  function Push<K(==,!new), V(==,!new)>(m: Entries<K, seq<V>>, k: K, v: V): (r: Entries<K, seq<V>>)
    ensures Keys(r) == if k in Keys(m) then Keys(m) else Keys(m) + [k]
    ensures Lookup(r, k) == Some(Lookup(m, k).GetOr([]) + [v])
    ensures forall k' :: k' != k ==> Lookup(r, k') == Lookup(m, k')
  {
    var m1 := if k in Keys(m) then m else Set(m, k, []);
    assert Lookup(m1, k).value == Lookup(m, k).GetOr([]);
    Set(m1, k, Lookup(m1, k).value + [v])
  }

  /** Pushing onto a key the map does not hold appends a one-element group. */
  lemma PushFresh<K(!new), V(!new)>(m: Entries<K, seq<V>>, k: K, v: V)
    requires k !in Keys(m)
    ensures Push(m, k, v) == m + [(k, [v])]
  {
    SetFresh(m, k, []);
    var m1 := m + [(k, [])];
    assert Lookup(m1, k) == Some([]);
    assert Lookup(m1, k).value + [v] == [v];
    SetLast(m, k, [], [v]);
  }

  /** Pushing onto the only key of a one-entry map extends its list. */
  lemma PushSingleton<K(!new), V(!new)>(k: K, vs: seq<V>, v: V)
    ensures Push([(k, vs)], k, v) == [(k, vs + [v])]
  {
    var m := [(k, vs)];
    assert Keys(m) == [k];
    assert Lookup(m, k) == Some(vs);
    assert Set(m, k, vs + [v]) == [(k, vs + [v])] + m[1..];
    assert m[1..] == [];
  }

  /** Pushing the pairs `ps` one after another. */
  function PushAll<K(==,!new), V(==,!new)>(m: Entries<K, seq<V>>, ps: seq<(K, V)>): (r: Entries<K, seq<V>>)
    decreases |ps|
  {
    if |ps| == 0 then m else PushAll(Push(m, ps[0].0, ps[0].1), ps[1..])
  }

  /** Grouping never duplicates a key. */
  lemma {:induction false} PushAllValid<K(!new), V(!new)>(m: Entries<K, seq<V>>, ps: seq<(K, V)>)
    requires Valid(m)
    ensures Valid(PushAll(m, ps))
    decreases |ps|
  {
    if |ps| > 0 {
      var k := ps[0].0;
      var m1 := if k in Keys(m) then m else Set(m, k, []);
      if k !in Keys(m) {
        SetValid(m, k, []);
      }
      SetValid(m1, k, Lookup(m1, k).value + [ps[0].1]);
      PushAllValid(Push(m, k, ps[0].1), ps[1..]);
    }
  }

  /** Grouping: every key of `ps` ends up holding its values in order, after what it held before. */
  lemma {:induction false} PushAllLookup<K(!new), V(!new)>(m: Entries<K, seq<V>>, ps: seq<(K, V)>, k: K)
    ensures Lookup(PushAll(m, ps), k) ==
      if k in Keys(m) || k in Keys(ps) then Some(Lookup(m, k).GetOr([]) + ValuesFor(ps, k)) else None
    decreases |ps|
  {
    if |ps| == 0 {
      assert ValuesFor(ps, k) == [];
      assert Lookup(m, k).GetOr([]) + [] == Lookup(m, k).GetOr([]);
    } else {
      var m1 := Push(m, ps[0].0, ps[0].1);
      PushAllLookup(m1, ps[1..], k);
      assert PushAll(m, ps) == PushAll(m1, ps[1..]);
      assert Keys(ps) == [ps[0].0] + Keys(ps[1..]);
      PushStep(m, ps, k);
    }
  }

  /** One push step: the group of `k` after the first pair, extended by the rest, is the group of `k` extended by all. */
  lemma PushStep<K(!new), V(!new)>(m: Entries<K, seq<V>>, ps: seq<(K, V)>, k: K)
    requires |ps| > 0
    ensures k in Keys(Push(m, ps[0].0, ps[0].1)) <==> k in Keys(m) || k == ps[0].0
    ensures Lookup(Push(m, ps[0].0, ps[0].1), k).GetOr([]) + ValuesFor(ps[1..], k)
         == Lookup(m, k).GetOr([]) + ValuesFor(ps, k)
  {
    var k0, v0 := ps[0].0, ps[0].1;
    var rest := ValuesFor(ps[1..], k);
    if k0 == k {
      var before := Lookup(m, k).GetOr([]);
      assert Lookup(Push(m, k0, v0), k).GetOr([]) == before + [v0];
      assert ValuesFor(ps, k) == [v0] + rest;
      AppendAssoc(before, [v0], rest);
    } else {
      assert Lookup(Push(m, k0, v0), k) == Lookup(m, k);
      assert ValuesFor(ps, k) == rest;
    }
  }

  /** Grouping keeps existing groups in place and appends new groups in order of first appearance. */
  lemma {:induction false} PushAllKeys<K(!new), V(!new)>(m: Entries<K, seq<V>>, ps: seq<(K, V)>)
    ensures Keys(PushAll(m, ps)) == AppendNew(Keys(m), Keys(ps))
    decreases |ps|
  {
    if |ps| > 0 {
      PushAllKeys(Push(m, ps[0].0, ps[0].1), ps[1..]);
      assert Keys(ps)[1..] == Keys(ps[1..]);
    }
  }
}
