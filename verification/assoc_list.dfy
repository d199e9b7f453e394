/**
 * An insertion-ordered dictionary, modelled as an association list: a sequence of
 * key/value pairs. Python's `dict` keeps keys in insertion order, overwrites a present
 * key in place and appends a new key at the end; `Put` does exactly that.
 */
module AssocList {
  import opened Wrappers

  /** The keys in order (`list(d.keys())`). */
  function Keys<K, V>(m: seq<(K, V)>): (ks: seq<K>)
    ensures |ks| == |m|
    ensures forall i :: 0 <= i < |m| ==> ks[i] == m[i].0
  {
    seq(|m|, i requires 0 <= i < |m| => m[i].0)
  }

  /** The values in key order (`list(d.values())`). */
  function Values<K, V>(m: seq<(K, V)>): (vs: seq<V>)
    ensures |vs| == |m|
    ensures forall i :: 0 <= i < |m| ==> vs[i] == m[i].1
  {
    seq(|m|, i requires 0 <= i < |m| => m[i].1)
  }

  /** The invariant every Python dict keeps: no key occurs twice. */
  ghost predicate UniqueKeys<K, V>(m: seq<(K, V)>) {
    forall i, j :: 0 <= i < j < |m| ==> m[i].0 != m[j].0
  }

  /** Lookup (`d[k]` guarded by `k in d`): the value of the first entry with key `k`. */
  function Get<K(==,!new), V>(m: seq<(K, V)>, k: K): (r: Option<V>)
    ensures r.Some? <==> k in Keys(m)
    ensures r.Some? ==> (k, r.value) in m
  {
    if |m| == 0 then None
    else if m[0].0 == k then Some(m[0].1)
    else Get(m[1..], k)
  }

  /** Overwrites the value of every entry with key `k`, leaving positions as they are. */
  function Replace<K(==,!new), V>(m: seq<(K, V)>, k: K, v: V): (r: seq<(K, V)>)
    ensures Keys(r) == Keys(m)
    ensures k in Keys(m) ==> Get(r, k) == Some(v)
    ensures forall k' :: k' != k ==> Get(r, k') == Get(m, k')
  {
    if |m| == 0 then []
    else
      var rest := Replace(m[1..], k, v);
      var r := [if m[0].0 == k then (k, v) else m[0]] + rest;
      assert r[1..] == rest;
      r
  }

  /** Looking up in `m + [(k, v)]` finds `m`'s entry first, and `v` only for a new key. */
  lemma {:induction false} GetAppend<K(!new), V>(m: seq<(K, V)>, k: K, v: V, k': K)
    ensures Get(m + [(k, v)], k') ==
              if k' in Keys(m) then Get(m, k') else if k' == k then Some(v) else None
    decreases |m|
  {
    var s := m + [(k, v)];
    if |m| == 0 {
      assert s == [(k, v)];
    } else {
      assert s[1..] == m[1..] + [(k, v)];
      GetAppend(m[1..], k, v, k');
      if m[0].0 != k' {
        assert k' in Keys(m) <==> k' in Keys(m[1..]) by {
          if k' in Keys(m) {
            var i :| 0 <= i < |m| && Keys(m)[i] == k';
            assert Keys(m[1..])[i - 1] == k';
          }
          if k' in Keys(m[1..]) {
            var i :| 0 <= i < |m| - 1 && Keys(m[1..])[i] == k';
            assert Keys(m)[i + 1] == k';
          }
        }
      } else {
        assert Keys(m)[0] == k';
      }
    }
  }

  /** Dictionary assignment `d[k] = v`. */
  function Put<K(==,!new), V>(m: seq<(K, V)>, k: K, v: V): (r: seq<(K, V)>)
    ensures Get(r, k) == Some(v)
    ensures forall k' :: k' != k ==> Get(r, k') == Get(m, k')
    ensures Keys(r) == if k in Keys(m) then Keys(m) else Keys(m) + [k]
    ensures UniqueKeys(m) ==> UniqueKeys(r)
  {
    if k in Keys(m) then
      var r := Replace(m, k, v);
      assert forall i :: 0 <= i < |r| ==> r[i].0 == Keys(r)[i];
      r
    else
      var r := m + [(k, v)];
      GetAppendAll(m, k, v);
      assert Keys(r) == Keys(m) + [k];
      assert forall i :: 0 <= i < |m| ==> m[i].0 == Keys(m)[i];
      r
  }

  lemma GetAppendAll<K(!new), V>(m: seq<(K, V)>, k: K, v: V)
    ensures forall k' :: Get(m + [(k, v)], k') ==
              if k' in Keys(m) then Get(m, k') else if k' == k then Some(v) else None
  {
    forall k' {
      GetAppend(m, k, v, k');
    }
  }

  /** With unique keys, looking up the key at position `i` yields the value at position `i`. */
  lemma GetAt<K(!new), V>(m: seq<(K, V)>, i: nat)
    requires UniqueKeys(m)
    requires i < |m|
    ensures Get(m, m[i].0) == Some(m[i].1)
  {
  }

  /** A key as a one-element list when it is not in `seen`, and nothing otherwise. */
  function IfNew<K(==)>(k: K, seen: seq<K>): seq<K> {
    if k in seen then [] else [k]
  }

  /** The keys of `ks` that are not in `seen`, in the order of `ks`. */
  function Fresh<K(==)>(ks: seq<K>, seen: seq<K>): seq<K> {
    if |ks| == 0 then [] else IfNew(ks[0], seen) + Fresh(ks[1..], seen)
  }

  /** `Fresh` keeps exactly the keys of `ks` that are not in `seen`. */
  lemma {:induction false} FreshMembers<K>(ks: seq<K>, seen: seq<K>, x: K)
    ensures x in Fresh(ks, seen) <==> x in ks && x !in seen
    decreases |ks|
  {
    if |ks| > 0 {
      FreshMembers(ks[1..], seen, x);
      assert x in ks <==> x == ks[0] || x in ks[1..];
    }
  }

  /** With nothing seen, every key is fresh. */
  lemma {:induction false} FreshNothingSeen<K>(ks: seq<K>)
    ensures Fresh(ks, []) == ks
    decreases |ks|
  {
    if |ks| > 0 {
      FreshNothingSeen(ks[1..]);
    }
  }

  /** `Fresh` depends on `seen` only through the membership of the keys it inspects. */
  lemma {:induction false} FreshCongruent<K(!new)>(ks: seq<K>, s1: seq<K>, s2: seq<K>)
    requires forall x :: x in ks ==> (x in s1 <==> x in s2)
    ensures Fresh(ks, s1) == Fresh(ks, s2)
    decreases |ks|
  {
    if |ks| > 0 {
      assert ks[0] in ks;
      assert forall x :: x in ks[1..] ==> x in ks;
      FreshCongruent(ks[1..], s1, s2);
    }
  }

  /**
   * The value a key has after folding `src` into `acc` with combining function `f`:
   * `f(a, b)` when both sides hold the key, otherwise whichever side holds it.
   */
  function Joined<V>(a: Option<V>, b: Option<V>, f: (V, V) -> V): Option<V> {
    match (a, b)
    case (Some(x), Some(y)) => Some(f(x, y))
    case (Some(x), None) => Some(x)
    case (None, _) => b
  }

  /** One step of the fold: combine with the present value, or insert the new key. */
  function AbsorbEntry<K(==,!new), V>(acc: seq<(K, V)>, k: K, v: V, f: (V, V) -> V): seq<(K, V)> {
    match Get(acc, k)
    case Some(prev) => Put(acc, k, f(prev, v))
    case None => Put(acc, k, v)
  }

  /**
   * Folds the entries of `src`, in order, into `acc`: the loop
   * `for k, v in src.items(): if k in acc: acc[k] = f(acc[k], v) else: acc[k] = v`.
   */
  function Absorb<K(==,!new), V>(acc: seq<(K, V)>, src: seq<(K, V)>, f: (V, V) -> V): (r: seq<(K, V)>)
    ensures UniqueKeys(acc) ==> UniqueKeys(r)
    decreases |src|
  {
    if |src| == 0 then acc
    else Absorb(AbsorbEntry(acc, src[0].0, src[0].1, f), src[1..], f)
  }

  /** Every key of the result carries the joined value of the two inputs. */
  lemma {:induction false} AbsorbGet<K(!new), V>(acc: seq<(K, V)>, src: seq<(K, V)>, f: (V, V) -> V, k: K)
    requires UniqueKeys(src)
    ensures Get(Absorb(acc, src, f), k) == Joined(Get(acc, k), Get(src, k), f)
    decreases |src|
  {
    if |src| > 0 {
      var (k0, v0) := src[0];
      var acc' := AbsorbEntry(acc, k0, v0, f);
      AbsorbGet(acc', src[1..], f, k);
      if k == k0 {
        HeadKeyNotInTail(src);
      } else {
        assert Get(src, k) == Get(src[1..], k);
      }
    }
  }

  /** In a list with unique keys, the first key does not occur again. */
  lemma HeadKeyNotInTail<K(!new), V>(m: seq<(K, V)>)
    requires UniqueKeys(m)
    requires |m| > 0
    ensures m[0].0 !in Keys(m[1..])
  {
  }

  /** The keys of a non-empty list: its first key, then the keys of the rest. */
  lemma KeysCons<K, V>(m: seq<(K, V)>)
    requires |m| > 0
    ensures Keys(m) == [m[0].0] + Keys(m[1..])
  {
  }

  /** One step of the fold appends its key exactly when the key is new. */
  lemma AbsorbEntryKeys<K(!new), V>(acc: seq<(K, V)>, k: K, v: V, f: (V, V) -> V)
    ensures Keys(AbsorbEntry(acc, k, v, f)) == Keys(acc) + IfNew(k, Keys(acc))
  {
  }

  /** `Fresh` on a non-empty key list: the first key when it is new, then the rest. */
  lemma FreshCons<K(!new), V>(m: seq<(K, V)>, seen: seq<K>)
    requires |m| > 0
    ensures Fresh(Keys(m), seen) == IfNew(m[0].0, seen) + Fresh(Keys(m[1..]), seen)
  {
    KeysCons(m);
  }

  /** Dropping the first entry keeps the keys unique. */
  lemma UniqueTail<K, V>(m: seq<(K, V)>)
    requires UniqueKeys(m)
    requires |m| > 0
    ensures UniqueKeys(m[1..])
  {
  }

  /** Folding in the first entry of `src` leaves the fresh keys of the tail unchanged. */
  lemma AbsorbKeysStepAcc<K(!new), V>(acc: seq<(K, V)>, src: seq<(K, V)>, f: (V, V) -> V)
    requires UniqueKeys(src)
    requires |src| > 0
    ensures
      var acc' := AbsorbEntry(acc, src[0].0, src[0].1, f);
      Keys(acc') + Fresh(Keys(src[1..]), Keys(acc'))
        == (Keys(acc) + IfNew(src[0].0, Keys(acc))) + Fresh(Keys(src[1..]), Keys(acc))
  {
    var acc' := AbsorbEntry(acc, src[0].0, src[0].1, f);
    AbsorbEntryKeys(acc, src[0].0, src[0].1, f);
    HeadKeyNotInTail(src);
    FreshCongruent(Keys(src[1..]), Keys(acc'), Keys(acc));
  }

  /** The first key of `src`, when new, is the first fresh key of `src`. */
  lemma AbsorbKeysStepFresh<K(!new), V>(acc: seq<(K, V)>, src: seq<(K, V)>)
    requires |src| > 0
    ensures (Keys(acc) + IfNew(src[0].0, Keys(acc))) + Fresh(Keys(src[1..]), Keys(acc))
         == Keys(acc) + Fresh(Keys(src), Keys(acc))
  {
    var step, rest := IfNew(src[0].0, Keys(acc)), Fresh(Keys(src[1..]), Keys(acc));
    FreshCons(src, Keys(acc));
    assert (Keys(acc) + step) + rest == Keys(acc) + (step + rest);
  }

  /** The result's keys: those of `acc` in order, then the new keys of `src` in `src`'s order. */
  lemma {:induction false} AbsorbKeys<K(!new), V>(acc: seq<(K, V)>, src: seq<(K, V)>, f: (V, V) -> V)
    requires UniqueKeys(src)
    ensures Keys(Absorb(acc, src, f)) == Keys(acc) + Fresh(Keys(src), Keys(acc))
    decreases |src|
  {
    if |src| > 0 {
      UniqueTail(src);
      AbsorbKeys(AbsorbEntry(acc, src[0].0, src[0].1, f), src[1..], f);
      AbsorbKeysStepAcc(acc, src, f);
      AbsorbKeysStepFresh(acc, src);
    }
  }
}
