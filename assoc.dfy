/**
 * An insertion-ordered dictionary, as a Python `dict` behaves: a sequence of key/value
 * pairs in which assignment to a present key keeps its position and a new key goes last.
 * Used for JSON objects and for the peer registry.
 */
module Assoc {
  import opened Wrappers

  type Entries<K, V> = seq<(K, V)>

  /** The keys in order, as `list(d.keys())`. */
  function Keys<K, V>(e: Entries<K, V>): (ks: seq<K>)
    ensures |ks| == |e|
    ensures forall i :: 0 <= i < |e| ==> ks[i] == e[i].0
  {
    if e == [] then [] else [e[0].0] + Keys(e[1..])
  }

  /** No key occurs twice: what every Python dict satisfies. */
  predicate UniqueKeys<K(==), V>(e: Entries<K, V>) {
    forall i, j :: 0 <= i < j < |e| ==> e[i].0 != e[j].0
  }

  /** `d.get(k)`: the value stored under the first occurrence of `k`. */
  function Lookup<K(==), V>(e: Entries<K, V>, k: K): (r: Option<V>)
    ensures r.None? <==> k !in Keys(e)
  {
    if e == [] then None
    else if e[0].0 == k then Some(e[0].1)
    else Lookup(e[1..], k)
  }

  /** `d[k] = v`: replaces the value of a present key in place, or appends a new entry. */
  function Put<K(==), V>(e: Entries<K, V>, k: K, v: V): (r: Entries<K, V>)
    ensures Lookup(r, k) == Some(v)
  {
    if e == [] then [(k, v)]
    else if e[0].0 == k then [(k, v)] + e[1..]
    else [e[0]] + Put(e[1..], k, v)
  }

  /** Assignment keeps the keys and their order, appending the key only if it is new. */
  lemma {:induction false} PutKeys<K, V>(e: Entries<K, V>, k: K, v: V)
    ensures Keys(Put(e, k, v)) == if k in Keys(e) then Keys(e) else Keys(e) + [k]
  {
    if e != [] && e[0].0 != k {
      PutKeys(e[1..], k, v);
      KeysCons(e);
      KeysCons(Put(e, k, v));
    }
  }

  /** `del d[k]` when `k` is present; the dictionary unchanged otherwise. */
  function Remove<K(==), V>(e: Entries<K, V>, k: K): (r: Entries<K, V>)
  {
    if e == [] then []
    else if e[0].0 == k then e[1..]
    else [e[0]] + Remove(e[1..], k)
  }

  /** `d.update(extra)`: assigns every entry of `extra`, in order. */
  function Update<K(==), V>(e: Entries<K, V>, extra: Entries<K, V>): (r: Entries<K, V>)
    decreases |extra|
  {
    if extra == [] then e else Update(Put(e, extra[0].0, extra[0].1), extra[1..])
  }

  lemma {:induction false} KeysUnique<K, V>(e: Entries<K, V>)
    requires |e| > 0
    ensures UniqueKeys(e) <==> UniqueKeys(e[1..]) && e[0].0 !in Keys(e[1..])
  {
    var t := e[1..];
    if UniqueKeys(t) && e[0].0 !in Keys(t) {
      forall i, j | 0 <= i < j < |e| ensures e[i].0 != e[j].0 {
        if i > 0 { assert e[i] == t[i - 1] && e[j] == t[j - 1]; }
        else { assert Keys(t)[j - 1] == e[j].0; }
      }
    }
  }

  /** In a dictionary, looking up the key at any position finds the value stored there. */
  lemma {:induction false} LookupAt<K, V>(e: Entries<K, V>, i: nat)
    requires UniqueKeys(e) && i < |e|
    ensures Lookup(e, e[i].0) == Some(e[i].1)
  {
    if i > 0 {
      KeysUnique(e);
      LookupAt(e[1..], i - 1);
    }
  }

  /** Assigning one key leaves every other key's value alone. */
  lemma {:induction false} PutOther<K, V>(e: Entries<K, V>, k: K, v: V, k': K)
    requires k' != k
    ensures Lookup(Put(e, k, v), k') == Lookup(e, k')
  {
    if e != [] && e[0].0 != k {
      PutOther(e[1..], k, v, k');
    }
  }

  /** Assignment keeps keys unique: after re-registering a name it is still listed once. */
  lemma {:induction false} PutUnique<K, V>(e: Entries<K, V>, k: K, v: V)
    requires UniqueKeys(e)
    ensures UniqueKeys(Put(e, k, v))
  {
    var r := Put(e, k, v);
    if e == [] {
    } else if e[0].0 == k {
      KeysUnique(e);
      assert r[1..] == e[1..];
      KeysUnique(r);
    } else {
      KeysUnique(e);
      PutUnique(e[1..], k, v);
      PutKeys(e[1..], k, v);
      assert r[1..] == Put(e[1..], k, v);
      KeysUnique(r);
    }
  }

  /** Removing a key removes only that key: every other key keeps its value. */
  lemma {:induction false} RemoveOther<K, V>(e: Entries<K, V>, k: K, k': K)
    requires k' != k
    ensures Lookup(Remove(e, k), k') == Lookup(e, k')
  {
    if e != [] && e[0].0 != k {
      RemoveOther(e[1..], k, k');
    }
  }

  /** Removing an absent key changes nothing (the registry removals guard on presence). */
  lemma {:induction false} RemoveMissing<K, V>(e: Entries<K, V>, k: K)
    requires k !in Keys(e)
    ensures Remove(e, k) == e
  {
    if e != [] {
      assert Keys(e) == [e[0].0] + Keys(e[1..]);
      RemoveMissing(e[1..], k);
    }
  }

  /** Removing the key stored at position `j` (its only position) cuts out that entry. */
  lemma {:induction false} RemoveAt<K, V>(e: Entries<K, V>, k: K, j: nat)
    requires j < |e| && e[j].0 == k
    requires forall i :: 0 <= i < j ==> e[i].0 != k
    ensures Remove(e, k) == e[..j] + e[j + 1..]
  {
    if j == 0 {
      assert e[..0] + e[1..] == e[1..];
    } else {
      var t := e[1..];
      assert e[0].0 != k;
      RemoveAt(t, k, j - 1);
      assert Remove(e, k) == [e[0]] + Remove(t, k);
      assert e[..j] == [e[0]] + t[..j - 1];
      assert e[j + 1..] == t[j..];
    }
  }

  /**
   * Removing a key from a dictionary takes out exactly the entry stored under it:
   * the result is the dictionary with that one position cut out, keys still unique,
   * and the key absent.
   */
  lemma {:induction false} RemoveCutsOne<K, V>(e: Entries<K, V>, k: K)
    requires UniqueKeys(e) && k in Keys(e)
    ensures exists j :: 0 <= j < |e| && e[j].0 == k && Remove(e, k) == e[..j] + e[j + 1..]
    ensures UniqueKeys(Remove(e, k)) && k !in Keys(Remove(e, k))
  {
    var j :| 0 <= j < |e| && Keys(e)[j] == k;
    RemoveAt(e, k, j);
    CutUnique(e, j);
  }

  lemma CutUnique<K, V>(e: Entries<K, V>, j: nat)
    requires UniqueKeys(e) && j < |e|
    ensures UniqueKeys(e[..j] + e[j + 1..]) && e[j].0 !in Keys(e[..j] + e[j + 1..])
  {
    var r := e[..j] + e[j + 1..];
    assert forall i :: 0 <= i < |r| ==> r[i] == e[if i < j then i else i + 1];
  }

  /**
   * `d.update(extra)` looks up, for every key, the value `extra` gives it, and otherwise
   * the value `d` had.
   */
  lemma {:induction false} UpdateLookup<K, V>(e: Entries<K, V>, extra: Entries<K, V>, k: K)
    requires UniqueKeys(extra)
    ensures Lookup(Update(e, extra), k) ==
            (if k in Keys(extra) then Lookup(extra, k) else Lookup(e, k))
    decreases |extra|
  {
    if extra != [] {
      var e' := Put(e, extra[0].0, extra[0].1);
      KeysUnique(extra);
      UpdateLookup(e', extra[1..], k);
      assert Keys(extra) == [extra[0].0] + Keys(extra[1..]);
      if k != extra[0].0 {
        PutOther(e, extra[0].0, extra[0].1, k);
      }
    }
  }

  /**
   * Update keeps the entries of `d` in their positions (with possibly new values),
   * adds nothing but keys of `extra`, and keeps keys unique.
   */
  lemma {:induction false} UpdateShape<K, V>(e: Entries<K, V>, extra: Entries<K, V>)
    requires UniqueKeys(e)
    ensures var r := Update(e, extra);
      && UniqueKeys(r)
      && |e| <= |r| && Keys(r)[..|e|] == Keys(e)
      && (forall k :: k in Keys(r) ==> k in Keys(e) || k in Keys(extra))
    decreases |extra|
  {
    if extra != [] {
      var e' := Put(e, extra[0].0, extra[0].1);
      PutUnique(e, extra[0].0, extra[0].1);
      PutKeys(e, extra[0].0, extra[0].1);
      UpdateShape(e', extra[1..]);
      assert Keys(extra) == [extra[0].0] + Keys(extra[1..]);
      assert Keys(e')[..|e|] == Keys(e);
      var r := Update(e, extra);
      assert Keys(r)[..|e|] == Keys(r)[..|e'|][..|e|];
    }
  }

  /** Removal introduces no key. */
  lemma {:induction false} RemoveKeysShrink<K, V>(e: Entries<K, V>, k: K, x: K)
    requires x in Keys(Remove(e, k))
    ensures x in Keys(e)
  {
    if e != [] && e[0].0 != k {
      assert Keys(Remove(e, k)) == [e[0].0] + Keys(Remove(e[1..], k));
      if x != e[0].0 {
        RemoveKeysShrink(e[1..], k, x);
      }
    }
  }

  /** Removing a key that was just appended gives back the dictionary before. */
  lemma {:induction false} RemoveLast<K, V>(e: Entries<K, V>, k: K, v: V)
    requires k !in Keys(e)
    ensures Remove(e + [(k, v)], k) == e
  {
    if e != [] {
      KeysCons(e);
      assert e[0].0 != k && k !in Keys(e[1..]);
      AppendCons(e, (k, v));
      RemoveLast(e[1..], k, v);
    }
  }

  /** Assigning a key present at position `j` replaces that entry in place. */
  lemma {:induction false} PutAt<K, V>(e: Entries<K, V>, k: K, v: V, j: nat)
    requires j < |e| && e[j].0 == k
    requires forall i :: 0 <= i < j ==> e[i].0 != k
    ensures Put(e, k, v) == e[j := (k, v)]
  {
    if j > 0 {
      var t := e[1..];
      assert e[0].0 != k;
      PutAt(t, k, v, j - 1);
      UpdateCons(e, j, (k, v));
    }
  }

  lemma UpdateCons<T>(e: seq<T>, j: nat, x: T)
    requires 0 < j < |e|
    ensures e[j := x] == [e[0]] + e[1..][j - 1 := x]
  {
  }

  /** Assigning an absent key appends it. */
  lemma {:induction false} PutNew<K, V>(e: Entries<K, V>, k: K, v: V)
    requires k !in Keys(e)
    ensures Put(e, k, v) == e + [(k, v)]
  {
    if e != [] {
      var t := e[1..];
      KeysCons(e);
      assert e[0].0 != k && k !in Keys(t);
      PutNew(t, k, v);
      AppendCons(e, (k, v));
    }
  }

  lemma AppendCons<T>(e: seq<T>, x: T)
    requires e != []
    ensures e + [x] == [e[0]] + (e[1..] + [x])
  {
  }

  lemma KeysCons<K, V>(e: Entries<K, V>)
    requires e != []
    ensures Keys(e) == [e[0].0] + Keys(e[1..])
  {
  }
}
