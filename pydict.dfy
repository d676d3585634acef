/**
 * Python's `dict` as the modelled code uses it: key-value pairs kept in
 * insertion order.  Assigning to an existing key replaces its value in
 * place; assigning to a new key appends it; `d.update(e)` assigns every
 * pair of `e` in `e`'s order.  `values()` and iteration follow that order,
 * which `get_imdb_rating`, `get_netflix_url` and `merge_netflix` observe.
 */
module PyDict {
  import opened Wrappers

  /** Each key occurs once: the shape of every Python dict. */
  predicate UniqueKeys<K(==), V(==)>(d: seq<(K, V)>) {
    forall i, j :: 0 <= i < j < |d| ==> d[i].0 != d[j].0
  }

  function Keys<K, V>(d: seq<(K, V)>): set<K> {
    set i | 0 <= i < |d| :: d[i].0
  }

  /** `list(d.values())` */
  function Values<K, V>(d: seq<(K, V)>): (r: seq<V>)
    ensures |r| == |d|
    ensures forall i :: 0 <= i < |d| ==> r[i] == d[i].1
  {
    if d == [] then [] else [d[0].1] + Values(d[1..])
  }

  /** `d.get(k)` */
  function Get<K(==), V(==)>(d: seq<(K, V)>, k: K): (r: Option<V>)
    ensures r.None? <==> k !in Keys(d)
    ensures r.Some? ==> exists i :: 0 <= i < |d| && d[i] == (k, r.value)
  {
    if d == [] then None
    else if d[0].0 == k then Some(d[0].1)
    else
      var r := Get(d[1..], k);
      assert Keys(d) == {d[0].0} + Keys(d[1..]);
      if r.Some? then
        var i :| 0 <= i < |d[1..]| && d[1..][i] == (k, r.value);
        assert d[i + 1] == (k, r.value);
        r
      else r
  }

  /** `d[k] = v` */
  function Put<K(==), V(==)>(d: seq<(K, V)>, k: K, v: V): seq<(K, V)> {
    if d == [] then [(k, v)]
    else if d[0].0 == k then [(k, v)] + d[1..]
    else [d[0]] + Put(d[1..], k, v)
  }

  /** `d.update(e)` */
  function Update<K(==), V(==)>(d: seq<(K, V)>, e: seq<(K, V)>): seq<(K, V)>
    decreases |e|
  {
    if e == [] then d else Update(Put(d, e[0].0, e[0].1), e[1..])
  }

  /** In a dict, the pair at position `i` is what `Get` finds for its key. */
  lemma GetAt<K, V>(d: seq<(K, V)>, i: nat)
    requires UniqueKeys(d) && i < |d|
    ensures Get(d, d[i].0) == Some(d[i].1)
  {
    var r := Get(d, d[i].0);
    var j :| 0 <= j < |d| && d[j] == (d[i].0, r.value);
    if j != i {
      assert false;
    }
  }

  /**
   * Assignment: a key already present keeps its position and takes the new
   * value; a new key is appended; every other pair stays where it was.
   */
  lemma {:induction false} PutShape<K, V>(d: seq<(K, V)>, k: K, v: V)
    ensures k in Keys(d) ==> |Put(d, k, v)| == |d|
    ensures k !in Keys(d) ==> Put(d, k, v) == d + [(k, v)]
    ensures forall i :: 0 <= i < |d| ==> Put(d, k, v)[i].0 == d[i].0
    ensures forall i :: 0 <= i < |d| && d[i].0 != k ==> Put(d, k, v)[i] == d[i]
    ensures Keys(Put(d, k, v)) == Keys(d) + {k}
  {
    var p := Put(d, k, v);
    KeysCons(p);
    if d != [] {
      PutShape(d[1..], k, v);
      KeysCons(d);
      var rest := if d[0].0 == k then d[1..] else Put(d[1..], k, v);
      assert p[1..] == rest;
      forall i | 0 <= i < |d| ensures p[i].0 == d[i].0 && (d[i].0 != k ==> p[i] == d[i]) {
        if i > 0 { assert p[i] == rest[i - 1] && d[i] == d[1..][i - 1]; }
      }
    }
  }

  /** After `d[k] = v` every pair is the new one or the pair that stood at its position. */
  lemma {:induction false} PutPairs<K, V>(d: seq<(K, V)>, k: K, v: V)
    ensures forall i :: 0 <= i < |Put(d, k, v)| ==> Put(d, k, v)[i] == (k, v) || (i < |d| && Put(d, k, v)[i] == d[i])
  {
    if d != [] && d[0].0 != k {
      PutPairs(d[1..], k, v);
      var p := Put(d, k, v);
      assert p[1..] == Put(d[1..], k, v);
      forall i | 1 <= i < |p| ensures p[i] == (k, v) || (i < |d| && p[i] == d[i]) {
        assert p[i] == p[1..][i - 1];
      }
    }
  }

  /** After `d[k] = v`, looking up `k` gives `v` and every other key is unaffected. */
  lemma {:induction false} PutGet<K, V>(d: seq<(K, V)>, k: K, v: V, k2: K)
    ensures Get(Put(d, k, v), k2) == if k2 == k then Some(v) else Get(d, k2)
  {
    if d != [] && d[0].0 != k {
      PutGet(d[1..], k, v, k2);
    }
  }

  /** Assignment keeps every key unique. */
  lemma PutUnique<K, V>(d: seq<(K, V)>, k: K, v: V)
    requires UniqueKeys(d)
    ensures UniqueKeys(Put(d, k, v))
  {
    PutShape(d, k, v);
    var p := Put(d, k, v);
    if k !in Keys(d) {
      forall i, j | 0 <= i < j < |p| ensures p[i].0 != p[j].0 {
        if j == |d| {
          assert p[i].0 in Keys(d);
        }
      }
    }
  }

  /** Looking up any key in `merged` finds `e`'s value where `e` has the key, else `d`'s. */
  ghost predicate Overrides<K(!new), V>(merged: seq<(K, V)>, d: seq<(K, V)>, e: seq<(K, V)>) {
    forall k :: Get(merged, k) == if k in Keys(e) then Get(e, k) else Get(d, k)
  }

  /** The keys of `e` outside `ks`, in `e`'s order. */
  function NewKeys<K(==), V>(ks: set<K>, e: seq<(K, V)>): (r: seq<K>)
    ensures forall i :: 0 <= i < |r| ==> r[i] in Keys(e) && r[i] !in ks
  {
    if e == [] then []
    else
      var rest := NewKeys(ks, e[1..]);
      assert Keys(e) == {e[0].0} + Keys(e[1..]);
      (if e[0].0 in ks then [] else [e[0].0]) + rest
  }

  /** A key that `e` does not have makes no difference to which keys of `e` are new. */
  lemma {:induction false} NewKeysIgnore<K, V>(ks: set<K>, k: K, e: seq<(K, V)>)
    requires k !in Keys(e)
    ensures NewKeys(ks + {k}, e) == NewKeys(ks, e)
  {
    if e != [] {
      assert Keys(e) == {e[0].0} + Keys(e[1..]);
      NewKeysIgnore(ks, k, e[1..]);
    }
  }

  /** `merged` holds the keys of `d` where `d` has them, then the keys `added`, and nothing else. */
  predicate KeysThen<K(==), V>(merged: seq<(K, V)>, d: seq<(K, V)>, added: seq<K>) {
    && |merged| == |d| + |added|
    && (forall i :: 0 <= i < |d| ==> merged[i].0 == d[i].0)
    && (forall i :: 0 <= i < |added| ==> merged[|d| + i].0 == added[i])
  }

  /**
   * The key order of `d.update(e)`: `d`'s keys where they were, then the
   * keys of `e` that `d` lacks, in `e`'s order.
   */
  predicate KeyOrder<K(==), V>(merged: seq<(K, V)>, d: seq<(K, V)>, e: seq<(K, V)>) {
    KeysThen(merged, d, NewKeys(Keys(d), e))
  }

  /**
   * `d.update(e)` of a dict `e`: the keys are those of both, a key of `e`
   * takes `e`'s value and every other key keeps `d`'s; the pairs of `d` stay
   * at their positions, keyed as before, and `e`'s new keys follow in `e`'s
   * order.
   */
  lemma {:induction false} UpdateSemantics<K(!new), V>(d: seq<(K, V)>, e: seq<(K, V)>)
    requires UniqueKeys(d) && UniqueKeys(e)
    ensures UniqueKeys(Update(d, e))
    ensures Keys(Update(d, e)) == Keys(d) + Keys(e)
    ensures Overrides(Update(d, e), d, e)
    ensures KeyOrder(Update(d, e), d, e)
    decreases |e|
  {
    if e != [] {
      var k := e[0].0;
      var d' := Put(d, k, e[0].1);
      var e' := e[1..];
      KeysCons(e);
      PutShape(d, k, e[0].1);
      PutUnique(d, k, e[0].1);
      assert UniqueKeys(e');
      UpdateSemantics(d', e');
      forall k2 ensures Get(Update(d, e), k2) == if k2 in Keys(e) then Get(e, k2) else Get(d, k2) {
        PutGet(d, k, e[0].1, k2);
      }
      UpdateOrderStep(d, e);
    }
  }

  /** The keys of a non-empty dict: its first key and the keys of the rest. */
  lemma KeysCons<K, V>(e: seq<(K, V)>)
    requires e != []
    ensures Keys(e) == {e[0].0} + Keys(e[1..])
  {
    forall x | x in Keys(e)
      ensures x == e[0].0 || x in Keys(e[1..])
    {
      var i :| 0 <= i < |e| && e[i].0 == x;
      if i > 0 {
        assert e[1..][i - 1].0 == x;
      }
    }
  }

  /** The key order of `d.update(e)`, from that of the update after `e`'s first pair. */
  lemma UpdateOrderStep<K, V>(d: seq<(K, V)>, e: seq<(K, V)>)
    requires UniqueKeys(e) && e != []
    requires KeyOrder(Update(Put(d, e[0].0, e[0].1), e[1..]), Put(d, e[0].0, e[0].1), e[1..])
    ensures KeyOrder(Update(d, e), d, e)
  {
    var k, v, e' := e[0].0, e[0].1, e[1..];
    var d' := Put(d, k, v);
    assert k !in Keys(e');
    NewKeysIgnore(Keys(d), k, e');
    PutShape(d, k, v);
    var later := NewKeys(Keys(d'), e');
    if k !in Keys(d) {
      assert d'[|d|].0 == k;
    }
    KeysThenShift(Update(d', e'), d, d', k, later, NewKeys(Keys(d), e));
  }

  /** Positions carry over from `d'` to `d` when `d'` is `d` with its keys kept and at most one key appended. */
  lemma KeysThenShift<K, V>(m: seq<(K, V)>, d: seq<(K, V)>, d': seq<(K, V)>, k: K, later: seq<K>, added: seq<K>)
    requires KeysThen(m, d', later) && |d| <= |d'|
    requires forall j :: 0 <= j < |d| ==> d'[j].0 == d[j].0
    requires |d'| == |d| ==> added == later
    requires |d'| != |d| ==> |d'| == |d| + 1 && d'[|d|].0 == k && added == [k] + later
    ensures KeysThen(m, d, added)
  {
    if |d'| != |d| {
      forall i | 0 <= i < |added|
        ensures m[|d| + i].0 == added[i]
      {
        if i > 0 {
          assert m[|d'| + (i - 1)].0 == later[i - 1];
        }
      }
    }
  }
}
