/** The iterator of kernel/map/src/map.c over a table that is not changed meanwhile. */
module MapIter {
  import opened Options
  import opened MapModel
  import opened MapList
  import opened MapTable

  const MAX_UNSIGNED := 0xFFFF_FFFF

  /** `++` on an unsigned */
  function Incremented(n: nat): nat {
    if n == MAX_UNSIGNED then 0 else n + 1
  }

  /** `map_iter_t`, passed in and out by value. */
  datatype Iter<K, V> = Iter(bucketidx: nat, node: Node?<K, V>)

  /** The entries from the iterator's node to the end of its bucket, and their nodes. */
  datatype Rest<K, V> = Rest(repr: set<Node<K, V>>, es: Chain<K, V>)

  /** `map_iter_`: the index is -1 converted to unsigned. */
  function New<K, V>(): Iter<K, V> {
    Iter(MAX_UNSIGNED, null)
  }

  /** The iterator stands on a node, or past the last bucket. */
  ghost predicate On<K, V>(it: Iter<K, V>, m: HashMap<K, V>, rest: Rest<K, V>)
    reads m, rest.repr
  {
    && it.bucketidx <= MAX_UNSIGNED
    && (if it.node == null then it.bucketidx >= m.nbuckets && rest.es == []
        else it.bucketidx < m.nbuckets && rest.es != [] && Owned(it.node, rest.repr, rest.es))
  }

  /** The entries of the buckets after one, in order; after the last index comes 0. */
  ghost function Beyond<K, V>(es: seq<Chain<K, V>>, bucketidx: nat): Chain<K, V> {
    var next := Incremented(bucketidx);
    if next < |es| then Flat(es[next..]) else []
  }

  /** What the calls to come will return. */
  ghost function Ahead<K, V>(it: Iter<K, V>, es: seq<Chain<K, V>>, rest: Rest<K, V>): Chain<K, V> {
    (if rest.es == [] then [] else rest.es[1..]) + Beyond(es, it.bucketidx)
  }

  lemma FlatStep<K, V>(es: seq<Chain<K, V>>, b: nat)
    requires b < |es| <= MAX_UNSIGNED
    ensures Flat(es[b..]) == es[b] + Beyond(es, b)
    ensures es[b] != [] ==> Flat(es[b..])[0] == es[b][0] && Flat(es[b..])[1..] == es[b][1..] + Beyond(es, b)
  {
    assert es[b..][0] == es[b] && es[b..][1..] == es[b + 1..];
    assert Incremented(b) == b + 1;
  }

  /** `map_next_` */
  method Next<K(==), V>(m: HashMap<K, V>, it: Iter<K, V>, ghost rest: Rest<K, V>)
    returns (it': Iter<K, V>, r: Option<K>, ghost rest': Rest<K, V>)
    requires m.Valid() && m.nbuckets <= MAX_UNSIGNED && On(it, m, rest)
    ensures On(it', m, rest')
    ensures r.None? <==> Ahead(it, m.es, rest) == []
    ensures r.Some? ==> r.value == Ahead(it, m.es, rest)[0].key && Ahead(it', m.es, rest') == Ahead(it, m.es, rest)[1..]
  {
    if it.node != null {
      var next := it.node.next;
      rest' := Rest(rest.repr - {it.node}, rest.es[1..]);
      assert Owned(next, rest'.repr, rest'.es);
      if next != null {
        return Iter(it.bucketidx, next), Some(next.key), rest';
      }
    }
    it', r, rest' := NextBucket(m, it.bucketidx);
  }

  /** Moves on to the first node of the next bucket that has one. */
  method NextBucket<K(==), V>(m: HashMap<K, V>, bucketidx: nat)
    returns (it: Iter<K, V>, r: Option<K>, ghost rest: Rest<K, V>)
    requires m.Valid() && m.nbuckets <= MAX_UNSIGNED && bucketidx <= MAX_UNSIGNED
    ensures On(it, m, rest)
    ensures r.None? <==> Beyond(m.es, bucketidx) == []
    ensures r.Some? ==> r.value == Beyond(m.es, bucketidx)[0].key
    ensures r.Some? ==> Ahead(it, m.es, rest) == Beyond(m.es, bucketidx)[1..]
  {
    var b := FirstFrom(m, Incremented(bucketidx));
    if b >= m.nbuckets {
      return Iter(b, null), None, Rest({}, []);
    }
    FlatStep(m.es, b);
    var node := m.buckets[b];
    return Iter(b, node), Some(node.key), Rest(m.reprs[b], m.es[b]);
  }

  /** The first bucket from `start` on with a node in it. */
  method FirstFrom<K(==), V>(m: HashMap<K, V>, start: nat) returns (b: nat)
    requires m.Valid() && m.nbuckets <= MAX_UNSIGNED && start <= MAX_UNSIGNED
    ensures b <= MAX_UNSIGNED
    ensures b < m.nbuckets ==> m.buckets[b] != null && m.es[b] != [] && Owned(m.buckets[b], m.reprs[b], m.es[b])
    ensures (if start < m.nbuckets then Flat(m.es[start..]) else []) == if b < m.nbuckets then Flat(m.es[b..]) else []
  {
    b := start;
    while b < m.nbuckets
      invariant b <= MAX_UNSIGNED
      invariant (if start < m.nbuckets then Flat(m.es[start..]) else [])
             == (if b < m.nbuckets then Flat(m.es[b..]) else [])
      decreases m.nbuckets - b
    {
      assert Owned(m.buckets[b], m.reprs[b], m.es[b]);
      if m.buckets[b] != null {
        return;
      }
      FlatStep(m.es, b);
      b := Incremented(b);
    }
  }

  /** Calling next until it returns NULL gives the keys of the table in order, each once. */
  method Keys<K(==), V>(m: HashMap<K, V>) returns (ks: seq<K>)
    requires m.Valid() && m.nbuckets <= MAX_UNSIGNED
    ensures |ks| == |Flat(m.es)| && forall i :: 0 <= i < |ks| ==> ks[i] == Flat(m.es)[i].key
  {
    ghost var all: Chain<K, V>, rest: Rest<K, V> := Flat(m.es), Rest({}, []);
    assert m.es[0..] == m.es;
    ks := [];
    var it: Iter<K, V> := New();
    var k: Option<K>;
    it, k, rest := Next(m, it, rest);
    while k.Some?
      invariant On(it, m, rest)
      invariant k.Some? ==> |ks| < |all| && k.value == all[|ks|].key && Ahead(it, m.es, rest) == all[|ks| + 1..]
      invariant k.None? ==> |ks| == |all|
      invariant |ks| <= |all| && forall i :: 0 <= i < |ks| ==> ks[i] == all[i].key
      decreases |all| - |ks|
    {
      ks := ks + [k.value];
      it, k, rest := Next(m, it, rest);
    }
  }
}
