/** The hash table of kernel/map/src/map.c on values: a chain of entries for every bucket.

The hash is any function of the key; keys are compared by equality, which is what a
comparison that agrees with the hash amounts to.
*/
module MapModel {
  import opened Options
  import Bits

  datatype Entry<K, V> = Entry(key: K, hash: nat, value: V)

  type Chain<K, V> = seq<Entry<K, V>>

  datatype Table<K, V> = Table(chains: seq<Chain<K, V>>, nnodes: nat)

  /** `map_bucketidx` */
  function Home(hash: nat, nbuckets: nat): (b: nat)
    requires nbuckets > 0
    ensures b < nbuckets
  {
    Bits.AndAtMost(hash, nbuckets - 1);
    Bits.And(hash, nbuckets - 1)
  }

  /** Where `map_getref` stops: the first entry with the hash and the key. */
  function Find<K(==), V>(c: Chain<K, V>, hash: nat, key: K): (i: nat)
    ensures i <= |c|
    ensures i < |c| ==> c[i].hash == hash && c[i].key == key
  {
    if c == [] then 0
    else if c[0].hash == hash && c[0].key == key then 0
    else 1 + Find(c[1..], hash, key)
  }

  function Get<K(==), V>(t: Table<K, V>, h: K -> nat, key: K): Option<V> {
    if t.chains == [] then None
    else
      var c := t.chains[Home(h(key), |t.chains|)];
      var i := Find(c, h(key), key);
      if i < |c| then Some(c[i].value) else None
  }

  /** `map_addnode` */
  function Add<K, V>(cs: seq<Chain<K, V>>, e: Entry<K, V>): (r: seq<Chain<K, V>>)
    requires cs != []
    ensures |r| == |cs|
  {
    var b := Home(e.hash, |cs|);
    cs[b := [e] + cs[b]]
  }

  function Reverse<T>(xs: seq<T>): (r: seq<T>)
    ensures |r| == |xs|
  {
    if xs == [] then [] else Reverse(xs[1..]) + [xs[0]]
  }

  /** The list the first loop of `map_resize` leaves in `nodes`: buckets are emptied from
      the last to the first, each node pushed onto the front. */
  function Drain<K, V>(cs: seq<Chain<K, V>>): Chain<K, V> {
    if cs == [] then [] else Reverse(cs[0]) + Drain(cs[1..])
  }

  function AddAll<K, V>(cs: seq<Chain<K, V>>, es: Chain<K, V>): (r: seq<Chain<K, V>>)
    requires cs != []
    ensures |r| == |cs|
    decreases |es|
  {
    if es == [] then cs else AddAll(Add(cs, es[0]), es[1..])
  }

  function Empty<K, V>(n: nat): (r: seq<Chain<K, V>>)
    ensures |r| == n && forall i :: 0 <= i < n ==> r[i] == []
  {
    seq(n, i => [])
  }

  /** `map_resize`; when the new bucket array cannot be had the old one is filled again. */
  function Resize<K, V>(cs: seq<Chain<K, V>>, nbuckets: nat, granted: bool): (r: seq<Chain<K, V>>)
    requires nbuckets > 0
    ensures |r| == if granted then nbuckets else |cs|
  {
    var n := if granted then nbuckets else |cs|;
    if n == 0 then [] else AddAll(Empty(n), Drain(cs))
  }

  /** `map_set_`; `granted` tells whether a bucket array asked for is granted. */
  function Set<K(==), V>(t: Table<K, V>, h: K -> nat, key: K, value: V, granted: bool): (Table<K, V>, bool) {
    var n := |t.chains|;
    var b := if n == 0 then 0 else Home(h(key), n);
    var i := if n == 0 then 0 else Find(t.chains[b], h(key), key);
    if n > 0 && i < |t.chains[b]| then
      (t.(chains := t.chains[b := t.chains[b][i := t.chains[b][i].(value := value)]]), true)
    else
      var cs := if t.nnodes >= n then Resize(t.chains, if n > 0 then 2 * n else 1, granted) else t.chains;
      if t.nnodes >= n && !granted then (t.(chains := cs), false)
      else (Table(Add(cs, Entry(key, h(key), value)), t.nnodes + 1), true)
  }

  /** `--` on an unsigned */
  function Decremented(n: nat): nat {
    if n == 0 then 0xFFFF_FFFF else n - 1
  }

  /** `map_remove_` */
  function Remove<K(==), V>(t: Table<K, V>, h: K -> nat, key: K): Table<K, V> {
    if t.chains == [] then t
    else
      var b := Home(h(key), |t.chains|);
      var c := t.chains[b];
      var i := Find(c, h(key), key);
      if i == |c| then t
      else Table(t.chains[b := c[..i] + c[i + 1..]], Decremented(t.nnodes))
  }

  // ---------------------------------------------------------------- what it stands for

  /** All entries, in the order the iterator visits them. */
  function Flat<K, V>(cs: seq<Chain<K, V>>): Chain<K, V> {
    if cs == [] then [] else cs[0] + Flat(cs[1..])
  }

  function MapOf<K, V>(es: Chain<K, V>): map<K, V> {
    if es == [] then map[] else MapOf(es[1..])[es[0].key := es[0].value]
  }

  function View<K, V>(t: Table<K, V>): map<K, V> {
    MapOf(Flat(t.chains))
  }

  ghost predicate DistinctKeys<K, V>(es: Chain<K, V>) {
    forall i, j :: 0 <= i < j < |es| ==> es[i].key != es[j].key
  }

  /** Every entry of chain `b` has its own hash, which leads to bucket `b` of `n`. */
  ghost predicate Housed<K, V>(c: Chain<K, V>, h: K -> nat, b: nat, n: nat)
    requires n > 0
  {
    forall i :: 0 <= i < |c| ==> c[i].hash == h(c[i].key) && Home(c[i].hash, n) == b
  }

  ghost predicate GoodChains<K, V>(cs: seq<Chain<K, V>>, h: K -> nat) {
    forall b :: 0 <= b < |cs| ==> Housed(cs[b], h, b, |cs|) && DistinctKeys(cs[b])
  }

  ghost predicate Inv<K, V>(t: Table<K, V>, h: K -> nat) {
    && (t.chains == [] || Bits.IsPow2(|t.chains|))
    && GoodChains(t.chains, h)
    && t.nnodes == |Flat(t.chains)|
    && t.nnodes <= |t.chains|
  }
}
