/** What setting and removing do to the buckets themselves, and with them to the order of
iteration. */
module MapShape {
  import opened Options
  import opened MapModel
  import opened MapProof
  import Bits

  /** Setting a key that is there changes one value and no order; a new key becomes the first
      of its bucket, which is found by division; the array grows only when it is as full as
      it may be, to twice its size or to one bucket. */
  lemma SetShape<K(!new), V>(t: Table<K, V>, h: K -> nat, key: K, value: V, granted: bool)
    requires Inv(t, h)
    ensures var (n, t', ok) := (|t.chains|, Set(t, h, key, value, granted).0, Set(t, h, key, value, granted).1);
      if key in View(t) then ok && SameOrder(t, t')
      else if t.nnodes < n then
        && ok && t'.nnodes == t.nnodes + 1
        && t'.chains == t.chains[h(key) % n := [Entry(key, h(key), value)] + t.chains[h(key) % n]]
      else
        var larger := if n > 0 then 2 * n else 1;
        && ok == granted && |t'.chains| == (if granted then larger else n)
        && (granted ==> var c := t'.chains[h(key) % larger]; c != [] && c[0] == Entry(key, h(key), value))
        && t'.nnodes == t.nnodes + if granted then 1 else 0
  {
    hide MapOf, Flat, Home, Resize;
    var n := |t.chains|;
    GetRefines(t, h, key);
    if n > 0 {
      HomeIsModulo(h(key), n);
    }
    if t.nnodes >= n {
      DoubledIsPow2(n);
      HomeIsModulo(h(key), if n > 0 then 2 * n else 1);
    }
  }

  /** The same keys in the same order in every bucket. */
  ghost predicate SameOrder<K, V>(t: Table<K, V>, t': Table<K, V>) {
    && |t'.chains| == |t.chains| && t'.nnodes == t.nnodes
    && forall b :: 0 <= b < |t.chains| ==>
         && |t'.chains[b]| == |t.chains[b]|
         && forall i :: 0 <= i < |t.chains[b]| ==> t'.chains[b][i].key == t.chains[b][i].key
  }

  /** Removing takes one entry out and leaves all others where they are, in order. */
  lemma RemoveShape<K(!new), V>(t: Table<K, V>, h: K -> nat, key: K)
    requires Inv(t, h)
    ensures var t' := Remove(t, h, key);
      if key !in View(t) then t' == t
      else
        && t'.nnodes == t.nnodes - 1
        && exists b, i :: 0 <= b < |t.chains| && 0 <= i < |t.chains[b]| && t.chains[b][i].key == key
             && t'.chains == t.chains[b := t.chains[b][..i] + t.chains[b][i + 1..]]
  {
    hide MapOf, Flat, Home;
    GetRefines(t, h, key);
    if key in View(t) {
      FlatIsTheMap(t, h);
      assert t.nnodes > 0;
    }
  }
}
