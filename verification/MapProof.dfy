/** The table refines a mathematical map, whatever the hash. */
module MapProof {
  import opened Options
  import opened MapModel
  import Bits

  // ---------------------------------------------------------------- one chain

  lemma {:induction false} FindMisses<K, V>(c: Chain<K, V>, hash: nat, key: K)
    ensures Find(c, hash, key) == |c| <==> forall i :: 0 <= i < |c| ==> c[i].hash != hash || c[i].key != key
  {
    if c != [] && !(c[0].hash == hash && c[0].key == key) {
      FindMisses(c[1..], hash, key);
      forall i | 0 <= i < |c| - 1
        ensures c[1..][i] == c[i + 1]
      {
      }
      if Find(c, hash, key) == |c| {
        forall i | 0 <= i < |c|
          ensures c[i].hash != hash || c[i].key != key
        {
          assert i > 0 ==> c[1..][i - 1] == c[i];
        }
      }
    }
  }

  /** With distinct keys there is one place a key can be found. */
  lemma FindAt<K, V>(c: Chain<K, V>, hash: nat, key: K, i: nat)
    requires DistinctKeys(c) && i < |c| && c[i].hash == hash && c[i].key == key
    ensures Find(c, hash, key) == i
  {
    FindMisses(c, hash, key);
  }

  function Value<K(==), V>(c: Chain<K, V>, hash: nat, key: K): Option<V> {
    var i := Find(c, hash, key);
    if i < |c| then Some(c[i].value) else None
  }

  lemma ValueHead<K, V>(c: Chain<K, V>, e: Entry<K, V>, hash: nat, key: K)
    ensures Value([e] + c, hash, key) == if e.hash == hash && e.key == key then Some(e.value) else Value(c, hash, key)
  {
    assert ([e] + c)[1..] == c;
  }

  lemma {:induction false} ValueUpdate<K, V>(c: Chain<K, V>, i: nat, v: V, hash: nat, key: K)
    requires i < |c| && DistinctKeys(c)
    ensures Value(c[i := c[i].(value := v)], hash, key) ==
            if c[i].hash == hash && c[i].key == key then Some(v) else Value(c, hash, key)
  {
    var c' := c[i := c[i].(value := v)];
    var j := Find(c, hash, key);
    FindMisses(c, hash, key);
    FindMisses(c', hash, key);
    if j < |c| {
      FindAt(c', hash, key, j);
    }
  }

  lemma ValueRemove<K, V>(c: Chain<K, V>, i: nat, hash: nat, key: K)
    requires i < |c| && DistinctKeys(c)
    ensures Value(c[..i] + c[i + 1..], hash, key) ==
            if c[i].hash == hash && c[i].key == key then None else Value(c, hash, key)
    ensures DistinctKeys(c[..i] + c[i + 1..])
  {
    var c' := c[..i] + c[i + 1..];
    assert forall j :: 0 <= j < |c'| ==> c'[j] == c[if j < i then j else j + 1];
    var j := Find(c, hash, key);
    FindMisses(c, hash, key);
    FindMisses(c', hash, key);
    if j < |c| && j != i {
      FindAt(c', hash, key, if j < i then j else j - 1);
    }
  }

  // ---------------------------------------------------------------- all chains

  lemma {:induction false} InFlat<K, V>(cs: seq<Chain<K, V>>, e: Entry<K, V>)
    ensures e in Flat(cs) <==> exists b :: 0 <= b < |cs| && e in cs[b]
  {
    if cs != [] {
      InFlat(cs[1..], e);
      assert e in Flat(cs) <==> e in cs[0] || e in Flat(cs[1..]);
      if b :| 0 <= b < |cs| && e in cs[b] {
        assert b > 0 ==> e in cs[1..][b - 1];
      }
    }
  }

  /** No key is in two chains, so all keys together are distinct. */
  lemma {:induction false} FlatDistinct<K, V>(cs: seq<Chain<K, V>>, h: K -> nat, off: nat, n: nat)
    requires off + |cs| == n > 0
    requires forall b :: 0 <= b < |cs| ==> Housed(cs[b], h, off + b, n) && DistinctKeys(cs[b])
    ensures DistinctKeys(Flat(cs))
    ensures forall i :: 0 <= i < |Flat(cs)| ==> Home(h(Flat(cs)[i].key), n) >= off
  {
    if cs != [] {
      var rest := Flat(cs[1..]);
      forall b | 0 <= b < |cs| - 1
        ensures Housed(cs[1..][b], h, off + 1 + b, n) && DistinctKeys(cs[1..][b])
      {
        assert cs[1..][b] == cs[b + 1];
      }
      if |cs| > 1 {
        FlatDistinct(cs[1..], h, off + 1, n);
      }
      forall i | 0 <= i < |cs[0]|
        ensures Home(h(cs[0][i].key), n) == off
      {
        assert Housed(cs[0], h, off + 0, n);
      }
    }
  }

  lemma {:induction false} MapOfFacts<K, V>(es: Chain<K, V>)
    requires DistinctKeys(es)
    ensures forall i :: 0 <= i < |es| ==> es[i].key in MapOf(es) && MapOf(es)[es[i].key] == es[i].value
    ensures forall k :: k in MapOf(es) ==> exists i :: 0 <= i < |es| && es[i].key == k
  {
    if es != [] {
      MapOfFacts(es[1..]);
      forall i | 0 <= i < |es|
        ensures es[i].key in MapOf(es) && MapOf(es)[es[i].key] == es[i].value
      {
        assert i > 0 ==> es[i] == es[1..][i - 1];
      }
      forall k | k in MapOf(es)
        ensures exists i :: 0 <= i < |es| && es[i].key == k
      {
        if k == es[0].key {
          assert es[0].key == k;
        } else {
          var i :| 0 <= i < |es[1..]| && es[1..][i].key == k;
          assert es[i + 1].key == k;
        }
      }
    }
  }

  /** Looking a key up gives what the map it stands for gives. */
  lemma GetRefines<K, V>(t: Table<K, V>, h: K -> nat, key: K)
    requires GoodChains(t.chains, h)
    ensures Get(t, h, key) == if key in View(t) then Some(View(t)[key]) else None
  {
    var n := |t.chains|;
    if n > 0 {
      var flat := Flat(t.chains);
      FlatDistinct(t.chains, h, 0, n);
      MapOfFacts(flat);
      var b := Home(h(key), n);
      var c := t.chains[b];
      var i := Find(c, h(key), key);
      FindMisses(c, h(key), key);
      if i < |c| {
        InFlat(t.chains, c[i]);
        var j :| 0 <= j < |flat| && flat[j] == c[i];
      } else if key in View(t) {
        var j :| 0 <= j < |flat| && flat[j].key == key;
        InFlat(t.chains, flat[j]);
        var b' :| 0 <= b' < n && flat[j] in t.chains[b'];
      }
    }
  }

  /** Two tables that answer alike, but for one key, stand for maps that differ there. */
  lemma ViewFromGet<K(!new), V>(t: Table<K, V>, t': Table<K, V>, h: K -> nat, m: map<K, V>)
    requires GoodChains(t'.chains, h)
    requires forall k :: Get(t', h, k) == if k in m then Some(m[k]) else None
    ensures View(t') == m
  {
    forall k
      ensures k in View(t') <==> k in m
      ensures k in m ==> View(t')[k] == m[k]
    {
      GetRefines(t', h, k);
    }
  }

  // ---------------------------------------------------------------- set and remove

  lemma UpdateGood<K, V>(cs: seq<Chain<K, V>>, h: K -> nat, b: nat, c: Chain<K, V>)
    requires GoodChains(cs, h) && b < |cs| && Housed(c, h, b, |cs|) && DistinctKeys(c)
    ensures GoodChains(cs[b := c], h)
  {
  }

  lemma {:induction false} FlatLength<K, V>(cs: seq<Chain<K, V>>, b: nat, c: Chain<K, V>)
    requires b < |cs|
    ensures |Flat(cs[b := c])| == |Flat(cs)| - |cs[b]| + |c|
  {
    if b == 0 {
      assert cs[0 := c][1..] == cs[1..];
    } else {
      assert cs[b := c][1..] == cs[1..][b - 1 := c];
      FlatLength(cs[1..], b - 1, c);
    }
  }

  /** The new value under an old key. */
  lemma SetOldRefines<K(!new), V>(t: Table<K, V>, h: K -> nat, key: K, value: V, granted: bool)
    requires Inv(t, h) && Get(t, h, key).Some?
    ensures var (t', ok) := Set(t, h, key, value, granted);
      ok && Inv(t', h) && View(t') == View(t)[key := value]
  {
    var b := Home(h(key), |t.chains|);
    var c := t.chains[b];
    var i := Find(c, h(key), key);
    var c' := c[i := c[i].(value := value)];
    UpdateGood(t.chains, h, b, c');
    FlatLength(t.chains, b, c');
    var t' := t.(chains := t.chains[b := c']);
    forall k
      ensures Get(t', h, k) == if k in View(t)[key := value] then Some(View(t)[key := value][k]) else None
    {
      GetRefines(t, h, k);
      ValueUpdate(c, i, value, h(k), k);
    }
    ViewFromGet(t, t', h, View(t)[key := value]);
  }

  /** A key that was not there is put at the head of its chain. */
  lemma AddRefines<K(!new), V>(cs: seq<Chain<K, V>>, h: K -> nat, key: K, value: V, n: nat)
    requires cs != [] && GoodChains(cs, h) && Get(Table(cs, n), h, key).None?
    ensures var cs' := Add(cs, Entry(key, h(key), value));
      && GoodChains(cs', h) && |Flat(cs')| == |Flat(cs)| + 1
      && View(Table(cs', n + 1)) == View(Table(cs, n))[key := value]
  {
    var t := Table(cs, n);
    var e := Entry(key, h(key), value);
    var b := Home(h(key), |cs|);
    var c := cs[b];
    FindMisses(c, h(key), key);
    UpdateGood(cs, h, b, [e] + c);
    FlatLength(cs, b, [e] + c);
    var t' := Table(Add(cs, e), n + 1);
    var m := View(t)[key := value];
    forall k
      ensures Get(t', h, k) == if k in m then Some(m[k]) else None
    {
      GetRefines(t, h, k);
      ValueHead(c, e, h(k), k);
    }
    ViewFromGet(t, t', h, m);
  }

  lemma RemoveRefines<K(!new), V>(t: Table<K, V>, h: K -> nat, key: K)
    requires Inv(t, h)
    ensures Inv(Remove(t, h, key), h) && View(Remove(t, h, key)) == View(t) - {key}
  {
    hide MapOf, Flat;
    GetRefines(t, h, key);
    if Get(t, h, key).Some? {
      var b := Home(h(key), |t.chains|);
      var c := t.chains[b];
      var i := Find(c, h(key), key);
      var c' := c[..i] + c[i + 1..];
      ValueRemove(c, i, h(key), key);
      assert forall j :: 0 <= j < |c'| ==> c'[j] == c[if j < i then j else j + 1];
      UpdateGood(t.chains, h, b, c');
      FlatLength(t.chains, b, c');
      var t', m := Remove(t, h, key), View(t) - {key};
      forall k
        ensures Get(t', h, k) == if k in m then Some(m[k]) else None
      {
        GetRefines(t, h, k);
        ValueRemove(c, i, h(k), k);
      }
      ViewFromGet(t, t', h, m);
    }
  }

  // ---------------------------------------------------------------- resize

  /** The entries of a list that belong in bucket `b` of `n`. */
  function Select<K, V>(es: Chain<K, V>, n: nat, b: nat): Chain<K, V>
    requires n > 0
  {
    if es == [] then []
    else if Home(es[0].hash, n) == b then [es[0]] + Select(es[1..], n, b)
    else Select(es[1..], n, b)
  }

  /** Re-adding reverses the order within each bucket. */
  lemma {:induction false} AddAllOrder<K, V>(cs: seq<Chain<K, V>>, es: Chain<K, V>, b: nat)
    requires b < |cs|
    ensures AddAll(cs, es)[b] == Reverse(Select(es, |cs|, b)) + cs[b]
    decreases |es|
  {
    if es != [] {
      AddAllOrder(Add(cs, es[0]), es[1..], b);
      var rest := Reverse(Select(es[1..], |cs|, b));
      if Home(es[0].hash, |cs|) == b {
        assert ([es[0]] + Select(es[1..], |cs|, b))[1..] == Select(es[1..], |cs|, b);
        assert rest + ([es[0]] + cs[b]) == rest + [es[0]] + cs[b];
      }
    }
  }

  lemma {:induction false} SelectAppend<K, V>(xs: Chain<K, V>, ys: Chain<K, V>, n: nat, b: nat)
    requires n > 0
    ensures Select(xs + ys, n, b) == Select(xs, n, b) + Select(ys, n, b)
  {
    if xs == [] {
      assert xs + ys == ys;
    } else {
      assert (xs + ys)[1..] == xs[1..] + ys;
      SelectAppend(xs[1..], ys, n, b);
    }
  }

  lemma {:induction false} ReverseAppend<T>(xs: seq<T>, ys: seq<T>)
    ensures Reverse(xs + ys) == Reverse(ys) + Reverse(xs)
  {
    if xs == [] {
      assert xs + ys == ys;
    } else {
      assert (xs + ys)[1..] == xs[1..] + ys;
      ReverseAppend(xs[1..], ys);
    }
  }

  lemma {:induction false} ReverseTwice<T>(xs: seq<T>)
    ensures Reverse(Reverse(xs)) == xs
  {
    if xs != [] {
      ReverseAppend(Reverse(xs[1..]), [xs[0]]);
      ReverseTwice(xs[1..]);
      assert [xs[0]][1..] == [];
      assert Reverse([xs[0]]) == [xs[0]];
    }
  }

  lemma {:induction false} SelectReverse<K, V>(xs: Chain<K, V>, n: nat, b: nat)
    requires n > 0
    ensures Select(Reverse(xs), n, b) == Reverse(Select(xs, n, b))
  {
    if xs != [] {
      SelectReverse(xs[1..], n, b);
      SelectAppend(Reverse(xs[1..]), [xs[0]], n, b);
      assert [xs[0]][1..] == [];
      if Home(xs[0].hash, n) == b {
        assert ([xs[0]] + Select(xs[1..], n, b))[1..] == Select(xs[1..], n, b);
      }
    }
  }

  /** What a resize to `m` buckets leaves in bucket `b`: the entries that belong there, the
      later buckets' first, each bucket's in the order they had. */
  function Gather<K, V>(cs: seq<Chain<K, V>>, m: nat, b: nat): Chain<K, V>
    requires m > 0
  {
    if cs == [] then [] else Gather(cs[1..], m, b) + Select(cs[0], m, b)
  }

  lemma {:induction false} DrainGathered<K, V>(cs: seq<Chain<K, V>>, m: nat, b: nat)
    requires m > 0
    ensures Reverse(Select(Drain(cs), m, b)) == Gather(cs, m, b)
  {
    if cs != [] {
      DrainGathered(cs[1..], m, b);
      SelectAppend(Reverse(cs[0]), Drain(cs[1..]), m, b);
      SelectReverse(cs[0], m, b);
      var s := Select(cs[0], m, b);
      ReverseAppend(Reverse(s), Select(Drain(cs[1..]), m, b));
      ReverseTwice(s);
    }
  }

  lemma ResizeGathers<K, V>(cs: seq<Chain<K, V>>, nbuckets: nat, granted: bool, b: nat)
    requires nbuckets > 0 && b < |Resize(cs, nbuckets, granted)|
    ensures Resize(cs, nbuckets, granted)[b] == Gather(cs, |Resize(cs, nbuckets, granted)|, b)
  {
    var n := |Resize(cs, nbuckets, granted)|;
    AddAllOrder(Empty(n), Drain(cs), b);
    DrainGathered(cs, n, b);
  }

  lemma {:induction false} SelectAllOrNone<K, V>(c: Chain<K, V>, h: K -> nat, own: nat, n: nat, b: nat)
    requires n > 0 && Housed(c, h, own, n)
    ensures Select(c, n, b) == if own == b then c else []
  {
    if c != [] {
      SelectAllOrNone(c[1..], h, own, n, b);
    }
  }

  lemma {:induction false} GatherBack<K, V>(cs: seq<Chain<K, V>>, h: K -> nat, off: nat, n: nat, b: nat)
    requires n > 0 && forall i :: 0 <= i < |cs| ==> Housed(cs[i], h, off + i, n)
    ensures Gather(cs, n, b) == if off <= b < off + |cs| then cs[b - off] else []
  {
    if cs != [] {
      forall i | 0 <= i < |cs| - 1
        ensures Housed(cs[1..][i], h, off + 1 + i, n)
      {
        assert cs[1..][i] == cs[i + 1];
      }
      GatherBack(cs[1..], h, off + 1, n, b);
      assert Housed(cs[0], h, off + 0, n);
      SelectAllOrNone(cs[0], h, off, n, b);
    }
  }

  /** A resize that is refused leaves every chain as it was, order and all. */
  lemma RefusedResize<K, V>(cs: seq<Chain<K, V>>, h: K -> nat, nbuckets: nat)
    requires nbuckets > 0 && GoodChains(cs, h)
    ensures Resize(cs, nbuckets, false) == cs
  {
    forall b | 0 <= b < |cs|
      ensures Resize(cs, nbuckets, false)[b] == cs[b]
    {
      ResizeGathers(cs, nbuckets, false, b);
      GatherBack(cs, h, 0, |cs|, b);
    }
  }

  lemma {:induction false} SelectHas<K, V>(c: Chain<K, V>, m: nat, b: nat, e: Entry<K, V>)
    requires m > 0
    ensures e in Select(c, m, b) <==> e in c && Home(e.hash, m) == b
  {
    if c != [] {
      SelectHas(c[1..], m, b, e);
      assert c == [c[0]] + c[1..];
    }
  }

  lemma {:induction false} GatherHas<K, V>(cs: seq<Chain<K, V>>, m: nat, b: nat, e: Entry<K, V>)
    requires m > 0
    ensures e in Gather(cs, m, b) <==> e in Flat(cs) && Home(e.hash, m) == b
  {
    if cs != [] {
      GatherHas(cs[1..], m, b, e);
      SelectHas(cs[0], m, b, e);
    }
  }

  lemma {:induction false} SelectDistinct<K, V>(c: Chain<K, V>, m: nat, b: nat)
    requires m > 0 && DistinctKeys(c)
    ensures DistinctKeys(Select(c, m, b))
  {
    if c != [] {
      SelectDistinct(c[1..], m, b);
      var rest := Select(c[1..], m, b);
      forall i | 0 <= i < |rest|
        ensures rest[i].key != c[0].key
      {
        SelectHas(c[1..], m, b, rest[i]);
        var j :| 0 <= j < |c| - 1 && c[1..][j] == rest[i];
      }
    }
  }

  /** No key of one list is a key of the other. */
  ghost predicate Apart<K, V>(xs: Chain<K, V>, ys: Chain<K, V>) {
    forall i, j :: 0 <= i < |xs| && 0 <= j < |ys| ==> xs[i].key != ys[j].key
  }

  lemma DistinctParts<K, V>(xs: Chain<K, V>, ys: Chain<K, V>)
    ensures DistinctKeys(xs + ys) <==> DistinctKeys(xs) && DistinctKeys(ys) && Apart(xs, ys)
  {
    var both := xs + ys;
    if DistinctKeys(both) {
      forall i, j | 0 <= i < j < |xs|
        ensures xs[i].key != xs[j].key
      {
        assert both[i].key != both[j].key;
      }
      forall i, j | 0 <= i < j < |ys|
        ensures ys[i].key != ys[j].key
      {
        assert both[|xs| + i].key != both[|xs| + j].key;
      }
      forall i, j | 0 <= i < |xs| && 0 <= j < |ys|
        ensures xs[i].key != ys[j].key
      {
        assert both[i].key != both[|xs| + j].key;
      }
    }
  }

  lemma {:induction false} GatherDistinct<K, V>(cs: seq<Chain<K, V>>, m: nat, b: nat)
    requires m > 0 && DistinctKeys(Flat(cs))
    ensures DistinctKeys(Gather(cs, m, b))
  {
    if cs != [] {
      DistinctParts(cs[0], Flat(cs[1..]));
      GatherDistinct(cs[1..], m, b);
      SelectDistinct(cs[0], m, b);
      GatherApart(cs, m, b);
      DistinctParts(Gather(cs[1..], m, b), Select(cs[0], m, b));
    }
  }

  lemma GatherApart<K, V>(cs: seq<Chain<K, V>>, m: nat, b: nat)
    requires m > 0 && cs != [] && Apart(cs[0], Flat(cs[1..]))
    ensures Apart(Gather(cs[1..], m, b), Select(cs[0], m, b))
  {
    var xs, ys := Gather(cs[1..], m, b), Select(cs[0], m, b);
    forall i, j | 0 <= i < |xs| && 0 <= j < |ys|
      ensures xs[i].key != ys[j].key
    {
      GatherHas(cs[1..], m, b, xs[i]);
      SelectHas(cs[0], m, b, ys[j]);
    }
  }

  lemma GatherGood<K, V>(cs: seq<Chain<K, V>>, h: K -> nat, m: nat, b: nat)
    requires GoodChains(cs, h) && m > 0
    ensures Housed(Gather(cs, m, b), h, b, m) && DistinctKeys(Gather(cs, m, b))
  {
    if cs != [] {
      FlatDistinct(cs, h, 0, |cs|);
      GatherDistinct(cs, m, b);
      var g := Gather(cs, m, b);
      forall i | 0 <= i < |g|
        ensures g[i].hash == h(g[i].key) && Home(g[i].hash, m) == b
      {
        GatherHas(cs, m, b, g[i]);
        InFlat(cs, g[i]);
        var c :| 0 <= c < |cs| && g[i] in cs[c];
        assert Housed(cs[c], h, c, |cs|);
      }
    }
  }

  lemma ResizeGood<K, V>(cs: seq<Chain<K, V>>, h: K -> nat, m: nat)
    requires GoodChains(cs, h) && m > 0
    ensures GoodChains(Resize(cs, m, true), h)
  {
    forall b | 0 <= b < m
      ensures Housed(Resize(cs, m, true)[b], h, b, m) && DistinctKeys(Resize(cs, m, true)[b])
    {
      ResizeGathers(cs, m, true, b);
      GatherGood(cs, h, m, b);
    }
  }

  /** Every key is found after a resize as it was before. */
  lemma ResizeGet<K, V>(cs: seq<Chain<K, V>>, h: K -> nat, m: nat, key: K, n: nat)
    requires GoodChains(cs, h) && m > 0
    ensures Get(Table(Resize(cs, m, true), n), h, key) == Get(Table(cs, n), h, key)
  {
    var b := Home(h(key), m);
    var g := Gather(cs, m, b);
    ResizeGathers(cs, m, true, b);
    GatherGood(cs, h, m, b);
    FindMisses(g, h(key), key);
    if cs != [] {
      var b0 := Home(h(key), |cs|);
      var i := Find(cs[b0], h(key), key);
      if i < |cs[b0]| {
        InFlat(cs, cs[b0][i]);
        GatherHas(cs, m, b, cs[b0][i]);
        var j :| 0 <= j < |g| && g[j] == cs[b0][i];
        FindAt(g, h(key), key, j);
      } else if Find(g, h(key), key) < |g| {
        var e := g[Find(g, h(key), key)];
        GatherHas(cs, m, b, e);
        InFlat(cs, e);
        FindMisses(cs[b0], h(key), key);
      }
    }
  }

  lemma {:induction false} AddAllCount<K, V>(cs: seq<Chain<K, V>>, es: Chain<K, V>)
    requires cs != []
    ensures |Flat(AddAll(cs, es))| == |Flat(cs)| + |es|
    decreases |es|
  {
    if es != [] {
      var b := Home(es[0].hash, |cs|);
      FlatLength(cs, b, [es[0]] + cs[b]);
      AddAllCount(Add(cs, es[0]), es[1..]);
    }
  }

  lemma {:induction false} DrainCount<K, V>(cs: seq<Chain<K, V>>)
    ensures |Drain(cs)| == |Flat(cs)|
  {
    if cs != [] {
      DrainCount(cs[1..]);
    }
  }

  lemma {:induction false} EmptyFlat<K, V>(cs: seq<Chain<K, V>>)
    requires forall b :: 0 <= b < |cs| ==> cs[b] == []
    ensures Flat(cs) == []
  {
    if cs != [] {
      EmptyFlat(cs[1..]);
    }
  }

  /** A resize keeps the map, on success and when the new array is refused. */
  lemma ResizeRefines<K(!new), V>(cs: seq<Chain<K, V>>, h: K -> nat, nbuckets: nat, granted: bool, n: nat)
    requires GoodChains(cs, h) && nbuckets > 0
    ensures var cs' := Resize(cs, nbuckets, granted);
      GoodChains(cs', h) && View(Table(cs', n)) == View(Table(cs, n)) && |Flat(cs')| == |Flat(cs)|
  {
    if granted {
      var cs' := Resize(cs, nbuckets, true);
      ResizeGood(cs, h, nbuckets);
      forall k
        ensures Get(Table(cs', n), h, k) == if k in View(Table(cs, n)) then Some(View(Table(cs, n))[k]) else None
      {
        ResizeGet(cs, h, nbuckets, k, n);
        GetRefines(Table(cs, n), h, k);
      }
      ViewFromGet(Table(cs, n), Table(cs', n), h, View(Table(cs, n)));
      AddAllCount(Empty(nbuckets), Drain(cs));
      DrainCount(cs);
      EmptyFlat<K, V>(Empty(nbuckets));
    } else {
      RefusedResize(cs, h, nbuckets);
    }
  }

  /** Setting a key: the map gains it, or nothing changes and the call fails; it fails
      exactly when the key is new, the table is full and no larger array is granted. */
  lemma SetRefines<K(!new), V>(t: Table<K, V>, h: K -> nat, key: K, value: V, granted: bool)
    requires Inv(t, h)
    ensures var (t', ok) := Set(t, h, key, value, granted);
      && Inv(t', h)
      && (ok <==> granted || key in View(t) || t.nnodes < |t.chains|)
      && (if ok then View(t') == View(t)[key := value] else t' == t)
  {
    GetRefines(t, h, key);
    if Get(t, h, key).Some? {
      SetOldRefines(t, h, key, value, granted);
    } else {
      var n := |t.chains|;
      if t.nnodes >= n {
        var larger := if n > 0 then 2 * n else 1;
        ResizeRefines(t.chains, h, larger, granted, t.nnodes);
        if granted {
          var cs := Resize(t.chains, larger, true);
          GetRefines(Table(cs, t.nnodes), h, key);
          AddRefines(cs, h, key, value, t.nnodes);
          DoubledIsPow2(n);
        } else {
          RefusedResize(t.chains, h, larger);
        }
      } else {
        AddRefines(t.chains, h, key, value, t.nnodes);
      }
    }
  }

  lemma DoubledIsPow2(n: nat)
    requires n == 0 || Bits.IsPow2(n)
    ensures Bits.IsPow2(if n > 0 then 2 * n else 1)
  {
    if n == 0 {
      assert Bits.Pow2(0) == 1;
    } else {
      var k: nat :| n == Bits.Pow2(k);
      assert Bits.Pow2(k + 1) == 2 * n;
    }
  }

  /** The mask picks the bucket the division of the hash by their number would. */
  lemma HomeIsModulo(hash: nat, n: nat)
    requires Bits.IsPow2(n)
    ensures n > 0 && Home(hash, n) == hash % n
  {
    var k: nat :| n == Bits.Pow2(k);
    Bits.AndLowMask(hash, k);
  }

  lemma {:induction false} MapOfSize<K, V>(es: Chain<K, V>)
    requires DistinctKeys(es)
    ensures |MapOf(es)| == |es|
  {
    if es != [] {
      MapOfSize(es[1..]);
      MapOfFacts(es[1..]);
      assert es[0].key !in MapOf(es[1..]);
    }
  }

  /** In the order of the iterator every key of the map comes once, with its value, and
      nothing else does; the count of nodes is the size of the map. */
  lemma FlatIsTheMap<K, V>(t: Table<K, V>, h: K -> nat)
    requires Inv(t, h)
    ensures DistinctKeys(Flat(t.chains)) && t.nnodes == |View(t)|
    ensures forall i :: 0 <= i < |Flat(t.chains)| ==>
              Flat(t.chains)[i].key in View(t) && View(t)[Flat(t.chains)[i].key] == Flat(t.chains)[i].value
    ensures forall k :: k in View(t) ==> exists i :: 0 <= i < |Flat(t.chains)| && Flat(t.chains)[i].key == k
  {
    if t.chains != [] {
      FlatDistinct(t.chains, h, 0, |t.chains|);
    }
    MapOfFacts(Flat(t.chains));
    MapOfSize(Flat(t.chains));
  }
}
