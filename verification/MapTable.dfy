/** The table of kernel/map/src/map.c: an array of list heads, changed in place.  Each
method is proved against the function of the same name in MapModel. */
module MapTable {
  import opened Options
  import opened MapModel
  import opened MapList

  /** A `map_node_t **`: the head of a bucket, or the `next` of a node. */
  datatype Ref<K, V> = Head(b: nat) | Link(node: Node<K, V>)

  /** A cell of bucket `b`: the entries before it and from it on, and the nodes of each. */
  datatype Place<K, V> = Place(b: nat, rb: set<Node<K, V>>, rf: set<Node<K, V>>, before: Chain<K, V>, from: Chain<K, V>)

  class HashMap<K(==), V> {
    const hashFn: K -> nat
    var buckets: array<Node?<K, V>>
    var nbuckets: nat
    var nnodes: nat
    ghost var es: seq<Chain<K, V>>           // what each bucket holds
    ghost var reprs: seq<set<Node<K, V>>>    // the nodes of each bucket
    ghost var nodes: set<Node<K, V>>         // all of them

    ghost predicate Valid()
      reads this, buckets, nodes
    {
      && buckets.Length == nbuckets == |es| == |reprs|
      && (forall b :: 0 <= b < |reprs| ==> reprs[b] <= nodes)
      && (forall b, c :: 0 <= b < c < |reprs| ==> reprs[b] !! reprs[c])
      && (forall b :: 0 <= b < |reprs| ==> Owned(buckets[b], reprs[b], es[b]))
    }

    ghost function View(): Table<K, V>
      reads this
    {
      Table(es, nnodes)
    }

    constructor (hashFn: K -> nat)
      ensures Valid() && View() == Table([], 0) && this.hashFn == hashFn && fresh(buckets) && nodes == {}
    {
      this.hashFn := hashFn;
      buckets := new Node?<K, V>[0];
      nbuckets, nnodes, es, reprs, nodes := 0, 0, [], [], {};
    }

    /** `map_addnode` */
    method AddNode(node: Node<K, V>)
      requires Valid() && nbuckets > 0 && node !in nodes
      modifies buckets, node`next, this`es, this`reprs, this`nodes
      ensures Valid() && es == Add(old(es), old(node.Entry())) && nodes == old(nodes) + {node}
    {
      var n := Home(node.hash, nbuckets);
      node.next := buckets[n];
      Pushed(node, reprs[n], es[n]);
      buckets[n] := node;
      es := es[n := [node.Entry()] + es[n]];
      reprs := reprs[n := reprs[n] + {node}];
      nodes := nodes + {node};
    }

    function Deref(ref: Ref<K, V>): Node?<K, V>
      requires ref.Head? ==> ref.b < buckets.Length
      reads this, buckets, if ref.Link? then {ref.node} else {}
    {
      match ref
      case Head(b) => buckets[b]
      case Link(node) => node.next
    }

    ghost predicate PlaceOf(ref: Ref<K, V>, at: Place<K, V>)
      requires at.b < |reprs| == |es| == buckets.Length
      requires at.rb + at.rf <= nodes
      reads this, buckets, nodes
    {
      && at.rb !! at.rf && at.rb + at.rf <= reprs[at.b] && es[at.b] == at.before + at.from
      && match ref
         case Head(b) => b == at.b && at.before == [] && Owned(buckets[b], at.rf, at.from)
         case Link(prev) =>
           && at.before != [] && prev in at.rb && prev.Entry() == at.before[|at.before| - 1]
           && Segment(buckets[at.b], prev, at.rb - {prev}, at.before[..|at.before| - 1])
           && Owned(prev.next, at.rf, at.from)
    }

    /** The cell's node is reached by walking over the entries before it. */
    lemma Reached(ref: Ref<K, V>, at: Place<K, V>)
      requires at.b < |reprs| == |es| == buckets.Length && at.rb + at.rf <= nodes && PlaceOf(ref, at)
      ensures Segment(buckets[at.b], Deref(ref), at.rb, at.before)
    {
      if ref.Link? {
        var prev := ref.node;
        var init := at.before[..|at.before| - 1];
        Extend(buckets[at.b], prev, at.rb - {prev}, init);
        assert at.rb - {prev} + {prev} == at.rb && init + [prev.Entry()] == at.before;
      }
    }

    ghost function Step(node: Node<K, V>, at: Place<K, V>): Place<K, V>
      requires at.from != []
      reads node
    {
      Place(at.b, at.rb + {node}, at.rf - {node}, at.before + [node.Entry()], at.from[1..])
    }

    lemma StepPlace(ref: Ref<K, V>, at: Place<K, V>, node: Node<K, V>)
      requires at.b < |reprs| == |es| == buckets.Length && at.rb + at.rf <= nodes && PlaceOf(ref, at)
      requires node == Deref(ref)
      ensures at.from != [] && at.rb + {node} + (at.rf - {node}) <= nodes && PlaceOf(Link(node), Step(node, at))
    {
      Reached(ref, at);
      var to := Step(node, at);
      assert to.rb - {node} == at.rb;
      assert to.before[..|to.before| - 1] == at.before;
      assert at.before + at.from == to.before + to.from;
    }

    /** `map_getref`; with it, what stands before and from the cell on. */
    method GetRef(key: K) returns (ref: Option<Ref<K, V>>, ghost at: Place<K, V>)
      requires Valid()
      ensures ref.None? <==> Get(View(), hashFn, key).None?
      ensures ref.Some? ==>
        && nbuckets > 0 && at.b == Home(hashFn(key), nbuckets) && |at.before| == Find(es[at.b], hashFn(key), key)
        && at.rb + at.rf <= nodes && PlaceOf(ref.value, at) && at.from != []
    {
      var hash := hashFn(key);
      if nbuckets == 0 {
        return None, Place(0, {}, {}, [], []);
      }
      var n := Home(hash, nbuckets);
      var next: Ref<K, V> := Head(n);
      var node := buckets[n];
      at := Place(n, {}, reprs[n], [], es[n]);
      while node != null
        invariant at.b == n && at.rb + at.rf <= nodes && PlaceOf(next, at)
        invariant node == Deref(next)
        invariant |at.before| + Find(at.from, hash, key) == Find(es[n], hash, key)
        decreases |at.from|
      {
        if node.hash == hash && node.key == key {
          return Some(next), at;
        }
        StepPlace(next, at, node);
        at := Step(node, at);
        next := Link(node);
        node := node.next;
      }
      return None, at;
    }

    /** `map_get_` */
    method Lookup(key: K) returns (r: Option<V>)
      requires Valid()
      ensures r == Get(View(), hashFn, key)
    {
      var next, at := GetRef(key);
      if next.None? {
        return None;
      }
      var node := Deref(next.value);
      return Some(node.value);
    }

    /** A key that is there gets a new value in its node. */
    method Assign(ref: Ref<K, V>, ghost at: Place<K, V>, value: V)
      requires Valid() && at.b < nbuckets && at.rb + at.rf <= nodes && PlaceOf(ref, at) && at.from != []
      modifies this`es, at.rf
      ensures Valid() && es == old(es)[at.b := at.before + [at.from[0].(value := value)] + at.from[1..]]
    {
      Reached(ref, at);
      var node := Deref(ref);
      node.value := value;
      ghost var from' := [at.from[0].(value := value)] + at.from[1..];
      assert from'[1..] == at.from[1..];
      Join(buckets[at.b], node, at.rb, at.rf, at.before, from');
      OwnedWiden(buckets[at.b], at.rb + at.rf, reprs[at.b], at.before + from');
      assert at.before + from' == at.before + [at.from[0].(value := value)] + at.from[1..];
      es := es[at.b := at.before + from'];
    }

    /** The cell is made to point past its node. */
    method Splice(ref: Ref<K, V>, ghost at: Place<K, V>)
      requires Valid() && at.b < nbuckets && at.rb + at.rf <= nodes && PlaceOf(ref, at) && at.from != []
      modifies this`es, buckets, at.rb
      ensures Valid() && es == old(es)[at.b := at.before + at.from[1..]]
    {
      match ref {
        case Head(b) => SpliceHead(b, at);
        case Link(prev) => SpliceLink(prev, at);
      }
    }

    method SpliceHead(b: nat, ghost at: Place<K, V>)
      requires Valid() && at.b < nbuckets && at.rb + at.rf <= nodes && PlaceOf(Head(b), at) && at.from != []
      modifies this`es, buckets
      ensures Valid() && es == old(es)[at.b := at.before + at.from[1..]]
    {
      ghost var rest := at.from[1..];
      var node := buckets[b];
      OwnedWiden(node.next, at.rf - {node}, reprs[b], rest);
      buckets[b] := node.next;
      assert at.before + rest == rest;
      es := es[b := rest];
    }

    method SpliceLink(prev: Node<K, V>, ghost at: Place<K, V>)
      requires Valid() && at.b < nbuckets && at.rb + at.rf <= nodes && PlaceOf(Link(prev), at) && at.from != []
      modifies this`es, prev`next
      ensures Valid() && es == old(es)[at.b := at.before + at.from[1..]]
    {
      ghost var node, rest, init := prev.next, at.from[1..], at.before[..|at.before| - 1];
      ghost var rf := at.rf - {node};
      prev.next := prev.next.next;
      Pushed(prev, rf, rest);
      Join(buckets[at.b], prev, at.rb - {prev}, rf + {prev}, init, [prev.Entry()] + rest);
      assert init + ([prev.Entry()] + rest) == at.before + rest;
      OwnedWiden(buckets[at.b], at.rb - {prev} + (rf + {prev}), reprs[at.b], at.before + rest);
      es := es[at.b := at.before + rest];
    }

    /** Every node onto one list, the buckets from the last to the first. */
    method DrainAll() returns (list: Node?<K, V>, ghost drained: set<Node<K, V>>)
      requires Valid()
      modifies nodes
      ensures drained <= nodes && Owned(list, drained, Drain(es))
    {
      list := null;
      drained := {};
      ghost var moved: Chain<K, V> := [];
      ghost var all := es;
      var i: nat := nbuckets;
      while i > 0
        invariant i <= nbuckets == |all| && drained <= nodes
        invariant forall b :: 0 <= b < i ==> Owned(buckets[b], reprs[b], es[b]) && reprs[b] !! drained
        invariant Owned(list, drained, moved) && moved == Drain(all[i..])
      {
        i := i - 1;
        list := MoveAll(buckets[i], list, reprs[i], drained, es[i], moved);
        assert all[i..][0] == es[i] && all[i..][1..] == all[i + 1..];
        moved, drained := Reverse(es[i]) + moved, reprs[i] + drained;
      }
      assert all[0..] == es;
    }

    /** Empty buckets: new ones if memory is granted, and the old ones cleared if not. */
    method NewBuckets(n: nat, granted: bool)
      modifies this`buckets, this`nbuckets, this`es, this`reprs, this`nodes, buckets
      requires nbuckets == buckets.Length
      ensures Valid() && nbuckets == (if granted then n else old(nbuckets)) && es == Empty(nbuckets) && nodes == {}
      ensures fresh(buckets) || buckets == old(buckets)
    {
      if granted {
        buckets := new Node?<K, V>[n];
        nbuckets := n;
      }
      for i := 0 to nbuckets
        invariant nbuckets == buckets.Length && (fresh(buckets) || buckets == old(buckets))
        invariant nbuckets == if granted then n else old(nbuckets)
        invariant forall b :: 0 <= b < i ==> buckets[b] == null
      {
        buckets[i] := null;
      }
      es, reprs, nodes := Empty(nbuckets), seq(nbuckets, i => {}), {};
    }

    /** The nodes of the list go back into the buckets, one by one. */
    method Refill(list: Node?<K, V>, ghost loose: set<Node<K, V>>, ghost entries: Chain<K, V>)
      requires Valid() && Owned(list, loose, entries) && loose !! nodes && (nbuckets == 0 ==> entries == [])
      modifies buckets, loose, this`es, this`reprs, this`nodes
      ensures Valid() && es == if nbuckets == 0 then old(es) else AddAll(old(es), entries)
      ensures nodes <= old(nodes) + loose
    {
      var node := list;
      ghost var rs, rest := loose, entries;
      while node != null
        invariant Valid() && Owned(node, rs, rest) && rs !! nodes && rs <= loose
        invariant nodes <= old(nodes) + loose
        invariant nbuckets == 0 ==> rest == [] && es == old(es)
        invariant nbuckets > 0 ==> AddAll(es, rest) == AddAll(old(es), entries)
        decreases |rest|
      {
        var next := node.next;
        rs := rs - {node};
        AddNode(node);
        node, rest := next, rest[1..];
      }
    }

    /** `map_resize`; `granted` tells whether the new array is granted. */
    method Rehash(n: nat, granted: bool) returns (ok: bool)
      requires Valid() && n > 0
      modifies this`buckets, this`nbuckets, this`es, this`reprs, this`nodes, buckets, nodes
      ensures Valid() && es == Resize(old(es), n, granted) && ok == granted
      ensures nodes <= old(nodes) && (fresh(buckets) || buckets == old(buckets))
    {
      var list, drained := DrainAll();
      NewBuckets(n, granted);
      Refill(list, drained, Drain(old(es)));
      return granted;
    }

    /** `map_set_` */
    method Put(key: K, value: V, granted: bool) returns (ok: bool)
      requires Valid()
      modifies this, buckets, nodes
      ensures Valid() && (View(), ok) == Set(old(View()), hashFn, key, value, granted)
      ensures fresh(nodes - old(nodes)) && (fresh(buckets) || buckets == old(buckets))
    {
      var next, at := GetRef(key);
      if next.Some? {
        UpdateIs(es[at.b], at.before, at.from, at.from[0].(value := value));
        Assign(next.value, at, value);
        return true;
      }
      ok := PutNew(key, value, granted);
    }

    /** A key that is not there: a new node, and first a larger table if this one is full. */
    method PutNew(key: K, value: V, granted: bool) returns (ok: bool)
      requires Valid() && Get(View(), hashFn, key).None?
      modifies this, buckets, nodes
      ensures Valid() && (View(), ok) == Set(old(View()), hashFn, key, value, granted)
      ensures fresh(nodes - old(nodes)) && (fresh(buckets) || buckets == old(buckets))
    {
      var node := new Node(key, hashFn(key), value);
      if nnodes >= nbuckets {
        var n := if nbuckets > 0 then 2 * nbuckets else 1;
        var done := Rehash(n, granted);
        if !done {
          return false;
        }
      }
      AddNode(node);
      nnodes := nnodes + 1;
      return true;
    }

    /** `map_remove_` */
    method Delete(key: K)
      requires Valid()
      modifies this, buckets, nodes
      ensures Valid() && View() == Remove(old(View()), hashFn, key) && buckets == old(buckets) && nodes == old(nodes)
    {
      var next, at := GetRef(key);
      if next.Some? {
        CutIs(es[at.b], at.before, at.from);
        Splice(next.value, at);
        nnodes := Decremented(nnodes);
      }
    }
  }

  lemma UpdateIs<K, V>(c: Chain<K, V>, before: Chain<K, V>, from: Chain<K, V>, e: Entry<K, V>)
    requires c == before + from && from != []
    ensures c[|before|] == from[0] && c[|before| := e] == before + [e] + from[1..]
  {
  }

  lemma CutIs<K, V>(c: Chain<K, V>, before: Chain<K, V>, from: Chain<K, V>)
    requires c == before + from && from != []
    ensures var i := |before|;
      c[..i] == before && c[i] == from[0] && c[i + 1..] == from[1..] && c[..i] + c[i + 1..] == before + from[1..]
  {
  }
}
