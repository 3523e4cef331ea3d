/** The linked nodes of kernel/map/src/map.c: lists and parts of lists in the heap. */
module MapList {
  import opened MapModel

  class Node<K, V> {
    const key: K
    const hash: nat
    var value: V
    var next: Node?<K, V>

    /** `map_newnode` */
    constructor (key: K, hash: nat, value: V)
      ensures this.key == key && this.hash == hash && this.value == value
    {
      this.key, this.hash, this.value := key, hash, value;
      next := null;
    }

    function Entry(): Entry<K, V>
      reads this
    {
      MapModel.Entry(key, hash, value)
    }
  }

  /** The nodes from `first` on, all in `repr`, hold the entries `es`. */
  ghost predicate Owned<K, V>(first: Node?<K, V>, repr: set<Node<K, V>>, es: Chain<K, V>)
    reads repr
    decreases |es|
  {
    if es == [] then first == null
    else first != null && first in repr && first.Entry() == es[0] && Owned(first.next, repr - {first}, es[1..])
  }

  /** The nodes from `first` up to but not including `end`. */
  ghost predicate Segment<K, V>(first: Node?<K, V>, end: Node?<K, V>, repr: set<Node<K, V>>, es: Chain<K, V>)
    reads repr
    decreases |es|
  {
    if es == [] then first == end
    else first != null && first in repr && first.Entry() == es[0] && Segment(first.next, end, repr - {first}, es[1..])
  }

  lemma {:induction false} OwnedWiden<K, V>(first: Node?<K, V>, repr: set<Node<K, V>>, wide: set<Node<K, V>>,
                                            es: Chain<K, V>)
    requires repr <= wide && Owned(first, repr, es)
    ensures Owned(first, wide, es)
    decreases |es|
  {
    if es != [] {
      OwnedWiden(first.next, repr - {first}, wide - {first}, es[1..]);
    }
  }

  /** A segment and what follows its end are one list. */
  lemma {:induction false} Join<K, V>(first: Node?<K, V>, end: Node?<K, V>, r1: set<Node<K, V>>, r2: set<Node<K, V>>,
                                      es1: Chain<K, V>, es2: Chain<K, V>)
    requires Segment(first, end, r1, es1) && Owned(end, r2, es2) && r1 !! r2
    ensures Owned(first, r1 + r2, es1 + es2)
    decreases |es1|
  {
    if es1 == [] {
      OwnedWiden(first, r2, r1 + r2, es2);
      assert es1 + es2 == es2;
    } else {
      Join(first.next, end, r1 - {first}, r2, es1[1..], es2);
      assert (es1 + es2)[1..] == es1[1..] + es2;
      assert r1 - {first} + r2 == r1 + r2 - {first};
    }
  }

  /** A segment can be taken one node further. */
  lemma {:induction false} Extend<K, V>(first: Node?<K, V>, end: Node<K, V>, repr: set<Node<K, V>>, es: Chain<K, V>)
    requires Segment(first, end, repr, es) && end !in repr
    ensures Segment(first, end.next, repr + {end}, es + [end.Entry()])
    decreases |es|
  {
    if es == [] {
      assert [end.Entry()][1..] == [];
      assert es + [end.Entry()] == [end.Entry()];
    } else {
      Extend(first.next, end, repr - {first}, es[1..]);
      assert (es + [end.Entry()])[1..] == es[1..] + [end.Entry()];
      assert repr - {first} + {end} == repr + {end} - {first};
    }
  }

  /** A node set in front of a list. */
  lemma Pushed<K, V>(node: Node<K, V>, repr: set<Node<K, V>>, es: Chain<K, V>)
    requires Owned(node.next, repr, es) && node !in repr
    ensures Owned(node, repr + {node}, [node.Entry()] + es)
  {
    assert ([node.Entry()] + es)[1..] == es;
    assert repr + {node} - {node} == repr;
  }

  /** One bucket of a resize: the nodes of a list go onto the front of another. */
  method MoveAll<K, V>(first: Node?<K, V>, front: Node?<K, V>, ghost r1: set<Node<K, V>>, ghost r2: set<Node<K, V>>,
                       ghost es1: Chain<K, V>, ghost es2: Chain<K, V>)
    returns (nodes: Node?<K, V>)
    requires Owned(first, r1, es1) && Owned(front, r2, es2) && r1 !! r2
    modifies r1
    ensures Owned(nodes, r1 + r2, Reverse(es1) + es2)
  {
    nodes := front;
    var node := first;
    ghost var s1: set<Node<K, V>>, s2: set<Node<K, V>> := r1, r2;
    ghost var rest, moved := es1, es2;
    while node != null
      invariant Owned(node, s1, rest) && Owned(nodes, s2, moved) && s1 !! s2
      invariant s1 <= r1 && s1 + s2 <= r1 + r2
      invariant Reverse(rest) + moved == Reverse(es1) + es2
      decreases |rest|
    {
      var next := node.next;
      node.next := nodes;
      Pushed(node, s2, moved);
      assert Reverse(rest[1..]) + ([node.Entry()] + moved) == Reverse(rest) + moved;
      moved, rest := [node.Entry()] + moved, rest[1..];
      s1, s2 := s1 - {node}, s2 + {node};
      nodes := node;
      node := next;
    }
    assert rest == [] && Reverse(rest) + moved == moved;
    OwnedWiden(nodes, s2, r1 + r2, moved);
  }
}
