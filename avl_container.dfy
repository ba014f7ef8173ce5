/**
  The public face of include/container/avl_tree.hpp: an object holding the
  root of the tree, the number of live nodes `size` and the capacity `cap` of
  the node pool handed to the constructor.

  The pool is a bump index: a new node takes the slot numbered `size` and a
  released node only decrements `size`. Only that counter is kept here; the
  nodes themselves are the values built by the functions of AvlOps.
*/
module AvlContainer {
  import opened Wrappers
  import opened AvlNodes
  import opened AvlOps

  class AvlTree<V> {
    var root: Tree<V>
    var size: nat
    var cap: nat

    /** The tree is an AVL tree and `size` counts its nodes, within the pool's capacity. */
    ghost predicate Valid()
      reads this
    {
      Avl(root) && size == Size(root) && size <= cap
    }

    /** An empty tree over a pool of `n` node slots, 32 unless given. */
    constructor (n: nat := 32)
      ensures Valid() && root == Nil && size == 0 && cap == n
    {
      root := Nil;
      size := 0;
      cap := n;
    }

    /** The value stored under a key equivalent to `k`, if there is one. */
    method Find(k: int) returns (r: Option<V>)
      requires Valid()
      ensures r.None? <==> k !in Keys(root)
      ensures forall v :: r == Some(v) <==> (k, v) in Entries(root)
    {
      r := AvlOps.Find(root, k);
      FindCorrect(root, k);
    }

    /**
      Stores `v` under `k` and returns the value it replaces. Linking a new
      node takes a pool slot, so it demands `size < cap`; overwriting the value
      of a present key changes neither the shape of the tree nor `size`.
    */
    method Insert(k: int, v: V) returns (prev: Option<V>)
      requires Valid()
      requires k !in Keys(root) ==> size < cap
      modifies this
      ensures Valid() && cap == old(cap)
      ensures Keys(root) == old(Keys(root)) + {k}
      ensures prev.Some? <==> k in old(Keys(root))
      ensures prev.Some? ==>
        && (k, prev.value) in old(Entries(root))
        && Entries(root) == old(Entries(root)) - {(k, prev.value)} + {(k, v)}
        && Skeleton(root) == old(Skeleton(root))
        && size == old(size)
      ensures prev.None? ==>
        && Entries(root) == old(Entries(root)) + {(k, v)}
        && size == old(size) + 1
    {
      var res := AvlOps.Insert(root, k, v);
      InsertKeys(root, k, v);
      InsertKeepsBst(root, k, v);
      InsertEntries(root, k, v);
      InsertBalanced(root, k, v);
      if res.1.Some? {
        InsertExistingKeepsShape(root, k, v);
      } else {
        var slot := CreateNode();
      }
      root, prev := res.0, res.1;
    }

    /**
      Removes the entry of `k` and returns its value. A removed node gives its
      slot back by decrementing `size`; an absent key changes nothing.
    */
    method Erase(k: int) returns (prev: Option<V>)
      requires Valid()
      modifies this
      ensures Valid() && cap == old(cap)
      ensures Keys(root) == old(Keys(root)) - {k}
      ensures prev.Some? <==> k in old(Keys(root))
      ensures prev.Some? ==>
        && (k, prev.value) in old(Entries(root))
        && Entries(root) == old(Entries(root)) - {(k, prev.value)}
        && size == old(size) - 1
      ensures prev.None? ==> Entries(root) == old(Entries(root)) && size == old(size)
    {
      var res := AvlOps.Erase(root, k);
      EraseKeepsBst(root, k);
      EraseEntries(root, k);
      EraseBalanced(root, k);
      if res.1.Some? {
        DestroyNode();
      }
      root, prev := res.0, res.1;
    }

    /**
      The pairs visited by an in-order traversal: every entry of the tree once,
      in strictly ascending key order.
    */
    method Inorder() returns (s: seq<(int, V)>)
      requires Valid()
      ensures |s| == size
      ensures StrictlyAscending(s)
      ensures forall e :: e in s <==> e in Entries(root)
    {
      s := AvlNodes.Inorder(root);
      BstAscending(root);
      InorderVisitsEntries(root);
    }

    /** Takes the next pool slot for a new node: the bump index `size`. */
    method CreateNode() returns (slot: nat)
      requires size < cap
      modifies this`size
      ensures slot == old(size) && size == old(size) + 1
    {
      slot := size;
      size := size + 1;
    }

    /** Gives back the slot of a removed node: only the counter goes down. */
    method DestroyNode()
      requires size > 0
      modifies this`size
      ensures size == old(size) - 1
    {
      size := size - 1;
    }
  }
}

/**
  A client of the container: a pool of four slots filled by four distinct
  keys, after which only overwrites may be inserted; erasing key 3 hands back
  the value stored under it and frees one slot.
*/
module AvlContainerScenario {
  import opened Wrappers
  import opened AvlNodes
  import opened AvlContainer

  method FillThenErase() returns (full: bool, removed: Option<string>, after: nat)
    ensures full && removed == Some("b") && after == 3
  {
    var t := new AvlTree<string>(4);
    var p := t.Insert(5, "a");
    assert Keys(t.root) == {5} && t.size == 1;
    p := t.Insert(3, "b");
    assert Keys(t.root) == {5, 3} && t.size == 2 && (3, "b") in Entries(t.root);
    p := t.Insert(8, "c");
    assert Keys(t.root) == {5, 3, 8} && t.size == 3 && (3, "b") in Entries(t.root);
    p := t.Insert(1, "d");
    assert t.size == 4 && (3, "b") in Entries(t.root);
    full := t.size == t.cap;
    ghost var before := t.root;
    assert (3, "b") in Entries(before);
    removed := t.Erase(3);
    BstKeyUnique(before, 3, removed.value, "b");
    after := t.size;
  }
}
