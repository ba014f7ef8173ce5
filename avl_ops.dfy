/**
  The recursive operations of include/container/avl_tree.hpp on a subtree:
  `find`, `insert`, `erase` and the two helpers of `erase`, `leftmost` and
  `erase__`. Each returns the new root of the subtree (with the previous value,
  for `insert` and `erase`); every ancestor on the way back up is passed
  through `Balance`.
*/
module AvlOps {
  import opened Wrappers
  import opened AvlNodes
  import opened AvlBalance

  // ---------------------------------------------------------------------
  // find

  /** Descends from `t` to the node whose key is equivalent to `k` and returns its value. */
  function Find<V>(t: Tree<V>, k: int): (r: Option<V>)
    ensures r.Some? ==> (k, r.value) in Entries(t)
  {
    if t.Nil? then None
    else if Eq(t.key, k) then Some(t.v)
    else Find(if Less(k, t.key) then t.l else t.r, k)
  }

  /**
    In a search tree, `find` returns Some(v) exactly when the tree holds the
    entry (k, v), and None exactly when k is not one of its keys.
  */
  lemma {:induction false} FindCorrect<V>(t: Tree<V>, k: int)
    requires Bst(t)
    ensures Find(t, k).None? <==> k !in Keys(t)
    ensures forall v :: Find(t, k) == Some(v) <==> (k, v) in Entries(t)
  {
    if t.Node? {
      EntryKeys(t.l);
      EntryKeys(t.r);
      KeyEntries(t);
      if k < t.key {
        FindCorrect(t.l, k);
      } else if t.key < k {
        FindCorrect(t.r, k);
      } else {
        forall v | (k, v) in Entries(t) ensures v == t.v {
          BstKeyUnique(t, k, v, t.v);
        }
      }
    }
  }

  // ---------------------------------------------------------------------
  // insert

  /**
    Inserts (k, v) below `t`. An equivalent key has its value overwritten in
    place and the old value is returned, with no change of structure; otherwise
    a new node is linked in as a leaf and None is returned.
  */
  function Insert<V>(t: Tree<V>, k: int, v: V): (res: (Tree<V>, Option<V>))
    requires HeightsOk(t)
    ensures res.0.Node? && HeightsOk(res.0)
    ensures Size(res.0) == Size(t) + (if res.1.None? then 1 else 0)
  {
    if t.Nil? then
      (NewNode(k, v), None)
    else if Less(k, t.key) then
      var res := Insert(t.l, k, v);
      (Balance(t.(l := res.0)), res.1)
    else if Less(t.key, k) then
      var res := Insert(t.r, k, v);
      (Balance(t.(r := res.0)), res.1)
    else
      (t.(v := v), Some(t.v))
  }

  /** Insertion adds `k` to the keys of any subtree. */
  lemma {:induction false} InsertKeys<V>(t: Tree<V>, k: int, v: V)
    requires HeightsOk(t)
    ensures Keys(Insert(t, k, v).0) == Keys(t) + {k}
  {
    if t.Node? {
      if k < t.key {
        InsertKeys(t.l, k, v);
      } else if t.key < k {
        InsertKeys(t.r, k, v);
      }
    }
  }

  /** Insertion into a search tree keeps it a search tree. */
  lemma {:induction false} InsertKeepsBst<V>(t: Tree<V>, k: int, v: V)
    requires HeightsOk(t) && Bst(t)
    ensures Bst(Insert(t, k, v).0)
  {
    if t.Node? {
      if k < t.key {
        InsertKeepsBst(t.l, k, v);
        InsertKeys(t.l, k, v);
        BalanceKeepsBst(t.(l := Insert(t.l, k, v).0));
      } else if t.key < k {
        InsertKeepsBst(t.r, k, v);
        InsertKeys(t.r, k, v);
        BalanceKeepsBst(t.(r := Insert(t.r, k, v).0));
      }
    }
  }

  /** Inserting a key that is absent returns nothing and adds exactly the entry (k, v). */
  lemma {:induction false} InsertAbsent<V>(t: Tree<V>, k: int, v: V)
    requires HeightsOk(t) && k !in Keys(t)
    ensures Insert(t, k, v).1 == None
    ensures Entries(Insert(t, k, v).0) == Entries(t) + {(k, v)}
  {
    if t.Node? {
      var s := if k < t.key then Left else Right;
      assert k != t.key;
      InsertAbsent(Child(t, s), k, v);
      InsertDescends(t, k, v, s);
    }
  }

  /**
    Inserting a key that is present in a search tree returns its old value and
    replaces its entry by (k, v).
  */
  lemma {:induction false} InsertPresent<V>(t: Tree<V>, k: int, v: V)
    requires HeightsOk(t) && Bst(t) && k in Keys(t)
    ensures Insert(t, k, v).1.Some?
    ensures (k, Insert(t, k, v).1.value) in Entries(t)
    ensures Entries(Insert(t, k, v).0) == Entries(t) - {(k, Insert(t, k, v).1.value)} + {(k, v)}
  {
    if k < t.key {
      InsertPresent(t.l, k, v);
      InsertPresentBelow(t, k, v, Left);
    } else if t.key < k {
      InsertPresent(t.r, k, v);
      InsertPresentBelow(t, k, v, Right);
    } else {
      EntryKeys(t.l);
      EntryKeys(t.r);
      assert (k, t.v) !in Entries(t.l) && (k, t.v) !in Entries(t.r);
    }
  }

  /** The step of InsertPresent that overwrites `k` in the side subtree of `t` holding it. */
  lemma InsertPresentBelow<V>(t: Tree<V>, k: int, v: V, s: Side)
    requires t.Node? && HeightsOk(t) && Bst(t)
    requires if s == Left then k < t.key else t.key < k
    requires var res := Insert(Child(t, s), k, v);
      && res.1.Some? && (k, res.1.value) in Entries(Child(t, s))
      && Entries(res.0) == Entries(Child(t, s)) - {(k, res.1.value)} + {(k, v)}
    ensures Insert(t, k, v).1.Some?
    ensures (k, Insert(t, k, v).1.value) in Entries(t)
    ensures Entries(Insert(t, k, v).0) == Entries(t) - {(k, Insert(t, k, v).1.value)} + {(k, v)}
  {
    var c, o := Child(t, s), Child(t, if s == Left then Right else Left);
    InsertDescends(t, k, v, s);
    var res := Insert(c, k, v);
    var e := (k, res.1.value);
    EntryKeys(o);
    assert e !in Entries(o) && e != (t.key, t.v);
    assert Entries(t) == Entries(c) + {(t.key, t.v)} + Entries(o);
    ReplaceOnOneSide(Entries(c), Entries(res.0), (t.key, t.v), Entries(o), e, (k, v));
  }

  /**
    Below a node whose key differs from `k`, insertion goes into one side
    subtree: it returns that subtree's result, and the entries of the new node
    are those of the new side subtree, the node's own and the other side's.
  */
  lemma InsertDescends<V>(t: Tree<V>, k: int, v: V, s: Side)
    requires t.Node? && HeightsOk(t)
    requires if s == Left then k < t.key else t.key < k
    ensures Insert(t, k, v).1 == Insert(Child(t, s), k, v).1
    ensures Entries(Insert(t, k, v).0) ==
      Entries(Insert(Child(t, s), k, v).0) + {(t.key, t.v)} + Entries(Child(t, if s == Left then Right else Left))
  {
    var res := Insert(Child(t, s), k, v);
    assert Insert(t, k, v) == (Balance(WithChild(t, s, res.0)), res.1);
  }

  /**
    Insertion into a search tree returns the previous value exactly when `k`
    was present; the entry (k, v) replaces the old entry of `k`, or is added
    when there was none, and every other entry stays.
  */
  lemma InsertEntries<V>(t: Tree<V>, k: int, v: V)
    requires HeightsOk(t) && Bst(t)
    ensures var (t', p) := Insert(t, k, v);
      && (p.Some? <==> k in Keys(t))
      && (p.Some? ==> (k, p.value) in Entries(t) && Entries(t') == Entries(t) - {(k, p.value)} + {(k, v)})
      && (p.None? ==> Entries(t') == Entries(t) + {(k, v)})
  {
    if k in Keys(t) {
      InsertPresent(t, k, v);
    } else {
      InsertAbsent(t, k, v);
    }
  }

  /**
    Insertion into a balanced tree gives a balanced tree whose height has
    grown by at most one.
  */
  lemma {:induction false} InsertBalanced<V>(t: Tree<V>, k: int, v: V)
    requires HeightsOk(t) && Balanced(t)
    ensures var t' := Insert(t, k, v).0;
      Balanced(t') && Height(t) <= Height(t') <= Height(t) + 1
  {
    if t.Node? {
      if k < t.key {
        InsertBalanced(t.l, k, v);
        BalanceRestoresAvl(t.(l := Insert(t.l, k, v).0));
      } else if t.key < k {
        InsertBalanced(t.r, k, v);
        BalanceRestoresAvl(t.(r := Insert(t.r, k, v).0));
      }
    }
  }

  /**
    Overwriting the value of a key already in an AVL tree leaves the shape,
    the keys and the cached heights of the tree as they were.
  */
  lemma {:induction false} InsertExistingKeepsShape<V>(t: Tree<V>, k: int, v: V)
    requires Avl(t) && k in Keys(t)
    ensures Skeleton(Insert(t, k, v).0) == Skeleton(t)
  {
    if k < t.key {
      InsertExistingKeepsShape(t.l, k, v);
      var x := t.(l := Insert(t.l, k, v).0);
      assert Height(x.l) == Height(t.l);
      BalanceIdle(x);
    } else if t.key < k {
      InsertExistingKeepsShape(t.r, k, v);
      var x := t.(r := Insert(t.r, k, v).0);
      assert Height(x.r) == Height(t.r);
      BalanceIdle(x);
    }
  }

  // ---------------------------------------------------------------------
  // leftmost and erase__

  /** The leftmost node of a subtree: the one that holds the smallest key. */
  function Leftmost<V>(x: Tree<V>): (w: Tree<V>)
    requires x.Node?
    ensures w.Node? && w.l.Nil?
    ensures w.key in Keys(x) && (w.key, w.v) in Entries(x)
    ensures Bst(x) ==> forall k :: k in Keys(x) ==> w.key <= k
  {
    if x.l.Node? then Leftmost(x.l) else x
  }

  /** Unlinks the leftmost node of a subtree, rebalancing its ancestors (erase__). */
  function EraseLeftmost<V>(x: Tree<V>): (t: Tree<V>)
    requires x.Node? && HeightsOk(x)
    ensures HeightsOk(t) && Size(t) + 1 == Size(x)
  {
    if x.l.Nil? then x.r else Balance(x.(l := EraseLeftmost(x.l)))
  }

  /** Unlinking the leftmost node of a search tree removes exactly its key and keeps search order. */
  lemma {:induction false} EraseLeftmostKeys<V>(x: Tree<V>)
    requires x.Node? && HeightsOk(x) && Bst(x)
    ensures Bst(EraseLeftmost(x)) && Keys(EraseLeftmost(x)) == Keys(x) - {Leftmost(x).key}
  {
    if x.l.Node? {
      EraseLeftmostKeys(x.l);
      var y := x.(l := EraseLeftmost(x.l));
      assert EraseLeftmost(x) == Balance(y);
      assert Leftmost(x) == Leftmost(x.l);
      assert Leftmost(x).key < x.key;
      BalanceKeepsBst(y);
    } else {
      assert x.key !in Keys(x.r);
    }
  }

  /** Unlinking the leftmost node of a search tree removes exactly its entry. */
  lemma {:induction false} EraseLeftmostEntries<V>(x: Tree<V>)
    requires x.Node? && HeightsOk(x) && Bst(x)
    ensures Entries(EraseLeftmost(x)) == Entries(x) - {(Leftmost(x).key, Leftmost(x).v)}
  {
    EntryKeys(x.r);
    if x.l.Node? {
      EraseLeftmostEntries(x.l);
      var w := Leftmost(x.l);
      assert Leftmost(x) == w;
      assert EraseLeftmost(x) == Balance(x.(l := EraseLeftmost(x.l)));
      assert w.key < x.key;
      assert (w.key, w.v) !in Entries(x.r) && (w.key, w.v) != (x.key, x.v);
    } else {
      assert (x.key, x.v) !in Entries(x.r);
    }
  }

  /** Unlinking the leftmost node of a balanced tree keeps it balanced and lowers it by at most one. */
  lemma {:induction false} EraseLeftmostBalanced<V>(x: Tree<V>)
    requires x.Node? && HeightsOk(x) && Balanced(x)
    ensures var t := EraseLeftmost(x);
      Balanced(t) && Height(x) - 1 <= Height(t) <= Height(x)
  {
    if x.l.Node? {
      EraseLeftmostBalanced(x.l);
      BalanceRestoresAvl(x.(l := EraseLeftmost(x.l)));
    }
  }

  // ---------------------------------------------------------------------
  // erase

  /**
    Removes the node whose key is equivalent to `k` from below `t` and returns
    its value. A matched node without a right child is replaced by its left
    child; one with a right child is replaced by the leftmost node of its right
    subtree.
  */
  function Erase<V>(t: Tree<V>, k: int): (res: (Tree<V>, Option<V>))
    requires HeightsOk(t)
    ensures HeightsOk(res.0)
    ensures Size(res.0) + (if res.1.Some? then 1 else 0) == Size(t)
  {
    if t.Nil? then
      (Nil, None)
    else if Less(k, t.key) then
      var res := Erase(t.l, k);
      (Balance(t.(l := res.0)), res.1)
    else if Less(t.key, k) then
      var res := Erase(t.r, k);
      (Balance(t.(r := res.0)), res.1)
    else if t.r.Nil? then
      (t.l, Some(t.v))
    else
      (Balance(PromoteSuccessor(t)), Some(t.v))
  }

  /**
    The node that takes the place of a matched node with a right subtree z:
    the leftmost node w of z, with erase__(z) as its right child and the
    matched node's left subtree as its left child (before rebalancing).
  */
  function PromoteSuccessor<V>(t: Tree<V>): (x: Tree<V>)
    requires t.Node? && t.r.Node? && HeightsOk(t)
    ensures x.Node? && HeightsOk(x.l) && HeightsOk(x.r)
    ensures Size(x) + 1 == Size(t)
  {
    var w := Leftmost(t.r);
    Node(t.l, w.key, w.v, w.h, EraseLeftmost(t.r))
  }

  /**
    Promoting the in-order successor of a matched node of a search tree gives
    a search tree without the matched key.
  */
  lemma PromoteSuccessorKeys<V>(t: Tree<V>)
    requires t.Node? && t.r.Node? && HeightsOk(t) && Bst(t)
    ensures Bst(PromoteSuccessor(t)) && Keys(PromoteSuccessor(t)) == Keys(t) - {t.key}
  {
    var w, z := Leftmost(t.r), EraseLeftmost(t.r);
    EraseLeftmostKeys(t.r);
    var x := PromoteSuccessor(t);
    assert x == Node(t.l, w.key, w.v, w.h, z);
    assert t.key < w.key;
    forall k | k in Keys(t.l) ensures k < w.key {
      assert k < t.key;
    }
    forall k | k in Keys(z) ensures w.key < k {
      assert k in Keys(t.r) && k != w.key;
    }
    assert t.key !in Keys(t.l) && t.key !in Keys(t.r);
  }

  /** ... and it holds every entry of the matched node's subtree but the matched one. */
  lemma PromoteSuccessorEntries<V>(t: Tree<V>)
    requires t.Node? && t.r.Node? && HeightsOk(t) && Bst(t)
    ensures Entries(PromoteSuccessor(t)) == Entries(t) - {(t.key, t.v)}
  {
    var w := Leftmost(t.r);
    EraseLeftmostEntries(t.r);
    EntryKeys(t.l);
    EntryKeys(t.r);
    var x := PromoteSuccessor(t);
    assert x.l == t.l && x.key == w.key && x.v == w.v && x.r == EraseLeftmost(t.r);
    assert (t.key, t.v) !in Entries(t.l) && (t.key, t.v) !in Entries(t.r);
  }

  /** Removal from a search tree takes `k` out of its keys and keeps it a search tree. */
  lemma {:induction false} EraseKeepsBst<V>(t: Tree<V>, k: int)
    requires HeightsOk(t) && Bst(t)
    ensures Bst(Erase(t, k).0) && Keys(Erase(t, k).0) == Keys(t) - {k}
  {
    if t.Node? {
      if k < t.key {
        EraseKeepsBst(t.l, k);
        BalanceKeepsBst(t.(l := Erase(t.l, k).0));
      } else if t.key < k {
        EraseKeepsBst(t.r, k);
        BalanceKeepsBst(t.(r := Erase(t.r, k).0));
      } else if t.r.Node? {
        PromoteSuccessorKeys(t);
        BalanceKeepsBst(PromoteSuccessor(t));
      }
    }
  }

  /**
    Removal from a search tree returns the removed value exactly when `k` was
    present, and then only that entry disappears; otherwise the entries are
    unchanged.
  */
  lemma EraseEntries<V>(t: Tree<V>, k: int)
    requires HeightsOk(t) && Bst(t)
    ensures var (t', p) := Erase(t, k);
      && (p.Some? <==> k in Keys(t))
      && (p.Some? ==> (k, p.value) in Entries(t) && Entries(t') == Entries(t) - {(k, p.value)})
      && (p.None? ==> Entries(t') == Entries(t))
  {
    if k in Keys(t) {
      ErasePresent(t, k);
    } else {
      EraseAbsent(t, k);
    }
  }

  /** Removing a key that is absent returns nothing and leaves the entries as they were. */
  lemma {:induction false} EraseAbsent<V>(t: Tree<V>, k: int)
    requires HeightsOk(t) && k !in Keys(t)
    ensures Erase(t, k).1 == None
    ensures Entries(Erase(t, k).0) == Entries(t)
  {
    if t.Node? {
      var s := if k < t.key then Left else Right;
      assert k != t.key;
      EraseAbsent(Child(t, s), k);
      EraseDescends(t, k, s);
    }
  }

  /**
    Removing a key that is present in a search tree returns its value and
    takes exactly its entry out.
  */
  lemma {:induction false} ErasePresent<V>(t: Tree<V>, k: int)
    requires HeightsOk(t) && Bst(t) && k in Keys(t)
    ensures Erase(t, k).1.Some?
    ensures (k, Erase(t, k).1.value) in Entries(t)
    ensures Entries(Erase(t, k).0) == Entries(t) - {(k, Erase(t, k).1.value)}
  {
    if k < t.key {
      ErasePresent(t.l, k);
      ErasePresentBelow(t, k, Left);
    } else if t.key < k {
      ErasePresent(t.r, k);
      ErasePresentBelow(t, k, Right);
    } else {
      EntryKeys(t.l);
      EntryKeys(t.r);
      assert (k, t.v) !in Entries(t.l) && (k, t.v) !in Entries(t.r);
      if t.r.Node? {
        PromoteSuccessorEntries(t);
      }
    }
  }

  /** The step of ErasePresent that removes `k` from the side subtree of `t` holding it. */
  lemma ErasePresentBelow<V>(t: Tree<V>, k: int, s: Side)
    requires t.Node? && HeightsOk(t) && Bst(t)
    requires if s == Left then k < t.key else t.key < k
    requires var res := Erase(Child(t, s), k);
      && res.1.Some? && (k, res.1.value) in Entries(Child(t, s))
      && Entries(res.0) == Entries(Child(t, s)) - {(k, res.1.value)}
    ensures Erase(t, k).1.Some?
    ensures (k, Erase(t, k).1.value) in Entries(t)
    ensures Entries(Erase(t, k).0) == Entries(t) - {(k, Erase(t, k).1.value)}
  {
    var c, o := Child(t, s), Child(t, if s == Left then Right else Left);
    EraseDescends(t, k, s);
    var res := Erase(c, k);
    var e := (k, res.1.value);
    EntryKeys(o);
    assert e !in Entries(o) && e != (t.key, t.v);
    assert Entries(t) == Entries(c) + {(t.key, t.v)} + Entries(o);
    RemoveOnOneSide(Entries(c), Entries(res.0), (t.key, t.v), Entries(o), e);
  }

  /**
    Below a node whose key differs from `k`, removal goes into one side
    subtree: it returns that subtree's result, and the entries of the new node
    are those of the new side subtree, the node's own and the other side's.
  */
  lemma EraseDescends<V>(t: Tree<V>, k: int, s: Side)
    requires t.Node? && HeightsOk(t)
    requires if s == Left then k < t.key else t.key < k
    ensures Erase(t, k).1 == Erase(Child(t, s), k).1
    ensures Entries(Erase(t, k).0) ==
      Entries(Erase(Child(t, s), k).0) + {(t.key, t.v)} + Entries(Child(t, if s == Left then Right else Left))
  {
    var res := Erase(Child(t, s), k);
    assert Erase(t, k) == (Balance(WithChild(t, s, res.0)), res.1);
  }

  /** Removal from a balanced tree keeps it balanced and lowers it by at most one. */
  lemma {:induction false} EraseBalanced<V>(t: Tree<V>, k: int)
    requires HeightsOk(t) && Balanced(t)
    ensures var t' := Erase(t, k).0;
      Balanced(t') && Height(t) - 1 <= Height(t') <= Height(t)
  {
    if t.Node? {
      if k < t.key {
        EraseBalanced(t.l, k);
        BalanceRestoresAvl(t.(l := Erase(t.l, k).0));
      } else if t.key < k {
        EraseBalanced(t.r, k);
        BalanceRestoresAvl(t.(r := Erase(t.r, k).0));
      } else if t.r.Node? {
        PromoteSuccessorBalanced(t);
      }
    }
  }

  /**
    The case of EraseBalanced where the matched node has a right child: the
    promoted successor, once rebalanced, is balanced and at most one lower
    than the matched node.
  */
  lemma PromoteSuccessorBalanced<V>(t: Tree<V>)
    requires t.Node? && t.r.Node? && HeightsOk(t) && Balanced(t)
    ensures var y := Balance(PromoteSuccessor(t));
      Balanced(y) && Height(t) - 1 <= Height(y) <= Height(t)
  {
    var x := PromoteSuccessor(t);
    EraseLeftmostBalanced(t.r);
    assert x.l == t.l && x.r == EraseLeftmost(t.r);
    BalanceRestoresAvl(x);
  }

  // ---------------------------------------------------------------------
  // Entries of a node one of whose sides changed

  /** Replacing e by f on one side of a node, when e occurs nowhere else, replaces it in the whole. */
  lemma ReplaceOnOneSide<T>(a: set<T>, a': set<T>, n: T, o: set<T>, e: T, f: T)
    requires a' == a - {e} + {f} && e != n && e !in o
    ensures a' + {n} + o == (a + {n} + o) - {e} + {f}
  {
  }

  /** Removing e from one side of a node, when e occurs nowhere else, removes it from the whole. */
  lemma RemoveOnOneSide<T>(a: set<T>, a': set<T>, n: T, o: set<T>, e: T)
    requires a' == a - {e} && e != n && e !in o
    ensures a' + {n} + o == (a + {n} + o) - {e}
  {
  }

  // ---------------------------------------------------------------------
  // Round trips through find

  /** After inserting (k, v) into an AVL tree, `find(k)` returns v. */
  lemma InsertThenFind<V>(t: Tree<V>, k: int, v: V)
    requires Avl(t)
    ensures Find(Insert(t, k, v).0, k) == Some(v)
  {
    InsertKeepsBst(t, k, v);
    InsertEntries(t, k, v);
    FindCorrect(Insert(t, k, v).0, k);
  }

  /** Inserting k leaves `find` of every other key as it was. */
  lemma InsertKeepsOthers<V>(t: Tree<V>, k: int, v: V, k': int)
    requires Avl(t) && k' != k
    ensures Find(Insert(t, k, v).0, k') == Find(t, k')
  {
    var t' := Insert(t, k, v).0;
    InsertKeys(t, k, v);
    InsertKeepsBst(t, k, v);
    InsertEntries(t, k, v);
    FindCorrect(t, k');
    FindCorrect(t', k');
    if Find(t, k').Some? {
      assert (k', Find(t, k').value) in Entries(t');
    }
  }

  /** After erasing k from an AVL tree, `find(k)` returns None. */
  lemma EraseThenFind<V>(t: Tree<V>, k: int)
    requires Avl(t)
    ensures Find(Erase(t, k).0, k).None?
  {
    EraseKeepsBst(t, k);
    FindCorrect(Erase(t, k).0, k);
  }

  /** Erasing k leaves `find` of every other key as it was. */
  lemma EraseKeepsOthers<V>(t: Tree<V>, k: int, k': int)
    requires Avl(t) && k' != k
    ensures Find(Erase(t, k).0, k') == Find(t, k')
  {
    var t' := Erase(t, k).0;
    EraseKeepsBst(t, k);
    EraseEntries(t, k);
    FindCorrect(t, k');
    FindCorrect(t', k');
    if Find(t, k').Some? {
      assert (k', Find(t, k').value) in Entries(t');
    }
  }
}
