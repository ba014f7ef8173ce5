/**
  The nodes of the AVL tree of include/container/avl_tree.hpp and the
  invariants that the tree keeps over them.

  A subtree is a value: `Nil` stands for a null child pointer and a `Node`
  carries the two children, the key, the attached value and the cached
  height `h`. Keys are integers ordered by the strict comparator `Less`
  (std::less), from which key equivalence is derived as in the source.
*/
module AvlNodes {

  /** A child index: `Left` is c[0] (the field l), `Right` is c[1] (the field r). */
  datatype Side = Left | Right

  datatype Tree<V> = Nil | Node(l: Tree<V>, key: int, v: V, h: nat, r: Tree<V>)

  // ---------------------------------------------------------------------
  // Key comparison

  /** The comparator cmp_. */
  predicate Less(a: int, b: int) {
    a < b
  }

  /**
    The comparator is a strict total order, the requirement that makes the
    equivalence derived from it sound: irreflexive, asymmetric, transitive,
    and any two keys are ordered one way or the other or are equivalent.
  */
  lemma LessIsStrictOrder(a: int, b: int, c: int)
    ensures !Less(a, a)
    ensures Less(a, b) ==> !Less(b, a)
    ensures Less(a, b) && Less(b, c) ==> Less(a, c)
    ensures Less(a, b) || Less(b, a) || Eq(a, b)
  {
  }

  /**
    Two keys are not equivalent when one orders before the other; under a
    strict total order that is inequality of keys.
  */
  function Neq(a: int, b: int): (r: bool)
    ensures r <==> a != b
  {
    Less(a, b) || Less(b, a)
  }

  /** Two keys are equivalent when neither orders before the other: equality of keys. */
  function Eq(a: int, b: int): (r: bool)
    ensures r <==> a == b
  {
    !Neq(a, b)
  }

  // ---------------------------------------------------------------------
  // Cached heights

  function Max(a: nat, b: nat): nat {
    if a < b then b else a
  }

  /** The cached height of a subtree; a missing child has height 0. */
  function Height<V>(t: Tree<V>): nat {
    if t.Nil? then 0 else t.h
  }

  /** The height a node should cache, computed from its children's cached heights. */
  function Reheight<V>(x: Tree<V>): nat
    requires x.Node?
  {
    Max(Height(x.l), Height(x.r)) + 1
  }

  /** How much a node leans to the left: height(x.l) - height(x.r). */
  function Bias<V>(x: Tree<V>): int
    requires x.Node?
  {
    Height(x.l) - Height(x.r)
  }

  /** The child c[s] of a node. */
  function Child<V>(x: Tree<V>, s: Side): Tree<V>
    requires x.Node?
  {
    if s == Left then x.l else x.r
  }

  /** The node with its child c[s] replaced by `c`. */
  function WithChild<V>(x: Tree<V>, s: Side, c: Tree<V>): Tree<V>
    requires x.Node?
  {
    if s == Left then x.(l := c) else x.(r := c)
  }

  /**
    The recomputed height is one more than the taller child: above both
    children's heights and equal to one of them plus one.
  */
  lemma ReheightOfTallerChild<V>(x: Tree<V>)
    requires x.Node?
    ensures Reheight(x) > Height(x.l) && Reheight(x) > Height(x.r)
    ensures Reheight(x) == Height(x.l) + 1 || Reheight(x) == Height(x.r) + 1
  {
  }

  /**
    The bias is non-negative exactly when the left child determines the
    recomputed height, and non-positive exactly when the right child does.
  */
  lemma BiasPicksTallerChild<V>(x: Tree<V>)
    requires x.Node?
    ensures Bias(x) >= 0 <==> Reheight(x) == Height(x.l) + 1
    ensures Bias(x) <= 0 <==> Reheight(x) == Height(x.r) + 1
  {
  }

  /** The child c[s] is a smaller subtree whose keys and entries are among the node's. */
  lemma ChildWithin<V>(x: Tree<V>, s: Side)
    requires x.Node?
    ensures Size(Child(x, s)) < Size(x)
    ensures Keys(Child(x, s)) <= Keys(x) && Entries(Child(x, s)) <= Entries(x)
  {
  }

  /**
    Replacing the child c[s] and reading it back gives the new child, while
    the other child, the key, the value and the cached height stay.
  */
  lemma WithChildThenChild<V>(x: Tree<V>, s: Side, c: Tree<V>)
    requires x.Node?
    ensures WithChild(x, s, c).Node?
    ensures Child(WithChild(x, s, c), s) == c
    ensures Child(WithChild(x, s, c), if s == Left then Right else Left) == Child(x, if s == Left then Right else Left)
    ensures WithChild(x, s, c).key == x.key && WithChild(x, s, c).v == x.v && WithChild(x, s, c).h == x.h
  {
  }

  /** A freshly constructed node: no children, height 1. */
  function NewNode<V>(k: int, v: V): (x: Tree<V>)
    ensures x.Node? && x.l.Nil? && x.r.Nil? && x.key == k && x.v == v
    ensures x.h == Reheight(x)
  {
    Node(Nil, k, v, 1, Nil)
  }

  // ---------------------------------------------------------------------
  // What a subtree holds

  /** Number of nodes. */
  function Size<V>(t: Tree<V>): nat {
    if t.Nil? then 0 else Size(t.l) + 1 + Size(t.r)
  }

  /** The keys held in a subtree. */
  ghost function Keys<V>(t: Tree<V>): set<int> {
    if t.Nil? then {} else Keys(t.l) + {t.key} + Keys(t.r)
  }

  /** The key/value pairs held in a subtree. */
  ghost function Entries<V>(t: Tree<V>): set<(int, V)> {
    if t.Nil? then {} else Entries(t.l) + {(t.key, t.v)} + Entries(t.r)
  }

  /** The pairs visited by an in-order traversal: left subtree, node, right subtree. */
  function Inorder<V>(t: Tree<V>): (s: seq<(int, V)>)
    ensures |s| == Size(t)
  {
    if t.Nil? then [] else Inorder(t.l) + [(t.key, t.v)] + Inorder(t.r)
  }

  /** The structure of a subtree with its values forgotten: shape, keys and cached heights. */
  ghost function Skeleton<V>(t: Tree<V>): Tree<()> {
    if t.Nil? then Nil else Node(Skeleton(t.l), t.key, (), t.h, Skeleton(t.r))
  }

  /** The height of a subtree counted edge by edge, independently of the caches. */
  ghost function Depth<V>(t: Tree<V>): nat {
    if t.Nil? then 0 else Max(Depth(t.l), Depth(t.r)) + 1
  }

  ghost predicate StrictlyAscending<V>(s: seq<(int, V)>) {
    forall i, j :: 0 <= i < j < |s| ==> s[i].0 < s[j].0
  }

  // ---------------------------------------------------------------------
  // Invariants

  /** Every node caches max(height of its children) + 1. */
  ghost predicate HeightsOk<V>(t: Tree<V>) {
    t.Nil? || (HeightsOk(t.l) && HeightsOk(t.r) && t.h == Reheight(t))
  }

  /** Every node's children differ in height by at most one. */
  ghost predicate Balanced<V>(t: Tree<V>) {
    t.Nil? || (Balanced(t.l) && Balanced(t.r) && -1 <= Bias(t) <= 1)
  }

  /** Binary search tree order: keys on the left are smaller, keys on the right larger. */
  ghost predicate Bst<V>(t: Tree<V>) {
    t.Nil? ||
    (Bst(t.l) && Bst(t.r) &&
     (forall k :: k in Keys(t.l) ==> k < t.key) &&
     (forall k :: k in Keys(t.r) ==> t.key < k))
  }

  /** The representation invariant of an AVL tree. */
  ghost predicate Avl<V>(t: Tree<V>) {
    Bst(t) && HeightsOk(t) && Balanced(t)
  }

  // ---------------------------------------------------------------------
  // Lemmas about the views

  /** With correct caches, exactly the null subtrees have height 0. */
  lemma HeightZeroIffNil<V>(t: Tree<V>)
    requires HeightsOk(t)
    ensures Height(t) == 0 <==> t.Nil?
  {
  }

  /** When the caches are right, the cached height is the true height. */
  lemma {:induction false} HeightIsDepth<V>(t: Tree<V>)
    requires HeightsOk(t)
    ensures Height(t) == Depth(t)
  {
    if t.Node? {
      HeightIsDepth(t.l);
      HeightIsDepth(t.r);
    }
  }

  /** Every entry's key is among the keys of the subtree. */
  lemma {:induction false} EntryKeys<V>(t: Tree<V>)
    ensures forall e :: e in Entries(t) ==> e.0 in Keys(t)
  {
    if t.Node? {
      EntryKeys(t.l);
      EntryKeys(t.r);
    }
  }

  /** Every key of the subtree carries some entry. */
  lemma {:induction false} KeyEntries<V>(t: Tree<V>)
    ensures forall k :: k in Keys(t) ==> exists v :: (k, v) in Entries(t)
  {
    if t.Node? {
      KeyEntries(t.l);
      KeyEntries(t.r);
      assert (t.key, t.v) in Entries(t);
    }
  }

  /** The traversal visits exactly the entries of the subtree. */
  lemma {:induction false} InorderVisitsEntries<V>(t: Tree<V>)
    ensures forall e :: e in Inorder(t) <==> e in Entries(t)
  {
    if t.Node? {
      InorderVisitsEntries(t.l);
      InorderVisitsEntries(t.r);
    }
  }

  /** An entry visited by the traversal carries one of the subtree's keys. */
  lemma InorderEntry<V>(t: Tree<V>, e: (int, V))
    requires e in Inorder(t)
    ensures e in Entries(t) && e.0 in Keys(t)
  {
    InorderVisitsEntries(t);
    EntryKeys(t);
  }

  /** In a search tree one key carries one value. */
  lemma {:induction false} BstKeyUnique<V>(t: Tree<V>, k: int, v: V, w: V)
    requires Bst(t) && (k, v) in Entries(t) && (k, w) in Entries(t)
    ensures v == w
  {
    EntryKeys(t.l);
    EntryKeys(t.r);
    if (k, v) in Entries(t.l) && (k, w) in Entries(t.l) {
      BstKeyUnique(t.l, k, v, w);
    } else if (k, v) in Entries(t.r) && (k, w) in Entries(t.r) {
      BstKeyUnique(t.r, k, v, w);
    }
  }

  /** A sequence split around one entry is ascending when both sides are and the entry separates them. */
  lemma AscendingAround<V>(a: seq<(int, V)>, x: (int, V), b: seq<(int, V)>)
    requires StrictlyAscending(a) && StrictlyAscending(b)
    requires forall e :: e in a ==> e.0 < x.0
    requires forall e :: e in b ==> x.0 < e.0
    ensures StrictlyAscending(a + [x] + b)
  {
    var s, n := a + [x] + b, |a|;
    forall i, j | 0 <= i < j < |s| ensures s[i].0 < s[j].0 {
      if j < n {
        assert s[i] == a[i] && s[j] == a[j];
      } else if i < n {
        assert s[i] == a[i] && a[i] in a;
        if j > n {
          assert s[j] == b[j - n - 1] && b[j - n - 1] in b;
        }
      } else if i == n {
        assert s[j] == b[j - n - 1] && b[j - n - 1] in b;
      } else {
        assert s[i] == b[i - n - 1] && s[j] == b[j - n - 1];
      }
    }
  }

  /** The converse: both sides of an ascending sequence are ascending and separated by the middle entry. */
  lemma AroundAscending<V>(a: seq<(int, V)>, x: (int, V), b: seq<(int, V)>)
    requires StrictlyAscending(a + [x] + b)
    ensures StrictlyAscending(a) && StrictlyAscending(b)
    ensures forall e :: e in a ==> e.0 < x.0
    ensures forall e :: e in b ==> x.0 < e.0
  {
    var s, n := a + [x] + b, |a|;
    assert s[n] == x;
    forall i, j | 0 <= i < j < |a| ensures a[i].0 < a[j].0 {
      assert s[i] == a[i] && s[j] == a[j];
    }
    forall i, j | 0 <= i < j < |b| ensures b[i].0 < b[j].0 {
      assert s[n + 1 + i] == b[i] && s[n + 1 + j] == b[j];
    }
    forall e | e in a ensures e.0 < x.0 {
      var i :| 0 <= i < n && a[i] == e;
      assert s[i] == a[i];
    }
    forall e | e in b ensures x.0 < e.0 {
      var i :| 0 <= i < |b| && b[i] == e;
      assert s[n + 1 + i] == b[i];
    }
  }

  /** The in-order traversal of a search tree is strictly ascending. */
  lemma {:induction false} BstAscending<V>(t: Tree<V>)
    requires Bst(t)
    ensures StrictlyAscending(Inorder(t))
  {
    if t.Node? {
      BstAscending(t.l);
      BstAscending(t.r);
      InorderVisitsEntries(t.l);
      InorderVisitsEntries(t.r);
      EntryKeys(t.l);
      EntryKeys(t.r);
      var a, x, b := Inorder(t.l), (t.key, t.v), Inorder(t.r);
      forall e | e in a ensures e.0 < x.0 {
        InorderEntry(t.l, e);
      }
      forall e | e in b ensures x.0 < e.0 {
        InorderEntry(t.r, e);
      }
      AscendingAround(a, x, b);
    }
  }

  /** A subtree whose in-order traversal is strictly ascending is a search tree. */
  lemma {:induction false} AscendingBst<V>(t: Tree<V>)
    requires StrictlyAscending(Inorder(t))
    ensures Bst(t)
  {
    if t.Node? {
      var a, x, b := Inorder(t.l), (t.key, t.v), Inorder(t.r);
      AroundAscending(a, x, b);
      AscendingBst(t.l);
      AscendingBst(t.r);
      InorderVisitsEntries(t.l);
      InorderVisitsEntries(t.r);
      KeyEntries(t.l);
      KeyEntries(t.r);
      forall k | k in Keys(t.l) ensures k < t.key {
        var w :| (k, w) in Entries(t.l);
        assert (k, w) in a;
      }
      forall k | k in Keys(t.r) ensures t.key < k {
        var w :| (k, w) in Entries(t.r);
        assert (k, w) in b;
      }
    }
  }

  /** The in-order traversal is strictly ascending exactly when the subtree is a search tree. */
  lemma BstIffAscending<V>(t: Tree<V>)
    ensures Bst(t) <==> StrictlyAscending(Inorder(t))
  {
    if Bst(t) {
      BstAscending(t);
    }
    if StrictlyAscending(Inorder(t)) {
      AscendingBst(t);
    }
  }

  // ---------------------------------------------------------------------
  // The minimum size of an AVL tree of a given height

  function Fib(n: nat): nat {
    if n < 2 then n else Fib(n - 1) + Fib(n - 2)
  }

  lemma {:induction false} FibMonotone(m: nat, n: nat)
    requires m <= n
    ensures Fib(m) <= Fib(n)
  {
    if m < n {
      FibMonotone(m, n - 1);
      if n >= 2 {
        assert Fib(n) == Fib(n - 1) + Fib(n - 2);
      }
    }
  }

  /**
    A balanced subtree of height h holds at least Fib(h + 2) - 1 nodes, and so at
    least Fib(h) of them: its height grows only logarithmically with its size.
  */
  lemma {:induction false} AvlMinSize<V>(t: Tree<V>)
    requires HeightsOk(t) && Balanced(t)
    ensures Size(t) + 1 >= Fib(Height(t) + 2)
    ensures Size(t) >= Fib(Height(t))
  {
    if t.Node? {
      AvlMinSize(t.l);
      AvlMinSize(t.r);
      var hl, hr, H := Height(t.l), Height(t.r), Height(t);
      assert Size(t) + 1 == (Size(t.l) + 1) + (Size(t.r) + 1);
      if hl >= hr {
        assert H == hl + 1 && H <= hr + 2;
        FibMonotone(H, hr + 2);
      } else {
        assert H == hr + 1 && H <= hl + 2;
        FibMonotone(H, hl + 2);
      }
      assert Fib(H + 2) == Fib(H + 1) + Fib(H);
      FibMonotone(1, H + 1);
    }
  }
}
