/**
  Rotations and rebalancing of include/container/avl_tree.hpp: `rotate` written
  once over child indices, its two instances `left_rotate` and `right_rotate`,
  and `balance`, which repairs a node whose children differ in height by two.
*/
module AvlBalance {
  import opened AvlNodes

  /**
    The i-rotation of `x` about the link to its j-child y: y becomes the root
    of the subtree, x becomes y's i-child, and y's former i-child becomes x's
    j-child; both x and y recompute their cached heights.
  */
  function Rotate<V>(x: Tree<V>, i: Side, j: Side): (y: Tree<V>)
    requires x.Node? && i != j && Child(x, j).Node?
    ensures y.Node? && Child(y, i).Node?
    ensures y.key == Child(x, j).key && y.v == Child(x, j).v
    ensures Child(y, i).key == x.key && Child(y, i).v == x.v
    ensures Child(Child(y, i), i) == Child(x, i)
    ensures Child(Child(y, i), j) == Child(Child(x, j), i)
    ensures Child(y, j) == Child(Child(x, j), j)
    ensures Child(y, i).h == Reheight(Child(y, i)) && y.h == Reheight(y)
    ensures Inorder(y) == Inorder(x)
    ensures Entries(y) == Entries(x) && Keys(y) == Keys(x) && Size(y) == Size(x)
  {
    var c := Child(x, j);
    var x1 := WithChild(x, j, Child(c, i));
    var x2 := x1.(h := Reheight(x1));
    var y1 := WithChild(c, i, x2);
    y1.(h := Reheight(y1))
  }

  /** Left rotation: the right child becomes the root. */
  function LeftRotate<V>(x: Tree<V>): (y: Tree<V>)
    requires x.Node? && x.r.Node?
    ensures y.Node? && y.l.Node?
    ensures y.key == x.r.key && y.v == x.r.v && y.r == x.r.r
    ensures y.l.key == x.key && y.l.v == x.v && y.l.l == x.l && y.l.r == x.r.l
    ensures y.l.h == Reheight(y.l) && y.h == Reheight(y)
    ensures HeightsOk(x.l) && HeightsOk(x.r) ==> HeightsOk(y)
    ensures Inorder(y) == Inorder(x)
    ensures Entries(y) == Entries(x) && Keys(y) == Keys(x) && Size(y) == Size(x)
  {
    Rotate(x, Left, Right)
  }

  /** Right rotation: the left child becomes the root. */
  function RightRotate<V>(x: Tree<V>): (y: Tree<V>)
    requires x.Node? && x.l.Node?
    ensures y.Node? && y.r.Node?
    ensures y.key == x.l.key && y.v == x.l.v && y.l == x.l.l
    ensures y.r.key == x.key && y.r.v == x.v && y.r.r == x.r && y.r.l == x.l.r
    ensures y.r.h == Reheight(y.r) && y.h == Reheight(y)
    ensures HeightsOk(x.l) && HeightsOk(x.r) ==> HeightsOk(y)
    ensures Inorder(y) == Inorder(x)
    ensures Entries(y) == Entries(x) && Keys(y) == Keys(x) && Size(y) == Size(x)
  {
    Rotate(x, Right, Left)
  }

  /**
    Recomputes the cached height of `x` and, when its bias has reached +2 or -2,
    performs a single or a double rotation. The children of `x` must carry
    correct cached heights (a null grandchild is never rotated about).
  */
  function Balance<V>(x: Tree<V>): (y: Tree<V>)
    requires x.Node? && HeightsOk(x.l) && HeightsOk(x.r)
    ensures y.Node? && HeightsOk(y)
    ensures Entries(y) == Entries(x) && Keys(y) == Keys(x) && Size(y) == Size(x)
    ensures -1 <= Bias(x) <= 1 ==> y == x.(h := Reheight(x))
  {
    var x := x.(h := Reheight(x));
    if Bias(x) > 1 then
      if Bias(x.l) < 0 then RightRotate(x.(l := LeftRotate(x.l))) else RightRotate(x)
    else if Bias(x) < -1 then
      if Bias(x.r) > 0 then LeftRotate(x.(r := RightRotate(x.r))) else LeftRotate(x)
    else
      x
  }

  /** Rebalancing keeps the in-order sequence of the subtree. */
  lemma BalanceKeepsInorder<V>(x: Tree<V>)
    requires x.Node? && HeightsOk(x.l) && HeightsOk(x.r)
    ensures Inorder(Balance(x)) == Inorder(x)
  {
    var x' := x.(h := Reheight(x));
    if Bias(x') > 1 && Bias(x'.l) < 0 {
      assert Inorder(x'.(l := LeftRotate(x'.l))) == Inorder(x');
    } else if Bias(x') < -1 && Bias(x'.r) > 0 {
      assert Inorder(x'.(r := RightRotate(x'.r))) == Inorder(x');
    }
  }

  /** Rotations keep search-tree order, because they keep the in-order sequence. */
  lemma BalanceKeepsBst<V>(x: Tree<V>)
    requires x.Node? && HeightsOk(x.l) && HeightsOk(x.r)
    requires Bst(x)
    ensures Bst(Balance(x))
  {
    BalanceKeepsInorder(x);
    BstIffAscending(x);
    BstIffAscending(Balance(x));
  }

  /**
    The contract stated on `balance`: when both children of `x` are height
    balanced and their heights differ by at most two, the result is height
    balanced. Its height is the recomputed height of `x` or one less, and
    exactly the recomputed height when no rotation was needed.
  */
  lemma BalanceRestoresAvl<V>(x: Tree<V>)
    requires x.Node? && HeightsOk(x.l) && HeightsOk(x.r)
    requires Balanced(x.l) && Balanced(x.r) && -2 <= Bias(x) <= 2
    ensures Balanced(Balance(x))
    ensures Reheight(x) - 1 <= Height(Balance(x)) <= Reheight(x)
    ensures -1 <= Bias(x) <= 1 ==> Height(Balance(x)) == Reheight(x)
  {
    if Bias(x) == 2 {
      LeftHeavyRepaired(x);
    } else if Bias(x) == -2 {
      RightHeavyRepaired(x);
    }
  }

  /** The left-heavy cases: one right rotation, preceded by a left rotation of x.l when x.l leans right. */
  lemma LeftHeavyRepaired<V>(x: Tree<V>)
    requires x.Node? && HeightsOk(x.l) && HeightsOk(x.r)
    requires Balanced(x.l) && Balanced(x.r) && Bias(x) == 2
    ensures Balanced(Balance(x))
    ensures Reheight(x) - 1 <= Height(Balance(x)) <= Reheight(x)
  {
    if Bias(x.l) < 0 {
      LeftRightRepaired(x);
    } else {
      var y := RightRotate(x.(h := Reheight(x)));
      assert Balance(x) == y;
      assert Balanced(y.r);
    }
  }

  /** The left-right case: a left rotation of x.l followed by a right rotation of x. */
  lemma LeftRightRepaired<V>(x: Tree<V>)
    requires x.Node? && HeightsOk(x.l) && HeightsOk(x.r)
    requires Balanced(x.l) && Balanced(x.r) && Bias(x) == 2 && Bias(x.l) < 0
    ensures Balanced(Balance(x))
    ensures Reheight(x) - 1 <= Height(Balance(x)) <= Reheight(x)
  {
    var l := x.l;
    var y := RightRotate(x.(h := Reheight(x)).(l := LeftRotate(l)));
    assert Balance(x) == y;
    assert Balanced(l.r) && Balanced(l.r.l) && Balanced(l.r.r);
    assert Balanced(y.l);
    assert Balanced(y.r);
  }

  /** The right-heavy cases, mirror images of the left-heavy ones. */
  lemma RightHeavyRepaired<V>(x: Tree<V>)
    requires x.Node? && HeightsOk(x.l) && HeightsOk(x.r)
    requires Balanced(x.l) && Balanced(x.r) && Bias(x) == -2
    ensures Balanced(Balance(x))
    ensures Reheight(x) - 1 <= Height(Balance(x)) <= Reheight(x)
  {
    if Bias(x.r) > 0 {
      RightLeftRepaired(x);
    } else {
      var y := LeftRotate(x.(h := Reheight(x)));
      assert Balance(x) == y;
      assert Balanced(y.l);
    }
  }

  /** The right-left case: a right rotation of x.r followed by a left rotation of x. */
  lemma RightLeftRepaired<V>(x: Tree<V>)
    requires x.Node? && HeightsOk(x.l) && HeightsOk(x.r)
    requires Balanced(x.l) && Balanced(x.r) && Bias(x) == -2 && Bias(x.r) > 0
    ensures Balanced(Balance(x))
    ensures Reheight(x) - 1 <= Height(Balance(x)) <= Reheight(x)
  {
    var r := x.r;
    var y := LeftRotate(x.(h := Reheight(x)).(r := RightRotate(r)));
    assert Balance(x) == y;
    assert Balanced(r.l) && Balanced(r.l.l) && Balanced(r.l.r);
    assert Balanced(y.l);
    assert Balanced(y.r);
  }

  /** On a node that is already balanced with a correct cache, `balance` changes nothing. */
  lemma BalanceIdle<V>(x: Tree<V>)
    requires HeightsOk(x) && x.Node? && -1 <= Bias(x) <= 1
    ensures Balance(x) == x
  {
  }
}
