/**
 * The nodes of `AVLTree` (src/ru/mail/polis/AVLTree.java): a binary search
 * tree over `int` keys whose nodes store a height. The stored height is
 * only refreshed by `fixHeight`, which `delete` and `deleteMin` call on
 * their path and `add` never calls, so it may go stale. Every helper of the
 * source takes a subtree and returns its replacement, so here each helper is
 * a function from a subtree value to a subtree value.
 */
module Avl {
  import opened SortedSeqs

  /** `Nil` is the source's `null` child. A new node's height is 0. */
  datatype Tree = Nil | Node(left: Tree, key: int, height: nat, right: Tree)

  /** The keys of `t` in the order of an in-order walk. */
  function Inorder(t: Tree): seq<int> {
    match t
    case Nil => []
    case Node(l, k, _, r) => Inorder(l) + [k] + Inorder(r)
  }

  /** The search-tree order: the in-order walk is strictly ascending. */
  ghost predicate Ordered(t: Tree) {
    Ascending(Inorder(t))
  }

  /** The order of a node, stated through its two subtrees. */
  lemma OrderedNode(t: Tree)
    requires t.Node?
    ensures Ordered(t) <==>
              Ordered(t.left) && Ordered(t.right) &&
              AllBelow(Inorder(t.left), t.key) && AllAbove(Inorder(t.right), t.key)
  {
    AscendingJoin(Inorder(t.left), t.key, Inorder(t.right));
  }

  function Max(a: int, b: int): int {
    if a > b then a else b
  }

  // ---------------------------------------------------------------------
  // Heights

  /** `height` (lines 125-128): an absent child has height -1. */
  function Height(t: Tree): (h: int)
    ensures h >= -1
    ensures h == -1 <==> t.Nil?
  {
    if t.Nil? then -1 else t.height
  }

  /** `balanceFactor` (lines 132-134): right height minus left height. */
  function BalanceFactor(t: Tree): (bf: int)
    requires t.Node?
    ensures Balanced(t) ==> -1 <= bf <= 1
  {
    Height(t.right) - Height(t.left)
  }

  /** `fixHeight` (lines 137-142): the node's height becomes one more than the
      taller child's; keys and links are untouched. */
  function FixHeight(t: Tree): (r: Tree)
    requires t.Node?
    ensures r.Node? && r.left == t.left && r.key == t.key && r.right == t.right
    ensures Height(r) == Max(Height(t.left), Height(t.right)) + 1
    ensures Height(r) >= Height(t.left) + 1 && Height(r) >= Height(t.right) + 1
  {
    var hl := Height(t.left);
    var hr := Height(t.right);
    t.(height := (if hl > hr then hl else hr) + 1)
  }

  /** The length of the longest downward path, counted in links; -1 for `Nil`. */
  ghost function RealHeight(t: Tree): int {
    match t
    case Nil => -1
    case Node(l, _, _, r) => Max(RealHeight(l), RealHeight(r)) + 1
  }

  /**
   * The AVL invariant: at every node the stored height is exact (one more
   * than the taller child's) and the two children's heights differ by at
   * most one.
   */
  ghost predicate Balanced(t: Tree) {
    match t
    case Nil => true
    case Node(l, _, h, r) =>
      Balanced(l) && Balanced(r) &&
      h == Max(Height(l), Height(r)) + 1 &&
      -1 <= Height(r) - Height(l) <= 1
  }

  /** In a balanced tree every stored height is the real height. */
  lemma {:induction false} BalancedHeightIsReal(t: Tree)
    requires Balanced(t)
    ensures Height(t) == RealHeight(t)
  {
    match t
    case Nil =>
    case Node(l, _, _, r) =>
      BalancedHeightIsReal(l);
      BalancedHeightIsReal(r);
  }

  // ---------------------------------------------------------------------
  // Rotations and rebalancing

  /**
   * `rotateRight` (lines 145-152): promotes the left child. The demoted node
   * gets its height refreshed first, from its new children, and the promoted
   * node's is refreshed from that.
   */
  function RotateRight(t: Tree): (r: Tree)
    requires t.Node? && t.left.Node?
    ensures r.Node? && r.right.Node?
    ensures Inorder(r) == Inorder(t)
    ensures r.key == t.left.key && r.left == t.left.left
    ensures r.right.key == t.key && r.right.left == t.left.right && r.right.right == t.right
    ensures Height(r.right) == Max(Height(t.left.right), Height(t.right)) + 1
    ensures Height(r) == Max(Height(t.left.left), Height(r.right)) + 1
  {
    var q := t.left;
    var c := FixHeight(t.(left := q.right));
    FixHeight(q.(right := c))
  }

  /** `rotateLeft` (lines 155-162): the mirror image of `RotateRight`. */
  function RotateLeft(t: Tree): (r: Tree)
    requires t.Node? && t.right.Node?
    ensures r.Node? && r.left.Node?
    ensures Inorder(r) == Inorder(t)
    ensures r.key == t.right.key && r.right == t.right.right
    ensures r.left.key == t.key && r.left.left == t.left && r.left.right == t.right.left
    ensures Height(r.left) == Max(Height(t.left), Height(t.right.left)) + 1
    ensures Height(r) == Max(Height(r.left), Height(t.right.right)) + 1
  {
    var p := t.right;
    var c := FixHeight(t.(right := p.left));
    FixHeight(p.(left := c))
  }

  /**
   * `balance` (lines 165-180): refreshes the node's height and rotates only
   * when the balance factor is exactly 2 or -2, first rotating the heavy
   * child when that child leans the other way. Stored heights are never
   * negative, so the child to be rotated is always there.
   */
  function Balance(t: Tree): (r: Tree)
    requires t.Node?
    ensures r.Node? && Inorder(r) == Inorder(t)
    ensures var c := FixHeight(t); BalanceFactor(c) != 2 && BalanceFactor(c) != -2 ==> r == c
  {
    var c := FixHeight(t);
    if BalanceFactor(c) == 2 then
      var c1 := if BalanceFactor(c.right) < 0 then c.(right := RotateRight(c.right)) else c;
      RotateLeft(c1)
    else if BalanceFactor(c) == -2 then
      var c1 := if BalanceFactor(c.left) > 0 then c.(left := RotateLeft(c.left)) else c;
      RotateRight(c1)
    else
      c
  }

  /**
   * `balance` on a node whose children are balanced and differ in height by
   * at most two gives a balanced tree, at most one taller than its taller
   * child, and exactly one taller when no rotation was due.
   */
  lemma BalanceRestores(t: Tree)
    requires t.Node? && Balanced(t.left) && Balanced(t.right)
    requires -2 <= Height(t.right) - Height(t.left) <= 2
    ensures Balanced(Balance(t))
    ensures Max(Height(t.left), Height(t.right)) <= Height(Balance(t))
    ensures Height(Balance(t)) <= Max(Height(t.left), Height(t.right)) + 1
    ensures -1 <= Height(t.right) - Height(t.left) <= 1 ==>
              Height(Balance(t)) == Max(Height(t.left), Height(t.right)) + 1
  {
    if Height(t.right) - Height(t.left) == 2 {
      RightHeavyRestored(t);
    } else if Height(t.right) - Height(t.left) == -2 {
      LeftHeavyRestored(t);
    } else {
      assert Balance(t) == FixHeight(t);
    }
  }

  /** The rotation case of `BalanceRestores` with a factor of 2. */
  lemma RightHeavyRestored(c: Tree)
    requires c.Node? && Balanced(c.left) && Balanced(c.right)
    requires Height(c.right) - Height(c.left) == 2
    ensures c.right.Node? && FixHeight(c).Node?
    ensures BalanceFactor(c.right) < 0 ==>
              Balance(c) == RotateLeft(FixHeight(c).(right := RotateRight(c.right)))
    ensures BalanceFactor(c.right) >= 0 ==> Balance(c) == RotateLeft(FixHeight(c))
    ensures Balanced(Balance(c))
    ensures Height(c.right) <= Height(Balance(c)) <= Height(c.right) + 1
  {
    var rt := c.right;
    assert rt.Node? && FixHeight(c).right == rt;
    if BalanceFactor(rt) < 0 {
      assert Balance(c) == RotateLeft(FixHeight(c).(right := RotateRight(rt)));
      DoubleLeftBalanced(FixHeight(c));
    } else {
      assert Balance(c) == RotateLeft(FixHeight(c));
      SingleLeftBalanced(FixHeight(c));
    }
  }

  /** A single left rotation repairs a node two taller on the right whose
      right child does not lean left. */
  lemma SingleLeftBalanced(c: Tree)
    requires c.Node? && c.right.Node? && Balanced(c.left) && Balanced(c.right)
    requires Height(c.right) == Height(c.left) + 2
    requires Height(c.right.left) <= Height(c.right.right)
    ensures Balanced(RotateLeft(c))
    ensures Height(c.right) <= Height(RotateLeft(c)) <= Height(c.right) + 1
  {
    var r := RotateLeft(c);
    assert Balanced(r.left);
  }

  /** A right-then-left rotation repairs a node two taller on the right whose
      right child leans left. */
  lemma DoubleLeftBalanced(c: Tree)
    requires c.Node? && c.right.Node? && Balanced(c.left) && Balanced(c.right)
    requires Height(c.right) == Height(c.left) + 2
    requires Height(c.right.left) > Height(c.right.right)
    ensures Balanced(RotateLeft(c.(right := RotateRight(c.right))))
    ensures Height(c.right) <= Height(RotateLeft(c.(right := RotateRight(c.right)))) <= Height(c.right) + 1
  {
    var rl := c.right.left;
    assert rl.Node? && Height(rl) == Height(c.left) + 1 && Height(c.right.right) == Height(c.left);
    var r := RotateLeft(c.(right := RotateRight(c.right)));
    assert Balanced(r.left);
    assert Balanced(r.right);
  }

  /** The rotation case of `BalanceRestores` with a factor of -2. */
  lemma LeftHeavyRestored(c: Tree)
    requires c.Node? && Balanced(c.left) && Balanced(c.right)
    requires Height(c.right) - Height(c.left) == -2
    ensures c.left.Node? && FixHeight(c).Node?
    ensures BalanceFactor(c.left) > 0 ==>
              Balance(c) == RotateRight(FixHeight(c).(left := RotateLeft(c.left)))
    ensures BalanceFactor(c.left) <= 0 ==> Balance(c) == RotateRight(FixHeight(c))
    ensures Balanced(Balance(c))
    ensures Height(c.left) <= Height(Balance(c)) <= Height(c.left) + 1
  {
    var lt := c.left;
    assert lt.Node? && FixHeight(c).left == lt;
    if BalanceFactor(lt) > 0 {
      assert Balance(c) == RotateRight(FixHeight(c).(left := RotateLeft(lt)));
      DoubleRightBalanced(FixHeight(c));
    } else {
      assert Balance(c) == RotateRight(FixHeight(c));
      SingleRightBalanced(FixHeight(c));
    }
  }

  /** A single right rotation repairs a node two taller on the left whose
      left child does not lean right. */
  lemma SingleRightBalanced(c: Tree)
    requires c.Node? && c.left.Node? && Balanced(c.left) && Balanced(c.right)
    requires Height(c.left) == Height(c.right) + 2
    requires Height(c.left.right) <= Height(c.left.left)
    ensures Balanced(RotateRight(c))
    ensures Height(c.left) <= Height(RotateRight(c)) <= Height(c.left) + 1
  {
    var r := RotateRight(c);
    assert Balanced(r.right);
  }

  /** A left-then-right rotation repairs a node two taller on the left whose
      left child leans right. */
  lemma DoubleRightBalanced(c: Tree)
    requires c.Node? && c.left.Node? && Balanced(c.left) && Balanced(c.right)
    requires Height(c.left) == Height(c.right) + 2
    requires Height(c.left.right) > Height(c.left.left)
    ensures Balanced(RotateRight(c.(left := RotateLeft(c.left))))
    ensures Height(c.left) <= Height(RotateRight(c.(left := RotateLeft(c.left)))) <= Height(c.left) + 1
  {
    var lr := c.left.right;
    assert lr.Node? && Height(lr) == Height(c.right) + 1 && Height(c.left.left) == Height(c.right);
    var r := RotateRight(c.(left := RotateLeft(c.left)));
    assert Balanced(r.left);
    assert Balanced(r.right);
  }

  // ---------------------------------------------------------------------
  // Minimum and deletion

  /** `min` (lines 265-268): the leftmost node, which holds the least key. */
  function MinNode(x: Tree): (m: Tree)
    requires x.Node?
    ensures m.Node? && m.left.Nil? && m.key == Inorder(x)[0]
  {
    if x.left.Nil? then x else MinNode(x.left)
  }

  /**
   * The recursive `deleteMin(Node)` (lines 277-282): the leftmost node is
   * replaced by its right child, and each node on the way back is refreshed
   * and rebalanced.
   */
  function DeleteMinFrom(x: Tree): (r: Tree)
    requires x.Node?
    ensures Inorder(r) == Inorder(x)[1..]
  {
    if x.left.Nil? then
      x.right
    else
      var d := DeleteMinFrom(x.left);
      assert Inorder(x) == Inorder(x.left) + [x.key] + Inorder(x.right);
      assert Inorder(x)[1..] == Inorder(x.left)[1..] + [x.key] + Inorder(x.right);
      Balance(FixHeight(x.(left := d)))
  }

  /**
   * The recursive `delete(Node, E)` (lines 234-262). The second component is
   * the flag `contRemove` as the call leaves it: true when the key was met.
   * A matching node with one child is replaced by that child; one with two
   * children is replaced by the node holding its successor, which is
   * unlinked from the right subtree and takes over both children. Every
   * other node on the search path is refreshed and rebalanced, whether or
   * not the key was met.
   */
  function DeleteFrom(x: Tree, v: int): (r: (Tree, bool))
    ensures r.1 ==> v in Inorder(x) && |Inorder(r.0)| == |Inorder(x)| - 1
    ensures !r.1 ==> Inorder(r.0) == Inorder(x)
  {
    match x
    case Nil => (Nil, false)
    case Node(l, k, _, rt) =>
      if v < k then
        var sub := DeleteFrom(l, v);
        (Balance(FixHeight(x.(left := sub.0))), sub.1)
      else if v > k then
        var sub := DeleteFrom(rt, v);
        (Balance(FixHeight(x.(right := sub.0))), sub.1)
      else if l.Nil? then
        (rt, true)
      else if rt.Nil? then
        (l, true)
      else
        var m := MinNode(rt);
        (Balance(FixHeight(m.(right := DeleteMinFrom(rt), left := l))), true)
  }

  /** `delete` reports the key exactly when it was in the ordered tree, and
      takes exactly that key out of the in-order sequence. */
  lemma {:induction false} DeleteFromInorder(x: Tree, v: int)
    requires Ordered(x)
    ensures DeleteFrom(x, v).1 <==> v in Inorder(x)
    ensures Inorder(DeleteFrom(x, v).0) == Without(Inorder(x), v)
  {
    match x
    case Nil =>
    case Node(l, k, _, rt) =>
      OrderedNode(x);
      if v < k {
        DeleteFromInorder(l, v);
        assert v !in Inorder(rt);
        WithoutLeft(Inorder(l), k, Inorder(rt), v);
      } else if v > k {
        DeleteFromInorder(rt, v);
        assert v !in Inorder(l);
        WithoutRight(Inorder(l), k, Inorder(rt), v);
      } else {
        SeparatorUnique(Inorder(l), k, Inorder(rt));
        DeleteHereInorder(x);
      }
  }

  /** The successor splice of `delete` (lines 252-256) lists the keys of
      both children with nothing in between. */
  lemma SuccessorSplice(l: Tree, rt: Tree)
    requires rt.Node?
    ensures MinNode(rt).Node?
    ensures Inorder(Balance(FixHeight(MinNode(rt).(right := DeleteMinFrom(rt), left := l))))
              == Inorder(l) + Inorder(rt)
  {
    var m := MinNode(rt);
    var y := m.(right := DeleteMinFrom(rt), left := l);
    var b := Inorder(rt);
    assert Inorder(y) == Inorder(l) + [b[0]] + b[1..];
    assert Inorder(FixHeight(y)) == Inorder(y);
    FirstSplit(Inorder(l), b);
  }

  /** `delete` of the key at the top of `x`, when it occurs nowhere else,
      leaves the keys of both children. */
  lemma DeleteHereInorder(x: Tree)
    requires x.Node? && x.key !in Inorder(x.left) && x.key !in Inorder(x.right)
    ensures Inorder(DeleteFrom(x, x.key).0) == Without(Inorder(x), x.key)
  {
    var l, k, rt := x.left, x.key, x.right;
    assert Inorder(x) == Inorder(l) + [k] + Inorder(rt);
    WithoutSeparator(Inorder(l), k, Inorder(rt));
    if l.Nil? {
      assert Inorder(l) + Inorder(rt) == Inorder(rt);
    } else if rt.Nil? {
      assert Inorder(l) + Inorder(rt) == Inorder(l);
    } else {
      SuccessorSplice(l, rt);
    }
  }


  /** `deleteMin` keeps a balanced tree balanced, and lowers it by at most one. */
  lemma {:induction false} DeleteMinKeepsBalance(x: Tree)
    requires x.Node? && Balanced(x)
    ensures Balanced(DeleteMinFrom(x))
    ensures Height(x) - 1 <= Height(DeleteMinFrom(x)) <= Height(x)
  {
    if !x.left.Nil? {
      DeleteMinKeepsBalance(x.left);
      BalanceRestores(FixHeight(x.(left := DeleteMinFrom(x.left))));
    }
  }

  /** `delete` keeps a balanced tree balanced, and lowers it by at most one. */
  lemma {:induction false} DeleteKeepsBalance(x: Tree, v: int)
    requires Balanced(x)
    ensures Balanced(DeleteFrom(x, v).0)
    ensures Height(x) - 1 <= Height(DeleteFrom(x, v).0) <= Height(x)
  {
    match x
    case Nil =>
    case Node(l, k, _, rt) =>
      if v < k {
        DeleteKeepsBalance(l, v);
        BalanceRestores(FixHeight(x.(left := DeleteFrom(l, v).0)));
      } else if v > k {
        DeleteKeepsBalance(rt, v);
        BalanceRestores(FixHeight(x.(right := DeleteFrom(rt, v).0)));
      } else if !l.Nil? && !rt.Nil? {
        SuccessorKeepsBalance(l, rt);
      }
  }

  /** The successor splice of `delete` on two balanced children of nearly
      equal height is balanced and at most one lower than their parent. */
  lemma SuccessorKeepsBalance(l: Tree, rt: Tree)
    requires rt.Node? && Balanced(l) && Balanced(rt)
    requires -1 <= Height(rt) - Height(l) <= 1
    ensures MinNode(rt).Node?
    ensures var r := Balance(FixHeight(MinNode(rt).(right := DeleteMinFrom(rt), left := l)));
      Balanced(r) && Max(Height(l), Height(rt)) <= Height(r) <= Max(Height(l), Height(rt)) + 1
  {
    DeleteMinKeepsBalance(rt);
    var m := MinNode(rt);
    BalanceRestores(FixHeight(m.(right := DeleteMinFrom(rt), left := l)));
  }

  // ---------------------------------------------------------------------
  // Insertion

  /**
   * What `add` (lines 184-217) does to the tree: the key is looked up from
   * the root, and when an absent child is reached a new node of height 0 is
   * hung there. No height is refreshed and nothing is rebalanced.
   */
  function InsertLeaf(t: Tree, v: int): (r: Tree)
    ensures r.Node? && v in Inorder(r)
    ensures t.Node? ==> r.key == t.key && r.height == t.height
  {
    match t
    case Nil => Node(Nil, v, 0, Nil)
    case Node(l, k, h, rt) =>
      if k == v then t
      else if k < v then Node(l, k, h, InsertLeaf(rt, v))
      else Node(InsertLeaf(l, v), k, h, rt)
  }

  /** On an ordered tree `add` inserts the key into the in-order sequence, and
      leaves the tree as it was exactly when the key is already there. */
  lemma {:induction false} InsertLeafInorder(t: Tree, v: int)
    requires Ordered(t)
    ensures Inorder(InsertLeaf(t, v)) == InsertSorted(Inorder(t), v)
    ensures InsertLeaf(t, v) == t <==> v in Inorder(t)
  {
    match t
    case Nil =>
    case Node(l, k, h, rt) =>
      OrderedNode(t);
      if k == v {
        InsertJoinHere(Inorder(l), k, Inorder(rt));
      } else if k < v {
        InsertLeafInorder(rt, v);
        InsertJoinRight(Inorder(l), k, Inorder(rt), v);
        assert v !in Inorder(l);
      } else {
        InsertLeafInorder(l, v);
        InsertJoinLeft(Inorder(l), k, Inorder(rt), v);
        assert v !in Inorder(rt);
      }
  }

  /** Three additions to an empty tree, as `add` makes them, leave a chain of
      height 2 whose stored heights are all still 0: the tree is not balanced. */
  lemma AddLeavesTreeUnbalanced()
    ensures var t := InsertLeaf(InsertLeaf(InsertLeaf(Nil, 1), 2), 3);
            Inorder(t) == [1, 2, 3] && Height(t) == 0 && RealHeight(t) == 2 && !Balanced(t)
  {
  }

  /**
   * Insertion as the rest of the class treats a subtree: like `InsertLeaf`,
   * but each node on the way back is refreshed and rebalanced, as `delete`
   * does on its path.
   */
  function InsertBalanced(t: Tree, v: int): (r: Tree)
    ensures r.Node? && v in Inorder(r)
    ensures |Inorder(t)| <= |Inorder(r)| <= |Inorder(t)| + 1
  {
    match t
    case Nil => Node(Nil, v, 0, Nil)
    case Node(l, k, _, rt) =>
      if k == v then t
      else if k < v then Balance(FixHeight(t.(right := InsertBalanced(rt, v))))
      else Balance(FixHeight(t.(left := InsertBalanced(l, v))))
  }

  /** The rebalancing insertion keeps a balanced tree balanced, and raises it by at most one. */
  lemma {:induction false} InsertBalancedKeepsBalance(t: Tree, v: int)
    requires Balanced(t)
    ensures Balanced(InsertBalanced(t, v))
    ensures Height(t) <= Height(InsertBalanced(t, v)) <= Height(t) + 1
  {
    match t
    case Nil =>
    case Node(l, k, _, rt) =>
      if k < v {
        InsertBalancedKeepsBalance(rt, v);
        BalanceRestores(FixHeight(t.(right := InsertBalanced(rt, v))));
      } else if v < k {
        InsertBalancedKeepsBalance(l, v);
        BalanceRestores(FixHeight(t.(left := InsertBalanced(l, v))));
      }
  }

  /** The rebalancing insertion puts the key into the in-order sequence. */
  lemma {:induction false} InsertBalancedInorder(t: Tree, v: int)
    requires Ordered(t)
    ensures Inorder(InsertBalanced(t, v)) == InsertSorted(Inorder(t), v)
  {
    match t
    case Nil =>
    case Node(l, k, _, rt) =>
      OrderedNode(t);
      if k == v {
        InsertJoinHere(Inorder(l), k, Inorder(rt));
      } else if k < v {
        InsertBalancedInorder(rt, v);
        InsertJoinRight(Inorder(l), k, Inorder(rt), v);
      } else {
        InsertBalancedInorder(l, v);
        InsertJoinLeft(Inorder(l), k, Inorder(rt), v);
      }
  }
}
