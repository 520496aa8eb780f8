/**
 * The nodes of `RedBlackTree` (src/ru/mail/polis/RedBlackTree.java): a
 * left-leaning red-black search tree over `int` keys. Each node carries the
 * colour of the link from its parent. Every helper of the source takes a
 * subtree and returns its replacement, so here each helper is a function
 * from a subtree value to a subtree value.
 */
module RedBlack {
  import opened SortedSeqs

  datatype Color = Red | Black

  /** `Nil` is the source's `null` child. */
  datatype Tree = Nil | Node(color: Color, left: Tree, key: int, right: Tree)

  /** The keys of `t` in the order of an in-order walk. */
  function Inorder(t: Tree): seq<int> {
    match t
    case Nil => []
    case Node(_, l, k, r) => Inorder(l) + [k] + Inorder(r)
  }

  /** The search-tree order: the in-order walk is strictly ascending. */
  ghost predicate Ordered(t: Tree) {
    Ascending(Inorder(t))
  }

  /** The order of a node, stated through its two subtrees. */
  lemma OrderedNode(t: Tree)
    requires t.Node?
    ensures Ordered(t) <==>
              Ordered(t.left) && Ordered(t.right) &&
              AllBelow(Inorder(t.left), t.key) && AllAbove(Inorder(t.right), t.key)
  {
    AscendingJoin(Inorder(t.left), t.key, Inorder(t.right));
  }

  /** `isRed` (lines 27-30): an absent child counts as black. */
  predicate IsRed(x: Tree): (red: bool)
    ensures x.Nil? ==> !red
  {
    x.Node? && x.color == Red
  }

  function Flip(c: Color): Color {
    if c == Red then Black else Red
  }

  // ---------------------------------------------------------------------
  // The left-leaning red-black invariants

  /** No red right link, and no red node with a red left child, anywhere in `t`.
      The colour of `t` itself is not constrained. */
  ghost predicate LeftLeaning(t: Tree) {
    match t
    case Nil => true
    case Node(c, l, _, r) =>
      !IsRed(r) && !(c == Red && IsRed(l)) && LeftLeaning(l) && LeftLeaning(r)
  }

  /** The number of black nodes on the leftmost path of `t`, `t` included. */
  ghost function BlackHeight(t: Tree): nat {
    match t
    case Nil => 0
    case Node(c, l, _, _) => BlackHeight(l) + (if c == Black then 1 else 0)
  }

  /** Every path from `t` down to an absent child meets the same number of black nodes. */
  ghost predicate BlackBalanced(t: Tree) {
    match t
    case Nil => true
    case Node(_, l, _, r) =>
      BlackBalanced(l) && BlackBalanced(r) && BlackHeight(l) == BlackHeight(r)
  }

  /** The invariant of a whole tree: ordered, left-leaning, black-balanced, black root. */
  ghost predicate IsLLRB(t: Tree) {
    Ordered(t) && LeftLeaning(t) && BlackBalanced(t) && !IsRed(t)
  }

  // ---------------------------------------------------------------------
  // Local rewrites

  /** `rotateRight` (lines 116-123): promotes the left child, which takes
      `h`'s colour; `h` becomes its red right child. */
  function RotateRight(h: Tree): (r: Tree)
    requires h.Node? && h.left.Node?
    ensures r.Node? && r.right.Node?
    ensures Inorder(r) == Inorder(h)
    ensures r.color == h.color && r.right.color == Red
    ensures r.right.key == h.key && r.right.right == h.right
  {
    var x := h.left;
    Node(h.color, x.left, x.key, Node(Red, x.right, h.key, h.right))
  }

  /** `rotateLeft` (lines 126-133): promotes the right child, which takes
      `h`'s colour; `h` becomes its red left child. */
  function RotateLeft(h: Tree): (r: Tree)
    requires h.Node? && h.right.Node?
    ensures r.Node? && r.left.Node?
    ensures Inorder(r) == Inorder(h)
    ensures r.color == h.color && r.left.color == Red
    ensures r.left.key == h.key && r.left.left == h.left
  {
    var x := h.right;
    Node(h.color, Node(Red, h.left, h.key, x.left), x.key, x.right)
  }

  /** `flipColors` (lines 136-140): negates the colours of `h` and of both
      children; keys and links stay as they are. */
  function FlipColors(h: Tree): (r: Tree)
    requires h.Node? && h.left.Node? && h.right.Node?
    ensures r.Node? && r.left.Node? && r.right.Node?
    ensures r.color == Flip(h.color)
    ensures r.left.color == Flip(h.left.color) && r.right.color == Flip(h.right.color)
    ensures r.key == h.key && r.left.key == h.left.key && r.right.key == h.right.key
    ensures r.left.left == h.left.left && r.left.right == h.left.right
    ensures r.right.left == h.right.left && r.right.right == h.right.right
    ensures Inorder(r) == Inorder(h)
  {
    Node(Flip(h.color), h.left.(color := Flip(h.left.color)), h.key,
         h.right.(color := Flip(h.right.color)))
  }

  /** The three fix-up steps at the end of the recursive `add` (lines 176-184). */
  function FixUp(h: Tree): (r: Tree)
    requires h.Node?
    ensures r.Node? && Inorder(r) == Inorder(h)
  {
    var a := if IsRed(h.right) && !IsRed(h.left) then RotateLeft(h) else h;
    var b := if IsRed(a.left) && IsRed(a.left.left) then RotateRight(a) else a;
    if IsRed(b.left) && IsRed(b.right) then FlipColors(b) else b
  }

  /** `balance` (lines 285-297): like `FixUp`, except that a red right link
      is rotated whatever the colour of the left one. */
  function Balance(h: Tree): (r: Tree)
    requires h.Node?
    ensures r.Node? && Inorder(r) == Inorder(h)
  {
    var a := if IsRed(h.right) then RotateLeft(h) else h;
    var b := if IsRed(a.left) && IsRed(a.left.left) then RotateRight(a) else a;
    if IsRed(b.left) && IsRed(b.right) then FlipColors(b) else b
  }

  /** `moveRedLeft` (lines 189-199). */
  function MoveRedLeft(h: Tree): (r: Tree)
    requires h.Node? && h.left.Node? && h.right.Node?
    ensures r.Node? && Inorder(r) == Inorder(h)
  {
    var f := FlipColors(h);
    if IsRed(f.right.left) then
      FlipColors(RotateLeft(f.(right := RotateRight(f.right))))
    else f
  }

  /** `moveRedRight` (lines 201-210). */
  function MoveRedRight(h: Tree): (r: Tree)
    requires h.Node? && h.left.Node? && h.right.Node?
    ensures r.Node? && Inorder(r) == Inorder(h)
  {
    var f := FlipColors(h);
    if IsRed(f.left.left) then FlipColors(RotateRight(f)) else f
  }

  /** The private `min(Node)` (lines 305-312): the leftmost node. */
  function MinNode(x: Tree): (m: Tree)
    requires x.Node?
    ensures m.Node? && m.left.Nil? && m.key == Inorder(x)[0]
  {
    if x.left.Nil? then x else MinNode(x.left)
  }
  // ---------------------------------------------------------------------
  // Insertion

  /**
   * The recursive `add(Node, E)` (lines 159-187): descends by key, hangs a
   * new RED leaf at the empty place, and applies `FixUp` on every node of the
   * way back. The second component is the flag `contAdd` as the call leaves
   * it: false when the key was met on the way down.
   */
  function AddTo(h: Tree, key: int): (r: (Tree, bool))
    ensures r.0.Node? && key in Inorder(r.0)
    ensures r.1 ==> |Inorder(r.0)| == |Inorder(h)| + 1
    ensures !r.1 ==> |Inorder(r.0)| == |Inorder(h)|
  {
    match h
    case Nil => (Node(Red, Nil, key, Nil), true)
    case Node(c, l, k, rt) =>
      if key < k then
        var sub := AddTo(l, key);
        (FixUp(Node(c, sub.0, k, rt)), sub.1)
      else if key > k then
        var sub := AddTo(rt, key);
        (FixUp(Node(c, l, k, sub.0)), sub.1)
      else
        (FixUp(h), false)
  }

  /** On a left-leaning node the fix-up has nothing to do. */
  lemma FixUpIdle(h: Tree)
    requires h.Node? && LeftLeaning(h)
    ensures FixUp(h) == h
  {
  }

  /** `add` on an ordered tree inserts the key into the in-order sequence and
      reports whether it was absent. */
  lemma {:induction false} AddToInorder(h: Tree, key: int)
    requires Ordered(h)
    ensures Inorder(AddTo(h, key).0) == InsertSorted(Inorder(h), key)
    ensures AddTo(h, key).1 <==> key !in Inorder(h)
  {
    match h
    case Nil =>
    case Node(c, l, k, rt) =>
      OrderedNode(h);
      if key < k {
        AddToInorder(l, key);
        InsertJoinLeft(Inorder(l), k, Inorder(rt), key);
      } else if key > k {
        AddToInorder(rt, key);
        InsertJoinRight(Inorder(l), k, Inorder(rt), key);
      } else {
        InsertJoinHere(Inorder(l), k, Inorder(rt));
      }
  }

  /** When `add` meets the key in a left-leaning tree, the tree comes back unchanged. */
  lemma {:induction false} AddToFound(h: Tree, key: int)
    requires LeftLeaning(h)
    ensures !AddTo(h, key).1 ==> AddTo(h, key).0 == h
  {
    match h
    case Nil =>
    case Node(c, l, k, rt) =>
      if key < k {
        AddToFound(l, key);
      } else if key > k {
        AddToFound(rt, key);
      }
      if !AddTo(h, key).1 {
        FixUpIdle(h);
      }
  }

  /**
   * What the recursive `add` gives back for the subtree `h`: black-balanced
   * with the same black height, no red right link, left-leaning subtrees, and
   * only a red `h` can come back as a red node with a red left child (which
   * the parent's fix-up then rotates).
   */
  ghost predicate Inserted(h: Tree, r: Tree) {
    r.Node? && BlackBalanced(r) && BlackHeight(r) == BlackHeight(h) &&
    !IsRed(r.right) && LeftLeaning(r.left) && LeftLeaning(r.right) &&
    (!IsRed(h) ==> LeftLeaning(r))
  }

  /** The fix-up of a node whose left subtree the insertion replaced. */
  lemma FixUpAfterLeft(c: Color, l: Tree, k: int, rt: Tree, sub: Tree)
    requires LeftLeaning(Node(c, l, k, rt)) && BlackBalanced(Node(c, l, k, rt))
    requires sub.Node? && Inserted(l, sub)
    ensures Inserted(Node(c, l, k, rt), FixUp(Node(c, sub, k, rt)))
  {
    if IsRed(sub) && IsRed(sub.left) {
      // only a red `l` comes back like this, so `c` is black
      var x := sub.left;
      assert BlackHeight(sub) == BlackHeight(x) == BlackHeight(x.left);
      assert BlackHeight(x) == BlackHeight(sub.right) == BlackHeight(rt);
      var top := Node(c, x, sub.key, Node(Red, sub.right, k, rt));
      assert FixUp(Node(c, sub, k, rt)) == FlipColors(top);
      assert BlackHeight(FlipColors(top).left) == BlackHeight(x.left) + 1;
      assert BlackHeight(FlipColors(top).right) == BlackHeight(sub.right) + 1;
      var r := FlipColors(top);
      assert IsRed(l) && c == Black;
      assert BlackBalanced(x);
      assert r.left == Node(Black, x.left, x.key, x.right);
      assert BlackBalanced(r.left);
      assert BlackBalanced(r.right);
      assert BlackBalanced(r);
      assert BlackHeight(r) == BlackHeight(Node(c, l, k, rt));
      assert LeftLeaning(r.left);
      assert LeftLeaning(r.right);
      assert LeftLeaning(r);
    } else {
      assert LeftLeaning(sub);
      var n := Node(c, sub, k, rt);
      assert FixUp(n) == n;
      assert BlackBalanced(n);
      assert BlackHeight(n) == BlackHeight(Node(c, l, k, rt));
      assert !IsRed(n.right) && LeftLeaning(n.left) && LeftLeaning(n.right);
      assert c == Black ==> LeftLeaning(n);
    }
  }

  /** The fix-up of a node whose right subtree the insertion replaced. */
  lemma FixUpAfterRight(c: Color, l: Tree, k: int, rt: Tree, sub: Tree)
    requires LeftLeaning(Node(c, l, k, rt)) && BlackBalanced(Node(c, l, k, rt))
    requires sub.Node? && Inserted(rt, sub)
    ensures Inserted(Node(c, l, k, rt), FixUp(Node(c, l, k, sub)))
  {
  }

  /** The insert fix-up keeps the red-black invariants all the way up. */
  lemma {:induction false} AddToShape(h: Tree, key: int)
    requires LeftLeaning(h) && BlackBalanced(h)
    ensures Inserted(h, AddTo(h, key).0)
  {
    match h
    case Nil =>
    case Node(c, l, k, rt) =>
      if key < k {
        AddToShape(l, key);
        FixUpAfterLeft(c, l, k, rt, AddTo(l, key).0);
      } else if key > k {
        AddToShape(rt, key);
        FixUpAfterRight(c, l, k, rt, AddTo(rt, key).0);
      } else {
        FixUpIdle(h);
      }
  }

  // ---------------------------------------------------------------------
  // Deletion

  /**
   * The nodes that `delete` and `deleteMin` may enter on the way down: `h` is
   * not a 2-node, because `h` or its left child is red (never both), the right
   * link is black, and both subtrees are valid left-leaning trees.
   */
  ghost predicate Borrowed(h: Tree) {
    h.Node? && BlackBalanced(h) && LeftLeaning(h.left) && LeftLeaning(h.right) &&
    !IsRed(h.right) && (IsRed(h) != IsRed(h.left))
  }

  /**
   * The one further kind of node `delete` may enter: the black node that
   * `moveRedRight`'s rotation leaves as the right child, whose own right link
   * is red and whose key is not above the key being deleted.
   */
  ghost predicate BorrowedRight(h: Tree, v: int) {
    h.Node? && BlackBalanced(h) && LeftLeaning(h.left) && LeftLeaning(h.right) &&
    !IsRed(h) && !IsRed(h.left) && IsRed(h.right) && h.key <= v
  }

  /** What `delete` and `deleteMin` give back for the subtree `h`: a valid
      left-leaning tree of the same black height, not red if `h` was not. */
  ghost predicate Repaired(h: Tree, r: Tree) {
    LeftLeaning(r) && BlackBalanced(r) && BlackHeight(r) == BlackHeight(h) &&
    (!IsRed(h) ==> !IsRed(r))
  }

  /**
   * `balance` turns every node the deletion hands it into a valid
   * left-leaning tree: a node whose subtrees are valid, and which, when red,
   * has no red child. The result is red only if the node was, or if both of
   * its children were (the split of a temporary 4-node).
   */
  lemma BalanceRestores(x: Tree)
    requires x.Node? && BlackBalanced(x) && LeftLeaning(x.left) && LeftLeaning(x.right)
    requires IsRed(x) ==> !IsRed(x.left) && !IsRed(x.right)
    ensures LeftLeaning(Balance(x)) && BlackBalanced(Balance(x))
    ensures BlackHeight(Balance(x)) == BlackHeight(x)
    ensures IsRed(Balance(x)) ==> IsRed(x) || (IsRed(x.left) && IsRed(x.right))
  {
  }

  /**
   * The step before descending left (lines 235-236 and 275-276): the node
   * reached on the left is again one `delete` may enter, and the node handed
   * to `balance` afterwards meets `BalanceRestores`.
   */
  lemma LeftDescent(h: Tree, h1: Tree)
    requires Borrowed(h) && h.left.Node?
    requires h1 == if !IsRed(h.left) && !IsRed(h.left.left) then MoveRedLeft(h) else h
    ensures h1.Node? && Borrowed(h1.left)
    ensures BlackBalanced(h1) && BlackHeight(h1) == BlackHeight(h)
    ensures LeftLeaning(h1.right)
    ensures IsRed(h1) ==> !IsRed(h1.left) && !IsRed(h1.right)
    ensures !IsRed(h) ==> !IsRed(h1) && !IsRed(h1.right)
    ensures h1.key == h.key || h1.left.key == h.key
  {
    if !IsRed(h.left) && !IsRed(h.left.left) {
      var f := FlipColors(h);
      Recolored(h.left, Red);
      Recolored(h.right, Red);
      if IsRed(f.right.left) {
        Recolored(h.right.left, Red);
      }
    }
  }

  /** Repainting the root of a subtree changes neither its balance nor its shape below. */
  lemma Recolored(t: Tree, c: Color)
    requires t.Node?
    ensures BlackBalanced(t.(color := c)) == BlackBalanced(t)
    ensures LeftLeaning(t.left) && LeftLeaning(t.right) && !IsRed(t.right) ==>
              LeftLeaning(t.(color := c)) || (c == Red && IsRed(t.left))
  {
  }

  /**
   * The rotation before descending right (lines 240-241): afterwards the node
   * is either red with black children, or black with a black left and a red
   * right link. A node left without a right child is a red leaf.
   */
  lemma RightRotateStep(h: Tree, v: int, h1: Tree)
    requires Borrowed(h) || BorrowedRight(h, v)
    requires Ordered(h) && h.key <= v
    requires h1 == if IsRed(h.left) then RotateRight(h) else h
    ensures (Borrowed(h1) && IsRed(h1)) || BorrowedRight(h1, v)
    ensures BlackHeight(h1) == BlackHeight(h)
    ensures !IsRed(h) ==> !IsRed(h1)
    ensures h1.key == h.key || h1.right.key == h.key
    ensures h1.right.Nil? ==> h1 == h && h.left.Nil? && BlackHeight(h) == 0
  {
    OrderedNode(h);
    if IsRed(h.left) {
      assert h.left.key in Inorder(h.left);
    }
  }

  /**
   * The step before descending right (lines 245-246): the right child is
   * again a node `delete` may enter (and `deleteMin` may, when the key is
   * still at the top), and the node later handed to `balance` meets
   * `BalanceRestores`.
   */
  lemma RightDescent(h1: Tree, v: int, h2: Tree)
    requires (Borrowed(h1) && IsRed(h1)) || BorrowedRight(h1, v)
    requires h1.right.Node? && h1.key <= v
    requires h2 == if !IsRed(h1.right) && !IsRed(h1.right.left) then MoveRedRight(h1) else h1
    ensures h2.Node? && h2.right.Node?
    ensures BlackBalanced(h2) && BlackHeight(h2) == BlackHeight(h1) && LeftLeaning(h2.left)
    ensures (h2.key == h1.key && Borrowed(h2.right)) ||
            (h2.right.key == h1.key && BorrowedRight(h2.right, v))
    ensures IsRed(h2) ==> !IsRed(h2.left) && !IsRed(h2.right)
    ensures !IsRed(h1) ==> !IsRed(h2) && !IsRed(h2.left)
  {
    if !IsRed(h1.right) && !IsRed(h1.right.left) {
      MoveRedRightShape(h1, v);
    }
  }

  /** `moveRedRight` on a red node whose children are black 2-nodes. */
  lemma MoveRedRightShape(h: Tree, v: int)
    requires Borrowed(h) && IsRed(h) && h.key <= v
    requires h.right.Node? && !IsRed(h.right.left)
    ensures var m := MoveRedRight(h);
      m.right.Node? && BlackBalanced(m) && BlackHeight(m) == BlackHeight(h) &&
      LeftLeaning(m.left) &&
      ((m.key == h.key && Borrowed(m.right)) ||
       (m.right.key == h.key && BorrowedRight(m.right, v))) &&
      (IsRed(m) ==> !IsRed(m.left) && !IsRed(m.right))
  {
    Recolored(h.left, Red);
    Recolored(h.right, Red);
    var f := FlipColors(h);
    if IsRed(f.left.left) {
      Recolored(h.left.left, Black);
      var g := RotateRight(f);
      assert BlackBalanced(g.right);
      var m := FlipColors(g);
      assert m.right == g.right.(color := Black);
      Recolored(g.right, Black);
    }
  }

  /**
   * The recursive `deleteMin(Node)` (lines 270-281): removes the leftmost
   * node, borrowing redness on the way down and rebalancing on the way up.
   */
  function DeleteMinFrom(h: Tree): (r: Tree)
    requires Borrowed(h)
    ensures Inorder(r) == Inorder(h)[1..]
    ensures Repaired(h, r)
    decreases |Inorder(h)|
  {
    if h.left.Nil? then
      MinIsLeaf(h);
      Nil
    else
      var h1 := if !IsRed(h.left) && !IsRed(h.left.left) then MoveRedLeft(h) else h;
      LeftDescent(h, h1);
      assert Inorder(h1) == Inorder(h);
      var sub := DeleteMinFrom(h1.left);
      MinRebuilt(h, h1, sub);
      Balance(h1.(left := sub))
  }

  /** A node `deleteMin` may enter that has no left child is a red leaf. */
  lemma MinIsLeaf(h: Tree)
    requires Borrowed(h) && h.left.Nil?
    ensures Inorder(h)[1..] == Inorder(Nil)
    ensures Repaired(h, Nil)
  {
    assert h.right.Nil?;
    assert Inorder(h) == [h.key];
  }

  /** The left step of `deleteMin` and its `balance` remove the first key and repair the tree. */
  lemma MinRebuilt(h: Tree, h1: Tree, sub: Tree)
    requires h1.Node? && h1.left.Node? && Inorder(h1) == Inorder(h)
    requires BlackBalanced(h1) && BlackHeight(h1) == BlackHeight(h) && LeftLeaning(h1.right)
    requires IsRed(h1) ==> !IsRed(h1.left) && !IsRed(h1.right)
    requires !IsRed(h) ==> !IsRed(h1) && !IsRed(h1.right)
    requires Inorder(sub) == Inorder(h1.left)[1..] && Repaired(h1.left, sub)
    ensures Inorder(Balance(h1.(left := sub))) == Inorder(h)[1..]
    ensures Repaired(h, Balance(h1.(left := sub)))
  {
    LeftShortened(h1, sub);
    BalanceRestores(h1.(left := sub));
  }

  /** Replacing the left subtree by one without its first key drops the
      first key of the node. */
  lemma LeftShortened(h1: Tree, sub: Tree)
    requires h1.Node? && h1.left.Node? && Inorder(sub) == Inorder(h1.left)[1..]
    ensures Inorder(h1.(left := sub)) == Inorder(h1)[1..]
  {
    var a, b := Inorder(h1.left), Inorder(h1.right);
    assert a != [] by {
      assert Inorder(h1.left) == Inorder(h1.left.left) + [h1.left.key] + Inorder(h1.left.right);
    }
    assert Inorder(h1) == [a[0]] + (a[1..] + [h1.key] + b) by {
      assert a == [a[0]] + a[1..];
    }
    assert Inorder(h1.(left := sub)) == a[1..] + [h1.key] + b;
  }

  /**
   * The recursive `delete(Node, E)` (lines 230-255) for a key present in the
   * subtree. A key below the node's is deleted on the left after
   * `moveRedLeft`; otherwise a red left link is rotated right, a matching node
   * without a right child is dropped, `moveRedRight` borrows on the right,
   * and a matching node takes its successor's key, the successor being
   * removed by `DeleteMinFrom`.
   */
  function DeleteFrom(h: Tree, v: int): (r: Tree)
    requires Borrowed(h) || BorrowedRight(h, v)
    requires Ordered(h) && v in Inorder(h)
    ensures Inorder(r) == Without(Inorder(h), v)
    ensures Repaired(h, r)
    decreases |Inorder(h)|
  {
    OrderedNode(h);
    if v < h.key then
      var h1 := if !IsRed(h.left) && !IsRed(h.left.left) then MoveRedLeft(h) else h;
      LeftDescent(h, h1);
      DescendLeft(h, v, h1);
      var sub := DeleteFrom(h1.left, v);
      LeftRebuilt(h, v, h1, sub);
      Balance(h1.(left := sub))
    else
      var h1 := if IsRed(h.left) then RotateRight(h) else h;
      RightRotateStep(h, v, h1);
      if v == h1.key && h1.right.Nil? then
        DroppedLeaf(h, v);
        Nil
      else
        DescendRightReady(h, v, h1);
        var h2 := if !IsRed(h1.right) && !IsRed(h1.right.left) then MoveRedRight(h1) else h1;
        RightDescent(h1, v, h2);
        DescendRight(h, v, h1, h2);
        if v == h2.key then
          var sub := DeleteMinFrom(h2.right);
          var m := MinNode(h2.right).key;
          SuccessorRebuilt(h, v, h2, m, sub);
          Balance(h2.(key := m, right := sub))
        else
          var sub := DeleteFrom(h2.right, v);
          RightRebuilt(h, v, h2, sub);
          Balance(h2.(right := sub))
  }

  /** Where the left descent of `delete` goes: the key lies in the new left subtree. */
  lemma DescendLeft(h: Tree, v: int, h1: Tree)
    requires h.Node? && h1.Node? && h1.left.Node? && Ordered(h) && v in Inorder(h) && v < h.key
    requires Inorder(h1) == Inorder(h) && (h1.key == h.key || h1.left.key == h.key)
    ensures Ordered(h1.left) && v in Inorder(h1.left) && |Inorder(h1.left)| < |Inorder(h)|
  {
    OrderedNode(h1);
    if h1.key != h.key {
      assert h.key in Inorder(h1.left);
    }
    assert v < h1.key;
    assert v !in Inorder(h1.right);
  }

  /** The left step of `delete` and its `balance` remove the key and repair the tree. */
  lemma LeftRebuilt(h: Tree, v: int, h1: Tree, sub: Tree)
    requires h1.Node? && Ordered(h1) && Inorder(h1) == Inorder(h) && v in Inorder(h1.left)
    requires BlackBalanced(h1) && BlackHeight(h1) == BlackHeight(h) && LeftLeaning(h1.right)
    requires IsRed(h1) ==> !IsRed(h1.left) && !IsRed(h1.right)
    requires !IsRed(h) ==> !IsRed(h1) && !IsRed(h1.right)
    requires Inorder(sub) == Without(Inorder(h1.left), v) && Repaired(h1.left, sub)
    ensures Inorder(Balance(h1.(left := sub))) == Without(Inorder(h), v)
    ensures Repaired(h, Balance(h1.(left := sub)))
  {
    OrderedNode(h1);
    assert v < h1.key && v !in Inorder(h1.right);
    WithoutLeft(Inorder(h1.left), h1.key, Inorder(h1.right), v);
    BalanceRestores(h1.(left := sub));
  }

  /** A matching node with no right child is a red leaf: dropping it repairs the tree. */
  lemma DroppedLeaf(h: Tree, v: int)
    requires h.Node? && h.left.Nil? && h.right.Nil? && h.key == v && BlackHeight(h) == 0
    ensures Without(Inorder(h), v) == Inorder(Nil)
    ensures Repaired(h, Nil)
  {
    assert Inorder(h) == [v];
  }

  /** On the right, after the rotation, the key is at the node or below its right child. */
  lemma DescendRightReady(h: Tree, v: int, h1: Tree)
    requires h.Node? && h1.Node? && Ordered(h) && v in Inorder(h) && h.key <= v
    requires Inorder(h1) == Inorder(h) && (h1.key == h.key || (h1.right.Node? && h1.right.key == h.key))
    requires !(v == h1.key && h1.right.Nil?)
    ensures h1.key <= v && h1.right.Node?
  {
    OrderedNode(h1);
    if h1.key != h.key {
      assert h.key in Inorder(h1.right);
    }
  }

  /** Where the right descent of `delete` goes: the key is at the node or in
      the new right subtree. */
  lemma DescendRight(h: Tree, v: int, h1: Tree, h2: Tree)
    requires h1.Node? && h2.Node? && h2.right.Node? && Ordered(h) && v in Inorder(h) && h1.key <= v
    requires Inorder(h2) == Inorder(h) && (h2.key == h1.key || h2.right.key == h1.key)
    ensures Ordered(h2) && Ordered(h2.right) && h2.key <= v && |Inorder(h2.right)| < |Inorder(h)|
    ensures v != h2.key ==> v in Inorder(h2.right)
    ensures h2.key != h1.key ==> h2.key < v
    ensures h2.key < h2.right.key
  {
    OrderedNode(h2);
    assert h2.right.key in Inorder(h2.right);
    if h2.key != h1.key {
      assert h1.key in Inorder(h2.right);
    }
  }

  /** The right step of `delete` and its `balance` remove the key and repair the tree. */
  lemma RightRebuilt(h: Tree, v: int, h2: Tree, sub: Tree)
    requires h2.Node? && Ordered(h2) && Inorder(h2) == Inorder(h) && v in Inorder(h2.right)
    requires BlackBalanced(h2) && BlackHeight(h2) == BlackHeight(h) && LeftLeaning(h2.left)
    requires IsRed(h2) ==> !IsRed(h2.left) && !IsRed(h2.right)
    requires !IsRed(h) ==> !IsRed(h2) && !IsRed(h2.left)
    requires Inorder(sub) == Without(Inorder(h2.right), v) && Repaired(h2.right, sub)
    ensures Inorder(Balance(h2.(right := sub))) == Without(Inorder(h), v)
    ensures Repaired(h, Balance(h2.(right := sub)))
  {
    OrderedNode(h2);
    assert h2.key < v && v !in Inorder(h2.left);
    WithoutRight(Inorder(h2.left), h2.key, Inorder(h2.right), v);
    BalanceRestores(h2.(right := sub));
  }

  /** Overwriting the matching key with its successor's, and deleting the
      successor below, removes the key and repairs the tree (lines 247-251). */
  lemma SuccessorRebuilt(h: Tree, v: int, h2: Tree, m: int, sub: Tree)
    requires h2.Node? && h2.right.Node? && Ordered(h2) && Inorder(h2) == Inorder(h) && h2.key == v
    requires m == Inorder(h2.right)[0]
    requires BlackBalanced(h2) && BlackHeight(h2) == BlackHeight(h) && LeftLeaning(h2.left)
    requires IsRed(h2) ==> !IsRed(h2.left) && !IsRed(h2.right)
    requires !IsRed(h) ==> !IsRed(h2) && !IsRed(h2.left)
    requires Inorder(sub) == Inorder(h2.right)[1..] && Repaired(h2.right, sub)
    ensures Inorder(Balance(h2.(key := m, right := sub))) == Without(Inorder(h), v)
    ensures Repaired(h, Balance(h2.(key := m, right := sub)))
  {
    SeparatorUnique(Inorder(h2.left), h2.key, Inorder(h2.right));
    SuccessorListing(h2, m, sub);
    BalanceRestores(h2.(key := m, right := sub));
  }

  /** Overwriting a node's key with its successor's and dropping the successor
      lists the node's keys without its own. */
  lemma SuccessorListing(h2: Tree, m: int, sub: Tree)
    requires h2.Node? && h2.right.Node?
    requires h2.key !in Inorder(h2.left) && h2.key !in Inorder(h2.right)
    requires m == Inorder(h2.right)[0] && Inorder(sub) == Inorder(h2.right)[1..]
    ensures Inorder(h2.(key := m, right := sub)) == Without(Inorder(h2), h2.key)
  {
    var a, b := Inorder(h2.left), Inorder(h2.right);
    assert Inorder(h2) == a + [h2.key] + b;
    WithoutSeparatorShift(a, h2.key, b);
    assert Inorder(h2.(key := m, right := sub)) == a + [m] + b[1..];
  }
}
