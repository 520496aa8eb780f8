/**
 * The public side of `AVLTree` (src/ru/mail/polis/AVLTree.java): an ordered
 * set of `int` keys kept in a height-annotated search tree, with a running
 * element count `size` and the flag `contRemove` that the recursive deletion
 * sets when it meets the key.
 */
module AvlSet {
  import opened SortedSeqs
  import opened Outcomes
  import opened Avl

  /**
   * One step of the descent in `add`: the node that was left, with the
   * child that was not taken. A sequence of frames from the root down,
   * together with the current node, stands for the pointer `curr` and the
   * tree around it.
   */
  datatype Frame =
    | WentLeft(key: int, height: nat, right: Tree)
    | WentRight(left: Tree, key: int, height: nat)

  /** The tree obtained by hanging `t` below the frames `path`, root first. */
  function Plug(path: seq<Frame>, t: Tree): Tree
    decreases |path|
  {
    if path == [] then t
    else
      var rest := Plug(path[1..], t);
      match path[0]
      case WentLeft(k, h, r) => Node(rest, k, h, r)
      case WentRight(l, k, h) => Node(l, k, h, rest)
  }

  /** Every step of `path` went the way a search for `v` goes. */
  ghost predicate Toward(path: seq<Frame>, v: int) {
    forall i :: 0 <= i < |path| ==>
      match path[i]
      case WentLeft(k, _, _) => v < k
      case WentRight(_, k, _) => k < v
  }

  /** Descending one more step below `path`. */
  lemma {:induction false} PlugStep(path: seq<Frame>, f: Frame, t: Tree)
    ensures Plug(path + [f], t) == Plug(path, Plug([f], t))
    decreases |path|
  {
    if path != [] {
      assert (path + [f])[1..] == path[1..] + [f];
      PlugStep(path[1..], f, t);
    }
  }

  /** Inserting from the root is inserting where the search for `v` has got to. */
  lemma {:induction false} PlugInsert(path: seq<Frame>, t: Tree, v: int)
    requires Toward(path, v)
    ensures InsertLeaf(Plug(path, t), v) == Plug(path, InsertLeaf(t, v))
    decreases |path|
  {
    if path != [] {
      assert Toward(path[1..], v) by {
        forall i | 0 <= i < |path[1..]| ensures
          match path[1..][i]
          case WentLeft(k, _, _) => v < k
          case WentRight(_, k, _) => k < v
        {
          assert path[1..][i] == path[i + 1];
        }
      }
      PlugInsert(path[1..], t, v);
      assert match path[0]
        case WentLeft(k, _, _) => v < k
        case WentRight(_, k, _) => k < v;
    }
  }

  /** Different subtrees hung below the same frames give different trees. */
  lemma {:induction false} PlugInjective(path: seq<Frame>, a: Tree, b: Tree)
    ensures Plug(path, a) == Plug(path, b) ==> a == b
    decreases |path|
  {
    if path != [] {
      PlugInjective(path[1..], a, b);
    }
  }

  /** A search that went toward `v` one more step is still going toward `v`. */
  lemma TowardStep(path: seq<Frame>, f: Frame, v: int)
    requires Toward(path, v)
    requires match f
      case WentLeft(k, _, _) => v < k
      case WentRight(_, k, _) => k < v
    ensures Toward(path + [f], v)
  {
    forall i | 0 <= i < |path + [f]| ensures
      match (path + [f])[i]
      case WentLeft(k, _, _) => v < k
      case WentRight(_, k, _) => k < v
    {
      if i < |path| {
        assert (path + [f])[i] == path[i];
      }
    }
  }

  /** Public `deleteMin` takes one key out of a non-empty tree but leaves
      `size` alone, so a count that was right before is wrong after. */
  lemma DeleteMinMiscounts(t: Tree, size: int)
    requires t.Node? && size == |Inorder(t)|
    ensures size != |Inorder(DeleteMinFrom(t))|
  {
  }

  class AVLTree {
    var root: Tree
    var size: int
    var contRemove: bool

    /** The keys of the set, smallest first. */
    function Elements(): seq<int>
      reads this
    {
      Inorder(root)
    }

    /** The invariant every public operation keeps: search-tree order. Heights
        may be stale, since `add` never refreshes them. */
    ghost predicate Valid()
      reads this
    {
      Ordered(root)
    }

    /** `size` counts the keys; `add` and `remove` keep this, `deleteMin` does not. */
    ghost predicate SizeIsCount()
      reads this
    {
      size == |Inorder(root)|
    }

    /** `AVLTree()` (lines 40-43): the empty set. */
    constructor ()
      ensures Valid() && SizeIsCount()
      ensures Elements() == [] && size == 0 && !contRemove
    {
      root := Nil;
      size := 0;
      contRemove := false;
    }

    /** `first` (lines 50-59): walks left from the root. */
    method First() returns (r: Result<int>)
      requires Valid()
      ensures root.Nil? <==> r == Err(NoSuchElement)
      ensures r.Ok? ==> r.value in Elements() && forall x :: x in Elements() ==> r.value <= x
    {
      if root.Nil? {
        return Err(NoSuchElement);
      }
      var curr := root;
      while curr.left.Node?
        invariant curr.Node? && Inorder(curr)[0] == Inorder(root)[0]
        decreases curr
      {
        assert Inorder(curr) == Inorder(curr.left) + [curr.key] + Inorder(curr.right);
        curr := curr.left;
      }
      assert Inorder(curr) == [curr.key] + Inorder(curr.right);
      SmallestFirst(Elements());
      return Ok(curr.key);
    }

    /** `last` (lines 62-71): walks right from the root. */
    method Last() returns (r: Result<int>)
      requires Valid()
      ensures root.Nil? <==> r == Err(NoSuchElement)
      ensures r.Ok? ==> r.value in Elements() && forall x :: x in Elements() ==> x <= r.value
    {
      if root.Nil? {
        return Err(NoSuchElement);
      }
      var curr := root;
      while curr.right.Node?
        invariant curr.Node? && Inorder(curr)[|Inorder(curr)| - 1] == Inorder(root)[|Inorder(root)| - 1]
        decreases curr
      {
        assert Inorder(curr) == Inorder(curr.left) + [curr.key] + Inorder(curr.right);
        curr := curr.right;
      }
      assert Inorder(curr) == Inorder(curr.left) + [curr.key];
      LargestLast(Elements());
      return Ok(curr.key);
    }

    /** `inorderTraverse()` (lines 74-78): the keys in ascending order. */
    method InorderTraverse() returns (list: seq<int>)
      requires Valid()
      ensures list == Elements() && Ascending(list)
    {
      list := TraverseInto(root, []);
    }

    /** `size()` (lines 92-94). */
    method Size() returns (n: int)
      ensures n == size
      ensures SizeIsCount() ==> n == |Elements()|
    {
      return size;
    }

    /** `isEmpty()` (lines 98-100): no root. */
    method IsEmpty() returns (e: bool)
      ensures e <==> Elements() == []
    {
      return root.Nil?;
    }

    /** `contains` (lines 104-122): the search loop from the root. */
    method Contains(v: int) returns (found: bool)
      requires Valid()
      ensures found <==> v in Elements()
    {
      var curr := root;
      while curr.Node?
        invariant Ordered(curr)
        invariant v in Inorder(root) <==> v in Inorder(curr)
        decreases curr
      {
        OrderedNode(curr);
        if curr.key == v {
          return true;
        } else if curr.key < v {
          curr := curr.right;
        } else {
          curr := curr.left;
        }
      }
      return false;
    }

    /**
     * `add` (lines 184-217): searches from the root and hangs a new node of
     * height 0 at the first absent child; a key met on the way is not added.
     * No height is refreshed and nothing is rebalanced.
     */
    method Add(v: int) returns (added: bool)
      requires Valid()
      modifies this
      ensures Valid()
      ensures root == InsertLeaf(old(root), v)
      ensures added <==> v !in old(Elements())
      ensures Elements() == InsertSorted(old(Elements()), v)
      ensures added ==> size == old(size) + 1
      ensures !added ==> size == old(size) && root == old(root)
      ensures contRemove == old(contRemove)
      ensures old(SizeIsCount()) ==> SizeIsCount()
    {
      var start := root;
      if root.Nil? {
        root := Node(Nil, v, 0, Nil);
        added := true;
      } else {
        var path: seq<Frame> := [];
        var curr := root;
        while true
          invariant root == start && size == old(size) && contRemove == old(contRemove)
          invariant curr.Node? && Plug(path, curr) == start && Toward(path, v)
          decreases curr
        {
          PlugInsert(path, curr, v);
          if curr.key == v {
            assert InsertLeaf(curr, v) == curr;
            added := false;
            break;
          } else if curr.key < v {
            if curr.right.Node? {
              var f := WentRight(curr.left, curr.key, curr.height);
              PlugStep(path, f, curr.right);
              TowardStep(path, f, v);
              path, curr := path + [f], curr.right;
            } else {
              var grown := curr.(right := Node(Nil, v, 0, Nil));
              assert InsertLeaf(curr, v) == grown;
              PlugInjective(path, curr, grown);
              root := Plug(path, grown);
              added := true;
              break;
            }
          } else {
            if curr.left.Node? {
              var f := WentLeft(curr.key, curr.height, curr.right);
              PlugStep(path, f, curr.left);
              TowardStep(path, f, v);
              path, curr := path + [f], curr.left;
            } else {
              var grown := curr.(left := Node(Nil, v, 0, Nil));
              assert InsertLeaf(curr, v) == grown;
              PlugInjective(path, curr, grown);
              root := Plug(path, grown);
              added := true;
              break;
            }
          }
        }
      }
      assert root == InsertLeaf(start, v) && (added <==> root != start);
      InsertLeafInorder(start, v);
      InsertSortedSpec(Inorder(start), v);
      if added {
        size := size + 1;
      }
    }

    /**
     * `remove` (lines 222-231): deletes below the root and counts the key
     * out when the deletion met it. The nodes on the search path are
     * refreshed and rebalanced even when the key is absent.
     */
    method Remove(v: int) returns (removed: bool)
      requires Valid()
      modifies this
      ensures Valid()
      ensures root == DeleteFrom(old(root), v).0
      ensures removed <==> v in old(Elements())
      ensures Elements() == Without(old(Elements()), v)
      ensures removed ==> size == old(size) - 1
      ensures !removed ==> size == old(size)
      ensures contRemove == removed
      ensures old(SizeIsCount()) ==> SizeIsCount()
      ensures old(Balanced(root)) ==> Balanced(root)
    {
      DeleteFromInorder(root, v);
      WithoutSpec(Elements(), v);
      if Balanced(root) {
        DeleteKeepsBalance(root, v);
      }
      contRemove := false;
      var res := DeleteFrom(root, v);
      root := res.0;
      if res.1 {
        contRemove := true;
      }
      if contRemove {
        size := size - 1;
      }
      removed := contRemove;
    }

    /** Public `deleteMin` (lines 271-274) as written: `size` is not decremented. */
    method DeleteMin() returns (o: Outcome)
      requires Valid()
      modifies this
      ensures Valid()
      ensures old(root).Nil? <==> o == Fail(NoSuchElement)
      ensures o.Pass? ==> root == DeleteMinFrom(old(root)) && Elements() == old(Elements())[1..]
      ensures o.Fail? ==> root == old(root)
      ensures old(Balanced(root)) ==> Balanced(root)
      ensures size == old(size) && contRemove == old(contRemove)
    {
      if root.Nil? {
        return Fail(NoSuchElement);
      }
      AscendingTail(Elements());
      if Balanced(root) {
        DeleteMinKeepsBalance(root);
      }
      root := DeleteMinFrom(root);
      return Pass;
    }

    /** Public `deleteMin` with the count kept: one key fewer, `size` one lower. */
    method DeleteMinCounted() returns (o: Outcome)
      requires Valid()
      modifies this
      ensures Valid()
      ensures old(root).Nil? <==> o == Fail(NoSuchElement)
      ensures o.Pass? ==> Elements() == old(Elements())[1..] && size == old(size) - 1
      ensures o.Fail? ==> root == old(root) && size == old(size)
      ensures old(Balanced(root)) ==> Balanced(root)
      ensures contRemove == old(contRemove)
      ensures old(SizeIsCount()) ==> SizeIsCount()
    {
      if root.Nil? {
        return Fail(NoSuchElement);
      }
      AscendingTail(Elements());
      if Balanced(root) {
        DeleteMinKeepsBalance(root);
      }
      root := DeleteMinFrom(root);
      size := size - 1;
      return Pass;
    }
  }

  /** The recursive `inorderTraverse(Node, List)` (lines 81-88): appends the
      keys of `t` in order to `list`. */
  method TraverseInto(t: Tree, list: seq<int>) returns (out: seq<int>)
    ensures out == list + Inorder(t)
    decreases t
  {
    match t
    case Nil =>
      return list;
    case Node(l, k, _, r) =>
      var withLeft := TraverseInto(l, list);
      out := TraverseInto(r, withLeft + [k]);
  }
}
