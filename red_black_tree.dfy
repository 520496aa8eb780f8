/**
 * The public side of `RedBlackTree` (src/ru/mail/polis/RedBlackTree.java):
 * an ordered set of `int` keys kept in a left-leaning red-black tree, with a
 * running element count `size` and the flag `contAdd` that the recursive
 * insertion clears when it meets the key.
 */
module RedBlackSet {
  import opened SortedSeqs
  import opened Outcomes
  import opened RedBlack

  /**
   * Lines 257-267 after the emptiness test: the root is reddened when both
   * its children are black, the leftmost key is deleted, and a remaining
   * root is blackened again.
   */
  function DeleteMinAtRoot(t: Tree): (r: Tree)
    requires IsLLRB(t) && t.Node?
    ensures IsLLRB(r)
    ensures Inorder(r) == Inorder(t)[1..]
  {
    var h := if !IsRed(t.left) && !IsRed(t.right) then t.(color := Red) else t;
    var d := DeleteMinFrom(h);
    if d.Nil? then d else d.(color := Black)
  }

  /** Public `deleteMin` takes one key out of a non-empty tree but leaves
      `size` alone, so a count that was right before is wrong after. */
  lemma DeleteMinMiscounts(t: Tree, size: int)
    requires IsLLRB(t) && t.Node? && size == |Inorder(t)|
    ensures size != |Inorder(DeleteMinAtRoot(t))|
  {
  }

  class RedBlackTree {
    var root: Tree
    var size: int
    var contAdd: bool

    /** The keys of the set, smallest first. */
    function Elements(): seq<int>
      reads this
    {
      Inorder(root)
    }

    /** The tree invariant every public operation keeps. */
    ghost predicate Valid()
      reads this
    {
      IsLLRB(root)
    }

    /** `size` counts the keys; `add` and `remove` keep this, `deleteMin` does not. */
    ghost predicate SizeIsCount()
      reads this
    {
      size == |Inorder(root)|
    }

    /** `RedBlackTree()` (lines 35-37): the empty set. */
    constructor ()
      ensures Valid() && SizeIsCount()
      ensures Elements() == [] && size == 0 && !contAdd
    {
      root := Nil;
      size := 0;
      contAdd := false;
    }

    /** `first` (lines 45-54): walks left from the root. */
    method First() returns (r: Result<int>)
      requires Valid()
      ensures root.Nil? <==> r == Err(NoSuchElement)
      ensures r.Ok? ==> r.value in Elements() && forall x :: x in Elements() ==> r.value <= x
    {
      if root.Nil? {
        return Err(NoSuchElement);
      }
      var tmp := root;
      while tmp.left.Node?
        invariant tmp.Node? && Inorder(tmp)[0] == Inorder(root)[0]
        decreases tmp
      {
        assert Inorder(tmp) == Inorder(tmp.left) + [tmp.key] + Inorder(tmp.right);
        tmp := tmp.left;
      }
      assert Inorder(tmp) == [tmp.key] + Inorder(tmp.right);
      SmallestFirst(Elements());
      return Ok(tmp.key);
    }

    /** `last` (lines 57-66): walks right from the root. */
    method Last() returns (r: Result<int>)
      requires Valid()
      ensures root.Nil? <==> r == Err(NoSuchElement)
      ensures r.Ok? ==> r.value in Elements() && forall x :: x in Elements() ==> x <= r.value
    {
      if root.Nil? {
        return Err(NoSuchElement);
      }
      var tmp := root;
      while tmp.right.Node?
        invariant tmp.Node? && Inorder(tmp)[|Inorder(tmp)| - 1] == Inorder(root)[|Inorder(root)| - 1]
        decreases tmp
      {
        assert Inorder(tmp) == Inorder(tmp.left) + [tmp.key] + Inorder(tmp.right);
        tmp := tmp.right;
      }
      assert Inorder(tmp) == Inorder(tmp.left) + [tmp.key];
      LargestLast(Elements());
      return Ok(tmp.key);
    }

    /** `min()` (lines 299-302): the key of the leftmost node. */
    method Min() returns (r: Result<int>)
      requires Valid()
      ensures root.Nil? <==> r == Err(NoSuchElement)
      ensures r.Ok? ==> r.value in Elements() && forall x :: x in Elements() ==> r.value <= x
    {
      if root.Nil? {
        return Err(NoSuchElement);
      }
      SmallestFirst(Elements());
      return Ok(MinNode(root).key);
    }

    /** `inorderTraverse()` (lines 69-73): the keys in ascending order. */
    method InorderTraverse() returns (list: seq<int>)
      requires Valid()
      ensures list == Elements() && Ascending(list)
    {
      list := TraverseInto(root, []);
    }

    /** `size()` (lines 84-86). */
    method Size() returns (n: int)
      ensures n == size
      ensures SizeIsCount() ==> n == |Elements()|
    {
      return size;
    }

    /** `isEmpty()` (lines 89-91): no root. */
    method IsEmpty() returns (e: bool)
      ensures e <==> Elements() == []
    {
      return root.Nil?;
    }

    /** `contains` (lines 95-113): the search loop from the root. */
    method Contains(v: int) returns (found: bool)
      requires Valid()
      ensures found <==> v in Elements()
    {
      var tmp := root;
      while tmp.Node?
        invariant Ordered(tmp)
        invariant v in Inorder(root) <==> v in Inorder(tmp)
        decreases tmp
      {
        OrderedNode(tmp);
        if tmp.key == v {
          return true;
        } else if tmp.key < v {
          tmp := tmp.right;
        } else {
          tmp := tmp.left;
        }
      }
      return false;
    }

    /**
     * `add` (lines 145-154): inserts below the root, blackens the root and
     * counts the key when the insertion did not meet it.
     */
    method Add(v: int) returns (added: bool)
      requires Valid()
      modifies this
      ensures Valid()
      ensures added <==> v !in old(Elements())
      ensures Elements() == InsertSorted(old(Elements()), v)
      ensures added ==> size == old(size) + 1
      ensures !added ==> size == old(size) && root == old(root)
      ensures contAdd == added
      ensures old(SizeIsCount()) ==> SizeIsCount()
    {
      InsertSortedSpec(Elements(), v);
      contAdd := true;
      var res := AddTo(root, v);
      AddToInorder(root, v);
      AddToShape(root, v);
      AddToFound(root, v);
      if !res.1 {
        contAdd := false;
      }
      root := res.0.(color := Black);
      if contAdd {
        size := size + 1;
      }
      added := contAdd;
    }

    /**
     * `remove` (lines 215-228): an absent key changes nothing; otherwise the
     * root is reddened when both children are black, the key is deleted,
     * a remaining root is blackened and the count goes down.
     */
    method Remove(v: int) returns (removed: bool)
      requires Valid()
      modifies this
      ensures Valid()
      ensures removed <==> v in old(Elements())
      ensures Elements() == Without(old(Elements()), v)
      ensures removed ==> size == old(size) - 1
      ensures !removed ==> size == old(size) && root == old(root)
      ensures contAdd == old(contAdd)
      ensures old(SizeIsCount()) ==> SizeIsCount()
    {
      WithoutSpec(Elements(), v);
      var found := Contains(v);
      if !found {
        return false;
      }
      if !IsRed(root.left) && !IsRed(root.right) {
        root := root.(color := Red);
      }
      root := DeleteFrom(root, v);
      if root.Node? {
        root := root.(color := Black);
      }
      size := size - 1;
      return true;
    }

    /** Public `deleteMin` (lines 257-268) as written: `size` is not decremented. */
    method DeleteMin() returns (o: Outcome)
      requires Valid()
      modifies this
      ensures Valid()
      ensures old(root).Nil? <==> o == Fail(NoSuchElement)
      ensures o.Pass? ==> Elements() == old(Elements())[1..]
      ensures o.Fail? ==> root == old(root)
      ensures size == old(size) && contAdd == old(contAdd)
    {
      if root.Nil? {
        return Fail(NoSuchElement);
      }
      root := DeleteMinAtRoot(root);
      return Pass;
    }

    /** Public `deleteMin` with the count kept: one key fewer, `size` one lower. */
    method DeleteMinCounted() returns (o: Outcome)
      requires Valid()
      modifies this
      ensures Valid()
      ensures old(root).Nil? <==> o == Fail(NoSuchElement)
      ensures o.Pass? ==> Elements() == old(Elements())[1..] && size == old(size) - 1
      ensures o.Fail? ==> root == old(root) && size == old(size)
      ensures contAdd == old(contAdd)
      ensures old(SizeIsCount()) ==> SizeIsCount()
    {
      if root.Nil? {
        return Fail(NoSuchElement);
      }
      root := DeleteMinAtRoot(root);
      size := size - 1;
      return Pass;
    }
  }

  /** The recursive `inorderTraverse(Node, List)` (lines 74-81): appends the
      keys of `t` in order to `list`. */
  method TraverseInto(t: Tree, list: seq<int>) returns (out: seq<int>)
    ensures out == list + Inorder(t)
    decreases t
  {
    match t
    case Nil =>
      return list;
    case Node(_, l, k, r) =>
      var withLeft := TraverseInto(l, list);
      out := TraverseInto(r, withLeft + [k]);
  }
}
