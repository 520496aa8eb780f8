/**
 * Strictly ascending integer sequences: the abstract value of both ordered
 * sets. An in-order traversal of a search tree is such a sequence, and the
 * effect of an insertion or a removal on it is stated with `InsertSorted`
 * and `Without`.
 */
module SortedSeqs {

  /** Strictly ascending: no duplicates, smallest first. */
  ghost predicate Ascending(s: seq<int>) {
    forall i, j :: 0 <= i < j < |s| ==> s[i] < s[j]
  }

  /** Every element of `s` is smaller than `k`. */
  ghost predicate AllBelow(s: seq<int>, k: int) {
    forall x :: x in s ==> x < k
  }

  /** Every element of `s` is greater than `k`. */
  ghost predicate AllAbove(s: seq<int>, k: int) {
    forall x :: x in s ==> k < x
  }

  /** The parts of an ascending `a + [k] + b` are ascending, and `k` separates them. */
  lemma AscendingSplit(a: seq<int>, k: int, b: seq<int>)
    requires Ascending(a + [k] + b)
    ensures Ascending(a) && Ascending(b) && AllBelow(a, k) && AllAbove(b, k)
  {
    var s := a + [k] + b;
    assert s[|a|] == k;
    forall i, j | 0 <= i < j < |a| ensures a[i] < a[j] {
      assert s[i] == a[i] && s[j] == a[j];
    }
    forall i, j | 0 <= i < j < |b| ensures b[i] < b[j] {
      assert s[|a| + 1 + i] == b[i] && s[|a| + 1 + j] == b[j];
    }
    forall x | x in a ensures x < k {
      var i :| 0 <= i < |a| && a[i] == x;
      assert s[i] == a[i];
    }
    forall x | x in b ensures k < x {
      var i :| 0 <= i < |b| && b[i] == x;
      assert s[|a| + 1 + i] == b[i];
    }
  }

  /** Ascending parts separated by `k` make an ascending `a + [k] + b`. */
  lemma AscendingMerge(a: seq<int>, k: int, b: seq<int>)
    requires Ascending(a) && Ascending(b) && AllBelow(a, k) && AllAbove(b, k)
    ensures Ascending(a + [k] + b)
  {
    var s := a + [k] + b;
    forall i, j | 0 <= i < j < |s| ensures s[i] < s[j] {
      if j < |a| {
        assert s[i] == a[i] && s[j] == a[j];
      } else if j == |a| {
        assert s[i] == a[i] && a[i] in a && s[j] == k;
      } else if i < |a| {
        assert s[i] == a[i] && a[i] in a;
        assert s[j] == b[j - |a| - 1] && b[j - |a| - 1] in b;
      } else if i == |a| {
        assert s[i] == k;
        assert s[j] == b[j - |a| - 1] && b[j - |a| - 1] in b;
      } else {
        assert s[i] == b[i - |a| - 1] && s[j] == b[j - |a| - 1];
      }
    }
  }

  /** A sequence `a + [k] + b` (the in-order listing of a node) is ascending
      exactly when both sides are, and `k` separates them. */
  lemma AscendingJoin(a: seq<int>, k: int, b: seq<int>)
    ensures Ascending(a + [k] + b) <==>
              Ascending(a) && Ascending(b) && AllBelow(a, k) && AllAbove(b, k)
  {
    if Ascending(a + [k] + b) {
      AscendingSplit(a, k, b);
    }
    if Ascending(a) && Ascending(b) && AllBelow(a, k) && AllAbove(b, k) {
      AscendingMerge(a, k, b);
    }
  }

  /** Prepending `x` keeps a sequence ascending exactly when `x` is below all of it. */
  lemma AscendingCons(x: int, s: seq<int>)
    ensures Ascending([x] + s) <==> Ascending(s) && AllAbove(s, x)
  {
    AscendingJoin([], x, s);
    assert [] + [x] + s == [x] + s;
  }

  /** The first element of an ascending sequence is its least. */
  lemma SmallestFirst(s: seq<int>)
    requires Ascending(s) && s != []
    ensures forall x :: x in s ==> s[0] <= x
  {
    forall x | x in s ensures s[0] <= x {
      var i :| 0 <= i < |s| && s[i] == x;
      assert i == 0 || s[0] < s[i];
    }
  }

  /** Dropping the first element keeps a sequence ascending. */
  lemma AscendingTail(s: seq<int>)
    requires Ascending(s) && s != []
    ensures Ascending(s[1..])
  {
    assert s == [s[0]] + s[1..];
    AscendingCons(s[0], s[1..]);
  }

  /** The last element of an ascending sequence is its greatest. */
  lemma LargestLast(s: seq<int>)
    requires Ascending(s) && s != []
    ensures forall x :: x in s ==> x <= s[|s| - 1]
  {
    forall x | x in s ensures x <= s[|s| - 1] {
      var i :| 0 <= i < |s| && s[i] == x;
      assert i == |s| - 1 || s[i] < s[|s| - 1];
    }
  }

  /**
   * Insertion of `v` into an ascending sequence at its place; the sequence is
   * returned unchanged when `v` is already there. `InsertSortedSpec` states
   * what it does.
   */
  function InsertSorted(s: seq<int>, v: int): seq<int> {
    if s == [] then [v]
    else if v < s[0] then [v] + s
    else if v == s[0] then s
    else [s[0]] + InsertSorted(s[1..], v)
  }

  /** `InsertSorted` adds exactly `v`, keeps the order, and changes nothing
      when `v` is already there. */
  lemma {:induction false} InsertSortedSpec(s: seq<int>, v: int)
    ensures forall x :: x in InsertSorted(s, v) <==> x in s || x == v
    ensures Ascending(s) ==> Ascending(InsertSorted(s, v))
    ensures Ascending(s) && v in s ==> InsertSorted(s, v) == s
    ensures v !in s ==> |InsertSorted(s, v)| == |s| + 1
  {
    if s == [] {
    } else if v < s[0] {
      AscendingCons(v, s);
      if Ascending(s) {
        SmallestFirst(s);
      }
    } else if v == s[0] {
    } else {
      var rest := InsertSorted(s[1..], v);
      InsertSortedSpec(s[1..], v);
      assert s == [s[0]] + s[1..];
      AscendingCons(s[0], s[1..]);
      AscendingCons(s[0], rest);
    }
  }

  /** `s` with every occurrence of `v` taken out (at most one in an ascending
      sequence). `WithoutSpec` states what it does. */
  function Without(s: seq<int>, v: int): seq<int> {
    if s == [] then []
    else if s[0] == v then Without(s[1..], v)
    else [s[0]] + Without(s[1..], v)
  }

  /** `Without` of an absent key changes nothing. */
  lemma {:induction false} WithoutAbsent(s: seq<int>, v: int)
    requires v !in s
    ensures Without(s, v) == s
  {
    if s != [] {
      assert s[0] in s;
      assert s == [s[0]] + s[1..];
      WithoutAbsent(s[1..], v);
    }
  }

  /** `Without` removes exactly `v`, keeps the order, changes nothing when `v`
      is absent, and removes one element when it is present in an ascending
      sequence. */
  lemma {:induction false} WithoutSpec(s: seq<int>, v: int)
    ensures forall x :: x in Without(s, v) <==> x in s && x != v
    ensures Ascending(s) ==> Ascending(Without(s, v))
    ensures v !in s ==> Without(s, v) == s
    ensures Ascending(s) && v in s ==> |Without(s, v)| == |s| - 1
  {
    if s != [] {
      var rest := Without(s[1..], v);
      WithoutSpec(s[1..], v);
      assert s == [s[0]] + s[1..];
      AscendingCons(s[0], s[1..]);
      AscendingCons(s[0], rest);
      if v !in s {
        WithoutAbsent(s, v);
      }
      assert Ascending(s) && v == s[0] ==> v !in s[1..];
    }
  }

  /** `Without` distributes over concatenation. */
  lemma {:induction false} WithoutConcat(s: seq<int>, t: seq<int>, v: int)
    ensures Without(s + t, v) == Without(s, v) + Without(t, v)
  {
    if s == [] {
      assert s + t == t;
    } else {
      assert (s + t)[0] == s[0];
      assert (s + t)[1..] == s[1..] + t;
      WithoutConcat(s[1..], t, v);
    }
  }

  /** `Without` of a single other key keeps it. */
  lemma WithoutOther(k: int, v: int)
    requires k != v
    ensures Without([k], v) == [k]
  {
    assert [k][1..] == [];
  }

  /** Removing a key that lies on the left of the separator. */
  lemma WithoutLeft(a: seq<int>, k: int, b: seq<int>, v: int)
    requires v != k && v !in b
    ensures Without(a + [k] + b, v) == Without(a, v) + [k] + b
  {
    WithoutConcat(a, [k] + b, v);
    WithoutConcat([k], b, v);
    WithoutOther(k, v);
    WithoutAbsent(b, v);
    assert a + [k] + b == a + ([k] + b);
    assert Without(a, v) + ([k] + b) == Without(a, v) + [k] + b;
  }

  /** Removing a key that lies on the right of the separator. */
  lemma WithoutRight(a: seq<int>, k: int, b: seq<int>, v: int)
    requires v != k && v !in a
    ensures Without(a + [k] + b, v) == a + [k] + Without(b, v)
  {
    WithoutConcat(a, [k] + b, v);
    WithoutConcat([k], b, v);
    WithoutOther(k, v);
    WithoutAbsent(a, v);
    assert a + [k] + b == a + ([k] + b);
    assert a + ([k] + Without(b, v)) == a + [k] + Without(b, v);
  }

  /** The separator of an ascending `a + [k] + b` occurs on neither side. */
  lemma SeparatorUnique(a: seq<int>, k: int, b: seq<int>)
    requires Ascending(a + [k] + b)
    ensures k !in a && k !in b
  {
    AscendingSplit(a, k, b);
  }

  /** Removing a separator that occurs on neither side leaves `a + b`. */
  lemma WithoutSeparator(a: seq<int>, k: int, b: seq<int>)
    requires k !in a && k !in b
    ensures Without(a + [k] + b, k) == a + b
  {
    WithoutConcat(a, [k] + b, k);
    WithoutConcat([k], b, k);
    assert Without([k], k) == [] by {
      assert [k][1..] == [];
    }
    WithoutAbsent(a, k);
    WithoutAbsent(b, k);
    assert a + [k] + b == a + ([k] + b);
  }

  /** Removing the separator and moving up the first key on its right. */
  lemma WithoutSeparatorShift(a: seq<int>, k: int, b: seq<int>)
    requires k !in a && k !in b && b != []
    ensures Without(a + [k] + b, k) == a + [b[0]] + b[1..]
  {
    WithoutSeparator(a, k, b);
    FirstSplit(a, b);
  }

  /** Splitting off the first element of the right part of a concatenation. */
  lemma FirstSplit(a: seq<int>, b: seq<int>)
    requires b != []
    ensures a + [b[0]] + b[1..] == a + b
  {
    assert b == [b[0]] + b[1..];
    assert a + [b[0]] + b[1..] == a + ([b[0]] + b[1..]);
  }

  /** `InsertSorted` of a key below the separator `k` goes into the left part. */
  lemma {:induction false} InsertJoinLeft(a: seq<int>, k: int, b: seq<int>, v: int)
    requires v < k
    ensures InsertSorted(a + [k] + b, v) == InsertSorted(a, v) + [k] + b
  {
    if a == [] {
      assert a + [k] + b == [k] + b;
    } else {
      assert (a + [k] + b)[0] == a[0];
      assert (a + [k] + b)[1..] == a[1..] + [k] + b;
      if v < a[0] || v == a[0] {
      } else {
        InsertJoinLeft(a[1..], k, b, v);
      }
    }
  }

  /** `InsertSorted` of a key above the separator `k` goes into the right part. */
  lemma {:induction false} InsertJoinRight(a: seq<int>, k: int, b: seq<int>, v: int)
    requires k < v && AllBelow(a, v)
    ensures InsertSorted(a + [k] + b, v) == a + [k] + InsertSorted(b, v)
  {
    if a == [] {
      assert a + [k] + b == [k] + b;
      assert ([k] + b)[1..] == b;
    } else {
      assert a[0] in a;
      assert (a + [k] + b)[0] == a[0];
      assert (a + [k] + b)[1..] == a[1..] + [k] + b;
      var s := a + [k] + b;
      assert a[0] < v;
      assert InsertSorted(s, v) == [a[0]] + InsertSorted(s[1..], v);
      assert AllBelow(a[1..], v) by {
        forall x | x in a[1..] ensures x < v { assert x in a; }
      }
      InsertJoinRight(a[1..], k, b, v);
      assert a == [a[0]] + a[1..];
    }
  }

  /** `InsertSorted` of the separator itself changes nothing. */
  lemma {:induction false} InsertJoinHere(a: seq<int>, k: int, b: seq<int>)
    requires AllBelow(a, k)
    ensures InsertSorted(a + [k] + b, k) == a + [k] + b
  {
    if a == [] {
      assert a + [k] + b == [k] + b;
    } else {
      assert a[0] in a;
      assert (a + [k] + b)[0] == a[0];
      assert (a + [k] + b)[1..] == a[1..] + [k] + b;
      assert AllBelow(a[1..], k) by {
        forall x | x in a[1..] ensures x < k { assert x in a; }
      }
      InsertJoinHere(a[1..], k, b);
    }
  }
}

/** What the ordered sets report to their callers instead of a result. */
module Outcomes {
  /** `NoSuchElementException`: first, last, min or deleteMin on an empty set. */
  datatype Error = NoSuchElement

  datatype Result<T> = Ok(value: T) | Err(error: Error)

  /** The outcome of an operation that returns nothing or throws. */
  datatype Outcome = Pass | Fail(error: Error)
}
