/**
 * TinyQueue: a binary min-heap kept in a growable buffer and ordered by a
 * comparator supplied at construction. `compare(a, b) < 0` means that `a`
 * leaves the queue before `b`.
 */
module PriorityQueue {
  import opened Wrappers

  /** The comparators the heap can work with: the sign flips when the
      arguments are swapped, and "does not come before" is transitive. */
  ghost predicate ValidComparator<T(!new)>(compare: (T, T) -> real) {
    (forall a, b :: compare(a, b) < 0.0 <==> compare(b, a) > 0.0) &&
    (forall a, b, c {:trigger compare(a, b), compare(b, c), compare(a, c)} ::
      compare(a, b) >= 0.0 && compare(b, c) >= 0.0 ==> compare(a, c) >= 0.0)
  }

  /** The default comparator of the constructor, on numbers. */
  function DefaultCompare(a: real, b: real): (r: real)
    ensures r < 0.0 <==> a < b
    ensures r > 0.0 <==> a > b
  {
    if a < b then -1.0 else if a > b then 1.0 else 0.0
  }

  lemma DefaultCompareIsValid()
    ensures ValidComparator(DefaultCompare)
  {
  }

  /** Index of the parent of slot `i` in the implicit binary tree. */
  function Parent(i: nat): nat
    requires 0 < i
  {
    (i - 1) / 2
  }

  /** Heap order on every parent/child pair whose parent index is at least
      `k`: no child compares less than its parent. */
  ghost predicate HeapFrom<T>(s: seq<T>, compare: (T, T) -> real, k: nat) {
    forall c {:trigger Parent(c)} :: 0 < c < |s| && k <= Parent(c) ==> compare(s[c], s[Parent(c)]) >= 0.0
  }

  ghost predicate IsHeap<T>(s: seq<T>, compare: (T, T) -> real) {
    HeapFrom(s, compare, 0)
  }

  /** In a heap the first slot compares at most equal to every slot. */
  lemma {:induction false} HeapFirstIsLeast<T(!new)>(s: seq<T>, compare: (T, T) -> real, i: nat)
    requires ValidComparator(compare) && IsHeap(s, compare)
    requires i < |s|
    ensures compare(s[0], s[i]) <= 0.0
  {
    if i > 0 {
      HeapFirstIsLeast(s, compare, Parent(i));
      assert compare(s[i], s[Parent(i)]) >= 0.0;
    }
  }

  lemma HeapFirstIsLeastOfAll<T(!new)>(s: seq<T>, compare: (T, T) -> real)
    requires ValidComparator(compare) && IsHeap(s, compare)
    requires |s| > 0
    ensures forall x :: x in s ==> compare(s[0], x) <= 0.0
  {
    forall x | x in s
      ensures compare(s[0], x) <= 0.0
    {
      var i :| 0 <= i < |s| && s[i] == x;
      HeapFirstIsLeast(s, compare, i);
    }
  }

  class TinyQueue<T(!new)> {
    var data: seq<T>
    var length: nat
    const compare: (T, T) -> real

    ghost predicate Valid()
      reads this
    {
      length == |data| && ValidComparator(compare) && IsHeap(data, compare)
    }

    /** Takes over `items` and heapifies them bottom-up. */
    constructor (items: seq<T>, compare: (T, T) -> real)
      requires ValidComparator(compare)
      ensures Valid() && this.compare == compare
      ensures length == |items| && multiset(data) == multiset(items)
    {
      data := items;
      length := |items|;
      this.compare := compare;
      new;
      if length > 0 {
        var i: int := length / 2 - 1;
        while i >= 0
          invariant -1 <= i < length
          invariant length == |data| && multiset(data) == multiset(items)
          invariant HeapFrom(data, compare, i + 1)
        {
          Down(i);
          i := i - 1;
        }
      }
    }

    method Push(item: T)
      requires Valid()
      modifies this
      ensures Valid()
      ensures length == old(length) + 1
      ensures multiset(data) == old(multiset(data)) + multiset{item}
    {
      data := data + [item];
      var pos := length;
      length := length + 1;
      Up(pos);
    }

    /** Removes and returns the least element; `None` (JavaScript's
        `undefined`) on an empty queue, which is then left as it was. */
    method Pop() returns (top: Option<T>)
      requires Valid()
      modifies this
      ensures Valid()
      ensures old(length) == 0 ==> top == None && data == old(data) && length == 0
      ensures old(length) > 0 ==>
        top == Some(old(data)[0]) && length == old(length) - 1 &&
        multiset(data) == old(multiset(data)) - multiset{old(data)[0]}
      ensures top.Some? ==> forall x :: x in old(data) ==> compare(top.value, x) <= 0.0
    {
      if length == 0 {
        return None;
      }
      HeapFirstIsLeastOfAll(data, compare);
      var first := data[0];
      var bottom := data[|data| - 1];
      ghost var before := data;
      data := data[..|data| - 1];
      assert before == data + [bottom];
      ghost var rest := multiset(data);
      assert multiset(before) == rest + multiset{bottom};
      length := length - 1;
      if length > 0 {
        assert data[0] == first;
        data := data[0 := bottom];
        assert multiset(data) == rest - multiset{first} + multiset{bottom};
        RemoveThenAdd(rest, first, bottom);
        Down(0);
      } else {
        AddThenRemove(rest, bottom);
      }
      return Some(first);
    }

    /** The first slot, which holds a least element, without removing it. */
    method Peek() returns (top: Option<T>)
      requires Valid()
      ensures length == 0 <==> top == None
      ensures length > 0 ==> top == Some(data[0])
      ensures top.Some? ==> top.value in data && forall x :: x in data ==> compare(top.value, x) <= 0.0
    {
      if length == 0 {
        return None;
      }
      HeapFirstIsLeastOfAll(data, compare);
      return Some(data[0]);
    }

    /** Sifts the element in the last slot up towards the root. */
    method Up(pos: nat)
      requires length == |data| && ValidComparator(compare)
      requires pos == |data| - 1
      requires forall c {:trigger Parent(c)} :: 0 < c < |data| && c != pos ==> compare(data[c], data[Parent(c)]) >= 0.0
      modifies this
      ensures length == old(length) && |data| == old(|data|)
      ensures IsHeap(data, compare)
      ensures multiset(data) == old(multiset(data))
    {
      var a := data;
      ghost var m := multiset(data);
      var item := a[pos];
      var p := pos;
      while p > 0
        invariant unchanged(this) && |a| == |data|
        invariant UpHole(a, item, p, compare)
        invariant multiset(a[p := item]) == m
      {
        var parent := Parent(p);
        var current := a[parent];
        if compare(item, current) >= 0.0 {
          break;
        }
        UpStep(a, item, p, compare);
        MoveKeepsMultiset(a, item, p, parent);
        a := a[p := current];
        p := parent;
      }
      UpDone(a, item, p, compare);
      data := a[p := item];
    }

    /** Sifts the element in slot `pos` down until both its children
        compare at least equal to it. */
    method Down(pos: nat)
      requires length == |data| && ValidComparator(compare)
      requires pos < |data|
      requires HeapFrom(data, compare, pos + 1)
      modifies this
      ensures length == old(length) && |data| == old(|data|)
      ensures HeapFrom(data, compare, pos)
      ensures multiset(data) == old(multiset(data))
    {
      var a := data;
      ghost var m := multiset(data);
      var halfLength := length / 2;
      var item := a[pos];
      var p := pos;
      while p < halfLength
        invariant unchanged(this) && |a| == length
        invariant halfLength == |a| / 2
        invariant DownHole(a, item, p, pos, compare)
        invariant multiset(a[p := item]) == m
      {
        var bestChild := 2 * p + 1;
        assert bestChild < |a|;
        var right := bestChild + 1;
        if right < length && compare(a[right], a[bestChild]) < 0.0 {
          bestChild := right;
        }
        BestChildIsLeast(a, p, bestChild, compare);
        if compare(a[bestChild], item) >= 0.0 {
          DownDone(a, item, p, pos, bestChild, compare);
          break;
        }
        DownStep(a, item, p, pos, bestChild, compare);
        MoveKeepsMultiset(a, item, p, bestChild);
        a := a[p := a[bestChild]];
        p := bestChild;
      }
      if p >= halfLength {
        DownAtLeaf(a, item, p, pos, compare);
      }
      data := a[p := item];
    }
  }

  /** Moving the element of slot `q` into the hole at `p` and opening the
      hole at `q` keeps the multiset the filled heap would have. */
  lemma MoveKeepsMultiset<T>(a: seq<T>, item: T, p: nat, q: nat)
    requires p < |a| && q < |a| && p != q
    ensures multiset(a[p := a[q]][q := item]) == multiset(a[p := item])
  {
    var b := a[p := a[q]];
    var rest := multiset(a) - multiset{a[p]};
    assert multiset(b) == rest + multiset{a[q]};
    assert b[q] == a[q];
    assert multiset(b[q := item]) == multiset(b) - multiset{a[q]} + multiset{item};
    AddThenRemove(rest, a[q]);
    assert multiset(a[p := item]) == rest + multiset{item};
  }

  lemma RemoveThenAdd<T>(m: multiset<T>, x: T, y: T)
    requires x in m
    ensures m - multiset{x} + multiset{y} == m + multiset{y} - multiset{x}
  {
  }

  lemma AddThenRemove<T>(m: multiset<T>, x: T)
    ensures m + multiset{x} - multiset{x} == m
  {
  }

  /** State of the sift-up loop: slot `p` is a hole that `item` will fill.
      Every pair whose child is not the hole is ordered, the hole's children
      compare at least equal to `item` and to the hole's parent. */
  ghost predicate UpHole<T(!new)>(a: seq<T>, item: T, p: nat, compare: (T, T) -> real) {
    p < |a| &&
    (forall c {:trigger Parent(c)} :: 0 < c < |a| && c != p ==> compare(a[c], a[Parent(c)]) >= 0.0) &&
    (forall c {:trigger Parent(c)} :: 0 < c < |a| && Parent(c) == p ==> compare(a[c], item) >= 0.0) &&
    (0 < p ==> forall c {:trigger Parent(c)} :: 0 < c < |a| && Parent(c) == p ==> compare(a[c], a[Parent(p)]) >= 0.0)
  }

  lemma UpStep<T(!new)>(a: seq<T>, item: T, p: nat, compare: (T, T) -> real)
    requires ValidComparator(compare) && UpHole(a, item, p, compare) && 0 < p
    requires compare(item, a[Parent(p)]) < 0.0
    ensures UpHole(a[p := a[Parent(p)]], item, Parent(p), compare)
  {
    var q := Parent(p);
    var b := a[p := a[q]];
    forall c | 0 < c < |b| && c != q
      ensures compare(b[c], b[Parent(c)]) >= 0.0
    {
      if c == p {
        assert b[c] == b[Parent(c)];
      } else if Parent(c) == p {
        assert b[Parent(c)] == a[q];
      }
    }
    forall c | 0 < c < |b| && Parent(c) == q
      ensures compare(b[c], item) >= 0.0
    {
      if c == p {
        assert b[c] == a[q];
      } else {
        assert compare(a[c], a[q]) >= 0.0;
      }
    }
    if 0 < q {
      forall c | 0 < c < |b| && Parent(c) == q
        ensures compare(b[c], b[Parent(q)]) >= 0.0
      {
        assert compare(a[q], a[Parent(q)]) >= 0.0;
        if c != p {
          assert compare(a[c], a[q]) >= 0.0;
        }
      }
    }
  }

  lemma UpDone<T(!new)>(a: seq<T>, item: T, p: nat, compare: (T, T) -> real)
    requires ValidComparator(compare) && UpHole(a, item, p, compare)
    requires p == 0 || compare(item, a[Parent(p)]) >= 0.0
    ensures IsHeap(a[p := item], compare)
  {
    var b := a[p := item];
    forall c | 0 < c < |b|
      ensures compare(b[c], b[Parent(c)]) >= 0.0
    {
      if c == p {
      } else if Parent(c) == p {
      } else {
        assert compare(a[c], a[Parent(c)]) >= 0.0;
      }
    }
  }

  /** State of the sift-down loop started at `pos`: slot `p` is a hole that
      `item` will fill. Every pair below `pos` whose parent is not the hole is
      ordered; the hole's children and `item` compare at least equal to the
      hole's parent. */
  ghost predicate DownHole<T(!new)>(a: seq<T>, item: T, p: nat, pos: nat, compare: (T, T) -> real) {
    pos <= p < |a| &&
    (forall c {:trigger Parent(c)} :: 0 < c < |a| && pos <= Parent(c) && Parent(c) != p ==> compare(a[c], a[Parent(c)]) >= 0.0) &&
    (pos < p ==> forall c {:trigger Parent(c)} :: 0 < c < |a| && Parent(c) == p ==> compare(a[c], a[Parent(p)]) >= 0.0) &&
    (pos < p ==> compare(item, a[Parent(p)]) >= 0.0)
  }

  /** `b` is a child of `p` and no child of `p` compares less than it. */
  ghost predicate LeastChild<T(!new)>(a: seq<T>, p: nat, b: nat, compare: (T, T) -> real) {
    0 < b < |a| && Parent(b) == p &&
    forall c {:trigger Parent(c)} :: 0 < c < |a| && Parent(c) == p ==> compare(a[c], a[b]) >= 0.0
  }

  /** The child the sift-down loop picks: the right one only when it compares
      strictly less than the left one. */
  lemma BestChildIsLeast<T(!new)>(a: seq<T>, p: nat, b: nat, compare: (T, T) -> real)
    requires ValidComparator(compare) && 2 * p + 1 < |a|
    requires b == if 2 * p + 2 < |a| && compare(a[2 * p + 2], a[2 * p + 1]) < 0.0 then 2 * p + 2 else 2 * p + 1
    ensures LeastChild(a, p, b, compare)
  {
    forall c {:trigger Parent(c)} | 0 < c < |a| && Parent(c) == p
      ensures compare(a[c], a[b]) >= 0.0
    {
      assert c == 2 * p + 1 || c == 2 * p + 2;
    }
  }

  lemma DownStep<T(!new)>(a: seq<T>, item: T, p: nat, pos: nat, b: nat, compare: (T, T) -> real)
    requires ValidComparator(compare) && DownHole(a, item, p, pos, compare)
    requires LeastChild(a, p, b, compare) && compare(a[b], item) < 0.0
    ensures DownHole(a[p := a[b]], item, b, pos, compare)
  {
    var a' := a[p := a[b]];
    forall c | 0 < c < |a'| && pos <= Parent(c) && Parent(c) != b
      ensures compare(a'[c], a'[Parent(c)]) >= 0.0
    {
      if c == p {
        assert a'[c] == a[b];
      } else if Parent(c) == p {
        assert a'[Parent(c)] == a[b];
      }
    }
    forall c | 0 < c < |a'| && Parent(c) == b
      ensures compare(a'[c], a'[Parent(b)]) >= 0.0
    {
      assert a'[Parent(b)] == a[b];
      assert compare(a[c], a[b]) >= 0.0;
    }
  }

  lemma DownDone<T(!new)>(a: seq<T>, item: T, p: nat, pos: nat, b: nat, compare: (T, T) -> real)
    requires ValidComparator(compare) && DownHole(a, item, p, pos, compare)
    requires LeastChild(a, p, b, compare) && compare(a[b], item) >= 0.0
    ensures HeapFrom(a[p := item], compare, pos)
  {
    var a' := a[p := item];
    forall c | 0 < c < |a'| && pos <= Parent(c)
      ensures compare(a'[c], a'[Parent(c)]) >= 0.0
    {
      if Parent(c) == p {
        assert compare(a[c], a[b]) >= 0.0;
      } else if c == p {
      } else {
        assert compare(a[c], a[Parent(c)]) >= 0.0;
      }
    }
  }

  lemma DownAtLeaf<T(!new)>(a: seq<T>, item: T, p: nat, pos: nat, compare: (T, T) -> real)
    requires ValidComparator(compare) && DownHole(a, item, p, pos, compare)
    requires p >= |a| / 2
    ensures HeapFrom(a[p := item], compare, pos)
  {
    var a' := a[p := item];
    forall c | 0 < c < |a'| && pos <= Parent(c)
      ensures compare(a'[c], a'[Parent(c)]) >= 0.0
    {
      if c != p {
        assert compare(a[c], a[Parent(c)]) >= 0.0;
      }
    }
  }
}
