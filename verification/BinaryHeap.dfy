/** c/heap.c: a growing array heap, ordered either way. */
module BinaryHeap {
  datatype HeapType = MIN_HEAP | MAX_HEAP

  /** `heap_cond`: a belongs above b. */
  predicate Above(t: HeapType, a: int, b: int) {
    if t == MIN_HEAP then a < b else a > b
  }

  /** `get_parent_idx`. */
  function Parent(i: nat): (p: nat)
    requires i > 0
    ensures p < i
  {
    (i - 1) / 2
  }

  /** No element belongs above its parent; `except` may, and so may the elements under `root`. */
  ghost predicate Ordered(t: HeapType, s: seq<int>, except: int, root: int) {
    forall i {:trigger s[i]} :: 0 < i < |s| && i != except && Parent(i) != root ==> !Above(t, s[i], s[Parent(i)])
  }

  ghost predicate IsHeap(t: HeapType, s: seq<int>) {
    Ordered(t, s, -1, -1)
  }

  /** The elements under i do not belong above i's parent. */
  ghost predicate Bridged(t: HeapType, s: seq<int>, i: nat) {
    forall k {:trigger s[k]} :: 0 < i && 0 < k < |s| && Parent(k) == i && i < |s| ==> !Above(t, s[k], s[Parent(i)])
  }

  function Swapped(s: seq<int>, i: nat, j: nat): seq<int>
    requires i < |s| && j < |s|
  {
    s[i := s[j]][j := s[i]]
  }

  lemma SwapKeepsElements(s: seq<int>, i: nat, j: nat)
    requires i < |s| && j < |s|
    ensures multiset(Swapped(s, i, j)) == multiset(s)
  {
  }

  /** Moving an element up past its parent repairs its place and leaves only the next one open. */
  lemma SwapUp(t: HeapType, s: seq<int>, i: nat)
    requires 0 < i < |s| && Ordered(t, s, i, -1) && Bridged(t, s, i) && Above(t, s[i], s[Parent(i)])
    ensures Ordered(t, Swapped(s, Parent(i), i), Parent(i), -1) && Bridged(t, Swapped(s, Parent(i), i), Parent(i))
  {
    var p := Parent(i);
    var r := Swapped(s, p, i);
    forall k | 0 < k < |r| && k != p ensures !Above(t, r[k], r[Parent(k)]) {
      assert !(k != i && Above(t, s[k], s[Parent(k)]));
    }
    if p > 0 {
      assert !Above(t, s[p], s[Parent(p)]);
    }
    forall k | 0 < p && 0 < k < |r| && Parent(k) == p ensures !Above(t, r[k], r[Parent(p)]) {
      assert k == i || !Above(t, s[k], s[p]);
    }
  }

  /** c is a child of i that no child of i belongs above. */
  ghost predicate IsUpperChild(t: HeapType, s: seq<int>, i: nat, c: nat) {
    && i < c < |s| && Parent(c) == i
    && forall k {:trigger s[k]} :: 0 < k < |s| && Parent(k) == i ==> !Above(t, s[k], s[c])
  }

  /** Moving an element down past its upper child repairs its place and leaves only the child's open. */
  lemma SwapDown(t: HeapType, s: seq<int>, i: nat, c: nat)
    requires IsUpperChild(t, s, i, c)
    requires Ordered(t, s, -1, i) && Bridged(t, s, i) && Above(t, s[c], s[i])
    ensures Ordered(t, Swapped(s, c, i), -1, c) && Bridged(t, Swapped(s, c, i), c)
  {
    var r := Swapped(s, c, i);
    forall k | 0 < k < |r| && Parent(k) != c ensures !Above(t, r[k], r[Parent(k)]) {
      assert s[k] == s[k];
      if k == i {
        assert Bridged(t, s, i);
        assert s[c] == r[i];
      }
    }
    forall k | 0 < c && 0 < k < |r| && Parent(k) == c ensures !Above(t, r[k], r[Parent(c)]) {
      assert !Above(t, s[k], s[c]);
    }
  }

  /** The child the sift compares with: no child belongs above it. */
  lemma UpperChild(t: HeapType, s: seq<int>, i: nat, c: nat)
    requires 2 * i + 1 < |s|
    requires c == if 2 * i + 2 < |s| && Above(t, s[2 * i + 2], s[2 * i + 1]) then 2 * i + 2 else 2 * i + 1
    ensures i < c < |s| && IsUpperChild(t, s, i, c)
  {
    forall k {:trigger s[k]} | 0 < k < |s| && Parent(k) == i ensures !Above(t, s[k], s[c]) {
      assert k == 2 * i + 1 || k == 2 * i + 2;
    }
  }

  /** Below an element that its upper child does not belong above, everything is in order. */
  lemma Settled(t: HeapType, s: seq<int>, i: nat, c: nat)
    requires IsUpperChild(t, s, i, c) && Ordered(t, s, -1, i) && !Above(t, s[c], s[i])
    ensures IsHeap(t, s)
  {
  }

  lemma InPlace(t: HeapType, s: seq<int>, i: nat)
    requires i < |s| && Ordered(t, s, i, -1) && (i == 0 || !Above(t, s[i], s[Parent(i)]))
    ensures IsHeap(t, s)
  {
  }

  lemma Leaf(t: HeapType, s: seq<int>, i: nat)
    requires 2 * i + 1 >= |s| && Ordered(t, s, -1, i)
    ensures IsHeap(t, s)
  {
  }

  /** The elements of `was`, in order but for the one at i, which may have to move up. */
  ghost predicate SiftingUp(t: HeapType, was: seq<int>, now: seq<int>, i: nat) {
    multiset(now) == multiset(was) && Ordered(t, now, i, -1) && Bridged(t, now, i)
  }

  lemma SiftUpStarts(t: HeapType, s: seq<int>)
    requires |s| > 0 && Ordered(t, s, |s| - 1, -1)
    ensures SiftingUp(t, s, s, |s| - 1)
  {
  }

  lemma SiftUpStep(t: HeapType, was: seq<int>, now: seq<int>, i: nat)
    requires 0 < i < |now| && SiftingUp(t, was, now, i) && Above(t, now[i], now[Parent(i)])
    ensures SiftingUp(t, was, Swapped(now, Parent(i), i), Parent(i))
  {
    SwapUp(t, now, i);
    SwapKeepsElements(now, Parent(i), i);
  }

  lemma SiftUpEnds(t: HeapType, was: seq<int>, now: seq<int>, i: nat)
    requires i < |now| && SiftingUp(t, was, now, i) && (i == 0 || !Above(t, now[i], now[Parent(i)]))
    ensures IsHeap(t, now) && multiset(now) == multiset(was)
  {
    InPlace(t, now, i);
  }

  /** The elements of `was`, in order but for the one at i, which may have to move down. */
  ghost predicate SiftingDown(t: HeapType, was: seq<int>, now: seq<int>, i: nat) {
    multiset(now) == multiset(was) && Ordered(t, now, -1, i) && Bridged(t, now, i)
  }

  lemma SiftDownStarts(t: HeapType, s: seq<int>)
    requires Ordered(t, s, -1, 0)
    ensures SiftingDown(t, s, s, 0)
  {
  }

  lemma SiftDownStep(t: HeapType, was: seq<int>, now: seq<int>, i: nat, c: nat)
    requires SiftingDown(t, was, now, i) && i < c < |now| && IsUpperChild(t, now, i, c) && Above(t, now[c], now[i])
    ensures SiftingDown(t, was, Swapped(now, c, i), c)
  {
    SwapDown(t, now, i, c);
    SwapKeepsElements(now, c, i);
  }

  lemma SiftDownSettles(t: HeapType, was: seq<int>, now: seq<int>, i: nat, c: nat)
    requires SiftingDown(t, was, now, i) && i < c < |now| && IsUpperChild(t, now, i, c) && !Above(t, now[c], now[i])
    ensures IsHeap(t, now) && multiset(now) == multiset(was)
  {
    Settled(t, now, i, c);
  }

  lemma SiftDownEnds(t: HeapType, was: seq<int>, now: seq<int>, i: nat)
    requires SiftingDown(t, was, now, i) && 2 * i + 1 >= |now|
    ensures IsHeap(t, now) && multiset(now) == multiset(was)
  {
    Leaf(t, now, i);
  }

  /** Heap order, said of values: no child in a min-heap is smaller than its parent, none in a max-heap larger. */
  lemma HeapOrderIs(t: HeapType, s: seq<int>)
    ensures IsHeap(t, s) <==>
      forall p, c :: 0 <= p < c < |s| && (c == 2 * p + 1 || c == 2 * p + 2) ==> if t == MIN_HEAP then s[p] <= s[c] else s[p] >= s[c]
  {
    forall i | 0 < i < |s|
      ensures i == 2 * Parent(i) + 1 || i == 2 * Parent(i) + 2
    {
    }
    if forall p, c :: 0 <= p < c < |s| && (c == 2 * p + 1 || c == 2 * p + 2) ==> if t == MIN_HEAP then s[p] <= s[c] else s[p] >= s[c] {
      forall i | 0 < i < |s| ensures !Above(t, s[i], s[Parent(i)]) {
        assert s[Parent(i)] == s[Parent(i)];
      }
    }
    if IsHeap(t, s) {
      forall p, c | 0 <= p < c < |s| && (c == 2 * p + 1 || c == 2 * p + 2)
        ensures if t == MIN_HEAP then s[p] <= s[c] else s[p] >= s[c]
      {
        assert Parent(c) == p && !Above(t, s[c], s[Parent(c)]);
      }
    }
  }

  /** The root of a heap is an extreme element. */
  lemma {:induction false} RootIsExtreme(t: HeapType, s: seq<int>, i: nat)
    requires IsHeap(t, s) && i < |s|
    ensures !Above(t, s[i], s[0])
    decreases i
  {
    if i > 0 {
      RootIsExtreme(t, s, Parent(i));
      assert !Above(t, s[i], s[Parent(i)]);
    }
  }

  /** The root is the smallest element of a min-heap and the largest of a max-heap. */
  lemma RootIsExtremeOfAll(t: HeapType, s: seq<int>)
    requires IsHeap(t, s) && s != []
    ensures forall x :: x in multiset(s) ==> if t == MIN_HEAP then s[0] <= x else x <= s[0]
    ensures forall x :: x in multiset(s) ==> !Above(t, x, s[0])
  {
    hide IsHeap;
    forall x | x in multiset(s) ensures !Above(t, x, s[0]) {
      var i :| 0 <= i < |s| && s[i] == x;
      RootIsExtreme(t, s, i);
    }
  }

  class Heap {
    var arr: array<int>
    var size: nat
    var capacity: nat
    const kind: HeapType

    ghost predicate Shaped()
      reads this
    {
      size <= capacity == arr.Length
    }

    ghost function Contents(): seq<int>
      reads this, arr
      requires Shaped()
    {
      arr[..size]
    }

    ghost predicate Valid()
      reads this, arr
    {
      Shaped() && IsHeap(kind, Contents())
    }

    /** `alloc_heap`. */
    constructor (capacity: nat, kind: HeapType)
      ensures Valid() && fresh(arr)
      ensures this.capacity == capacity && this.kind == kind && Contents() == []
    {
      this.capacity := capacity;
      this.kind := kind;
      arr := new int[capacity];
      size := 0;
    }

    /** `increase_heap`: doubles the capacity and keeps the contents. */
    method Increase()
      requires Shaped()
      modifies this`arr, this`capacity
      ensures Shaped() && fresh(arr) && capacity == 2 * old(capacity)
      ensures Contents() == old(Contents())
      ensures forall i :: old(capacity) <= i < capacity ==> arr[i] == 0
    {
      var bigger := new int[capacity * 2](_ => 0);
      forall i | 0 <= i < capacity {
        bigger[i] := arr[i];
      }
      capacity := capacity * 2;
      arr := bigger;
    }

    method Swap(i: nat, j: nat)
      requires Shaped() && i < size && j < size
      modifies arr
      ensures Contents() == Swapped(old(Contents()), i, j)
    {
      var temp := arr[i];
      arr[i] := arr[j];
      arr[j] := temp;
      assert Contents() == Swapped(old(Contents()), i, j);
    }

    method AdjustUp()
      requires Shaped() && size > 0 && Ordered(kind, Contents(), size - 1, -1)
      modifies arr
      ensures Valid() && multiset(Contents()) == multiset(old(Contents()))
    {
      hide SiftingUp, Ordered, Swapped, IsHeap, Above, Parent;
      ghost var was := Contents();
      var current := size - 1;
      SiftUpStarts(kind, was);
      while current != 0 && Above(kind, arr[current], arr[Parent(current)])
        invariant 0 <= current < size
        invariant SiftingUp(kind, was, Contents(), current)
      {
        SiftUpStep(kind, was, Contents(), current);
        Swap(Parent(current), current);
        current := Parent(current);
      }
      SiftUpEnds(kind, was, Contents(), current);
    }

    /** A capacity of 0 would stay 0 when doubled. */
    method Push(value: int)
      requires Valid() && capacity >= 1
      modifies this`arr, this`size, this`capacity, arr
      ensures Valid() && (arr == old(arr) || fresh(arr))
      ensures size == old(size) + 1
      ensures capacity == if old(size) == old(capacity) then 2 * old(capacity) else old(capacity)
      ensures multiset(Contents()) == multiset(old(Contents())) + multiset{value}
    {
      if size == capacity {
        Increase();
      }
      ghost var before := Contents();
      arr[size] := value;
      size := size + 1;
      assert Contents() == before + [value];
      AdjustUp();
    }

    method UpperChildOf(current: nat) returns (child: nat)
      requires Shaped() && current * 2 + 1 < size
      ensures current < child < size && IsUpperChild(kind, Contents(), current, child)
    {
      child := current * 2 + 1;
      if current * 2 + 2 < size && Above(kind, arr[current * 2 + 2], arr[child]) {
        child := current * 2 + 2;
      }
      UpperChild(kind, Contents(), current, child);
    }

    method AdjustDown()
      requires Shaped() && Ordered(kind, Contents(), -1, 0)
      modifies arr
      ensures Valid() && multiset(Contents()) == multiset(old(Contents()))
    {
      hide SiftingDown, Ordered, Swapped, IsHeap, IsUpperChild, Above, Parent;
      ghost var was := Contents();
      SiftDownStarts(kind, was);
      var current := 0;
      while current * 2 + 1 < size
        invariant 0 <= current
        invariant SiftingDown(kind, was, Contents(), current)
        decreases size - current
      {
        var child := UpperChildOf(current);
        if Above(kind, arr[child], arr[current]) {
          SiftDownStep(kind, was, Contents(), current, child);
          Swap(child, current);
          current := child;
        } else {
          SiftDownSettles(kind, was, Contents(), current, child);
          return;
        }
      }
      SiftDownEnds(kind, was, Contents(), current);
    }

    /** -1 when empty; else an extreme element, which is removed. */
    method Pop() returns (ret: int)
      requires Valid()
      modifies this`size, arr
      ensures Valid()
      ensures old(size) == 0 ==> ret == -1 && Contents() == old(Contents())
      ensures old(size) > 0 ==>
                && size == old(size) - 1
                && multiset(Contents()) + multiset{ret} == multiset(old(Contents()))
                && (forall x :: x in multiset(old(Contents())) ==> if kind == MIN_HEAP then ret <= x else x <= ret)
                && forall x :: x in multiset(old(Contents())) ==> !Above(kind, x, ret)
    {
      hide IsHeap, Ordered, Above;
      if size <= 0 {
        return -1;
      }
      ghost var before := Contents();
      ret := arr[0];
      RootIsExtremeOfAll(kind, before);
      arr[0] := arr[size - 1];
      size := size - 1;
      LastReplacesRoot(kind, before, Contents());
      AdjustDown();
    }
  }

  lemma LastReplacesRoot(t: HeapType, before: seq<int>, after: seq<int>)
    requires IsHeap(t, before) && |before| > 0 && |after| == |before| - 1
    requires |after| > 0 ==> after == before[0 := before[|before| - 1]][..|before| - 1]
    ensures Ordered(t, after, -1, 0)
    ensures multiset(after) + multiset{before[0]} == multiset(before)
  {
    forall i | 0 < i < |after| && Parent(i) != 0 ensures !Above(t, after[i], after[Parent(i)]) {
      assert !Above(t, before[i], before[Parent(i)]);
    }
    hide Ordered, IsHeap;
    ElementsWithoutRoot(before, after);
  }

  lemma ElementsWithoutRoot(before: seq<int>, after: seq<int>)
    requires |before| > 0 && |after| == |before| - 1
    requires |after| > 0 ==> after == before[0 := before[|before| - 1]][..|before| - 1]
    ensures multiset(after) + multiset{before[0]} == multiset(before)
  {
    var n := |before| - 1;
    if n == 0 {
      assert before == [before[0]] && after == [];
    } else {
      assert before == [before[0]] + before[1..n] + [before[n]];
      assert after == [before[n]] + before[1..n];
    }
  }

  ghost predicate Sorted(s: seq<int>) {
    forall i, j :: 0 <= i < j < |s| ==> s[i] <= s[j]
  }

  /** What draining has printed, and what is left of all the elements. */
  ghost predicate DrainedTo(printed: seq<int>, left: seq<int>, all: multiset<int>) {
    && Sorted(printed)
    && multiset(printed) + multiset(left) == all
    && forall i :: 0 <= i < |printed| ==> printed[i] >= 0 && forall k :: 0 <= k < |left| ==> printed[i] <= left[k]
  }

  /** What draining a heap prints: everything, sorted, if nothing is negative; nothing at all otherwise. */
  ghost predicate Drained(printed: seq<int>, all: multiset<int>) {
    && Sorted(printed)
    && (multiset(printed) == all <==> forall x :: x in all ==> x >= 0)
    && ((exists x :: x in all && x < 0) ==> printed == [])
  }

  lemma DrainStep(printed: seq<int>, left: seq<int>, all: multiset<int>, ret: int, rest: seq<int>)
    requires DrainedTo(printed, left, all) && ret >= 0
    requires multiset(rest) + multiset{ret} == multiset(left)
    requires forall x :: x in multiset(left) ==> !Above(MIN_HEAP, x, ret)
    ensures DrainedTo(printed + [ret], rest, all)
  {
    assert ret in multiset(left);
    forall k | 0 <= k < |rest| ensures rest[k] in multiset(left) && ret <= rest[k] {
      assert rest[k] in multiset(rest);
      assert !Above(MIN_HEAP, rest[k], ret);
    }
    assert forall x :: x in multiset(left) ==> x in left;
  }

  /** Stopping at a negative pop means either an empty heap or a negative minimum found at once. */
  lemma DrainEnds(printed: seq<int>, left: seq<int>, all: multiset<int>, ret: int)
    requires DrainedTo(printed, left, all) && ret < 0
    requires |left| > 0 ==> ret in multiset(left)
    ensures Drained(printed, all)
  {
    if |left| > 0 {
      var k :| 0 <= k < |left| && left[k] == ret;
      assert printed == [] && ret in all;
    } else {
      assert left == [];
      forall x | x in all ensures x >= 0 {
        assert x in multiset(printed);
        assert x in printed;
      }
    }
  }

  /** The loop of `main` that prints what it pops until a negative value comes. */
  method Drain(heap: Heap) returns (printed: seq<int>)
    requires heap.Valid() && heap.kind == MIN_HEAP
    modifies heap, heap.arr
    ensures heap.Valid()
    ensures Drained(printed, multiset(old(heap.Contents())))
  {
    hide DrainedTo, Drained, IsHeap, Sorted, Above;
    printed := [];
    ghost var all := multiset(heap.Contents());
    NothingDrained(heap.Contents());
    while true
      invariant heap.Valid() && heap.arr == old(heap.arr)
      invariant DrainedTo(printed, heap.Contents(), all)
      decreases heap.size
    {
      ghost var before := heap.Contents();
      var ret := heap.Pop();
      if ret < 0 {
        DrainEnds(printed, before, all, ret);
        return;
      }
      DrainStep(printed, before, all, ret, heap.Contents());
      printed := printed + [ret];
    }
  }

  lemma NothingDrained(left: seq<int>)
    ensures DrainedTo([], left, multiset(left))
  {
  }

  lemma OneMoreValue(values: seq<int>, i: nat)
    requires i < |values|
    ensures multiset(values[..i + 1]) == multiset(values[..i]) + multiset{values[i]}
  {
    assert values[..i + 1] == values[..i] + [values[i]];
  }

  /** `main`: pushes every value, then drains; prints them sorted exactly if none is negative. */
  method PushAllAndDrain(values: seq<int>) returns (printed: seq<int>)
    ensures Drained(printed, multiset(values))
  {
    hide Drained, IsHeap, Above;
    var heap := new Heap(32, MIN_HEAP);
    var i := 0;
    while i < |values|
      invariant 0 <= i <= |values|
      invariant heap.Valid() && fresh(heap) && fresh(heap.arr) && heap.kind == MIN_HEAP && heap.capacity >= 1
      invariant multiset(heap.Contents()) == multiset(values[..i])
    {
      OneMoreValue(values, i);
      heap.Push(values[i]);
      i := i + 1;
    }
    assert values[..|values|] == values;
    printed := Drain(heap);
  }
}
