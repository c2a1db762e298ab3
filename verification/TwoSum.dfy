/** two_sum.rs: the brute-force search for a pair with a given sum, and the one over a hash map. */
module TwoSum {
  import opened FixedWidth

  ghost predicate AreI32(nums: seq<int>) {
    forall k :: 0 <= k < |nums| ==> -TWO_31 <= nums[k] < TWO_31
  }

  /** `target - val` in 32 bits; a release build wraps around. */
  function Complement(target: int, val: int): int {
    (target - val + TWO_31) % TWO_32 - TWO_31
  }

  /** The complement is the 32-bit value that completes val to the target. */
  lemma ComplementIsInvolution(target: int, val: int)
    requires -TWO_31 <= target < TWO_31 && -TWO_31 <= val < TWO_31
    ensures -TWO_31 <= Complement(target, val) < TWO_31
    ensures (val + Complement(target, val) - target) % TWO_32 == 0
    ensures -TWO_31 <= target - val < TWO_31 ==> val + Complement(target, val) == target
    ensures Complement(target, Complement(target, val)) == val
  {
  }

  /** i and j are two places whose values add up to the target. */
  ghost predicate IsPair(nums: seq<int>, target: int, i: int, j: int) {
    0 <= i < |nums| && 0 <= j < |nums| && i != j && nums[j] == Complement(target, nums[i])
  }

  ghost predicate HasPartner(nums: seq<int>, target: int, i: int) {
    exists j :: IsPair(nums, target, i, j)
  }

  /** The first place that is part of a pair. */
  ghost predicate IsFirst(nums: seq<int>, target: int, i: int) {
    HasPartner(nums, target, i) && forall k :: 0 <= k < i ==> !HasPartner(nums, target, k)
  }

  ghost predicate FirstIndex(nums: seq<int>, v: int, k: int) {
    0 <= k < |nums| && nums[k] == v && forall j :: 0 <= j < k ==> nums[j] != v
  }

  /** Empty if no place has a partner; else the first that has one, and its first partner, which is to its right. */
  ghost predicate IsBruteForceAnswer(nums: seq<int>, target: int, ans: seq<int>) {
    && (ans == [] <==> forall i :: 0 <= i < |nums| ==> !HasPartner(nums, target, i))
    && (ans != [] ==>
          && |ans| == 2
          && IsFirst(nums, target, ans[0])
          && IsPair(nums, target, ans[0], ans[1])
          && ans[0] < ans[1]
          && forall j :: ans[0] < j < ans[1] ==> !IsPair(nums, target, ans[0], j))
  }

  /** Empty if no place has a partner; else the first that has one, and the first place of its complement. */
  ghost predicate IsHashMapAnswer(nums: seq<int>, target: int, ans: seq<int>) {
    && (ans == [] <==> forall i :: 0 <= i < |nums| ==> !HasPartner(nums, target, i))
    && (ans != [] ==>
          && |ans| == 2
          && IsFirst(nums, target, ans[0])
          && FirstIndex(nums, Complement(target, nums[ans[0]]), ans[1]))
  }

  /** `solution`: the first place with a partner to its right, and the first such partner. */
  method Solution(nums: seq<int>, target: int) returns (ans: seq<int>)
    requires AreI32(nums) && -TWO_31 <= target < TWO_31
    ensures IsBruteForceAnswer(nums, target, ans)
  {
    ans := [];
    var i := 0;
    while i < |nums|
      invariant 0 <= i <= |nums| && ans == []
      invariant forall k :: 0 <= k < i ==> !HasPartner(nums, target, k)
    {
      var newTarget := Complement(target, nums[i]);
      ans := ans + [i];
      var j := i + 1;
      while j < |nums|
        invariant i < j <= |nums| && ans == [i]
        invariant forall k :: i < k < j ==> !IsPair(nums, target, i, k)
      {
        if nums[j] == newTarget {
          ans := ans + [j];
          assert ans == [i, j] && IsPair(nums, target, i, j) && HasPartner(nums, target, i);
          return;
        }
        j := j + 1;
      }
      NoPartnerToTheLeft(nums, target, i);
      ans := ans[..|ans| - 1];
      i := i + 1;
    }
  }

  /** A partner to the left of i would have been part of a pair itself. */
  lemma NoPartnerToTheLeft(nums: seq<int>, target: int, i: int)
    requires AreI32(nums) && -TWO_31 <= target < TWO_31 && 0 <= i < |nums|
    requires forall k :: 0 <= k < i ==> !HasPartner(nums, target, k)
    ensures forall j :: 0 <= j < i ==> !IsPair(nums, target, i, j)
  {
    forall j | 0 <= j < i ensures !IsPair(nums, target, i, j) {
      ComplementIsInvolution(target, nums[i]);
      if nums[j] == Complement(target, nums[i]) {
        assert IsPair(nums, target, j, i) && HasPartner(nums, target, j);
      }
    }
  }

  /** The places among the first n that hold v, in order. */
  function Positions(nums: seq<int>, n: nat, v: int): seq<int>
    requires n <= |nums|
  {
    if n == 0 then [] else Positions(nums, n - 1, v) + (if nums[n - 1] == v then [n - 1] else [])
  }

  lemma {:induction false} PositionsMean(nums: seq<int>, n: nat, v: int)
    requires n <= |nums|
    ensures forall k :: 0 <= k < |Positions(nums, n, v)| ==> 0 <= Positions(nums, n, v)[k] < n && nums[Positions(nums, n, v)[k]] == v
    ensures forall j, k :: 0 <= j < k < |Positions(nums, n, v)| ==> Positions(nums, n, v)[j] < Positions(nums, n, v)[k]
    ensures forall k :: 0 <= k < n && nums[k] == v ==> k in Positions(nums, n, v)
    decreases n
  {
    if n > 0 {
      PositionsMean(nums, n - 1, v);
    }
  }

  ghost predicate IsIndex(indexMap: map<int, seq<int>>, nums: seq<int>, n: nat)
    requires n <= |nums|
  {
    forall v :: (v in indexMap <==> Positions(nums, n, v) != []) && (v in indexMap ==> indexMap[v] == Positions(nums, n, v))
  }

  method BuildIndex(nums: seq<int>) returns (indexMap: map<int, seq<int>>)
    ensures IsIndex(indexMap, nums, |nums|)
  {
    indexMap := map[];
    var i := 0;
    while i < |nums|
      invariant 0 <= i <= |nums| && IsIndex(indexMap, nums, i)
    {
      var val := nums[i];
      if val !in indexMap {
        indexMap := indexMap[val := [i]];
      } else {
        indexMap := indexMap[val := indexMap[val] + [i]];
      }
      i := i + 1;
    }
  }

  /** What the index says about a value: its first place, and whether there is a second. */
  lemma IndexMeans(indexMap: map<int, seq<int>>, nums: seq<int>, v: int)
    requires IsIndex(indexMap, nums, |nums|) && v in indexMap
    ensures |indexMap[v]| >= 1 && FirstIndex(nums, v, indexMap[v][0])
    ensures |indexMap[v]| >= 2 ==> indexMap[v][0] < indexMap[v][1] < |nums| && nums[indexMap[v][1]] == v
    ensures |indexMap[v]| < 2 ==> forall k :: 0 <= k < |nums| && nums[k] == v ==> k == indexMap[v][0]
  {
    PositionsMean(nums, |nums|, v);
  }

  /** `solution_optnums`: the first place with a partner anywhere, and the first place of the partner's value. */
  method SolutionOptnums(nums: seq<int>, target: int) returns (ans: seq<int>)
    requires AreI32(nums) && -TWO_31 <= target < TWO_31
    ensures IsHashMapAnswer(nums, target, ans)
  {
    var indexMap := BuildIndex(nums);
    hide IsIndex;
    ans := [];
    var i := 0;
    while i < |nums|
      invariant 0 <= i <= |nums| && ans == []
      invariant forall k :: 0 <= k < i ==> !HasPartner(nums, target, k)
    {
      var val := nums[i];
      var newTarget := Complement(target, val);
      IndexDecides(indexMap, nums, target, i);
      if newTarget in indexMap {
        IndexMeans(indexMap, nums, newTarget);
        if val == newTarget && |indexMap[newTarget]| < 2 {
          i := i + 1;
          continue;
        }
        ans := ans + [i];
        ans := ans + [indexMap[newTarget][0]];
        return;
      }
      ans := [];
      i := i + 1;
    }
  }

  lemma IndexDecides(indexMap: map<int, seq<int>>, nums: seq<int>, target: int, i: int)
    requires IsIndex(indexMap, nums, |nums|) && 0 <= i < |nums|
    ensures var c := Complement(target, nums[i]);
            HasPartner(nums, target, i) <==> c in indexMap && (nums[i] == c ==> |indexMap[c]| >= 2)
  {
    var c := Complement(target, nums[i]);
    PositionsMean(nums, |nums|, c);
    if c in indexMap {
      IndexMeans(indexMap, nums, c);
      var first := indexMap[c][0];
      if nums[i] != c {
        assert IsPair(nums, target, i, first);
      } else if |indexMap[c]| >= 2 {
        var second := indexMap[c][1];
        assert IsPair(nums, target, i, if first == i then second else first);
      }
    }
  }

  /** The first place that is part of a pair holds its own complement. */
  ghost predicate FirstIsOwnComplement(nums: seq<int>, target: int) {
    exists i :: 0 <= i < |nums| && IsFirst(nums, target, i) && nums[i] == Complement(target, nums[i])
  }

  /**
   * Both searches return the same answer unless the first place that is part of a
   * pair holds its own complement; the hash map then pairs that place with itself.
   * So they agree whenever no such value occurs twice.
   */
  lemma SearchesAgree(nums: seq<int>, target: int, slow: seq<int>, fast: seq<int>)
    requires AreI32(nums) && -TWO_31 <= target < TWO_31
    requires IsBruteForceAnswer(nums, target, slow) && IsHashMapAnswer(nums, target, fast)
    ensures slow == fast <==> !FirstIsOwnComplement(nums, target)
    ensures FirstIsOwnComplement(nums, target) ==> |slow| == 2 && fast == [slow[0], slow[0]]
    ensures (forall i, j :: 0 <= i < j < |nums| && nums[i] == nums[j] ==> nums[i] != Complement(target, nums[i])) ==>
              !FirstIsOwnComplement(nums, target)
  {
    hide Complement, IsPair;
    if slow != [] {
      SameFirst(nums, target, slow[0], fast[0]);
      FirstComplement(nums, target, slow[0], slow[1], fast[1]);
    }
    if FirstIsOwnComplement(nums, target) {
      var i :| 0 <= i < |nums| && IsFirst(nums, target, i) && nums[i] == Complement(target, nums[i]);
      SameFirst(nums, target, slow[0], i);
      OwnComplementTwice(nums, target, i);
    }
  }

  /** A place that holds its own complement and is part of a pair has an equal one. */
  lemma OwnComplementTwice(nums: seq<int>, target: int, i: int)
    requires HasPartner(nums, target, i) && 0 <= i < |nums| && nums[i] == Complement(target, nums[i])
    ensures exists a, b :: 0 <= a < b < |nums| && nums[a] == nums[b] && nums[a] == Complement(target, nums[a])
  {
    hide Complement;
    var j :| IsPair(nums, target, i, j);
    var a, b := if i < j then i else j, if i < j then j else i;
    assert 0 <= a < b < |nums| && nums[a] == nums[b] && nums[a] == Complement(target, nums[a]);
  }

  /** The smallest disagreement: [3, 3] with target 6. */
  lemma SelfPair()
    ensures FirstIsOwnComplement([3, 3], 6)
  {
    var nums := [3, 3];
    assert Complement(6, 3) == 3;
    assert IsPair(nums, 6, 0, 1);
    assert HasPartner(nums, 6, 0);
    assert IsFirst(nums, 6, 0);
  }

  lemma SameFirst(nums: seq<int>, target: int, i: int, j: int)
    requires IsFirst(nums, target, i) && IsFirst(nums, target, j)
    ensures i == j
  {
  }

  /** The first place of the complement lies to the right of the first hit, unless the hit is its own complement. */
  lemma FirstComplement(nums: seq<int>, target: int, i: int, j: int, k: int)
    requires AreI32(nums) && -TWO_31 <= target < TWO_31
    requires IsFirst(nums, target, i) && IsPair(nums, target, i, j) && i < j
    requires forall m :: i < m < j ==> !IsPair(nums, target, i, m)
    requires FirstIndex(nums, Complement(target, nums[i]), k)
    ensures if nums[i] == Complement(target, nums[i]) then k == i else k == j
  {
    NoPartnerToTheLeft(nums, target, i);
    assert k <= j;
    if k != i {
      assert IsPair(nums, target, i, k);
    }
  }
}
