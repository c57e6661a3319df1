/** The length of the longest strictly increasing subsequence, by patience sorting. */
module LongestIncreasing {
  /** `idx` picks a strictly increasing subsequence of `nums`. */
  ghost predicate Picks(nums: seq<int>, idx: seq<nat>) {
    && (forall k :: 0 <= k < |idx| ==> idx[k] < |nums|)
    && (forall k, l :: 0 <= k < l < |idx| ==> idx[k] < idx[l] && nums[idx[k]] < nums[idx[l]])
  }

  ghost function Last(nums: seq<int>, idx: seq<nat>): int
    requires idx != [] && Picks(nums, idx)
  {
    nums[idx[|idx| - 1]]
  }

  /** `idx` picks an increasing subsequence of that length ending in `value`. */
  ghost predicate EndsIn(nums: seq<int>, idx: seq<nat>, length: nat, value: int) {
    Picks(nums, idx) && |idx| == length > 0 && Last(nums, idx) == value
  }

  ghost predicate Ascending(tails: seq<int>) {
    forall k, l :: 0 <= k < l < |tails| ==> tails[k] < tails[l]
  }

  /** Each tail ends some increasing subsequence of its length: `ends[k]` picks one. */
  ghost predicate Attained(nums: seq<int>, tails: seq<int>, ends: seq<seq<nat>>) {
    && |ends| == |tails|
    && forall k :: 0 <= k < |tails| ==> EndsIn(nums, ends[k], k + 1, tails[k])
  }

  /** No increasing subsequence is longer than the tails, or ends below the tail of its length. */
  ghost predicate Least(nums: seq<int>, tails: seq<int>) {
    forall idx :: Picks(nums, idx) && idx != [] ==> Bounded(nums, tails, idx)
  }

  ghost predicate Tracks(nums: seq<int>, tails: seq<int>, ends: seq<seq<nat>>) {
    Ascending(tails) && Attained(nums, tails, ends) && Least(nums, tails)
  }

  /** The insertion point that keeps the list sorted, before any equal element. */
  method BisectLeft(a: seq<int>, x: int) returns (i: nat)
    requires forall k, l :: 0 <= k < l < |a| ==> a[k] <= a[l]
    ensures i <= |a|
    ensures forall k :: 0 <= k < i ==> a[k] < x
    ensures forall k :: i <= k < |a| ==> x <= a[k]
  {
    var lo, hi := 0, |a|;
    while lo < hi
      invariant 0 <= lo <= hi <= |a|
      invariant forall k :: 0 <= k < lo ==> a[k] < x
      invariant forall k :: hi <= k < |a| ==> x <= a[k]
    {
      var mid := (lo + hi) / 2;
      if a[mid] < x {
        lo := mid + 1;
      } else {
        hi := mid;
      }
    }
    i := lo;
  }

  /** Tails after reading `x`. */
  function Placed(tails: seq<int>, x: int, i: nat): seq<int>
    requires i <= |tails|
  {
    if i == |tails| then tails + [x] else tails[i := x]
  }

  /** The witnesses after reading element `n`: the one below, grown by `n`. */
  ghost function Grown(ends: seq<seq<nat>>, n: nat, i: nat): seq<seq<nat>>
    requires i <= |ends|
  {
    var grown := (if i == 0 then [] else ends[i - 1]) + [n];
    if i == |ends| then ends + [grown] else ends[i := grown]
  }

  /** The longest increasing subsequence has exactly this length: one reaches it, none exceeds it. */
  method LongestIncreasingSubsequence(nums: seq<int>) returns (length: nat)
    ensures exists idx :: Picks(nums, idx) && |idx| == length
    ensures forall idx :: Picks(nums, idx) ==> |idx| <= length
  {
    var tails: seq<int> := [];
    ghost var ends: seq<seq<nat>> := [];
    TracksNothing();
    assert nums[..0] == [];
    for n := 0 to |nums|
      invariant Tracks(nums[..n], tails, ends)
    {
      var x := nums[n];
      var i := BisectLeft(tails, x);
      TracksNext(nums, n, tails, ends, i);
      ends := Grown(ends, n, i);
      if i == |tails| {
        tails := tails + [x];
      } else {
        tails := tails[i := x];
      }
    }
    assert nums[..|nums|] == nums;
    LengthIsLongest(nums, tails, ends);
    return |tails|;
  }

  lemma TracksNext(nums: seq<int>, n: nat, tails: seq<int>, ends: seq<seq<nat>>, i: nat)
    requires n < |nums| && Tracks(nums[..n], tails, ends) && i <= |tails|
    requires forall k :: 0 <= k < i ==> tails[k] < nums[n]
    requires forall k :: i <= k < |tails| ==> nums[n] <= tails[k]
    ensures |ends| == |tails|
    ensures Tracks(nums[..n + 1], Placed(tails, nums[n], i), Grown(ends, n, i))
  {
    PrefixSnoc(nums, n);
    TracksStep(nums[..n], nums[..n + 1], tails, ends, nums[n], i);
  }

  lemma PrefixSnoc(nums: seq<int>, n: nat)
    requires n < |nums|
    ensures nums[..n + 1] == nums[..n] + [nums[n]]
  {
  }

  lemma LengthIsLongest(nums: seq<int>, tails: seq<int>, ends: seq<seq<nat>>)
    requires Tracks(nums, tails, ends)
    ensures exists idx :: Picks(nums, idx) && |idx| == |tails|
    ensures forall idx :: Picks(nums, idx) ==> |idx| <= |tails|
  {
    var idx: seq<nat> := if tails == [] then [] else ends[|tails| - 1];
    assert Picks(nums, idx) && |idx| == |tails|;
  }

  lemma TracksNothing()
    ensures Tracks([], [], [])
  {
    assert forall idx :: Picks([], idx) && idx != [] ==> idx[0] < 0;
  }

  lemma TracksStep(nums: seq<int>, longer: seq<int>, tails: seq<int>, ends: seq<seq<nat>>, x: int, i: nat)
    requires Tracks(nums, tails, ends) && i <= |tails|
    requires forall k :: 0 <= k < i ==> tails[k] < x
    requires forall k :: i <= k < |tails| ==> x <= tails[k]
    requires longer == nums + [x]
    ensures Tracks(longer, Placed(tails, x, i), Grown(ends, |nums|, i))
  {
    AscendingStep(tails, x, i);
    AllAttained(nums, tails, ends, x, i);
    LeastStep(nums, tails, x, i);
  }

  lemma AscendingStep(tails: seq<int>, x: int, i: nat)
    requires Ascending(tails) && i <= |tails|
    requires forall k :: 0 <= k < i ==> tails[k] < x
    requires forall k :: i <= k < |tails| ==> x <= tails[k]
    ensures Ascending(Placed(tails, x, i))
  {
  }

  lemma AllAttained(nums: seq<int>, tails: seq<int>, ends: seq<seq<nat>>, x: int, i: nat)
    requires Attained(nums, tails, ends) && i <= |tails|
    requires forall j :: 0 <= j < i ==> tails[j] < x
    ensures Attained(nums + [x], Placed(tails, x, i), Grown(ends, |nums|, i))
  {
    var placed, grown := Placed(tails, x, i), Grown(ends, |nums|, i);
    forall k | 0 <= k < |placed|
      ensures EndsIn(nums + [x], grown[k], k + 1, placed[k])
    {
      AttainedStep(nums, tails, ends, x, i, k);
    }
  }

  lemma PicksLonger(nums: seq<int>, x: int, idx: seq<nat>)
    requires Picks(nums, idx)
    ensures Picks(nums + [x], idx)
    ensures idx != [] ==> Last(nums + [x], idx) == Last(nums, idx)
  {
    assert forall k :: 0 <= k < |idx| ==> (nums + [x])[idx[k]] == nums[idx[k]];
  }

  lemma PicksGrow(nums: seq<int>, x: int, below: seq<nat>)
    requires Picks(nums, below)
    requires below != [] ==> Last(nums, below) < x
    ensures Picks(nums + [x], below + [|nums|])
    ensures Last(nums + [x], below + [|nums|]) == x
  {
    var longer, grown := nums + [x], below + [|nums|];
    forall k, l | 0 <= k < l < |grown| ensures grown[k] < grown[l] && longer[grown[k]] < longer[grown[l]] {
      assert k < |below| && longer[grown[k]] == nums[below[k]];
      if l == |below| && k < |below| - 1 {
        assert nums[below[k]] < nums[below[|below| - 1]];
      }
    }
  }

  /** The subsequence ending in the tail below `x`, grown by `x`, ends in the replaced tail. */
  lemma AttainedStep(nums: seq<int>, tails: seq<int>, ends: seq<seq<nat>>, x: int, i: nat, k: nat)
    requires Attained(nums, tails, ends) && i <= |tails|
    requires forall j :: 0 <= j < i ==> tails[j] < x
    requires k < |tails| || i == k == |tails|
    ensures EndsIn(nums + [x], Grown(ends, |nums|, i)[k], k + 1, Placed(tails, x, i)[k])
  {
    if k == i {
      var below: seq<nat> := if i == 0 then [] else ends[i - 1];
      if i > 0 {
        assert EndsIn(nums, ends[i - 1], i, tails[i - 1]);
      }
      PicksGrow(nums, x, below);
    } else {
      assert EndsIn(nums, ends[k], k + 1, tails[k]);
      PicksLonger(nums, x, ends[k]);
    }
  }

  /** No new subsequence beats the new tails: dropping its last pick leaves one the old tails bound. */
  lemma LeastStep(nums: seq<int>, tails: seq<int>, x: int, i: nat)
    requires Ascending(tails) && Least(nums, tails) && i <= |tails|
    requires forall k :: 0 <= k < i ==> tails[k] < x
    requires forall k :: i <= k < |tails| ==> x <= tails[k]
    ensures Least(nums + [x], Placed(tails, x, i))
  {
    forall idx | Picks(nums + [x], idx) && idx != []
      ensures Bounded(nums + [x], Placed(tails, x, i), idx)
    {
      if idx[|idx| - 1] == |nums| {
        LastIsNew(nums, tails, x, i, idx);
      } else {
        LastIsOld(nums, tails, x, i, idx);
      }
    }
  }

  ghost predicate Bounded(nums: seq<int>, tails: seq<int>, idx: seq<nat>)
    requires Picks(nums, idx) && idx != []
  {
    |idx| <= |tails| && tails[|idx| - 1] <= Last(nums, idx)
  }

  lemma DropLast(nums: seq<int>, x: int, idx: seq<nat>)
    requires Picks(nums + [x], idx) && idx != []
    ensures Picks(nums, idx[..|idx| - 1])
    ensures |idx| > 1 ==> Last(nums, idx[..|idx| - 1]) < Last(nums + [x], idx)
  {
    var longer, init, last := nums + [x], idx[..|idx| - 1], idx[|idx| - 1];
    assert forall k :: 0 <= k < |init| ==> init[k] < last < |longer|;
    assert forall k :: 0 <= k < |init| ==> longer[init[k]] == nums[init[k]];
  }

  /** What is left without the new element is bounded by the tail before the replaced one. */
  lemma LastIsNew(nums: seq<int>, tails: seq<int>, x: int, i: nat, idx: seq<nat>)
    requires Least(nums, tails) && i <= |tails|
    requires forall k :: 0 <= k < i ==> tails[k] < x
    requires forall k :: i <= k < |tails| ==> x <= tails[k]
    requires Picks(nums + [x], idx) && idx != [] && idx[|idx| - 1] == |nums|
    ensures Bounded(nums + [x], Placed(tails, x, i), idx)
  {
    var init := idx[..|idx| - 1];
    DropLast(nums, x, idx);
    if init != [] {
      assert |init| <= |tails| && tails[|init| - 1] <= Last(nums, init) < x;
    }
  }

  lemma LastIsOld(nums: seq<int>, tails: seq<int>, x: int, i: nat, idx: seq<nat>)
    requires Least(nums, tails) && i <= |tails|
    requires forall k :: i <= k < |tails| ==> x <= tails[k]
    requires Picks(nums + [x], idx) && idx != [] && idx[|idx| - 1] != |nums|
    ensures Bounded(nums + [x], Placed(tails, x, i), idx)
  {
    var last := idx[|idx| - 1];
    assert forall k :: 0 <= k < |idx| ==> idx[k] <= last < |nums| && (nums + [x])[idx[k]] == nums[idx[k]];
    assert Picks(nums, idx) && Last(nums, idx) == Last(nums + [x], idx);
  }
}
