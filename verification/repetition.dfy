/**
 * Repetition highlight: among the computed numbers, the values that occur
 * more than once, each listed once, in the order in which a counter meets
 * them (first occurrence).
 */
module Repetition {

  /** Number of occurrences of `x` in `s`. */
  function Count(s: seq<int>, x: int): (c: nat)
    ensures c <= |s|
    ensures c > 0 <==> x in s
  {
    if s == [] then 0 else (if s[0] == x then 1 else 0) + Count(s[1..], x)
  }

  predicate NoDuplicates(s: seq<int>) {
    forall i, j :: 0 <= i < j < |s| ==> s[i] != s[j]
  }

  /** Position of the first occurrence of `x` in `s`. */
  function IndexOf(s: seq<int>, x: int): (k: nat)
    requires x in s
    ensures k < |s| && s[k] == x && x !in s[..k]
  {
    if s[0] == x then 0 else 1 + IndexOf(s[1..], x)
  }

  /** `d` lists values of `s` in the order of their first occurrence in `s`. */
  predicate InFirstOccurrenceOrder(d: seq<int>, s: seq<int>) {
    (forall x :: x in d ==> x in s) &&
    forall i, j :: 0 <= i < j < |d| ==> IndexOf(s, d[i]) < IndexOf(s, d[j])
  }

  /** Appending a value leaves the first occurrence of earlier values where it was. */
  lemma IndexOfAppend(p: seq<int>, y: int, x: int)
    requires x in p
    ensures IndexOf(p + [y], x) == IndexOf(p, x)
  {
    var k := IndexOf(p, x);
    assert (p + [y])[k] == x && (p + [y])[..k] == p[..k];
    IndexOfUnique(p + [y], x, k);
  }

  /** The first occurrence is the only index with no earlier occurrence. */
  lemma {:induction false} IndexOfUnique(s: seq<int>, x: int, k: nat)
    requires k < |s| && s[k] == x && x !in s[..k]
    ensures IndexOf(s, x) == k
  {
    if s[0] != x {
      assert k > 0;
      assert s[1..][..k - 1] == s[1..k];
      assert s[1..k] == s[..k][1..];
      IndexOfUnique(s[1..], x, k - 1);
    }
  }

  /** The distinct values of `s`, each at its first occurrence (a counter's keys). */
  function Distinct(s: seq<int>): (d: seq<int>)
    ensures forall x :: x in d <==> x in s
    ensures NoDuplicates(d)
    ensures InFirstOccurrenceOrder(d, s)
  {
    if s == [] then []
    else
      var p, y := s[..|s| - 1], s[|s| - 1];
      var d := Distinct(p) + (if y in p then [] else [y]);
      assert s == p + [y];
      DistinctOrder(Distinct(p), p, y);
      d
  }

  /** Extending the distinct values of `p` by `y` keeps first-occurrence order in `p + [y]`. */
  lemma DistinctOrder(dp: seq<int>, p: seq<int>, y: int)
    requires InFirstOccurrenceOrder(dp, p)
    requires forall x :: x in dp <==> x in p
    ensures InFirstOccurrenceOrder(dp + (if y in p then [] else [y]), p + [y])
  {
    var d := dp + (if y in p then [] else [y]);
    forall x | x in dp ensures IndexOf(p + [y], x) == IndexOf(p, x) {
      IndexOfAppend(p, y, x);
    }
    if y !in p {
      IndexOfUnique(p + [y], y, |p|);
      assert (p + [y])[..|p|] == p;
    }
    forall i, j | 0 <= i < j < |d| ensures IndexOf(p + [y], d[i]) < IndexOf(p + [y], d[j]) {
      if j < |dp| {
        assert d[i] == dp[i] && d[j] == dp[j];
      } else {
        assert d[i] == dp[i] && d[j] == y && y !in p;
      }
    }
  }

  /** The keys among `keys` whose count in `nums` is above one, in the order of `keys`. */
  function KeepRepeated(keys: seq<int>, nums: seq<int>): (r: seq<int>)
    ensures forall x :: x in r <==> x in keys && Count(nums, x) > 1
    ensures NoDuplicates(keys) ==> NoDuplicates(r)
  {
    if keys == [] then []
    else (if Count(nums, keys[0]) > 1 then [keys[0]] else []) + KeepRepeated(keys[1..], nums)
  }

  /** Filtering keeps the relative order of the keys. */
  lemma {:induction false} KeepRepeatedOrder(keys: seq<int>, nums: seq<int>)
    requires InFirstOccurrenceOrder(keys, nums)
    ensures InFirstOccurrenceOrder(KeepRepeated(keys, nums), nums)
  {
    if keys != [] {
      OrderTail(keys, nums);
      KeepRepeatedOrder(keys[1..], nums);
      if Count(nums, keys[0]) > 1 {
        OrderCons(keys[0], KeepRepeated(keys[1..], nums), keys[1..], nums);
      }
    }
  }

  lemma OrderTail(keys: seq<int>, nums: seq<int>)
    requires keys != [] && InFirstOccurrenceOrder(keys, nums)
    ensures InFirstOccurrenceOrder(keys[1..], nums)
  {
    var tail := keys[1..];
    forall i, j | 0 <= i < j < |tail| ensures IndexOf(nums, tail[i]) < IndexOf(nums, tail[j]) {
      assert tail[i] == keys[i + 1] && tail[j] == keys[j + 1];
    }
  }

  lemma OrderCons(x: int, rest: seq<int>, tail: seq<int>, nums: seq<int>)
    requires InFirstOccurrenceOrder([x] + tail, nums) && InFirstOccurrenceOrder(rest, nums)
    requires forall y :: y in rest ==> y in tail
    ensures InFirstOccurrenceOrder([x] + rest, nums)
  {
    var keys, r := [x] + tail, [x] + rest;
    assert x in nums by {
      assert keys[0] == x;
    }
    forall i, j | 0 <= i < j < |r| ensures IndexOf(nums, r[i]) < IndexOf(nums, r[j]) {
      if i == 0 {
        assert r[j] == rest[j - 1] && rest[j - 1] in rest;
        assert r[j] in tail;
        var m :| 0 <= m < |tail| && tail[m] == r[j];
        assert keys[0] == x && keys[m + 1] == r[j];
      } else {
        assert r[i] == rest[i - 1] && r[j] == rest[j - 1];
      }
    }
  }

  /**
   * The values repeated among `nums`: each value occurring at least twice,
   * exactly once, in first-occurrence order.
   */
  function Repeated(nums: seq<int>): (r: seq<int>)
    ensures forall x :: x in r <==> Count(nums, x) >= 2
    ensures NoDuplicates(r)
    ensures InFirstOccurrenceOrder(r, nums)
  {
    KeepRepeatedOrder(Distinct(nums), nums);
    KeepRepeated(Distinct(nums), nums)
  }

  /** A value occurs at least twice exactly when two different positions hold it. */
  lemma {:induction false} CountAtLeastTwo(s: seq<int>, x: int)
    ensures Count(s, x) >= 2 <==> exists i, j :: 0 <= i < j < |s| && s[i] == x && s[j] == x
  {
    if s != [] {
      CountAtLeastTwo(s[1..], x);
      if Count(s, x) >= 2 {
        if s[0] == x {
          var j :| 0 <= j < |s[1..]| && s[1..][j] == x;
          assert s[0] == x && s[j + 1] == x;
        } else {
          var i, j :| 0 <= i < j < |s[1..]| && s[1..][i] == x && s[1..][j] == x;
          assert s[i + 1] == x && s[j + 1] == x;
        }
      }
      if exists i, j :: 0 <= i < j < |s| && s[i] == x && s[j] == x {
        var i, j :| 0 <= i < j < |s| && s[i] == x && s[j] == x;
        if i == 0 {
          assert s[1..][j - 1] == x;
        } else {
          assert s[1..][i - 1] == x && s[1..][j - 1] == x;
        }
      }
    }
  }

  /** A repetition is reported exactly when two of the numbers are equal. */
  lemma RepeatedNonEmptyIffPair(nums: seq<int>)
    ensures Repeated(nums) != [] <==> exists i, j :: 0 <= i < j < |nums| && nums[i] == nums[j]
  {
    var r := Repeated(nums);
    if r != [] {
      CountAtLeastTwo(nums, r[0]);
    }
    if exists i, j :: 0 <= i < j < |nums| && nums[i] == nums[j] {
      var i, j :| 0 <= i < j < |nums| && nums[i] == nums[j];
      CountAtLeastTwo(nums, nums[i]);
      assert nums[i] in r;
    }
  }

  /** A duplicate-free sequence holding `v` and nothing else is `[v]`. */
  lemma OnlyValue(r: seq<int>, v: int)
    requires NoDuplicates(r) && v in r && forall x :: x in r ==> x == v
    ensures r == [v]
  {
    CountWhenAllEqual(r, v);
    CountWithoutDuplicates(r, v);
    assert r[0] in r;
  }

  lemma {:induction false} CountWhenAllEqual(r: seq<int>, v: int)
    requires forall x :: x in r ==> x == v
    ensures Count(r, v) == |r|
  {
    if r != [] {
      assert r[0] in r;
      assert forall x :: x in r[1..] ==> x in r;
      CountWhenAllEqual(r[1..], v);
    }
  }

  /** In a duplicate-free sequence every value occurs at most once. */
  lemma {:induction false} CountWithoutDuplicates(r: seq<int>, v: int)
    requires NoDuplicates(r)
    ensures Count(r, v) <= 1
  {
    if r != [] {
      var t := r[1..];
      assert NoDuplicates(t) by {
        forall i, j | 0 <= i < j < |t| ensures t[i] != t[j] {
          assert t[i] == r[i + 1] && t[j] == r[j + 1];
        }
      }
      CountWithoutDuplicates(t, v);
    }
  }

  /** Example: the numbers 5, 5, 3, 7 (life path, birth day, expression, soul urge) report exactly 5. */
  lemma RepeatedExample(nums: seq<int>)
    requires nums == [5, 5, 3, 7]
    ensures Repeated(nums) == [5]
  {
    var r := Repeated(nums);
    assert Count(nums, 5) == 2;
    assert 5 in r;
    forall x | x in r ensures x == 5 {
      assert nums[1..] == [5, 3, 7] && nums[1..][1..] == [3, 7] && nums[1..][1..][1..] == [7];
      assert Count([7], x) == if x == 7 then 1 else 0;
      assert Count([3, 7], x) == (if x == 3 then 1 else 0) + Count([7], x);
      assert Count([5, 3, 7], x) == (if x == 5 then 1 else 0) + Count([3, 7], x);
      assert Count(nums, x) == (if x == 5 then 1 else 0) + Count([5, 3, 7], x);
      assert Count(nums, x) ==
        (if x == 5 then 2 else 0) + (if x == 3 then 1 else 0) + (if x == 7 then 1 else 0);
    }
    OnlyValue(r, 5);
  }
}
