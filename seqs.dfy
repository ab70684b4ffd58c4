/**
 * `Array.prototype.filter` and MongoDB's `$pull` both keep, in order, the elements that pass a
 * test. `Filter` is that operation; its lemmas say what survives and that order is kept.
 */
module Seqs {

  function Filter<T(==)>(s: seq<T>, keep: T -> bool): (r: seq<T>)
    ensures |r| <= |s|
    ensures forall i :: 0 <= i < |r| ==> keep(r[i])
  {
    if s == [] then []
    else if keep(s[0]) then [s[0]] + Filter(s[1..], keep)
    else Filter(s[1..], keep)
  }

  /** A sequence whose elements all pass the test is returned unchanged. */
  lemma {:induction false} FilterAllKept<T>(s: seq<T>, keep: T -> bool)
    requires forall i :: 0 <= i < |s| ==> keep(s[i])
    ensures Filter(s, keep) == s
  {
    if s != [] {
      FilterAllKept(s[1..], keep);
      assert [s[0]] + s[1..] == s;
    }
  }

  /**
   * The survivors keep their relative order: `f` maps each position of the result to a position of
   * `s`, strictly increasing, and every position of `s` whose element passes the test is hit.
   */
  lemma {:induction false} FilterKeepsOrder<T>(s: seq<T>, keep: T -> bool) returns (f: seq<int>)
    ensures |f| == |Filter(s, keep)|
    ensures forall k :: 0 <= k < |f| ==> 0 <= f[k] < |s| && s[f[k]] == Filter(s, keep)[k]
    ensures forall k, l :: 0 <= k < l < |f| ==> f[k] < f[l]
    ensures forall i :: 0 <= i < |s| && keep(s[i]) ==> i in f
  {
    if s == [] {
      f := [];
    } else {
      var g := FilterKeepsOrder(s[1..], keep);
      var ft := Filter(s[1..], keep);
      var shifted := Shift(s, keep, s[1..], ft, g);
      if keep(s[0]) {
        f := Prepend(s, keep, Filter(s, keep), ft, shifted);
      } else {
        f := Skip(s, keep, Filter(s, keep), shifted);
      }
    }
  }

  /** When the head passes, its position 0 goes in front of the positions found for the tail. */
  lemma Prepend<T>(s: seq<T>, keep: T -> bool, r: seq<T>, ft: seq<T>, shifted: seq<int>) returns (f: seq<int>)
    requires s != [] && keep(s[0]) && r == [s[0]] + ft
    requires |shifted| == |ft|
    requires forall k :: 0 <= k < |shifted| ==> 1 <= shifted[k] < |s| && s[shifted[k]] == ft[k]
    requires forall k, l :: 0 <= k < l < |shifted| ==> shifted[k] < shifted[l]
    requires forall i :: 1 <= i < |s| && keep(s[i]) ==> exists k :: 0 <= k < |shifted| && shifted[k] == i
    ensures |f| == |r|
    ensures forall k :: 0 <= k < |f| ==> 0 <= f[k] < |s| && s[f[k]] == r[k]
    ensures forall k, l :: 0 <= k < l < |f| ==> f[k] < f[l]
    ensures forall i :: 0 <= i < |s| && keep(s[i]) ==> i in f
  {
    f := [0] + shifted;
    forall k | 0 <= k < |f| ensures 0 <= f[k] < |s| && s[f[k]] == r[k] {
      if k > 0 {
        assert f[k] == shifted[k - 1] && r[k] == ft[k - 1];
      }
    }
    forall k, l | 0 <= k < l < |f| ensures f[k] < f[l] {
      assert f[l] == shifted[l - 1];
      if k > 0 {
        assert f[k] == shifted[k - 1];
      }
    }
    forall i | 0 <= i < |s| && keep(s[i]) ensures i in f {
      if i == 0 {
        assert f[0] == 0;
      } else {
        var k :| 0 <= k < |shifted| && shifted[k] == i;
        assert f[k + 1] == i;
      }
    }
  }

  /** When the head fails the test, the positions found for the tail are all there is. */
  lemma Skip<T>(s: seq<T>, keep: T -> bool, r: seq<T>, shifted: seq<int>) returns (f: seq<int>)
    requires s != [] && !keep(s[0])
    requires |shifted| == |r|
    requires forall k :: 0 <= k < |shifted| ==> 1 <= shifted[k] < |s| && s[shifted[k]] == r[k]
    requires forall k, l :: 0 <= k < l < |shifted| ==> shifted[k] < shifted[l]
    requires forall i :: 1 <= i < |s| && keep(s[i]) ==> exists k :: 0 <= k < |shifted| && shifted[k] == i
    ensures |f| == |r|
    ensures forall k :: 0 <= k < |f| ==> 0 <= f[k] < |s| && s[f[k]] == r[k]
    ensures forall k, l :: 0 <= k < l < |f| ==> f[k] < f[l]
    ensures forall i :: 0 <= i < |s| && keep(s[i]) ==> i in f
  {
    f := shifted;
    forall i | 0 <= i < |s| && keep(s[i]) ensures i in f {
      var k :| 0 <= k < |shifted| && shifted[k] == i;
    }
  }

  /** The positions found for the tail, moved up by one to be positions of `s`. */
  lemma Shift<T>(s: seq<T>, keep: T -> bool, tail: seq<T>, ft: seq<T>, g: seq<int>) returns (shifted: seq<int>)
    requires s != [] && tail == s[1..]
    requires |g| == |ft|
    requires forall k :: 0 <= k < |g| ==> 0 <= g[k] < |tail| && tail[g[k]] == ft[k]
    requires forall k, l :: 0 <= k < l < |g| ==> g[k] < g[l]
    requires forall i :: 0 <= i < |tail| && keep(tail[i]) ==> i in g
    ensures |shifted| == |ft|
    ensures forall k :: 0 <= k < |shifted| ==> 1 <= shifted[k] < |s| && s[shifted[k]] == ft[k]
    ensures forall k, l :: 0 <= k < l < |shifted| ==> shifted[k] < shifted[l]
    ensures forall i :: 1 <= i < |s| && keep(s[i]) ==> exists k :: 0 <= k < |shifted| && shifted[k] == i
  {
    shifted := seq(|g|, k requires 0 <= k < |g| => g[k] + 1);
    forall k | 0 <= k < |shifted| ensures 1 <= shifted[k] < |s| && s[shifted[k]] == ft[k] {
      assert tail[g[k]] == s[g[k] + 1];
    }
    forall i | 1 <= i < |s| && keep(s[i]) ensures exists k :: 0 <= k < |shifted| && shifted[k] == i {
      assert keep(tail[i - 1]);
      var k :| 0 <= k < |g| && g[k] == i - 1;
      assert shifted[k] == i;
    }
  }
}
