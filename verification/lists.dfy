/**
 * The array idioms the stores are built from: `indexOf`, `includes` + `push`,
 * `includes` + `unshift` and `indexOf` + `splice(index, 1)`, on immutable sequences.
 */
module Lists {
  import opened Options

  /** No element occurs twice. */
  ghost predicate NoDups<T>(xs: seq<T>) {
    forall i, j :: 0 <= i < j < |xs| ==> xs[i] != xs[j]
  }

  /** `Array.prototype.indexOf`: the first position holding `x`, or -1. */
  function IndexOf<T(==)>(xs: seq<T>, x: T): (r: int)
    ensures -1 <= r < |xs|
    ensures r == -1 <==> x !in xs
    ensures 0 <= r ==> xs[r] == x && forall j :: 0 <= j < r ==> xs[j] != x
  {
    if |xs| == 0 then -1
    else if xs[0] == x then 0
    else
      var k := IndexOf(xs[1..], x);
      assert forall j :: 1 <= j < |xs| ==> xs[j] == xs[1..][j - 1];
      if k == -1 then -1 else k + 1
  }

  /** `splice(i, 1)`: the list without its entry at `i`, the others in order. */
  function SpliceOut<T>(xs: seq<T>, i: nat): (r: seq<T>)
    requires i < |xs|
    ensures |r| == |xs| - 1
    ensures forall j :: 0 <= j < |r| ==> r[j] == xs[if j < i then j else j + 1]
    ensures multiset(r) == multiset(xs) - multiset{xs[i]}
  {
    assert xs == xs[..i] + [xs[i]] + xs[i + 1..];
    xs[..i] + xs[i + 1..]
  }

  /**
   * `indexOf` followed by `splice(index, 1)`: drops the first occurrence of `x`, if any.
   * Defined element by element; the contract ties it to the index-based reading.
   */
  function RemoveFirst<T(==)>(xs: seq<T>, x: T): (r: seq<T>)
    ensures x !in xs ==> r == xs
    ensures x in xs ==> r == SpliceOut(xs, IndexOf(xs, x))
    ensures multiset(r) == multiset(xs) - multiset{x}
  {
    if |xs| == 0 then []
    else
      assert xs == [xs[0]] + xs[1..];
      if xs[0] == x then
        assert xs[..0] + xs[1..] == xs[1..];
        xs[1..]
      else
        var rest := RemoveFirst(xs[1..], x);
        assert x in xs ==> [xs[0]] + rest == SpliceOut(xs, IndexOf(xs, x)) by {
          if x in xs {
            assert x in xs[1..];
            assert IndexOf(xs, x) == IndexOf(xs[1..], x) + 1;
            SpliceCons(xs, IndexOf(xs, x));
          }
        }
        assert x !in xs ==> [xs[0]] + rest == xs by {
          if x !in xs {
            assert x !in xs[1..];
          }
        }
        [xs[0]] + rest
  }

  /** Splicing position `i - 1` out of the tail and putting the head back splices position `i` out of the list. */
  lemma SpliceCons<T>(xs: seq<T>, i: nat)
    requires 0 < i < |xs|
    ensures [xs[0]] + SpliceOut(xs[1..], i - 1) == SpliceOut(xs, i)
  {
    var r, t := [xs[0]] + SpliceOut(xs[1..], i - 1), SpliceOut(xs, i);
    forall j | 0 < j < |r|
      ensures r[j] == t[j]
    {
      assert r[j] == SpliceOut(xs[1..], i - 1)[j - 1];
    }
  }

  /** Removing the first occurrence from a duplicate-free list removes every occurrence. */
  lemma RemoveFirstNoDups<T>(xs: seq<T>, x: T)
    requires NoDups(xs)
    ensures NoDups(RemoveFirst(xs, x))
    ensures x !in RemoveFirst(xs, x)
  {
    if x in xs {
      var i := IndexOf(xs, x);
      SpliceOutNoDups(xs, i);
    }
  }

  /** Splicing out the entry at `i` of a duplicate-free list leaves a duplicate-free list without that entry. */
  lemma SpliceOutNoDups<T>(xs: seq<T>, i: nat)
    requires NoDups(xs) && i < |xs|
    ensures NoDups(SpliceOut(xs, i))
    ensures xs[i] !in SpliceOut(xs, i)
  {
    var r := SpliceOut(xs, i);
    forall a, b | 0 <= a < b < |r|
      ensures r[a] != r[b]
    {
      var a', b' := if a < i then a else a + 1, if b < i then b else b + 1;
      assert r[a] == xs[a'] && r[b] == xs[b'] && a' < b';
    }
    forall j | 0 <= j < |r|
      ensures r[j] != xs[i]
    {
      var j' := if j < i then j else j + 1;
      assert r[j] == xs[j'] && j' != i;
    }
  }

  /** Prepending a fresh element keeps a list duplicate-free. */
  lemma ConsNoDups<T>(x: T, xs: seq<T>)
    requires NoDups(xs) && x !in xs
    ensures NoDups([x] + xs)
  {
    var r := [x] + xs;
    forall i, j | 0 <= i < j < |r|
      ensures r[i] != r[j]
    {
      assert r[j] == xs[j - 1];
      if i > 0 { assert r[i] == xs[i - 1]; }
    }
  }

  /** Putting back at the front what was just taken off the front is the identity. */
  lemma RemoveFirstOfPrepended<T>(xs: seq<T>, x: T)
    ensures RemoveFirst([x] + xs, x) == xs
  {
    assert ([x] + xs)[1..] == xs;
  }

  /** `if (!xs.includes(x)) xs.push(x)`. */
  function AddAbsent<T(==,!new)>(xs: seq<T>, x: T): (r: seq<T>)
    ensures x in r
    ensures forall y :: y in r <==> y in xs || y == x
    ensures xs <= r && |r| <= |xs| + 1
    ensures x in xs ==> r == xs
    ensures NoDups(xs) ==> NoDups(r)
  {
    if x in xs then xs else xs + [x]
  }

  /** Adding an absent element and then removing it restores the list. */
  lemma RemoveFirstUndoesAddAbsent<T(!new)>(xs: seq<T>, x: T)
    requires x !in xs
    ensures RemoveFirst(AddAbsent(xs, x), x) == xs
  {
    assert AddAbsent(xs, x) == xs + [x];
    RemoveFirstOfAppended(xs, x);
  }

  /** Removing an element just appended to a list that lacked it restores the list. */
  lemma RemoveFirstOfAppended<T>(xs: seq<T>, x: T)
    requires x !in xs
    ensures RemoveFirst(xs + [x], x) == xs
  {
    var ys := xs + [x];
    assert ys[|xs|] == x;
    assert IndexOf(ys, x) == |xs|;
    assert ys[..|xs|] == xs;
  }

  /** `if (!xs.includes(x)) xs.unshift(x)`. */
  function PrependAbsent<T(==,!new)>(xs: seq<T>, x: T): (r: seq<T>)
    ensures x in r
    ensures forall y :: y in r <==> y in xs || y == x
    ensures x in xs ==> r == xs
    ensures x !in xs ==> |r| == |xs| + 1 && r[0] == x && r[1..] == xs
    ensures NoDups(xs) ==> NoDups(r)
  {
    if x in xs then xs else [x] + xs
  }

  /** A prefix of a duplicate-free list is duplicate-free. */
  lemma PrefixNoDups<T>(xs: seq<T>, n: nat)
    requires NoDups(xs) && n <= |xs|
    ensures NoDups(xs[..n])
  {
  }

  /** The elements of a list with one more in front. */
  lemma ElementsCons<T>(x: T, xs: seq<T>)
    ensures (set u | u in [x] + xs) == {x} + (set u | u in xs)
  {
  }

  /** `f(x)` for each element `x`, in order, dropping those `f` maps to None. */
  function FilterMap<A, B(!new)>(xs: seq<A>, f: A -> Option<B>): (r: seq<B>)
    ensures |r| <= |xs|
    ensures forall y :: y in r <==> exists i :: 0 <= i < |xs| && f(xs[i]) == Some(y)
  {
    if |xs| == 0 then []
    else
      var rest := FilterMap(xs[1..], f);
      var r := match f(xs[0]) case Some(y) => [y] + rest case None => rest;
      forall y | exists i :: 0 <= i < |xs| && f(xs[i]) == Some(y)
        ensures y in r
      {
        var i :| 0 <= i < |xs| && f(xs[i]) == Some(y);
        if i > 0 {
          assert xs[1..][i - 1] == xs[i];
        }
      }
      forall y | y in rest
        ensures exists i :: 0 <= i < |xs| && f(xs[i]) == Some(y)
      {
        var i :| 0 <= i < |xs| - 1 && f(xs[1..][i]) == Some(y);
        assert xs[i + 1] == xs[1..][i];
      }
      r
  }

  /**
   * `r` holds the values `f` yields at the increasing positions `idx` of `xs`, one per
   * position, and every position where `f` yields a value is among them.
   */
  ghost predicate PicksFrom<A, B>(xs: seq<A>, f: A -> Option<B>, idx: seq<nat>, r: seq<B>) {
    && |idx| == |r|
    && (forall k :: 0 <= k < |idx| ==> idx[k] < |xs| && f(xs[idx[k]]) == Some(r[k]))
    && (forall k, l :: 0 <= k < l < |idx| ==> idx[k] < idx[l])
    && (forall i :: 0 <= i < |xs| && f(xs[i]).Some? ==> i in idx)
  }

  /** The positions `FilterMap` keeps, in order: each kept value comes from its own element. */
  lemma {:induction false} FilterMapPicks<A, B(!new)>(xs: seq<A>, f: A -> Option<B>) returns (idx: seq<nat>)
    ensures PicksFrom(xs, f, idx, FilterMap(xs, f))
  {
    if |xs| == 0 {
      idx := [];
    } else {
      var rest := FilterMap(xs[1..], f);
      var tail := FilterMapPicks(xs[1..], f);
      var shifted := ShiftPicks(xs, f, tail, rest);
      match f(xs[0])
      case Some(y) =>
        idx := [0] + shifted;
        assert FilterMap(xs, f) == [y] + rest;
        PicksCons(xs, f, shifted, rest);
      case None =>
        idx := shifted;
        assert FilterMap(xs, f) == rest;
    }
  }

  /** Positions picked in the tail, moved one place on, are picks of the whole list bar its head. */
  lemma ShiftPicks<A, B>(xs: seq<A>, f: A -> Option<B>, tail: seq<nat>, r: seq<B>) returns (shifted: seq<nat>)
    requires |xs| > 0 && PicksFrom(xs[1..], f, tail, r)
    ensures |shifted| == |r|
    ensures forall k :: 0 <= k < |shifted| ==> 0 < shifted[k] < |xs| && f(xs[shifted[k]]) == Some(r[k])
    ensures forall k, l :: 0 <= k < l < |shifted| ==> shifted[k] < shifted[l]
    ensures forall i :: 0 < i < |xs| && f(xs[i]).Some? ==> i in shifted
  {
    shifted := seq(|tail|, k requires 0 <= k < |tail| => tail[k] + 1);
    forall k | 0 <= k < |shifted|
      ensures 0 < shifted[k] < |xs| && f(xs[shifted[k]]) == Some(r[k])
    {
      assert xs[shifted[k]] == xs[1..][tail[k]];
    }
    forall i | 0 < i < |xs| && f(xs[i]).Some?
      ensures i in shifted
    {
      assert xs[1..][i - 1] == xs[i];
      assert i - 1 in tail;
      var k :| 0 <= k < |tail| && tail[k] == i - 1;
      assert shifted[k] == i;
    }
  }

  /** Picking the head in front of the shifted picks of the tail picks the whole list. */
  lemma PicksCons<A, B>(xs: seq<A>, f: A -> Option<B>, shifted: seq<nat>, r: seq<B>)
    requires |xs| > 0 && f(xs[0]).Some? && |shifted| == |r|
    requires forall k :: 0 <= k < |shifted| ==> 0 < shifted[k] < |xs| && f(xs[shifted[k]]) == Some(r[k])
    requires forall k, l :: 0 <= k < l < |shifted| ==> shifted[k] < shifted[l]
    requires forall i :: 0 < i < |xs| && f(xs[i]).Some? ==> i in shifted
    ensures PicksFrom(xs, f, [0] + shifted, [f(xs[0]).value] + r)
  {
    var idx := [0] + shifted;
    forall i | 0 <= i < |xs| && f(xs[i]).Some?
      ensures i in idx
    {
      if i > 0 {
        assert i in shifted;
      }
    }
  }

  /** Filtering two parts and joining the results is filtering the whole: the kept values stay in order. */
  lemma {:induction false} FilterMapAppend<A, B(!new)>(xs: seq<A>, ys: seq<A>, f: A -> Option<B>)
    ensures FilterMap(xs + ys, f) == FilterMap(xs, f) + FilterMap(ys, f)
  {
    if |xs| > 0 {
      assert (xs + ys)[1..] == xs[1..] + ys;
      FilterMapAppend(xs[1..], ys, f);
    } else {
      assert xs + ys == ys;
    }
  }

  /** Nothing is dropped when `f` yields a value everywhere; nothing is kept when it yields none. */
  lemma {:induction false} FilterMapExtremes<A, B(!new)>(xs: seq<A>, f: A -> Option<B>)
    ensures (forall i :: 0 <= i < |xs| ==> f(xs[i]).Some?) ==> |FilterMap(xs, f)| == |xs|
    ensures (forall i :: 0 <= i < |xs| ==> f(xs[i]).None?) ==> FilterMap(xs, f) == []
  {
    if |xs| > 0 {
      FilterMapExtremes(xs[1..], f);
      assert forall i :: 0 <= i < |xs| - 1 ==> xs[1..][i] == xs[i + 1];
    }
  }
}
