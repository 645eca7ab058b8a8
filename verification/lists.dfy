/** Index-based list updates shared by the directory and the schedule. */
module Lists {
  /** The list with the element at `index` replaced; an index past the end
      replaces nothing. */
  function ReplaceAt<T>(s: seq<T>, index: nat, updated: T): (r: seq<T>)
    ensures |r| == |s|
    ensures index < |s| ==> r[index] == updated
    ensures forall j :: 0 <= j < |s| && j != index ==> r[j] == s[j]
  {
    if index < |s| then s[index := updated] else s
  }

  lemma ReplaceAtMultiset<T>(s: seq<T>, index: nat, updated: T)
    ensures index < |s| ==>
              multiset(ReplaceAt(s, index, updated)) + multiset{s[index]}
              == multiset(s) + multiset{updated}
  {
    if index < |s| {
      var pre, post := s[..index], s[index + 1..];
      assert s == pre + [s[index]] + post;
      assert ReplaceAt(s, index, updated) == pre + [updated] + post;
    }
  }

  /** The list without the element at `index`; an index past the end
      removes nothing. */
  function RemoveAt<T>(s: seq<T>, index: nat): (r: seq<T>)
    ensures index < |s| ==> |r| == |s| - 1
    ensures index < |s| ==> forall j :: 0 <= j < index ==> r[j] == s[j]
    ensures index < |s| ==> forall j :: index <= j < |r| ==> r[j] == s[j + 1]
    ensures index < |s| ==> multiset(r) + multiset{s[index]} == multiset(s)
    ensures index >= |s| ==> r == s
  {
    if index < |s| then
      assert s == s[..index] + [s[index]] + s[index + 1..];
      s[..index] + s[index + 1..]
    else s
  }

  /** Removing an element at the position it was inserted gives back the
      list without it. */
  lemma RemoveInserted<T>(a: seq<T>, x: T, b: seq<T>)
    ensures (a + [x] + b)[|a|] == x
    ensures RemoveAt(a + [x] + b, |a|) == a + b
  {
    var s := a + [x] + b;
    assert s[..|a|] == a;
    assert s[|a| + 1..] == b;
  }

  /** `r` is `c` filtered by `keep`: `idx` lists, in increasing order, the
      positions of `c` that pass the test, and `r` holds exactly the elements
      at those positions. */
  ghost predicate FilterOf<T>(r: seq<T>, c: seq<T>, keep: T -> bool, idx: seq<nat>)
  {
    && |idx| == |r|
    && (forall k :: 0 <= k < |idx| ==> idx[k] < |c| && r[k] == c[idx[k]] && keep(c[idx[k]]))
    && (forall k, l :: 0 <= k < l < |idx| ==> idx[k] < idx[l])
    && (forall i :: 0 <= i < |c| && keep(c[i]) ==> i in idx)
    && multiset(r) <= multiset(c)
  }

  /** One more element that passes the test is kept, at the end. */
  lemma FilterKeep<T>(r: seq<T>, c: seq<T>, keep: T -> bool, idx: seq<nat>, x: T)
    requires FilterOf(r, c, keep, idx) && keep(x)
    ensures FilterOf(r + [x], c + [x], keep, idx + [|c|])
  {
    var r', c', idx' := r + [x], c + [x], idx + [|c|];
    forall k | 0 <= k < |idx'|
      ensures idx'[k] < |c'| && r'[k] == c'[idx'[k]] && keep(c'[idx'[k]])
    {
      if k < |idx| {
        assert idx'[k] == idx[k] && r'[k] == r[k] && c'[idx[k]] == c[idx[k]];
      }
    }
    forall k, l | 0 <= k < l < |idx'|
      ensures idx'[k] < idx'[l]
    {
      assert idx'[k] == idx[k];
    }
    forall i | 0 <= i < |c'| && keep(c'[i])
      ensures i in idx'
    {
      if i < |c| {
        assert c'[i] == c[i];
      }
    }
    assert multiset(r') == multiset(r) + multiset{x};
    assert multiset(c') == multiset(c) + multiset{x};
  }

  /** One more element that fails the test is dropped. */
  lemma FilterSkip<T>(r: seq<T>, c: seq<T>, keep: T -> bool, idx: seq<nat>, x: T)
    requires FilterOf(r, c, keep, idx) && !keep(x)
    ensures FilterOf(r, c + [x], keep, idx)
  {
    var c' := c + [x];
    forall k | 0 <= k < |idx|
      ensures idx[k] < |c'| && r[k] == c'[idx[k]] && keep(c'[idx[k]])
    {
      assert c'[idx[k]] == c[idx[k]];
    }
    forall i | 0 <= i < |c'| && keep(c'[i])
      ensures i in idx
    {
      assert c'[i] == c[i];
    }
    assert multiset(c') == multiset(c) + multiset{x};
  }

  /** Filtering a list one element longer: the previous filter, extended by
      that element exactly when it passes the test. */
  lemma FilterAppend<T>(r: seq<T>, c: seq<T>, keep: T -> bool, idx: seq<nat>, x: T, r': seq<T>, c': seq<T>)
    returns (idx': seq<nat>)
    requires FilterOf(r, c, keep, idx)
    requires c' == c + [x] && r' == if keep(x) then r + [x] else r
    ensures FilterOf(r', c', keep, idx')
  {
    if keep(x) {
      FilterKeep(r, c, keep, idx, x);
      idx' := idx + [|c|];
    } else {
      FilterSkip(r, c, keep, idx, x);
      idx' := idx;
    }
  }

  /** The elements of `c` that pass `keep`, in order: `c.filter(keep)`. */
  function Filter<T>(c: seq<T>, keep: T -> bool): seq<T>
  {
    if |c| == 0 then []
    else
      var n := |c| - 1;
      Filter(c[..n], keep) + (if keep(c[n]) then [c[n]] else [])
  }

  /** `Filter` keeps exactly the passing positions, in order. */
  lemma {:induction false} FilterPicks<T>(c: seq<T>, keep: T -> bool) returns (idx: seq<nat>)
    ensures FilterOf(Filter(c, keep), c, keep, idx)
    decreases |c|
  {
    if |c| == 0 {
      return [];
    }
    var n := |c| - 1;
    var prev := FilterPicks(c[..n], keep);
    SplitLast(c);
    idx := FilterAppend(Filter(c[..n], keep), c[..n], keep, prev, c[n], Filter(c, keep), c);
  }

  lemma SplitLast<T>(c: seq<T>)
    requires |c| > 0
    ensures c[..|c| - 1] + [c[|c| - 1]] == c
  {
  }
}
