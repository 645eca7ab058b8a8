/** `sortLocations`: a copy of the directory sorted by name with the
    collation comparator. The input is a value and is never modified.
    `Array.prototype.sort` is stable, so the model is a stable insertion
    sort: names that compare equal keep their input order.

    The sort is stated over any comparator that is a total preorder;
    `SortLocations` instantiates it with the collation of `Collation`. */
module Sorting {
  import opened Records
  import Collation

  /** A comparator on names: `leq(a, b)` means `a` may precede `b`. */
  type Comparator = (string, string) -> bool

  ghost predicate TotalPreorder(leq: Comparator)
  {
    && (forall a, b :: leq(a, b) || leq(b, a))
    && (forall a, b, c :: leq(a, b) && leq(b, c) ==> leq(a, c))
  }

  predicate Equivalent(leq: Comparator, a: string, b: string)
  {
    leq(a, b) && leq(b, a)
  }

  predicate Sorted(leq: Comparator, s: seq<Location>)
  {
    forall i, j :: 0 <= i < j < |s| ==> leq(s[i].name, s[j].name)
  }

  /** Inserts `x` after every element whose name compares less than or equal
      to it, so it lands behind the equal names already present. */
  function Insert(leq: Comparator, x: Location, t: seq<Location>): (r: seq<Location>)
    ensures |r| == |t| + 1
  {
    if |t| == 0 then [x]
    else if !leq(t[0].name, x.name) then [x] + t
    else [t[0]] + Insert(leq, x, t[1..])
  }

  lemma {:induction false} InsertPermutes(leq: Comparator, x: Location, t: seq<Location>)
    ensures multiset(Insert(leq, x, t)) == multiset(t) + multiset{x}
    decreases |t|
  {
    if |t| > 0 && leq(t[0].name, x.name) {
      InsertPermutes(leq, x, t[1..]);
      assert t == [t[0]] + t[1..];
    }
  }

  /** The position at which `Insert` places `x`. */
  function InsertPos(leq: Comparator, x: Location, t: seq<Location>): (k: nat)
    ensures k <= |t|
  {
    if |t| == 0 then 0
    else if !leq(t[0].name, x.name) then 0
    else 1 + InsertPos(leq, x, t[1..])
  }

  function SortBy(leq: Comparator, s: seq<Location>): (r: seq<Location>)
    ensures |r| == |s|
  {
    if |s| == 0 then []
    else Insert(leq, s[|s| - 1], SortBy(leq, s[..|s| - 1]))
  }

  /** `SortBy` returns a permutation of its input. */
  lemma {:induction false} SortByPermutes(leq: Comparator, s: seq<Location>)
    ensures multiset(SortBy(leq, s)) == multiset(s)
    decreases |s|
  {
    if |s| > 0 {
      var init := s[..|s| - 1];
      SortByPermutes(leq, init);
      InsertPermutes(leq, s[|s| - 1], SortBy(leq, init));
      assert s == init + [s[|s| - 1]];
    }
  }

  /** `Insert` splits `t` at `InsertPos`. */
  lemma {:induction false} InsertShape(leq: Comparator, x: Location, t: seq<Location>)
    ensures var k := InsertPos(leq, x, t);
      Insert(leq, x, t) == t[..k] + [x] + t[k..]
    decreases |t|
  {
    if |t| > 0 && leq(t[0].name, x.name) {
      var u := t[1..];
      InsertShape(leq, x, u);
      var k := InsertPos(leq, x, u);
      assert t[..k + 1] == [t[0]] + u[..k];
      assert t[k + 1..] == u[k..];
    }
  }

  /** Everything before `InsertPos` compares less than or equal to `x`, and
      the first element after compares strictly greater. */
  lemma {:induction false} InsertPosBounds(leq: Comparator, x: Location, t: seq<Location>)
    ensures var k := InsertPos(leq, x, t);
      && (forall i :: 0 <= i < k ==> leq(t[i].name, x.name))
      && (k < |t| ==> !leq(t[k].name, x.name))
    decreases |t|
  {
    if |t| > 0 && leq(t[0].name, x.name) {
      var u := t[1..];
      InsertPosBounds(leq, x, u);
      assert forall i :: 1 <= i < |t| ==> t[i] == u[i - 1];
    }
  }

  lemma InsertSplits(leq: Comparator, x: Location, t: seq<Location>)
    ensures var k := InsertPos(leq, x, t);
      && Insert(leq, x, t) == t[..k] + [x] + t[k..]
      && (forall i :: 0 <= i < k ==> leq(t[i].name, x.name))
      && (k < |t| ==> !leq(t[k].name, x.name))
  {
    InsertShape(leq, x, t);
    InsertPosBounds(leq, x, t);
  }

  /** In a sorted list, everything from the first entry greater than `x` on
      is greater than `x`. */
  lemma StrictlyAfter(leq: Comparator, t: seq<Location>, x: Location, k: nat)
    requires TotalPreorder(leq)
    requires Sorted(leq, t) && k <= |t|
    requires k < |t| ==> !leq(t[k].name, x.name)
    ensures forall i :: k <= i < |t| ==> !leq(t[i].name, x.name) && leq(x.name, t[i].name)
  {
  }

  /** Placing `x` between the entries not above it and the entries not below
      it keeps a sorted list sorted. */
  lemma SortedSplice(leq: Comparator, t: seq<Location>, x: Location, k: nat)
    requires k <= |t| && Sorted(leq, t)
    requires forall i :: 0 <= i < k ==> leq(t[i].name, x.name)
    requires forall i :: k <= i < |t| ==> leq(x.name, t[i].name)
    ensures Sorted(leq, t[..k] + [x] + t[k..])
  {
    var r := t[..k] + [x] + t[k..];
    assert forall i :: 0 <= i < k ==> r[i] == t[i];
    assert r[k] == x;
    assert forall i :: k < i < |r| ==> r[i] == t[i - 1];
  }

  lemma InsertSorted(leq: Comparator, x: Location, t: seq<Location>)
    requires TotalPreorder(leq)
    requires Sorted(leq, t)
    ensures Sorted(leq, Insert(leq, x, t))
  {
    var k := InsertPos(leq, x, t);
    InsertShape(leq, x, t);
    InsertPosBounds(leq, x, t);
    StrictlyAfter(leq, t, x, k);
    SortedSplice(leq, t, x, k);
  }

  /** The result of `SortBy` is sorted. */
  lemma {:induction false} SortSorted(leq: Comparator, s: seq<Location>)
    requires TotalPreorder(leq)
    ensures Sorted(leq, SortBy(leq, s))
    decreases |s|
  {
    if |s| > 0 {
      SortSorted(leq, s[..|s| - 1]);
      InsertSorted(leq, s[|s| - 1], SortBy(leq, s[..|s| - 1]));
    }
  }

  /** The elements of `s` whose names compare equal to `name`, in order. */
  function EquivClass(leq: Comparator, s: seq<Location>, name: string): seq<Location>
  {
    if |s| == 0 then []
    else EquivClass(leq, s[..|s| - 1], name)
         + (if Equivalent(leq, s[|s| - 1].name, name) then [s[|s| - 1]] else [])
  }

  lemma {:induction false} EquivClassAppend(leq: Comparator, a: seq<Location>, b: seq<Location>, name: string)
    ensures EquivClass(leq, a + b, name) == EquivClass(leq, a, name) + EquivClass(leq, b, name)
    decreases |b|
  {
    if |b| == 0 {
      assert a + b == a;
    } else {
      assert (a + b)[..|a + b| - 1] == a + b[..|b| - 1];
      EquivClassAppend(leq, a, b[..|b| - 1], name);
    }
  }

  lemma {:induction false} EquivClassNone(leq: Comparator, s: seq<Location>, name: string)
    requires forall i :: 0 <= i < |s| ==> !Equivalent(leq, s[i].name, name)
    ensures EquivClass(leq, s, name) == []
    decreases |s|
  {
    if |s| > 0 {
      EquivClassNone(leq, s[..|s| - 1], name);
    }
  }

  /** The class of `pre + [x] + post` is the class of `pre + post` with `x`
      appended, provided `post` holds nothing equivalent to `x`'s class. */
  lemma SplitClasses(leq: Comparator, pre: seq<Location>, x: Location, post: seq<Location>,
                     r: seq<Location>, t: seq<Location>, name: string)
    requires r == pre + [x] + post && t == pre + post
    requires Equivalent(leq, x.name, name) ==> EquivClass(leq, post, name) == []
    ensures EquivClass(leq, r, name)
         == EquivClass(leq, t, name) + (if Equivalent(leq, x.name, name) then [x] else [])
  {
    EquivClassAppend(leq, pre, post, name);
    EquivClassAppend(leq, pre + [x], post, name);
    EquivClassAppend(leq, pre, [x], name);
    assert [x][..0] == [];
    Regroup(EquivClass(leq, pre, name), EquivClass(leq, [x], name), EquivClass(leq, post, name));
  }

  /** A middle part or a last part that is empty can trade places. */
  lemma Regroup<T>(a: seq<T>, m: seq<T>, b: seq<T>)
    requires m == [] || b == []
    ensures a + m + b == a + b + m
  {
    if m == [] {
      assert a + m == a;
    } else {
      assert a + m + b == a + m;
      assert a + b == a;
    }
  }

  /** Entries after the insertion point compare strictly greater than `x`,
      so none of them is equivalent to a name `x` is equivalent to. */
  lemma AfterInsertPosNotEquivalent(leq: Comparator, x: Location, t: seq<Location>, name: string)
    requires TotalPreorder(leq)
    requires Sorted(leq, t)
    requires Equivalent(leq, x.name, name)
    ensures EquivClass(leq, t[InsertPos(leq, x, t)..], name) == []
  {
    InsertPosBounds(leq, x, t);
    var k := InsertPos(leq, x, t);
    StrictlyAfter(leq, t, x, k);
    EquivClassNone(leq, t[k..], name);
  }

  lemma InsertClass(leq: Comparator, x: Location, t: seq<Location>, name: string)
    requires Equivalent(leq, x.name, name) ==> EquivClass(leq, t[InsertPos(leq, x, t)..], name) == []
    ensures EquivClass(leq, Insert(leq, x, t), name)
         == EquivClass(leq, t, name) + (if Equivalent(leq, x.name, name) then [x] else [])
  {
    InsertShape(leq, x, t);
    var k := InsertPos(leq, x, t);
    assert t == t[..k] + t[k..];
    SplitClasses(leq, t[..k], x, t[k..], Insert(leq, x, t), t, name);
  }

  lemma InsertStable(leq: Comparator, x: Location, t: seq<Location>, name: string)
    requires TotalPreorder(leq)
    requires Sorted(leq, t)
    ensures EquivClass(leq, Insert(leq, x, t), name)
         == EquivClass(leq, t, name) + (if Equivalent(leq, x.name, name) then [x] else [])
  {
    if Equivalent(leq, x.name, name) {
      AfterInsertPosNotEquivalent(leq, x, t, name);
    }
    InsertClass(leq, x, t, name);
  }

  /** Stability: for every name, the entries that compare equal to it appear
      in the result in the same order as in the input. */
  lemma {:induction false} SortStable(leq: Comparator, s: seq<Location>, name: string)
    requires TotalPreorder(leq)
    ensures EquivClass(leq, SortBy(leq, s), name) == EquivClass(leq, s, name)
    decreases |s|
  {
    if |s| > 0 {
      var init := s[..|s| - 1];
      SortStable(leq, init, name);
      SortSorted(leq, init);
      InsertStable(leq, s[|s| - 1], SortBy(leq, init), name);
    }
  }

  lemma {:induction false} InsertAfterAll(leq: Comparator, x: Location, t: seq<Location>)
    requires forall i :: 0 <= i < |t| ==> leq(t[i].name, x.name)
    ensures Insert(leq, x, t) == t + [x]
    decreases |t|
  {
    if |t| > 0 {
      InsertAfterAll(leq, x, t[1..]);
      assert t == [t[0]] + t[1..];
    }
  }

  /** Every proper prefix of a sorted list is sorted, and its entries all
      precede the last entry. */
  lemma SortedInit(leq: Comparator, s: seq<Location>)
    requires |s| > 0 && Sorted(leq, s)
    ensures Sorted(leq, s[..|s| - 1])
    ensures forall i :: 0 <= i < |s| - 1 ==> leq(s[i].name, s[|s| - 1].name)
  {
  }

  /** Sorting a sorted list returns it unchanged. */
  lemma {:induction false} SortOfSorted(leq: Comparator, s: seq<Location>)
    requires Sorted(leq, s)
    ensures SortBy(leq, s) == s
    decreases |s|
  {
    if |s| > 0 {
      var init := s[..|s| - 1];
      SortedInit(leq, s);
      SortOfSorted(leq, init);
      InsertAfterAll(leq, s[|s| - 1], init);
      assert s == init + [s[|s| - 1]];
    }
  }

  // ---------------------------------------------------------------------
  // The collation comparator of `sortLocations`.

  lemma CollationIsTotalPreorder()
    ensures TotalPreorder(Collation.Leq)
  {
    forall a, b
      ensures Collation.Leq(a, b) || Collation.Leq(b, a)
    {
      Collation.LeqTotal(a, b);
    }
    forall a, b, c | Collation.Leq(a, b) && Collation.Leq(b, c)
      ensures Collation.Leq(a, c)
    {
      Collation.LeqTransitive(a, b, c);
    }
  }

  /** `sortLocations(locs)`. */
  function SortLocations(locs: seq<Location>): (r: seq<Location>)
    ensures |r| == |locs|
  {
    SortBy(Collation.Leq, locs)
  }

  /** `sortLocations` returns a permutation of its input. */
  lemma SortLocationsPermutes(locs: seq<Location>)
    ensures multiset(SortLocations(locs)) == multiset(locs)
  {
    SortByPermutes(Collation.Leq, locs);
  }

  predicate IsSortedDirectory(d: seq<Location>)
  {
    Sorted(Collation.Leq, d)
  }

  /** `sortLocations` returns its input ordered by the collation comparator. */
  lemma SortLocationsSorted(locs: seq<Location>)
    ensures IsSortedDirectory(SortLocations(locs))
  {
    CollationIsTotalPreorder();
    SortSorted(Collation.Leq, locs);
  }

  /** Entries whose names compare equal keep their input order. */
  lemma SortLocationsStable(locs: seq<Location>, name: string)
    ensures EquivClass(Collation.Leq, SortLocations(locs), name)
         == EquivClass(Collation.Leq, locs, name)
  {
    CollationIsTotalPreorder();
    SortStable(Collation.Leq, locs, name);
  }

  /** Sorting is idempotent. */
  lemma SortIdempotent(locs: seq<Location>)
    ensures SortLocations(SortLocations(locs)) == SortLocations(locs)
  {
    CollationIsTotalPreorder();
    SortSorted(Collation.Leq, locs);
    SortOfSorted(Collation.Leq, SortLocations(locs));
  }

  /** Appending one entry to a sorted directory and re-sorting places that
      entry at `InsertPos` and keeps every other entry in its order. */
  lemma SortAfterAppend(d: seq<Location>, c: Location)
    requires IsSortedDirectory(d)
    ensures var k := InsertPos(Collation.Leq, c, d);
      SortLocations(d + [c]) == d[..k] + [c] + d[k..]
  {
    assert (d + [c])[..|d|] == d;
    SortOfSorted(Collation.Leq, d);
    InsertSplits(Collation.Leq, c, d);
  }
}
