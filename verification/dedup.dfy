/** Keep-the-first de-duplication of a sequence under a key, the pattern of
    a `seen` set that is consulted and then extended for each element. The
    key is a parameter so that the facts here hold for any key. */
module Dedup {
  /** The keys of the elements of `s`. */
  function KeysOf<T>(s: seq<T>, key: T -> string): set<string>
  {
    if |s| == 0 then {} else KeysOf(s[..|s| - 1], key) + {key(s[|s| - 1])}
  }

  /** Reference de-duplication: keep an element exactly when no earlier
      element has the same key. */
  function FirstOccurrences<T>(c: seq<T>, key: T -> string): seq<T>
  {
    if |c| == 0 then []
    else
      var init := c[..|c| - 1];
      FirstOccurrences(init, key)
      + (if key(c[|c| - 1]) in KeysOf(init, key) then [] else [c[|c| - 1]])
  }

  /** No two elements share a key. */
  predicate DistinctKeys<T>(s: seq<T>, key: T -> string)
  {
    forall i, j :: 0 <= i < j < |s| ==> key(s[i]) != key(s[j])
  }

  /** No earlier element shares the key of element `i`. */
  predicate FirstOfKey<T>(c: seq<T>, key: T -> string, i: nat)
    requires i < |c|
  {
    forall k :: 0 <= k < i ==> key(c[k]) != key(c[i])
  }

  lemma KeysOfAppend<T>(s: seq<T>, key: T -> string, x: T)
    ensures KeysOf(s + [x], key) == KeysOf(s, key) + {key(x)}
  {
    assert (s + [x])[..|s|] == s;
  }

  lemma FirstOccurrencesAppend<T>(c: seq<T>, key: T -> string, x: T)
    ensures FirstOccurrences(c + [x], key)
         == FirstOccurrences(c, key) + (if key(x) in KeysOf(c, key) then [] else [x])
  {
    assert (c + [x])[..|c|] == c;
  }

  /** A key in `KeysOf(s)` is the key of some element of `s`. */
  lemma {:induction false} KeysOfWitness<T>(s: seq<T>, key: T -> string, k: string) returns (i: nat)
    requires k in KeysOf(s, key)
    ensures i < |s| && key(s[i]) == k
    decreases |s|
  {
    var n := |s| - 1;
    if k == key(s[n]) {
      i := n;
    } else {
      i := KeysOfWitness(s[..n], key, k);
      assert s[..n][i] == s[i];
    }
  }

  /** The key of every element of `s` is in `KeysOf(s)`. */
  lemma {:induction false} KeysOfHas<T>(s: seq<T>, key: T -> string, i: nat)
    requires i < |s|
    ensures key(s[i]) in KeysOf(s, key)
    decreases |s|
  {
    var n := |s| - 1;
    if i < n {
      KeysOfHas(s[..n], key, i);
      assert s[..n][i] == s[i];
    }
  }

  /** One step of the `seen`-set loop: keeping `x` exactly when its key has
      not been seen extends the first occurrences of `c` and their keys to
      those of `c + [x]`. */
  lemma KeepIfUnseen<T>(c: seq<T>, key: T -> string, x: T, kept: seq<T>, seen: set<string>)
    requires kept == FirstOccurrences(c, key) && seen == KeysOf(kept, key)
    ensures var next := if key(x) in seen then kept else kept + [x];
      && next == FirstOccurrences(c + [x], key)
      && (if key(x) in seen then seen else seen + {key(x)}) == KeysOf(next, key)
  {
    FirstOccurrencesKeys(c, key);
    FirstOccurrencesAppend(c, key, x);
    if key(x) !in seen {
      KeysOfAppend(kept, key, x);
    }
  }

  /** De-duplication drops only keys that are already present. */
  lemma {:induction false} FirstOccurrencesKeys<T>(c: seq<T>, key: T -> string)
    ensures KeysOf(FirstOccurrences(c, key), key) == KeysOf(c, key)
    decreases |c|
  {
    if |c| > 0 {
      var init := c[..|c| - 1];
      var last := c[|c| - 1];
      var f := FirstOccurrences(init, key);
      FirstOccurrencesKeys(init, key);
      if key(last) in KeysOf(init, key) {
        assert FirstOccurrences(c, key) == f;
      } else {
        assert FirstOccurrences(c, key) == f + [last];
        KeysOfAppend(f, key, last);
      }
    }
  }

  /** `idx` lists, in increasing order, the positions of `c` that
      `FirstOccurrences` keeps: each kept element is the first with its key,
      and every first-with-its-key position is listed. */
  ghost predicate Selects<T>(c: seq<T>, key: T -> string, idx: seq<nat>)
  {
    && |idx| == |FirstOccurrences(c, key)|
    && (forall k :: 0 <= k < |idx| ==>
          idx[k] < |c| && FirstOccurrences(c, key)[k] == c[idx[k]] && FirstOfKey(c, key, idx[k]))
    && (forall k, l :: 0 <= k < l < |idx| ==> idx[k] < idx[l])
    && (forall i :: 0 <= i < |c| && FirstOfKey(c, key, i) ==> i in idx)
  }

  /** A last element whose key is already present is dropped. */
  lemma SelectSkip<T>(c: seq<T>, key: T -> string, prev: seq<nat>)
    requires |c| > 0 && key(c[|c| - 1]) in KeysOf(c[..|c| - 1], key)
    requires Selects(c[..|c| - 1], key, prev)
    ensures Selects(c, key, prev)
  {
    var n := |c| - 1;
    var init := c[..n];
    assert forall i :: 0 <= i < n ==> init[i] == c[i];
    assert forall i :: 0 <= i < n ==> (FirstOfKey(c, key, i) <==> FirstOfKey(init, key, i));
    var w := KeysOfWitness(init, key, key(c[n]));
    assert key(c[w]) == key(c[n]);
  }

  /** A last element with a new key is kept, at the end. */
  lemma SelectKeep<T>(c: seq<T>, key: T -> string, prev: seq<nat>)
    requires |c| > 0 && key(c[|c| - 1]) !in KeysOf(c[..|c| - 1], key)
    requires Selects(c[..|c| - 1], key, prev)
    ensures Selects(c, key, prev + [|c| - 1])
  {
    var n := |c| - 1;
    var init := c[..n];
    assert forall i :: 0 <= i < n ==> init[i] == c[i];
    assert forall i :: 0 <= i < n ==> (FirstOfKey(c, key, i) <==> FirstOfKey(init, key, i));
    forall k | 0 <= k < n
      ensures key(c[k]) != key(c[n])
    {
      KeysOfHas(init, key, k);
    }
    assert FirstOccurrences(c, key) == FirstOccurrences(init, key) + [c[n]];
  }

  /** De-duplication keeps, in their original order, exactly the elements
      that are the first with their key: `idx` lists the kept positions. */
  lemma {:induction false} FirstOccurrencesSelect<T>(c: seq<T>, key: T -> string) returns (idx: seq<nat>)
    ensures Selects(c, key, idx)
    decreases |c|
  {
    if |c| == 0 {
      return [];
    }
    var n := |c| - 1;
    var prev := FirstOccurrencesSelect(c[..n], key);
    if key(c[n]) in KeysOf(c[..n], key) {
      SelectSkip(c, key, prev);
      idx := prev;
    } else {
      SelectKeep(c, key, prev);
      idx := prev + [n];
    }
  }

  /** The kept elements have pairwise distinct keys. */
  lemma FirstOccurrencesDistinct<T>(c: seq<T>, key: T -> string)
    ensures DistinctKeys(FirstOccurrences(c, key), key)
  {
    var idx := FirstOccurrencesSelect(c, key);
  }
}
