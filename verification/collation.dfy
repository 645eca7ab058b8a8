/** The comparator of `sortLocations`: `a.localeCompare(b, undefined,
    { sensitivity: 'base', numeric: true, ignorePunctuation: true })`.

    The locale's collation tables are not part of this model. The comparator
    is reduced to a collation key: whitespace, control characters and ASCII
    punctuation are ignored, ASCII letters compare without case, and every
    maximal run of decimal digits compares as one number, so "Park 2" sorts
    before "Park 10". Numbers sort before letters. Keys compare
    lexicographically, which makes `Leq` a total preorder on strings. */
module Collation {
  import opened Text

  datatype Token = Number(value: nat) | Letter(c: char)

  predicate IsDigit(c: char)
  {
    '0' <= c <= '9'
  }

  predicate IsAsciiAlphanumeric(c: char)
  {
    IsDigit(c) || 'a' <= c <= 'z' || 'A' <= c <= 'Z'
  }

  /** Characters that `ignorePunctuation` drops from the comparison: all
      whitespace and, in this model, every ASCII character that is neither a
      letter nor a digit, symbols such as `+` and `$` included. */
  predicate IsIgnorable(c: char)
  {
    IsWhitespace(c) || (c < '\U{0080}' && !IsAsciiAlphanumeric(c))
  }

  /** Length of the run of digits at the start of `s`. */
  function DigitRun(s: string): (n: nat)
    ensures n <= |s|
    ensures forall i :: 0 <= i < n ==> IsDigit(s[i])
    ensures n == |s| || !IsDigit(s[n])
  {
    if |s| > 0 && IsDigit(s[0]) then 1 + DigitRun(s[1..]) else 0
  }

  /** The decimal value of a string of digits. */
  function DigitsValue(d: string): nat
  {
    if |d| == 0 then 0
    else if IsDigit(d[|d| - 1]) then 10 * DigitsValue(d[..|d| - 1]) + (d[|d| - 1] as int - '0' as int)
    else 10 * DigitsValue(d[..|d| - 1])
  }

  function Key(s: string): seq<Token>
    decreases |s|
  {
    if |s| == 0 then []
    else if IsIgnorable(s[0]) then Key(s[1..])
    else if IsDigit(s[0]) then
      var n := DigitRun(s);
      [Number(DigitsValue(s[..n]))] + Key(s[n..])
    else [Letter(LowerChar(s[0]))] + Key(s[1..])
  }

  predicate TokenLess(a: Token, b: Token)
  {
    match (a, b)
    case (Number(x), Number(y)) => x < y
    case (Number(_), Letter(_)) => true
    case (Letter(_), Number(_)) => false
    case (Letter(c), Letter(d)) => c < d
  }

  /** Lexicographic order on keys; a proper prefix comes first. */
  predicate LexLeq(a: seq<Token>, b: seq<Token>)
  {
    |a| == 0 || (|b| > 0 && (TokenLess(a[0], b[0]) || (a[0] == b[0] && LexLeq(a[1..], b[1..]))))
  }

  /** `a.localeCompare(b, ...) <= 0`. */
  predicate Leq(a: string, b: string)
  {
    LexLeq(Key(a), Key(b))
  }

  /** `a.localeCompare(b, ...) === 0`. */
  predicate Equivalent(a: string, b: string)
  {
    Leq(a, b) && Leq(b, a)
  }

  lemma TokenTrichotomy(a: Token, b: Token)
    ensures TokenLess(a, b) || a == b || TokenLess(b, a)
    ensures !(TokenLess(a, b) && TokenLess(b, a))
    ensures !TokenLess(a, a)
  {
  }

  lemma {:induction false} LexReflexive(a: seq<Token>)
    ensures LexLeq(a, a)
    decreases |a|
  {
    if |a| > 0 {
      LexReflexive(a[1..]);
    }
  }

  lemma {:induction false} LexTotal(a: seq<Token>, b: seq<Token>)
    ensures LexLeq(a, b) || LexLeq(b, a)
    decreases |a|
  {
    if |a| > 0 && |b| > 0 {
      TokenTrichotomy(a[0], b[0]);
      LexTotal(a[1..], b[1..]);
    }
  }

  lemma {:induction false} LexTransitive(a: seq<Token>, b: seq<Token>, c: seq<Token>)
    requires LexLeq(a, b) && LexLeq(b, c)
    ensures LexLeq(a, c)
    decreases |a|
  {
    if |a| > 0 {
      if a[0] == b[0] && b[0] == c[0] {
        LexTransitive(a[1..], b[1..], c[1..]);
      }
    }
  }

  lemma {:induction false} LexAntisymmetric(a: seq<Token>, b: seq<Token>)
    requires LexLeq(a, b) && LexLeq(b, a)
    ensures a == b
    decreases |a|
  {
    if |a| > 0 {
      TokenTrichotomy(a[0], b[0]);
      LexAntisymmetric(a[1..], b[1..]);
      assert a == [a[0]] + a[1..];
      assert b == [b[0]] + b[1..];
    }
  }

  lemma LeqReflexive(a: string)
    ensures Leq(a, a)
  {
    LexReflexive(Key(a));
  }

  lemma LeqTotal(a: string, b: string)
    ensures Leq(a, b) || Leq(b, a)
  {
    LexTotal(Key(a), Key(b));
  }

  lemma LeqTransitive(a: string, b: string, c: string)
    requires Leq(a, b) && Leq(b, c)
    ensures Leq(a, c)
  {
    LexTransitive(Key(a), Key(b), Key(c));
  }

  /** Two names are equivalent exactly when they have the same collation key. */
  lemma EquivalentIffSameKey(a: string, b: string)
    ensures Equivalent(a, b) <==> Key(a) == Key(b)
  {
    if Key(a) == Key(b) {
      LexReflexive(Key(a));
    }
    if Equivalent(a, b) {
      LexAntisymmetric(Key(a), Key(b));
    }
  }

  lemma {:induction false} DigitRunLower(s: string)
    ensures DigitRun(Lower(s)) == DigitRun(s)
    decreases |s|
  {
    if |s| > 0 && IsDigit(s[0]) {
      assert Lower(s)[1..] == Lower(s[1..]);
      DigitRunLower(s[1..]);
    }
  }

  lemma {:induction false} KeyLower(s: string)
    ensures Key(Lower(s)) == Key(s)
    decreases |s|, 1
  {
    if |s| > 0 {
      if IsDigit(s[0]) {
        KeyLowerDigits(s);
      } else {
        KeyLowerOther(s);
      }
    }
  }

  lemma LowerSlices(s: string, n: nat)
    requires n <= |s|
    ensures Lower(s)[..n] == Lower(s[..n]) && Lower(s)[n..] == Lower(s[n..])
  {
  }

  lemma {:induction false} KeyLowerOther(s: string)
    requires |s| > 0 && !IsDigit(s[0])
    ensures Key(Lower(s)) == Key(s)
    decreases |s|, 0
  {
    LowerSlices(s, 1);
    KeyLower(s[1..]);
  }

  lemma {:induction false} KeyLowerDigits(s: string)
    requires |s| > 0 && IsDigit(s[0])
    ensures Key(Lower(s)) == Key(s)
    decreases |s|, 0
  {
    var n := DigitRun(s);
    DigitRunLower(s);
    LowerSlices(s, n);
    assert Lower(s[..n]) == s[..n];
    KeyLower(s[n..]);
    KeyDigitsUnfold(s);
    KeyDigitsUnfold(Lower(s));
  }

  /** `sensitivity: 'base'`: a name and its lower-case form are equivalent. */
  lemma CaseInsensitive(s: string)
    ensures Equivalent(s, Lower(s))
  {
    KeyLower(s);
    EquivalentIffSameKey(s, Lower(s));
  }

  lemma {:induction false} DigitRunConcat(p: string, q: string)
    requires |p| == 0 || |q| == 0 || !IsDigit(p[|p| - 1]) || !IsDigit(q[0])
    ensures DigitRun(p) < |p| ==> DigitRun(p + q) == DigitRun(p)
    ensures DigitRun(p) == |p| ==> DigitRun(p + q) == |p| + DigitRun(q)
    ensures DigitRun(p) == |p| && |p| > 0 ==> DigitRun(q) == 0
    decreases |p|
  {
    if |p| > 0 {
      assert (p + q)[0] == p[0];
      if IsDigit(p[0]) {
        assert (p + q)[1..] == p[1..] + q;
        DigitRunConcat(p[1..], q);
      }
    } else {
      assert p + q == q;
    }
  }

  /** Keys are computed piecewise, as long as the cut does not split a run of digits. */
  lemma {:induction false} KeyConcat(p: string, q: string)
    requires |p| == 0 || |q| == 0 || !IsDigit(p[|p| - 1]) || !IsDigit(q[0])
    ensures Key(p + q) == Key(p) + Key(q)
    decreases |p|, 1
  {
    if |p| == 0 {
      assert p + q == q;
    } else if IsDigit(p[0]) {
      KeyConcatDigits(p, q);
    } else {
      KeyConcatOther(p, q);
    }
  }

  lemma {:induction false} KeyConcatOther(p: string, q: string)
    requires |p| > 0 && !IsDigit(p[0])
    requires |q| == 0 || !IsDigit(p[|p| - 1]) || !IsDigit(q[0])
    ensures Key(p + q) == Key(p) + Key(q)
    decreases |p|, 0
  {
    var t := p + q;
    assert t[0] == p[0];
    assert t[1..] == p[1..] + q;
    KeyConcat(p[1..], q);
  }

  lemma {:induction false} KeyConcatDigits(p: string, q: string)
    requires |p| > 0 && IsDigit(p[0])
    requires |q| == 0 || !IsDigit(p[|p| - 1]) || !IsDigit(q[0])
    ensures Key(p + q) == Key(p) + Key(q)
    decreases |p|, 0
  {
    DigitRunConcat(p, q);
    if DigitRun(p) == |p| {
      KeyConcatWholeRun(p, q);
    } else {
      var rest := p[DigitRun(p)..];
      KeyConcat(rest, q);
      KeyDigitsSplit(p, q);
    }
  }

  /** `p` is all digits and `q` does not start with one. */
  lemma KeyConcatWholeRun(p: string, q: string)
    requires |p| > 0 && IsDigit(p[0]) && DigitRun(p) == |p|
    requires DigitRun(p + q) == |p|
    ensures Key(p + q) == Key(p) + Key(q)
  {
    var t := p + q;
    assert t[0] == p[0];
    assert t[..|p|] == p;
    assert t[|p|..] == q;
    assert p[|p|..] == [];
    assert p[..|p|] == p;
  }

  /** The digit run of `p` ends inside `p`, so it is the run of `p + q`,
      and what follows it splits as the rest of `p` and `q`. */
  lemma KeyDigitsSplit(p: string, q: string)
    requires |p| > 0 && IsDigit(p[0]) && DigitRun(p) < |p|
    requires DigitRun(p + q) == DigitRun(p)
    requires Key(p[DigitRun(p)..] + q) == Key(p[DigitRun(p)..]) + Key(q)
    ensures Key(p + q) == Key(p) + Key(q)
  {
    var n := DigitRun(p);
    ConcatSlices(p, q, n);
    KeyDigitsUnfold(p);
    KeyDigitsUnfold(p + q);
    Reassociate([Number(DigitsValue(p[..n]))], Key(p[n..]), Key(q));
  }

  lemma Reassociate<T>(a: seq<T>, b: seq<T>, c: seq<T>)
    ensures a + (b + c) == (a + b) + c
  {
  }

  /** A name that starts with a digit starts its key with the number its
      digit run spells. */
  lemma KeyDigitsUnfold(s: string)
    requires |s| > 0 && IsDigit(s[0])
    ensures Key(s) == [Number(DigitsValue(s[..DigitRun(s)]))] + Key(s[DigitRun(s)..])
  {
    assert !IsIgnorable(s[0]);
  }

  lemma ConcatSlices(p: string, q: string, n: nat)
    requires n <= |p|
    ensures (p + q)[..n] == p[..n] && (p + q)[n..] == p[n..] + q
    ensures n < |p| ==> (p + q)[n] == p[n]
  {
  }

  /** `ignorePunctuation: true`: inserting an ignorable character anywhere
      that does not split a number leaves the name equivalent. */
  lemma IgnorableInsertion(s: string, i: nat, c: char)
    requires i <= |s| && IsIgnorable(c)
    requires i == |s| || !IsDigit(s[i]) || i == 0 || !IsDigit(s[i - 1])
    ensures Key(s[..i] + [c] + s[i..]) == Key(s)
  {
    var p, q := s[..i], s[i..];
    assert s == p + q;
    assert s[..i] + [c] + s[i..] == p + ([c] + q);
    assert ([c] + q)[1..] == q;
    KeyConcat(p, [c] + q);
    KeyConcat(p, q);
  }

  lemma {:induction false} LexCommonPrefix(x: seq<Token>, a: seq<Token>, b: seq<Token>)
    ensures LexLeq(x + a, x + b) <==> LexLeq(a, b)
    decreases |x|
  {
    if |x| > 0 {
      TokenTrichotomy(x[0], x[0]);
      assert (x + a)[0] == x[0] && (x + b)[0] == x[0];
      assert (x + a)[1..] == x[1..] + a;
      assert (x + b)[1..] == x[1..] + b;
      LexCommonPrefix(x[1..], a, b);
    } else {
      assert x + a == a && x + b == b;
    }
  }

  lemma KeyOfSpacedNumber(s: string, d: char)
    requires s == [' ', d] && IsDigit(d)
    ensures Key(s) == [Number(d as int - '0' as int)]
  {
    var t := s[1..];
    assert t == [d];
    assert IsIgnorable(s[0]) && !IsIgnorable(d);
    assert Key(s) == Key(t);
    assert DigitRun(t) == 1;
    assert t[..1] == t && t[1..] == [];
    assert DigitsValue(t) == 10 * DigitsValue([]) + (d as int - '0' as int) by {
      assert t[..0] == [];
    }
    assert Key(t) == [Number(DigitsValue(t[..1]))] + Key(t[1..]);
  }

  lemma KeyOfSpacedTen()
    ensures Key(" 10") == [Number(10)]
  {
    var t := " 10"[1..];
    assert t == "10";
    assert DigitRun(t[1..]) == 1;
    assert DigitRun(t) == 2;
    assert t[..2] == t && t[2..] == [];
    assert t[..1] == "1";
    assert DigitsValue("1") == 1 by {
      assert "1"[..0] == [];
    }
    assert DigitsValue(t) == 10;
  }

  /** "Location 2" sorts strictly before "Location 10". */
  lemma NumericAware()
    ensures Leq("Location 2", "Location 10") && !Leq("Location 10", "Location 2")
  {
    var stem := "Location";
    assert "Location 2" == stem + " 2";
    assert "Location 10" == stem + " 10";
    KeyConcat(stem, " 2");
    KeyConcat(stem, " 10");
    KeyOfSpacedNumber(" 2", '2');
    KeyOfSpacedTen();
    LexCommonPrefix(Key(stem), [Number(2)], [Number(10)]);
    LexCommonPrefix(Key(stem), [Number(10)], [Number(2)]);
  }
}
