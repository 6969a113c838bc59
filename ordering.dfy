/**
 * Lexicographic orders on strings, and an insertion sort proved to give the
 * one sorted permutation of its input. Two collations are used: Python's
 * `str` order compares code points; the monitor client's `localeCompare`
 * follows the root collation, in which the punctuation mark `_` ranks below
 * the digits.
 */
module Ordering {

  datatype Collation =
    /** Python's `str` comparison: code point by code point. */
    | CodePoint
    /**
     * `localeCompare` as far as the model follows it: `_` ranks below every
     * other character, and the other characters keep their code point order.
     */
    | RootLocale

  /** The place of `c` in the collation `o`: equal ranks only for equal characters. */
  function Rank(o: Collation, c: char): int {
    if o == RootLocale && c == '_' then -1 else c as int
  }

  /** `a <= b` under `o`, comparing characters from the left; a proper prefix comes first. */
  predicate LexLe(o: Collation, a: string, b: string) {
    a == [] || (b != [] && (Rank(o, a[0]) < Rank(o, b[0]) || (a[0] == b[0] && LexLe(o, a[1..], b[1..]))))
  }

  lemma {:induction false} LexLeReflexive(o: Collation, a: string)
    ensures LexLe(o, a, a)
  {
    if a != [] {
      LexLeReflexive(o, a[1..]);
    }
  }

  lemma {:induction false} LexLeTotal(o: Collation, a: string, b: string)
    ensures LexLe(o, a, b) || LexLe(o, b, a)
  {
    if a != [] && b != [] && a[0] == b[0] {
      LexLeTotal(o, a[1..], b[1..]);
    }
  }

  lemma {:induction false} LexLeTrans(o: Collation, a: string, b: string, c: string)
    requires LexLe(o, a, b) && LexLe(o, b, c)
    ensures LexLe(o, a, c)
  {
    if a != [] && b != [] && c != [] && a[0] == b[0] && b[0] == c[0] {
      LexLeTrans(o, a[1..], b[1..], c[1..]);
    }
  }

  lemma {:induction false} LexLeAntisymmetric(o: Collation, a: string, b: string)
    requires LexLe(o, a, b) && LexLe(o, b, a)
    ensures a == b
  {
    if a != [] && b != [] {
      LexLeAntisymmetric(o, a[1..], b[1..]);
      assert a == [a[0]] + a[1..] && b == [b[0]] + b[1..];
    }
  }

  /** A common prefix does not change the order. */
  lemma {:induction false} LexLePrefix(o: Collation, p: string, x: string, y: string)
    ensures LexLe(o, p + x, p + y) <==> LexLe(o, x, y)
  {
    if p != [] {
      LexLePrefix(o, p[1..], x, y);
      assert (p + x)[1..] == p[1..] + x && (p + y)[1..] == p[1..] + y;
      assert (p + x)[0] == p[0] == (p + y)[0];
    } else {
      assert p + x == x && p + y == y;
    }
  }

  predicate Ascending(o: Collation, s: seq<string>) {
    forall i, j :: 0 <= i < j < |s| ==> LexLe(o, s[i], s[j])
  }

  predicate Descending(o: Collation, s: seq<string>) {
    forall i, j :: 0 <= i < j < |s| ==> LexLe(o, s[j], s[i])
  }

  /** `x` placed before the first element it does not follow. */
  function Insert(o: Collation, x: string, s: seq<string>): (r: seq<string>)
    ensures multiset(r) == multiset(s) + multiset{x}
    ensures |r| == |s| + 1
  {
    if s == [] then [x]
    else if LexLe(o, x, s[0]) then [x] + s
    else
      assert s == [s[0]] + s[1..];
      [s[0]] + Insert(o, x, s[1..])
  }

  lemma {:induction false} InsertAscending(o: Collation, x: string, s: seq<string>)
    requires Ascending(o, s)
    ensures Ascending(o, Insert(o, x, s))
  {
    if s != [] && !LexLe(o, x, s[0]) {
      InsertAscending(o, x, s[1..]);
      LexLeTotal(o, x, s[0]);
      InsertAbove(o, x, s);
      var r := Insert(o, x, s[1..]);
      forall i, j | 0 <= i < j < |r| + 1 ensures LexLe(o, ([s[0]] + r)[i], ([s[0]] + r)[j]) {
        if i == 0 {
          assert r[j - 1] in r;
        }
      }
    } else if s != [] {
      forall j | 1 <= j < |s| ensures LexLe(o, x, s[j]) {
        LexLeTrans(o, x, s[0], s[j]);
      }
    }
  }

  /** Inserting above the head keeps every element of the tail's insertion above the head. */
  lemma InsertAbove(o: Collation, x: string, s: seq<string>)
    requires s != [] && Ascending(o, s) && LexLe(o, s[0], x)
    ensures forall y :: y in Insert(o, x, s[1..]) ==> LexLe(o, s[0], y)
  {
    forall y | y in Insert(o, x, s[1..]) ensures LexLe(o, s[0], y) {
      assert y in multiset(Insert(o, x, s[1..]));
      if y != x {
        assert y in multiset(s[1..]);
        var j :| 0 <= j < |s[1..]| && s[1..][j] == y;
        assert s[j + 1] == y;
      }
    }
  }

  /** Insertion sort, ascending. */
  function Sort(o: Collation, s: seq<string>): (r: seq<string>)
    ensures multiset(r) == multiset(s) && |r| == |s|
  {
    if s == [] then []
    else
      assert s == [s[0]] + s[1..];
      Insert(o, s[0], Sort(o, s[1..]))
  }

  lemma {:induction false} SortAscending(o: Collation, s: seq<string>)
    ensures Ascending(o, Sort(o, s))
  {
    if s != [] {
      SortAscending(o, s[1..]);
      InsertAscending(o, s[0], Sort(o, s[1..]));
    }
  }

  /** Two non-empty ascending arrangements of the same strings start with the same string. */
  lemma AscendingHeads(o: Collation, a: seq<string>, b: seq<string>)
    requires Ascending(o, a) && Ascending(o, b) && multiset(a) == multiset(b) && a != [] && b != []
    ensures a[0] == b[0]
  {
    assert a[0] in multiset(b);
    var j :| 0 <= j < |b| && b[j] == a[0];
    assert b[0] in multiset(a);
    var i :| 0 <= i < |a| && a[i] == b[0];
    LexLeReflexive(o, a[0]);
    LexLeReflexive(o, b[0]);
    assert LexLe(o, b[0], a[0]) by { if j > 0 { assert LexLe(o, b[0], b[j]); } }
    assert LexLe(o, a[0], b[0]) by { if i > 0 { assert LexLe(o, a[0], a[i]); } }
    LexLeAntisymmetric(o, a[0], b[0]);
  }

  lemma Tails(o: Collation, a: seq<string>)
    requires a != []
    ensures multiset(a[1..]) == multiset(a) - multiset{a[0]}
    ensures Ascending(o, a) ==> Ascending(o, a[1..])
  {
    assert a == [a[0]] + a[1..];
  }

  /** Two ascending arrangements of the same strings are the same sequence. */
  lemma {:induction false} AscendingUnique(o: Collation, a: seq<string>, b: seq<string>)
    requires Ascending(o, a) && Ascending(o, b) && multiset(a) == multiset(b)
    ensures a == b
  {
    if a == [] {
      assert |b| == |multiset(b)| == 0;
    } else {
      assert |b| == |multiset(b)| == |a| > 0;
      AscendingHeads(o, a, b);
      Tails(o, a);
      Tails(o, b);
      AscendingUnique(o, a[1..], b[1..]);
      assert a == [a[0]] + a[1..] && b == [b[0]] + b[1..];
    }
  }

  function Reverse(s: seq<string>): (r: seq<string>)
    ensures |r| == |s| && forall i :: 0 <= i < |s| ==> r[i] == s[|s| - 1 - i]
  {
    if s == [] then [] else Reverse(s[1..]) + [s[0]]
  }

  lemma {:induction false} ReverseMultiset(s: seq<string>)
    ensures multiset(Reverse(s)) == multiset(s)
  {
    if s != [] {
      ReverseMultiset(s[1..]);
      assert s == [s[0]] + s[1..];
    }
  }

  lemma ReverseMembers(s: seq<string>)
    ensures forall k :: k in Reverse(s) <==> k in s
  {
    forall k ensures k in Reverse(s) <==> k in s {
      assert k in Reverse(s) <==> k in multiset(Reverse(s));
      ReverseMultiset(s);
    }
  }

  /** Sorted newest-first: `keys.sort((a, b) => b.localeCompare(a))`. */
  function SortDescending(o: Collation, s: seq<string>): seq<string> {
    Reverse(Sort(o, s))
  }

  /** The ascending sort of two strings. */
  lemma SortTwo(o: Collation, a: string, b: string)
    ensures Sort(o, [a, b]) == if LexLe(o, a, b) then [a, b] else [b, a]
  {
    assert [a, b][0] == a && [a, b][1..] == [b];
    assert Sort(o, [b]) == [b] by {
      assert [b][0] == b && [b][1..] == [];
    }
    InsertOne(o, a, b);
  }

  lemma InsertOne(o: Collation, a: string, b: string)
    ensures Insert(o, a, [b]) == if LexLe(o, a, b) then [a, b] else [b, a]
  {
    assert [b][0] == b && [b][1..] == [];
  }

  lemma ReverseTwo(a: string, b: string)
    ensures Reverse([a, b]) == [b, a]
  {
    assert [a, b][1..] == [b];
    assert Reverse([b]) == [b];
  }

  /** The descending sort of two strings. */
  lemma TwoSorted(o: Collation, a: string, b: string)
    ensures SortDescending(o, [a, b]) == if LexLe(o, a, b) then [b, a] else [a, b]
  {
    SortTwo(o, a, b);
    if LexLe(o, a, b) {
      ReverseTwo(a, b);
    } else {
      ReverseTwo(b, a);
    }
  }

  lemma ReverseReverse(s: seq<string>)
    ensures Reverse(Reverse(s)) == s
  {
  }

  lemma ReverseOrder(o: Collation, s: seq<string>)
    ensures Ascending(o, s) <==> Descending(o, Reverse(s))
  {
    var r := Reverse(s);
    if Descending(o, r) {
      forall i, j | 0 <= i < j < |s| ensures LexLe(o, s[i], s[j]) {
        assert s[i] == r[|s| - 1 - i] && s[j] == r[|s| - 1 - j];
      }
    }
  }

  /** The descending sort is descending, keeps exactly its input, and is the only such arrangement. */
  lemma SortDescendingCorrect(o: Collation, s: seq<string>)
    ensures Descending(o, SortDescending(o, s)) && multiset(SortDescending(o, s)) == multiset(s)
    ensures forall t :: Descending(o, t) && multiset(t) == multiset(s) ==> t == SortDescending(o, s)
  {
    SortAscending(o, s);
    ReverseOrder(o, Sort(o, s));
    ReverseMultiset(Sort(o, s));
    forall t | Descending(o, t) && multiset(t) == multiset(s) ensures t == SortDescending(o, s) {
      DescendingUnique(o, t, s);
    }
  }

  lemma DescendingUnique(o: Collation, t: seq<string>, s: seq<string>)
    requires Descending(o, t) && multiset(t) == multiset(s)
    ensures t == SortDescending(o, s)
  {
    var u := Reverse(t);
    ReverseReverse(t);
    ReverseOrder(o, u);
    ReverseMultiset(u);
    SortAscending(o, s);
    AscendingUnique(o, u, Sort(o, s));
  }

  /** No string occurs twice. */
  predicate Distinct(s: seq<string>) {
    forall i, j :: 0 <= i < j < |s| ==> s[i] != s[j]
  }

  lemma {:induction false} InsertDistinct(o: Collation, x: string, s: seq<string>)
    requires Distinct(s) && x !in s
    ensures Distinct(Insert(o, x, s))
  {
    if s != [] && !LexLe(o, x, s[0]) {
      assert s == [s[0]] + s[1..];
      InsertDistinct(o, x, s[1..]);
      assert s[0] !in multiset(s[1..]);
      assert s[0] !in multiset(Insert(o, x, s[1..]));
    }
  }

  /** Sorting strings that are all different gives strings that are all different. */
  lemma {:induction false} SortDistinct(o: Collation, s: seq<string>)
    requires Distinct(s)
    ensures Distinct(Sort(o, s))
  {
    if s != [] {
      assert s == [s[0]] + s[1..];
      SortDistinct(o, s[1..]);
      assert s[0] !in multiset(s[1..]);
      assert s[0] !in multiset(Sort(o, s[1..]));
      InsertDistinct(o, s[0], Sort(o, s[1..]));
    }
  }

  lemma ReverseDistinct(s: seq<string>)
    requires Distinct(s)
    ensures Distinct(Reverse(s))
  {
    var r := Reverse(s);
    forall i, j | 0 <= i < j < |r| ensures r[i] != r[j] {
      assert r[i] == s[|s| - 1 - i] && r[j] == s[|s| - 1 - j];
    }
  }
}
