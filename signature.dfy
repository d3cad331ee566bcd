/**
 * The anagram signature of a word: `"".join(sorted(word))`, its characters
 * in ascending code-point order. Two words are anagrams of each other
 * exactly when their signatures are equal.
 */
module Signature {

  predicate Sorted(s: string) {
    forall i, j :: 0 <= i < j < |s| ==> s[i] <= s[j]
  }

  /** Puts `c` into the sorted string `s` before the first character not smaller than it. */
  function InsertChar(c: char, s: string): (r: string)
    requires Sorted(s)
    ensures Sorted(r)
    ensures multiset(r) == multiset(s) + multiset{c}
  {
    if s == [] || c <= s[0] then
      ConsSorted(c, s);
      [c] + s
    else
      SortedTail(s);
      var rest := InsertChar(c, s[1..]);
      HeadBelowInsert(c, s, rest);
      ConsSorted(s[0], rest);
      assert s == [s[0]] + s[1..];
      [s[0]] + rest
  }

  /** A character no greater than any of a sorted string's can go in front of it. */
  lemma ConsSorted(c: char, s: string)
    requires Sorted(s) && forall k :: 0 <= k < |s| ==> c <= s[k]
    ensures Sorted([c] + s)
  {
  }

  /** The head of a sorted string is below everything its tail becomes by an insertion of a larger `c`. */
  lemma HeadBelowInsert(c: char, s: string, rest: string)
    requires Sorted(s) && s != [] && s[0] < c
    requires multiset(rest) == multiset(s[1..]) + multiset{c}
    ensures forall k :: 0 <= k < |rest| ==> s[0] <= rest[k]
  {
    forall k | 0 <= k < |rest| ensures s[0] <= rest[k] {
      assert rest[k] in multiset(rest);
      if rest[k] != c {
        assert rest[k] in multiset(s[1..]);
        assert rest[k] in s[1..];
      }
    }
  }

  /** The signature of `w`: the characters of `w` in sorted order. */
  function Sig(w: string): (r: string)
    ensures Sorted(r)
    ensures multiset(r) == multiset(w)
  {
    if w == [] then
      []
    else
      assert w == [w[0]] + w[1..];
      InsertChar(w[0], Sig(w[1..]))
  }

  /** The first character of a sorted string is its smallest. */
  lemma SortedHeadIsLeast(x: string, c: char)
    requires Sorted(x) && c in multiset(x)
    ensures x[0] <= c
  {
    assert c in x;
  }

  lemma SortedTail(x: string)
    requires Sorted(x) && x != []
    ensures Sorted(x[1..])
  {
  }

  lemma HeadTailMultiset(x: string)
    requires x != []
    ensures multiset(x[1..]) == multiset(x) - multiset{x[0]}
  {
    assert x == [x[0]] + x[1..];
  }

  /** Two sorted strings with the same characters are the same string. */
  lemma {:induction false} SortedUnique(x: string, y: string)
    requires Sorted(x) && Sorted(y)
    requires multiset(x) == multiset(y)
    ensures x == y
    decreases |x|
  {
    if x != [] && y != [] {
      SortedHeadsAgree(x, y);
      HeadTailMultiset(x);
      HeadTailMultiset(y);
      SortedTail(x);
      SortedTail(y);
      SortedUnique(x[1..], y[1..]);
      assert x == [x[0]] + x[1..] && y == [y[0]] + y[1..];
    } else {
      assert |multiset(y)| == |multiset(x)|;
    }
  }

  /** Sorted strings with the same characters start with the same one. */
  lemma SortedHeadsAgree(x: string, y: string)
    requires Sorted(x) && Sorted(y) && x != [] && y != []
    requires multiset(x) == multiset(y)
    ensures x[0] == y[0]
  {
    assert x[0] in multiset(x) && y[0] in multiset(y);
    SortedHeadIsLeast(x, y[0]);
    SortedHeadIsLeast(y, x[0]);
  }

  /** Words with the same characters (anagrams) have the same signature. */
  lemma SigOfPermutation(a: string, b: string)
    requires multiset(a) == multiset(b)
    ensures Sig(a) == Sig(b)
  {
    SortedUnique(Sig(a), Sig(b));
  }

  /** The signature decides anagram-ness in both directions. */
  lemma SigEqualIffAnagrams(a: string, b: string)
    ensures Sig(a) == Sig(b) <==> multiset(a) == multiset(b)
  {
    if multiset(a) == multiset(b) {
      SigOfPermutation(a, b);
    }
  }

  /** A signature is its own signature. */
  lemma SigIdempotent(w: string)
    ensures Sig(Sig(w)) == Sig(w)
  {
    SortedUnique(Sig(Sig(w)), Sig(w));
  }
}
