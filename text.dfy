/**
 * Character classes and the two scanning primitives the recognizers are
 * built from: a literal at a position, and the longest run of characters
 * of one class starting at a position.
 */
module Text {

  /** `[0-9]` */
  predicate IsDigit(c: char) { '0' <= c <= '9' }

  /** `[A-Z]` */
  predicate IsUpper(c: char) { 'A' <= c <= 'Z' }

  /** `[a-zA-Z0-9 !@#$%^&*)(]`, the characters a player nick may use. */
  predicate IsNickChar(c: char) {
    'a' <= c <= 'z' || 'A' <= c <= 'Z' || IsDigit(c) || c in " !@#$%^&*)("
  }

  /** The character classes the patterns repeat. */
  datatype Class = Digit | Upper | NickChar

  predicate In(c: char, k: Class) {
    match k
    case Digit => IsDigit(c)
    case Upper => IsUpper(c)
    case NickChar => IsNickChar(c)
  }

  predicate AllDigits(s: string) { forall k :: 0 <= k < |s| ==> IsDigit(s[k]) }

  predicate AllUpper(s: string) { forall k :: 0 <= k < |s| ==> IsUpper(s[k]) }

  predicate AllNickChars(s: string) { forall k :: 0 <= k < |s| ==> IsNickChar(s[k]) }

  /** The literal `lit` occurs in `s` starting at position `i`. */
  predicate At(s: string, i: nat, lit: string) {
    i + |lit| <= |s| && forall k :: 0 <= k < |lit| ==> s[i + k] == lit[k]
  }

  /** The first character of a literal found at `i` is the character at `i`. */
  lemma AtHead(s: string, i: nat, lit: string)
    requires At(s, i, lit) && |lit| > 0
    ensures s[i] == lit[0]
  {
    assert s[i + 0] == lit[0];
  }

  /** The characters found at `i` are the literal itself. */
  lemma AtSlice(s: string, i: nat, lit: string)
    requires At(s, i, lit)
    ensures s[i..i + |lit|] == lit
  {
    forall k | 0 <= k < |lit| ensures s[i..i + |lit|][k] == lit[k] {
      assert s[i + k] == lit[k];
    }
  }

  /** Length of the longest run of characters satisfying `p` that starts at `i`. */
  function Span(s: string, i: nat, p: Class): (n: nat)
    requires i <= |s|
    ensures i + n <= |s|
    decreases |s| - i
  {
    if i < |s| && In(s[i], p) then 1 + Span(s, i + 1, p) else 0
  }

  /** The run `Span` measures is all of class `p`, and the character after it is not. */
  lemma {:induction false} SpanIsMaximalRun(s: string, i: nat, p: Class)
    requires i <= |s|
    ensures forall k :: i <= k < i + Span(s, i, p) ==> In(s[k], p)
    ensures i + Span(s, i, p) == |s| || !In(s[i + Span(s, i, p)], p)
    decreases |s| - i
  {
    if i < |s| && In(s[i], p) {
      SpanIsMaximalRun(s, i + 1, p);
    }
  }

  /** The run `Span` measures, taken as a slice, is a string of its class. */
  lemma SpanSliceIsAll(s: string, i: nat, p: Class)
    requires i <= |s|
    ensures var t := s[i..i + Span(s, i, p)];
      (p == Digit ==> AllDigits(t)) && (p == Upper ==> AllUpper(t)) && (p == NickChar ==> AllNickChars(t))
  {
    SpanIsMaximalRun(s, i, p);
    var t := s[i..i + Span(s, i, p)];
    forall k | 0 <= k < |t| ensures In(t[k], p) {
      assert t[k] == s[i + k];
    }
  }

  /** A literal made of two parts occurs exactly when its parts occur one after the other. */
  lemma AtConcat(s: string, i: nat, x: string, y: string)
    ensures At(s, i, x + y) <==> At(s, i, x) && At(s, i + |x|, y)
  {
    if At(s, i, x) && At(s, i + |x|, y) {
      forall k | 0 <= k < |x + y| ensures s[i + k] == (x + y)[k] {
        if k >= |x| {
          assert s[i + |x| + (k - |x|)] == y[k - |x|];
        }
      }
    }
    if At(s, i, x + y) {
      forall k | 0 <= k < |x| ensures s[i + k] == x[k] {
        assert s[i + k] == (x + y)[k];
      }
      forall k | 0 <= k < |y| ensures s[i + |x| + k] == y[k] {
        assert s[i + (|x| + k)] == (x + y)[|x| + k];
      }
    }
  }

  /** A literal at the very start of `s` is a prefix of `s`. */
  lemma AtZeroIsPrefix(s: string, t: string)
    ensures At(s, 0, t) <==> t <= s
  {
    if At(s, 0, t) {
      forall k | 0 <= k < |t| ensures s[k] == t[k] {
        assert s[0 + k] == t[k];
      }
    }
  }

  /**
   * When the characters at `i` are exactly `x`, all of class `p`, and the
   * character right after them is not of class `p`, the run starting at `i`
   * is `x` itself.
   */
  lemma {:induction false} SpanOfRun(s: string, i: nat, x: string, p: Class)
    requires At(s, i, x)
    requires forall k :: 0 <= k < |x| ==> In(x[k], p)
    requires i + |x| < |s| && !In(s[i + |x|], p)
    ensures Span(s, i, p) == |x|
    decreases |x|
  {
    if |x| > 0 {
      AtHead(s, i, x);
      assert At(s, i + 1, x[1..]) by {
        forall k | 0 <= k < |x[1..]| ensures s[i + 1 + k] == x[1..][k] {
          assert s[i + (k + 1)] == x[k + 1];
        }
      }
      SpanOfRun(s, i + 1, x[1..], p);
    }
  }

  /** A run of class `p` at `i` lies within the longest such run there. */
  lemma {:induction false} SpanCoversRun(s: string, i: nat, x: string, p: Class)
    requires At(s, i, x)
    requires forall k :: 0 <= k < |x| ==> In(x[k], p)
    ensures |x| <= Span(s, i, p)
    decreases |x|
  {
    if |x| > 0 {
      AtHead(s, i, x);
      assert At(s, i + 1, x[1..]) by {
        forall k | 0 <= k < |x[1..]| ensures s[i + 1 + k] == x[1..][k] {
          assert s[i + (k + 1)] == x[k + 1];
        }
      }
      SpanCoversRun(s, i + 1, x[1..], p);
    }
  }

  /** Where one text is, no text that differs from it at some position is. */
  lemma AtExcludes(s: string, i: nat, x: string, y: string, k: nat)
    requires At(s, i, x) && k < |x| && k < |y| && x[k] != y[k]
    ensures !At(s, i, y)
  {
    assert s[i + k] == x[k];
  }

  /** A run of class `p` from `i` stops at the first position `j` whose character is not in `p`. */
  lemma {:induction false} SpanStopsAt(s: string, i: nat, p: Class, j: nat)
    requires i <= j < |s| && !In(s[j], p)
    ensures i + Span(s, i, p) <= j
    decreases j - i
  {
    if i < j && In(s[i], p) {
      SpanStopsAt(s, i + 1, p, j);
    }
  }

  /** A slice of the text is found where it was taken. */
  lemma SliceAt(s: string, i: nat, j: nat)
    requires i <= j <= |s|
    ensures At(s, i, s[i..j])
  {
  }
}
