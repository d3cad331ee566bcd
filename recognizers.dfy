/**
 * The four fixed recognizers of the trivia bot (`PATTERNS`) and the
 * first-match dispatch over them.
 *
 * Each recognizer is a hand-written matcher that behaves as Python's
 * `re.match` does on its pattern: anchored at the start of the text, text
 * after the match ignored, greedy repetition with backtracking. Beside each
 * matcher sits a render function that builds the texts the pattern
 * describes from their parts; the lemmas show that a matcher succeeds on a
 * text exactly when the text starts with a rendering of valid parts, and
 * that it returns those parts' captures.
 */
module Recognizers {
  import opened Wrappers
  import opened Text

  /** A successful match: the recognizer that matched and its named groups. */
  datatype Capture =
    | Numbers(num1: string, op: char, num2: string)
    | Anagrams(anagram: string)
    | NoOne(newWord: string)
    | OtherUser(nick: string, newWord: string)

  /** The keys of `PATTERNS`. */
  datatype Pattern = NumbersPattern | AnagramsPattern | NoOnePattern | OtherUserPattern

  /** The keys of `PATTERNS` in the order the dispatch loop tries them. */
  const Patterns: seq<Pattern> := [NumbersPattern, AnagramsPattern, NoOnePattern, OtherUserPattern]

  function KindOf(c: Capture): Pattern {
    match c
    case Numbers(_, _, _) => NumbersPattern
    case Anagrams(_) => AnagramsPattern
    case NoOne(_) => NoOnePattern
    case OtherUser(_, _) => OtherUserPattern
  }

  // The fixed text of the patterns.
  const QuestionLit := "Question "
  const OfLit := " of "
  const MathLit := " Mathematics: What is "
  const WordIsLit := " The word is: "
  const NoOneLit := "No one got that"
  const AnswerIsLit := " The correct answer is '"
  const GotLit := " got the correct answer '"
  const InLit := " in "
  const SecondsLit := " seconds"

  // ---------------------------------------------------------------------
  // Valid parts

  /** `[0-9]{1,2}`, `[0-9]{2}` and the unescaped `.` (any character but a newline). */
  predicate ValidQuestion(q: string, m: string, c: char) {
    1 <= |q| <= 2 && AllDigits(q) && |m| == 2 && AllDigits(m) && c != '\n'
  }

  /** `[0-9]{1,4}`, `[-+/x]{1}`, `[0-9]{1,4}` */
  predicate ValidNumbers(a: string, op: char, b: string) {
    1 <= |a| <= 4 && AllDigits(a) && op in "-+/x" && 1 <= |b| <= 4 && AllDigits(b)
  }

  /** `( [A-Z])*`: space-letter pairs. */
  predicate IsGroups(g: string) {
    |g| == 0 || (2 <= |g| && g[0] == ' ' && IsUpper(g[1]) && IsGroups(g[2..]))
  }

  /** The most space-letter groups an anagram may have after its first letter. */
  const MaxGroups: nat := 10

  /** `[A-Z]{1}( [A-Z]){0,10}`: one letter, then up to ten space-letter groups. */
  predicate ValidLetters(x: string) {
    1 <= |x| <= 1 + 2 * MaxGroups && IsUpper(x[0]) && IsGroups(x[1..])
  }

  /** `[A-Z]{1,10}` */
  predicate ValidWord(w: string) {
    1 <= |w| <= 10 && AllUpper(w)
  }

  /** `[a-zA-Z0-9 !@#$%^&*)(]{2,50}` */
  predicate ValidNick(n: string) {
    2 <= |n| <= 50 && AllNickChars(n)
  }

  /** `[0-9]{1,3}` */
  predicate ValidSeconds(d: string) {
    1 <= |d| <= 3 && AllDigits(d)
  }

  // ---------------------------------------------------------------------
  // The texts each pattern describes

  function QuestionText(q: string, m: string, c: char): string {
    QuestionLit + q + OfLit + m + [c]
  }

  function ExpressionText(a: string, op: char, b: string): string {
    a + " " + [op] + " " + b + " ="
  }

  function NumbersText(q: string, m: string, c: char, a: string, op: char, b: string): string {
    QuestionText(q, m, c) + MathLit + ExpressionText(a, op, b)
  }

  function AnagramsText(q: string, m: string, c: char, x: string): string {
    QuestionText(q, m, c) + WordIsLit + x
  }

  /** A word and its closing quote. */
  function QuotedText(w: string): string {
    w + "'"
  }

  function NoOneText(c: char, w: string): string {
    NoOneLit + [c] + AnswerIsLit + QuotedText(w)
  }

  function SecondsText(d: string): string {
    InLit + d + SecondsLit
  }

  /** Everything after the nick in an `other_user` reveal. */
  function RevealText(w: string, d: string): string {
    GotLit + QuotedText(w) + SecondsText(d)
  }

  function OtherUserText(n: string, w: string, d: string): string {
    n + RevealText(w, d)
  }

  /** No further ` [A-Z]` group follows the letters ending at `e` (the greedy group stopped there). */
  predicate GroupsEndAt(s: string, e: nat, x: string) {
    |x| == 1 + 2 * MaxGroups || !(e + 2 <= |s| && s[e] == ' ' && IsUpper(s[e + 1]))
  }

  /** `s` starts with a `numbers` question with these parts. */
  predicate NumbersAt(s: string, q: string, m: string, c: char, a: string, op: char, b: string) {
    ValidQuestion(q, m, c) && ValidNumbers(a, op, b) && At(s, 0, NumbersText(q, m, c, a, op, b))
  }

  /** `s` starts with an `anagrams` question with these parts, the letters taken greedily. */
  predicate AnagramsAt(s: string, q: string, m: string, c: char, x: string) {
    ValidQuestion(q, m, c) && ValidLetters(x) && At(s, 0, AnagramsText(q, m, c, x)) &&
    GroupsEndAt(s, |AnagramsText(q, m, c, x)|, x)
  }

  /** `s` starts with a `no_one` reveal with these parts. */
  predicate NoOneAt(s: string, c: char, w: string) {
    c != '\n' && ValidWord(w) && At(s, 0, NoOneText(c, w))
  }

  /** `s` starts with an `other_user` reveal with these parts. */
  predicate OtherUserAt(s: string, n: string, w: string, d: string) {
    ValidNick(n) && ValidWord(w) && ValidSeconds(d) && At(s, 0, OtherUserText(n, w, d))
  }

  // ---------------------------------------------------------------------
  // Matchers

  /** `Question [0-9]{1,2} of [0-9]{2}.`: the position right after it. */
  function MatchQuestion(s: string): (r: Option<nat>)
    ensures r.Some? ==> r.value <= |s|
  {
    if !At(s, 0, QuestionLit) then None
    else
      var d := Span(s, |QuestionLit|, Digit);
      var j := |QuestionLit| + d + |OfLit|;
      if 1 <= d <= 2 && At(s, |QuestionLit| + d, OfLit) && j + 3 <= |s| &&
         IsDigit(s[j]) && IsDigit(s[j + 1]) && s[j + 2] != '\n'
      then Some(j + 3)
      else None
  }

  /** The header text occurs exactly when its five parts occur one after the other. */
  lemma QuestionParts(s: string, q: string, m: string, c: char)
    ensures var j := |QuestionLit| + |q| + |OfLit|;
      At(s, 0, QuestionText(q, m, c)) <==>
      At(s, 0, QuestionLit) && At(s, |QuestionLit|, q) && At(s, |QuestionLit| + |q|, OfLit) &&
      At(s, j, m) && At(s, j + |m|, [c])
  {
    AtConcat(s, 0, QuestionLit + q + OfLit + m, [c]);
    AtConcat(s, 0, QuestionLit + q + OfLit, m);
    AtConcat(s, 0, QuestionLit + q, OfLit);
    AtConcat(s, 0, QuestionLit, q);
  }

  /** The question header is recognised exactly when the text starts with one. */
  lemma QuestionComplete(s: string, q: string, m: string, c: char)
    requires ValidQuestion(q, m, c) && At(s, 0, QuestionText(q, m, c))
    ensures MatchQuestion(s) == Some(|QuestionText(q, m, c)|)
  {
    var j := |QuestionLit| + |q| + |OfLit|;
    assert At(s, 0, QuestionLit) && At(s, |QuestionLit|, q) && At(s, |QuestionLit| + |q|, OfLit) &&
      At(s, j, m) && At(s, j + 2, [c]) by {
      QuestionParts(s, q, m, c);
    }
    assert s[|QuestionLit| + |q|] == OfLit[0] by {
      AtHead(s, |QuestionLit| + |q|, OfLit);
    }
    SpanOfRun(s, |QuestionLit|, q, Digit);
    assert s[j + 0] == m[0] && s[j + 1] == m[1];
    AtHead(s, j + 2, [c]);
  }

  /** The parts of a recognised question header. */
  lemma QuestionSound(s: string) returns (q: string, m: string, c: char)
    requires MatchQuestion(s).Some?
    ensures ValidQuestion(q, m, c) && At(s, 0, QuestionText(q, m, c))
    ensures MatchQuestion(s).value == |QuestionText(q, m, c)|
  {
    var d := Span(s, |QuestionLit|, Digit);
    var j := |QuestionLit| + d + |OfLit|;
    SpanIsMaximalRun(s, |QuestionLit|, Digit);
    q, m, c := s[|QuestionLit|..|QuestionLit| + d], s[j..j + 2], s[j + 2];
    assert At(s, |QuestionLit|, q) && At(s, j, m) && At(s, j + 2, [c]) by {
      SliceAt(s, |QuestionLit|, |QuestionLit| + d);
      SliceAt(s, j, j + 2);
    }
    QuestionParts(s, q, m, c);
  }

  /** `numbers`: the question header, then ` Mathematics: What is ` and the expression. */
  function MatchNumbers(s: string): (r: Option<Capture>)
    ensures r.Some? ==> r.value.Numbers?
  {
    match MatchQuestion(s)
    case None => None
    case Some(h) => if At(s, h, MathLit) then MatchExpression(s, h + |MathLit|) else None
  }

  /** `(?P<num1>[0-9]{1,4}) (?P<op>[-+/x]{1}) (?P<num2>[0-9]{1,4}) =` at position `i`. */
  function MatchExpression(s: string, i: nat): (r: Option<Capture>)
    requires i <= |s|
    ensures r.Some? ==> r.value.Numbers?
  {
    var a := Span(s, i, Digit);
    var o := i + a + 1;
    if 1 <= a <= 4 && At(s, i + a, " ") && o < |s| && s[o] in "-+/x" && At(s, o + 1, " ") then
      var j := o + 2;
      var b := Span(s, j, Digit);
      if 1 <= b <= 4 && At(s, j + b, " =") then
        Some(Numbers(s[i..i + a], s[o], s[j..j + b]))
      else None
    else None
  }

  /** After a recognised header and ` Mathematics: What is `, the expression decides the match. */
  lemma NumbersAfterHeader(s: string, h: nat)
    requires MatchQuestion(s) == Some(h) && At(s, h, MathLit)
    ensures MatchNumbers(s) == MatchExpression(s, h + |MathLit|)
  {
  }

  /** The expression text occurs exactly when its six parts occur one after the other. */
  lemma ExpressionParts(s: string, i: nat, a: string, op: char, b: string)
    ensures At(s, i, ExpressionText(a, op, b)) <==>
      At(s, i, a) && At(s, i + |a|, " ") && At(s, i + |a| + 1, [op]) &&
      At(s, i + |a| + 2, " ") && At(s, i + |a| + 3, b) && At(s, i + |a| + 3 + |b|, " =")
  {
    AtConcat(s, i, a + " " + [op] + " " + b, " =");
    AtConcat(s, i, a + " " + [op] + " ", b);
    AtConcat(s, i, a + " " + [op], " ");
    AtConcat(s, i, a + " ", [op]);
    AtConcat(s, i, a, " ");
  }

  /** An expression with valid operands and operator is recognised, with those captures. */
  lemma ExpressionComplete(s: string, i: nat, a: string, op: char, b: string)
    requires ValidNumbers(a, op, b)
    requires At(s, i, ExpressionText(a, op, b))
    ensures MatchExpression(s, i) == Some(Numbers(a, op, b))
  {
    var o := i + |a| + 1;
    var j := o + 2;
    ExpressionParts(s, i, a, op, b);
    AtHead(s, i + |a|, " ");
    SpanOfRun(s, i, a, Digit);
    AtHead(s, o, [op]);
    AtHead(s, j + |b|, " =");
    SpanOfRun(s, j, b, Digit);
    AtSlice(s, i, a);
    AtSlice(s, j, b);
    assert MatchExpression(s, i).Some?;
  }

  /** A text that starts with a `numbers` question is recognised, with its operands and operator. */
  lemma NumbersComplete(s: string, q: string, m: string, c: char, a: string, op: char, b: string)
    requires NumbersAt(s, q, m, c, a, op, b)
    ensures MatchNumbers(s) == Some(Numbers(a, op, b))
  {
    var h := QuestionText(q, m, c);
    var tail := ExpressionText(a, op, b);
    assert At(s, 0, h) && At(s, |h|, MathLit) && At(s, |h| + |MathLit|, tail) by {
      AtConcat(s, 0, h + MathLit, tail);
      AtConcat(s, 0, h, MathLit);
    }
    QuestionComplete(s, q, m, c);
    var i := |h| + |MathLit|;
    NumbersAfterHeader(s, |h|);
    ExpressionComplete(s, i, a, op, b);
  }

  /** What a recognised expression consists of: its two digit runs, the operator between them and the spaces. */
  lemma ExpressionCaptures(s: string, i: nat, a: string, op: char, b: string) returns (n: nat, m: nat)
    requires i <= |s| && MatchExpression(s, i) == Some(Numbers(a, op, b))
    ensures n == Span(s, i, Digit) && m == Span(s, i + n + 3, Digit)
    ensures i + n + 3 + m <= |s| && a == s[i..i + n] && op == s[i + n + 1] && b == s[i + n + 3..i + n + 3 + m]
    ensures 1 <= n <= 4 && At(s, i + n, " ") && op in "-+/x" && At(s, i + n + 2, " ")
    ensures 1 <= m <= 4 && At(s, i + n + 3 + m, " =")
  {
    n := Span(s, i, Digit);
    m := Span(s, i + n + 3, Digit);
  }

  /** Digit runs of one to four characters around a spaced operator and before ` =` form an expression. */
  lemma ExpressionFromRuns(s: string, i: nat, n: nat, m: nat)
    requires i + n + 3 + m <= |s| && 1 <= n <= 4 && 1 <= m <= 4
    requires n == Span(s, i, Digit) && m == Span(s, i + n + 3, Digit)
    requires At(s, i + n, " ") && s[i + n + 1] in "-+/x" && At(s, i + n + 2, " ") && At(s, i + n + 3 + m, " =")
    ensures var a, op, b := s[i..i + n], s[i + n + 1], s[i + n + 3..i + n + 3 + m];
      ValidNumbers(a, op, b) && At(s, i, ExpressionText(a, op, b))
  {
    var j := i + n + 3;
    var a, op, b := s[i..i + n], s[i + n + 1], s[j..j + m];
    assert AllDigits(a) && AllDigits(b) by {
      SpanSliceIsAll(s, i, Digit);
      SpanSliceIsAll(s, j, Digit);
    }
    assert At(s, i, a) && At(s, i + n + 1, [op]) && At(s, j, b) by {
      SliceAt(s, i, i + n);
      SliceAt(s, j, j + m);
    }
    assert |a| == n && |b| == m;
    assert At(s, i, ExpressionText(a, op, b)) by {
      ExpressionParts(s, i, a, op, b);
    }
  }

  /** A recognised expression starts at `i`, with the returned operands and operator. */
  lemma ExpressionSound(s: string, i: nat, a: string, op: char, b: string)
    requires i <= |s| && MatchExpression(s, i) == Some(Numbers(a, op, b))
    ensures ValidNumbers(a, op, b) && At(s, i, ExpressionText(a, op, b))
  {
    var n, m := ExpressionCaptures(s, i, a, op, b);
    ExpressionFromRuns(s, i, n, m);
  }

  /** A recognised `numbers` question starts the text, with the returned operands and operator. */
  lemma NumbersSound(s: string, a: string, op: char, b: string)
    requires MatchNumbers(s) == Some(Numbers(a, op, b))
    ensures exists q, m, c :: NumbersAt(s, q, m, c, a, op, b)
  {
    var q, m, c := QuestionSound(s);
    var h := QuestionText(q, m, c);
    assert At(s, |h|, MathLit);
    NumbersAfterHeader(s, |h|);
    ExpressionSound(s, |h| + |MathLit|, a, op, b);
    AtConcat(s, 0, h, MathLit);
    AtConcat(s, 0, h + MathLit, ExpressionText(a, op, b));
    assert NumbersAt(s, q, m, c, a, op, b);
  }

  // ---------------------------------------------------------------------
  // anagrams

  /** The number of ` [A-Z]` pairs in the run that starts at `j`. */
  function Pairs(s: string, j: nat): (n: nat)
    requires j <= |s|
    ensures j + 2 * n <= |s|
    decreases |s| - j
  {
    if j + 2 <= |s| && s[j] == ' ' && IsUpper(s[j + 1]) then 1 + Pairs(s, j + 2) else 0
  }

  /** `( [A-Z]){0,10}` at `j`, greedy: the number of groups taken, at most `MaxGroups`. */
  function Groups(s: string, j: nat): (g: nat)
    requires j <= |s|
    ensures g <= MaxGroups && j + 2 * g <= |s|
  {
    Min(Pairs(s, j), MaxGroups)
  }

  /** `anagrams`: the question header, ` The word is: `, then the letters. */
  function MatchAnagrams(s: string): (r: Option<Capture>)
    ensures r.Some? ==> r.value.Anagrams?
  {
    match MatchQuestion(s)
    case None => None
    case Some(h) => if At(s, h, WordIsLit) then MatchLetters(s, h + |WordIsLit|) else None
  }

  /**
   * `(?P<anagram>[A-Z]{1}( [A-Z]){0,10}) ?` at position `i`. The trailing
   * optional space always matches, so it never decides the outcome.
   */
  function MatchLetters(s: string, i: nat): (r: Option<Capture>)
    requires i <= |s|
    ensures r.Some? ==> r.value.Anagrams?
  {
    if i < |s| && IsUpper(s[i]) then Some(Anagrams(s[i..i + 1 + 2 * Groups(s, i + 1)])) else None
  }

  /** After a recognised header and ` The word is: `, the letters decide the match. */
  lemma AnagramsAfterHeader(s: string, h: nat)
    requires MatchQuestion(s) == Some(h) && At(s, h, WordIsLit)
    ensures MatchAnagrams(s) == MatchLetters(s, h + |WordIsLit|)
  {
  }

  /** The first `k` pairs that `Pairs` counts at `j` form a run of space-letter pairs. */
  lemma {:induction false} PairsAreRun(s: string, j: nat, k: nat)
    requires j <= |s| && k <= Pairs(s, j)
    ensures IsGroups(s[j..j + 2 * k])
    decreases k
  {
    if k > 0 {
      PairsAreRun(s, j + 2, k - 1);
      assert s[j..j + 2 * k][2..] == s[j + 2..j + 2 + 2 * (k - 1)];
    } else {
      assert s[j..j] == [];
    }
  }

  /** No further pair follows the run that `Pairs` counts. */
  lemma {:induction false} PairsEnd(s: string, j: nat)
    requires j <= |s|
    ensures var e := j + 2 * Pairs(s, j);
      !(e + 2 <= |s| && s[e] == ' ' && IsUpper(s[e + 1]))
    decreases |s| - j
  {
    if j + 2 <= |s| && s[j] == ' ' && IsUpper(s[j + 1]) {
      PairsEnd(s, j + 2);
    }
  }

  /** A run of pairs at `j` lies within the run `Pairs` counts, and is all of it when no pair follows. */
  lemma {:induction false} PairsOfRun(s: string, j: nat, g: string)
    requires At(s, j, g) && IsGroups(g)
    ensures |g| <= 2 * Pairs(s, j)
    ensures !(j + |g| + 2 <= |s| && s[j + |g|] == ' ' && IsUpper(s[j + |g| + 1])) ==> 2 * Pairs(s, j) == |g|
    decreases |g|
  {
    if |g| > 0 {
      assert s[j + 0] == g[0] && s[j + 1] == g[1];
      assert At(s, j + 2, g[2..]) by {
        forall k | 0 <= k < |g[2..]| ensures s[j + 2 + k] == g[2..][k] {
          assert s[j + (k + 2)] == g[k + 2];
        }
      }
      PairsOfRun(s, j + 2, g[2..]);
    }
  }

  /** The groups taken at `j` are a run of space-letter pairs, and unless there are `MaxGroups` of them no further pair follows. */
  lemma GroupsAreRun(s: string, j: nat)
    requires j <= |s|
    ensures IsGroups(s[j..j + 2 * Groups(s, j)])
    ensures var e := j + 2 * Groups(s, j);
      Groups(s, j) == MaxGroups || !(e + 2 <= |s| && s[e] == ' ' && IsUpper(s[e + 1]))
  {
    PairsAreRun(s, j, Groups(s, j));
    PairsEnd(s, j);
  }

  /** A run of at most `MaxGroups` pairs at `j`, after which no further pair follows unless it is full, is what `Groups` takes. */
  lemma GroupsOfRun(s: string, j: nat, g: string)
    requires At(s, j, g) && IsGroups(g) && |g| <= 2 * MaxGroups
    requires var e := j + |g|;
      |g| == 2 * MaxGroups || !(e + 2 <= |s| && s[e] == ' ' && IsUpper(s[e + 1]))
    ensures 2 * Groups(s, j) == |g|
  {
    PairsOfRun(s, j, g);
  }

  /** Valid letters at `i`, not followed by a further group, are recognised as the capture. */
  lemma LettersComplete(s: string, i: nat, x: string)
    requires ValidLetters(x) && At(s, i, x) && GroupsEndAt(s, i + |x|, x)
    ensures MatchLetters(s, i) == Some(Anagrams(x))
  {
    AtHead(s, i, x);
    assert At(s, i + 1, x[1..]) by {
      forall k | 0 <= k < |x[1..]| ensures s[i + 1 + k] == x[1..][k] {
        assert s[i + (k + 1)] == x[k + 1];
      }
    }
    GroupsOfRun(s, i + 1, x[1..]);
    AtSlice(s, i, x);
  }

  /** An upper-case letter at `i` and the groups after it form valid letters, with no further group after them. */
  lemma LettersFromRun(s: string, i: nat)
    requires i < |s| && IsUpper(s[i])
    ensures var x := s[i..i + 1 + 2 * Groups(s, i + 1)];
      ValidLetters(x) && At(s, i, x) && GroupsEndAt(s, i + |x|, x)
  {
    var g := Groups(s, i + 1);
    var e := i + 1 + 2 * g;
    var x := s[i..e];
    var y := s[i + 1..e];
    assert IsGroups(y) && (g == MaxGroups || !(e + 2 <= |s| && s[e] == ' ' && IsUpper(s[e + 1]))) by {
      GroupsAreRun(s, i + 1);
    }
    assert x == [s[i]] + y;
    assert x[1..] == y;
    SliceAt(s, i, e);
  }

  /** A recognised capture is a valid letter sequence at `i`, and no further group follows it. */
  lemma LettersSound(s: string, i: nat, x: string)
    requires i <= |s| && MatchLetters(s, i) == Some(Anagrams(x))
    ensures ValidLetters(x) && At(s, i, x) && GroupsEndAt(s, i + |x|, x)
  {
    LettersFromRun(s, i);
  }

  /** A text that starts with an `anagrams` question is recognised, with its letters. */
  lemma AnagramsComplete(s: string, q: string, m: string, c: char, x: string)
    requires AnagramsAt(s, q, m, c, x)
    ensures MatchAnagrams(s) == Some(Anagrams(x))
  {
    var h := QuestionText(q, m, c);
    var i := |h| + |WordIsLit|;
    assert At(s, 0, h) && At(s, |h|, WordIsLit) && At(s, i, x) by {
      AtConcat(s, 0, h + WordIsLit, x);
      AtConcat(s, 0, h, WordIsLit);
    }
    assert MatchQuestion(s) == Some(|h|) by {
      QuestionComplete(s, q, m, c);
    }
    assert MatchAnagrams(s) == MatchLetters(s, i) by {
      AnagramsAfterHeader(s, |h|);
    }
    assert MatchLetters(s, i) == Some(Anagrams(x)) by {
      assert i + |x| == |AnagramsText(q, m, c, x)|;
      LettersComplete(s, i, x);
    }
  }

  /** A recognised `anagrams` question starts the text, with the returned letters taken greedily. */
  lemma AnagramsSound(s: string, x: string)
    requires MatchAnagrams(s) == Some(Anagrams(x))
    ensures exists q, m, c :: AnagramsAt(s, q, m, c, x)
  {
    var q, m, c := QuestionSound(s);
    var h := QuestionText(q, m, c);
    var i := |h| + |WordIsLit|;
    assert At(s, |h|, WordIsLit) && MatchLetters(s, i) == Some(Anagrams(x)) by {
      AnagramsAfterHeader(s, |h|);
    }
    assert ValidLetters(x) && At(s, i, x) && GroupsEndAt(s, i + |x|, x) by {
      LettersSound(s, i, x);
    }
    assert At(s, 0, AnagramsText(q, m, c, x)) by {
      AtConcat(s, 0, h, WordIsLit);
      AtConcat(s, 0, h + WordIsLit, x);
    }
    assert AnagramsAt(s, q, m, c, x);
  }

  // ---------------------------------------------------------------------
  // no_one

  /** `(?P<new_word>[A-Z]{1,10})'` at position `i`: the word. */
  function MatchQuotedWord(s: string, i: nat): (r: Option<string>)
    requires i <= |s|
  {
    var w := Span(s, i, Upper);
    if 1 <= w <= 10 && At(s, i + w, "'") then Some(s[i..i + w]) else None
  }

  /** A valid word and its closing quote at `i` are recognised as that word. */
  lemma QuotedWordComplete(s: string, i: nat, w: string)
    requires ValidWord(w) && At(s, i, QuotedText(w))
    ensures MatchQuotedWord(s, i) == Some(w)
  {
    AtConcat(s, i, w, "'");
    AtHead(s, i + |w|, "'");
    SpanOfRun(s, i, w, Upper);
    AtSlice(s, i, w);
  }

  /** A recognised word is valid and sits at `i` with its closing quote. */
  lemma QuotedWordSound(s: string, i: nat, w: string)
    requires i <= |s| && MatchQuotedWord(s, i) == Some(w)
    ensures ValidWord(w) && At(s, i, QuotedText(w))
  {
    SpanIsMaximalRun(s, i, Upper);
    assert At(s, i, w);
    AtConcat(s, i, w, "'");
  }

  /** `no_one`: `No one got that. The correct answer is '(?P<new_word>[A-Z]{1,10})'` */
  function MatchNoOne(s: string): (r: Option<Capture>)
    ensures r.Some? ==> r.value.NoOne?
  {
    var i := |NoOneLit| + 1 + |AnswerIsLit|;
    if At(s, 0, NoOneLit) && |NoOneLit| < |s| && s[|NoOneLit|] != '\n' && At(s, |NoOneLit| + 1, AnswerIsLit) then
      match MatchQuotedWord(s, i)
      case None => None
      case Some(w) => Some(NoOne(w))
    else None
  }

  /** A text that starts with a `no_one` reveal is recognised, with its word. */
  lemma NoOneComplete(s: string, c: char, w: string)
    requires NoOneAt(s, c, w)
    ensures MatchNoOne(s) == Some(NoOne(w))
  {
    AtConcat(s, 0, NoOneLit + [c] + AnswerIsLit, QuotedText(w));
    AtConcat(s, 0, NoOneLit + [c], AnswerIsLit);
    AtConcat(s, 0, NoOneLit, [c]);
    AtHead(s, |NoOneLit|, [c]);
    QuotedWordComplete(s, |NoOneLit| + 1 + |AnswerIsLit|, w);
  }

  /** A recognised `no_one` reveal starts the text, with the returned word. */
  lemma NoOneSound(s: string, w: string)
    requires MatchNoOne(s) == Some(NoOne(w))
    ensures exists c :: NoOneAt(s, c, w)
  {
    var c := s[|NoOneLit|];
    QuotedWordSound(s, |NoOneLit| + 1 + |AnswerIsLit|, w);
    assert At(s, |NoOneLit|, [c]);
    AtConcat(s, 0, NoOneLit, [c]);
    AtConcat(s, 0, NoOneLit + [c], AnswerIsLit);
    AtConcat(s, 0, NoOneLit + [c] + AnswerIsLit, QuotedText(w));
    assert NoOneAt(s, c, w);
  }

  // ---------------------------------------------------------------------
  // other_user

  /** ` in [0-9]{1,3} seconds` at position `k`. */
  predicate MatchSeconds(s: string, k: nat)
    requires k <= |s|
  {
    At(s, k, InLit) &&
    var d := Span(s, k + |InLit|, Digit);
    1 <= d <= 3 && At(s, k + |InLit| + d, SecondsLit)
  }

  lemma SecondsComplete(s: string, k: nat, d: string)
    requires ValidSeconds(d) && At(s, k, SecondsText(d))
    ensures MatchSeconds(s, k)
  {
    AtConcat(s, k, InLit + d, SecondsLit);
    AtConcat(s, k, InLit, d);
    AtHead(s, k + |InLit| + |d|, SecondsLit);
    SpanOfRun(s, k + |InLit|, d, Digit);
  }

  lemma SecondsSound(s: string, k: nat) returns (d: string)
    requires k <= |s| && MatchSeconds(s, k)
    ensures ValidSeconds(d) && At(s, k, SecondsText(d))
  {
    SpanIsMaximalRun(s, k + |InLit|, Digit);
    d := s[k + |InLit|..k + |InLit| + Span(s, k + |InLit|, Digit)];
    assert At(s, k + |InLit|, d);
    AtConcat(s, k, InLit, d);
    AtConcat(s, k, InLit + d, SecondsLit);
  }

  /**
   * The fixed tail ` got the correct answer '(?P<new_word>[A-Z]{1,10})' in [0-9]{1,3} seconds`
   * at position `i`: its word.
   */
  function MatchReveal(s: string, i: nat): (r: Option<string>)
    requires i <= |s|
  {
    if !At(s, i, GotLit) then None
    else
      match MatchQuotedWord(s, i + |GotLit|)
      case None => None
      case Some(w) => if MatchSeconds(s, i + |GotLit| + |w| + 1) then Some(w) else None
  }

  lemma RevealComplete(s: string, i: nat, w: string, d: string)
    requires ValidWord(w) && ValidSeconds(d) && At(s, i, RevealText(w, d))
    ensures MatchReveal(s, i) == Some(w)
  {
    AtConcat(s, i, GotLit + QuotedText(w), SecondsText(d));
    AtConcat(s, i, GotLit, QuotedText(w));
    QuotedWordComplete(s, i + |GotLit|, w);
    SecondsComplete(s, i + |GotLit| + |w| + 1, d);
  }

  lemma RevealSound(s: string, i: nat, w: string) returns (d: string)
    requires i <= |s| && MatchReveal(s, i) == Some(w)
    ensures ValidWord(w) && ValidSeconds(d) && At(s, i, RevealText(w, d))
  {
    QuotedWordSound(s, i + |GotLit|, w);
    d := SecondsSound(s, i + |GotLit| + |w| + 1);
    AtConcat(s, i, GotLit, QuotedText(w));
    AtConcat(s, i, GotLit + QuotedText(w), SecondsText(d));
  }

  /**
   * The backtracking of `[a-zA-Z0-9 !@#$%^&*)(]{2,50}`: the greedy group
   * first takes `top` characters, then gives them back one at a time until
   * the fixed tail matches after it. The result is the longest nick length
   * in `[2, top]` after which the tail matches.
   */
  function LongestNick(s: string, top: nat): (r: Option<nat>)
    requires top <= |s|
    ensures r.Some? ==> 2 <= r.value <= top && MatchReveal(s, r.value).Some?
    ensures r.Some? ==> forall n :: r.value < n <= top ==> MatchReveal(s, n).None?
    ensures r.None? ==> forall n :: 2 <= n <= top ==> MatchReveal(s, n).None?
    decreases top
  {
    if top < 2 then None
    else if MatchReveal(s, top).Some? then Some(top)
    else LongestNick(s, top - 1)
  }

  function Min(a: nat, b: nat): nat { if a < b then a else b }

  /** `other_user`: a nick, then the fixed tail. */
  function MatchOtherUser(s: string): (r: Option<Capture>)
    ensures r.Some? ==> r.value.OtherUser?
  {
    match LongestNick(s, Min(50, Span(s, 0, NickChar)))
    case None => None
    case Some(n) => Some(OtherUser(s[..n], MatchReveal(s, n).value))
  }

  /** A nick at the start of the text is within the run of nick characters there. */
  lemma NickWithinRun(s: string, n: string)
    requires ValidNick(n) && At(s, 0, n)
    ensures |n| <= Min(50, Span(s, 0, NickChar))
  {
    SpanCoversRun(s, 0, n, NickChar);
  }

  /** A text that starts with an `other_user` reveal is recognised. */
  lemma OtherUserComplete(s: string, n: string, w: string, d: string)
    requires OtherUserAt(s, n, w, d)
    ensures MatchOtherUser(s).Some?
  {
    AtConcat(s, 0, n, RevealText(w, d));
    NickWithinRun(s, n);
    RevealComplete(s, |n|, w, d);
  }

  /** ` got the correct answer '` cannot start again inside itself. */
  lemma GotNotRepeated(s: string, i: nat)
    requires At(s, i, GotLit)
    ensures forall j :: i < j <= i + 24 ==> !At(s, j, GotLit)
    ensures !IsNickChar(s[i + 24])
  {
    assert s[i + 24] == GotLit[24];
    forall j | i < j <= i + 24 ensures !At(s, j, GotLit) {
      var t := j - i;
      assert s[j] == GotLit[t];
      if t < 24 {
        assert s[j + 1] == GotLit[t + 1];
        assert GotLit[t] != ' ' || GotLit[t + 1] != 'g';
        if s[j] != ' ' {
          AtExcludes(s, j, [s[j]], GotLit, 0);
        } else {
          AtExcludes(s, j, [s[j], s[j + 1]], GotLit, 1);
        }
      } else {
        AtExcludes(s, j, [s[j]], GotLit, 0);
      }
    }
  }

  /** Two `other_user` reveals at the start of one text have nicks of one length. */
  lemma RevealPlaceUnique(s: string, n: string, w: string, d: string, n': string, w': string, d': string)
    requires OtherUserAt(s, n, w, d) && OtherUserAt(s, n', w', d') && |n| <= |n'|
    ensures |n'| == |n|
  {
    assert At(s, |n|, GotLit) by {
      AtConcat(s, 0, n, RevealText(w, d));
      AtConcat(s, |n|, GotLit + QuotedText(w), SecondsText(d));
      AtConcat(s, |n|, GotLit, QuotedText(w));
    }
    assert At(s, 0, n') && At(s, |n'|, GotLit) by {
      AtConcat(s, 0, n', RevealText(w', d'));
      AtConcat(s, |n'|, GotLit + QuotedText(w'), SecondsText(d'));
      AtConcat(s, |n'|, GotLit, QuotedText(w'));
    }
    GotNotRepeated(s, |n|);
    assert |n'| <= |n| + 24 by {
      SpanCoversRun(s, 0, n', NickChar);
      SpanStopsAt(s, 0, NickChar, |n| + 24);
    }
  }

  /**
   * The reveal after a nick is found at one place only, so the backtracking
   * of the nick group gives the nick and word the text was built from.
   */
  lemma OtherUserExact(s: string, n: string, w: string, d: string)
    requires OtherUserAt(s, n, w, d)
    ensures MatchOtherUser(s) == Some(OtherUser(n, w))
  {
    OtherUserComplete(s, n, w, d);
    var c := MatchOtherUser(s).value;
    OtherUserSound(s, c.nick, c.newWord);
    var d' :| OtherUserAt(s, c.nick, c.newWord, d');
    RevealPlaceUnique(s, n, w, d, c.nick, c.newWord, d');
    assert c.nick == n by {
      AtConcat(s, 0, n, RevealText(w, d));
      AtConcat(s, 0, c.nick, RevealText(c.newWord, d'));
      AtSlice(s, 0, n);
      AtSlice(s, 0, c.nick);
    }
    assert MatchReveal(s, |n|) == Some(w) by {
      AtConcat(s, 0, n, RevealText(w, d));
      RevealComplete(s, |n|, w, d);
    }
  }

  /**
   * A recognised `other_user` reveal starts the text with the returned nick
   * and word, and no reveal with a longer nick starts the text.
   */
  lemma OtherUserSound(s: string, n: string, w: string)
    requires MatchOtherUser(s) == Some(OtherUser(n, w))
    ensures exists d :: OtherUserAt(s, n, w, d)
    ensures forall n', w', d' :: OtherUserAt(s, n', w', d') ==> |n'| <= |n|
  {
    var top := Min(50, Span(s, 0, NickChar));
    var len := LongestNick(s, top).value;
    assert n == s[..len];
    SpanIsMaximalRun(s, 0, NickChar);
    var d := RevealSound(s, len, w);
    assert At(s, 0, n);
    AtConcat(s, 0, n, RevealText(w, d));
    assert OtherUserAt(s, n, w, d);
    forall n', w', d' | OtherUserAt(s, n', w', d') ensures |n'| <= |n| {
      AtConcat(s, 0, n', RevealText(w', d'));
      NickWithinRun(s, n');
      RevealComplete(s, |n'|, w', d');
    }
  }

  // ---------------------------------------------------------------------
  // Dispatch

  /** `re.match(PATTERNS[p], s)`: the captures of recognizer `p`, if it matches. */
  function Recognize(p: Pattern, s: string): (r: Option<Capture>)
    ensures r.Some? ==> KindOf(r.value) == p
  {
    match p
    case NumbersPattern => MatchNumbers(s)
    case AnagramsPattern => MatchAnagrams(s)
    case NoOnePattern => MatchNoOne(s)
    case OtherUserPattern => MatchOtherUser(s)
  }

  /** The first recognizer of `ps`, in order, that matches `s`, with its captures. */
  function FirstMatch(ps: seq<Pattern>, s: string): (r: Option<Capture>)
    ensures r.None? <==> forall i :: 0 <= i < |ps| ==> Recognize(ps[i], s).None?
    ensures r.Some? ==> exists i :: 0 <= i < |ps| && Recognize(ps[i], s) == r &&
                                    forall j :: 0 <= j < i ==> Recognize(ps[j], s).None?
  {
    if |ps| == 0 then None
    else if Recognize(ps[0], s).Some? then
      assert Recognize(ps[0], s).Some?;
      Recognize(ps[0], s)
    else
      var r := FirstMatch(ps[1..], s);
      assert forall i :: 1 <= i < |ps| ==> ps[i] == ps[1..][i - 1];
      if r.Some? then
        var i :| 0 <= i < |ps[1..]| && Recognize(ps[1..][i], s) == r &&
                 forall j :: 0 <= j < i ==> Recognize(ps[1..][j], s).None?;
        assert Recognize(ps[i + 1], s) == r;
        r
      else r
  }

  /** Every recognizer is tried, in the order of the keys of `PATTERNS`. */
  lemma AllPatternsListed()
    ensures Patterns == [NumbersPattern, AnagramsPattern, NoOnePattern, OtherUserPattern]
    ensures forall p :: p in Patterns
  {
    forall p ensures p in Patterns {
      match p
      case NumbersPattern => assert p == Patterns[0];
      case AnagramsPattern => assert p == Patterns[1];
      case NoOnePattern => assert p == Patterns[2];
      case OtherUserPattern => assert p == Patterns[3];
    }
  }

  /** The dispatch of one chat text: the first of the four recognizers that matches. */
  function Dispatch(s: string): (r: Option<Capture>)
    ensures r.None? <==> forall p :: Recognize(p, s).None?
    ensures r.Some? ==> Recognize(KindOf(r.value), s) == r
    ensures r.Some? && r.value.Anagrams? ==> MatchNumbers(s).None?
    ensures r.Some? && r.value.NoOne? ==> MatchNumbers(s).None? && MatchAnagrams(s).None?
    ensures r.Some? && r.value.OtherUser? ==>
              MatchNumbers(s).None? && MatchAnagrams(s).None? && MatchNoOne(s).None?
  {
    var r := FirstMatch(Patterns, s);
    assert Recognize(Patterns[0], s) == MatchNumbers(s);
    assert Recognize(Patterns[1], s) == MatchAnagrams(s);
    assert Recognize(Patterns[2], s) == MatchNoOne(s);
    assert Recognize(Patterns[3], s) == MatchOtherUser(s);
    AllPatternsListed();
    r
  }

  // ---------------------------------------------------------------------
  // What dispatch hands to the handlers

  /** The captures satisfy their groups' patterns. */
  predicate ValidCapture(c: Capture) {
    match c
    case Numbers(a, op, b) => ValidNumbers(a, op, b)
    case Anagrams(x) => ValidLetters(x)
    case NoOne(w) => ValidWord(w)
    case OtherUser(n, w) => ValidNick(n) && ValidWord(w)
  }

  /** Every match of a recognizer has valid captures. */
  lemma RecognizeValid(p: Pattern, s: string)
    ensures Recognize(p, s).Some? ==> ValidCapture(Recognize(p, s).value)
  {
    var r := Recognize(p, s);
    if r.Some? {
      match r.value
      case Numbers(a, op, b) => NumbersSound(s, a, op, b);
      case Anagrams(x) => AnagramsSound(s, x);
      case NoOne(w) => NoOneSound(s, w);
      case OtherUser(n, w) => OtherUserSound(s, n, w);
    }
  }

  /** Dispatch hands only valid captures to the handlers. */
  lemma DispatchValid(s: string)
    ensures Dispatch(s).Some? ==> ValidCapture(Dispatch(s).value)
  {
    if Dispatch(s).Some? {
      RecognizeValid(KindOf(Dispatch(s).value), s);
    }
  }

  /** A text that does not start with `Question ` is no question. */
  lemma NotAQuestion(s: string)
    requires !(QuestionLit <= s)
    ensures MatchNumbers(s).None? && MatchAnagrams(s).None?
  {
    AtZeroIsPrefix(s, QuestionLit);
    assert MatchQuestion(s).None?;
  }

  /** A text whose first character is not `Q` does not start with `Question `. */
  lemma NotQuestionLit(s: string)
    requires |s| > 0 && s[0] != 'Q'
    ensures !(QuestionLit <= s)
  {
    assert QuestionLit[0] == 'Q';
  }

  /** An `anagrams` question is never also a `numbers` question. */
  lemma AnagramsNotNumbers(s: string)
    requires MatchAnagrams(s).Some?
    ensures MatchNumbers(s).None?
  {
    var h := MatchQuestion(s).value;
    assert At(s, h, WordIsLit);
    AtExcludes(s, h, WordIsLit, MathLit, 1);
  }

  /** A text that starts with a `numbers` question is routed to `numbers`. */
  lemma DispatchNumbers(s: string, q: string, m: string, c: char, a: string, op: char, b: string)
    requires NumbersAt(s, q, m, c, a, op, b)
    ensures Dispatch(s) == Some(Numbers(a, op, b))
  {
    NumbersComplete(s, q, m, c, a, op, b);
  }

  /** A text that starts with an `anagrams` question is routed to `anagrams`. */
  lemma DispatchAnagrams(s: string, q: string, m: string, c: char, x: string)
    requires AnagramsAt(s, q, m, c, x)
    ensures Dispatch(s) == Some(Anagrams(x))
  {
    AnagramsComplete(s, q, m, c, x);
    AnagramsNotNumbers(s);
    assert Recognize(AnagramsPattern, s) == MatchAnagrams(s);
    assert Recognize(NumbersPattern, s) == MatchNumbers(s);
  }

  /** A text that starts with a `no_one` reveal is routed to `no_one`. */
  lemma DispatchNoOne(s: string, c: char, w: string)
    requires NoOneAt(s, c, w)
    ensures Dispatch(s) == Some(NoOne(w))
  {
    NoOneComplete(s, c, w);
    AtHead(s, 0, NoOneText(c, w));
    NotQuestionLit(s);
    NotAQuestion(s);
    assert Recognize(NoOnePattern, s) == MatchNoOne(s);
    assert Recognize(NumbersPattern, s) == MatchNumbers(s);
    assert Recognize(AnagramsPattern, s) == MatchAnagrams(s);
  }

  /**
   * A text that starts with an `other_user` reveal whose nick starts with
   * neither `Q` nor `N` is routed to `other_user`.
   */
  lemma DispatchOtherUser(s: string, n: string, w: string, d: string)
    requires OtherUserAt(s, n, w, d) && n[0] != 'Q' && n[0] != 'N'
    ensures Dispatch(s) == Some(OtherUser(n, w))
  {
    OtherUserExact(s, n, w, d);
    AtHead(s, 0, OtherUserText(n, w, d));
    NotQuestionLit(s);
    NotAQuestion(s);
    AtExcludes(s, 0, [s[0]], NoOneLit, 0);
    assert MatchNoOne(s).None?;
    assert Recognize(OtherUserPattern, s) == MatchOtherUser(s);
    assert Recognize(NoOnePattern, s) == MatchNoOne(s);
    assert Recognize(NumbersPattern, s) == MatchNumbers(s);
    assert Recognize(AnagramsPattern, s) == MatchAnagrams(s);
  }
}
