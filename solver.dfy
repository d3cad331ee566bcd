/**
 * The arithmetic solver (`solve_numbers`): reads the two operands of a
 * `numbers` question as decimal integers, applies the operator and writes
 * the answer back as decimal text.
 */
module Solver {
  import opened Wrappers
  import opened Text
  import opened Decimal

  /** The one error the solver can raise: division by a zero operand. */
  datatype Fault = ZeroDivision

  /**
   * The operation on the operands' values: `-` subtracts, `+` adds, `/`
   * divides and truncates toward zero, and every other operator multiplies
   * (the pattern admits only `x` there). The operands are non-negative, so
   * truncation toward zero is Dafny's `/`. A zero divisor raises instead of
   * answering.
   */
  function Apply(a: nat, op: char, b: nat): (r: Result<int, Fault>)
    ensures r.Failure? <==> op == '/' && b == 0
  {
    if op == '-' then Success(a - b)
    else if op == '+' then Success(a + b)
    else if op == '/' then (if b == 0 then Failure(ZeroDivision) else Success(a / b))
    else Success(a * b)
  }

  /** What each operator computes; a quotient is the largest `q` with `q * b <= a`. */
  lemma ApplyMeaning(a: nat, op: char, b: nat)
    ensures var r := Apply(a, op, b);
      r.Success? ==>
        (op == '-' ==> r.value + b == a) &&
        (op == '+' ==> r.value - b == a) &&
        (op == '/' ==> r.value * b <= a < (r.value + 1) * b) &&
        (op !in "-+/" ==> r.value == a * b)
  {
    if op == '/' && b != 0 {
      assert Apply(a, op, b) == Success(a / b);
      TruncatedQuotient(a, b);
    }
  }

  /**
   * `solve_numbers`: reads both operands with `int`, applies the operator
   * and writes the answer with `str`; `int(num1 / num2)` truncates the
   * exact quotient.
   */
  function SolveNumbers(num1: string, op: char, num2: string): (r: Result<string, Fault>)
    requires 1 <= |num1| && AllDigits(num1) && 1 <= |num2| && AllDigits(num2)
    ensures r.Failure? <==> op == '/' && ParseNat(num2) == 0
    ensures r.Success? ==> IsIntText(r.value)
  {
    match Apply(ParseNat(num1), op, ParseNat(num2))
    case Success(v) => Success(IntToString(v))
    case Failure(e) => Failure(e)
  }

  /** The answer text reads back as the value of the operation on the operands. */
  lemma SolveNumbersCorrect(num1: string, op: char, num2: string)
    requires 1 <= |num1| && AllDigits(num1) && 1 <= |num2| && AllDigits(num2)
    ensures var r, v := SolveNumbers(num1, op, num2), Apply(ParseNat(num1), op, ParseNat(num2));
      r.Success? ==> v.Success? && ParseInt(r.value) == v.value
  {
    var v := Apply(ParseNat(num1), op, ParseNat(num2));
    if v.Success? {
      ParseIntToString(v.value);
    }
  }

  /** The quotient of non-negative `a` by positive `b` is the largest `q` with `q * b <= a`. */
  lemma TruncatedQuotient(a: nat, b: nat)
    requires b > 0
    ensures 0 <= a / b && (a / b) * b <= a < (a / b + 1) * b
  {
    var q, m := a / b, a % b;
    assert a == q * b + m && 0 <= m < b;
    assert (q + 1) * b == q * b + b;
  }

  /** The answer never depends on leading zeros in the operands. */
  lemma SolveNumbersLeadingZero(num1: string, op: char, num2: string)
    requires 1 <= |num1| && AllDigits(num1) && 1 <= |num2| && AllDigits(num2)
    ensures SolveNumbers("0" + num1, op, num2) == SolveNumbers(num1, op, num2)
    ensures SolveNumbers(num1, op, "0" + num2) == SolveNumbers(num1, op, num2)
  {
    ParseNatLeadingZero(num1);
    ParseNatLeadingZero(num2);
  }

  /** A leading zero does not change the value of a digit string. */
  lemma {:induction false} ParseNatLeadingZero(s: string)
    requires AllDigits(s)
    ensures AllDigits("0" + s) && ParseNat("0" + s) == ParseNat(s)
    decreases |s|
  {
    if s != [] {
      var t := "0" + s;
      assert t[..|t| - 1] == "0" + s[..|s| - 1];
      ParseNatLeadingZero(s[..|s| - 1]);
    }
  }

  lemma ExampleSubtraction()
    ensures SolveNumbers("9", '-', "14") == Success("-5")
  {
    assert ParseNat("9") == 9;
    assert "14"[..1] == "1";
    assert ParseNat("14") == 14;
    assert Apply(9, '-', 14) == Success(-5);
    assert IntToString(-5) == "-" + NatToString(5) == "-5";
  }

  lemma ExampleAddition()
    ensures SolveNumbers("7", '+', "5") == Success("12")
  {
    assert ParseNat("7") == 7;
    assert ParseNat("5") == 5;
    assert NatToString(1) == "1";
    assert NatToString(12) == NatToString(1) + [DigitChar(2)] == "12";
  }

  lemma ExampleDivision()
    ensures SolveNumbers("8", '/', "2") == Success("4")
  {
    assert ParseNat("8") == 8;
    assert ParseNat("2") == 2;
    assert NatToString(4) == "4";
  }

  lemma ExampleDivisionTruncates()
    ensures SolveNumbers("7", '/', "2") == Success("3")
  {
    assert ParseNat("7") == 7;
    assert ParseNat("2") == 2;
    assert NatToString(3) == "3";
  }

  lemma ExampleMultiplication()
    ensures SolveNumbers("6", 'x', "7") == Success("42")
  {
    assert ParseNat("6") == 6;
    assert ParseNat("7") == 7;
    assert NatToString(4) == "4";
    assert NatToString(42) == NatToString(4) + [DigitChar(2)] == "42";
  }

  lemma ExampleDivisionByZero()
    ensures SolveNumbers("8", '/', "0") == Failure(ZeroDivision)
  {
    assert ParseNat("0") == 0;
  }
}
