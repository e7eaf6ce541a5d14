/** The parenthesis count both '0' handlers run on the text left and right
    of the cursor (src/key_zero.js:62-77, src/key0.js:42-59). */
module Balance {

  /** How many times c occurs in s. */
  function CountOf(s: string, c: char): nat {
    if |s| == 0 then 0
    else CountOf(s[..|s| - 1], c) + (if s[|s| - 1] == c then 1 else 0)
  }

  /** The count stated directly: the typed character sits on neither side,
      and the cursor counts as closed when the '(' seen on the line are no
      more than the ')' seen on it. */
  predicate Balanced(left: string, right: string) {
    CountOf(left, '(') + CountOf(right, '(') <= CountOf(left, ')') + CountOf(right, ')')
  }

  /** One pass over s counting '(' and ')', everything else ignored. */
  method CountParens(s: string) returns (opens: nat, closes: nat)
    ensures opens == CountOf(s, '(') && closes == CountOf(s, ')')
  {
    opens, closes := 0, 0;
    var j := 0;
    while j < |s|
      invariant 0 <= j <= |s|
      invariant opens == CountOf(s[..j], '(') && closes == CountOf(s[..j], ')')
    {
      assert s[..j + 1][..j] == s[..j];
      var c := s[j];
      if c == '(' {
        opens := opens + 1;
      } else if c == ')' {
        closes := closes + 1;
      }
      j := j + 1;
    }
    assert s[..j] == s;
  }

  /** Counting is additive over concatenation. */
  lemma {:induction false} CountOfConcat(a: string, b: string, c: char)
    ensures CountOf(a + b, c) == CountOf(a, c) + CountOf(b, c)
    decreases |b|
  {
    if |b| > 0 {
      assert (a + b)[..|a + b| - 1] == a + b[..|b| - 1];
      CountOfConcat(a, b[..|b| - 1], c);
    } else {
      assert a + b == a;
    }
  }

  /** With the typed '0' between them, the two sides are balanced exactly
      when the whole line holds no more '(' than ')'. */
  lemma BalancedLine(left: string, right: string)
    ensures Balanced(left, right) <==>
              CountOf(left + "0" + right, '(') <= CountOf(left + "0" + right, ')')
  {
    CountOfConcat(left + "0", right, '(');
    CountOfConcat(left + "0", right, ')');
    CountOfConcat(left, "0", '(');
    CountOfConcat(left, "0", ')');
    assert "0"[..0] == "";
  }
}
