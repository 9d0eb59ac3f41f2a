/** Backtracking generation of every balanced string of parentheses
    (parenthesis.cpp). */
module Parentheses {

  /** `generateParentheses`: the strings the recursion appends to `result`,
      in the order it appends them. Every one extends `current`. */
  function Generate(n: int, open: int, close: int, current: string): (r: seq<string>)
    ensures forall s | s in r :: current <= s
    decreases 2 * (if open < n then n - open else 0) + (if close < open then open - close else 0)
  {
    if open == n && close == n then [current]
    else
      (if open < n then Generate(n, open + 1, close, current + "(") else [])
      + (if close < open then Generate(n, open, close + 1, current + ")") else [])
  }

  /** The top-level call of the driver: nothing opened or closed yet. */
  function GenerateAll(n: int): seq<string>
  {
    Generate(n, 0, 0, "")
  }

  /** Occurrences of `c` in `s`. */
  function Count(s: string, c: char): nat
  {
    if s == [] then 0 else (if s[0] == c then 1 else 0) + Count(s[1..], c)
  }

  predicate AllParens(s: string)
  {
    forall i | 0 <= i < |s| :: s[i] == '(' || s[i] == ')'
  }

  /** A balanced string with `n` pairs: only parentheses, `n` of each, and no
      prefix closing more than it opened. */
  ghost predicate Balanced(s: string, n: int)
  {
    && AllParens(s)
    && Count(s, '(') == n && Count(s, ')') == n
    && forall i | 0 <= i <= |s| :: Count(s[..i], ')') <= Count(s[..i], '(')
  }

  /** `t` is a string the recursion can still append once `open` opening and
      `close` closing parentheses are placed: each step either opens (while
      fewer than `n` are open) or closes (while fewer are closed than opened),
      ending with `n` of each. */
  predicate Completes(t: string, n: int, open: int, close: int)
    decreases |t|
  {
    if t == [] then open == n && close == n
    else if t[0] == '(' then open < n && Completes(t[1..], n, open + 1, close)
    else t[0] == ')' && close < open && Completes(t[1..], n, open, close + 1)
  }

  /** Strict lexicographic order on strings, as `std::string` compares them. */
  predicate LexLess(a: string, b: string)
  {
    |b| > 0 && (|a| == 0 || a[0] < b[0] || (a[0] == b[0] && LexLess(a[1..], b[1..])))
  }

  /** Each string is lexicographically smaller than every later one. */
  predicate StrictlySorted(r: seq<string>)
  {
    forall i, j | 0 <= i < j < |r| :: LexLess(r[i], r[j])
  }

  lemma {:induction false} LexLessIrreflexive(a: string)
    ensures !LexLess(a, a)
  {
    if |a| > 0 {
      LexLessIrreflexive(a[1..]);
    }
  }

  /** Two strings that agree up to a position and then differ are ordered by that position. */
  lemma {:induction false} LexLessAt(p: string, x: char, y: char, a: string, b: string)
    requires x < y
    ensures LexLess(p + [x] + a, p + [y] + b)
  {
    if p != [] {
      LexLessAt(p[1..], x, y, a, b);
      assert (p + [x] + a)[1..] == p[1..] + [x] + a;
      assert (p + [y] + b)[1..] == p[1..] + [y] + b;
    }
  }

  /** Splitting a prefix off a string splits the counts. */
  lemma {:induction false} CountFirst(t: string, i: nat, c: char)
    requires 1 <= i <= |t|
    ensures Count(t[..i], c) == (if t[0] == c then 1 else 0) + Count(t[1..][..i - 1], c)
  {
    assert t[..i][1..] == t[1..][..i - 1];
  }

  lemma {:induction false} CountParens(s: string)
    requires AllParens(s)
    ensures Count(s, '(') + Count(s, ')') == |s|
  {
    if s != [] {
      CountParens(s[1..]);
    }
  }

  /** The generator's completion rule is the same as the counting description
      of balance, from any reachable state `close <= open <= n`. */
  lemma {:induction false} CompletesIff(t: string, n: int, open: int, close: int)
    requires 0 <= close <= open <= n
    ensures Completes(t, n, open, close) <==>
      && AllParens(t)
      && Count(t, '(') == n - open && Count(t, ')') == n - close
      && forall i | 0 <= i <= |t| :: close + Count(t[..i], ')') <= open + Count(t[..i], '(')
    decreases |t|
  {
    if t == [] {
      assert t[..0] == t;
    } else {
      var t' := t[1..];
      forall i | 1 <= i <= |t|
        ensures Count(t[..i], '(') == (if t[0] == '(' then 1 else 0) + Count(t'[..i - 1], '(')
        ensures Count(t[..i], ')') == (if t[0] == ')' then 1 else 0) + Count(t'[..i - 1], ')')
      {
        CountFirst(t, i, '(');
        CountFirst(t, i, ')');
      }
      assert t[..0] == [];
      if t[0] == '(' {
        if open < n {
          CompletesIff(t', n, open + 1, close);
          forall i | 0 <= i <= |t'|
            ensures (close + Count(t'[..i], ')') <= open + 1 + Count(t'[..i], '('))
              == (close + Count(t[..i + 1], ')') <= open + Count(t[..i + 1], '('))
          {
          }
          assert AllParens(t) <==> AllParens(t') by {
            assert forall i | 0 <= i < |t'| :: t'[i] == t[i + 1];
          }
        }
      } else if t[0] == ')' {
        if close < open {
          CompletesIff(t', n, open, close + 1);
          forall i | 0 <= i <= |t'|
            ensures (close + 1 + Count(t'[..i], ')') <= open + Count(t'[..i], '('))
              == (close + Count(t[..i + 1], ')') <= open + Count(t[..i + 1], '('))
          {
          }
          assert AllParens(t) <==> AllParens(t') by {
            assert forall i | 0 <= i < |t'| :: t'[i] == t[i + 1];
          }
        } else {
          assert !(close + Count(t[..1], ')') <= open + Count(t[..1], '('));
        }
      }
    }
  }

  /** Soundness: everything generated from a reachable state is `current`
      followed by a legal completion. */
  lemma {:induction false} GenerateSound(n: int, open: int, close: int, current: string)
    requires 0 <= close <= open <= n
    ensures forall s | s in Generate(n, open, close, current) :: Completes(s[|current|..], n, open, close)
    decreases 2 * (if open < n then n - open else 0) + (if close < open then open - close else 0)
  {
    if open == n && close == n {
    } else {
      if open < n {
        GenerateSound(n, open + 1, close, current + "(");
        forall s | s in Generate(n, open + 1, close, current + "(")
          ensures Completes(s[|current|..], n, open, close)
        {
          assert s[|current|..][0] == '(';
          assert s[|current|..][1..] == s[|current| + 1..];
        }
      }
      if close < open {
        GenerateSound(n, open, close + 1, current + ")");
        forall s | s in Generate(n, open, close + 1, current + ")")
          ensures Completes(s[|current|..], n, open, close)
        {
          assert s[|current|..][0] == ')';
          assert s[|current|..][1..] == s[|current| + 1..];
        }
      }
    }
  }

  /** Completeness: every legal completion is generated. */
  lemma {:induction false} GenerateComplete(n: int, open: int, close: int, current: string, t: string)
    requires Completes(t, n, open, close)
    ensures current + t in Generate(n, open, close, current)
    decreases |t|
  {
    if t == [] {
      assert current + t == current;
    } else if open == n && close == n {
      assert false;
    } else if t[0] == '(' {
      GenerateComplete(n, open + 1, close, current + "(", t[1..]);
      assert (current + "(") + t[1..] == current + t;
    } else {
      GenerateComplete(n, open, close + 1, current + ")", t[1..]);
      assert (current + ")") + t[1..] == current + t;
    }
  }

  /** The output is strictly increasing in lexicographic order ('(' before ')'). */
  lemma {:induction false} GenerateSorted(n: int, open: int, close: int, current: string)
    ensures StrictlySorted(Generate(n, open, close, current))
    decreases 2 * (if open < n then n - open else 0) + (if close < open then open - close else 0)
  {
    if open == n && close == n {
    } else {
      var a := if open < n then Generate(n, open + 1, close, current + "(") else [];
      var b := if close < open then Generate(n, open, close + 1, current + ")") else [];
      if open < n {
        GenerateSorted(n, open + 1, close, current + "(");
      }
      if close < open {
        GenerateSorted(n, open, close + 1, current + ")");
      }
      SortedConcat(current, a, b);
    }
  }

  /** Strings extending `current + "("` all precede those extending `current + ")"`,
      so two sorted runs of them concatenate to a sorted run. */
  lemma SortedConcat(current: string, a: seq<string>, b: seq<string>)
    requires StrictlySorted(a) && StrictlySorted(b)
    requires forall x | x in a :: current + "(" <= x
    requires forall y | y in b :: current + ")" <= y
    ensures StrictlySorted(a + b)
  {
    forall x, y | x in a && y in b ensures LexLess(x, y) {
      assert x == current + "(" + x[|current| + 1..] by {
        assert current + "(" <= x;
      }
      assert y == current + ")" + y[|current| + 1..] by {
        assert current + ")" <= y;
      }
      LexLessAt(current, '(', ')', x[|current| + 1..], y[|current| + 1..]);
    }
    var r := a + b;
    forall i, j | 0 <= i < j < |r| ensures LexLess(r[i], r[j]) {
      if j < |a| {
        assert r[i] == a[i] && r[j] == a[j];
      } else if i >= |a| {
        assert r[i] == b[i - |a|] && r[j] == b[j - |a|];
      } else {
        assert r[i] == a[i] && r[j] == b[j - |a|];
        assert r[i] in a && r[j] in b;
      }
    }
  }

  /** The driver's result is exactly the balanced strings with `n` pairs, each
      of length 2n, strictly increasing and so without repetition. */
  lemma GenerateAllCorrect(n: int)
    ensures forall s :: s in GenerateAll(n) <==> Balanced(s, n)
    ensures forall s | s in GenerateAll(n) :: |s| == 2 * n
    ensures StrictlySorted(GenerateAll(n))
    ensures var r := GenerateAll(n); forall i, j | 0 <= i < j < |r| :: r[i] != r[j]
  {
    var r := GenerateAll(n);
    GenerateSorted(n, 0, 0, "");
    forall i, j | 0 <= i < j < |r| ensures r[i] != r[j] {
      LexLessIrreflexive(r[i]);
    }
    if n < 0 {
      assert r == [];
      forall s | Balanced(s, n) ensures false {
      }
    } else {
      GenerateSound(n, 0, 0, "");
      forall s ensures s in r <==> Balanced(s, n) {
        CompletesIff(s, n, 0, 0);
        assert s[|""|..] == s;
        if Balanced(s, n) {
          GenerateComplete(n, 0, 0, "", s);
          assert "" + s == s;
        }
      }
      forall s | s in r ensures |s| == 2 * n {
        CountParens(s);
      }
    }
  }

  /** The driver's case: two pairs give exactly "(())" and "()()". */
  lemma TwoPairs()
    ensures GenerateAll(2) == ["(())", "()()"]
  {
    assert "(()" + ")" == "(())" && "((" + ")" == "(()" && "(" + "(" == "((";
    assert "()(" + ")" == "()()" && "()" + "(" == "()(" && "(" + ")" == "()";
    assert "" + "(" == "(";
    assert Generate(2, 2, 2, "(())") == ["(())"];
    assert Generate(2, 2, 1, "(()") == ["(())"];
    assert Generate(2, 2, 0, "((") == ["(())"];
    assert Generate(2, 2, 2, "()()") == ["()()"];
    assert Generate(2, 2, 1, "()(") == ["()()"];
    assert Generate(2, 1, 1, "()") == ["()()"];
    assert Generate(2, 1, 0, "(") == ["(())", "()()"];
  }
}
