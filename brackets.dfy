/** The bracket-balance check that the calculator runs on the normalised
    expression before handing it to the evaluator. Only '(' and ')' matter;
    every other character is skipped. */
module Brackets {

  /** Number of occurrences of `c` in `s`, counted from the right so that
      the count of a prefix unfolds one character at a time. */
  function Count(s: string, c: char): (n: nat)
    ensures n <= |s|
  {
    if s == [] then 0 else Count(s[..|s| - 1], c) + (if s[|s| - 1] == c then 1 else 0)
  }

  /** Open brackets minus close brackets: the height of the stack after a
      scan of `s` that never had to pop an empty stack. */
  function Depth(s: string): int
  {
    Count(s, '(') - Count(s, ')')
  }

  /** Depth of the first `k` characters of `s`. */
  function PrefixDepth(s: string, k: nat): int
    requires k <= |s|
  {
    Depth(s[..k])
  }

  /** No prefix of `s` has more ')' than '('. */
  ghost predicate NeverBelowZero(s: string)
  {
    forall k {:trigger PrefixDepth(s, k)} :: 0 <= k <= |s| ==> PrefixDepth(s, k) >= 0
  }

  /** The prefix-count characterisation of balanced brackets. */
  ghost predicate Balanced(s: string)
  {
    NeverBelowZero(s) && Depth(s) == 0
  }

  lemma {:induction false} CountConcat(a: string, b: string, c: char)
    ensures Count(a + b, c) == Count(a, c) + Count(b, c)
    decreases |b|
  {
    if b == [] {
      assert a + b == a;
    } else {
      var b' := b[..|b| - 1];
      assert (a + b)[..|a + b| - 1] == a + b';
      CountConcat(a, b', c);
    }
  }

  lemma DepthConcat(a: string, b: string)
    ensures Depth(a + b) == Depth(a) + Depth(b)
  {
    CountConcat(a, b, '(');
    CountConcat(a, b, ')');
  }

  lemma NeverBelowZeroExtend(s: string, c: char)
    requires NeverBelowZero(s) && Depth(s + [c]) >= 0
    ensures NeverBelowZero(s + [c])
  {
    forall k | 0 <= k <= |s| + 1 ensures PrefixDepth(s + [c], k) >= 0 {
      if k <= |s| {
        assert (s + [c])[..k] == s[..k];
        assert PrefixDepth(s, k) >= 0;
      } else {
        assert (s + [c])[..k] == s + [c];
      }
    }
  }

  /** The scan of the source: a stack of '(' markers, pushed on '(' and
      popped on ')', failing at once on a ')' with an empty stack and
      otherwise succeeding exactly when the stack ends empty. */
  method CheckBracketBalanced(expr: string) returns (ok: bool)
    ensures ok == Balanced(expr)
  {
    var stack: seq<char> := [];
    for i := 0 to |expr|
      invariant |stack| == Depth(expr[..i])
      invariant forall j :: 0 <= j < |stack| ==> stack[j] == '('
      invariant NeverBelowZero(expr[..i])
    {
      var x := expr[i];
      assert expr[..i + 1] == expr[..i] + [x];
      assert Depth(expr[..i + 1]) == Depth(expr[..i]) + (if x == '(' then 1 else if x == ')' then -1 else 0);
      if x == '(' {
        stack := stack + [x];
        NeverBelowZeroExtend(expr[..i], x);
        continue;
      }
      if x == ')' {
        if |stack| == 0 {
          assert PrefixDepth(expr, i + 1) < 0;
          return false;
        } else {
          stack := stack[..|stack| - 1];
        }
      }
      NeverBelowZeroExtend(expr[..i], x);
    }
    assert expr[..|expr|] == expr;
    return |stack| == 0;
  }

  /** Inserting a balanced group anywhere leaves balance unchanged: this is
      what lets a rewrite add "f(…)" wrappers or drop bracket-free text. */
  lemma InsertBalancedGroup(a: string, g: string, b: string)
    requires Balanced(g)
    ensures Balanced(a + g + b) == Balanced(a + b)
  {
    var t, u := a + g + b, a + b;
    assert Depth(t) == Depth(u) by {
      DepthConcat(a, g);
      DepthConcat(a + g, b);
      DepthConcat(a, b);
    }
    forall k | 0 <= k <= |u|
      ensures PrefixDepth(u, k) == PrefixDepth(t, if k <= |a| then k else k + |g|)
    {
      if k <= |a| {
        assert u[..k] == a[..k] == t[..k];
      } else {
        var j := k - |a|;
        assert u[..k] == a + b[..j];
        assert t[..k + |g|] == (a + g) + b[..j];
        DepthConcat(a, b[..j]);
        DepthConcat(a + g, b[..j]);
        DepthConcat(a, g);
      }
    }
    if NeverBelowZero(u) && Depth(u) == 0 {
      forall k | 0 <= k <= |t| ensures PrefixDepth(t, k) >= 0 {
        if k <= |a| {
          assert t[..k] == u[..k];
          assert PrefixDepth(u, k) >= 0;
        } else if k <= |a| + |g| {
          var j := k - |a|;
          assert t[..k] == a + g[..j];
          DepthConcat(a, g[..j]);
          assert u[..|a|] == a;
          assert PrefixDepth(u, |a|) >= 0;
          assert PrefixDepth(g, j) >= 0;
        } else {
          var j := k - |a| - |g|;
          assert PrefixDepth(u, |a| + j) == PrefixDepth(t, k);
          assert PrefixDepth(u, |a| + j) >= 0;
        }
      }
    }
    if NeverBelowZero(t) && Depth(t) == 0 {
      forall k | 0 <= k <= |u| ensures PrefixDepth(u, k) >= 0 {
        assert PrefixDepth(t, if k <= |a| then k else k + |g|) >= 0;
      }
    }
  }

  /** A text without brackets is balanced (it contributes nothing). */
  lemma {:induction false} NoBracketsBalanced(s: string)
    requires forall i :: 0 <= i < |s| ==> s[i] != '(' && s[i] != ')'
    ensures Balanced(s)
    decreases |s|
  {
    forall k | 0 <= k <= |s| ensures PrefixDepth(s, k) == 0 {
      NoBracketsCount(s[..k]);
    }
    NoBracketsCount(s);
  }

  lemma {:induction false} NoBracketsCount(s: string)
    requires forall i :: 0 <= i < |s| ==> s[i] != '(' && s[i] != ')'
    ensures Count(s, '(') == 0 && Count(s, ')') == 0
    decreases |s|
  {
    if s != [] {
      NoBracketsCount(s[..|s| - 1]);
    }
  }

  /** Characters other than '(' and ')' are ignored by the check. */
  lemma OtherCharacterIgnored(a: string, c: char, b: string)
    requires c != '(' && c != ')'
    ensures Balanced(a + [c] + b) == Balanced(a + b)
  {
    NoBracketsBalanced([c]);
    InsertBalancedGroup(a, [c], b);
  }

  /** Balanced texts are closed under concatenation. */
  lemma BalancedConcat(a: string, b: string)
    requires Balanced(a) && Balanced(b)
    ensures Balanced(a + b)
  {
    InsertBalancedGroup(a, b, []);
    assert a + b + [] == a + b;
    assert a + [] == a;
  }

  /** Wrapping a balanced text in one pair of brackets keeps it balanced. */
  lemma BalancedWrap(s: string)
    requires Balanced(s)
    ensures Balanced("(" + s + ")")
  {
    var w := "(" + ")";
    assert PrefixDepth(w, 0) == 0 && PrefixDepth(w, 1) == 1 && PrefixDepth(w, 2) == 0 by {
      assert w[..0] == [] && w[..1] == "(" && w[..2] == w;
    }
    assert Balanced(w);
    InsertBalancedGroup("(", s, ")");
  }

  /** A ')' with no '(' before it makes a text unbalanced, whatever follows:
      ")(" has equal totals and is still rejected. */
  lemma LeadingCloseUnbalanced(s: string)
    requires s != [] && s[0] == ')'
    ensures !Balanced(s)
  {
    assert s[..1] == ")";
    assert PrefixDepth(s, 1) == -1;
  }
}
