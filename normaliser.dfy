/** The rewrite step of `calculateAns` that turns the display glyphs of the
    calculator into the syntax of the evaluator: 'x' becomes '*', '÷'
    becomes '/', and each square-root glyph followed by a run of digits,
    such as "√144", becomes "Math.sqrt(144)". */
module Normaliser {
  import opened Brackets

  datatype Option<T> = None | Some(value: T)

  const RootGlyph: char := '√'

  predicate IsDigit(c: char)
  {
    '0' <= c <= '9'
  }

  /** `s` with every `from` replaced by `to` (String.replaceAll with a
      one-character pattern). */
  function ReplaceChar(s: string, from: char, to: char): (r: string)
    ensures |r| == |s|
    ensures forall i :: 0 <= i < |s| ==> r[i] == if s[i] == from then to else s[i]
  {
    if s == [] then [] else [if s[0] == from then to else s[0]] + ReplaceChar(s[1..], from, to)
  }

  /** Length of the run of decimal digits at the start of `s`: the greedy
      `[0-9]+` of the pattern. */
  function DigitRun(s: string): (n: nat)
    ensures n <= |s|
    ensures forall i :: 0 <= i < n ==> IsDigit(s[i])
    ensures n < |s| ==> !IsDigit(s[n])
  {
    if s != [] && IsDigit(s[0]) then 1 + DigitRun(s[1..]) else 0
  }

  /** A match of /√[0-9]+/ starts at position `i` of `s`. */
  predicate RootAt(s: string, i: int)
  {
    0 <= i && i + 1 < |s| && s[i] == RootGlyph && IsDigit(s[i + 1])
  }

  /** `s` holds no match of /√[0-9]+/ at all. */
  predicate NoRoot(s: string)
  {
    forall i | 0 <= i < |s| :: !RootAt(s, i)
  }

  /** A single matched text: the glyph and one or more digits. */
  predicate IsRootToken(m: string)
  {
    |m| >= 2 && m[0] == RootGlyph && forall i :: 1 <= i < |m| ==> IsDigit(m[i])
  }

  /** Length of the match that starts at position 0 of `s`. */
  function MatchLength(s: string): (n: nat)
    requires RootAt(s, 0)
    ensures 2 <= n <= |s| && IsRootToken(s[..n])
    ensures n < |s| ==> !IsDigit(s[n])
  {
    1 + DigitRun(s[1..])
  }

  /** The array String.match returns for /√[0-9]+/gi: every match, leftmost
      first, each as long as it can be, none overlapping (the `i` flag does
      nothing, the pattern has no letters). The source's `null` is the
      empty sequence. */
  function RootMatches(s: string): (ms: seq<string>)
    ensures forall j :: 0 <= j < |ms| ==> IsRootToken(ms[j])
    decreases |s|
  {
    if s == [] then []
    else if RootAt(s, 0) then [s[..MatchLength(s)]] + RootMatches(s[MatchLength(s)..])
    else RootMatches(s[1..])
  }

  /** The replacement text for one match: `Math.sqrt(`, the match without
      its first character (`substring(1)`), and `)`. */
  function SqrtCall(m: string): string
  {
    "Math.sqrt(" + (if m == [] then [] else m[1..]) + ")"
  }

  /** `pat` occurs in `s` at position `j`. */
  predicate OccursAt(s: string, pat: string, j: int)
  {
    0 <= j && j + |pat| <= |s| && s[j..j + |pat|] == pat
  }

  /** The first position at or after `k` where `pat` occurs in `s`. */
  function IndexFrom(s: string, pat: string, k: nat): (r: Option<nat>)
    requires k <= |s|
    ensures r.Some? ==> k <= r.value && OccursAt(s, pat, r.value)
    ensures r.Some? ==> forall j :: k <= j < r.value ==> !OccursAt(s, pat, j)
    ensures r.None? ==> forall j :: k <= j ==> !OccursAt(s, pat, j)
    decreases |s| - k
  {
    if k + |pat| > |s| then None
    else if s[k..k + |pat|] == pat then Some(k)
    else IndexFrom(s, pat, k + 1)
  }

  /** String.replace with a string pattern: only the first occurrence of
      `pat` is replaced, and `s` is returned as it is when there is none. */
  function ReplaceFirst(s: string, pat: string, rep: string): string
  {
    match IndexFrom(s, pat, 0)
    case None => s
    case Some(i) => s[..i] + rep + s[i + |pat|..]
  }

  /** What the loop of the source computes: each match in turn handed to
      ReplaceFirst on the string built so far. */
  function FoldReplace(s: string, ms: seq<string>): string
    decreases |ms|
  {
    if ms == [] then s else FoldReplace(ReplaceFirst(s, ms[0], SqrtCall(ms[0])), ms[1..])
  }

  /** Reference definition: every match rewritten in one left-to-right pass,
      as a global regular-expression replace would. */
  function RootRewrite(s: string): string
    decreases |s|
  {
    if s == [] then []
    else if RootAt(s, 0) then SqrtCall(s[..MatchLength(s)]) + RootRewrite(s[MatchLength(s)..])
    else [s[0]] + RootRewrite(s[1..])
  }

  /** The expression handed to the bracket check and the evaluator. When
      `input` holds a square-root match, the rewrite restarts from `input`
      and the 'x'/'÷' replacements are lost. */
  function Normalised(input: string): string
  {
    if NoRoot(input) then ReplaceChar(ReplaceChar(input, 'x', '*'), '÷', '/')
    else RootRewrite(input)
  }

  /** The source finds no match exactly when there is no root anywhere. */
  lemma {:induction false} RootMatchesEmpty(s: string)
    ensures RootMatches(s) == [] <==> NoRoot(s)
    decreases |s|
  {
    if s != [] && !RootAt(s, 0) {
      RootMatchesEmpty(s[1..]);
      assert NoRoot(s) <==> NoRoot(s[1..]) by {
        forall i | 1 <= i < |s| ensures RootAt(s, i) == RootAt(s[1..], i - 1) {
        }
        if NoRoot(s) {
          forall i | 0 <= i < |s[1..]| ensures !RootAt(s[1..], i) {
            assert !RootAt(s, i + 1);
          }
        }
        if NoRoot(s[1..]) {
          forall i | 0 <= i < |s| ensures !RootAt(s, i) {
            if i > 0 {
              assert !RootAt(s[1..], i - 1);
            }
          }
        }
      }
    } else if s != [] {
      assert !NoRoot(s) by { assert RootAt(s, 0); }
    }
  }

  /** Where the matches of `RootMatches(s)` start in `s`. */
  function RootStarts(s: string): (ps: seq<nat>)
    ensures |ps| == |RootMatches(s)|
    decreases |s|
  {
    if s == [] then []
    else if RootAt(s, 0) then [0] + Shift(RootStarts(s[MatchLength(s)..]), MatchLength(s))
    else Shift(RootStarts(s[1..]), 1)
  }

  /** Every position moved `n` to the right. */
  function Shift(ps: seq<nat>, n: nat): (qs: seq<nat>)
    ensures |qs| == |ps| && forall k :: 0 <= k < |ps| ==> qs[k] == ps[k] + n
  {
    seq(|ps|, k requires 0 <= k < |ps| => ps[k] + n)
  }

  lemma RootAtSuffix(s: string, n: nat, i: int)
    requires n <= i < |s|
    ensures RootAt(s, i) == RootAt(s[n..], i - n)
  {
    if i + 1 < |s| {
      assert s[n..][i - n + 1] == s[i + 1];
    }
  }

  /** Each match stands in `s` at its start. */
  predicate InPlace(s: string, ms: seq<string>, ps: seq<nat>)
    requires |ms| == |ps|
  {
    forall j :: 0 <= j < |ps| ==> ps[j] + |ms[j]| <= |s| && s[ps[j]..ps[j] + |ms[j]|] == ms[j]
  }

  /** Each match is as long as it can be: the next character is no digit. */
  predicate Greedy(s: string, ms: seq<string>, ps: seq<nat>)
    requires |ms| == |ps|
  {
    forall j :: 0 <= j < |ps| && ps[j] + |ms[j]| < |s| ==> !IsDigit(s[ps[j] + |ms[j]|])
  }

  /** Each match ends at or before the start of the next one. */
  predicate InOrder(ms: seq<string>, ps: seq<nat>)
    requires |ms| == |ps|
  {
    forall j :: 0 <= j < |ps| - 1 ==> ps[j] + |ms[j]| <= ps[j + 1]
  }

  /** The starts are exactly the positions of a glyph followed by a digit. */
  predicate AllRoots(s: string, ps: seq<nat>)
  {
    forall i :: 0 <= i < |s| ==> (RootAt(s, i) <==> i in ps)
  }

  /** The matches and starts of `s` are those of `s[n..]`, shifted by `n`,
      behind one match `s[..n]` at 0 (`h == 1`) or behind one character
      that starts no match (`h == 0`, `n == 1`). */
  predicate Step(s: string, n: nat, h: nat, ms: seq<string>, ps: seq<nat>, mt: seq<string>, pt: seq<nat>)
  {
    && 1 <= n <= |s| && h <= 1 && |ms| == |ps| && |mt| == |pt| && |ps| == h + |pt|
    && (forall j :: h <= j < |ps| ==> ps[j] == pt[j - h] + n && ms[j] == mt[j - h])
    && (h == 1 ==> ps[0] == 0 && ms[0] == s[..n] && IsRootToken(s[..n]) && RootAt(s, 0)
                   && (n < |s| ==> !IsDigit(s[n])))
    && (h == 0 ==> n == 1 && !RootAt(s, 0))
  }

  lemma InPlaceStep(s: string, n: nat, h: nat, ms: seq<string>, ps: seq<nat>, mt: seq<string>, pt: seq<nat>)
    requires Step(s, n, h, ms, ps, mt, pt) && InPlace(s[n..], mt, pt)
    ensures InPlace(s, ms, ps)
  {
    var t := s[n..];
    forall j | 0 <= j < |ps|
      ensures ps[j] + |ms[j]| <= |s| && s[ps[j]..ps[j] + |ms[j]|] == ms[j]
    {
      if j >= h {
        var a := pt[j - h];
        assert t[a..a + |mt[j - h]|] == mt[j - h];
        assert s[a + n..a + n + |mt[j - h]|] == t[a..a + |mt[j - h]|];
      }
    }
  }

  lemma GreedyStep(s: string, n: nat, h: nat, ms: seq<string>, ps: seq<nat>, mt: seq<string>, pt: seq<nat>)
    requires Step(s, n, h, ms, ps, mt, pt) && Greedy(s[n..], mt, pt)
    ensures Greedy(s, ms, ps)
  {
    var t := s[n..];
    forall j | 0 <= j < |ps| && ps[j] + |ms[j]| < |s| ensures !IsDigit(s[ps[j] + |ms[j]|]) {
      if j >= h {
        assert s[ps[j] + |ms[j]|] == t[pt[j - h] + |mt[j - h]|];
      }
    }
  }

  lemma InOrderStep(s: string, n: nat, h: nat, ms: seq<string>, ps: seq<nat>, mt: seq<string>, pt: seq<nat>)
    requires Step(s, n, h, ms, ps, mt, pt) && InOrder(mt, pt)
    ensures InOrder(ms, ps)
  {
    forall j | 0 <= j < |ps| - 1 ensures ps[j] + |ms[j]| <= ps[j + 1] {
      assert ps[j + 1] == pt[j + 1 - h] + n;
      if j >= h {
        assert pt[j - h] + |mt[j - h]| <= pt[j + 1 - h];
      }
    }
  }

  lemma AllRootsStep(s: string, n: nat, h: nat, ms: seq<string>, ps: seq<nat>, mt: seq<string>, pt: seq<nat>)
    requires Step(s, n, h, ms, ps, mt, pt) && AllRoots(s[n..], pt)
    ensures AllRoots(s, ps)
  {
    forall i | 0 <= i < |s| ensures RootAt(s, i) <==> i in ps {
      if i >= n {
        RootAtSuffix(s, n, i);
        assert RootAt(s[n..], i - n) <==> i - n in pt;
        if i - n in pt {
          var k :| 0 <= k < |pt| && pt[k] == i - n;
          assert ps[k + h] == i;
        }
        if i in ps {
          var k :| 0 <= k < |ps| && ps[k] == i;
          assert pt[k - h] == i - n;
        }
      } else if i > 0 {
        assert s[i] == s[..n][i];
        assert forall k :: 0 <= k < |ps| ==> ps[k] != i;
      } else {
        assert forall k :: h <= k < |ps| ==> ps[k] != 0;
      }
    }
  }

  /** What String.match with a global pattern promises: the matches stand
      in `s` at `RootStarts(s)`, in increasing order and without overlap;
      each is as long as it can be (the next character is not a digit);
      and the starts are exactly the positions where a glyph is followed
      by a digit, so no root is skipped. */
  lemma {:induction false} RootMatchesPositions(s: string)
    ensures var ms, ps := RootMatches(s), RootStarts(s);
      InPlace(s, ms, ps) && Greedy(s, ms, ps) && InOrder(ms, ps) && AllRoots(s, ps)
    decreases |s|
  {
    if s == [] {
      return;
    }
    var n, h := StepAt(s);
    RootMatchesPositions(s[n..]);
    var ms, ps := RootMatches(s), RootStarts(s);
    var mt, pt := RootMatches(s[n..]), RootStarts(s[n..]);
    InPlaceStep(s, n, h, ms, ps, mt, pt);
    GreedyStep(s, n, h, ms, ps, mt, pt);
    InOrderStep(s, n, h, ms, ps, mt, pt);
    AllRootsStep(s, n, h, ms, ps, mt, pt);
  }

  /** How far the scan of `s` advances, and whether it records a match. */
  lemma StepAt(s: string) returns (n: nat, h: nat)
    requires s != []
    ensures 1 <= n <= |s|
    ensures Step(s, n, h, RootMatches(s), RootStarts(s), RootMatches(s[n..]), RootStarts(s[n..]))
  {
    if RootAt(s, 0) {
      n, h := MatchLength(s), 1;
      assert RootMatches(s) == [s[..n]] + RootMatches(s[n..]);
      assert RootStarts(s) == [0] + Shift(RootStarts(s[n..]), n);
    } else {
      n, h := 1, 0;
      assert RootStarts(s) == Shift(RootStarts(s[1..]), 1);
    }
  }

  /** Joining `x` and `y` does not put a glyph right before a digit. */
  predicate JoinsCleanly(x: string, y: string)
  {
    !(x != [] && y != [] && x[|x| - 1] == RootGlyph && IsDigit(y[0]))
  }

  /** `d` is free of roots, also across its boundary with `s`. */
  predicate CleanPrefix(d: string, s: string)
  {
    NoRoot(d) && JoinsCleanly(d, s)
  }

  lemma NoRootConcat(x: string, y: string)
    requires NoRoot(x) && NoRoot(y) && JoinsCleanly(x, y)
    ensures NoRoot(x + y)
  {
    var t := x + y;
    forall i | 0 <= i < |t| ensures !RootAt(t, i) {
      if i < |x| - 1 {
        assert t[i] == x[i] && t[i + 1] == x[i + 1];
        assert !RootAt(x, i);
      } else if i >= |x| {
        assert t[i] == y[i - |x|];
        assert i + 1 < |t| ==> t[i + 1] == y[i - |x| + 1];
        assert !RootAt(y, i - |x|);
      }
    }
  }

  /** A call "Math.sqrt(digits)" holds no glyph and starts with 'M'. */
  lemma SqrtCallShape(m: string)
    requires IsRootToken(m)
    ensures var c := SqrtCall(m);
      c[0] == 'M' && c[|c| - 1] == ')' && forall q :: 0 <= q < |c| ==> c[q] != RootGlyph
  {
    var c := SqrtCall(m);
    assert c == "Math.sqrt(" + m[1..] + ")";
    assert forall q :: 0 <= q < |m[1..]| ==> IsDigit(m[1..][q]);
  }

  lemma SqrtCallNoRoot(m: string)
    requires IsRootToken(m)
    ensures NoRoot(SqrtCall(m))
  {
    SqrtCallShape(m);
  }

  lemma ConcatSlices(d: string, s: string, n: nat)
    requires n <= |s|
    ensures (d + s)[..|d|] == d
    ensures (d + s)[|d|..|d| + n] == s[..n]
    ensures (d + s)[|d| + n..] == s[n..]
  {
  }

  /** No match starts inside a clean prefix. */
  lemma NoEarlierOccurrence(d: string, s: string, m: string)
    requires CleanPrefix(d, s) && IsRootToken(m)
    ensures forall j :: 0 <= j < |d| ==> !OccursAt(d + s, m, j)
  {
    var t := d + s;
    forall j | 0 <= j < |d| ensures !OccursAt(t, m, j) {
      if j + |m| <= |t| {
        assert t[j..j + |m|][0] == t[j] && t[j..j + |m|][1] == t[j + 1];
      }
      if j < |d| - 1 {
        assert !RootAt(d, j);
        assert t[j] == d[j] && t[j + 1] == d[j + 1];
      } else {
        assert t[j] == d[j] && (j + 1 < |t| ==> t[j + 1] == s[0]);
      }
    }
  }

  /** The first occurrence of the first match of `s` in `d + s` is the one
      at the start of `s`. */
  lemma ReplaceFirstAtRoot(d: string, s: string)
    requires RootAt(s, 0) && CleanPrefix(d, s)
    ensures var n := MatchLength(s);
      ReplaceFirst(d + s, s[..n], SqrtCall(s[..n])) == (d + SqrtCall(s[..n])) + s[n..]
  {
    var n := MatchLength(s);
    var m := s[..n];
    var t := d + s;
    ConcatSlices(d, s, n);
    assert OccursAt(t, m, |d|);
    NoEarlierOccurrence(d, s, m);
    assert IndexFrom(t, m, 0) == Some(|d|);
  }

  /** The rewritten call contains no root glyph, so the prefix stays clean. */
  lemma CleanAfterCall(d: string, s: string)
    requires RootAt(s, 0) && CleanPrefix(d, s)
    ensures var n := MatchLength(s); CleanPrefix(d + SqrtCall(s[..n]), s[n..])
  {
    var n := MatchLength(s);
    var c := SqrtCall(s[..n]);
    SqrtCallShape(s[..n]);
    SqrtCallNoRoot(s[..n]);
    NoRootConcat(d, c);
    assert (d + c)[|d + c| - 1] == c[|c| - 1];
  }

  /** A character that does not start a match moves into the clean prefix. */
  lemma CleanAfterPlain(d: string, s: string)
    requires s != [] && !RootAt(s, 0) && CleanPrefix(d, s)
    ensures CleanPrefix(d + [s[0]], s[1..])
  {
    assert NoRoot([s[0]]);
    NoRootConcat(d, [s[0]]);
  }

  lemma SplitAt(s: string, n: nat)
    requires n <= |s|
    ensures s[..n] + s[n..] == s
  {
  }

  lemma HeadTail(s: string)
    requires s != []
    ensures s == [s[0]] + s[1..]
  {
  }

  lemma ConsSplit(a: string, s: string)
    requires s != []
    ensures a + s == (a + [s[0]]) + s[1..]
  {
    HeadTail(s);
  }

  lemma Assoc(a: string, b: string, c: string)
    ensures a + (b + c) == (a + b) + c
  {
  }

  lemma FoldStep(t: string, m: string, rest: seq<string>)
    ensures FoldReplace(t, [m] + rest) == FoldReplace(ReplaceFirst(t, m, SqrtCall(m)), rest)
  {
    assert ([m] + rest)[1..] == rest;
  }

  /** RootRewrite, one step at a match. */
  lemma RootRewriteAtRoot(s: string)
    requires RootAt(s, 0)
    ensures RootRewrite(s) == SqrtCall(s[..MatchLength(s)]) + RootRewrite(s[MatchLength(s)..])
  {
  }

  /** RootRewrite, one step at any other character. */
  lemma RootRewritePlain(s: string)
    requires s != [] && !RootAt(s, 0)
    ensures RootRewrite(s) == [s[0]] + RootRewrite(s[1..])
  {
  }

  /** With a prefix `d` already free of roots, folding the first-occurrence
      replacements over the matches of `s` rewrites exactly `s`. */
  lemma {:induction false} FoldReplaceFrom(d: string, s: string)
    requires CleanPrefix(d, s)
    ensures FoldReplace(d + s, RootMatches(s)) == d + RootRewrite(s)
    decreases |s|
  {
    if s == [] {
      assert d + s == d;
    } else if RootAt(s, 0) {
      assert FoldReplace(d + s, RootMatches(s)) == d + RootRewrite(s) by {
        var n := MatchLength(s);
        var m := s[..n];
        var c := SqrtCall(m);
        var rest := RootMatches(s[n..]);
        ReplaceFirstAtRoot(d, s);
        CleanAfterCall(d, s);
        assert RootMatches(s) == [m] + rest;
        FoldStep(d + s, m, rest);
        FoldReplaceFrom(d + c, s[n..]);
        RootRewriteAtRoot(s);
        Assoc(d, c, RootRewrite(s[n..]));
      }
    } else {
      assert FoldReplace(d + s, RootMatches(s)) == d + RootRewrite(s) by {
        CleanAfterPlain(d, s);
        FoldReplaceFrom(d + [s[0]], s[1..]);
        ConsSplit(d, s);
        RootRewritePlain(s);
        Assoc(d, [s[0]], RootRewrite(s[1..]));
      }
    }
  }

  /** The replacement loop of the source, replacing one occurrence per
      match, has the same effect as rewriting every match at once. */
  lemma SqrtLoopIsGlobalRewrite(s: string)
    ensures FoldReplace(s, RootMatches(s)) == RootRewrite(s)
  {
    FoldReplaceFrom([], s);
    assert [] + s == s;
    assert [] + RootRewrite(s) == RootRewrite(s);
  }

  /** After the rewrite no match of /√[0-9]+/ is left, and its first
      character is a digit only if that of `s` is. */
  lemma {:induction false} RootRewriteLeavesNoRoot(s: string)
    ensures NoRoot(RootRewrite(s))
    ensures s != [] ==> RootRewrite(s) != [] && (IsDigit(RootRewrite(s)[0]) ==> IsDigit(s[0]))
    decreases |s|
  {
    if s == [] {
    } else if RootAt(s, 0) {
      var n := MatchLength(s);
      var c := SqrtCall(s[..n]);
      RootRewriteLeavesNoRoot(s[n..]);
      SqrtCallShape(s[..n]);
      SqrtCallNoRoot(s[..n]);
      NoRootConcat(c, RootRewrite(s[n..]));
      RootRewriteAtRoot(s);
    } else {
      var r := RootRewrite(s[1..]);
      RootRewriteLeavesNoRoot(s[1..]);
      assert NoRoot([s[0]]);
      assert JoinsCleanly([s[0]], r);
      NoRootConcat([s[0]], r);
      RootRewritePlain(s);
    }
  }

  /** The two glyph replacements touch neither brackets nor the glyph and
      digits of a root. */
  lemma {:induction false} ReplaceCharBalance(a: string, s: string, from: char, to: char)
    requires from != '(' && from != ')' && to != '(' && to != ')'
    ensures Balanced(a + ReplaceChar(s, from, to)) == Balanced(a + s)
    decreases |s|
  {
    if s != [] {
      var y := if s[0] == from then to else s[0];
      var r := ReplaceChar(s[1..], from, to);
      Assoc(a, [y], r);
      ReplaceCharBalance(a + [y], s[1..], from, to);
      ConsSplit(a, s);
      if s[0] == from {
        OtherCharacterIgnored(a, to, s[1..]);
        OtherCharacterIgnored(a, from, s[1..]);
      }
    }
  }

  /** One "Math.sqrt(digits)" call is a balanced group. */
  lemma SqrtCallBalanced(m: string)
    requires IsRootToken(m)
    ensures Balanced(SqrtCall(m))
  {
    var digits := m[1..];
    assert forall i :: 0 <= i < |digits| ==> IsDigit(digits[i]);
    NoBracketsBalanced(digits);
    BalancedWrap(digits);
    NoBracketsBalanced("Math.sqrt");
    BalancedConcat("Math.sqrt", "(" + digits + ")");
    assert SqrtCall(m) == "Math.sqrt" + ("(" + digits + ")");
  }

  lemma {:induction false} RootRewriteBalance(a: string, s: string)
    ensures Balanced(a + RootRewrite(s)) == Balanced(a + s)
    decreases |s|
  {
    if s == [] {
    } else if RootAt(s, 0) {
      var n := MatchLength(s);
      var m := s[..n];
      var c := SqrtCall(m);
      var tail := RootRewrite(s[n..]);
      assert a + RootRewrite(s) == (a + c) + tail by {
        RootRewriteAtRoot(s);
        Assoc(a, c, tail);
      }
      assert Balanced((a + c) + tail) == Balanced((a + c) + s[n..]) by {
        RootRewriteBalance(a + c, s[n..]);
      }
      assert Balanced((a + c) + s[n..]) == Balanced(a + s[n..]) by {
        SqrtCallBalanced(m);
        InsertBalancedGroup(a, c, s[n..]);
      }
      assert Balanced(a + s) == Balanced(a + s[n..]) by {
        RootTokenBalanced(m);
        InsertBalancedGroup(a, m, s[n..]);
        SplitAt(s, n);
        Assoc(a, m, s[n..]);
      }
    } else {
      var tail := RootRewrite(s[1..]);
      assert a + RootRewrite(s) == (a + [s[0]]) + tail by {
        RootRewritePlain(s);
        Assoc(a, [s[0]], tail);
      }
      assert Balanced((a + [s[0]]) + tail) == Balanced((a + [s[0]]) + s[1..]) by {
        RootRewriteBalance(a + [s[0]], s[1..]);
      }
      ConsSplit(a, s);
    }
  }

  lemma RootTokenBalanced(m: string)
    requires IsRootToken(m)
    ensures Balanced(m)
  {
    assert forall i :: 0 <= i < |m| ==> m[i] != '(' && m[i] != ')';
    NoBracketsBalanced(m);
  }

  /** Normalising never changes whether the brackets balance: the bracket
      error of `calculateAns` depends on the typed expression alone. */
  lemma NormalisedPreservesBalance(input: string)
    ensures Balanced(Normalised(input)) == Balanced(input)
  {
    var e := Normalised(input);
    if NoRoot(input) {
      var r1 := ReplaceChar(input, 'x', '*');
      ReplaceCharBalance([], input, 'x', '*');
      ReplaceCharBalance([], r1, '÷', '/');
      assert [] + r1 == r1 && [] + input == input && [] + e == e;
    } else {
      RootRewriteBalance([], input);
      assert [] + input == input && [] + e == e;
    }
  }

  /** Without a root, normalising replaces exactly the two glyphs, leaves
      no glyph and no root behind, and a second pass changes nothing. */
  lemma NormalisedWithoutRoots(input: string)
    requires NoRoot(input)
    ensures var e := Normalised(input);
      && |e| == |input|
      && (forall i :: 0 <= i < |e| ==>
            e[i] == if input[i] == 'x' then '*' else if input[i] == '÷' then '/' else input[i])
      && (forall i :: 0 <= i < |e| ==> e[i] != 'x' && e[i] != '÷')
      && NoRoot(e)
      && Normalised(e) == e
  {
    var e := Normalised(input);
    forall i | 0 <= i < |e| ensures !RootAt(e, i) {
      if RootAt(e, i) {
        assert RootAt(input, i);
      }
    }
    var e2 := ReplaceChar(ReplaceChar(e, 'x', '*'), '÷', '/');
    assert e2 == e;
  }

  /** Normalising is idempotent whenever the first pass leaves no 'x' and
      no '÷' behind (roots never survive it). */
  lemma NormalisedIdempotent(input: string)
    requires forall i :: 0 <= i < |Normalised(input)| ==>
      Normalised(input)[i] != 'x' && Normalised(input)[i] != '÷'
    ensures Normalised(Normalised(input)) == Normalised(input)
  {
    var e := Normalised(input);
    if NoRoot(input) {
      NormalisedWithoutRoots(input);
    } else {
      RootRewriteLeavesNoRoot(input);
      NormalisedWithoutRoots(e);
      assert forall i :: 0 <= i < |e| ==> Normalised(e)[i] == e[i];
    }
  }

  /** With a root present the rewrite starts again from the typed input, so
      every 'x' and '÷' survives into the expression handed to the
      evaluator. */
  lemma {:induction false} RootRewriteKeepsGlyph(s: string, g: char)
    requires g == 'x' || g == '÷'
    ensures multiset(RootRewrite(s))[g] == multiset(s)[g]
    decreases |s|
  {
    if s == [] {
    } else if RootAt(s, 0) {
      var n := MatchLength(s);
      var m := s[..n];
      var c := SqrtCall(m);
      var tail := RootRewrite(s[n..]);
      assert multiset(RootRewrite(s))[g] == multiset(c)[g] + multiset(tail)[g] by {
        RootRewriteAtRoot(s);
      }
      assert multiset(tail)[g] == multiset(s[n..])[g] by {
        RootRewriteKeepsGlyph(s[n..], g);
      }
      assert multiset(s)[g] == multiset(m)[g] + multiset(s[n..])[g] by {
        SplitAt(s, n);
      }
      GlyphNotInRoot(m, g);
    } else {
      var tail := RootRewrite(s[1..]);
      assert multiset(RootRewrite(s))[g] == multiset([s[0]])[g] + multiset(tail)[g] by {
        RootRewritePlain(s);
      }
      assert multiset(tail)[g] == multiset(s[1..])[g] by {
        RootRewriteKeepsGlyph(s[1..], g);
      }
      HeadTail(s);
    }
  }

  /** Neither a matched text nor its call holds an 'x' or a '÷'. */
  lemma GlyphNotInRoot(m: string, g: char)
    requires IsRootToken(m) && (g == 'x' || g == '÷')
    ensures multiset(m)[g] == 0 && multiset(SqrtCall(m))[g] == 0
  {
    var digits := m[1..];
    assert forall q :: 0 <= q < |digits| ==> IsDigit(digits[q]);
    assert g !in m by {
      forall q | 0 <= q < |m| ensures m[q] != g {
        if q > 0 { assert m[q] == digits[q - 1]; }
      }
    }
    GlyphNotInCall(digits, g);
    assert SqrtCall(m) == "Math.sqrt(" + digits + ")";
  }

  lemma GlyphNotInCall(digits: string, g: char)
    requires forall q :: 0 <= q < |digits| ==> IsDigit(digits[q])
    requires g == 'x' || g == '÷'
    ensures multiset("Math.sqrt(" + digits + ")")[g] == 0
  {
    assert g !in digits;
    CallTextNoGlyph(g);
    AbsentFromConcat("Math.sqrt(", digits, ")", g);
  }

  lemma CallTextNoGlyph(g: char)
    requires g == 'x' || g == '÷'
    ensures g !in "Math.sqrt(" && g !in ")"
  {
  }

  lemma AbsentFromConcat(a: string, d: string, e: string, g: char)
    requires g !in a && g !in d && g !in e
    ensures multiset(a + d + e)[g] == 0
  {
    assert multiset(a + d + e) == multiset(a) + multiset(d) + multiset(e);
  }

  lemma NormalisedWithRootsKeepsGlyphs(input: string, g: char)
    requires !NoRoot(input) && (g == 'x' || g == '÷')
    ensures multiset(Normalised(input))[g] == multiset(input)[g]
  {
    RootRewriteKeepsGlyph(input, g);
  }

  /** Without a root both glyphs are replaced. */
  lemma NormalisedGlyphExample()
    ensures Normalised("2x3÷4") == "2*3/4"
  {
    assert NoRoot("2x3÷4");
  }

  /** "√144" becomes a call. */
  lemma NormalisedRootExample()
    ensures Normalised("√144") == "Math.sqrt(144)"
  {
    assert RootAt("√144", 0);
    assert MatchLength("√144") == 4;
    assert "√144"[4..] == [];
  }

  /** With a root present an 'x' is left as it was typed. */
  lemma NormalisedMixedExample()
    ensures Normalised("√4x2") == "Math.sqrt(4)x2"
  {
    assert RootAt("√4x2", 0);
    assert MatchLength("√4x2") == 2;
    assert "√4x2"[2..] == "x2";
    assert !RootAt("x2", 0) && "x2"[1..] == "2" && !RootAt("2", 0);
  }

  /** The normalising step of `calculateAns`, in the order of the source:
      both glyph replacements on `input`, then, if there is any root match,
      the first-occurrence replacement loop run on `input` again. */
  method Normalise(input: string) returns (finalExpression: string)
    ensures finalExpression == Normalised(input)
  {
    finalExpression := ReplaceChar(input, 'x', '*');
    finalExpression := ReplaceChar(finalExpression, '÷', '/');
    var noSqrt := RootMatches(input);
    RootMatchesEmpty(input);
    if noSqrt != [] {
      var evalSqrt := input;
      for i := 0 to |noSqrt|
        invariant FoldReplace(evalSqrt, noSqrt[i..]) == FoldReplace(input, noSqrt)
      {
        assert noSqrt[i..][1..] == noSqrt[i + 1..];
        evalSqrt := ReplaceFirst(evalSqrt, noSqrt[i], SqrtCall(noSqrt[i]));
      }
      SqrtLoopIsGlobalRewrite(input);
      finalExpression := evalSqrt;
    }
  }
}
