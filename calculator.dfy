/** The calculator component: two pieces of state, the expression being
    typed (`input`) and the last result or error message (`answer`), and
    the five button handlers that change them. */
module CalculatorComponent {
  import opened Brackets
  import opened Normaliser

  /** Longest expression the keypad accepts (checked on `input + val`). */
  const MaxLength: nat := 14

  const InvalidInput: string := "Invalid Input!!"
  const UnbalancedBrackets: string := "Brackets are not balanced!"

  /** What the evaluator, with the rounding step after it, does with an
      expression: it produces the text of a value, or it throws, and the
      thrown object may carry a message. */
  datatype Evaluation = Returned(shown: string) | Raised(message: string)

  /** The keys whose label differs from the text they add to the
      expression. */
  function Remap(key: string): (val: string)
    ensures key == "x2" ==> val == "**2"
    ensures key == "x3" ==> val == "**3"
    ensures key == "3√" ==> val == "**(1/3)"
    ensures key == "log" ==> val == "Math.log10("
    ensures key !in {"x2", "x3", "3√", "log"} ==> val == key
  {
    if key == "x2" then "**2"
    else if key == "x3" then "**3"
    else if key == "3√" then "**(1/3)"
    else if key == "log" then "Math.log10("
    else key
  }

  /** `s` with its sign flipped: a leading '-' becomes '+', a leading '+'
      becomes '-', and an unsigned text (the empty one included) gets a
      leading '-'. */
  function ToggleSign(s: string): (r: string)
    ensures |r| == if s != [] && s[0] in "+-" then |s| else |s| + 1
    ensures r != [] && r[0] in "+-"
    ensures (r[0] == '-') == !(s != [] && s[0] == '-')
    ensures r[1..] == if s != [] && s[0] in "+-" then s[1..] else s
  {
    if s != [] && s[0] == '-' then "+" + s[1..]
    else if s != [] && s[0] == '+' then "-" + s[1..]
    else "-" + s
  }

  /** `s.slice(0, -1)`: everything but the last character; the empty text
      stays empty. */
  function DropLast(s: string): (r: string)
    ensures s == [] ==> r == []
    ensures s != [] ==> r + [s[|s| - 1]] == s
  {
    if s == [] then [] else s[..|s| - 1]
  }

  class Calculator {
    var input: string
    var answer: string

    constructor ()
      ensures input == "" && answer == ""
    {
      input := "";
      answer := "";
    }

    /** A key press. Nothing happens while the answer shows the invalid
        input message, nor when the old input with the key's text would be
        longer than MaxLength; otherwise the text is appended to the answer
        (which is then cleared) if there is one, and to the input if not. */
    method InputHandler(key: string)
      modifies this
      ensures old(answer) == InvalidInput || |old(input) + Remap(key)| > MaxLength ==>
        input == old(input) && answer == old(answer)
      ensures old(answer) != InvalidInput && |old(input) + Remap(key)| <= MaxLength ==>
        answer == "" &&
        input == (if old(answer) != "" then old(answer) else old(input)) + Remap(key)
      // A corollary of the two clauses above: typing onto an empty answer
      // never grows the input beyond MaxLength.
      ensures old(answer) == "" ==> |input| <= MaxLength || input == old(input)
    {
      if answer == InvalidInput {
        return;
      }
      var val := Remap(key);
      var str := input + val;
      if |str| > MaxLength {
        return;
      }
      if answer != "" {
        input := answer + val;
        answer := "";
      } else {
        input := str;
      }
    }

    /** The clear key: both fields emptied, from any state. */
    method ClearInput()
      modifies this
      ensures input == "" && answer == ""
    {
      input := "";
      answer := "";
    }

    /** The backspace key: the answer, if any, becomes the input less its
        last character; otherwise the input loses its last character. */
    method Backspace()
      modifies this
      ensures old(answer) != "" ==> input == old(answer)[..|old(answer)| - 1] && answer == ""
      ensures old(answer) == "" && old(input) != "" ==>
        input == old(input)[..|old(input)| - 1] && answer == ""
      ensures old(answer) == "" && old(input) == "" ==> input == "" && answer == ""
    {
      if answer != "" {
        input := DropLast(answer);
        answer := "";
      } else {
        input := DropLast(input);
      }
    }

    /** The sign key: flips the sign of the answer if there is one (moving
        it to the input and clearing the answer), and of the input if not;
        nothing happens while the answer shows the invalid input message. */
    method ChangePlusMinus()
      modifies this
      ensures old(answer) == InvalidInput ==> input == old(input) && answer == old(answer)
      ensures old(answer) != InvalidInput ==>
        answer == "" && input == ToggleSign(if old(answer) != "" then old(answer) else old(input))
    {
      if answer == InvalidInput {
        return;
      } else if answer != "" {
        input := ToggleSign(answer);
        answer := "";
      } else {
        input := ToggleSign(input);
      }
    }

    /** The equals key. The input is normalised and bracket-checked; an
        unbalanced expression gives the bracket message without `eval`
        being consulted; otherwise `eval` decides, and a throw gives the
        invalid input message (or the bracket message, if that is what
        the thrown object says). The input is kept. */
    method CalculateAns(eval: string -> Evaluation)
      modifies this
      ensures input == old(input)
      ensures old(input) == "" ==> answer == old(answer)
      ensures old(input) != "" && !Balanced(old(input)) ==> answer == UnbalancedBrackets
      ensures old(input) != "" && Balanced(old(input)) ==>
        match eval(Normalised(old(input)))
        case Returned(v) => answer == v
        case Raised(m) => answer == if m == UnbalancedBrackets then UnbalancedBrackets else InvalidInput
    {
      if input == "" {
        return;
      }
      var finalExpression := Normalise(input);
      NormalisedPreservesBalance(input);
      var balanced := CheckBracketBalanced(finalExpression);
      var result: string;
      if !balanced {
        result := UnbalancedBrackets;
      } else {
        match eval(finalExpression)
        case Returned(v) =>
          result := v;
        case Raised(m) =>
          result := if m == UnbalancedBrackets then UnbalancedBrackets else InvalidInput;
      }
      answer := result;
    }
  }

  /** Flipping twice gives back a signed text; an unsigned one comes back
      with an explicit '+'. */
  lemma ToggleSignTwice(s: string)
    ensures s != [] && s[0] in "+-" ==> ToggleSign(ToggleSign(s)) == s
    ensures !(s != [] && s[0] in "+-") ==> ToggleSign(ToggleSign(s)) == "+" + s
  {
  }

  /** Only the four special keys are rewritten before they are appended. */
  lemma RemapOnlySpecialKeys(key: string)
    ensures Remap(key) != key <==> key in {"x2", "x3", "3√", "log"}
  {
  }

  /** A session: "2", "x", "3", equals (evaluating to 6), then "+" and
      "4" continue from the answer. */
  method ContinueFromAnswer(eval: string -> Evaluation) returns (typed: string, shown: string)
    requires eval("2*3") == Returned("6")
    ensures typed == "6+4" && shown == ""
  {
    var c := new Calculator();
    c.InputHandler("2");
    c.InputHandler("x");
    c.InputHandler("3");
    assert c.input == "2x3";
    assert NoRoot("2x3");
    assert Normalised("2x3") == "2*3";
    NoBracketsBalanced("2x3");
    c.CalculateAns(eval);
    c.InputHandler("+");
    c.InputHandler("4");
    typed, shown := c.input, c.answer;
  }

  /** A session that ends in the invalid input message: further keys and
      the sign key are refused, but backspace (which has no such guard)
      turns the message itself into the input. */
  method LockedAfterInvalidInput(eval: string -> Evaluation) returns (typed: string, shown: string)
    requires eval("5*") == Raised("Unexpected token")
    ensures typed == "Invalid Input!" && shown == ""
  {
    var c := new Calculator();
    c.InputHandler("5");
    c.InputHandler("x");
    assert NoRoot("5x");
    assert Normalised("5x") == "5*";
    NoBracketsBalanced("5x");
    assert c.input == "5x";
    assert "Unexpected token" != UnbalancedBrackets by {
      assert |"Unexpected token"| != |UnbalancedBrackets|;
    }
    assert eval(Normalised(c.input)) == Raised("Unexpected token");
    c.CalculateAns(eval);
    assert c.answer == InvalidInput;
    c.InputHandler("7");
    c.ChangePlusMinus();
    assert c.input == "5x" && c.answer == InvalidInput;
    c.Backspace();
    typed, shown := c.input, c.answer;
  }
}
