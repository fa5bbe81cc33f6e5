/** Keypad input (script.js:205-305): which handler a button press reaches,
    how a digit or point is typed, and how an action edits the expression. */
module Keypad {
  import opened Wrappers
  import opened Text

  // ----- digits and the decimal point -----

  /** `handleNumber`: a point is refused when the number being typed already
      has one; anything else a button carries is appended as it is. */
  function HandleNumber(expr: string, num: string): (r: string)
    ensures r == expr || r == expr + num
    ensures num == "." ==> (r == expr <==> '.' in LastSegment(expr))
    ensures num != "." ==> r == expr + num
    ensures num == "." ==> '.' in LastSegment(r)
  {
    if num == "." && '.' in LastSegment(expr) then expr
    else
      assert num == "." ==> LastSegment(expr + num) == LastSegment(expr) + ['.'] by {
        if num == "." {
          SegmentsOfSnoc(expr, '.');
        }
      }
      expr + num
  }

  /** The point guard keeps every numeric segment within one point, for any
      button text that carries no point of its own. */
  lemma NumberKeepsPoints(expr: string, num: string)
    requires WellPointed(expr)
    requires num == "." || '.' !in num
    ensures WellPointed(HandleNumber(expr, num))
    ensures num == "." ==> PointCount(LastSegment(HandleNumber(expr, num))) == 1
  {
    if num == "." {
      if '.' !in LastSegment(expr) {
        WellPointedSnoc(expr, '.');
      }
    } else {
      WellPointedAppend(expr, num);
    }
  }

  // ----- actions that edit the expression -----

  /** Actions that open a call: they append the name and an opening parenthesis. */
  predicate IsFunctionAction(a: string) {
    a in {"sin", "cos", "tan", "log", "ln", "sqrt", "asin", "acos", "atan", "abs"}
  }

  /** The fixed text of the special tokens. */
  function SpecialText(a: string): Option<string> {
    if a == "factorial" then Some("!")
    else if a == "inv" then Some("1/")
    else if a == "sqr" then Some("^2")
    else if a == "pow10" then Some("10^")
    else if a == "exp" then Some("e^")
    else if a == "pow" then Some("^")
    else if a == "pi" then Some("pi")
    else if a == "e" then Some("e")
    else None
  }

  /** An action that is one of the six guarded operators. */
  predicate IsOperatorAction(a: string) {
    |a| == 1 && IsOperator(a[0])
  }

  /** The text an action adds to the expression, when it is an append. */
  function AppendedText(a: string): string {
    if IsFunctionAction(a) then a + "("
    else if SpecialText(a).Some? then SpecialText(a).value
    else a
  }

  /** What `handleAction` does to the expression for every action other
      than `tools`, `clear` and `calculate` (which the session handles):
      `delete` drops the last character; a guarded operator typed after a
      guarded operator replaces it; every other action appends its text. */
  function EditBuffer(expr: string, action: string): (r: string)
    ensures action == "delete" && expr == [] ==> r == []
    ensures action == "delete" && expr != [] ==> r + [Last(expr)] == expr
    ensures action != "delete" && IsOperatorAction(action) && expr != [] && IsOperator(Last(expr)) ==>
      |r| == |expr| && r[..|r| - 1] == expr[..|expr| - 1] && Last(r) == action[0]
    ensures action != "delete" && !(IsOperatorAction(action) && expr != [] && IsOperator(Last(expr))) ==>
      r == expr + AppendedText(action)
    ensures IsFunctionAction(action) ==> r == expr + action + "("
    ensures SpecialText(action).Some? ==> r == expr + SpecialText(action).value
  {
    if action == "delete" then
      if expr == [] then [] else DropLast(expr)
    else if IsOperatorAction(action) && expr != [] && IsOperator(Last(expr)) then
      DropLast(expr) + action
    else
      expr + AppendedText(action)
  }

  /** No two guarded operators stand side by side. */
  predicate NoDoubledOperators(s: string) {
    forall i :: 0 < i < |s| ==> !(IsOperator(s[i - 1]) && IsOperator(s[i]))
  }

  /** The keypad's own tokens: the function and special actions, `delete`,
      and single-character actions (operators and parentheses). */
  predicate IsKeypadAction(a: string) {
    a == "delete" || IsFunctionAction(a) || SpecialText(a).Some? || |a| == 1
  }

  lemma AppendKeepsNoDoubled(s: string, a: string)
    requires NoDoubledOperators(s)
    requires NoDoubledOperators(a)
    requires s != [] && a != [] ==> !(IsOperator(Last(s)) && IsOperator(a[0]))
    ensures NoDoubledOperators(s + a)
  {
    var t := s + a;
    forall i | 0 < i < |t|
      ensures !(IsOperator(t[i - 1]) && IsOperator(t[i]))
    {
      if i < |s| {
        assert t[i - 1] == s[i - 1] && t[i] == s[i];
      } else if i == |s| {
        assert t[i - 1] == Last(s) && t[i] == a[0];
      } else {
        assert t[i - 1] == a[i - 1 - |s|] && t[i] == a[i - |s|];
      }
    }
  }

  /** Operator entry never doubles an operator, except through `sqr` (`^2`)
      and `pow` (`^`), whose text bypasses the operator guard. */
  lemma EditKeepsNoDoubled(expr: string, action: string)
    requires NoDoubledOperators(expr)
    requires IsKeypadAction(action)
    requires action != "sqr" && action != "pow"
    ensures NoDoubledOperators(EditBuffer(expr, action))
  {
    var r := EditBuffer(expr, action);
    if action == "delete" {
      if expr != [] {
        assert forall i :: 0 <= i < |r| ==> r[i] == expr[i];
      }
    } else if IsOperatorAction(action) && expr != [] && IsOperator(Last(expr)) {
      var p := DropLast(expr);
      assert forall i :: 0 <= i < |p| ==> p[i] == expr[i];
      if p != [] {
        assert Last(p) == expr[|expr| - 2];
      }
      AppendKeepsNoDoubled(p, action);
    } else {
      var a := AppendedText(action);
      if IsFunctionAction(action) {
        assert forall i :: 0 <= i < |action| ==> !IsOperator(action[i]);
        assert forall i :: 0 <= i < |a| - 1 ==> a[i] == action[i];
      }
      AppendKeepsNoDoubled(expr, a);
    }
  }

  /** The guard's gap: after `3+`, the `pow` key gives `3+^`. */
  lemma PowDoublesOperator()
    ensures EditBuffer("3+", "pow") == "3+^"
    ensures !NoDoubledOperators(EditBuffer("3+", "pow"))
  {
    var r := EditBuffer("3+", "pow");
    assert IsOperator(r[1]) && IsOperator(r[2]);
  }

  /** Editing never adds a point unless the action's own text has one. */
  lemma EditKeepsPoints(expr: string, action: string)
    requires WellPointed(expr)
    requires '.' !in action
    ensures WellPointed(EditBuffer(expr, action))
  {
    if action == "delete" {
      if expr != [] {
        WellPointedDropLast(expr);
      }
    } else if IsOperatorAction(action) && expr != [] && IsOperator(Last(expr)) {
      WellPointedDropLast(expr);
      WellPointedAppend(DropLast(expr), action);
    } else {
      var a := AppendedText(action);
      assert '.' !in a by {
        if IsFunctionAction(action) {
          assert a == action + "(";
        }
      }
      WellPointedAppend(expr, a);
    }
  }

  /** `delete` undoes any action that appended a single character. */
  lemma DeleteUndoesAppend(expr: string, action: string)
    requires action != "delete"
    requires !(IsOperatorAction(action) && expr != [] && IsOperator(Last(expr)))
    requires |AppendedText(action)| == 1
    ensures EditBuffer(EditBuffer(expr, action), "delete") == expr
  {
    var r := EditBuffer(expr, action);
    assert r == expr + AppendedText(action);
    assert DropLast(r) == expr;
  }

  // ----- dispatch -----

  /** A keypad button: its `data-action`, `data-value` and `data-alt`
      attributes, each of which may be absent. */
  datatype Key = Key(action: Option<string>, value: Option<string>, alt: Option<string>)

  /** Which handler a press reaches. */
  datatype Route = Number(num: string) | Action(name: string) | Ignored

  /** Present and non-empty: the attribute is truthy. */
  predicate Truthy(a: Option<string>) {
    a.Some? && a.value != ""
  }

  /** The click handler's choice: a value, even an empty one, goes to
      `handleNumber`; otherwise a non-empty action goes to `handleAction`,
      replaced by the alternate when second mode is on and the button has one. */
  function Dispatch(isSecond: bool, k: Key): (r: Route)
    ensures k.value.Some? ==> r == Number(k.value.value)
    ensures k.value.None? && !Truthy(k.action) ==> r == Ignored
    ensures k.value.None? && Truthy(k.action) ==> r.Action?
    ensures r.Action? ==> Truthy(k.action) && (r.name == k.action.value || (isSecond && Truthy(k.alt) && r.name == k.alt.value))
    ensures r.Action? && isSecond && Truthy(k.alt) ==> r.name == k.alt.value
  {
    if k.value.Some? then Number(k.value.value)
    else if Truthy(k.action) then
      if isSecond && Truthy(k.alt) then Action(k.alt.value) else Action(k.action.value)
    else Ignored
  }

  /** Second mode only swaps a button's action for its alternate: with it
      off, or on a button without an alternate, the press routes as it
      would without second mode. */
  lemma SecondOnlySwapsAlternates(k: Key)
    ensures !Truthy(k.alt) ==> Dispatch(true, k) == Dispatch(false, k)
    ensures k.value.Some? ==> Dispatch(true, k) == Dispatch(false, k)
    ensures k.value.None? && Truthy(k.action) && Truthy(k.alt) ==>
      Dispatch(true, k) == Action(k.alt.value) && Dispatch(false, k) == Action(k.action.value)
  {
  }
}
