/** The calculator session (script.js:1-6): the expression being typed, the
    last result, the two mode flags and the history list, with the
    transitions a user can cause. The expression evaluator and its number
    formatting are a collaborator this model does not see: they are a
    function parameter that yields formatted text or an error. */
module Session {
  import opened Wrappers
  import opened Text
  import opened History
  import opened Keypad
  import opened Rewrite

  datatype Session = Session(
    expr: string,
    result: string,
    isDegree: bool,
    isSecond: bool,
    history: seq<Entry>
  )

  /** What evaluating and formatting an expression gives: the formatted
      result text, or a raised evaluation error. */
  datatype Outcome = Formatted(text: string) | EvalError

  /** The evaluator, given the rewritten text and whether angles are in degrees. */
  type Evaluator = (string, bool) -> Outcome

  /** The state at start-up, before a stored history is loaded. */
  function Initial(): (s: Session)
    ensures s.expr == "" && s.result == "" && s.history == []
    ensures s.isDegree && !s.isSecond
  {
    Session("", "", true, false, [])
  }

  /** The line shown above the result, `expression + " ="`. */
  function Annotated(expr: string): string {
    expr + " ="
  }

  /** The history's expression text: the annotated line minus its last two characters. */
  function StripAnnotation(line: string): string {
    if |line| < 2 then "" else line[..|line| - 2]
  }

  /** Annotating and then cutting two characters gives back the expression. */
  lemma AnnotationRoundTrip(expr: string)
    ensures StripAnnotation(Annotated(expr)) == expr
  {
  }

  /** `calculate`: an empty expression does nothing; otherwise the
      rewritten text is evaluated; on success the formatted result becomes
      both the result and the new expression, and an entry recording the
      expression as it was typed goes to the front of the history; on an
      error nothing changes. */
  function Calculate(s: Session, eval: Evaluator): (r: Session)
    ensures s.expr == "" ==> r == s
    ensures s.expr != "" && eval(NormalizeNames(s.expr), s.isDegree).EvalError? ==> r == s
    ensures s.expr != "" && eval(NormalizeNames(s.expr), s.isDegree).Formatted? ==>
      var v := eval(NormalizeNames(s.expr), s.isDegree).text;
      && r.expr == v
      && r.result == v
      && |r.history| > 0
      && r.history[0] == Entry(s.expr, v, Some(v))
      && (|s.history| < Capacity ==> |r.history| == |s.history| + 1)
      && (|s.history| >= Capacity ==> |r.history| == |s.history|)
      && (forall k :: 1 <= k < |r.history| ==> r.history[k] == s.history[k - 1])
    ensures r.isDegree == s.isDegree && r.isSecond == s.isSecond
    ensures |s.history| <= Capacity ==> |r.history| <= Capacity
  {
    if s.expr == "" then s
    else
      match eval(NormalizeNames(s.expr), s.isDegree)
      case EvalError => s
      case Formatted(v) =>
        AnnotationRoundTrip(s.expr);
        var line := Annotated(s.expr);
        s.(result := v, expr := v, history := Add(s.history, StripAnnotation(line), v, None))
  }

  /** `handleAction`: `tools` only opens a panel; `clear` empties the
      expression and the result; `calculate` evaluates; every other action
      edits the expression alone. */
  function HandleAction(s: Session, action: string, eval: Evaluator): (r: Session)
    ensures action == "tools" ==> r == s
    ensures action == "clear" ==> r == s.(expr := "", result := "")
    ensures action == "calculate" ==> r == Calculate(s, eval)
    ensures action !in {"tools", "clear", "calculate"} ==>
      r == s.(expr := EditBuffer(s.expr, action))
  {
    if action == "tools" then s
    else if action == "clear" then s.(expr := "", result := "")
    else if action == "calculate" then Calculate(s, eval)
    else s.(expr := EditBuffer(s.expr, action))
  }

  /** A button press, routed as the click handler routes it. */
  function Press(s: Session, k: Key, eval: Evaluator): (r: Session)
    ensures k.value.Some? ==> r == s.(expr := HandleNumber(s.expr, k.value.value))
    ensures k.value.None? && !Truthy(k.action) ==> r == s
    ensures k.value.None? && Truthy(k.action) ==>
      r == HandleAction(s, if s.isSecond && Truthy(k.alt) then k.alt.value else k.action.value, eval)
    ensures r.isDegree == s.isDegree && r.isSecond == s.isSecond
  {
    match Dispatch(s.isSecond, k)
    case Number(v) => s.(expr := HandleNumber(s.expr, v))
    case Action(a) => HandleAction(s, a, eval)
    case Ignored => s
  }

  /** The DEG/RAD button. */
  function ToggleDegree(s: Session): (r: Session)
    ensures r.isDegree == !s.isDegree
    ensures r.(isDegree := s.isDegree) == s
  {
    s.(isDegree := !s.isDegree)
  }

  /** The 2nd button. */
  function ToggleSecond(s: Session): (r: Session)
    ensures r.isSecond == !s.isSecond
    ensures r.(isSecond := s.isSecond) == s
  {
    s.(isSecond := !s.isSecond)
  }

  /** Pressing a toggle twice restores the session. */
  lemma TogglesAreInvolutions(s: Session)
    ensures ToggleDegree(ToggleDegree(s)) == s
    ensures ToggleSecond(ToggleSecond(s)) == s
  {
  }

  /** The clear-history button. */
  function ClearHistory(s: Session): (r: Session)
    ensures r.history == []
    ensures r.(history := s.history) == s
  {
    s.(history := [])
  }

  /** Clicking a rendered history entry: its replay value is appended to the expression. */
  function Replay(s: Session, e: Entry): (r: Session)
    ensures r.expr == s.expr + ReplayValue(e)
    ensures r.(expr := s.expr) == s
  {
    s.(expr := s.expr + ReplayValue(e))
  }

  /** A tool solver's successful solve: it records an entry whose replay
      value is the single number it computed. */
  function ToolSolved(s: Session, expression: string, display: string, value: string): (r: Session)
    ensures r.history == Add(s.history, expression, display, Some(value))
    ensures ReplayValue(r.history[0]) == value
    ensures r.(history := s.history) == s
  {
    s.(history := Add(s.history, expression, display, Some(value)))
  }

  /** Everything the user can do to a session. */
  datatype Event =
    | PressKey(key: Key)
    | FlipDegree
    | FlipSecond
    | WipeHistory
    | ReplayEntry(index: nat)
    | Solve(expression: string, display: string, value: string)

  function Step(s: Session, ev: Event, eval: Evaluator): Session {
    match ev
    case PressKey(k) => Press(s, k, eval)
    case FlipDegree => ToggleDegree(s)
    case FlipSecond => ToggleSecond(s)
    case WipeHistory => ClearHistory(s)
    case ReplayEntry(i) => if i < |s.history| then Replay(s, s.history[i]) else s
    case Solve(x, d, v) => ToolSolved(s, x, d, v)
  }

  function Run(s: Session, evs: seq<Event>, eval: Evaluator): Session
    decreases |evs|
  {
    if evs == [] then s else Run(Step(s, evs[0], eval), evs[1..], eval)
  }

  /** The session invariant: the history is within capacity. */
  predicate Valid(s: Session) {
    |s.history| <= Capacity
  }

  lemma StepKeepsValid(s: Session, ev: Event, eval: Evaluator)
    requires Valid(s)
    ensures Valid(Step(s, ev, eval))
  {
  }

  /** However the session is used, the history never exceeds fifty entries. */
  lemma {:induction false} RunKeepsValid(s: Session, evs: seq<Event>, eval: Evaluator)
    requires Valid(s)
    ensures Valid(Run(s, evs, eval))
    decreases |evs|
  {
    if evs != [] {
      StepKeepsValid(s, evs[0], eval);
      RunKeepsValid(Step(s, evs[0], eval), evs[1..], eval);
    }
  }

  /** A button that only types: its value is a point or has none, and its
      actions neither evaluate nor carry a point. */
  predicate TypingKey(k: Key) {
    && (k.value.Some? ==> k.value.value == "." || '.' !in k.value.value)
    && (k.action.Some? ==> k.action.value != "calculate" && '.' !in k.action.value)
    && (k.alt.Some? ==> k.alt.value != "calculate" && '.' !in k.alt.value)
  }

  /** Events that cannot bring a second point into a number. */
  predicate TypingEvent(ev: Event) {
    match ev
    case PressKey(k) => TypingKey(k)
    case ReplayEntry(_) => false
    case _ => true
  }

  lemma StepKeepsPoints(s: Session, ev: Event, eval: Evaluator)
    requires WellPointed(s.expr)
    requires TypingEvent(ev)
    ensures WellPointed(Step(s, ev, eval).expr)
  {
    if ev.PressKey? {
      var k := ev.key;
      match Dispatch(s.isSecond, k)
      case Number(v) =>
        NumberKeepsPoints(s.expr, v);
      case Action(a) =>
        if a == "clear" {
          assert Segments("") == [""];
        } else if a != "tools" {
          EditKeepsPoints(s.expr, a);
        }
      case Ignored =>
    }
  }

  /** Typing alone, through any sequence of key presses, toggles, solves and
      history clears, never leaves two decimal points in one number. */
  lemma {:induction false} TypingKeepsPoints(s: Session, evs: seq<Event>, eval: Evaluator)
    requires WellPointed(s.expr)
    requires forall i :: 0 <= i < |evs| ==> TypingEvent(evs[i])
    ensures WellPointed(Run(s, evs, eval).expr)
    decreases |evs|
  {
    if evs != [] {
      StepKeepsPoints(s, evs[0], eval);
      TypingKeepsPoints(Step(s, evs[0], eval), evs[1..], eval);
    }
  }
}
