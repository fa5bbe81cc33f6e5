/** The history list (script.js:76-116): entries newest first, capped at
    fifty, each carrying the value that a click on it inserts into the
    expression. */
module History {
  import opened Wrappers
  import opened Text

  /** One past calculation or tool solve. `rawValue` is what replay inserts;
      entries written by this program always carry one, but a list read back
      from storage may hold entries written without it. */
  datatype Entry = Entry(expression: string, result: string, rawValue: Option<string>)

  /** The most entries a single insertion keeps. */
  const Capacity: nat := 50

  /** The entry `addToHistory` builds: an absent raw value defaults to the result. */
  function MakeEntry(expression: string, result: string, rawValue: Option<string>): (e: Entry)
    ensures e.expression == expression && e.result == result
    ensures e.rawValue.Some?
    ensures rawValue.Some? ==> e.rawValue == rawValue
    ensures rawValue.None? ==> e.rawValue == Some(result)
  {
    Entry(expression, result, Some(rawValue.GetOr(result)))
  }

  /** Put `e` in front; if the list has then grown past the capacity, drop
      its last (oldest) entry, and only that one. */
  function Push(h: seq<Entry>, e: Entry): (r: seq<Entry>)
    ensures 0 < |r| <= |h| + 1 && r[0] == e
    ensures |h| < Capacity ==> r[1..] == h
    ensures |h| >= Capacity ==> r[1..] == DropLast(h)
    ensures |h| <= Capacity ==> |r| <= Capacity
    ensures |h| > Capacity ==> |r| == |h|
  {
    var pushed := [e] + h;
    if |pushed| > Capacity then DropLast(pushed) else pushed
  }

  /** `addToHistory(expression, result, rawValue)`. */
  function Add(h: seq<Entry>, expression: string, result: string, rawValue: Option<string>): (r: seq<Entry>)
    ensures 0 < |r| <= |h| + 1 && r[0] == MakeEntry(expression, result, rawValue)
    ensures |h| < Capacity ==> |r| == |h| + 1
    ensures |h| >= Capacity ==> |r| == |h|
    ensures |h| <= Capacity ==> |r| <= Capacity
    ensures forall k :: 1 <= k < |r| ==> r[k] == h[k - 1]
  {
    Push(h, MakeEntry(expression, result, rawValue))
  }

  /** The first `n` entries of `h` (all of them when there are fewer). */
  function Take(h: seq<Entry>, n: nat): seq<Entry> {
    if |h| <= n then h else h[..n]
  }

  function Reverse(es: seq<Entry>): (r: seq<Entry>)
    ensures |r| == |es|
    ensures forall k :: 0 <= k < |es| ==> r[k] == es[|es| - 1 - k]
  {
    if es == [] then [] else [Last(es)] + Reverse(DropLast(es))
  }

  /** Pushing entries one after another, oldest first. */
  function PushAll(h: seq<Entry>, es: seq<Entry>): seq<Entry> {
    if es == [] then h else Push(PushAll(h, DropLast(es)), Last(es))
  }

  /** On a list within capacity, a push is "put in front, keep the newest fifty". */
  lemma PushKeepsNewest(h: seq<Entry>, e: Entry)
    requires |h| <= Capacity
    ensures Push(h, e) == Take([e] + h, Capacity)
  {
  }

  /** However many entries are recorded into a list within capacity, the
      list holds the fifty most recent entries, newest first, followed by as
      many of the earlier ones as still fit: the oldest are evicted first. */
  lemma {:induction false} PushAllKeepsNewest(h: seq<Entry>, es: seq<Entry>)
    requires |h| <= Capacity
    ensures PushAll(h, es) == Take(Reverse(es) + h, Capacity)
    ensures |PushAll(h, es)| <= Capacity
  {
    if es != [] {
      var prev := PushAll(h, DropLast(es));
      PushAllKeepsNewest(h, DropLast(es));
      var all := Reverse(DropLast(es)) + h;
      assert Reverse(es) + h == [Last(es)] + all;
      PushKeepsNewest(prev, Last(es));
      if |all| > Capacity {
        assert ([Last(es)] + all[..Capacity])[..Capacity] == ([Last(es)] + all)[..Capacity];
      }
    }
  }

  /** The value a rendered entry replays: its raw value when present, else its result. */
  function ReplayValue(e: Entry): (v: string)
    ensures e.rawValue.Some? ==> v == e.rawValue.value
    ensures e.rawValue.None? ==> v == e.result
  {
    e.rawValue.GetOr(e.result)
  }

  /** Number of single quotes in `s`. */
  function QuoteCount(s: string): nat {
    if s == [] then 0 else QuoteCount(DropLast(s)) + (if Last(s) == '\'' then 1 else 0)
  }

  /** Every single quote of `t` is directly preceded by a backslash. */
  predicate QuotesEscaped(t: string) {
    forall i :: 0 <= i < |t| && t[i] == '\'' ==> i > 0 && t[i - 1] == '\\'
  }

  /** `String(v).replace(/'/g, "\\'")`: each single quote gets a backslash
      in front, so that the value can sit inside a single-quoted literal. */
  function Escape(s: string): (t: string)
    ensures |t| == |s| + QuoteCount(s)
    ensures QuotesEscaped(t)
  {
    if s == [] then []
    else if Last(s) == '\'' then Escape(DropLast(s)) + ['\\', '\'']
    else Escape(DropLast(s)) + [Last(s)]
  }

  /** Reads an escaped value back: a backslash followed by a quote stands
      for the quote. */
  function Unescape(t: string): string {
    if t == [] then []
    else if |t| >= 2 && Last(t) == '\'' && t[|t| - 2] == '\\' then Unescape(t[..|t| - 2]) + ['\'']
    else Unescape(DropLast(t)) + [Last(t)]
  }

  lemma UnescapeSnocQuote(e: string)
    ensures Unescape(e + ['\\', '\'']) == Unescape(e) + ['\'']
  {
    var t := e + ['\\', '\''];
    assert t[..|t| - 2] == e;
  }

  lemma UnescapeSnocOther(e: string, c: char)
    requires c != '\''
    ensures Unescape(e + [c]) == Unescape(e) + [c]
  {
    assert DropLast(e + [c]) == e;
  }

  /** Escaping one more character and reading it back adds just that character. */
  lemma EscapeSnocRoundTrip(init: string, c: char)
    ensures Unescape(Escape(init + [c])) == Unescape(Escape(init)) + [c]
  {
    assert DropLast(init + [c]) == init && Last(init + [c]) == c;
    if c == '\'' {
      UnescapeSnocQuote(Escape(init));
    } else {
      UnescapeSnocOther(Escape(init), c);
    }
  }

  /** Escaping loses nothing: reading the escaped value back gives the value. */
  lemma {:induction false} EscapeRoundTrip(s: string)
    ensures Unescape(Escape(s)) == s
  {
    if s != [] {
      var init := DropLast(s);
      EscapeRoundTrip(init);
      assert s == init + [Last(s)];
      EscapeSnocRoundTrip(init, Last(s));
    }
  }
}
