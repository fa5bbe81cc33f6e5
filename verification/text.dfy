/** Character classes of the expression buffer, and its numeric segments:
    the pieces the buffer falls into when it is split on the separator class
    `+ - * / % ^ ( )` (script.js:231), together with the invariant that no
    segment holds more than one decimal point. */
module Text {

  /** A separator closes the current numeric segment. */
  predicate IsSeparator(c: char) {
    c == '+' || c == '-' || c == '*' || c == '/' || c == '%' || c == '^' || c == '(' || c == ')'
  }

  /** The six binary operators that the keypad refuses to double. */
  predicate IsOperator(c: char) {
    c == '+' || c == '-' || c == '*' || c == '/' || c == '%' || c == '^'
  }

  /** A character of the regular-expression class `\w`: ASCII letter, digit or underscore. */
  predicate IsWordChar(c: char) {
    ('a' <= c <= 'z') || ('A' <= c <= 'Z') || ('0' <= c <= '9') || c == '_'
  }

  function Last<T>(s: seq<T>): T
    requires |s| > 0
  {
    s[|s| - 1]
  }

  function DropLast<T>(s: seq<T>): seq<T>
    requires |s| > 0
  {
    s[..|s| - 1]
  }

  predicate SeparatorFree(s: string) {
    forall j :: 0 <= j < |s| ==> !IsSeparator(s[j])
  }

  /** Number of separator characters in `s`. */
  function SeparatorCount(s: string): nat {
    if s == [] then 0
    else SeparatorCount(DropLast(s)) + (if IsSeparator(Last(s)) then 1 else 0)
  }

  /** `s` with every separator removed. */
  function Strip(s: string): string {
    if s == [] then []
    else if IsSeparator(Last(s)) then Strip(DropLast(s))
    else Strip(DropLast(s)) + [Last(s)]
  }

  /** The concatenation of a list of strings. */
  function Concat(ss: seq<string>): string {
    if ss == [] then [] else Concat(DropLast(ss)) + Last(ss)
  }

  /** The result of splitting `s` on the separator class, as the host
      language's string split does it (empty pieces kept, separators
      dropped); `SegmentsCount`, `SegmentsConcat`, `SegmentsSeparatorFree`
      and `LastSegmentIsTail` state what the pieces are. */
  function Segments(s: string): (r: seq<string>)
    ensures |r| > 0
  {
    if s == [] then [""]
    else
      var p := Segments(DropLast(s));
      var c := Last(s);
      if IsSeparator(c) then p + [""]
      else DropLast(p) + [Last(p) + [c]]
  }

  /** The split has one piece more than there are separators. */
  lemma {:induction false} SegmentsCount(s: string)
    ensures |Segments(s)| == SeparatorCount(s) + 1
  {
    if s != [] {
      SegmentsCount(DropLast(s));
    }
  }

  /** The pieces, put back together, are the text without its separators. */
  lemma {:induction false} SegmentsConcat(s: string)
    ensures Concat(Segments(s)) == Strip(s)
  {
    if s != [] {
      SegmentsConcat(DropLast(s));
      var p := Segments(DropLast(s));
      var c := Last(s);
      if IsSeparator(c) {
        assert DropLast(p + [""]) == p;
      } else {
        var q := DropLast(p) + [Last(p) + [c]];
        assert DropLast(q) == DropLast(p);
        assert Concat(p) == Concat(DropLast(p)) + Last(p);
        assert Concat(q) == Concat(DropLast(p)) + (Last(p) + [c]);
      }
    }
  }

  /** No piece contains a separator. */
  lemma {:induction false} SegmentsSeparatorFree(s: string)
    ensures forall k :: 0 <= k < |Segments(s)| ==> SeparatorFree(Segments(s)[k])
  {
    if s != [] {
      SegmentsSeparatorFree(DropLast(s));
      var p := Segments(DropLast(s));
      var c := Last(s);
      if !IsSeparator(c) {
        var q := DropLast(p) + [Last(p) + [c]];
        assert forall k :: 0 <= k < |q| - 1 ==> q[k] == p[k];
        assert SeparatorFree(Last(p));
      }
    }
  }

  /** The text after the last separator: the number being typed. */
  function LastSegment(s: string): string {
    Last(Segments(s))
  }

  function PointCount(s: string): nat {
    multiset(s)['.']
  }

  /** Every numeric segment of `s` holds at most one decimal point. */
  predicate WellPointed(s: string) {
    var segs := Segments(s);
    forall k :: 0 <= k < |segs| ==> PointCount(segs[k]) <= 1
  }

  /** The last segment is exactly the tail of `s` after its last separator:
      a separator-free suffix that is either all of `s` or directly preceded
      by a separator. */
  lemma {:induction false} LastSegmentIsTail(s: string)
    ensures |LastSegment(s)| <= |s|
    ensures LastSegment(s) == s[|s| - |LastSegment(s)|..]
    ensures SeparatorFree(LastSegment(s))
    ensures |LastSegment(s)| < |s| ==> IsSeparator(s[|s| - |LastSegment(s)| - 1])
  {
    if s != [] {
      LastSegmentIsTail(DropLast(s));
      var t := LastSegment(DropLast(s));
      var n := |s|;
      if !IsSeparator(Last(s)) {
        assert LastSegment(s) == t + [Last(s)];
        assert s == DropLast(s) + [Last(s)];
        assert DropLast(s)[n - 1 - |t|..] == t;
        assert s[n - |t| - 1..] == DropLast(s)[n - 1 - |t|..] + [Last(s)];
        if |t| + 1 < n {
          assert s[n - |t| - 2] == DropLast(s)[n - 1 - |t| - 1];
        }
      }
    }
  }

  /** Appending one character either opens a new, empty segment (a
      separator) or extends the last segment by that character; the earlier
      segments are untouched. */
  lemma SegmentsOfSnoc(s: string, c: char)
    ensures IsSeparator(c) ==> Segments(s + [c]) == Segments(s) + [""]
    ensures !IsSeparator(c) ==>
      Segments(s + [c]) == DropLast(Segments(s)) + [LastSegment(s) + [c]]
  {
    assert DropLast(s + [c]) == s;
  }

  /** Typing a character keeps every segment within one point, provided a
      point is only typed into a segment that has none. */
  lemma WellPointedSnoc(s: string, c: char)
    requires WellPointed(s)
    requires c == '.' ==> '.' !in LastSegment(s)
    ensures WellPointed(s + [c])
  {
    SegmentsOfSnoc(s, c);
    var p := Segments(s);
    var q := Segments(s + [c]);
    if IsSeparator(c) {
      assert forall k :: 0 <= k < |p| ==> q[k] == p[k];
      assert PointCount(q[|p|]) == 0;
    } else {
      var n := |p|;
      assert forall k :: 0 <= k < n - 1 ==> q[k] == p[k];
      assert multiset(LastSegment(s) + [c]) == multiset(LastSegment(s)) + multiset{c};
      if c == '.' {
        assert '.' !in multiset(LastSegment(s));
      }
      assert PointCount(q[n - 1]) <= 1;
    }
  }

  /** Appending text that contains no point keeps every segment within one point. */
  lemma {:induction false} WellPointedAppend(s: string, a: string)
    requires WellPointed(s)
    requires '.' !in a
    ensures WellPointed(s + a)
  {
    if a != [] {
      WellPointedAppend(s, DropLast(a));
      assert s + a == (s + DropLast(a)) + [Last(a)];
      WellPointedSnoc(s + DropLast(a), Last(a));
    } else {
      assert s + a == s;
    }
  }

  /** Removing the last character keeps every segment within one point: the
      segments of the shorter text are segments of the longer one, except
      perhaps the last, which is a prefix of one. */
  lemma WellPointedDropLast(s: string)
    requires |s| > 0
    requires WellPointed(s)
    ensures WellPointed(DropLast(s))
  {
    var t := DropLast(s);
    assert s == t + [Last(s)];
    SegmentsOfSnoc(t, Last(s));
    var p := Segments(t);
    var q := Segments(s);
    if IsSeparator(Last(s)) {
      assert forall k :: 0 <= k < |p| ==> p[k] == q[k];
    } else {
      var n := |p|;
      assert forall k :: 0 <= k < n - 1 ==> p[k] == q[k];
      assert q[n - 1] == Last(p) + [Last(s)];
      assert multiset(q[n - 1]) == multiset(Last(p)) + multiset{Last(s)};
      assert PointCount(p[n - 1]) <= PointCount(q[n - 1]);
    }
  }
}
