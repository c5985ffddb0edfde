/** The bold-spacing check: a line is reported when one of its `**bold**`
    spans touches a character that is neither white space, `*` nor one of
    the CJK punctuation marks that may sit next to bold text. */
module CheckMarkdown {
  import opened Wrappers
  import opened JsString
  import opened Recognizers

  /** One entry of the result: a 1-based line number and the line's text. */
  datatype Problem = Problem(lineNumber: nat, content: string)

  // -------------------------------------------------------------------
  // Lines

  /** A line without its final carriage return, if it has one. */
  function StripCr(t: string): string {
    if |t| > 0 && t[|t| - 1] == '\r' then t[..|t| - 1] else t
  }

  /** `text.split(/\r?\n/)`: the text between line feeds, a carriage
      return just before a line feed belonging to the separator. */
  function SplitLines(text: string): (lines: seq<string>)
    decreases |text|
    ensures |lines| > 0
  {
    match IndexOf(text, "\n", 0)
    case None => [text]
    case Some(k) => [StripCr(text[..k])] + SplitLines(text[k + 1..])
  }

  /** The number of line feeds in `t`. */
  function LineFeeds(t: string): nat
    decreases |t|
  {
    if |t| == 0 then 0 else (if t[0] == '\n' then 1 else 0) + LineFeeds(t[1..])
  }

  lemma {:induction false} LineFeedsSplit(a: string, b: string)
    ensures LineFeeds(a + b) == LineFeeds(a) + LineFeeds(b)
    decreases |a|
  {
    if |a| > 0 {
      assert (a + b)[0] == a[0];
      assert (a + b)[1..] == a[1..] + b;
      LineFeedsSplit(a[1..], b);
      assert LineFeeds(a + b) == (if a[0] == '\n' then 1 else 0) + LineFeeds(a[1..] + b);
    } else {
      assert a + b == b;
    }
  }

  /** A character missing from a text is missing from every slice of it. */
  lemma AbsentFromSlice(t: string, c: char, i: nat, j: nat)
    requires c !in t && i <= j <= |t|
    ensures c !in t[i..j]
  {
    forall d | d in t[i..j]
      ensures d != c
    {
      var n :| 0 <= n < j - i && t[i..j][n] == d;
      assert t[i + n] == d;
    }
  }

  /** `text.indexOf("\n")` in terms of the text's characters. */
  lemma LineFeedAt(text: string)
    ensures IndexOf(text, "\n", 0).None? ==> '\n' !in text
    ensures IndexOf(text, "\n", 0).Some? ==>
      var k := IndexOf(text, "\n", 0).value;
      k < |text| && text[k] == '\n' && '\n' !in text[..k]
  {
    var r := IndexOf(text, "\n", 0);
    var stop := if r.Some? then r.value else |text|;
    forall i | 0 <= i < stop
      ensures text[i] != '\n'
    {
      assert !StartsAt(text, i, "\n");
      assert text[i..i + 1] == [text[i]];
    }
    if r.Some? {
      assert text[r.value..r.value + 1] == "\n";
      forall c | c in text[..r.value]
        ensures c != '\n'
      {
        var n :| 0 <= n < r.value && text[..r.value][n] == c;
        assert text[n] == c;
      }
    }
  }

  lemma {:induction false} NoLineFeeds(t: string)
    requires '\n' !in t
    ensures LineFeeds(t) == 0
    decreases |t|
  {
    if |t| > 0 {
      AbsentFromSlice(t, '\n', 1, |t|);
      NoLineFeeds(t[1..]);
    }
  }

  /** There is one line more than there are line feeds, and no line holds
      a line feed. */
  lemma {:induction false} SplitLinesCount(text: string)
    ensures |SplitLines(text)| == LineFeeds(text) + 1
    ensures forall j :: 0 <= j < |SplitLines(text)| ==> '\n' !in SplitLines(text)[j]
    decreases |text|
  {
    LineFeedAt(text);
    match IndexOf(text, "\n", 0)
    case None =>
      NoLineFeeds(text);
    case Some(k) =>
      var head, tail := text[..k], text[k + 1..];
      SplitLinesCount(tail);
      assert text == head + ("\n" + tail);
      LineFeedsSplit(head, "\n" + tail);
      NoLineFeeds(head);
      assert ("\n" + tail)[1..] == tail;
      StripCrAbsentChar(head, '\n');
      ConsWithout(StripCr(head), SplitLines(tail), '\n');
  }

  lemma StripCrAbsentChar(t: string, c: char)
    requires c !in t
    ensures c !in StripCr(t)
  {
    if |t| > 0 {
      AbsentFromSlice(t, c, 0, |t| - 1);
    }
  }

  lemma ConsWithout(head: string, rest: seq<string>, c: char)
    requires c !in head && forall j :: 0 <= j < |rest| ==> c !in rest[j]
    ensures forall j :: 0 <= j < |[head] + rest| ==> c !in ([head] + rest)[j]
  {
    forall j | 0 <= j < |[head] + rest|
      ensures c !in ([head] + rest)[j]
    {
      if j > 0 {
        assert ([head] + rest)[j] == rest[j - 1];
      }
    }
  }

  /** A text without carriage returns around a line feed at `k`. */
  lemma CutAtLineFeed(text: string, k: nat)
    requires '\r' !in text && k < |text| && text[k] == '\n'
    ensures '\r' !in text[..k] && '\r' !in text[k + 1..]
    ensures text == text[..k] + "\n" + text[k + 1..]
  {
    AbsentFromSlice(text, '\r', 0, k);
    AbsentFromSlice(text, '\r', k + 1, |text|);
    assert text[0..k] == text[..k] && text[k + 1..|text|] == text[k + 1..];
  }

  lemma StripCrAbsent(t: string)
    requires '\r' !in t
    ensures StripCr(t) == t
  {
    if |t| > 0 {
      assert t[|t| - 1] in t;
    }
  }

  lemma JoinCons(head: string, rest: seq<string>, sep: string)
    requires |rest| > 0
    ensures Join([head] + rest, sep) == head + sep + Join(rest, sep)
  {
    assert ([head] + rest)[1..] == rest;
  }

  /** A text without carriage returns is its lines joined by line feeds. */
  lemma {:induction false} SplitJoin(text: string)
    requires '\r' !in text
    ensures Join(SplitLines(text), "\n") == text
    decreases |text|
  {
    LineFeedAt(text);
    match IndexOf(text, "\n", 0)
    case None =>
    case Some(k) =>
      CutAtLineFeed(text, k);
      SplitJoin(text[k + 1..]);
      StripCrAbsent(text[..k]);
      JoinCons(text[..k], SplitLines(text[k + 1..]), "\n");
  }

  /** A text without line feeds is one line. */
  lemma NoLineFeedIndex(t: string)
    requires '\n' !in t
    ensures IndexOf(t, "\n", 0).None?
  {
    forall k | 0 <= k
      ensures !StartsAt(t, k, "\n")
    {
      if k + 1 <= |t| {
        assert t[k] in t;
        assert t[k..k + 1][0] == t[k];
      }
    }
  }

  /** The first line feed of `h + "\r\n" + rest`, when `h` has none, is the
      one of the separator. */
  lemma CrLfFirst(h: string, rest: string)
    requires '\n' !in h
    ensures IndexOf(h + "\r\n" + rest, "\n", 0) == Some(|h| + 1)
  {
    var t := h + "\r\n" + rest;
    forall j | 0 <= j < |h| + 1
      ensures !StartsAt(t, j, "\n")
    {
      assert t[j..j + 1][0] == t[j];
      if j < |h| {
        assert t[j] == h[j] && h[j] in h;
      }
    }
    assert t[|h| + 1..|h| + 2] == "\n";
    IndexOfFirst(t, "\n", |h| + 1);
  }

  /** Lines joined by "\r\n" split back into the same lines: the carriage
      return before each line feed belongs to the separator. */
  lemma {:induction false} SplitCrLfJoin(ls: seq<string>)
    requires |ls| > 0 && forall j :: 0 <= j < |ls| ==> '\n' !in ls[j]
    ensures SplitLines(Join(ls, "\r\n")) == ls
    decreases |ls|
  {
    if |ls| == 1 {
      NoLineFeedIndex(ls[0]);
    } else {
      var h, rest := ls[0], ls[1..];
      var tail := Join(rest, "\r\n");
      assert ls == [h] + rest;
      JoinCons(h, rest, "\r\n");
      var t := Join(ls, "\r\n");
      assert t == h + "\r\n" + tail;
      CrLfFirst(h, tail);
      assert t[..|h| + 1] == h + "\r";
      assert (h + "\r")[..|h|] == h;
      assert t[|h| + 2..] == tail;
      SplitCrLfJoin(rest);
    }
  }

  // -------------------------------------------------------------------
  // Neighbours of a bold span

  /** `\s` of JavaScript regular expressions: white space and line
      terminators. */
  predicate IsJsSpace(c: char) {
    c == '\t' || c == '\n' || c == '\U{B}' || c == '\U{C}' || c == '\r' || c == ' '
    || c == '\U{A0}' || c == '\U{1680}' || ('\U{2000}' <= c <= '\U{200A}')
    || c == '\U{2028}' || c == '\U{2029}' || c == '\U{202F}' || c == '\U{205F}'
    || c == '\U{3000}' || c == '\U{FEFF}'
  }

  /** The CJK punctuation that may touch bold text:
      fullwidth comma, ideographic full stop, fullwidth exclamation and
      question marks, fullwidth semicolon and colon, curly double quotes
      and the ideographic comma. */
  const CjkPunctuation: string := "，。！？；：“”、"

  /** `allowedChars`. */
  predicate Allowed(c: char) {
    IsJsSpace(c) || c == '*' || c in CjkPunctuation
  }

  /** A span is faulty when the character just before it or just after it
      exists and is not allowed; the edges of the line never count. */
  predicate FaultyAt(line: string, m: Match)
    requires |m.groups| > 0
  {
    (0 < m.index <= |line| && !Allowed(line[m.index - 1]))
    || (End(m) < |line| && !Allowed(line[End(m)]))
  }

  // -------------------------------------------------------------------
  // Bold spans of a line

  /** The offset just past a match of `Bold` lies within the line, after
      the search offset. */
  lemma BoldEndInLine(line: string, from: nat)
    requires FindFrom(Bold, line, from).Some?
    ensures from < End(FindFrom(Bold, line, from).value) <= |line|
  {
    FindFromSound(Bold, line, from);
  }

  /** The spans `exec` visits from `from` on, left to right. */
  function Spans(line: string, from: nat): (r: seq<Match>)
    decreases |line| - from
    ensures forall j :: 0 <= j < |r| ==> |r[j].groups| == 2 && from <= r[j].index
  {
    match FindFrom(Bold, line, from)
    case None => []
    case Some(m) =>
      BoldEndInLine(line, from);
      [m] + Spans(line, End(m))
  }

  /** The spans `sp` are bold spans `**x**` at or after `from`, with a
      non-empty `x` free of `*`, in order and without overlap. */
  predicate BoldSpans(line: string, from: nat, sp: seq<Match>) {
    && (forall j :: 0 <= j < |sp| ==>
          && from <= sp[j].index && |sp[j].groups| == 2 && |sp[j].groups[0]| >= 4
          && IsBold(line, sp[j].index, sp[j].groups[0][2..|sp[j].groups[0]| - 2]))
    && (forall j :: 0 <= j < |sp| - 1 ==> End(sp[j]) <= sp[j + 1].index)
  }

  /** A bold span followed by bold spans after its end. */
  lemma BoldSpansCons(line: string, from: nat, m: Match, rest: seq<Match>)
    requires from <= m.index && |m.groups| == 2 && |m.groups[0]| >= 4
    requires IsBold(line, m.index, m.groups[0][2..|m.groups[0]| - 2])
    requires BoldSpans(line, End(m), rest)
    ensures BoldSpans(line, from, [m] + rest)
  {
    var sp := [m] + rest;
    forall j | 0 <= j < |sp|
      ensures && from <= sp[j].index && |sp[j].groups| == 2 && |sp[j].groups[0]| >= 4
              && IsBold(line, sp[j].index, sp[j].groups[0][2..|sp[j].groups[0]| - 2])
    {
      if j > 0 {
        assert sp[j] == rest[j - 1];
      }
    }
    forall j | 0 <= j < |sp| - 1
      ensures End(sp[j]) <= sp[j + 1].index
    {
      assert sp[j + 1] == rest[j];
      if j > 0 {
        assert sp[j] == rest[j - 1];
      }
    }
  }

  /** The visited spans are bold spans. */
  lemma {:induction false} SpansAreBold(line: string, from: nat)
    ensures BoldSpans(line, from, Spans(line, from))
    decreases |line| - from
  {
    var r := FindFrom(Bold, line, from);
    if r.Some? {
      var m := r.value;
      BoldEndInLine(line, from);
      FindFromSound(Bold, line, from);
      BoldAtSound(line, m.index);
      SpansAreBold(line, End(m));
      BoldSpansCons(line, from, m, Spans(line, End(m)));
    }
  }

  /** Whether some span visited from `from` on is faulty: the inner loop,
      which stops at the first faulty span. */
  predicate FaultyFrom(line: string, from: nat)
    decreases |line| - from
  {
    match FindFrom(Bold, line, from)
    case None => false
    case Some(m) =>
      BoldEndInLine(line, from);
      FaultyAt(line, m) || FaultyFrom(line, End(m))
  }

  /** Some span in `sp` is faulty. */
  predicate AnyFaulty(line: string, sp: seq<Match>)
    requires forall j :: 0 <= j < |sp| ==> |sp[j].groups| > 0
  {
    exists j :: 0 <= j < |sp| && FaultyAt(line, sp[j])
  }

  lemma AnyFaultyCons(line: string, m: Match, rest: seq<Match>)
    requires |m.groups| > 0 && forall j :: 0 <= j < |rest| ==> |rest[j].groups| > 0
    ensures AnyFaulty(line, [m] + rest) <==> FaultyAt(line, m) || AnyFaulty(line, rest)
  {
    var sp := [m] + rest;
    if AnyFaulty(line, sp) {
      var j :| 0 <= j < |sp| && FaultyAt(line, sp[j]);
      if j > 0 {
        assert sp[j] == rest[j - 1];
      }
    }
    if AnyFaulty(line, rest) {
      var j :| 0 <= j < |rest| && FaultyAt(line, rest[j]);
      assert sp[j + 1] == rest[j] && FaultyAt(line, sp[j + 1]);
    }
    if FaultyAt(line, m) {
      assert sp[0] == m && FaultyAt(line, sp[0]);
    }
  }

  /** The loop reports a line exactly when one of its spans is faulty. */
  lemma {:induction false} FaultyFromSpans(line: string, from: nat)
    ensures FaultyFrom(line, from) <==> AnyFaulty(line, Spans(line, from))
    decreases |line| - from
  {
    var r := FindFrom(Bold, line, from);
    if r.Some? {
      var m := r.value;
      BoldEndInLine(line, from);
      FaultyFromSpans(line, End(m));
      assert Spans(line, from) == [m] + Spans(line, End(m));
      AnyFaultyCons(line, m, Spans(line, End(m)));
    }
  }

  /** No bold span starts in a stretch without `*`. */
  lemma NoBoldWithoutStar(line: string, lo: nat, hi: nat, k: nat)
    requires lo <= k < hi <= |line|
    requires forall j :: lo <= j < hi ==> line[j] != '*'
    ensures MatchAt(Bold, line, k).None?
  {
    if k + 2 <= |line| {
      assert line[k..k + 2][0] == line[k];
    }
    if MatchAt(Bold, line, k).Some? {
      MatchAtOpening(Bold, line, k);
    }
  }

  /** A bold span with no `*` before it is the first match `exec` finds. */
  lemma FirstBold(line: string, i: nat, inner: string)
    requires IsBold(line, i, inner)
    requires forall j :: 0 <= j < i ==> line[j] != '*'
    ensures var w := "**" + inner + "**"; FindFrom(Bold, line, 0) == Some(Match(i, [w, w]))
  {
    var w := "**" + inner + "**";
    BoldAtComplete(line, i, inner);
    assert MatchAt(Bold, line, i) == Some(Match(i, [w, w]));
    FindFromLeftmost(Bold, line, 0, i);
    FindFromSound(Bold, line, 0);
    var f := FindFrom(Bold, line, 0).value;
    if f.index < i {
      NoBoldWithoutStar(line, 0, i, f.index);
      assert false;
    }
    assert FindFrom(Bold, line, 0) == MatchAt(Bold, line, i);
  }

  /** In a line with one bold span `w`, `exec` finds `w` first. */
  lemma OneSpanFirst(a: string, inner: string, b: string, line: string)
    requires '*' !in a && |inner| > 0 && '*' !in inner
    requires line == a + "**" + inner + "**" + b
    ensures var w := "**" + inner + "**"; FindFrom(Bold, line, 0) == Some(Match(|a|, [w, w]))
  {
    var w := "**" + inner + "**";
    var i := |a|;
    assert line == a + w + b;
    assert line[i..i + |w|] == w;
    assert forall j :: 0 <= j < i ==> line[j] == a[j];
    FirstBold(line, i, inner);
  }

  /** After a text's last `*`, `exec` finds nothing. */
  lemma NothingAfter(prefix: string, b: string, line: string)
    requires '*' !in b && line == prefix + b
    ensures FindFrom(Bold, line, |prefix|) == None
  {
    forall k | |prefix| <= k <= |line|
      ensures !StartsAt(line, k, "**")
    {
      if k + 2 <= |line| {
        assert line[k] == b[k - |prefix|];
        assert line[k..k + 2][0] == line[k];
      }
    }
    FindFromAbsent(Bold, line, |prefix|);
  }

  /** A line whose only span is `m` is faulty exactly when `m` is. */
  lemma SingleSpan(line: string, m: Match)
    requires |m.groups| > 0
    requires FindFrom(Bold, line, 0) == Some(m) && FindFrom(Bold, line, End(m)) == None
    ensures FaultyFrom(line, 0) == FaultyAt(line, m)
  {
    BoldEndInLine(line, 0);
  }

  /** A line with one bold span is reported exactly when the text before
      it ends, or the text after it starts, with a character that is not
      allowed; a span at the start or the end of the line is never faulted
      on that side. */
  lemma OneSpanLine(a: string, inner: string, b: string)
    requires '*' !in a && '*' !in b && |inner| > 0 && '*' !in inner
    ensures var line := a + "**" + inner + "**" + b;
      FaultyFrom(line, 0) <==> (|a| > 0 && !Allowed(a[|a| - 1])) || (|b| > 0 && !Allowed(b[0]))
  {
    var w := "**" + inner + "**";
    var line := a + "**" + inner + "**" + b;
    OneSpanFirst(a, inner, b, line);
    assert line == (a + w) + b;
    OnlySpan(a, w, b, line);
  }

  /** When the first span of `(a + w) + b` is `w` and `b` holds no `*`, the
      line is reported exactly when a neighbour of `w` is not allowed. */
  lemma OnlySpan(a: string, w: string, b: string, line: string)
    requires line == (a + w) + b && '*' !in b
    requires FindFrom(Bold, line, 0) == Some(Match(|a|, [w, w]))
    ensures FaultyFrom(line, 0) <==> (|a| > 0 && !Allowed(a[|a| - 1])) || (|b| > 0 && !Allowed(b[0]))
  {
    NothingAfter(a + w, b, line);
    var m := Match(|a|, [w, w]);
    SingleSpan(line, m);
    SpanNeighbours(a, w, b, line, m);
  }

  /** The neighbours of a span `w` placed between `a` and `b` are the last
      character of `a` and the first of `b`. */
  lemma SpanNeighbours(a: string, w: string, b: string, line: string, m: Match)
    requires line == (a + w) + b && m == Match(|a|, [w, w])
    ensures FaultyAt(line, m) <==> (|a| > 0 && !Allowed(a[|a| - 1])) || (|b| > 0 && !Allowed(b[0]))
  {
    if |a| > 0 {
      assert line[|a| - 1] == a[|a| - 1];
    }
    if |b| > 0 {
      assert line[|a| + |w|] == b[0];
    }
  }

  // -------------------------------------------------------------------
  // The report

  /** The entries for the first `n` lines, in line order. */
  function Report(lines: seq<string>, n: nat): seq<Problem>
    requires n <= |lines|
    decreases n
  {
    if n == 0 then []
    else Report(lines, n - 1) + (if FaultyFrom(lines[n - 1], 0) then [Problem(n, lines[n - 1])] else [])
  }

  /** Entries carry 1-based line numbers, strictly increasing and at most
      `n`, each with exactly that line's text and only for lines with a
      faulty span. */
  predicate WellNumbered(lines: seq<string>, r: seq<Problem>, n: nat) {
    && (forall j :: 0 <= j < |r| ==>
          && 1 <= r[j].lineNumber <= n && r[j].lineNumber <= |lines|
          && r[j].content == lines[r[j].lineNumber - 1]
          && FaultyFrom(lines[r[j].lineNumber - 1], 0))
    && (forall i, j :: 0 <= i < j < |r| ==> r[i].lineNumber < r[j].lineNumber)
  }

  /** Appending nothing, or the entry of faulty line `n`, keeps a report
      well numbered. */
  lemma WellNumberedGrow(lines: seq<string>, prev: seq<Problem>, n: nat, extra: seq<Problem>)
    requires 0 < n <= |lines| && WellNumbered(lines, prev, n - 1)
    requires extra == [] || (extra == [Problem(n, lines[n - 1])] && FaultyFrom(lines[n - 1], 0))
    ensures WellNumbered(lines, prev + extra, n)
  {
    var r := prev + extra;
    forall j | 0 <= j < |r|
      ensures && 1 <= r[j].lineNumber <= n && r[j].lineNumber <= |lines|
              && r[j].content == lines[r[j].lineNumber - 1]
              && FaultyFrom(lines[r[j].lineNumber - 1], 0)
    {
      if j < |prev| {
        assert r[j] == prev[j];
      } else {
        assert r[j] == Problem(n, lines[n - 1]);
      }
    }
    forall i, j | 0 <= i < j < |r|
      ensures r[i].lineNumber < r[j].lineNumber
    {
      assert r[i] == prev[i];
      if j < |prev| {
        assert r[j] == prev[j];
      }
    }
  }

  /** The report for the first `n` lines is well numbered. */
  lemma {:induction false} ReportSound(lines: seq<string>, n: nat)
    requires n <= |lines|
    ensures WellNumbered(lines, Report(lines, n), n)
    decreases n
  {
    if n > 0 {
      ReportSound(lines, n - 1);
      var extra := if FaultyFrom(lines[n - 1], 0) then [Problem(n, lines[n - 1])] else [];
      WellNumberedGrow(lines, Report(lines, n - 1), n, extra);
    }
  }

  /** One more line adds its entry exactly when it has a faulty span. */
  lemma ReportStep(lines: seq<string>, n: nat)
    requires n < |lines|
    ensures FaultyFrom(lines[n], 0) ==> Report(lines, n + 1) == Report(lines, n) + [Problem(n + 1, lines[n])]
    ensures !FaultyFrom(lines[n], 0) ==> Report(lines, n + 1) == Report(lines, n)
  {
  }

  /** Every line with a faulty span has its entry. */
  lemma {:induction false} ReportComplete(lines: seq<string>, n: nat, k: nat)
    requires k < n <= |lines|
    requires FaultyFrom(lines[k], 0)
    ensures Problem(k + 1, lines[k]) in Report(lines, n)
    decreases n
  {
    if k < n - 1 {
      ReportComplete(lines, n - 1, k);
    }
  }

  /** checkMarkdownFormatIssuesForBold. */
  function CheckBold(text: string): seq<Problem> {
    var lines := SplitLines(text);
    Report(lines, |lines|)
  }

  /** Text in which "**" does not occur has no bold span, so nothing is
      reported. */
  lemma NoBoldNoReport(text: string)
    requires forall k :: 0 <= k ==> !StartsAt(text, k, "**")
    ensures CheckBold(text) == []
  {
    var lines := SplitLines(text);
    LinesInherit(text);
    NoFaultsNoReport(lines, |lines|);
  }

  /** Text none of whose lines holds a bold span has nothing reported,
      even where "**" occurs (`a ** b`, `***`). */
  lemma NoSpansNoReport(text: string)
    requires forall j, i: nat, inner :: 0 <= j < |SplitLines(text)| ==> !IsBold(SplitLines(text)[j], i, inner)
    ensures CheckBold(text) == []
  {
    var lines := SplitLines(text);
    NoSpanLinesNoReport(lines, |lines|);
  }

  lemma {:induction false} NoSpanLinesNoReport(lines: seq<string>, n: nat)
    requires n <= |lines|
    requires forall j, i: nat, inner :: 0 <= j < |lines| ==> !IsBold(lines[j], i, inner)
    ensures Report(lines, n) == []
    decreases n
  {
    if n > 0 {
      NoSpanLinesNoReport(lines, n - 1);
      NoBoldFound(lines[n - 1], 0);
    }
  }

  lemma {:induction false} NoFaultsNoReport(lines: seq<string>, n: nat)
    requires n <= |lines|
    requires forall j :: 0 <= j < |lines| ==> forall k :: 0 <= k ==> !StartsAt(lines[j], k, "**")
    ensures Report(lines, n) == []
    decreases n
  {
    if n > 0 {
      NoFaultsNoReport(lines, n - 1);
      var line := lines[n - 1];
      FindFromAbsent(Bold, line, 0);
    }
  }

  /** A slice of a text without "**" has none either. */
  lemma PairAbsentFromSlice(text: string, i: nat, j: nat)
    requires i <= j <= |text|
    requires forall k :: 0 <= k ==> !StartsAt(text, k, "**")
    ensures forall k :: 0 <= k ==> !StartsAt(text[i..j], k, "**")
  {
    forall k | 0 <= k
      ensures !StartsAt(text[i..j], k, "**")
    {
      assert !StartsAt(text, i + k, "**");
      if k + 2 <= j - i {
        assert text[i..j][k] == text[i + k] && text[i..j][k + 1] == text[i + k + 1];
        assert text[i..j][k..k + 2] == text[i + k..i + k + 2];
      }
    }
  }

  /** The first line is a prefix of the text. */
  lemma StripCrPrefix(text: string, i: nat)
    requires i <= |text|
    ensures |StripCr(text[..i])| <= i && StripCr(text[..i]) == text[0..|StripCr(text[..i])|]
  {
  }

  /** A text without "**" has lines without "**". */
  lemma {:induction false} LinesInherit(text: string)
    requires forall k :: 0 <= k ==> !StartsAt(text, k, "**")
    ensures forall j :: 0 <= j < |SplitLines(text)| ==> forall k :: 0 <= k ==> !StartsAt(SplitLines(text)[j], k, "**")
    decreases |text|
  {
    match IndexOf(text, "\n", 0)
    case None =>
    case Some(i) =>
      var head, tail := StripCr(text[..i]), text[i + 1..];
      PairAbsentFromSlice(text, i + 1, |text|);
      assert text[i + 1..|text|] == tail;
      LinesInherit(tail);
      StripCrPrefix(text, i);
      PairAbsentFromSlice(text, 0, |head|);
      var lines := SplitLines(text);
      assert lines == [head] + SplitLines(tail);
      forall j | 0 <= j < |lines|
        ensures forall k :: 0 <= k ==> !StartsAt(lines[j], k, "**")
      {
        if j > 0 {
          assert lines[j] == SplitLines(tail)[j - 1];
        }
      }
  }

  // -------------------------------------------------------------------
  // The imperative check

  /** checkMarkdownFormatIssuesForBold: one global regular expression,
      reset for every line, and a flag that stops the line's loop at the
      first faulty span. */
  method CheckMarkdownFormatIssuesForBold(markdownText: string) returns (problemLines: seq<Problem>)
    ensures problemLines == CheckBold(markdownText)
  {
    var lines := SplitLines(markdownText);
    problemLines := [];
    var boldPattern := new GlobalRegex(Bold);
    for index := 0 to |lines|
      invariant fresh(boldPattern) && boldPattern.pattern == Bold
      invariant problemLines == Report(lines, index)
    {
      var line := lines[index];
      var lineHasProblem := false;
      boldPattern.lastIndex := 0;
      while true
        invariant boldPattern.pattern == Bold && boldPattern.lastIndex <= |line|
        invariant FaultyFrom(line, boldPattern.lastIndex) == FaultyFrom(line, 0)
        decreases |line| - boldPattern.lastIndex
      {
        ghost var from := boldPattern.lastIndex;
        var match_ := boldPattern.Exec(line);
        if match_.None? {
          assert !FaultyFrom(line, 0);
          break;
        }
        BoldEndInLine(line, from);
        if FaultyAt(line, match_.value) {
          assert FaultyFrom(line, 0);
          lineHasProblem := true;
          break;
        }
      }
      ReportStep(lines, index);
      if lineHasProblem {
        problemLines := problemLines + [Problem(index + 1, line)];
      }
    }
  }
}
