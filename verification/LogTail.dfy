/**
 The last lines of a log read through a window at its end (worker/logs.go,
 the Go fallback of tailFile), against splitting the whole file.
 */
module LogTail {
  import opened Decimal
  import opened Text

  const MAX_TAIL_WINDOW: nat := 4 * 1024 * 1024
  const TRUNCATED_MARKER := "[truncated: tail window exceeded"

  function TrimRight(s: string): (t: string)
    ensures t <= s
    ensures t != "" ==> t[|t| - 1] != '\n' && t[|t| - 1] != '\r'
  {
    if s != "" && (s[|s| - 1] == '\n' || s[|s| - 1] == '\r') then TrimRight(s[..|s| - 1]) else s
  }

  function TrimSuffix(line: string): string {
    if line != "" && line[|line| - 1] == '\r' then line[..|line| - 1] else line
  }

  predicate Blank(line: string) {
    forall i :: 0 <= i < |line| ==> 9 <= line[i] as int <= 13 || line[i] == ' '
  }

  /** The lines worth showing, without their carriage returns. */
  function Shown(lines: seq<string>): (f: seq<string>)
    ensures |f| <= |lines|
  {
    if lines == [] then []
    else
      var l := TrimSuffix(lines[|lines| - 1]);
      Shown(lines[..|lines| - 1]) + if Blank(l) then [] else [l]
  }

  function Last(lines: seq<string>, n: nat): seq<string> {
    if |lines| > n then lines[|lines| - n..] else lines
  }

  function LinesOf(text: string): (lines: seq<string>)
    ensures |lines| > 0
  {
    Split(TrimRight(text), '\n')
  }

  /** What is asked for: the last lines of the file, blank ones left out. */
  function WholeTail(file: string, n: nat): seq<string> {
    Shown(Last(LinesOf(file), n))
  }

  /** Where the window starts. */
  function Offset(file: string, maxWindow: int): (offset: nat)
    ensures offset <= |file|
  {
    var size := if maxWindow <= 0 then MAX_TAIL_WINDOW else maxWindow;
    if |file| < size then 0 else |file| - size
  }

  /** The lines of the window from the first whole one on; all it holds if there is just one. */
  function WindowLines(file: string, offset: nat): seq<string>
    requires offset <= |file|
  {
    var raw := LinesOf(file[offset..]);
    if offset > 0 && |raw| > 1 then raw[1..] else raw
  }

  function WindowTail(file: string, n: nat, offset: nat): (shown: seq<string>)
    requires offset <= |file|
    ensures |shown| <= n
  {
    Shown(Last(WindowLines(file, offset), n))
  }

  function JoinLines(lines: seq<string>): string {
    if lines == [] then "" else Join(lines, '\n')
  }

  function Marker(maxWindow: int): string {
    TRUNCATED_MARKER + " " + IntText(maxWindow) + " bytes]\n"
  }

  /** The answer says that it may be short. */
  predicate Marked(file: string, n: nat, offset: nat)
    requires offset <= |file|
  {
    offset > 0 && |WindowTail(file, n, offset)| < n
  }

  method Filter(raw: seq<string>) returns (filtered: seq<string>)
    ensures filtered == Shown(raw)
  {
    hide TrimSuffix, Blank;
    filtered := [];
    for i := 0 to |raw|
      invariant filtered == Shown(raw[..i])
    {
      var l := TrimSuffix(raw[i]);
      assert raw[..i + 1][..i] == raw[..i];
      if !Blank(l) {
        filtered := filtered + [l];
      }
    }
    assert raw[..|raw|] == raw;
  }

  method ReadWindow(file: string, maxWindow: int) returns (raw: seq<string>, offset: nat)
    ensures offset == Offset(file, maxWindow) && raw == WindowLines(file, offset)
  {
    hide Split, TrimRight;
    var readSize := maxWindow;
    if readSize <= 0 {
      readSize := MAX_TAIL_WINDOW;
    }
    if |file| < readSize {
      readSize := |file|;
    }
    offset := |file| - readSize;
    var buf := file[offset..];
    raw := Split(TrimRight(buf), '\n');
    if offset > 0 && |raw| > 1 {
      raw := raw[1..];
    }
  }

  method TailFile(file: string, lines: nat, maxWindow: int) returns (out: string)
    ensures var offset := Offset(file, maxWindow);
            var shown := JoinLines(WindowTail(file, lines, offset));
            out == if Marked(file, lines, offset) then Marker(maxWindow) + shown else shown
  {
    hide JoinLines, Marker, Shown, WindowLines, Offset;
    var raw, offset := ReadWindow(file, maxWindow);
    if |raw| > lines {
      raw := raw[|raw| - lines..];
    }
    var filtered := Filter(raw);
    out := JoinLines(filtered);
    if offset > 0 && |filtered| < lines {
      out := Marker(maxWindow) + out;
    }
  }

  // --- the window against the whole file ---

  /** Trimming the end of a window trims the end of the file. */
  lemma {:induction false} TrimRightOfSuffix(a: string, w: string)
    ensures TrimRight(w) != "" ==> TrimRight(a + w) == a + TrimRight(w)
  {
    if w != "" && (w[|w| - 1] == '\n' || w[|w| - 1] == '\r') {
      TrimRightOfSuffix(a, w[..|w| - 1]);
      assert (a + w)[..|a + w| - 1] == a + w[..|w| - 1];
    }
  }

  /** The whole file's lines end with the window's, the first one completed. */
  lemma LinesOfWindow(file: string, offset: nat)
    requires offset <= |file| && TrimRight(file[offset..]) != ""
    ensures LinesOf(file) == Glue(Split(file[..offset], '\n'), LinesOf(file[offset..]))
  {
    assert file == file[..offset] + file[offset..];
    TrimRightOfSuffix(file[..offset], file[offset..]);
    SplitConcat(file[..offset], TrimRight(file[offset..]), '\n');
  }

  lemma LastOfGlue(a: seq<string>, b: seq<string>, n: nat)
    requires a != [] && b != [] && n < |b|
    ensures Last(Glue(a, b), n) == Last(b, n)
  {
  }

  /** Last lines of a list whose own first line may be cut. */
  lemma LastOfRest(b: seq<string>, n: nat)
    requires |b| > 1
    ensures Last(b[1..], n) == Last(b, if n < |b| then n else |b| - 1)
  {
  }

  /** A window at the start of the file shows the tail of the file. */
  lemma WholeFileWindow(file: string, n: nat)
    ensures WindowTail(file, n, 0) == WholeTail(file, n)
  {
    assert file[0..] == file;
  }

  /** A window with a line end in it shows the file's tail, cut to the whole lines it holds. */
  lemma WindowShowsTail(file: string, n: nat, offset: nat)
    requires 0 < offset <= |file| && |LinesOf(file[offset..])| > 1
    ensures var whole := |LinesOf(file[offset..])| - 1;
            WindowTail(file, n, offset) == WholeTail(file, if n <= whole then n else whole)
  {
    hide LinesOf, Last, Shown;
    var raw := LinesOf(file[offset..]);
    var k := if n < |raw| then n else |raw| - 1;
    if TrimRight(file[offset..]) == "" {
      EmptyWindow(file, offset);
    } else {
      LinesOfWindow(file, offset);
      LastOfRest(raw, n);
      LastOfGlue(Split(file[..offset], '\n'), raw, k);
    }
  }

  lemma EmptyWindow(file: string, offset: nat)
    requires offset <= |file| && TrimRight(file[offset..]) == ""
    ensures LinesOf(file[offset..]) == [""]
  {
  }

  /** A window without a line end is one line, cut where the window starts. */
  lemma OneLineWindow(file: string, n: nat, offset: nat)
    requires 0 < offset <= |file| && |LinesOf(file[offset..])| == 1
    ensures LinesOf(file[offset..]) == [TrimRight(file[offset..])]
    ensures n == 0 ==> WindowTail(file, n, offset) == WholeTail(file, n) == []
    ensures n > 1 || Blank(TrimRight(file[offset..])) ==> Marked(file, n, offset) || n == 0
    ensures n == 1 && !Blank(TrimRight(file[offset..])) ==>
              && !Marked(file, n, offset)
              && WindowTail(file, n, offset) == [TrimRight(file[offset..])]
  {
    hide Split, TrimRight, Shown, Blank, TrimSuffix;
    var t := TrimRight(file[offset..]);
    OnePart(t, '\n');
    TrimmedHasNoSuffix(file[offset..]);
    ShownOne(t);
    ShownNone();
  }

  lemma TrimmedHasNoSuffix(text: string)
    ensures TrimSuffix(TrimRight(text)) == TrimRight(text)
  {
  }

  lemma ShownNone()
    ensures Shown([]) == []
  {
  }

  lemma ShownOne(t: string)
    ensures Shown([t]) == if Blank(TrimSuffix(t)) then [] else [TrimSuffix(t)]
  {
    assert [t][..0] == [];
  }

  /** The last part of a text is empty exactly when it ends with a separator. */
  lemma {:induction false} LastPartEmpty(a: string)
    requires a != ""
    ensures var parts := Split(a, '\n'); parts[|parts| - 1] == "" <==> a[|a| - 1] == '\n'
  {
    var n := |a| - 1;
    assert a == a[..n] + [a[n]];
    SplitConcat(a[..n], [a[n]], '\n');
    var one := [a[n]];
    assert one[1..] == "" && Split("", '\n') == [""];
    assert [one[0]] + "" == one;
    assert Split([a[n]], '\n') == if a[n] == '\n' then ["", ""] else [[a[n]]];
  }

  /**
   An answer that is not marked is right exactly when the window holds a line
   end, or nothing was asked for, or the window starts where a line starts.
   */
  lemma UnmarkedIsRight(file: string, n: nat, offset: nat)
    requires 0 < offset <= |file| && !Marked(file, n, offset)
    ensures WindowTail(file, n, offset) == WholeTail(file, n) <==>
            |LinesOf(file[offset..])| > 1 || n == 0 || file[offset - 1] == '\n'
  {
    hide LinesOf, Last, Shown, TrimRight;
    if |LinesOf(file[offset..])| > 1 {
      WindowShowsTail(file, n, offset);
      WindowIsShort(file, n, offset);
    } else {
      OneLineWindow(file, n, offset);
      if n == 1 {
        CutLine(file, offset);
      }
    }
  }

  lemma WindowIsShort(file: string, n: nat, offset: nat)
    requires 0 < offset <= |file| && |LinesOf(file[offset..])| > 1
    ensures |WindowTail(file, n, offset)| <= |LinesOf(file[offset..])| - 1
  {
  }

  lemma CutLine(file: string, offset: nat)
    requires 0 < offset <= |file| && |LinesOf(file[offset..])| == 1 && !Blank(TrimRight(file[offset..]))
    ensures WholeTail(file, 1) == [TrimRight(file[offset..])] <==> file[offset - 1] == '\n'
  {
    hide Split, TrimRight, Shown;
    var a, t := file[..offset], TrimRight(file[offset..]);
    OnePart(t, '\n');
    LinesOfWindow(file, offset);
    LastPartEmpty(a);
    var parts := Split(a, '\n');
    var last := parts[|parts| - 1] + t;
    assert Last(LinesOf(file), 1) == [last];
    ShownOne(last);
    assert TrimSuffix(last) == last;
    assert |last| == |t| <==> parts[|parts| - 1] == "";
    NotBlank(parts[|parts| - 1], t);
    assert [last] == [t] <==> last == t;
    assert parts[|parts| - 1] == "" ==> last == t;
  }

  lemma NotBlank(a: string, t: string)
    requires !Blank(t)
    ensures !Blank(a + t)
  {
    var i :| 0 <= i < |t| && !(9 <= t[i] as int <= 13 || t[i] == ' ');
    assert (a + t)[|a| + i] == t[i];
  }

  /** So a cut line can pass for a whole one. */
  lemma CutLineGoesUnmarked()
    ensures Offset("abc", 2) == 1 && !Marked("abc", 1, 1)
    ensures WindowTail("abc", 1, 1) == ["bc"] && WholeTail("abc", 1) == ["abc"]
  {
    hide Split, TrimRight, TrimSuffix;
    assert "abc"[1..] == "bc";
    OneLine("bc");
    OneLine("abc");
  }

  lemma OneLine(s: string)
    requires s != "" && forall i :: 0 <= i < |s| ==> 'a' <= s[i] <= 'z'
    ensures LinesOf(s) == [s] && Shown([s]) == [s]
  {
    hide Split;
    SplitWhole(s, '\n');
    ShownOne(s);
    assert 'a' <= s[0] <= 'z';
  }

  // --- the mark and the text of the answer ---

  /** A line that is left out. */
  predicate LeftOut(line: string) {
    Blank(TrimSuffix(line))
  }

  lemma ShownSnoc(lines: seq<string>, l: string)
    ensures Shown(lines + [l]) == Shown(lines) + if LeftOut(l) then [] else [TrimSuffix(l)]
  {
    hide Blank, TrimSuffix;
    assert (lines + [l])[..|lines|] == lines;
  }

  /** Blank lines alone are left out, and the others keep their order. */
  lemma {:induction false} ShownConcat(a: seq<string>, b: seq<string>)
    ensures Shown(a + b) == Shown(a) + Shown(b)
  {
    hide Shown, LeftOut, TrimSuffix;
    if b == [] {
      assert a + b == a;
      ShownNone();
    } else {
      var n := |b| - 1;
      assert a + b == (a + b[..n]) + [b[n]] && b == b[..n] + [b[n]];
      ShownConcat(a, b[..n]);
      ShownSnoc(a + b[..n], b[n]);
      ShownSnoc(b[..n], b[n]);
    }
  }

  lemma {:induction false} ShownAll(lines: seq<string>)
    ensures |Shown(lines)| == |lines| <==> forall l :: l in lines ==> !LeftOut(l)
  {
    hide LeftOut, TrimSuffix;
    if lines == [] {
      ShownNone();
    } else {
      var n := |lines| - 1;
      assert lines == lines[..n] + [lines[n]];
      ShownAll(lines[..n]);
      ShownSnoc(lines[..n], lines[n]);
    }
  }

  /**
   With a line end in the window the answer is marked exactly if fewer whole lines
   than were asked for are in it, or one of the file's last lines asked for is blank.
   */
  lemma MarkedExactly(file: string, n: nat, offset: nat)
    requires 0 < offset <= |file| && |LinesOf(file[offset..])| > 1
    ensures var whole := |LinesOf(file[offset..])| - 1;
            Marked(file, n, offset) <==>
            n > whole || |LinesOf(file)| < n || exists l :: l in Last(LinesOf(file), n) && LeftOut(l)
  {
    hide LinesOf, Shown, LeftOut;
    var whole := |LinesOf(file[offset..])| - 1;
    WindowShowsTail(file, n, offset);
    if n <= whole {
      ShownAll(Last(LinesOf(file), n));
    } else {
      WindowIsShort(file, n, offset);
    }
  }

  /** The text answered splits back into the lines shown. */
  lemma AnswerSplitsBack(file: string, n: nat, offset: nat)
    requires offset <= |file|
    ensures var shown := WindowTail(file, n, offset);
            if shown == [] then JoinLines(shown) == "" else Split(JoinLines(shown), '\n') == shown
  {
    hide Split, TrimRight, Shown;
    var shown := WindowTail(file, n, offset);
    ShownHoldsNoLineEnd(Last(WindowLines(file, offset), n));
    if shown != [] {
      SplitJoin(shown, '\n');
    }
  }

  lemma {:induction false} ShownHoldsNoLineEnd(lines: seq<string>)
    requires forall l :: l in lines ==> '\n' !in l
    ensures forall l :: l in Shown(lines) ==> '\n' !in l
  {
    hide TrimSuffix, Blank;
    if lines != [] {
      var n := |lines| - 1;
      ShownHoldsNoLineEnd(lines[..n]);
      assert lines[n] in lines;
      TrimSuffixIsPrefix(lines[n]);
    }
  }

  lemma TrimSuffixIsPrefix(l: string)
    ensures TrimSuffix(l) <= l
  {
  }

  /** Trimming a text's end cuts off line ends and carriage returns alone. */
  lemma {:induction false} TrimRightCutsLineEnds(s: string)
    ensures forall i :: |TrimRight(s)| <= i < |s| ==> s[i] == '\n' || s[i] == '\r'
  {
    if s != "" && (s[|s| - 1] == '\n' || s[|s| - 1] == '\r') {
      TrimRightCutsLineEnds(s[..|s| - 1]);
    }
  }
}
