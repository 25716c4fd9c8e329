/** Splitting a byte stream into lines, as both ends of an FTP or HTTP control connection do. */
module Lines {
  import opened Bytes

  /** A line without one trailing carriage return. */
  function StripCR(line: string): string {
    if line != "" && line[|line| - 1] == '\r' then line[..|line| - 1] else line
  }

  /** The unfinished line at the end of a stream. */
  function Partial(s: string): string {
    if s == "" || s[|s| - 1] == '\n' then "" else Partial(s[..|s| - 1]) + [s[|s| - 1]]
  }

  /** The finished lines of a stream, without their newlines. */
  function RawLines(s: string): seq<string> {
    if s == "" then []
    else if s[|s| - 1] == '\n' then RawLines(s[..|s| - 1]) + [Partial(s[..|s| - 1])]
    else RawLines(s[..|s| - 1])
  }

  /** The finished lines of a stream as they are handed over. */
  function LinesOf(s: string): seq<string> {
    if s == "" then []
    else if s[|s| - 1] == '\n' then LinesOf(s[..|s| - 1]) + [StripCR(Partial(s[..|s| - 1]))]
    else LinesOf(s[..|s| - 1])
  }

  function Unlines(lines: seq<string>): string {
    if lines == [] then "" else Unlines(lines[..|lines| - 1]) + lines[|lines| - 1] + "\n"
  }

  ghost predicate OneLine(s: string) {
    '\n' !in s
  }

  /** The split is the only one: its pieces hold no newline and put together they are the stream. */
  lemma {:induction false} SplitIsExact(s: string)
    ensures Unlines(RawLines(s)) + Partial(s) == s
    ensures OneLine(Partial(s)) && forall i :: 0 <= i < |RawLines(s)| ==> OneLine(RawLines(s)[i])
  {
    if s != "" {
      var front, c := s[..|s| - 1], s[|s| - 1];
      SplitIsExact(front);
      assert s == front + [c];
      if c == '\n' {
        UnlinesSnoc(RawLines(front), Partial(front));
        assert front + "\n" + "" == s;
      } else {
        Regroup(Unlines(RawLines(front)), Partial(front), [c]);
      }
    }
  }

  lemma UnlinesSnoc(lines: seq<string>, line: string)
    ensures Unlines(lines + [line]) == Unlines(lines) + line + "\n"
  {
    assert (lines + [line])[..|lines + [line]| - 1] == lines;
  }

  /** The lines handed over are the lines of the split, each without one trailing CR. */
  lemma {:induction false} LinesAreStripped(s: string)
    ensures |LinesOf(s)| == |RawLines(s)|
    ensures forall i :: 0 <= i < |RawLines(s)| ==> LinesOf(s)[i] == StripCR(RawLines(s)[i])
  {
    if s != "" {
      LinesAreStripped(s[..|s| - 1]);
    }
  }

  lemma PartialSnoc(s: string, c: char)
    ensures Partial(s + [c]) == if c == '\n' then "" else Partial(s) + [c]
    ensures RawLines(s + [c]) == if c == '\n' then RawLines(s) + [Partial(s)] else RawLines(s)
    ensures LinesOf(s + [c]) == if c == '\n' then LinesOf(s) + [StripCR(Partial(s))] else LinesOf(s)
  {
    assert (s + [c])[..|s + [c]| - 1] == s;
  }

  lemma {:induction false} PartialConcat(s: string, text: string)
    requires OneLine(text)
    ensures Partial(s + text) == Partial(s) + text
    ensures LinesOf(s + text) == LinesOf(s)
  {
    if text == "" {
      assert s + text == s && Partial(s) + text == Partial(s);
    } else {
      var front, c := text[..|text| - 1], text[|text| - 1];
      assert c in text && text == front + [c];
      PartialConcat(s, front);
      PartialSnoc(s + front, c);
      Regroup(s, front, [c]);
      Regroup(Partial(s), front, [c]);
    }
  }

  /** One more line, sent with its CR and newline after finished lines. */
  lemma LineSent(s: string, line: string)
    requires Partial(s) == "" && OneLine(line)
    ensures LinesOf(s + line + "\r\n") == LinesOf(s) + [line]
    ensures Partial(s + line + "\r\n") == ""
  {
    var t := s + line;
    PartialConcat(s, line);
    assert "" + line == line;
    PartialSnoc(t, '\r');
    PartialSnoc(t + ['\r'], '\n');
    Regroup(t, ['\r'], ['\n']);
    assert ['\r'] + ['\n'] == "\r\n";
    StripCRAdded(line);
  }

  lemma StripCRAdded(line: string)
    ensures StripCR(line + ['\r']) == line
  {
  }

  // --- when the unfinished line is thrown away ---

  /** A stream without its unfinished line. */
  function Finished(s: string): string {
    if s == "" || s[|s| - 1] == '\n' then s else Finished(s[..|s| - 1])
  }

  lemma {:induction false} FinishedPart(s: string)
    ensures Finished(s) + Partial(s) == s
    ensures Partial(Finished(s)) == "" && LinesOf(Finished(s)) == LinesOf(s)
  {
    if s != "" && s[|s| - 1] != '\n' {
      FinishedPart(s[..|s| - 1]);
      Regroup(Finished(s), Partial(s[..|s| - 1]), [s[|s| - 1]]);
      assert s == s[..|s| - 1] + [s[|s| - 1]];
    }
  }

  lemma LineFinished(s: string, rest: string)
    requires OneLine(rest)
    ensures LinesOf(s + rest + "\n") == LinesOf(s) + [StripCR(Partial(s) + rest)]
  {
    PartialConcat(s, rest);
    PartialSnoc(s + rest, '\n');
  }

  /** A line that has lost its first half comes out wrong, unless what was lost is the carriage return
      before its newline. */
  lemma HalfLineLost(s: string, rest: string)
    requires OneLine(rest)
    ensures LinesOf(Finished(s) + rest + "\n") == LinesOf(s + rest + "\n")
       <==> Partial(s) == "" || (Partial(s) == "\r" && rest == "")
  {
    FinishedPart(s);
    LineFinished(s, rest);
    LineFinished(Finished(s), rest);
    var half := Partial(s);
    assert "" + rest == rest;
    assert LinesOf(s + rest + "\n")[|LinesOf(s)|] == StripCR(half + rest);
    assert LinesOf(Finished(s) + rest + "\n")[|LinesOf(s)|] == StripCR(rest);
    HalfStripped(half, rest);
  }

  lemma HalfStripped(half: string, rest: string)
    ensures StripCR(half + rest) == StripCR(rest) <==> half == "" || (half == "\r" && rest == "")
  {
    if half == "" {
      assert half + rest == rest;
    } else if rest == "" {
      assert half + rest == half;
      if |half| == 1 {
        assert half == [half[0]];
      }
    } else {
      assert |StripCR(half + rest)| == |half| + |StripCR(rest)|;
    }
  }

  lemma StripCRKeeps(line: string)
    ensures line == "" || line[|line| - 1] != '\r' ==> StripCR(line) == line
  {
  }
}
