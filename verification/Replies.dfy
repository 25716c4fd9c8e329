/** Multi-line FTP replies (src/ftpcontrol.cc, make_response_multiline), section 4.2 of RFC 959. */
module Replies {
  import opened Bytes
  import opened Lines
  import opened Wrappers

  // --- the server's side ---

  function Response(code: string, text: string, connector: char): string {
    code + [connector] + text + "\r\n"
  }

  /** The line sent for a row that is not the last one. */
  function HeadRow(code: string, row: string, first: bool): string {
    if first then code + "-" + row else " " + row
  }

  function HeadRows(code: string, rows: seq<string>): seq<string> {
    if rows == [] then []
    else HeadRows(code, rows[..|rows| - 1]) + [HeadRow(code, rows[|rows| - 1], |rows| == 1)]
  }

  function HeadText(code: string, rows: seq<string>): string {
    if rows == [] then ""
    else HeadText(code, rows[..|rows| - 1]) + HeadRow(code, rows[|rows| - 1], |rows| == 1) + "\r\n"
  }

  /** A whole reply. */
  function Reply(code: string, text: string): string {
    HeadText(code, RawLines(text)) + (code + " " + Partial(text)) + "\r\n"
  }

  /** The text that the loop sends: up to the first NUL, and without its last character when that is
      a newline or when no NUL follows. Text from a file ends with the end-of-file byte that
      ConfDB::get appends, which is dropped so; other text loses its last character. */
  function Effective(text: string): string {
    var t := CString(text);
    if t != "" && (t[|t| - 1] == '\n' || |t| == |text|) then t[..|t| - 1] else t
  }

  /** The text that the reply should show: up to the first NUL, without a newline at the end. */
  function Intended(text: string): string {
    var t := CString(text);
    if t != "" && t[|t| - 1] == '\n' then t[..|t| - 1] else t
  }

  /** Nothing but that newline is dropped exactly when the text is empty, holds a NUL or ends in a newline. */
  lemma EffectiveIsIntended(text: string)
    ensures Effective(text) == Intended(text) <==> text == "" || '\0' in text || text[|text| - 1] == '\n'
  {
    if '\0' !in text {
      CStringWithoutNul(text);
    }
  }

  const DEFAULT_GREETING := "Service ready for new user."

  /** The greeting of a server that is not given another loses its full stop. */
  lemma DefaultGreetingCut()
    ensures Effective(DEFAULT_GREETING) == "Service ready for new user"
    ensures Intended(DEFAULT_GREETING) == DEFAULT_GREETING
  {
    var front := "Service ready for new user";
    assert front + ['.'] == DEFAULT_GREETING;
    LastCharacterCut(front, '.');
  }

  lemma LastCharacterCut(front: string, last: char)
    requires '\0' !in front && last != '\0' && last != '\n'
    ensures Effective(front + [last]) == front
    ensures Intended(front + [last]) == front + [last]
  {
    CStringWithoutNul(front + [last]);
  }

  method MakeResponseMultiline(code: string, multiline: string) returns (out: string)
    ensures out == Reply(code, Effective(multiline))
  {
    out := "";
    var size := |multiline|;
    var start, i, safe := 0, 0, false;
    while i < size && !safe
      invariant 0 <= start <= i <= size && Reached(code, multiline, start, i, out)
      invariant GoesOn(multiline, i) && (safe ==> i < size && LastRow(multiline, i))
      decreases size - i, !safe
    {
      if LastRow(multiline, i) {
        safe := true;
      } else {
        GoesOnPast(multiline, i);
        start, out := SendRow(code, multiline, start, i, out);
        i := i + 1;
      }
    }
    out := SendLast(code, multiline, start, i, safe, out);
  }

  /** The row that ends the reply; without a NUL or newline at its end it loses a character. */
  method SendLast(code: string, multiline: string, start: nat, end: nat, safe: bool, sent: string)
    returns (out: string)
    requires start <= end <= |multiline| && Reached(code, multiline, start, end, sent) && GoesOn(multiline, end)
    requires if safe then end < |multiline| && LastRow(multiline, end) else end == |multiline|
    ensures out == Reply(code, Effective(multiline))
  {
    var i := end;
    if !safe && i > 0 {
      assert !LastRow(multiline, i - 1);
      ReachedBack(code, multiline, start, i, sent);
      i := i - 1;
    }
    SentAll(code, multiline, start, i, safe, sent);
    out := sent + Response(code, multiline[start..i], ' ');
  }

  /** A NUL, or a newline that nothing follows, ends the loop. */
  predicate LastRow(text: string, i: nat)
    requires i < |text|
  {
    text[i] == '\0' || (text[i] == '\n' && (i + 1 == |text| || text[i + 1] == '\0'))
  }

  /** No position before i has ended it. */
  ghost predicate GoesOn(text: string, i: nat)
    requires i <= |text|
  {
    forall j :: 0 <= j < i ==> !LastRow(text, j)
  }

  lemma GoesOnPast(text: string, i: nat)
    requires i < |text| && GoesOn(text, i) && !LastRow(text, i)
    ensures GoesOn(text, i + 1)
  {
    forall j | 0 <= j < i + 1
      ensures !LastRow(text, j)
    {
      assert j == i || j < i;
    }
  }

  /** One turn of the loop: a newline sends the row before it. */
  method SendRow(code: string, multiline: string, start: nat, i: nat, sent: string) returns (next: nat, out: string)
    requires start <= i < |multiline| && Reached(code, multiline, start, i, sent)
    ensures next <= i + 1 && Reached(code, multiline, next, i + 1, out)
  {
    next, out := start, sent;
    if multiline[i] == '\n' {
      ReachedNewline(code, multiline, start, i, out);
      if start != 0 {
        out := out + Response("", multiline[start..i], ' ');
      } else {
        out := out + Response(code, multiline[start..i], '-');
      }
      next := i + 1;
    } else {
      ReachedChar(code, multiline, start, i, out);
    }
  }

  /** What the loop has sent before position i, and where the unsent row starts. */
  ghost predicate Reached(code: string, text: string, start: nat, i: nat, out: string)
    requires start <= i <= |text|
  {
    && (start == 0 <==> RawLines(text[..i]) == [])
    && text[start..i] == Partial(text[..i])
    && out == HeadText(code, RawLines(text[..i]))
  }

  lemma ReachedChar(code: string, text: string, start: nat, i: nat, out: string)
    requires start <= i < |text| && Reached(code, text, start, i, out) && text[i] != '\n'
    ensures Reached(code, text, start, i + 1, out)
  {
    TakeMore(text, i);
    PartialSnoc(text[..i], text[i]);
    SliceMore(text, start, i);
  }

  lemma ReachedNewline(code: string, text: string, start: nat, i: nat, out: string)
    requires start <= i < |text| && Reached(code, text, start, i, out) && text[i] == '\n'
    ensures var row := text[start..i];
            Reached(code, text, i + 1, i + 1,
                    out + if start != 0 then Response("", row, ' ') else Response(code, row, '-'))
  {
    TakeMore(text, i);
    PartialSnoc(text[..i], text[i]);
    HeadTextSnoc(code, RawLines(text[..i]), text[start..i]);
  }

  lemma ReachedBack(code: string, text: string, start: nat, i: nat, out: string)
    requires start <= i <= |text| && Reached(code, text, start, i, out)
    requires i > 0 && text[i - 1] != '\n'
    ensures start <= i - 1 && Reached(code, text, start, i - 1, out)
  {
    TakeMore(text, i - 1);
    PartialSnoc(text[..i - 1], text[i - 1]);
    assert text[start..i] == Partial(text[..i - 1]) + [text[i - 1]];
    SliceMore(text, start, i - 1);
  }

  lemma SentAll(code: string, text: string, start: nat, i: nat, safe: bool, out: string)
    requires start <= i <= |text| && Reached(code, text, start, i, out) && GoesOn(text, i)
    requires if safe then i < |text| && LastRow(text, i)
             else text == "" || (i + 1 == |text| && text[i] != '\n' && text[i] != '\0')
    ensures out + Response(code, text[start..i], ' ') == Reply(code, Effective(text))
  {
    EffectiveCut(text, i, safe);
    ReplyEnd(out, code, text[start..i]);
  }

  lemma ReplyEnd(head: string, code: string, row: string)
    ensures head + Response(code, row, ' ') == head + (code + " " + row) + "\r\n"
  {
  }

  lemma HeadTextSnoc(code: string, rows: seq<string>, row: string)
    ensures HeadText(code, rows + [row])
         == HeadText(code, rows) + (if rows == [] then Response(code, row, '-') else Response("", row, ' '))
  {
    var all := rows + [row];
    assert all[..|all| - 1] == rows;
    assert Response(code, row, '-') == HeadRow(code, row, true) + "\r\n";
    assert Response("", row, ' ') == HeadRow(code, row, false) + "\r\n";
  }

  /** The text ends where the loop stops. */
  lemma EffectiveCut(text: string, i: nat, safe: bool)
    requires i <= |text| && GoesOn(text, i)
    requires if safe then i < |text| && LastRow(text, i)
             else text == "" || (i + 1 == |text| && text[i] != '\n' && text[i] != '\0')
    ensures Effective(text) == text[..i]
  {
    forall j | 0 <= j < i
      ensures text[..i][j] != '\0'
    {
      assert !LastRow(text, j);
    }
    if safe && text[i] == '\0' {
      assert i > 0 ==> !LastRow(text, i - 1);
      assert text == text[..i] + ['\0'] + text[i + 1..];
      IndexOfAt(text[..i], '\0', text[i + 1..]);
    } else if safe && i + 1 < |text| {
      assert text == text[..i + 1] + ['\0'] + text[i + 2..];
      IndexOfAt(text[..i + 1], '\0', text[i + 2..]);
      assert text[..i + 1][..i] == text[..i];
    } else {
      assert text == text[..i] + text[i..];
      CStringWithoutNul(text);
    }
  }

  // --- the client's side ---

  /** Does the line end a reply with this code? */
  predicate Ends(code: string, line: string) {
    code + " " <= line
  }

  /** The rows of a reply and the lines after it, as section 4.2 of RFC 959 tells a client to find them:
      a line starting with the code and a hyphen opens a reply that the next line starting with the
      code and a space closes. Rows in between are indented by the server. */
  function ReadReply(code: string, lines: seq<string>): Option<(seq<string>, seq<string>)> {
    if lines == [] then None
    else if Ends(code, lines[0]) then Some(([lines[0][|code| + 1..]], lines[1..]))
    else if code + "-" <= lines[0] then ReadRows(code, lines[1..], [lines[0][|code| + 1..]])
    else None
  }

  function ReadRows(code: string, lines: seq<string>, before: seq<string>): Option<(seq<string>, seq<string>)> {
    if lines == [] then None
    else if Ends(code, lines[0]) then Some((before + [lines[0][|code| + 1..]], lines[1..]))
    else ReadRows(code, lines[1..], before + [if " " <= lines[0] then lines[0][1..] else lines[0]])
  }

  /** The rows of a text. */
  function Rows(text: string): seq<string> {
    RawLines(text) + [Partial(text)]
  }

  // --- the client reads what the server sends ---

  lemma {:induction false} HeadLines(code: string, rows: seq<string>)
    requires OneLine(code) && forall i :: 0 <= i < |rows| ==> OneLine(rows[i])
    ensures LinesOf(HeadText(code, rows)) == HeadRows(code, rows)
    ensures Partial(HeadText(code, rows)) == ""
  {
    if rows != [] {
      HeadLines(code, rows[..|rows| - 1]);
      LineSent(HeadText(code, rows[..|rows| - 1]), HeadRow(code, rows[|rows| - 1], |rows| == 1));
    }
  }

  lemma ReplyLines(code: string, text: string)
    requires OneLine(code)
    ensures LinesOf(Reply(code, text)) == HeadRows(code, RawLines(text)) + [code + " " + Partial(text)]
  {
    SplitIsExact(text);
    HeadLines(code, RawLines(text));
    LineSent(HeadText(code, RawLines(text)), code + " " + Partial(text));
  }

  lemma {:induction false} HeadRowsAt(code: string, rows: seq<string>)
    ensures |HeadRows(code, rows)| == |rows|
    ensures forall i :: 0 <= i < |rows| ==> HeadRows(code, rows)[i] == HeadRow(code, rows[i], i == 0)
  {
    if rows != [] {
      HeadRowsAt(code, rows[..|rows| - 1]);
    }
  }

  lemma {:induction false} ReadRowsOf(code: string, rows: seq<string>, lines: seq<string>, last: string,
                                      more: seq<string>, before: seq<string>)
    requires code != "" && code[0] != ' ' && |lines| == |rows|
    requires forall i :: 0 <= i < |rows| ==> lines[i] == " " + rows[i]
    ensures ReadRows(code, lines + [code + " " + last] + more, before) == Some((before + rows + [last], more))
    decreases |rows|
  {
    var all := lines + [code + " " + last] + more;
    if rows == [] {
      assert all[1..] == more && (code + " " + last)[|code| + 1..] == last;
      assert before + rows == before;
    } else {
      assert !Ends(code, all[0]) by { assert all[0][0] == ' ' && (code + " ")[0] != ' '; }
      assert all[0][1..] == rows[0];
      assert all[1..] == lines[1..] + [code + " " + last] + more;
      ReadRowsOf(code, rows[1..], lines[1..], last, more, before + [rows[0]]);
      assert before + [rows[0]] + rows[1..] == before + rows;
    }
  }

  lemma ReadSingle(code: string, last: string, more: seq<string>)
    ensures ReadReply(code, [code + " " + last] + more) == Some(([last], more))
  {
    var lines := [code + " " + last] + more;
    assert lines[1..] == more && lines[0] == code + " " + last;
    assert lines[0][|code| + 1..] == last;
  }

  lemma ReadMultiple(code: string, first: string, lines: seq<string>)
    ensures ReadReply(code, [code + "-" + first] + lines) == ReadRows(code, lines, [first])
  {
    var all := [code + "-" + first] + lines;
    assert all[1..] == lines && all[0] == code + "-" + first;
    assert !Ends(code, all[0]) by { assert all[0][|code|] == '-' && (code + " ")[|code|] == ' '; }
    assert all[0][|code| + 1..] == first;
  }

  lemma FirstApart(heads: seq<string>, end: string, more: seq<string>)
    requires heads != []
    ensures heads + [end] + more == [heads[0]] + (heads[1..] + [end] + more)
  {
  }

  lemma ReadHeads(code: string, rows: seq<string>, last: string, more: seq<string>)
    requires code != "" && code[0] != ' ' && rows != []
    ensures ReadReply(code, HeadRows(code, rows) + [code + " " + last] + more) == Some((rows + [last], more))
  {
    var heads := HeadRows(code, rows);
    var tail := heads[1..] + [code + " " + last] + more;
    HeadRowsAt(code, rows);
    FirstApart(heads, code + " " + last, more);
    ReadMultiple(code, rows[0], tail);
    ReadRowsOf(code, rows[1..], heads[1..], last, more, [rows[0]]);
    assert [rows[0]] + rows[1..] == rows;
  }

  /** A client finds the end of a multi-line reply where the server put it, whatever follows, and gets
      the rows of the text. */
  lemma ClientReadsReply(code: string, text: string, more: seq<string>)
    requires OneLine(code) && code != "" && code[0] != ' '
    ensures ReadReply(code, LinesOf(Reply(code, text)) + more) == Some((Rows(text), more))
  {
    var rows, last := RawLines(text), Partial(text);
    ReplyLines(code, text);
    if rows == [] {
      ReadSingle(code, last, more);
      assert HeadRows(code, rows) + [code + " " + last] == [code + " " + last];
      assert rows + [last] == [last];
    } else {
      ReadHeads(code, rows, last, more);
    }
  }
}
