/** The line responder (lib/iocontextresponder.cc, lib/iocontextwriter.cc): reads one line at a time
    into a fixed buffer and writes the responses queued so far. */
module Responders {
  import opened Bytes
  import opened Lines

  const LINE_MAX: nat := 2000

  /** How a read ends once the bytes at hand are used up. */
  datatype InputEnd = WouldBlock | Closed

  datatype ReadOutcome =
    | NotReading   // a response is still to be written
    | Destroyed    // closing and everything written
    | LineRead     // a line was handed over
    | Blocked
    | ThrewClosed
    | LineTooLong

  class Responder {
    const buf: array<char>
    var bufWritePos: nat
    var response: string
    var closing: bool
    // the writer's pointer into the response: whether it is set, its length and its position
    var writeBufSet: bool
    var writeBufLen: nat
    var writeBufPos: nat

    ghost var consumed: string      // every byte read so far
    ghost var kept: string          // those bytes without the half lines that were thrown away
    ghost var dropped: nat          // how many bytes were thrown away
    ghost var handed: seq<string>   // every line given to finished_reading
    ghost var queued: string        // every response queued so far
    ghost var sent: string          // every byte written so far

    // --- what the two directions keep ---

    /** Sent and unsent bytes together are the responses queued. */
    ghost predicate OutputValid()
      reads this
    {
      && (response == "" ==> WriteBufEmpty() && sent == queued)
      && (response != "" ==>
            && writeBufSet && writeBufLen == |response| < UNSIGNED_LIMIT && writeBufPos < writeBufLen
            && sent + response[writeBufPos..] == queued)
    }

    /** The lines handed over and the buffer are the split of the bytes kept, and every byte read was
        kept or thrown away. */
    ghost predicate InputValid()
      reads this, buf
    {
      && buf.Length == LINE_MAX && bufWritePos < LINE_MAX
      && Splits(kept) && |kept| + dropped == |consumed| && (dropped == 0 ==> kept == consumed)
    }

    /** The lines handed over and the buffer are the split of these bytes. */
    ghost predicate Splits(bytes: string)
      requires bufWritePos <= buf.Length
      reads this, buf
    {
      handed == LinesOf(bytes) && buf[..bufWritePos] == Partial(bytes)
    }

    ghost predicate Valid()
      reads this, buf
    {
      InputValid() && OutputValid()
    }

    predicate WriteBufEmpty()
      reads this
    {
      !writeBufSet || writeBufLen == 0 || writeBufPos >= writeBufLen
    }

    predicate ResponseReady()
      reads this
    {
      response != ""
    }

    constructor ()
      ensures Valid() && fresh(buf)
      ensures consumed == "" && dropped == 0 && handed == [] && queued == "" && sent == ""
      ensures response == "" && bufWritePos == 0 && !closing
    {
      buf := new char[LINE_MAX];
      bufWritePos, response, closing := 0, "", false;
      writeBufSet, writeBufLen, writeBufPos := false, 0, 0;
      consumed, kept, dropped, handed, queued, sent := "", "", 0, [], "", "";
      new;
      assert buf[..0] == "";
    }

    // --- writing ---

    method MoveWriteBuf()
      modifies `writeBufSet, `writeBufLen
      ensures writeBufSet && writeBufLen == |response|
    {
      writeBufSet, writeBufLen := true, |response|;
    }

    /** Reading starts over: what is in the buffer is thrown away. */
    method PrepareRead()
      requires InputValid()
      modifies `bufWritePos, `kept, `dropped
      ensures InputValid() && bufWritePos == 0
      ensures kept == Finished(old(kept)) && dropped == old(dropped) + old(bufWritePos)
    {
      Forget();
    }

    method Forget()
      requires buf.Length == LINE_MAX && bufWritePos <= LINE_MAX && Splits(kept)
      requires |kept| + dropped == |consumed| && (dropped == 0 ==> kept == consumed)
      modifies `bufWritePos, `kept, `dropped
      ensures InputValid() && bufWritePos == 0
      ensures kept == Finished(old(kept)) && dropped == old(dropped) + old(bufWritePos)
    {
      FinishedPart(kept);
      kept, dropped := Finished(kept), dropped + bufWritePos;
      bufWritePos := 0;
      assert buf[..0] == "";
    }

    method PrepareIO()
      requires InputValid()
      modifies `bufWritePos, `kept, `dropped, `writeBufSet, `writeBufLen, `writeBufPos
      ensures InputValid()
      ensures response != "" ==>
                && kept == old(kept) && dropped == old(dropped) && bufWritePos == old(bufWritePos)
                && writeBufSet && (old(WriteBufEmpty()) ==> writeBufLen == |response| && writeBufPos == 0)
                && (!old(WriteBufEmpty()) ==> writeBufLen == old(writeBufLen) && writeBufPos == old(writeBufPos))
      ensures response == "" ==>
                && kept == Finished(old(kept)) && dropped == old(dropped) + old(bufWritePos) && bufWritePos == 0
                && writeBufSet == old(writeBufSet) && writeBufLen == old(writeBufLen) && writeBufPos == old(writeBufPos)
    {
      if ResponseReady() {
        if WriteBufEmpty() {
          MoveWriteBuf();
          writeBufPos := 0;
        }
      } else {
        PrepareRead();
      }
    }

    /** The queue grows at its end, also in the middle of a write. Half a line is thrown away only by an
        empty response while nothing is being written. */
    method AddResponse(resp: string)
      requires Valid() && |response| + |resp| < UNSIGNED_LIMIT
      modifies this
      ensures Valid()
      ensures queued == old(queued) + resp && response == old(response) + resp
      ensures sent == old(sent) && consumed == old(consumed) && handed == old(handed) && closing == old(closing)
      ensures response != "" ==> kept == old(kept) && dropped == old(dropped) && bufWritePos == old(bufWritePos)
      ensures response == "" ==>
                kept == Finished(old(kept)) && dropped == old(dropped) + old(bufWritePos) && bufWritePos == 0
    {
      queued := queued + resp;
      assert response != "" ==> response[writeBufPos..] + resp == (response + resp)[writeBufPos..];
      response := response + resp;
      if !WriteBufEmpty() {
        MoveWriteBuf();
      } else {
        PrepareIO();
        assert response[0..] == response;
      }
    }

    method FinishedWriting()
      requires InputValid()
      modifies `bufWritePos, `kept, `dropped, `response
      ensures InputValid() && response == "" && bufWritePos == 0
      ensures kept == Finished(old(kept)) && dropped == old(dropped) + old(bufWritePos)
    {
      response := "";
      PrepareRead();
    }

    /** Does this write finish the response? */
    predicate Finishes(ret: int)
      requires ret >= -1 && writeBufPos < UNSIGNED_LIMIT
      reads this
    {
      response != "" && Advanced(writeBufPos, ret) >= writeBufLen
    }

    /** One write; ret is what do_write returns when it is offered the unsent bytes: how many it took, or -1.
        The output stays a prefix of what was queued exactly when ret is not -1, and lines handed over
        and buffer stay the split of the bytes read exactly when the write does not finish a response while
        half a line is buffered. */
    method WriteOut(ret: int)
      requires Valid()
      requires response != "" ==> -1 <= ret <= writeBufLen - writeBufPos
      modifies this
      ensures InputValid() && queued == old(queued) && consumed == old(consumed) && handed == old(handed)
      ensures closing == old(closing)
      ensures OutputValid() <==> old(response) == "" || ret >= 0
      ensures old(Splits(consumed)) ==>
                (Splits(consumed) <==> !(old(response) != "" && old(Finishes(ret)) && old(bufWritePos) > 0))
      ensures old(response) == "" ==> sent == old(sent) && response == ""
      ensures old(response) != "" && ret >= 0 ==>
                sent == old(sent) + old(response[writeBufPos..])[..ret] && (response == "" <==> sent == queued)
      ensures old(response) != "" ==> response == if old(Finishes(ret)) then "" else old(response)
      ensures if old(response) != "" && old(Finishes(ret))
              then kept == Finished(old(kept)) && dropped == old(dropped) + old(bufWritePos) && bufWritePos == 0
              else kept == old(kept) && dropped == old(dropped) && bufWritePos == old(bufWritePos)
    {
      if !ResponseReady() {
        return;
      }
      if ret > 0 {
        sent := sent + response[writeBufPos..][..ret];
      }
      ghost var unsent := response[writeBufPos..];
      writeBufPos := Advanced(writeBufPos, ret);
      if ret >= 0 {
        assert unsent == unsent[..ret] + unsent[ret..];
        assert unsent[ret..] == response[writeBufPos..];
      }
      if WriteBufEmpty() {
        FinishedWriting();
      }
    }

    // --- reading ---

    /** Reading while bytes last. They are the bytes available on the stream and how it goes on after them;
        replies are the responses that finished_reading queues for the line. */
    method ReadIn(available: string, end: InputEnd, replies: seq<string>) returns (outcome: ReadOutcome, used: nat)
      requires Valid() && |Total(replies)| < UNSIGNED_LIMIT
      modifies this, buf
      ensures Valid() && used <= |available| && sent == old(sent) && closing == old(closing)
      ensures consumed == old(consumed) + available[..used]
      ensures outcome.NotReading? <==> old(response) != ""
      ensures outcome.Destroyed? <==> old(response) == "" && closing
      ensures outcome.NotReading? || outcome.Destroyed? ==> used == 0 && bufWritePos == old(bufWritePos)
      ensures ReadEnded(outcome, available, used, end, replies)
    {
      used := 0;
      assert available[..0] == "";
      if ResponseReady() {
        outcome := NotReading;
      } else if closing {
        outcome := Destroyed;
      } else {
        outcome, used := ReadOn(available, end, replies);
      }
    }

    /** How a read that found neither a response to be written nor the end of the connection went. */
    twostate predicate ReadEnded(outcome: ReadOutcome, available: string, used: nat, end: InputEnd, replies: seq<string>)
      requires old(bufWritePos) <= buf.Length && bufWritePos <= buf.Length && used <= |available|
      reads this, buf
    {
      // a line is what was in the buffer and what is read up to the newline
      && (outcome.LineRead? ==>
            && used > 0 && available[used - 1] == '\n' && OneLine(available[..used - 1])
            && old(bufWritePos) + used <= LINE_MAX && bufWritePos == 0
            && handed == old(handed) + [StripCR(old(buf[..bufWritePos]) + available[..used - 1])]
            && queued == old(queued) + Total(replies))
      && (outcome.Blocked? || outcome.ThrewClosed? ==>
            && used == |available| && OneLine(available) && bufWritePos == old(bufWritePos) + used < LINE_MAX
            && buf[..bufWritePos] == old(buf[..bufWritePos]) + available
            && (outcome.Blocked? <==> end == WouldBlock))
      // a line is too long exactly when its first 2000 bytes hold no newline
      && (outcome.LineTooLong? ==>
            && old(bufWritePos) + used == LINE_MAX && OneLine(available[..used]) && bufWritePos == 0
            && dropped == old(dropped) + LINE_MAX)
      && (!outcome.LineTooLong? ==> dropped == old(dropped) && kept == old(kept) + available[..used])
      && (!outcome.LineRead? ==> queued == old(queued) && response == old(response) && handed == old(handed))
    }

    method ReadOn(available: string, end: InputEnd, replies: seq<string>) returns (outcome: ReadOutcome, used: nat)
      requires Valid() && |Total(replies)| < UNSIGNED_LIMIT && response == ""
      modifies this, buf
      ensures Valid() && used <= |available| && sent == old(sent) && closing == old(closing)
      ensures consumed == old(consumed) + available[..used]
      ensures !outcome.NotReading? && !outcome.Destroyed?
      ensures ReadEnded(outcome, available, used, end, replies)
    {
      var ended;
      ended, used := ReadLine(available);
      assert available[..|available|] == available;
      if ended {
        assert available[..used][..used - 1] == available[..used - 1];
        ReadDone(replies);
        outcome := LineRead;
      } else if bufWritePos < LINE_MAX {
        outcome := if end.WouldBlock? then Blocked else ThrewClosed;
      } else {
        Forget();
        outcome := LineTooLong;
      }
    }

    /** The loop: it ends with a line, when no byte is left, or when the buffer is full. */
    method ReadLine(available: string) returns (ended: bool, used: nat)
      requires InputValid()
      modifies `bufWritePos, `consumed, `kept, buf
      ensures used <= |available|
      ensures Grown(old(consumed), old(kept), available[..used])
      ensures ended ==> ReadALine(available[..used], old(buf[..bufWritePos]))
      ensures !ended ==>
                && Reading(old(buf[..bufWritePos]), available[..used])
                && (bufWritePos < LINE_MAX ==> used == |available|)
    {
      used, ended := 0, false;
      ghost var held, all, wanted := buf[..bufWritePos], consumed, kept;
      AboutToRead();
      assert available[..0] == "";
      while bufWritePos < LINE_MAX && used < |available| && !ended
        invariant used <= |available| && Grown(all, wanted, available[..used])
        invariant if ended then ReadALine(available[..used], held) else Reading(held, available[..used])
        decreases |available| - used
      {
        NextByte(available, used, held, all, wanted);
        ended := available[used] == '\n';
        used := used + 1;
      }
    }

    /** The bytes read end with the newline of a line. */
    ghost predicate ReadALine(text: string, held: string)
      reads this, buf
    {
      text != "" && text[|text| - 1] == '\n' && |held| + |text| <= LINE_MAX && AtEnd(held, text[..|text| - 1])
    }

    lemma AboutToRead()
      requires InputValid()
      ensures Reading(buf[..bufWritePos], "") && Grown(consumed, kept, "")
    {
      ghost var held := buf[..bufWritePos];
      assert held + "" == held;
    }

    /** What has been read since consumed and kept had these values. */
    ghost predicate Grown(all: string, wanted: string, text: string)
      reads this
    {
      consumed == all + text && kept == wanted + text
    }

    /** One turn of the loop. */
    method NextByte(available: string, used: nat, ghost held: string, ghost all: string, ghost wanted: string)
      requires used < |available| && bufWritePos < LINE_MAX
      requires Reading(held, available[..used]) && Grown(all, wanted, available[..used])
      modifies `bufWritePos, `consumed, `kept, buf
      ensures Grown(all, wanted, available[..used + 1])
      ensures if available[used] == '\n' then ReadALine(available[..used + 1], held) else Reading(held, available[..used + 1])
    {
      ghost var text, c := available[..used], available[used];
      TakeMore(available, used);
      TakeByte(available[used], held, text);
      Regroup(all, text, [c]);
      Regroup(wanted, text, [c]);
      assert (text + [c])[..|text|] == text;
    }

    /** In the middle of a line: the buffer holds what it held and what was read since. */
    ghost predicate Reading(held: string, text: string)
      reads this, buf
    {
      && buf.Length == LINE_MAX && bufWritePos == |held| + |text| <= LINE_MAX
      && OneLine(text) && buf[..bufWritePos] == held + text
      && Splits(kept) && |kept| + dropped == |consumed| && (dropped == 0 ==> kept == consumed)
    }

    /** At the end of a line, which is in the buffer without a CR at its end. */
    ghost predicate AtEnd(held: string, text: string)
      reads this, buf
    {
      && buf.Length == LINE_MAX && bufWritePos < LINE_MAX
      && OneLine(text) && buf[..bufWritePos] == StripCR(held + text)
      && Partial(kept) == "" && LinesOf(kept) == handed + [buf[..bufWritePos]]
      && |kept| + dropped == |consumed| && (dropped == 0 ==> kept == consumed)
    }

    /** One byte read into the buffer; a newline and one CR before it are cut off. */
    method TakeByte(c: char, ghost held: string, ghost text: string)
      requires Reading(held, text) && bufWritePos < LINE_MAX
      modifies `bufWritePos, `consumed, `kept, buf
      ensures consumed == old(consumed) + [c] && kept == old(kept) + [c]
      ensures if c == '\n' then AtEnd(held, text) else Reading(held, text + [c])
    {
      PartialSnoc(kept, c);
      consumed, kept := consumed + [c], kept + [c];
      buf[bufWritePos] := c;
      assert buf[..bufWritePos] == held + text;
      if c == '\n' {
        CutLine();
      } else {
        TakeMore(buf[..], bufWritePos);
        Regroup(held, text, [c]);
        bufWritePos := bufWritePos + 1;
      }
    }

    /** The newline, and one CR before it, become NULs. */
    method CutLine()
      requires buf.Length == LINE_MAX && bufWritePos < LINE_MAX
      modifies `bufWritePos, buf
      ensures bufWritePos <= old(bufWritePos) && buf[..bufWritePos] == StripCR(old(buf[..bufWritePos]))
    {
      // permit both \r\n and \n
      buf[bufWritePos] := '\0';
      if bufWritePos > 0 && buf[bufWritePos - 1] == '\r' {
        buf[bufWritePos - 1] := '\0';
        bufWritePos := bufWritePos - 1;
      }
    }

    /** A line is complete: hand it over; what the receiver queues is added to the response. */
    method ReadDone(replies: seq<string>)
      requires response == "" && OutputValid() && |Total(replies)| < UNSIGNED_LIMIT
      requires exists held, text :: AtEnd(held, text)
      modifies this
      ensures Valid() && bufWritePos == 0 && handed == old(handed) + [old(buf[..bufWritePos])]
      ensures queued == old(queued) + Total(replies)
      ensures sent == old(sent) && consumed == old(consumed) && closing == old(closing)
      ensures kept == old(kept) && dropped == old(dropped)
    {
      handed := handed + [buf[..bufWritePos]];
      bufWritePos := 0;
      assert buf[..0] == "";
      var i := 0;
      while i < |replies|
        invariant 0 <= i <= |replies| && Valid() && bufWritePos == 0
        invariant queued == old(queued) + Total(replies[..i]) && response == Total(replies[..i])
        invariant handed == old(handed) + [old(buf[..bufWritePos])]
        invariant sent == old(sent) && consumed == old(consumed) && closing == old(closing)
        invariant kept == old(kept) && dropped == old(dropped)
      {
        TotalSnoc(replies, i);
        FinishedPart(kept);
        AddResponse(replies[i]);
        i := i + 1;
      }
      assert replies[..i] == replies;
    }
  }

  function Total(parts: seq<string>): string {
    if parts == [] then "" else Total(parts[..|parts| - 1]) + parts[|parts| - 1]
  }

  lemma {:induction false} TotalSnoc(parts: seq<string>, i: nat)
    requires i < |parts|
    ensures Total(parts[..i + 1]) == Total(parts[..i]) + parts[i]
    ensures |Total(parts[..i + 1])| <= |Total(parts)|
    decreases |parts| - i
  {
    assert parts[..i + 1][..i] == parts[..i];
    if i + 1 < |parts| {
      TotalSnoc(parts, i + 1);
    } else {
      assert parts[..i + 1] == parts;
    }
  }

  // --- whole runs ---

  /** What may happen to a connection: bytes arrive, the stream takes some of the unsent bytes, a response
      is queued out of turn, as the end of a transfer does, or the connection is to close after its output. */
  datatype Event =
    | Read(available: string, end: InputEnd, replies: seq<string>)
    | Write(taken: nat)
    | Queue(resp: string)
    | CloseAfterOutput

  ghost predicate SmallReplies(events: seq<Event>) {
    forall i :: 0 <= i < |events| && events[i].Read? ==> |Total(events[i].replies)| < UNSIGNED_LIMIT
  }

  /** What a run leaves to say: has it destroyed the responder, was a line too long, and was a response queued
      while half a line was buffered? */
  datatype Incidents = Incidents(destroyed: bool, tooLong: bool, outOfTurn: bool)

  /** A run in which no write returns -1. Whatever is queued when, the bytes written are a prefix of the
      responses queued, and all of them when the responder goes. However the input is cut up, the lines
      handed over are the split of the bytes kept; once everything queued is written, those are all the
      bytes read if and only if no line was too long and no response was queued while half a line was buffered.
      Writes that take something get the greeting out. */
  method Serve(greeting: string, events: seq<Event>) returns (r: Responder, seen: Incidents)
    requires |greeting| < UNSIGNED_LIMIT && SmallReplies(events)
    ensures fresh(r) && r.Valid()
    ensures r.sent <= r.queued && greeting <= r.queued
    ensures r.response == "" || seen.destroyed ==> r.sent == r.queued
    ensures r.handed == LinesOf(r.kept) && r.buf[..r.bufWritePos] == Partial(r.kept)
    ensures !seen.tooLong && !seen.outOfTurn ==> r.kept == r.consumed
    ensures r.response == "" ==> (r.kept == r.consumed <==> !seen.tooLong && !seen.outOfTurn)
    ensures Writing(events) && |events| >= |greeting| ==> r.sent == greeting
  {
    r := new Responder();
    r.AddResponse(greeting);
    seen := Incidents(false, false, false);
    var i := 0;
    while i < |events| && !seen.destroyed
      invariant fresh(r) && fresh(r.buf) && 0 <= i <= |events| && r.Valid() && greeting <= r.queued
      invariant seen.destroyed ==> r.response == ""
      invariant Told(r, seen)
      invariant Writing(events) ==>
                  !seen.destroyed && r.queued == greeting && (|r.sent| >= i || |r.sent| == |greeting|)
    {
      seen := Happen(r, events[i], seen);
      i := i + 1;
    }
  }

  /** Only writes, each of which takes something. */
  predicate Writing(events: seq<Event>) {
    forall i :: 0 <= i < |events| ==> events[i].Write? && events[i].taken > 0
  }

  /** The incidents account for every byte lost or about to be. */
  ghost predicate Told(r: Responder, seen: Incidents)
    reads r
  {
    && (!seen.tooLong && !seen.outOfTurn ==> r.dropped == 0 && (r.response != "" ==> r.bufWritePos == 0))
    && (seen.tooLong ==> r.dropped > 0)
    && (seen.outOfTurn ==> r.dropped > 0 || (r.response != "" && r.bufWritePos > 0))
  }

  /** One event of a run. */
  method Happen(r: Responder, event: Event, before: Incidents) returns (seen: Incidents)
    requires r.Valid() && Told(r, before) && !before.destroyed
    requires event.Read? ==> |Total(event.replies)| < UNSIGNED_LIMIT
    modifies r, r.buf
    ensures r.Valid() && Told(r, seen) && old(r.queued) <= r.queued
    ensures seen.destroyed ==> r.response == "" && event.Read?
    // every event does its work
    ensures event.Read? && old(r.response) == "" ==>
              && (seen.destroyed <==> r.closing)
              && (!r.closing && event.available != "" ==> |r.consumed| > |old(r.consumed)|)
    ensures event.Write? ==>
              && r.queued == old(r.queued)
              && |r.sent| == if |old(r.sent)| + event.taken > |r.queued| then |r.queued| else |old(r.sent)| + event.taken
    ensures event.Queue? && |old(r.response)| + |event.resp| < UNSIGNED_LIMIT ==> r.queued == old(r.queued) + event.resp
    ensures r.closing <==> old(r.closing) || event.CloseAfterOutput?
  {
    seen := before;
    match event {
      case Read(available, end, replies) =>
        var outcome, used := r.ReadIn(available, end, replies);
        seen := Incidents(outcome.Destroyed?, seen.tooLong || outcome.LineTooLong?, seen.outOfTurn);
      case Write(taken) =>
        var ret := if taken > r.writeBufLen - r.writeBufPos then r.writeBufLen - r.writeBufPos else taken;
        r.WriteOut(ret);
      case Queue(resp) =>
        if |r.response| + |resp| < UNSIGNED_LIMIT {
          seen := seen.(outOfTurn := seen.outOfTurn || r.bufWritePos > 0);
          r.AddResponse(resp);
        }
      case CloseAfterOutput =>
        r.closing := true;
    }
  }

  /** A transfer that ends while half a command is buffered: the rest of the command comes out alone. */
  method HalfCommandLost() returns (r: Responder)
    ensures fresh(r) && r.consumed == "NOOP\n" && r.handed == ["OP"] && LinesOf(r.consumed) == ["NOOP"]
  {
    r := new Responder();
    var outcome, used := r.ReadIn("NO", WouldBlock, []);
    assert outcome.Blocked? && r.bufWritePos == 2 && r.consumed == "NO";
    r.AddResponse("226\r\n");
    r.WriteOut(5);
    assert r.response == "" && r.bufWritePos == 0 && r.handed == [];
    ReadRest(r, "OP");
    LineFinished("", "NOOP");
    assert "" + "NOOP" + "\n" == "NOOP\n" && "" + "NOOP" == "NOOP";
  }

  /** An idle responder with an empty buffer reads one line. */
  method ReadRest(r: Responder, text: string)
    requires r.Valid() && r.response == "" && !r.closing && r.bufWritePos == 0
    requires OneLine(text) && |text| + 1 < LINE_MAX
    modifies r, r.buf
    ensures r.consumed == old(r.consumed) + (text + "\n") && r.handed == old(r.handed) + [StripCR(text)]
  {
    var line := text + "\n";
    var outcome, used := r.ReadIn(line, WouldBlock, []);
    assert line[|text|] == '\n' && line[..|text|] == text && line[..|line|] == line;
    assert outcome.LineRead?;
    assert used == |line|;
    assert old(r.buf[..r.bufWritePos]) + text == text;
  }
}
